/**
 * Fabletics (`_clean_fabletics`): the style is the first `-` field of the
 * item name and the style-colour the first two joined again by `-`;
 * description, colour and size are `/` fields 1 to 3. With a reference table,
 * a first merge on the style brings in the reference columns the table lacks,
 * and a second merge on the style-colour completes the division. The result
 * is projected on a fixed column order; the closing statistics read four of
 * those columns and fail when one is absent.
 */
module Fabletics {
  import opened Wrappers
  import opened Text
  import opened Frame
  import opened Enrich
  import opened Rules

  /** The labels the routine derives from the item name, in the order it assigns them. */
  const DerivedLabels: seq<string> := ["U_Estilo", "U_Estilo_Color", "U_Descripcion", "U_Descrip_Color", "U_Talla"]

  /** The output column order. */
  const ColumnOrder: seq<string> := ["ItemName", "ItemCode", "Empresa", "U_Estilo", "U_Estilo_Color",
                                    "U_Descripcion", "U_Descrip_Color", "U_Talla", "U_Genero", "U_Segmento",
                                    "U_Prenda", "U_Subprenda", "U_Categoria", "U_Division"]

  /** The columns the closing statistics read, in the order they read them. */
  const StatColumns: seq<string> := ["U_Genero", "U_Segmento", "U_Prenda", "U_Categoria"]

  /** The two pairs of key and column the second merge uses. */
  const DivisionColumns: seq<string> := ["U_Estilo_Color", "U_Division"]

  // ---------------------------------------------------------------------
  // The specification
  // ---------------------------------------------------------------------

  /** The reference columns the first merge brings: those the derived table lacks, but never the division. */
  function Brought(t: Table, reference: Table): seq<string> {
    Without(reference.columns, ColumnSet(t.columns) + ColumnSet(DerivedLabels) + {"U_Division"})
  }

  /** The first merge runs when there is a reference table and it has a column to bring. */
  predicate FirstMerge(t: Table, reference: Table) {
    !IsEmpty(reference) && |Brought(t, reference)| > 0
  }

  /** The second merge runs when the reference has both the style-colour and the division. */
  predicate SecondMerge(reference: Table) {
    !IsEmpty(reference) && "U_Estilo_Color" in reference.columns && "U_Division" in reference.columns
  }

  /**
   * Neither the input nor the reference has a label shaped like one of the
   * merges' suffixed copies.
   */
  predicate NoCopies(t: Table, reference: Table) {
    IsEmpty(reference) ||
    ((forall c :: c in reference.columns ==> c + "_ref" !in t.columns && c + "_ref" !in reference.columns) &&
     "U_Division_div" !in t.columns && "U_Division_div" !in reference.columns)
  }

  /** A cell after the derivations. */
  function Derived(row: Row, x: string): Cell {
    var name := Get(row, "ItemName");
    if x == "U_Estilo" then Field(name, '-', 0)
    else if x == "U_Estilo_Color" then StyleColor(name)
    else if x == "U_Descripcion" then Field(name, '/', 1)
    else if x == "U_Descrip_Color" then Field(name, '/', 2)
    else if x == "U_Talla" then Field(name, '/', 3)
    else Get(row, x)
  }

  /** A cell after the first merge: the style made text, and a brought-in column from the first reference row with that text. */
  function ByStyle(row: Row, reference: Table, brought: seq<string>, x: string): Cell {
    var key := KeyText(Field(Get(row, "ItemName"), '-', 0), false);
    if x == "U_Estilo" then Some(key)
    else if x in brought && Derived(row, x).None?
    then Lookup(CoercedRows(reference.rows, "U_Estilo", false), "U_Estilo", Some(key), x)
    else Derived(row, x)
  }

  function AfterFirst(row: Row, reference: Table, first: bool, brought: seq<string>, x: string): Cell {
    if first then ByStyle(row, reference, brought, x) else Derived(row, x)
  }

  /** A cell after the second merge: the style-colour made text, and a null division from the first reference row with that text. */
  function ByStyleColor(row: Row, reference: Table, first: bool, brought: seq<string>, x: string): Cell {
    var prev := AfterFirst(row, reference, first, brought, x);
    var key := KeyText(StyleColor(Get(row, "ItemName")), false);
    if x == "U_Estilo_Color" then Some(key)
    else if x == "U_Division" && prev.None?
    then Lookup(CoercedRows(reference.rows, "U_Estilo_Color", false), "U_Estilo_Color", Some(key), "U_Division")
    else prev
  }

  /** A cell of the output, for a row of the input. */
  function Final(row: Row, t: Table, reference: Table, x: string): Cell {
    var first := FirstMerge(t, reference);
    var brought := Brought(t, reference);
    if SecondMerge(reference) then ByStyleColor(row, reference, first, brought, x)
    else AfterFirst(row, reference, first, brought, x)
  }

  /** The labels present before the projection. */
  function Present(t: Table, reference: Table): set<string> {
    ColumnSet(t.columns) + ColumnSet(DerivedLabels) +
    (if FirstMerge(t, reference) then ColumnSet(Brought(t, reference)) else {}) +
    (if SecondMerge(reference) then {"U_Division"} else {})
  }

  /** The labels of the output: the fixed order's labels that are present, in that order. */
  function OutputColumns(t: Table, reference: Table): seq<string> {
    Only(ColumnOrder, Present(t, reference))
  }

  ghost predicate Cleaned(t: Table, reference: Table, out: Table) {
    WellFormed(out) &&
    out.columns == OutputColumns(t, reference) &&
    |out.rows| == |t.rows| &&
    forall k, x :: 0 <= k < |t.rows| && x in out.columns ==> Get(out.rows[k], x) == Final(t.rows[k], t, reference, x)
  }

  // ---------------------------------------------------------------------
  // The routine
  // ---------------------------------------------------------------------

  method Clean(t: Table, reference: Table) returns (r: Result<Table, CleanError>)
    requires WellFormed(t) && WellFormed(reference) && "ItemName" in t.columns
    ensures r.Ok? ==> |r.value.rows| == |t.rows|
    ensures FirstMerge(t, reference) && "U_Estilo" !in reference.columns ==> r == Err(KeyError(["U_Estilo"]))
    ensures !(FirstMerge(t, reference) && "U_Estilo" !in reference.columns) && NoCopies(t, reference) ==>
              var missing := Missing(StatColumns, OutputColumns(t, reference));
              (missing != [] ==> r == Err(KeyError([missing[0]]))) &&
              (missing == [] ==> r.Ok? && Cleaned(t, reference, r.value))
  {
    var fb := DeriveColumns(t);
    var fb2 := fb;
    if IsEmpty(reference) {
      SkipFirst(t, reference, fb);
      SkipSecond(t, reference, fb);
    } else {
      var first := StyleMerge(t, reference, fb);
      if first.Err? {
        return Err(first.error);
      }
      var second := StyleColorMerge(t, reference, first.value);
      if second.Err? {
        return Err(second.error);
      }
      fb2 := second.value;
    }
    OrderDistinct();
    var out := Reindex(fb2, Only(ColumnOrder, ColumnSet(fb2.columns)));
    if NoCopies(t, reference) {
      Projected(t, reference, fb2, out);
    }
    var missing := Missing(StatColumns, out.columns);
    if missing != [] {
      return Err(KeyError([missing[0]]));
    }
    r := Ok(out);
  }

  /** The first merge, on the style, when the reference has columns to bring. */
  method StyleMerge(t: Table, reference: Table, fb: Table) returns (r: Result<Table, CleanError>)
    requires WellFormed(t) && WellFormed(reference) && !IsEmpty(reference) && AfterDerive(t, fb)
    ensures r.Ok? ==> WellFormed(r.value) && |r.value.rows| == |t.rows|
    ensures FirstMerge(t, reference) && "U_Estilo" !in reference.columns ==> r == Err(KeyError(["U_Estilo"]))
    ensures !(FirstMerge(t, reference) && "U_Estilo" !in reference.columns) && NoCopies(t, reference) ==>
              r.Ok? && AfterFirstMerge(t, reference, r.value)
  {
    // The reference columns the table already has, but the key, are not brought again; nor is the division.
    var common := Without(Only(fb.columns, ColumnSet(reference.columns)), {"U_Estilo"});
    var toDrop := Without(common, {"U_Division"});
    var rest := Without(reference.columns, ColumnSet(toDrop) + {"U_Estilo", "U_Estilo_Color", "U_Division"});
    BroughtIs(t, reference, fb, common, toDrop, rest);
    if |rest| == 0 {
      SkipFirst(t, reference, fb);
      return Ok(fb);
    }
    if "U_Estilo" !in reference.columns {
      return Err(KeyError(["U_Estilo"]));
    }
    KeyFirst(t, reference);
    var right := Prepare(reference, ["U_Estilo"] + rest, "U_Estilo", false);
    assert "U_Estilo" in ColumnSet(DerivedLabels);
    var left := CoerceKey(fb, "U_Estilo", false);
    if NoCopies(t, reference) {
      FirstFresh(t, reference, fb, right);
    }
    r := MergeFill(left, right, "U_Estilo", "_ref", RightColumns(right, "U_Estilo"), false);
    if r.Ok? && NoCopies(t, reference) {
      FirstCells(t, reference, fb, right, left, r.value);
    }
  }

  /** The second merge, on the style-colour, when the reference has it and the division. */
  method StyleColorMerge(t: Table, reference: Table, fb1: Table) returns (r: Result<Table, CleanError>)
    requires WellFormed(t) && WellFormed(reference) && !IsEmpty(reference)
    requires WellFormed(fb1) && |fb1.rows| == |t.rows|
    ensures r.Ok? ==> WellFormed(r.value) && |r.value.rows| == |t.rows|
    ensures NoCopies(t, reference) && AfterFirstMerge(t, reference, fb1) ==> r.Ok? && AfterSecondMerge(t, reference, r.value)
  {
    if !("U_Estilo_Color" in reference.columns && "U_Division" in reference.columns) {
      if NoCopies(t, reference) && AfterFirstMerge(t, reference, fb1) {
        SkipSecond(t, reference, fb1);
      }
      return Ok(fb1);
    }
    if AfterFirstMerge(t, reference, fb1) {
      assert "U_Estilo_Color" in ColumnSet(DerivedLabels);
      assert "U_Estilo_Color" in ColumnSet(fb1.columns);
    }
    if "U_Estilo_Color" !in fb1.columns {
      // The derivations assign the style-colour and no merge drops it, so this only guards tables
      // the first merge's contract leaves undescribed; `df_fb['U_Estilo_Color']` would raise there.
      return Err(KeyError(["U_Estilo_Color"]));
    }
    DivisionLabels();
    var right := Prepare(reference, DivisionColumns, "U_Estilo_Color", false);
    var left := CoerceKey(fb1, "U_Estilo_Color", false);
    if NoCopies(t, reference) && AfterFirstMerge(t, reference, fb1) {
      StageLabels(t, reference, fb1);
      SecondFresh(t, reference, fb1, right);
      KeyFirst(t, reference);
    }
    r := MergeFill(left, right, "U_Estilo_Color", "_div", ["U_Division"], false);
    if r.Ok? && NoCopies(t, reference) && AfterFirstMerge(t, reference, fb1) {
      SecondCells(t, reference, fb1, right, left, r.value);
    }
  }

  // ---------------------------------------------------------------------
  // The derivations
  // ---------------------------------------------------------------------

  method DeriveColumns(t: Table) returns (fb: Table)
    requires WellFormed(t)
    ensures WellFormed(fb) && |fb.rows| == |t.rows|
    ensures fb.columns == t.columns + Without(DerivedLabels, ColumnSet(t.columns))
    ensures ColumnSet(fb.columns) == ColumnSet(t.columns) + ColumnSet(DerivedLabels)
    ensures forall k, x :: 0 <= k < |t.rows| ==> Get(fb.rows[k], x) == Derived(t.rows[k], x)
  {
    var styles := FieldColumn(t, "ItemName", '-', 0);
    var styleColors := StyleColorColumn(t);
    var descriptions := FieldColumn(t, "ItemName", '/', 1);
    var colors := FieldColumn(t, "ItemName", '/', 2);
    var sizes := FieldColumn(t, "ItemName", '/', 3);
    var d1 := SetColumn(t, "U_Estilo", styles);
    var d2 := SetColumn(d1, "U_Estilo_Color", styleColors);
    var d3 := SetColumn(d2, "U_Descripcion", descriptions);
    var d4 := SetColumn(d3, "U_Descrip_Color", colors);
    fb := SetColumn(d4, "U_Talla", sizes);
    DerivedColumns(t.columns, d1.columns, d2.columns, d3.columns, d4.columns, fb.columns);
    forall k | 0 <= k < |t.rows| ensures forall x :: Get(fb.rows[k], x) == Derived(t.rows[k], x) {
      var name := Get(t.rows[k], "ItemName");
      assert fb.rows[k] == t.rows[k]["U_Estilo" := Field(name, '-', 0)]["U_Estilo_Color" := StyleColor(name)]
                                    ["U_Descripcion" := Field(name, '/', 1)]["U_Descrip_Color" := Field(name, '/', 2)]
                                    ["U_Talla" := Field(name, '/', 3)];
      DerivedRow(t.rows[k], fb.rows[k]);
    }
  }

  /** `s.str.split('-').str[:2].str.join('-')` of every row. */
  function StyleColorColumn(t: Table): (vals: seq<Cell>)
    ensures |vals| == |t.rows|
    ensures forall k :: 0 <= k < |t.rows| ==> vals[k] == StyleColor(Get(t.rows[k], "ItemName"))
  {
    seq(|t.rows|, k requires 0 <= k < |t.rows| => StyleColor(Get(t.rows[k], "ItemName")))
  }

  lemma DerivedRow(row: Row, o: Row)
    requires var name := Get(row, "ItemName");
             o == row["U_Estilo" := Field(name, '-', 0)]["U_Estilo_Color" := StyleColor(name)]
                     ["U_Descripcion" := Field(name, '/', 1)]["U_Descrip_Color" := Field(name, '/', 2)]
                     ["U_Talla" := Field(name, '/', 3)]
    ensures forall x :: Get(o, x) == Derived(row, x)
  {
  }

  lemma DerivedColumns(cs: seq<string>, c1: seq<string>, c2: seq<string>, c3: seq<string>, c4: seq<string>, c5: seq<string>)
    requires c1 == AddLabel(cs, "U_Estilo") && c2 == AddLabel(c1, "U_Estilo_Color")
    requires c3 == AddLabel(c2, "U_Descripcion") && c4 == AddLabel(c3, "U_Descrip_Color")
    requires c5 == AddLabel(c4, "U_Talla")
    ensures c5 == cs + Without(DerivedLabels, ColumnSet(cs))
    ensures ColumnSet(c5) == ColumnSet(cs) + ColumnSet(DerivedLabels)
  {
    DerivedPrefixes();
    assert Without([], ColumnSet(cs)) == [];
    AssignAppends(cs, DerivedLabels[..0], DerivedLabels[0], cs + []);
    AssignAppends(cs, DerivedLabels[..1], DerivedLabels[1], c1);
    AssignAppends(cs, DerivedLabels[..2], DerivedLabels[2], c2);
    AssignAppends(cs, DerivedLabels[..3], DerivedLabels[3], c3);
    AssignAppends(cs, DerivedLabels[..4], DerivedLabels[4], c4);
    ColumnSetConcat(cs, Without(DerivedLabels, ColumnSet(cs)));
  }

  lemma DerivedPrefixes()
    ensures DerivedLabels[..0] == [] && DerivedLabels[..4] + [DerivedLabels[4]] == DerivedLabels
    ensures forall i :: 0 <= i < 4 ==> DerivedLabels[..i] + [DerivedLabels[i]] == DerivedLabels[..i + 1]
    ensures forall i :: 0 <= i < 5 ==> DerivedLabels[i] !in DerivedLabels[..i]
    ensures DerivedLabels[0] == "U_Estilo" && DerivedLabels[1] == "U_Estilo_Color" && DerivedLabels[2] == "U_Descripcion" &&
            DerivedLabels[3] == "U_Descrip_Color" && DerivedLabels[4] == "U_Talla"
  {
  }

  // ---------------------------------------------------------------------
  // The labels the merges bring
  // ---------------------------------------------------------------------

  /** The labels computed as the routine does give exactly the reference columns the derived table lacks, but the division. */
  lemma BroughtIs(t: Table, reference: Table, fb: Table, common: seq<string>, toDrop: seq<string>, rest: seq<string>)
    requires ColumnSet(fb.columns) == ColumnSet(t.columns) + ColumnSet(DerivedLabels)
    requires common == Without(Only(fb.columns, ColumnSet(reference.columns)), {"U_Estilo"})
    requires toDrop == Without(common, {"U_Division"})
    requires rest == Without(reference.columns, ColumnSet(toDrop) + {"U_Estilo", "U_Estilo_Color", "U_Division"})
    ensures rest == Brought(t, reference)
  {
    var target := ColumnSet(t.columns) + ColumnSet(DerivedLabels) + {"U_Division"};
    var dropped := ColumnSet(toDrop) + {"U_Estilo", "U_Estilo_Color", "U_Division"};
    forall i | 0 <= i < |reference.columns| ensures reference.columns[i] in dropped <==> reference.columns[i] in target {
      BroughtLabel(t, reference, fb, common, toDrop, reference.columns[i]);
    }
    WithoutSame(reference.columns, dropped, target);
  }

  lemma BroughtLabel(t: Table, reference: Table, fb: Table, common: seq<string>, toDrop: seq<string>, c: string)
    requires ColumnSet(fb.columns) == ColumnSet(t.columns) + ColumnSet(DerivedLabels)
    requires common == Without(Only(fb.columns, ColumnSet(reference.columns)), {"U_Estilo"})
    requires toDrop == Without(common, {"U_Division"})
    requires c in reference.columns
    ensures c in ColumnSet(toDrop) + {"U_Estilo", "U_Estilo_Color", "U_Division"} <==>
            c in ColumnSet(t.columns) + ColumnSet(DerivedLabels) + {"U_Division"}
  {
    DroppedLabel(reference, fb, common, toDrop, c);
    KeysDerived();
    var inFb := c in ColumnSet(fb.columns);
    assert inFb <==> c in ColumnSet(t.columns) + ColumnSet(DerivedLabels);
    assert c in ColumnSet(toDrop) + {"U_Estilo", "U_Estilo_Color", "U_Division"} <==> inFb || c == "U_Division";
  }

  lemma KeysDerived()
    ensures "U_Estilo" in ColumnSet(DerivedLabels) && "U_Estilo_Color" in ColumnSet(DerivedLabels)
  {
    assert DerivedLabels[0] == "U_Estilo";
  }

  /** A reference label is among those to drop exactly when the derived table has it and it is neither the key nor the division. */
  lemma DroppedLabel(reference: Table, fb: Table, common: seq<string>, toDrop: seq<string>, c: string)
    requires common == Without(Only(fb.columns, ColumnSet(reference.columns)), {"U_Estilo"})
    requires toDrop == Without(common, {"U_Division"})
    requires c in reference.columns
    ensures c in ColumnSet(toDrop) <==> c in ColumnSet(fb.columns) && c != "U_Estilo" && c != "U_Division"
  {
    WithoutMember(common, {"U_Division"}, c);
    WithoutMember(Only(fb.columns, ColumnSet(reference.columns)), {"U_Estilo"}, c);
    OnlyMember(fb.columns, ColumnSet(reference.columns), c);
    assert c in toDrop <==> c in ColumnSet(toDrop);
    assert c in fb.columns <==> c in ColumnSet(fb.columns);
  }

  /** The first merge's reference columns are distinct labels, the key first. */
  lemma KeyFirst(t: Table, reference: Table)
    requires WellFormed(reference)
    ensures Distinct(["U_Estilo"] + Brought(t, reference))
    ensures Without(["U_Estilo"] + Brought(t, reference), {"U_Estilo"}) == Brought(t, reference)
    ensures "U_Estilo_Color" !in Brought(t, reference) && "U_Estilo" !in Brought(t, reference)
  {
    var rest := Brought(t, reference);
    var drop := ColumnSet(t.columns) + ColumnSet(DerivedLabels) + {"U_Division"};
    assert "U_Estilo" in ColumnSet(DerivedLabels) && "U_Estilo_Color" in ColumnSet(DerivedLabels);
    WithoutMember(reference.columns, drop, "U_Estilo");
    WithoutMember(reference.columns, drop, "U_Estilo_Color");
    DistinctCons("U_Estilo", rest);
    KeyAhead("U_Estilo", rest);
  }

  /** Dropping the key from the key followed by other labels leaves those labels. */
  lemma KeyAhead(key: string, rest: seq<string>)
    requires key !in rest
    ensures Without([key] + rest, {key}) == rest
  {
    WithoutConcat([key], rest, {key});
    assert Without([key], {key}) == [] by {
      assert [key][1..] == [];
    }
    forall i | 0 <= i < |rest| ensures rest[i] !in {key} {
    }
    WithoutNone(rest, {key});
    assert [] + rest == rest;
  }

  lemma DivisionLabels()
    ensures Distinct(DivisionColumns) && "U_Estilo_Color" in DivisionColumns
    ensures Without(DivisionColumns, {"U_Estilo_Color"}) == ["U_Division"]
  {
    KeyAhead("U_Estilo_Color", ["U_Division"]);
  }

  /** A label ending in a character no derived label ends in is not a derived label. */
  lemma NotDerivedCopy(c: string, suffix: string)
    requires |suffix| > 0 && suffix[|suffix| - 1] !in {'o', 'r', 'n', 'a'}
    ensures c + suffix !in DerivedLabels
  {
    var s := c + suffix;
    assert s[|s| - 1] == suffix[|suffix| - 1];
  }

  /** Without copies in the input, the first merge's fill loop completes every brought column. */
  lemma FirstFresh(t: Table, reference: Table, fb: Table, right: Table)
    requires WellFormed(reference) && !IsEmpty(reference) && NoCopies(t, reference)
    requires ColumnSet(fb.columns) == ColumnSet(t.columns) + ColumnSet(DerivedLabels)
    requires right.columns == ["U_Estilo"] + Brought(t, reference)
    ensures RightColumns(right, "U_Estilo") == Brought(t, reference)
    ensures Fresh(fb.columns, RightColumns(right, "U_Estilo"), RightColumns(right, "U_Estilo"), "_ref")
  {
    KeyFirst(t, reference);
    var rest := Brought(t, reference);
    var drop := ColumnSet(t.columns) + ColumnSet(DerivedLabels) + {"U_Division"};
    assert RightColumns(right, "U_Estilo") == rest;
    forall a, b | a in rest && b in rest ensures a != b + "_ref" {
      WithoutMember(reference.columns, drop, a);
      WithoutMember(reference.columns, drop, b);
    }
    forall c | c in rest ensures c + "_ref" !in fb.columns {
      WithoutMember(reference.columns, drop, c);
      NotDerivedCopy(c, "_ref");
      assert c + "_ref" in fb.columns <==> c + "_ref" in ColumnSet(fb.columns);
    }
  }

  /** Without copies in the input, the second merge's fill loop completes the division. */
  lemma SecondFresh(t: Table, reference: Table, fb1: Table, right: Table)
    requires WellFormed(reference) && !IsEmpty(reference) && NoCopies(t, reference)
    requires forall x :: x in ColumnSet(fb1.columns) ==> x in ColumnSet(t.columns) + ColumnSet(DerivedLabels) + ColumnSet(reference.columns)
    requires right.columns == DivisionColumns
    ensures RightColumns(right, "U_Estilo_Color") == ["U_Division"]
    ensures Fresh(fb1.columns, RightColumns(right, "U_Estilo_Color"), ["U_Division"], "_div")
  {
    DivisionLabels();
    assert "U_Division_div" == "U_Division" + "_div";
    assert "U_Division_div" !in ColumnSet(DerivedLabels);
    assert "U_Division_div" !in ColumnSet(fb1.columns);
    assert Distinct(["U_Division"]);
  }

  /** After the first merge, every label comes from the input, the derivations or the reference. */
  lemma StageLabels(t: Table, reference: Table, fb1: Table)
    requires AfterFirstMerge(t, reference, fb1)
    ensures forall x :: x in ColumnSet(fb1.columns) ==> x in ColumnSet(t.columns) + ColumnSet(DerivedLabels) + ColumnSet(reference.columns)
  {
    forall x | x in ColumnSet(fb1.columns)
      ensures x in ColumnSet(t.columns) + ColumnSet(DerivedLabels) + ColumnSet(reference.columns)
    {
      if FirstMerge(t, reference) && x in ColumnSet(Brought(t, reference)) {
        BroughtAreNew(t, reference, x);
      }
    }
  }

  // ---------------------------------------------------------------------
  // The stages
  // ---------------------------------------------------------------------

  ghost predicate AfterDerive(t: Table, fb: Table) {
    WellFormed(fb) && |fb.rows| == |t.rows| &&
    ColumnSet(fb.columns) == ColumnSet(t.columns) + ColumnSet(DerivedLabels) &&
    forall k, x :: 0 <= k < |t.rows| ==> Get(fb.rows[k], x) == Derived(t.rows[k], x)
  }

  ghost predicate AfterFirstMerge(t: Table, reference: Table, fb1: Table) {
    WellFormed(fb1) && |fb1.rows| == |t.rows| &&
    ColumnSet(fb1.columns) == ColumnSet(t.columns) + ColumnSet(DerivedLabels) +
                              (if FirstMerge(t, reference) then ColumnSet(Brought(t, reference)) else {}) &&
    forall k, x :: 0 <= k < |t.rows| ==>
      Get(fb1.rows[k], x) == AfterFirst(t.rows[k], reference, FirstMerge(t, reference), Brought(t, reference), x)
  }

  ghost predicate AfterSecondMerge(t: Table, reference: Table, fb2: Table) {
    WellFormed(fb2) && |fb2.rows| == |t.rows| &&
    ColumnSet(fb2.columns) == Present(t, reference) &&
    forall k, x :: 0 <= k < |t.rows| ==> Get(fb2.rows[k], x) == Final(t.rows[k], t, reference, x)
  }

  lemma SkipFirst(t: Table, reference: Table, fb: Table)
    requires AfterDerive(t, fb) && !FirstMerge(t, reference)
    ensures AfterFirstMerge(t, reference, fb)
  {
  }

  lemma SkipSecond(t: Table, reference: Table, fb1: Table)
    requires AfterFirstMerge(t, reference, fb1) && !SecondMerge(reference)
    ensures AfterSecondMerge(t, reference, fb1)
  {
  }

  /** The first merge: the style made text, and each brought column from the first reference row with that style. */
  lemma FirstCells(t: Table, reference: Table, fb: Table, right: Table, left: Table, fb1: Table)
    requires WellFormed(t) && WellFormed(reference) && AfterDerive(t, fb) && FirstMerge(t, reference)
    requires Distinct(["U_Estilo"] + Brought(t, reference)) && "U_Estilo" !in Brought(t, reference)
    requires "U_Estilo_Color" !in Brought(t, reference)
    requires right == Prepare(reference, ["U_Estilo"] + Brought(t, reference), "U_Estilo", false)
    requires RightColumns(right, "U_Estilo") == Brought(t, reference)
    requires left.columns == fb.columns && left.rows == CoercedRows(fb.rows, "U_Estilo", false)
    requires Completed(left, right, "U_Estilo", fb1)
    ensures AfterFirstMerge(t, reference, fb1)
  {
    var rest := Brought(t, reference);
    FirstLabels(t, reference, fb);
    FirstRows(t, reference, fb, right, left, fb1, rest);
  }

  /** The brought labels are new to the derived table, so the first merge appends all of them. */
  lemma FirstLabels(t: Table, reference: Table, fb: Table)
    requires ColumnSet(fb.columns) == ColumnSet(t.columns) + ColumnSet(DerivedLabels)
    ensures Without(Brought(t, reference), ColumnSet(fb.columns)) == Brought(t, reference)
    ensures ColumnSet(fb.columns + Brought(t, reference)) == ColumnSet(fb.columns) + ColumnSet(Brought(t, reference))
  {
    var rest := Brought(t, reference);
    var drop := ColumnSet(t.columns) + ColumnSet(DerivedLabels) + {"U_Division"};
    forall i | 0 <= i < |rest| ensures rest[i] !in ColumnSet(fb.columns) {
      WithoutMember(reference.columns, drop, rest[i]);
    }
    WithoutNone(rest, ColumnSet(fb.columns));
    ColumnSetConcat(fb.columns, rest);
  }

  lemma FirstRows(t: Table, reference: Table, fb: Table, right: Table, left: Table, fb1: Table, rest: seq<string>)
    requires |fb.rows| == |t.rows| && forall k, x :: 0 <= k < |t.rows| ==> Get(fb.rows[k], x) == Derived(t.rows[k], x)
    requires RightColumns(right, "U_Estilo") == rest && "U_Estilo" !in rest
    requires forall m, c :: c in rest ==>
               Lookup(right.rows, "U_Estilo", m, c) == Lookup(CoercedRows(reference.rows, "U_Estilo", false), "U_Estilo", m, c)
    requires left.rows == CoercedRows(fb.rows, "U_Estilo", false)
    requires |left.rows| == |fb1.rows| && forall k, x :: 0 <= k < |left.rows| ==> Get(fb1.rows[k], x) == CompletedCell(left.rows[k], right, "U_Estilo", x)
    ensures forall k, x :: 0 <= k < |t.rows| ==> Get(fb1.rows[k], x) == ByStyle(t.rows[k], reference, rest, x)
  {
    forall k | 0 <= k < |t.rows|
      ensures forall x :: Get(fb1.rows[k], x) == ByStyle(t.rows[k], reference, rest, x)
    {
      FirstRow(t.rows[k], fb.rows[k], left.rows[k], fb1.rows[k], reference, right, rest);
    }
  }

  lemma FirstRow(row: Row, frow: Row, lrow: Row, orow: Row, reference: Table, right: Table, brought: seq<string>)
    requires forall x :: Get(frow, x) == Derived(row, x)
    requires lrow == frow["U_Estilo" := Some(KeyText(Get(frow, "U_Estilo"), false))]
    requires RightColumns(right, "U_Estilo") == brought && "U_Estilo" !in brought
    requires forall m, c :: c in brought ==>
               Lookup(right.rows, "U_Estilo", m, c) == Lookup(CoercedRows(reference.rows, "U_Estilo", false), "U_Estilo", m, c)
    requires forall x :: Get(orow, x) == CompletedCell(lrow, right, "U_Estilo", x)
    ensures forall x :: Get(orow, x) == ByStyle(row, reference, brought, x)
  {
    var key := KeyText(Field(Get(row, "ItemName"), '-', 0), false);
    assert Get(lrow, "U_Estilo") == Some(key);
    forall x ensures Get(orow, x) == ByStyle(row, reference, brought, x) {
      if x != "U_Estilo" {
        assert Get(lrow, x) == Derived(row, x);
      }
    }
  }

  /** The second merge: the style-colour made text, and a null division from the first reference row with that style-colour. */
  lemma SecondCells(t: Table, reference: Table, fb1: Table, right: Table, left: Table, fb2: Table)
    requires WellFormed(t) && WellFormed(reference) && AfterFirstMerge(t, reference, fb1) && SecondMerge(reference)
    requires "U_Estilo_Color" !in Brought(t, reference)
    requires Distinct(DivisionColumns)
    requires right == Prepare(reference, DivisionColumns, "U_Estilo_Color", false)
    requires RightColumns(right, "U_Estilo_Color") == ["U_Division"]
    requires left.columns == fb1.columns && left.rows == CoercedRows(fb1.rows, "U_Estilo_Color", false)
    requires Completed(left, right, "U_Estilo_Color", fb2)
    ensures AfterSecondMerge(t, reference, fb2)
  {
    assert Without(["U_Division"], ColumnSet(fb1.columns)) == if "U_Division" in fb1.columns then [] else ["U_Division"] by {
      assert ["U_Division"][1..] == [];
    }
    ColumnSetConcat(fb1.columns, Without(["U_Division"], ColumnSet(fb1.columns)));
    forall k | 0 <= k < |t.rows|
      ensures forall x :: Get(fb2.rows[k], x) == Final(t.rows[k], t, reference, x)
    {
      SecondRow(t.rows[k], fb1.rows[k], left.rows[k], fb2.rows[k], reference, right,
                FirstMerge(t, reference), Brought(t, reference));
    }
  }

  lemma SecondRow(row: Row, frow: Row, lrow: Row, orow: Row, reference: Table, right: Table, first: bool, brought: seq<string>)
    requires "U_Estilo_Color" !in brought
    requires forall x :: Get(frow, x) == AfterFirst(row, reference, first, brought, x)
    requires lrow == frow["U_Estilo_Color" := Some(KeyText(Get(frow, "U_Estilo_Color"), false))]
    requires RightColumns(right, "U_Estilo_Color") == ["U_Division"]
    requires forall m, c :: c in DivisionColumns ==>
               Lookup(right.rows, "U_Estilo_Color", m, c) ==
               Lookup(CoercedRows(reference.rows, "U_Estilo_Color", false), "U_Estilo_Color", m, c)
    requires forall x :: Get(orow, x) == CompletedCell(lrow, right, "U_Estilo_Color", x)
    ensures forall x :: Get(orow, x) == ByStyleColor(row, reference, first, brought, x)
  {
    var key := KeyText(StyleColor(Get(row, "ItemName")), false);
    assert Get(frow, "U_Estilo_Color") == StyleColor(Get(row, "ItemName"));
    assert Get(lrow, "U_Estilo_Color") == Some(key);
    forall x ensures Get(orow, x) == ByStyleColor(row, reference, first, brought, x) {
      if x != "U_Estilo_Color" {
        assert Get(lrow, x) == Get(frow, x);
      }
    }
  }

  lemma OrderDistinct()
    ensures Distinct(ColumnOrder) && Distinct(StatColumns)
  {
  }

  /** The projection on the fixed order keeps the cells of the labels it keeps. */
  lemma Projected(t: Table, reference: Table, fb2: Table, out: Table)
    requires AfterSecondMerge(t, reference, fb2) && Distinct(ColumnOrder)
    requires out == Reindex(fb2, Only(ColumnOrder, ColumnSet(fb2.columns)))
    ensures Cleaned(t, reference, out)
  {
  }

  // ---------------------------------------------------------------------
  // Properties
  // ---------------------------------------------------------------------

  /** The first merge brings only reference columns the input and the derivations lack, and never the division. */
  lemma BroughtAreNew(t: Table, reference: Table, x: string)
    requires x in Brought(t, reference)
    ensures x in reference.columns && x !in t.columns && x !in DerivedLabels && x != "U_Division"
  {
    WithoutMember(reference.columns, ColumnSet(t.columns) + ColumnSet(DerivedLabels) + {"U_Division"}, x);
    assert x in t.columns ==> x in ColumnSet(t.columns);
    assert x in DerivedLabels ==> x in ColumnSet(DerivedLabels);
  }

  /** A value the input already has in a column the routine does not derive is never replaced. */
  lemma InputKept(row: Row, t: Table, reference: Table, x: string)
    requires x !in DerivedLabels && Get(row, x).Some?
    ensures Final(row, t, reference, x) == Get(row, x)
  {
  }

  /** The output labels come from the fixed order, and each is one the input, the derivations or a merge supplied. */
  lemma OutputFromOrder(t: Table, reference: Table, x: string)
    requires x in OutputColumns(t, reference)
    ensures x in ColumnOrder
    ensures x in t.columns || x in DerivedLabels || (x in reference.columns && !IsEmpty(reference))
  {
    OnlyMember(ColumnOrder, Present(t, reference), x);
    if FirstMerge(t, reference) && x in ColumnSet(Brought(t, reference)) {
      BroughtAreNew(t, reference, x);
    }
  }
}
