/**
 * Birkenstock and Adolfo (`_clean_generic_brand`): style and description are
 * the first two `/` fields of the item name; when a reference table is found,
 * its gender and category for the style fill the nulls of the input's own
 * columns (or become those columns when the input has none).
 */
module Generic {
  import opened Wrappers
  import opened Text
  import opened Frame
  import opened Enrich
  import opened Rules

  /** The labels the routine derives from the item name. */
  const DerivedLabels: seq<string> := ["U_Estilo", "U_Descripcion"]

  /** The labels completed from the reference table. */
  const Enriched: seq<string> := ["U_Genero", "U_Categoria"]

  /** The reference columns the routine selects, key first. */
  const ReferenceColumns: seq<string> := ["U_Estilo", "U_Genero", "U_Categoria"]

  /** The suffix the merge gives a reference column the input also has. */
  const Suffix: string := "_ref"

  /** The input has no column that looks like one of the merge's suffixed copies. */
  predicate NoCopies(t: Table) {
    "U_Genero_ref" !in t.columns && "U_Categoria_ref" !in t.columns
  }

  /** A row after the two derived columns are assigned. */
  predicate DerivedRow(row: Row, o: Row) {
    var name := Get(row, "ItemName");
    (forall x :: x in row && x != "U_Estilo" && x != "U_Descripcion" ==> Get(o, x) == row[x]) &&
    Get(o, "U_Estilo") == Field(name, '/', 0) &&
    Get(o, "U_Descripcion") == Field(name, '/', 1)
  }

  predicate DerivedTable(t: Table, df: Table) {
    WellFormed(df) &&
    df.columns == t.columns + Without(DerivedLabels, ColumnSet(t.columns)) &&
    |df.rows| == |t.rows| &&
    forall k :: 0 <= k < |t.rows| ==> DerivedRow(t.rows[k], df.rows[k])
  }

  /**
   * A row after enrichment: gender and category keep the input's value, and
   * a null (or missing) one takes the value the reference's first row for
   * the style holds, when the reference has that column.
   */
  predicate EnrichedRow(row: Row, reference: Table, o: Row) {
    var name := Get(row, "ItemName");
    var style := Field(name, '/', 0);
    (forall x :: x in row && x !in DerivedLabels && x !in Enriched ==> Get(o, x) == row[x]) &&
    Get(o, "U_Estilo") == style &&
    Get(o, "U_Descripcion") == Field(name, '/', 1) &&
    forall c :: c in Enriched ==>
      Get(o, c) == if c in reference.columns && Get(row, c).None?
                   then Lookup(reference.rows, "U_Estilo", style, c)
                   else Get(row, c)
  }

  /** The whole output: the derived table's labels, then the reference's columns the input lacked. */
  predicate Cleaned(t: Table, reference: Table, out: Table) {
    WellFormed(out) &&
    out.columns == t.columns + Without(DerivedLabels, ColumnSet(t.columns)) +
                   Without(Only(Enriched, ColumnSet(reference.columns)), ColumnSet(t.columns)) &&
    |out.rows| == |t.rows| &&
    forall k :: 0 <= k < |t.rows| ==> EnrichedRow(t.rows[k], reference, out.rows[k])
  }

  method Clean(t: Table, reference: Table) returns (r: Result<Table, CleanError>)
    requires WellFormed(t) && WellFormed(reference)
    ensures IsEmpty(reference) ==> r.Ok? && DerivedTable(t, r.value)
    ensures !IsEmpty(reference) && "U_Estilo" !in reference.columns ==> r == Err(KeyError(["U_Estilo"]))
    ensures !IsEmpty(reference) && "U_Estilo" in reference.columns && NoCopies(t) ==>
              r.Ok? && Cleaned(t, reference, r.value)
    ensures r.Ok? ==> |r.value.rows| == |t.rows|
  {
    var df := DeriveColumns(t);
    if IsEmpty(reference) {
      return Ok(df);
    }
    ConstantsDistinct();
    var sel := Reindex(reference, Only(ReferenceColumns, ColumnSet(reference.columns)));
    OnlyMember(ReferenceColumns, ColumnSet(reference.columns), "U_Estilo");
    var dedup := DropDuplicates(sel, "U_Estilo");
    if dedup.Err? {
      return Err(dedup.error);
    }
    var right := dedup.value;
    RightLabels(reference, sel, right);
    if NoCopies(t) {
      MergeFresh(t, reference, df.columns, RightColumns(right, "U_Estilo"));
    }
    r := MergeFill(df, right, "U_Estilo", Suffix, Enriched, false);
    if NoCopies(t) {
      CleanedFrom(t, reference, df, sel, right, r.value);
    }
  }

  /** The two derived columns, assigned one after the other. */
  method DeriveColumns(t: Table) returns (df: Table)
    requires WellFormed(t)
    ensures DerivedTable(t, df)
    ensures forall x :: x in df.columns <==> x in t.columns || x in DerivedLabels
  {
    var styles := FieldColumn(t, "ItemName", '/', 0);
    var descriptions := FieldColumn(t, "ItemName", '/', 1);
    var d1 := SetColumn(t, "U_Estilo", styles);
    df := SetColumn(d1, "U_Descripcion", descriptions);
    DerivedColumns(t.columns, d1.columns, df.columns);
    DerivedCells(t, styles, descriptions, d1, df);
  }

  lemma DerivedColumns(cs: seq<string>, c1: seq<string>, c2: seq<string>)
    requires c1 == AddLabel(cs, "U_Estilo") && c2 == AddLabel(c1, "U_Descripcion")
    ensures c2 == cs + Without(DerivedLabels, ColumnSet(cs))
    ensures forall x :: x in c2 <==> x in cs || x in DerivedLabels
  {
    assert Without([], ColumnSet(cs)) == [];
    AssignAppends(cs, [], "U_Estilo", cs + []);
    assert [] + ["U_Estilo"] == ["U_Estilo"];
    AssignAppends(cs, ["U_Estilo"], "U_Descripcion", c1);
    assert ["U_Estilo"] + ["U_Descripcion"] == DerivedLabels;
    forall x ensures x in c2 <==> x in cs || x in DerivedLabels {
      WithoutMember(DerivedLabels, ColumnSet(cs), x);
    }
  }

  lemma DerivedCells(t: Table, styles: seq<Cell>, descriptions: seq<Cell>, d1: Table, df: Table)
    requires WellFormed(t)
    requires styles == FieldColumn(t, "ItemName", '/', 0) && descriptions == FieldColumn(t, "ItemName", '/', 1)
    requires d1 == SetColumn(t, "U_Estilo", styles) && df == SetColumn(d1, "U_Descripcion", descriptions)
    ensures forall k :: 0 <= k < |t.rows| ==> DerivedRow(t.rows[k], df.rows[k])
  {
    forall k | 0 <= k < |t.rows| ensures DerivedRow(t.rows[k], df.rows[k]) {
      assert df.rows[k] == t.rows[k]["U_Estilo" := styles[k]]["U_Descripcion" := descriptions[k]];
    }
  }

  /** The completed columns the reference has, as the merge brings them. */
  lemma PresentEnriched(present: set<string>)
    ensures var rc := Only(Enriched, present);
            Distinct(rc) && (forall i :: 0 <= i < |rc| ==> rc[i] in Enriched) &&
            forall c :: c in rc <==> c in Enriched && c in present
  {
    ConstantsDistinct();
    var rc := Only(Enriched, present);
    forall c ensures c in rc <==> c in Enriched && c in present {
      OnlyMember(Enriched, present, c);
    }
  }

  lemma ConstantsDistinct()
    ensures Distinct(ReferenceColumns) && ReferenceColumns == ["U_Estilo"] + Enriched
    ensures Separated(Enriched, Suffix)
    ensures "U_Genero" + Suffix == "U_Genero_ref" && "U_Categoria" + Suffix == "U_Categoria_ref"
    ensures Sources(Enriched, Suffix) == {"U_Genero_ref", "U_Categoria_ref"}
    ensures forall c :: c in Enriched ==> c !in DerivedLabels && c != "U_Estilo"
    ensures forall c, x :: c in Enriched && x in Enriched ==> c != x + Suffix
    ensures forall c :: c in Enriched ==> c !in {"U_Genero_ref", "U_Categoria_ref"}
    ensures forall x :: x in DerivedLabels ==> x !in {"U_Genero_ref", "U_Categoria_ref"}
  {
    assert "U_Genero" + Suffix == "U_Genero_ref";
    assert "U_Categoria" + Suffix == "U_Categoria_ref";
  }

  /** The selected, de-duplicated reference: the key, then the completed columns it has. */
  lemma RightLabels(reference: Table, sel: Table, right: Table)
    requires WellFormed(reference) && Distinct(ReferenceColumns) && "U_Estilo" in reference.columns
    requires sel == Reindex(reference, Only(ReferenceColumns, ColumnSet(reference.columns)))
    requires DropDuplicates(sel, "U_Estilo") == Ok(right)
    ensures "U_Estilo" in right.columns
    ensures RightColumns(right, "U_Estilo") == Only(Enriched, ColumnSet(reference.columns))
  {
    ConstantsDistinct();
    var present := ColumnSet(reference.columns);
    var rest := Only(Enriched, present);
    OnlyConcat(["U_Estilo"], Enriched, present);
    assert Only(["U_Estilo"], present) == ["U_Estilo"] by {
      assert ["U_Estilo"][1..] == [];
    }
    assert right.columns == ["U_Estilo"] + rest;
    WithoutConcat(["U_Estilo"], rest, {"U_Estilo"});
    assert Without(["U_Estilo"], {"U_Estilo"}) == [] by {
      assert ["U_Estilo"][1..] == [];
    }
    forall i | 0 <= i < |rest| ensures rest[i] !in {"U_Estilo"} {
      OnlyMember(Enriched, present, rest[i]);
    }
    WithoutNone(rest, {"U_Estilo"});
    assert [] + rest == rest;
  }

  /** Without suffixed copies in the input, merge-then-fill completes every reference column. */
  lemma MergeFresh(t: Table, reference: Table, left: seq<string>, rc: seq<string>)
    requires NoCopies(t)
    requires forall x :: x in left <==> x in t.columns || x in DerivedLabels
    requires rc == Only(Enriched, ColumnSet(reference.columns))
    ensures Fresh(left, rc, Enriched, Suffix)
  {
    ConstantsDistinct();
    PresentEnriched(ColumnSet(reference.columns));
  }

  /** The final table against the steps that built it. */
  lemma CleanedFrom(t: Table, reference: Table, df: Table, sel: Table, right: Table, out: Table)
    requires WellFormed(t) && WellFormed(reference)
    requires DerivedTable(t, df)
    requires forall x :: x in df.columns <==> x in t.columns || x in DerivedLabels
    requires Distinct(ReferenceColumns) && "U_Estilo" in reference.columns
    requires sel == Reindex(reference, Only(ReferenceColumns, ColumnSet(reference.columns)))
    requires DropDuplicates(sel, "U_Estilo") == Ok(right)
    requires RightColumns(right, "U_Estilo") == Only(Enriched, ColumnSet(reference.columns))
    requires Completed(df, right, "U_Estilo", out)
    ensures Cleaned(t, reference, out)
  {
    ConstantsDistinct();
    var rc := RightColumns(right, "U_Estilo");
    PresentEnriched(ColumnSet(reference.columns));
    forall i | 0 <= i < |rc| ensures rc[i] in ColumnSet(df.columns) <==> rc[i] in ColumnSet(t.columns) {
    }
    WithoutSame(rc, ColumnSet(df.columns), ColumnSet(t.columns));
    RefLookup(reference, sel, right);
    forall k | 0 <= k < |t.rows| ensures EnrichedRow(t.rows[k], reference, out.rows[k]) {
      assert DerivedRow(t.rows[k], df.rows[k]);
      assert df.rows[k].Keys == ColumnSet(df.columns) && t.rows[k].Keys == ColumnSet(t.columns);
      RowEnriched(t.rows[k], reference, df.rows[k], out.rows[k], right, df.columns);
    }
  }

  /** The selected, de-duplicated reference finds what the reference itself finds. */
  lemma RefLookup(reference: Table, sel: Table, right: Table)
    requires WellFormed(reference) && Distinct(ReferenceColumns)
    requires sel == Reindex(reference, Only(ReferenceColumns, ColumnSet(reference.columns)))
    requires DropDuplicates(sel, "U_Estilo") == Ok(right)
    ensures forall k, c :: c in Enriched && c in reference.columns ==>
              Lookup(right.rows, "U_Estilo", k, c) == Lookup(reference.rows, "U_Estilo", k, c)
  {
    ConstantsDistinct();
    DedupLookup(sel, "U_Estilo", right);
    var cs := Only(ReferenceColumns, ColumnSet(reference.columns));
    OnlyMember(ReferenceColumns, ColumnSet(reference.columns), "U_Estilo");
    forall k, c | c in Enriched && c in reference.columns
      ensures Lookup(right.rows, "U_Estilo", k, c) == Lookup(reference.rows, "U_Estilo", k, c)
    {
      OnlyMember(ReferenceColumns, ColumnSet(reference.columns), c);
      ReindexLookup(reference, cs, "U_Estilo", c, k);
    }
  }

  /** One output row, following its cells back through merge-then-fill and the derivation. */
  lemma RowEnriched(row: Row, reference: Table, drow: Row, orow: Row, right: Table, left: seq<string>)
    requires DerivedRow(row, drow)
    requires drow.Keys == ColumnSet(left) && forall x :: x in left <==> x in row || x in DerivedLabels
    requires forall c :: c in RightColumns(right, "U_Estilo") <==> c in Enriched && c in reference.columns
    requires forall k, c :: c in Enriched && c in reference.columns ==>
               Lookup(right.rows, "U_Estilo", k, c) == Lookup(reference.rows, "U_Estilo", k, c)
    requires forall x :: Get(orow, x) == CompletedCell(drow, right, "U_Estilo", x)
    ensures EnrichedRow(row, reference, orow)
  {
    ConstantsDistinct();
    forall x | x in row && x !in DerivedLabels && x !in Enriched ensures Get(orow, x) == row[x] {
      assert Get(orow, x) == CompletedCell(drow, right, "U_Estilo", x);
    }
    assert Get(orow, "U_Estilo") == CompletedCell(drow, right, "U_Estilo", "U_Estilo");
    assert Get(orow, "U_Descripcion") == CompletedCell(drow, right, "U_Estilo", "U_Descripcion");
    forall c | c in Enriched
      ensures Get(orow, c) == if c in reference.columns && Get(row, c).None?
                              then Lookup(reference.rows, "U_Estilo", Get(drow, "U_Estilo"), c)
                              else Get(row, c)
    {
      assert Get(orow, c) == CompletedCell(drow, right, "U_Estilo", c);
      assert Get(drow, c) == Get(row, c);
    }
  }
}
