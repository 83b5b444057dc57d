/**
 * Cole Haan (`_clean_cole_haan`): the style, description and size come from
 * the `/` fields of the item name; gender, category and segment from the
 * style's first letter; the sales-segment, zone and colour columns are
 * replaced by the reference table's values for the style.
 */
module ColeHaan {
  import opened Wrappers
  import opened Text
  import opened Frame
  import opened Rules

  /** The output column order, before the size column is appended. */
  const Order: seq<string> := ["ItemName", "ItemCode", "Empresa", "U_Estilo", "U_Genero", "U_Categoria",
                               "U_Segmento", "U_Descripcion", "U_Descrip_Color", "U_Segmentacion_SK", "U_Zone"]

  /** The columns the routine itself produces, in output order. */
  const Fixed: seq<string> := ["ItemName", "ItemCode", "Empresa", "U_Estilo", "U_Genero", "U_Categoria",
                               "U_Segmento", "U_Descripcion"]

  /** The columns taken from the reference table, which replace the input's own. */
  const FromReference: seq<string> := ["U_Descrip_Color", "U_Segmentacion_SK", "U_Zone"]

  /** The reference columns the routine selects, key first. */
  const ReferenceColumns: seq<string> := ["U_Estilo", "U_Segmentacion_SK", "U_Zone", "U_Descrip_Color"]

  predicate HasNullName(t: Table) {
    exists k :: 0 <= k < |t.rows| && Get(t.rows[k], "ItemName").None?
  }

  /** One output row against its input row and the reference table. */
  predicate CleanedRow(row: Row, reference: Table, o: Row) {
    var name := Get(row, "ItemName");
    name.Some? &&
    var style := Split(name.value, '/')[0];
    Get(o, "ItemName") == name && Get(o, "ItemCode") == Get(row, "ItemCode") &&
    Get(o, "Empresa") == Get(row, "Empresa") &&
    Get(o, "U_Estilo") == Some(style) &&
    Get(o, "U_Descripcion") == Field(name, '/', 1) &&
    Get(o, "U_Genero") == Some(ChGender(style)) &&
    Get(o, "U_Categoria") == Get(o, "U_Genero") &&
    Get(o, "U_Segmento") == Some(ChSegment(ChGender(style))) &&
    (forall c :: c in FromReference && c in reference.columns ==>
       Get(o, c) == Lookup(reference.rows, "U_Estilo", Some(style), c)) &&
    Get(o, "U_Talla") == Field(name, '/', 2)
  }

  /** The whole output: the fixed columns, the reference columns present, the size; one row per input row. */
  predicate Cleaned(t: Table, reference: Table, out: Table) {
    WellFormed(out) &&
    out.columns == Fixed + Only(FromReference, ColumnSet(reference.columns)) + ["U_Talla"] &&
    |out.rows| == |t.rows| &&
    forall k :: 0 <= k < |t.rows| ==> CleanedRow(t.rows[k], reference, out.rows[k])
  }

  method Clean(t: Table, reference: Table) returns (r: Result<Table, CleanError>)
    requires WellFormed(t) && WellFormed(reference)
    requires "ItemName" in t.columns && "ItemCode" in t.columns && "Empresa" in t.columns
    ensures IsEmpty(reference) ==> r == Ok(t)
    ensures !IsEmpty(reference) ==> (r.Err? <==> HasNullName(t) || "U_Estilo" !in reference.columns)
    ensures !IsEmpty(reference) && HasNullName(t) ==> r == Err(NonBooleanCondition)
    ensures !IsEmpty(reference) && !HasNullName(t) && "U_Estilo" !in reference.columns ==>
              r == Err(KeyError(["U_Estilo"]))
    ensures !IsEmpty(reference) && r.Ok? ==> Cleaned(t, reference, r.value)
  {
    if IsEmpty(reference) {
      return Ok(t);
    }
    // np.select cannot take a condition holding NaN.
    if exists k :: 0 <= k < |t.rows| && Get(t.rows[k], "ItemName").None? {
      return Err(NonBooleanCondition);
    }
    var df := DeriveColumns(t);

    // Every selected label is present, so selecting is reindexing.
    ConstantsDistinct();
    var sel := Reindex(reference, Only(ReferenceColumns, ColumnSet(reference.columns)));
    OnlyMember(ReferenceColumns, ColumnSet(reference.columns), "U_Estilo");
    var dedup := DropDuplicates(sel, "U_Estilo");
    if dedup.Err? {
      return Err(dedup.error);
    }
    var right := dedup.value;
    var left := DropColumns(df, Replaced);
    RightDisjoint(reference, df, sel, right, left);
    MergeDisjoint(left, right, "U_Estilo", "_y");
    var merged := LeftMerge(left, right, "U_Estilo", "_y");
    var m := merged.value;
    var out := Reindex(m, Only(Order, ColumnSet(m.columns)));
    OnlyMember(Order, ColumnSet(m.columns), "U_Talla");
    var sizes := FieldColumn(out, "ItemName", '/', 2);
    if "U_Talla" !in out.columns {
      out := SetColumn(out, "U_Talla", sizes);
    }
    CleanedFrom(t, reference, df, sel, right, left, m, out);
    return Ok(out);
  }

  /** The labels the routine drops before the merge. */
  const Replaced: set<string> := {"U_Descrip_Color", "U_Segmentacion_SK", "U_Zone"}

  lemma ConstantsDistinct()
    ensures Distinct(Order) && Distinct(ReferenceColumns)
    ensures Order == Fixed + FromReference && Replaced == ColumnSet(FromReference)
    ensures forall x :: x in Fixed ==> x !in Replaced && x != "U_Talla"
    ensures "U_Talla" !in Order
    ensures forall c :: c in ReferenceColumns && c != "U_Estilo" ==> c in Replaced
  {
  }

  /** The reference columns the merge brings in are exactly the ones dropped from the input. */
  lemma RightDisjoint(reference: Table, df: Table, sel: Table, right: Table, left: Table)
    requires WellFormed(reference) && WellFormed(df)
    requires Distinct(ReferenceColumns)
    requires sel == Reindex(reference, Only(ReferenceColumns, ColumnSet(reference.columns)))
    requires DropDuplicates(sel, "U_Estilo") == Ok(right)
    requires left == DropColumns(df, Replaced)
    requires "U_Estilo" in df.columns && "U_Estilo" in reference.columns
    ensures "U_Estilo" in left.columns && "U_Estilo" in right.columns
    ensures forall c :: c in RightColumns(right, "U_Estilo") ==> c !in left.columns
    ensures forall c :: c in RightColumns(right, "U_Estilo") <==> c in Replaced && c in reference.columns
  {
    ConstantsDistinct();
    WithoutMember(df.columns, Replaced, "U_Estilo");
    OnlyMember(ReferenceColumns, ColumnSet(reference.columns), "U_Estilo");
    forall c ensures c in RightColumns(right, "U_Estilo") <==> c in Replaced && c in reference.columns {
      WithoutMember(right.columns, {"U_Estilo"}, c);
      OnlyMember(ReferenceColumns, ColumnSet(reference.columns), c);
    }
    forall c | c in RightColumns(right, "U_Estilo") ensures c !in left.columns {
      WithoutMember(df.columns, Replaced, c);
    }
  }

  /** The final table against the steps that built it. */
  lemma CleanedFrom(t: Table, reference: Table, df: Table, sel: Table, right: Table, left: Table, m: Table, out: Table)
    requires WellFormed(t) && WellFormed(reference)
    requires "ItemName" in t.columns && "ItemCode" in t.columns && "Empresa" in t.columns
    requires DerivedRows(t, df)
    requires Distinct(Order) && Distinct(ReferenceColumns)
    requires sel == Reindex(reference, Only(ReferenceColumns, ColumnSet(reference.columns)))
    requires DropDuplicates(sel, "U_Estilo") == Ok(right)
    requires left == DropColumns(df, Replaced)
    requires "U_Estilo" in df.columns && "U_Estilo" in reference.columns
    requires "U_Estilo" in left.columns && "U_Estilo" in right.columns
    requires LeftMerge(left, right, "U_Estilo", "_y") == Ok(m)
    requires forall k :: 0 <= k < |t.rows| ==> Get(t.rows[k], "ItemName").Some?
    requires out == SetColumn(Reindex(m, Only(Order, ColumnSet(m.columns))), "U_Talla",
                              FieldColumn(Reindex(m, Only(Order, ColumnSet(m.columns))), "ItemName", '/', 2))
    ensures Cleaned(t, reference, out)
  {
    ConstantsDistinct();
    FixedInLeft(t, df, left);
    RightDisjoint(reference, df, sel, right, left);
    MergeDisjoint(left, right, "U_Estilo", "_y");
    var rc := RightColumns(right, "U_Estilo");
    assert m.columns == left.columns + rc;
    MergedLabels(left.columns, rc, m.columns, reference.columns);
    var cols := Only(Order, ColumnSet(m.columns));
    CleanedColumns(reference, m.columns, cols);
    var out0 := Reindex(m, cols);
    RefCells(reference, sel, right, left, m);
    OnlyMember(Order, ColumnSet(m.columns), "U_Talla");
    assert out.columns == cols + ["U_Talla"];
    assert |out.rows| == |out0.rows| == |m.rows| == |left.rows| == |t.rows|;
    forall k | 0 <= k < |t.rows| ensures CleanedRow(t.rows[k], reference, out.rows[k]) {
      assert DerivedRow(t.rows[k], df.rows[k]);
      ReindexAgree(m, cols, k);
      RowCleaned(t.rows[k], reference, df.rows[k], left.rows[k], m.rows[k], out0.rows[k], out.rows[k]);
    }
  }

  /** Every routine-produced label survives the drop; none of the reference labels does. */
  lemma FixedInLeft(t: Table, df: Table, left: Table)
    requires "ItemName" in t.columns && "ItemCode" in t.columns && "Empresa" in t.columns
    requires DerivedRows(t, df)
    requires left == DropColumns(df, Replaced)
    ensures forall x :: x in Fixed ==> x in left.columns
    ensures forall c :: c in FromReference ==> c !in left.columns
  {
    forall x | x in Fixed ensures x in left.columns {
      WithoutMember(df.columns, Replaced, x);
    }
    forall c | c in FromReference ensures c !in left.columns {
      WithoutMember(df.columns, Replaced, c);
    }
  }

  /** The merged labels: the kept input labels, then the reference labels present. */
  lemma MergedLabels(lcols: seq<string>, rc: seq<string>, mcols: seq<string>, refcols: seq<string>)
    requires forall x :: x in Fixed ==> x in lcols
    requires forall c :: c in FromReference ==> c !in lcols
    requires forall c :: c in rc <==> c in Replaced && c in refcols
    requires mcols == lcols + rc
    ensures forall x :: x in Fixed ==> x in mcols
    ensures forall c :: c in FromReference ==> (c in mcols <==> c in refcols)
  {
    ConstantsDistinct();
  }

  lemma CleanedColumns(reference: Table, mcols: seq<string>, cols: seq<string>)
    requires forall x :: x in Fixed ==> x in mcols
    requires forall c :: c in FromReference ==> (c in mcols <==> c in reference.columns)
    requires cols == Only(Order, ColumnSet(mcols))
    ensures cols == Fixed + Only(FromReference, ColumnSet(reference.columns))
  {
    ConstantsDistinct();
    var present := ColumnSet(mcols);
    OnlyConcat(Fixed, FromReference, present);
    forall i | 0 <= i < |Fixed| ensures Fixed[i] in present {
      assert Fixed[i] in Fixed;
    }
    OnlyAll(Fixed, present);
    forall i | 0 <= i < |FromReference| ensures FromReference[i] in present <==> FromReference[i] in ColumnSet(reference.columns) {
      assert FromReference[i] in FromReference;
    }
    OnlySame(FromReference, present, ColumnSet(reference.columns));
  }

  /** The merge keeps the input's cells and brings the reference's first values for the style. */
  lemma RefCells(reference: Table, sel: Table, right: Table, left: Table, m: Table)
    requires WellFormed(reference) && WellFormed(left) && Distinct(ReferenceColumns)
    requires sel == Reindex(reference, Only(ReferenceColumns, ColumnSet(reference.columns)))
    requires DropDuplicates(sel, "U_Estilo") == Ok(right)
    requires "U_Estilo" in left.columns && "U_Estilo" in right.columns
    requires forall c :: c in FromReference ==> c !in left.columns
    requires LeftMerge(left, right, "U_Estilo", "_y") == Ok(m)
    ensures |m.rows| == |left.rows|
    ensures forall k :: 0 <= k < |left.rows| ==> Agree(m.rows[k], left.rows[k], left.columns)
    ensures forall k, c :: 0 <= k < |left.rows| && c in FromReference && c in reference.columns ==>
              Get(m.rows[k], c) == Lookup(reference.rows, "U_Estilo", Get(left.rows[k], "U_Estilo"), c)
  {
    ConstantsDistinct();
    MergeCells(left, right, "U_Estilo", "_y", m);
    DedupLookup(sel, "U_Estilo", right);
    var cs := Only(ReferenceColumns, ColumnSet(reference.columns));
    OnlyMember(ReferenceColumns, ColumnSet(reference.columns), "U_Estilo");
    forall k, c | 0 <= k < |left.rows| && c in FromReference && c in reference.columns
      ensures Get(m.rows[k], c) == Lookup(reference.rows, "U_Estilo", Get(left.rows[k], "U_Estilo"), c)
    {
      OnlyMember(ReferenceColumns, ColumnSet(reference.columns), c);
      assert c in right.columns && Renamed(left.columns, c, "_y") == c;
      ReindexLookup(reference, cs, "U_Estilo", c, Get(left.rows[k], "U_Estilo"));
    }
  }

  lemma ReindexAgree(t: Table, cs: seq<string>, k: nat)
    requires Distinct(cs) && k < |t.rows|
    ensures Agree(Reindex(t, cs).rows[k], t.rows[k], cs)
  {
  }

  /** One output row, following its cells back through the projection, the merge, the drop and the derivation. */
  lemma RowCleaned(row: Row, reference: Table, drow: Row, lrow: Row, mrow: Row, orow0: Row, orow: Row)
    requires Get(row, "ItemName").Some?
    requires DerivedRow(row, drow)
    requires lrow == drow - Replaced
    requires forall x :: x in Fixed ==> Get(mrow, x) == Get(lrow, x)
    requires forall c :: c in FromReference && c in reference.columns ==>
               Get(mrow, c) == Lookup(reference.rows, "U_Estilo", Get(lrow, "U_Estilo"), c)
    requires Agree(orow0, mrow, Fixed + Only(FromReference, ColumnSet(reference.columns)))
    requires orow == orow0["U_Talla" := Field(Get(orow0, "ItemName"), '/', 2)]
    ensures CleanedRow(row, reference, orow)
  {
    var name := Get(row, "ItemName").value;
    var style := Split(name, '/')[0];
    assert Field(Get(row, "ItemName"), '/', 0) == Some(style);
    RowKept(drow, orow0, orow, mrow, lrow, reference);
    RowBrought(orow0, orow, mrow, reference);
  }

  /** The kept and derived cells pass through the drop, the merge, the projection and the size assignment. */
  lemma RowKept(drow: Row, orow0: Row, orow: Row, mrow: Row, lrow: Row, reference: Table)
    requires lrow == drow - Replaced
    requires forall x :: x in Fixed ==> Get(mrow, x) == Get(lrow, x)
    requires Agree(orow0, mrow, Fixed + Only(FromReference, ColumnSet(reference.columns)))
    requires orow == orow0["U_Talla" := Field(Get(orow0, "ItemName"), '/', 2)]
    ensures Get(orow, "ItemName") == Get(drow, "ItemName") && Get(orow, "ItemCode") == Get(drow, "ItemCode")
    ensures Get(orow, "Empresa") == Get(drow, "Empresa") && Get(orow, "U_Estilo") == Get(drow, "U_Estilo")
    ensures Get(orow, "U_Descripcion") == Get(drow, "U_Descripcion") && Get(orow, "U_Genero") == Get(drow, "U_Genero")
    ensures Get(orow, "U_Categoria") == Get(drow, "U_Categoria") && Get(orow, "U_Segmento") == Get(drow, "U_Segmento")
  {
    ConstantsDistinct();
    forall x | x in Fixed ensures Get(orow, x) == Get(drow, x) {
      assert x in Fixed + Only(FromReference, ColumnSet(reference.columns));
    }
  }

  /** The reference cells pass through the projection and the size assignment. */
  lemma RowBrought(orow0: Row, orow: Row, mrow: Row, reference: Table)
    requires Agree(orow0, mrow, Fixed + Only(FromReference, ColumnSet(reference.columns)))
    requires orow == orow0["U_Talla" := Field(Get(orow0, "ItemName"), '/', 2)]
    ensures forall c :: c in FromReference && c in reference.columns ==> Get(orow, c) == Get(mrow, c)
  {
    forall c | c in FromReference && c in reference.columns ensures Get(orow, c) == Get(mrow, c) {
      OnlyMember(FromReference, ColumnSet(reference.columns), c);
      assert c in Fixed + Only(FromReference, ColumnSet(reference.columns));
    }
  }

  /** The two rows hold the same cells under every label of `cs`. */
  predicate Agree(a: Row, b: Row, cs: seq<string>) {
    forall x :: x in cs ==> Get(a, x) == Get(b, x)
  }

  /** The style, description, gender, category and segment columns, assigned one after another. */
  method DeriveColumns(t: Table) returns (df: Table)
    requires WellFormed(t)
    ensures DerivedRows(t, df)
  {
    LabelsDiffer();
    // The item name is never overwritten, so each derived column is a function of the input's cells.
    var styles := FieldColumn(t, "ItemName", '/', 0);
    var descriptions := FieldColumn(t, "ItemName", '/', 1);
    var genders := GenderColumn(styles);
    var segments := SegmentColumn(genders);
    var d1 := SetColumn(t, "U_Estilo", styles);
    var d2 := SetColumn(d1, "U_Descripcion", descriptions);
    var d3 := SetColumn(d2, "U_Genero", genders);
    var d4 := SetColumn(d3, "U_Categoria", genders);
    df := SetColumn(d4, "U_Segmento", segments);
    AssignedLabels(t, styles, descriptions, genders, segments, d1, d2, d3, d4, df);
    forall k | 0 <= k < |t.rows| ensures DerivedRow(t.rows[k], df.rows[k]) {
      assert df.rows[k] == t.rows[k]["U_Estilo" := styles[k]]["U_Descripcion" := descriptions[k]]["U_Genero" := genders[k]]
                                    ["U_Categoria" := genders[k]]["U_Segmento" := segments[k]];
      DerivedFrom(t.rows[k], styles[k], descriptions[k], genders[k], segments[k]);
    }
  }

  /** One row after the five assignments, given the values they write. */
  lemma DerivedFrom(row: Row, style: Cell, description: Cell, gender: Cell, segment: Cell)
    requires style == Field(Get(row, "ItemName"), '/', 0) && description == Field(Get(row, "ItemName"), '/', 1)
    requires gender == Some(ChGender(AsStr(style))) && segment == Some(ChSegment(AsStr(gender)))
    ensures DerivedRow(row, row["U_Estilo" := style]["U_Descripcion" := description]["U_Genero" := gender]
                                 ["U_Categoria" := gender]["U_Segmento" := segment])
  {
    LabelsDiffer();
  }

  /** The labels after the five assignments. */
  lemma AssignedLabels(t: Table, styles: seq<Cell>, descriptions: seq<Cell>, genders: seq<Cell>, segments: seq<Cell>,
                       d1: Table, d2: Table, d3: Table, d4: Table, df: Table)
    requires WellFormed(t) && |styles| == |descriptions| == |genders| == |segments| == |t.rows|
    requires d1 == SetColumn(t, "U_Estilo", styles) && d2 == SetColumn(d1, "U_Descripcion", descriptions)
    requires d3 == SetColumn(d2, "U_Genero", genders) && d4 == SetColumn(d3, "U_Categoria", genders)
    requires df == SetColumn(d4, "U_Segmento", segments)
    ensures forall x :: x in t.columns ==> x in df.columns
    ensures "U_Estilo" in df.columns && "U_Descripcion" in df.columns && "U_Genero" in df.columns
    ensures "U_Categoria" in df.columns && "U_Segmento" in df.columns
  {
  }

  /** The np.select over the style's first letter, row by row. */
  function GenderColumn(styles: seq<Cell>): (vals: seq<Cell>)
    ensures |vals| == |styles|
    ensures forall k :: 0 <= k < |styles| ==> vals[k] == Some(ChGender(AsStr(styles[k])))
  {
    seq(|styles|, k requires 0 <= k < |styles| => Some(ChGender(AsStr(styles[k]))))
  }

  /** The nested np.where over the gender, row by row. */
  function SegmentColumn(genders: seq<Cell>): (vals: seq<Cell>)
    ensures |vals| == |genders|
    ensures forall k :: 0 <= k < |genders| ==> vals[k] == Some(ChSegment(AsStr(genders[k])))
  {
    seq(|genders|, k requires 0 <= k < |genders| => Some(ChSegment(AsStr(genders[k]))))
  }

  /** The table after the derived columns are assigned. */
  predicate DerivedRows(t: Table, df: Table) {
    WellFormed(df) && |df.rows| == |t.rows| &&
    (forall x :: x in t.columns ==> x in df.columns) &&
    "U_Estilo" in df.columns && "U_Descripcion" in df.columns && "U_Genero" in df.columns &&
    "U_Categoria" in df.columns && "U_Segmento" in df.columns &&
    forall k :: 0 <= k < |t.rows| ==> DerivedRow(t.rows[k], df.rows[k])
  }

  predicate DerivedRow(row: Row, o: Row) {
    var name := Get(row, "ItemName");
    var style := Field(name, '/', 0);
    Get(o, "ItemName") == name && Get(o, "ItemCode") == Get(row, "ItemCode") &&
    Get(o, "Empresa") == Get(row, "Empresa") &&
    Get(o, "U_Estilo") == style &&
    Get(o, "U_Descripcion") == Field(name, '/', 1) &&
    Get(o, "U_Genero") == Some(ChGender(AsStr(style))) &&
    Get(o, "U_Categoria") == Some(ChGender(AsStr(style))) &&
    Get(o, "U_Segmento") == Some(ChSegment(ChGender(AsStr(style))))
  }

  /** The labels the routine writes differ from the ones it keeps. */
  lemma LabelsDiffer()
    ensures "ItemName" != "U_Estilo" && "ItemName" != "U_Descripcion" && "ItemName" != "U_Genero" && "ItemName" != "U_Categoria" && "ItemName" != "U_Segmento"
    ensures "ItemCode" != "U_Estilo" && "ItemCode" != "U_Descripcion" && "ItemCode" != "U_Genero" && "ItemCode" != "U_Categoria" && "ItemCode" != "U_Segmento"
    ensures "Empresa" != "U_Estilo" && "Empresa" != "U_Descripcion" && "Empresa" != "U_Genero" && "Empresa" != "U_Categoria" && "Empresa" != "U_Segmento"
    ensures "U_Estilo" != "U_Descripcion" && "U_Estilo" != "U_Genero" && "U_Estilo" != "U_Categoria" && "U_Estilo" != "U_Segmento"
    ensures "U_Descripcion" != "U_Genero" && "U_Descripcion" != "U_Categoria" && "U_Descripcion" != "U_Segmento"
    ensures "U_Genero" != "U_Categoria" && "U_Genero" != "U_Segmento"
    ensures "U_Categoria" != "U_Segmento"
  {
  }

}
