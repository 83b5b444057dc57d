/**
 * Skechers (`_clean_skechers`): the style is the first `/` field of the item
 * name; a name is well formed when it holds a `/` and its style has at least
 * two characters, the first alphanumeric. Well-formed rows get a description
 * without Americana sizes; the others lose their style. Both parts are then
 * completed from the reference table by style, and the well-formed part comes
 * first in the result.
 */
module Skechers {
  import opened Wrappers
  import opened Text
  import opened Frame
  import opened Enrich
  import opened Rules

  /** The columns the routine makes sure exist, in the order it adds them. */
  const Required: seq<string> := ["U_Estilo", "U_Genero", "U_Suela", "U_Descrip_Color", "U_Segmentacion_SK",
                                  "U_Division", "U_Temporalidad", "U_Descripcion", "U_Talla"]

  /** The columns completed from the reference table. */
  const FromReference: seq<string> := ["U_Genero", "U_Suela", "U_Division", "U_Temporalidad"]

  /** The reference columns the routine selects, key first. */
  const ReferenceColumns: seq<string> := ["U_Estilo", "U_Genero", "U_Suela", "U_Division", "U_Temporalidad"]

  /** The suffix the merge gives a reference column the input also has. */
  const Suffix: string := "_ref"

  /** The input has no column that looks like one of the merge's suffixed copies. */
  predicate NoCopies(t: Table) {
    forall c :: c in FromReference ==> c + Suffix !in t.columns
  }

  /** Which rows are well formed, from their item names. */
  function ValidMask(t: Table): (mask: seq<bool>)
    ensures |mask| == |t.rows|
    ensures forall k :: 0 <= k < |t.rows| ==> mask[k] == SkValid(Get(t.rows[k], "ItemName"))
  {
    seq(|t.rows|, k requires 0 <= k < |t.rows| => SkValid(Get(t.rows[k], "ItemName")))
  }

  /** The description of every row, from its item name. */
  function DescriptionColumn(t: Table): (vals: seq<Cell>)
    ensures |vals| == |t.rows|
    ensures forall k :: 0 <= k < |t.rows| ==> vals[k] == SkDescription(Get(t.rows[k], "ItemName"))
  {
    seq(|t.rows|, k requires 0 <= k < |t.rows| => SkDescription(Get(t.rows[k], "ItemName")))
  }

  /**
   * A completed column: the row's own value, or, when it is null and the
   * reference has both the key and the column, the value of the first
   * reference row whose style text is `key`.
   */
  function FilledFrom(row: Row, reference: Table, key: string, c: string): Cell {
    if "U_Estilo" in reference.columns && c in reference.columns && Get(row, c).None?
    then Lookup(CoercedRows(reference.rows, "U_Estilo", false), "U_Estilo", Some(key), c)
    else Get(row, c)
  }

  /** A well-formed input row against its output row. */
  ghost predicate ValidRow(row: Row, reference: Table, o: Row) {
    var name := Get(row, "ItemName");
    var style := Field(name, '/', 0);
    style.Some? &&
    Get(o, "U_Estilo") == style &&
    Get(o, "U_Descripcion") == SkDescription(name) &&
    (forall c :: c in FromReference ==> Get(o, c) == FilledFrom(row, reference, style.value, c)) &&
    forall x :: x != "U_Estilo" && x != "U_Descripcion" && x !in FromReference ==> Get(o, x) == Get(row, x)
  }

  /** A malformed input row against its output row: no style (the text "nan" once merged), own description. */
  ghost predicate InvalidRow(row: Row, reference: Table, o: Row) {
    Get(o, "U_Estilo") == (if "U_Estilo" in reference.columns then Some("nan") else None) &&
    (forall c :: c in FromReference ==> Get(o, c) == FilledFrom(row, reference, "nan", c)) &&
    forall x :: x != "U_Estilo" && x !in FromReference ==> Get(o, x) == Get(row, x)
  }

  /** The output rows of the well-formed part, one per well-formed input row, in input order. */
  ghost predicate ValidPart(t: Table, reference: Table, rows: seq<Row>) {
    var vs := Positions(ValidMask(t), true);
    |rows| == |vs| &&
    forall j :: 0 <= j < |vs| ==> ValidRow(t.rows[vs[j]], reference, rows[j])
  }

  /** The output rows of the malformed part, one per malformed input row, in input order. */
  ghost predicate InvalidPart(t: Table, reference: Table, rows: seq<Row>) {
    var ivs := Positions(ValidMask(t), false);
    |rows| == |ivs| &&
    forall j :: 0 <= j < |ivs| ==> InvalidRow(t.rows[ivs[j]], reference, rows[j])
  }

  /**
   * The whole output: the input's labels, then the required ones it lacked;
   * the well-formed rows first, then the others.
   */
  ghost predicate Cleaned(t: Table, reference: Table, out: Table) {
    var n := |Positions(ValidMask(t), true)|;
    WellFormed(out) &&
    out.columns == t.columns + Without(Required, ColumnSet(t.columns)) &&
    n <= |out.rows| &&
    ValidPart(t, reference, out.rows[..n]) &&
    InvalidPart(t, reference, out.rows[n..])
  }

  method Clean(t: Table, reference: Table) returns (r: Result<Table, CleanError>)
    requires WellFormed(t) && WellFormed(reference) && "ItemName" in t.columns
    ensures IsEmpty(reference) ==> r == Ok(t)
    ensures !IsEmpty(reference) && NoCopies(t) ==> r.Ok? && Cleaned(t, reference, r.value)
    ensures r.Ok? ==> |r.value.rows| == |t.rows|
  {
    if IsEmpty(reference) {
      return Ok(t);
    }
    ConstantsDistinct();
    var df := AddMissingColumns(t, Required);
    RequiredPresent(t.columns, df.columns);
    var styles := FieldColumn(df, "ItemName", '/', 0);
    var d1 := SetColumn(df, "U_Estilo", styles);
    // The item name is never overwritten, so the mask reads the input's names.
    var mask := ValidMask(t);
    var valid := FilterRows(d1, mask, true);
    var invalid := FilterRows(d1, mask, false);
    var inv1 := SetColumn(invalid, "U_Estilo", Nulls(|invalid.rows|));
    var descriptions := DescriptionColumn(valid);
    var val1 := SetColumn(valid, "U_Descripcion", descriptions);
    PositionsSplit(mask);
    PartRows(t, df, styles, d1, mask, valid, invalid, inv1, descriptions, val1);
    if "U_Estilo" !in reference.columns {
      r := Ok(Concat(val1, inv1));
      PlainValid(t, reference, df, val1);
      PlainInvalid(t, reference, df, inv1);
      Joined(t, reference, val1.rows, inv1.rows, r.value);
      return;
    }
    var cs := Only(ReferenceColumns, ColumnSet(reference.columns));
    OnlyMember(ReferenceColumns, ColumnSet(reference.columns), "U_Estilo");
    var right := Prepare(reference, cs, "U_Estilo", false);
    var val2 := CoerceKey(val1, "U_Estilo", false);
    var inv2 := CoerceKey(inv1, "U_Estilo", false);
    var rc := RightColumns(right, "U_Estilo");
    RightLabels(reference, cs, rc);
    if NoCopies(t) {
      MergeFresh(t, df.columns, rc);
    }
    var rv := MergeFill(val2, right, "U_Estilo", Suffix, FromReference, false);
    if rv.Err? {
      return Err(rv.error);
    }
    var ri := MergeFill(inv2, right, "U_Estilo", Suffix, FromReference, false);
    if ri.Err? {
      return Err(ri.error);
    }
    assert MergedColumns(val2, right, "U_Estilo", Suffix) == MergedColumns(inv2, right, "U_Estilo", Suffix);
    r := Ok(Concat(rv.value, ri.value));
    if NoCopies(t) {
      KeyedValid(t, reference, df, right, val1, val2, rv.value);
      KeyedInvalid(t, reference, df, right, inv1, inv2, ri.value);
      OutputColumns(t, df, rc);
      Joined(t, reference, rv.value.rows, ri.value.rows, r.value);
    }
  }

  // ---------------------------------------------------------------------
  // The rows before the merge
  // ---------------------------------------------------------------------

  /** A well-formed row once its style and description are assigned. */
  function PreValid(drow: Row): Row {
    var name := Get(drow, "ItemName");
    drow["U_Estilo" := Field(name, '/', 0)]["U_Descripcion" := SkDescription(name)]
  }

  /** A malformed row once its style is assigned and then cleared. */
  function PreInvalid(drow: Row): Row {
    drow["U_Estilo" := Field(Get(drow, "ItemName"), '/', 0)]["U_Estilo" := None]
  }

  /** A row with its style made text, as the merge key. */
  function Keyed(row: Row): Row {
    row["U_Estilo" := Some(KeyText(Get(row, "U_Estilo"), false))]
  }

  /** The two parts, row by row, before the merge. */
  lemma PartRows(t: Table, df: Table, styles: seq<Cell>, d1: Table, mask: seq<bool>, valid: Table, invalid: Table,
                 inv1: Table, descriptions: seq<Cell>, val1: Table)
    requires WellFormed(df) && |df.rows| == |t.rows|
    requires "U_Estilo" in df.columns && "U_Descripcion" in df.columns
    requires styles == FieldColumn(df, "ItemName", '/', 0) && d1 == SetColumn(df, "U_Estilo", styles)
    requires mask == ValidMask(t)
    requires valid == FilterRows(d1, mask, true) && invalid == FilterRows(d1, mask, false)
    requires inv1 == SetColumn(invalid, "U_Estilo", Nulls(|invalid.rows|))
    requires descriptions == DescriptionColumn(valid) && val1 == SetColumn(valid, "U_Descripcion", descriptions)
    ensures WellFormed(val1) && WellFormed(inv1) && val1.columns == df.columns && inv1.columns == df.columns
    ensures |val1.rows| == |Positions(mask, true)| && |inv1.rows| == |Positions(mask, false)|
    ensures forall j :: 0 <= j < |val1.rows| ==> val1.rows[j] == PreValid(df.rows[Positions(mask, true)[j]])
    ensures forall j :: 0 <= j < |inv1.rows| ==> inv1.rows[j] == PreInvalid(df.rows[Positions(mask, false)[j]])
  {
    var vs := Positions(mask, true);
    forall j | 0 <= j < |val1.rows| ensures val1.rows[j] == PreValid(df.rows[vs[j]]) {
      assert valid.rows[j] == d1.rows[vs[j]];
      assert Get(valid.rows[j], "ItemName") == Get(df.rows[vs[j]], "ItemName");
    }
  }

  // ---------------------------------------------------------------------
  // The whole output
  // ---------------------------------------------------------------------

  lemma ConstantsDistinct()
    ensures Distinct(Required) && Distinct(ReferenceColumns)
    ensures ReferenceColumns == ["U_Estilo"] + FromReference
    ensures Separated(FromReference, Suffix)
    ensures forall c :: c in FromReference ==> c in Required && c != "U_Estilo" && c != "U_Descripcion"
    ensures "U_Estilo" in Required && "U_Descripcion" in Required
  {
    LabelsDiffer();
  }

  /** No required label is a suffixed copy of a completed one. */
  lemma CopiesNotRequired()
    ensures forall c, x :: c in FromReference && x in Required ==> x != c + Suffix
  {
    LabelsDiffer();
  }

  lemma LabelsDiffer()
    ensures "U_Genero" + Suffix == "U_Genero_ref" && "U_Suela" + Suffix == "U_Suela_ref"
    ensures "U_Division" + Suffix == "U_Division_ref" && "U_Temporalidad" + Suffix == "U_Temporalidad_ref"
  {
  }

  /** The reference columns the merge brings: the completed columns the reference has. */
  lemma RightLabels(reference: Table, cs: seq<string>, rc: seq<string>)
    requires ReferenceColumns == ["U_Estilo"] + FromReference && Distinct(ReferenceColumns)
    requires cs == Only(ReferenceColumns, ColumnSet(reference.columns))
    requires rc == Without(cs, {"U_Estilo"})
    ensures Distinct(cs)
    ensures "U_Estilo" in reference.columns ==> "U_Estilo" in cs
    ensures forall c :: c in rc <==> c in FromReference && c in reference.columns
    ensures forall c :: c in FromReference && c in reference.columns ==> c in cs
  {
    forall c | c in FromReference ensures c in ReferenceColumns {
      var i :| 0 <= i < |FromReference| && FromReference[i] == c;
      assert ReferenceColumns[i + 1] == c;
    }
    forall c ensures (c in rc <==> c in FromReference && c in reference.columns) &&
                     (c in FromReference && c in reference.columns ==> c in cs) {
      WithoutMember(cs, {"U_Estilo"}, c);
      OnlyMember(ReferenceColumns, ColumnSet(reference.columns), c);
    }
    OnlyMember(ReferenceColumns, ColumnSet(reference.columns), "U_Estilo");
  }

  /** After the columns are added, every required column is present. */
  lemma RequiredPresent(cs: seq<string>, cols: seq<string>)
    requires cols == cs + Without(Required, ColumnSet(cs))
    ensures forall c :: c in Required ==> c in cols
    ensures "U_Estilo" in cols && "U_Descripcion" in cols
  {
    forall c | c in Required ensures c in cols {
      WithoutMember(Required, ColumnSet(cs), c);
    }
  }

  /** Without suffixed copies in the input, merge-then-fill completes every reference column. */
  lemma MergeFresh(t: Table, left: seq<string>, rc: seq<string>)
    requires NoCopies(t) && left == t.columns + Without(Required, ColumnSet(t.columns))
    requires forall c :: c in rc ==> c in FromReference
    ensures Fresh(left, rc, FromReference, Suffix)
  {
    ConstantsDistinct();
    CopiesNotRequired();
    forall c | c in FromReference ensures c + Suffix !in left {
      WithoutMember(Required, ColumnSet(t.columns), c + Suffix);
    }
  }

  /** The labels of the output: the required ones are all present, so the merge adds none. */
  lemma OutputColumns(t: Table, df: Table, rc: seq<string>)
    requires df.columns == t.columns + Without(Required, ColumnSet(t.columns))
    requires forall c :: c in rc ==> c in FromReference
    ensures df.columns + Without(rc, ColumnSet(df.columns)) == df.columns
  {
    ConstantsDistinct();
    forall c | c in rc ensures c in df.columns {
      WithoutMember(Required, ColumnSet(t.columns), c);
    }
    assert Missing(rc, df.columns) == [];
    assert df.columns + [] == df.columns;
  }

  /** The two parts joined, well-formed part first. */
  lemma Joined(t: Table, reference: Table, valRows: seq<Row>, invRows: seq<Row>, out: Table)
    requires WellFormed(out) && out.columns == t.columns + Without(Required, ColumnSet(t.columns))
    requires out.rows == valRows + invRows
    requires ValidPart(t, reference, valRows) && InvalidPart(t, reference, invRows)
    ensures Cleaned(t, reference, out)
  {
    assert out.rows[..|valRows|] == valRows;
    assert out.rows[|valRows|..] == invRows;
  }

  /** The well-formed part when the reference has no style column. */
  lemma PlainValid(t: Table, reference: Table, df: Table, val1: Table)
    requires WellFormed(t) && "U_Estilo" !in reference.columns
    requires |df.rows| == |t.rows| && forall k, x :: 0 <= k < |t.rows| ==> Get(df.rows[k], x) == Get(t.rows[k], x)
    requires |val1.rows| == |Positions(ValidMask(t), true)|
    requires forall j :: 0 <= j < |val1.rows| ==> val1.rows[j] == PreValid(df.rows[Positions(ValidMask(t), true)[j]])
    ensures ValidPart(t, reference, val1.rows)
  {
    var vs := Positions(ValidMask(t), true);
    forall j | 0 <= j < |vs| ensures ValidRow(t.rows[vs[j]], reference, val1.rows[j]) {
      ValidRowPlain(t.rows[vs[j]], df.rows[vs[j]], reference, val1.rows[j]);
    }
  }

  /** The malformed part when the reference has no style column. */
  lemma PlainInvalid(t: Table, reference: Table, df: Table, inv1: Table)
    requires WellFormed(t) && "U_Estilo" !in reference.columns
    requires |df.rows| == |t.rows| && forall k, x :: 0 <= k < |t.rows| ==> Get(df.rows[k], x) == Get(t.rows[k], x)
    requires |inv1.rows| == |Positions(ValidMask(t), false)|
    requires forall j :: 0 <= j < |inv1.rows| ==> inv1.rows[j] == PreInvalid(df.rows[Positions(ValidMask(t), false)[j]])
    ensures InvalidPart(t, reference, inv1.rows)
  {
    var ivs := Positions(ValidMask(t), false);
    forall j | 0 <= j < |ivs| ensures InvalidRow(t.rows[ivs[j]], reference, inv1.rows[j]) {
      InvalidRowPlain(t.rows[ivs[j]], df.rows[ivs[j]], reference, inv1.rows[j]);
    }
  }

  /** The well-formed part merged with the reference and completed. */
  lemma KeyedValid(t: Table, reference: Table, df: Table, right: Table, val1: Table, val2: Table, rv: Table)
    requires WellFormed(t) && "U_Estilo" in reference.columns
    requires |df.rows| == |t.rows| && forall k, x :: 0 <= k < |t.rows| ==> Get(df.rows[k], x) == Get(t.rows[k], x)
    requires |val1.rows| == |Positions(ValidMask(t), true)|
    requires forall j :: 0 <= j < |val1.rows| ==> val1.rows[j] == PreValid(df.rows[Positions(ValidMask(t), true)[j]])
    requires val2.rows == CoercedRows(val1.rows, "U_Estilo", false)
    requires forall c :: c in RightColumns(right, "U_Estilo") <==> c in FromReference && c in reference.columns
    requires forall k, c :: c in FromReference && c in reference.columns ==>
               Lookup(right.rows, "U_Estilo", k, c) == Lookup(CoercedRows(reference.rows, "U_Estilo", false), "U_Estilo", k, c)
    requires Completed(val2, right, "U_Estilo", rv)
    ensures ValidPart(t, reference, rv.rows)
  {
    var vs := Positions(ValidMask(t), true);
    forall j | 0 <= j < |vs| ensures ValidRow(t.rows[vs[j]], reference, rv.rows[j]) {
      assert val2.rows[j] == Keyed(PreValid(df.rows[vs[j]]));
      ValidRowKeyed(t.rows[vs[j]], df.rows[vs[j]], reference, right, rv.rows[j]);
    }
  }

  /** The malformed part merged with the reference and completed. */
  lemma KeyedInvalid(t: Table, reference: Table, df: Table, right: Table, inv1: Table, inv2: Table, ri: Table)
    requires WellFormed(t) && "U_Estilo" in reference.columns
    requires |df.rows| == |t.rows| && forall k, x :: 0 <= k < |t.rows| ==> Get(df.rows[k], x) == Get(t.rows[k], x)
    requires |inv1.rows| == |Positions(ValidMask(t), false)|
    requires forall j :: 0 <= j < |inv1.rows| ==> inv1.rows[j] == PreInvalid(df.rows[Positions(ValidMask(t), false)[j]])
    requires inv2.rows == CoercedRows(inv1.rows, "U_Estilo", false)
    requires forall c :: c in RightColumns(right, "U_Estilo") <==> c in FromReference && c in reference.columns
    requires forall k, c :: c in FromReference && c in reference.columns ==>
               Lookup(right.rows, "U_Estilo", k, c) == Lookup(CoercedRows(reference.rows, "U_Estilo", false), "U_Estilo", k, c)
    requires Completed(inv2, right, "U_Estilo", ri)
    ensures InvalidPart(t, reference, ri.rows)
  {
    var ivs := Positions(ValidMask(t), false);
    forall j | 0 <= j < |ivs| ensures InvalidRow(t.rows[ivs[j]], reference, ri.rows[j]) {
      assert inv2.rows[j] == Keyed(PreInvalid(df.rows[ivs[j]]));
      InvalidRowKeyed(t.rows[ivs[j]], df.rows[ivs[j]], reference, right, ri.rows[j]);
    }
  }

  // ---------------------------------------------------------------------
  // One row
  // ---------------------------------------------------------------------

  lemma ValidRowPlain(row: Row, drow: Row, reference: Table, o: Row)
    requires "U_Estilo" !in reference.columns && SkValid(Get(row, "ItemName"))
    requires forall x :: Get(drow, x) == Get(row, x)
    requires o == PreValid(drow)
    ensures ValidRow(row, reference, o)
  {
    ConstantsDistinct();
    FieldExists(Get(row, "ItemName").value, '/', 0);
  }

  lemma InvalidRowPlain(row: Row, drow: Row, reference: Table, o: Row)
    requires "U_Estilo" !in reference.columns
    requires forall x :: Get(drow, x) == Get(row, x)
    requires o == PreInvalid(drow)
    ensures InvalidRow(row, reference, o)
  {
    ConstantsDistinct();
  }

  lemma ValidRowKeyed(row: Row, drow: Row, reference: Table, right: Table, o: Row)
    requires "U_Estilo" in reference.columns && SkValid(Get(row, "ItemName"))
    requires forall x :: Get(drow, x) == Get(row, x)
    requires forall c :: c in RightColumns(right, "U_Estilo") <==> c in FromReference && c in reference.columns
    requires forall k, c :: c in FromReference && c in reference.columns ==>
               Lookup(right.rows, "U_Estilo", k, c) == Lookup(CoercedRows(reference.rows, "U_Estilo", false), "U_Estilo", k, c)
    requires forall x :: Get(o, x) == CompletedCell(Keyed(PreValid(drow)), right, "U_Estilo", x)
    ensures ValidRow(row, reference, o)
  {
    ConstantsDistinct();
    var name := Get(row, "ItemName");
    FieldExists(name.value, '/', 0);
    var pre := Keyed(PreValid(drow));
    assert Get(pre, "U_Estilo") == Field(name, '/', 0);
    assert Get(o, "U_Estilo") == CompletedCell(pre, right, "U_Estilo", "U_Estilo");
    assert Get(o, "U_Descripcion") == CompletedCell(pre, right, "U_Estilo", "U_Descripcion");
    forall c | c in FromReference ensures Get(o, c) == FilledFrom(row, reference, Field(name, '/', 0).value, c) {
      assert Get(o, c) == CompletedCell(pre, right, "U_Estilo", c);
    }
    forall x | x != "U_Estilo" && x != "U_Descripcion" && x !in FromReference ensures Get(o, x) == Get(row, x) {
      assert Get(o, x) == CompletedCell(pre, right, "U_Estilo", x);
    }
  }

  lemma InvalidRowKeyed(row: Row, drow: Row, reference: Table, right: Table, o: Row)
    requires "U_Estilo" in reference.columns
    requires forall x :: Get(drow, x) == Get(row, x)
    requires forall c :: c in RightColumns(right, "U_Estilo") <==> c in FromReference && c in reference.columns
    requires forall k, c :: c in FromReference && c in reference.columns ==>
               Lookup(right.rows, "U_Estilo", k, c) == Lookup(CoercedRows(reference.rows, "U_Estilo", false), "U_Estilo", k, c)
    requires forall x :: Get(o, x) == CompletedCell(Keyed(PreInvalid(drow)), right, "U_Estilo", x)
    ensures InvalidRow(row, reference, o)
  {
    ConstantsDistinct();
    var pre := Keyed(PreInvalid(drow));
    assert Get(pre, "U_Estilo") == Some("nan");
    assert Get(o, "U_Estilo") == CompletedCell(pre, right, "U_Estilo", "U_Estilo");
    forall c | c in FromReference ensures Get(o, c) == FilledFrom(row, reference, "nan", c) {
      assert Get(o, c) == CompletedCell(pre, right, "U_Estilo", c);
    }
    forall x | x != "U_Estilo" && x !in FromReference ensures Get(o, x) == Get(row, x) {
      assert Get(o, x) == CompletedCell(pre, right, "U_Estilo", x);
    }
  }
}
