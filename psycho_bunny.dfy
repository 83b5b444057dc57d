/**
 * Psycho Bunny (`_clean_psycho_bunny`): without a reference table the input
 * is returned as it is. Otherwise the item name is split on `/` into at most
 * four fields (style, description, size, colour), assigning as many of those
 * columns as the widest name has fields; the description loses its
 * "americana <number>" mentions and surrounding blanks; and one merge on the
 * stripped style completes gender, garment, sub-garment and season from the
 * reference.
 */
module PsychoBunny {
  import opened Wrappers
  import opened Text
  import opened Frame
  import opened Enrich
  import opened Rules

  /** The columns the split assigns, field by field. */
  const PartLabels: seq<string> := ["U_Estilo", "U_Descripcion", "U_Talla", "U_Descrip_Color"]

  /** The reference columns the merge may bring. */
  const Interest: seq<string> := ["U_Genero", "U_Prenda", "U_Subprenda", "U_Temporalidad"]

  const Suffix: string := "_mongo"

  // ---------------------------------------------------------------------
  // The specification
  // ---------------------------------------------------------------------

  /** How many columns `str.split('/', n=3, expand=True)` yields: none for a table without rows. */
  function Width(t: Table): (w: nat)
    ensures w <= 4
    ensures |t.rows| == 0 <==> w == 0
  {
    if |t.rows| == 0 then 0 else SplitWidth(Column(t, "ItemName"))
  }

  /** The width is the widest name's field count: no name reaches beyond it, and past one column some name fills the last. */
  lemma WidthIsWidest(t: Table)
    ensures forall k, i :: 0 <= k < |t.rows| && Width(t) <= i ==> BoundedField(Get(t.rows[k], "ItemName"), i).None?
    ensures Width(t) <= 1 || exists k :: 0 <= k < |t.rows| && BoundedField(Get(t.rows[k], "ItemName"), Width(t) - 1).Some?
  {
  }

  /** A cell once the first `n` split columns are assigned. */
  function PartUpTo(row: Row, n: nat, x: string): Cell {
    var name := Get(row, "ItemName");
    if x == "U_Estilo" && 0 < n then BoundedField(name, 0)
    else if x == "U_Descripcion" && 1 < n then BoundedField(name, 1)
    else if x == "U_Talla" && 2 < n then BoundedField(name, 2)
    else if x == "U_Descrip_Color" && 3 < n then BoundedField(name, 3)
    else Get(row, x)
  }

  /** The first `n` split labels. */
  function PartPrefix(n: nat): (cs: seq<string>)
    requires n <= 4
    ensures cs == PartLabels[..n]
  {
    if n == 0 then [] else if n == 1 then ["U_Estilo"] else if n == 2 then ["U_Estilo", "U_Descripcion"]
    else if n == 3 then ["U_Estilo", "U_Descripcion", "U_Talla"] else PartLabels
  }

  /** The labels after the split: the input's, then the split columns it lacked. */
  function PartedColumns(t: Table): seq<string> {
    t.columns + Without(PartPrefix(Width(t)), ColumnSet(t.columns))
  }

  /** A cell of the working table: after the split, with the description cleaned. */
  function Working(row: Row, w: nat, x: string): Cell {
    if x == "U_Descripcion" then PbDescription(PartUpTo(row, w, x)) else PartUpTo(row, w, x)
  }

  /** The columns of interest the reference has, in their fixed order. */
  function Available(reference: Table): (cs: seq<string>)
    ensures forall c :: c in cs <==> c in Interest && c in reference.columns
  {
    var cs := Only(Interest, ColumnSet(reference.columns));
    forall c ensures c in cs <==> c in Interest && c in reference.columns {
      OnlyMember(Interest, ColumnSet(reference.columns), c);
    }
    cs
  }

  /** A cell of the output: the style stripped to text, and a null column of interest from the first reference row with that style. */
  function Final(row: Row, w: nat, reference: Table, x: string): Cell {
    var key := KeyText(Working(row, w, "U_Estilo"), true);
    if x == "U_Estilo" then Some(key)
    else if x in Available(reference) && Working(row, w, x).None?
    then Lookup(CoercedRows(reference.rows, "U_Estilo", true), "U_Estilo", Some(key), x)
    else Working(row, w, x)
  }

  /** The working table: the split and the cleaned description. */
  ghost predicate Worked(t: Table, work: Table) {
    WellFormed(work) && work.columns == PartedColumns(t) && |work.rows| == |t.rows| &&
    forall k, x :: 0 <= k < |t.rows| ==> Get(work.rows[k], x) == Working(t.rows[k], Width(t), x)
  }

  /** The output: the working labels, then the available columns of interest they lacked. */
  ghost predicate Cleaned(t: Table, reference: Table, out: Table) {
    var cs := PartedColumns(t);
    WellFormed(out) &&
    out.columns == cs + Without(Available(reference), ColumnSet(cs)) &&
    |out.rows| == |t.rows| &&
    forall k, x :: 0 <= k < |t.rows| ==> Get(out.rows[k], x) == Final(t.rows[k], Width(t), reference, x)
  }

  /** The input has no label shaped like a merge copy of a column of interest. */
  predicate NoCopies(t: Table) {
    forall c :: c in Interest ==> c + Suffix !in t.columns
  }

  // ---------------------------------------------------------------------
  // The routine
  // ---------------------------------------------------------------------

  method Clean(t: Table, reference: Table) returns (r: Result<Table, CleanError>)
    requires WellFormed(t) && WellFormed(reference) && "ItemName" in t.columns
    ensures r.Ok? ==> |r.value.rows| == |t.rows|
    ensures IsEmpty(reference) ==> r == Ok(t)
    ensures !IsEmpty(reference) && "U_Descripcion" !in PartedColumns(t) ==> r == Err(KeyError(["U_Descripcion"]))
    ensures !IsEmpty(reference) && "U_Descripcion" in PartedColumns(t) && "U_Estilo" !in reference.columns ==>
              r.Ok? && Worked(t, r.value)
    ensures !IsEmpty(reference) && "U_Descripcion" in PartedColumns(t) && "U_Estilo" in reference.columns ==>
              ("U_Estilo" !in PartedColumns(t) ==> r == Err(KeyError(["U_Estilo"]))) &&
              ("U_Estilo" in PartedColumns(t) && NoCopies(t) ==> r.Ok? && Cleaned(t, reference, r.value))
  {
    if IsEmpty(reference) {
      return Ok(t);
    }
    var worked := SplitAndDescribe(t);
    if worked.Err? {
      return worked;
    }
    if "U_Estilo" !in reference.columns {
      // The key-less branch keeps the working table; `CleanAsWritten` follows the source past it.
      return worked;
    }
    r := MergeReference(t, reference, worked.value);
  }

  /** The split into the part columns, then the description clean-up, which needs a description column. */
  method SplitAndDescribe(t: Table) returns (r: Result<Table, CleanError>)
    requires WellFormed(t)
    ensures "U_Descripcion" !in PartedColumns(t) ==> r == Err(KeyError(["U_Descripcion"]))
    ensures "U_Descripcion" in PartedColumns(t) ==> r.Ok? && Worked(t, r.value)
  {
    var d := SplitName(t);
    if "U_Descripcion" !in d.columns {
      return Err(KeyError(["U_Descripcion"]));
    }
    var work := SetColumn(d, "U_Descripcion", DescriptionColumn(d));
    WorkedFrom(t, d, work);
    r := Ok(work);
  }

  /** The merge on the stripped style and the fill loop over the available columns of interest. */
  method MergeReference(t: Table, reference: Table, work: Table) returns (r: Result<Table, CleanError>)
    requires WellFormed(reference) && "U_Estilo" in reference.columns && Worked(t, work)
    ensures r.Ok? ==> |r.value.rows| == |t.rows|
    ensures "U_Estilo" !in PartedColumns(t) ==> r == Err(KeyError(["U_Estilo"]))
    ensures "U_Estilo" in PartedColumns(t) && NoCopies(t) ==> r.Ok? && Cleaned(t, reference, r.value)
  {
    var available := Available(reference);
    if "U_Estilo" !in work.columns {
      return Err(KeyError(["U_Estilo"]));
    }
    InterestLabels();
    DistinctCons("U_Estilo", available);
    var right := Prepare(reference, ["U_Estilo"] + available, "U_Estilo", true);
    var keyed := CoerceKey(work, "U_Estilo", true);
    KeyAvailable(available);
    if NoCopies(t) {
      MergeFresh(t, keyed.columns, available);
    }
    var m := MergeFill(keyed, right, "U_Estilo", Suffix, available, true);
    if m.Err? {
      return Err(m.error);
    }
    if NoCopies(t) {
      Merged(t, reference, work, right, keyed, m.value);
    }
    // The closing statistics select the available columns.
    var sel := Select(m.value, available);
    if sel.Err? {
      return Err(sel.error);
    }
    r := Ok(m.value);
  }

  /** `str.split('/', n=3, expand=True)` and the assignments guarded by its width. */
  method SplitName(t: Table) returns (d: Table)
    requires WellFormed(t)
    ensures WellFormed(d) && |d.rows| == |t.rows| && d.columns == PartedColumns(t)
    ensures forall k, x :: 0 <= k < |t.rows| ==> Get(d.rows[k], x) == PartUpTo(t.rows[k], Width(t), x)
  {
    d := AssignUpTo(t, Width(t));
  }

  /** `if len(split_data.columns) > i: df[c] = split_data[i]`, for the four split labels in turn. */
  method AssignUpTo(t: Table, n: nat) returns (d: Table)
    requires WellFormed(t) && n <= 4
    ensures Assigned(t, d, n)
  {
    d := t;
    assert Without([], ColumnSet(t.columns)) == [] && t.columns + [] == t.columns;
    assert Assigned(t, d, 0);
    if n > 0 {
      d := AssignPart(t, d, 0, "U_Estilo");
    }
    assert Assigned(t, d, if n < 1 then n else 1);
    if n > 1 {
      d := AssignPart(t, d, 1, "U_Descripcion");
    }
    assert Assigned(t, d, if n < 2 then n else 2);
    if n > 2 {
      d := AssignPart(t, d, 2, "U_Talla");
    }
    assert Assigned(t, d, if n < 3 then n else 3);
    if n > 3 {
      d := AssignPart(t, d, 3, "U_Descrip_Color");
    }
  }

  /** The table once the first `n` split columns are assigned. */
  ghost predicate Assigned(t: Table, d: Table, n: nat) {
    n <= 4 && WellFormed(d) && |d.rows| == |t.rows| &&
    d.columns == t.columns + Without(PartPrefix(n), ColumnSet(t.columns)) &&
    forall k, x :: 0 <= k < |t.rows| ==> Get(d.rows[k], x) == PartUpTo(t.rows[k], n, x)
  }

  /** `df[c] = split_data[i]`, for the `i`-th split label `c`. */
  method AssignPart(t: Table, d: Table, i: nat, c: string) returns (d2: Table)
    requires WellFormed(t) && WellFormed(d) && |d.rows| == |t.rows| && i < 4 && c == PartLabels[i]
    requires d.columns == t.columns + Without(PartPrefix(i), ColumnSet(t.columns))
    requires forall k, x :: 0 <= k < |t.rows| ==> Get(d.rows[k], x) == PartUpTo(t.rows[k], i, x)
    ensures WellFormed(d2) && |d2.rows| == |t.rows|
    ensures d2.columns == t.columns + Without(PartPrefix(i + 1), ColumnSet(t.columns))
    ensures forall k, x :: 0 <= k < |t.rows| ==> Get(d2.rows[k], x) == PartUpTo(t.rows[k], i + 1, x)
  {
    PrefixStep(i, c);
    AssignAppends(t.columns, PartPrefix(i), c, d.columns);
    d2 := SetColumn(d, c, PartColumn(t, i));
    forall k | 0 <= k < |t.rows| ensures forall x :: Get(d2.rows[k], x) == PartUpTo(t.rows[k], i + 1, x) {
      assert d2.rows[k] == d.rows[k][c := BoundedField(Get(t.rows[k], "ItemName"), i)];
      PartStep(t.rows[k], d.rows[k], d2.rows[k], i, c);
    }
  }

  lemma PrefixStep(i: nat, c: string)
    requires i < 4 && c == PartLabels[i]
    ensures PartPrefix(i + 1) == PartPrefix(i) + [c] && c !in PartPrefix(i)
  {
  }

  lemma PartStep(row: Row, drow: Row, orow: Row, i: nat, c: string)
    requires i < 4 && c == PartLabels[i]
    requires forall x :: Get(drow, x) == PartUpTo(row, i, x)
    requires orow == drow[c := BoundedField(Get(row, "ItemName"), i)]
    ensures forall x :: Get(orow, x) == PartUpTo(row, i + 1, x)
  {
    forall x ensures Get(orow, x) == PartUpTo(row, i + 1, x) {
      if x == c {
        assert Get(orow, x) == BoundedField(Get(row, "ItemName"), i);
      } else {
        assert Get(orow, x) == PartUpTo(row, i, x);
      }
    }
  }

  /** Field `i` of every name. */
  function PartColumn(t: Table, i: nat): (vals: seq<Cell>)
    ensures |vals| == |t.rows|
    ensures forall k :: 0 <= k < |t.rows| ==> vals[k] == BoundedField(Get(t.rows[k], "ItemName"), i)
  {
    seq(|t.rows|, k requires 0 <= k < |t.rows| => BoundedField(Get(t.rows[k], "ItemName"), i))
  }

  /** The cleaned description of every row. */
  function DescriptionColumn(d: Table): (vals: seq<Cell>)
    ensures |vals| == |d.rows|
    ensures forall k :: 0 <= k < |d.rows| ==> vals[k] == PbDescription(Get(d.rows[k], "U_Descripcion"))
  {
    seq(|d.rows|, k requires 0 <= k < |d.rows| => PbDescription(Get(d.rows[k], "U_Descripcion")))
  }

  lemma WorkedFrom(t: Table, d: Table, work: Table)
    requires WellFormed(d) && |d.rows| == |t.rows| && d.columns == PartedColumns(t) && "U_Descripcion" in d.columns
    requires forall k, x :: 0 <= k < |t.rows| ==> Get(d.rows[k], x) == PartUpTo(t.rows[k], Width(t), x)
    requires work == SetColumn(d, "U_Descripcion", DescriptionColumn(d))
    ensures Worked(t, work)
  {
    forall k, x | 0 <= k < |t.rows| ensures Get(work.rows[k], x) == Working(t.rows[k], Width(t), x) {
      assert work.rows[k] == d.rows[k]["U_Descripcion" := PbDescription(Get(d.rows[k], "U_Descripcion"))];
    }
  }

  // ---------------------------------------------------------------------
  // The merge
  // ---------------------------------------------------------------------

  lemma InterestLabels()
    ensures Distinct(Interest) && Distinct(PartLabels) && "U_Estilo" !in Interest
    ensures Separated(Interest, Suffix)
    ensures forall c, x :: c in Interest && x in PartLabels ==> c + Suffix != x
  {
    forall a, b | a in Interest && b in Interest ensures a != b + Suffix {
      assert |b + Suffix| == |b| + 6 >= 14;
      if a == "U_Temporalidad" {
        assert (b + Suffix)[|b + Suffix| - 1] == 'o';
      }
    }
    forall c, x | c in Interest && x in PartLabels ensures c + Suffix != x {
      assert |c + Suffix| == |c| + 6;
    }
  }

  /** The merge's right-hand columns are the available columns of interest. */
  lemma KeyAvailable(available: seq<string>)
    requires "U_Estilo" !in available
    ensures Without(["U_Estilo"] + available, {"U_Estilo"}) == available
  {
    WithoutConcat(["U_Estilo"], available, {"U_Estilo"});
    assert Without(["U_Estilo"], {"U_Estilo"}) == [] by {
      assert ["U_Estilo"][1..] == [];
    }
    forall i | 0 <= i < |available| ensures available[i] !in {"U_Estilo"} {
    }
    WithoutNone(available, {"U_Estilo"});
    assert [] + available == available;
  }

  /** Without copies in the input, the fill loop completes every available column of interest. */
  lemma MergeFresh(t: Table, left: seq<string>, available: seq<string>)
    requires NoCopies(t) && left == PartedColumns(t)
    requires forall c :: c in available ==> c in Interest
    requires Distinct(available)
    ensures Fresh(left, available, available, Suffix)
  {
    InterestLabels();
    forall c | c in available ensures c + Suffix !in left {
      ColumnSetConcat(t.columns, Without(PartPrefix(Width(t)), ColumnSet(t.columns)));
      assert c + Suffix in left <==> c + Suffix in ColumnSet(left);
      assert c + Suffix !in ColumnSet(PartLabels);
    }
  }

  /** The merge's output against the specification. */
  lemma Merged(t: Table, reference: Table, work: Table, right: Table, keyed: Table, out: Table)
    requires WellFormed(reference) && Worked(t, work) && "U_Estilo" in work.columns
    requires Distinct(["U_Estilo"] + Available(reference)) && "U_Estilo" !in Available(reference)
    requires right == Prepare(reference, ["U_Estilo"] + Available(reference), "U_Estilo", true)
    requires Without(["U_Estilo"] + Available(reference), {"U_Estilo"}) == Available(reference)
    requires keyed == CoerceKey(work, "U_Estilo", true)
    requires Completed(keyed, right, "U_Estilo", out)
    ensures Cleaned(t, reference, out)
    ensures Missing(Available(reference), out.columns) == []
  {
    var available := Available(reference);
    assert RightColumns(right, "U_Estilo") == available;
    forall c | c in available ensures c in out.columns {
      WithoutMember(available, ColumnSet(keyed.columns), c);
      assert c in keyed.columns <==> c in ColumnSet(keyed.columns);
    }
    forall k | 0 <= k < |t.rows| ensures forall x :: Get(out.rows[k], x) == Final(t.rows[k], Width(t), reference, x) {
      MergedRow(t.rows[k], Width(t), work.rows[k], keyed.rows[k], out.rows[k], reference, right);
    }
  }

  lemma MergedRow(row: Row, w: nat, wrow: Row, lrow: Row, orow: Row, reference: Table, right: Table)
    requires forall x :: Get(wrow, x) == Working(row, w, x)
    requires lrow == wrow["U_Estilo" := Some(KeyText(Get(wrow, "U_Estilo"), true))]
    requires RightColumns(right, "U_Estilo") == Available(reference) && "U_Estilo" !in Available(reference)
    requires forall m, c :: c in ["U_Estilo"] + Available(reference) ==>
               Lookup(right.rows, "U_Estilo", m, c) == Lookup(CoercedRows(reference.rows, "U_Estilo", true), "U_Estilo", m, c)
    requires forall x :: Get(orow, x) == CompletedCell(lrow, right, "U_Estilo", x)
    ensures forall x :: Get(orow, x) == Final(row, w, reference, x)
  {
    forall x ensures Get(orow, x) == Final(row, w, reference, x) {
      if x != "U_Estilo" {
        assert Get(lrow, x) == Working(row, w, x);
        if x in Available(reference) {
          assert x in ["U_Estilo"] + Available(reference);
        }
      }
    }
  }

  // ---------------------------------------------------------------------
  // The reference without a style column
  // ---------------------------------------------------------------------

  /**
   * What the source does after its key-less branch: the closing statistics
   * select the available columns of interest (`KeyError` when the working
   * table lacks one) and then read the length of the de-duplicated reference,
   * which that branch never assigned.
   */
  function MissingKeyAsWritten(work: Table, available: seq<string>): (r: Result<Table, CleanError>)
    ensures r.Err?
    ensures r.error == UnboundLocal("df_ref") <==> Missing(available, work.columns) == []
  {
    var missing := Missing(available, work.columns);
    if missing != [] then Err(KeyError(missing)) else Err(UnboundLocal("df_ref"))
  }

  /**
   * The routine as the source writes its key-less branch: after the warning,
   * the closing statistics run on the working table and fail. Every other
   * branch is the one `Clean` takes.
   */
  method CleanAsWritten(t: Table, reference: Table) returns (r: Result<Table, CleanError>)
    requires WellFormed(t) && WellFormed(reference) && "ItemName" in t.columns
    ensures IsEmpty(reference) ==> r == Ok(t)
    ensures !IsEmpty(reference) && "U_Descripcion" !in PartedColumns(t) ==> r == Err(KeyError(["U_Descripcion"]))
    ensures !IsEmpty(reference) && "U_Descripcion" in PartedColumns(t) && "U_Estilo" !in reference.columns ==>
              r.Err? && (r.error == UnboundLocal("df_ref") <==> Missing(Available(reference), PartedColumns(t)) == [])
    ensures !IsEmpty(reference) && "U_Descripcion" in PartedColumns(t) && "U_Estilo" in reference.columns ==>
              ("U_Estilo" !in PartedColumns(t) ==> r == Err(KeyError(["U_Estilo"]))) &&
              ("U_Estilo" in PartedColumns(t) && NoCopies(t) ==> r.Ok? && Cleaned(t, reference, r.value))
  {
    if IsEmpty(reference) {
      return Ok(t);
    }
    var worked := SplitAndDescribe(t);
    if worked.Err? {
      return worked;
    }
    if "U_Estilo" !in reference.columns {
      return MissingKeyAsWritten(worked.value, Available(reference));
    }
    r := MergeReference(t, reference, worked.value);
  }

  // ---------------------------------------------------------------------
  // Properties
  // ---------------------------------------------------------------------

  /** The merge key is stripped text, and a cleaned description has no surrounding blanks. */
  lemma {:induction false} KeysAndDescriptionsTrimmed(row: Row, w: nat, reference: Table)
    ensures Final(row, w, reference, "U_Estilo").Some? && Trimmed(Final(row, w, reference, "U_Estilo").value)
    ensures Final(row, w, reference, "U_Descripcion").Some? ==> Trimmed(Final(row, w, reference, "U_Descripcion").value)
  {
    StripSpec(AsStr(Working(row, w, "U_Estilo")));
  }

  /** A value the input already has in a column the split does not assign is never replaced. */
  lemma {:induction false} InputKept(row: Row, w: nat, reference: Table, x: string)
    requires x !in PartLabels && Get(row, x).Some?
    ensures Final(row, w, reference, x) == Get(row, x)
  {
  }

  /** A null column of interest whose row finds a reference style takes that reference row's value. */
  lemma {:induction false} ReferenceFills(row: Row, w: nat, reference: Table, x: string)
    requires x in Interest && x in reference.columns && x !in PartLabels && Get(row, x).None?
    ensures Final(row, w, reference, x) ==
            Lookup(CoercedRows(reference.rows, "U_Estilo", true), "U_Estilo", Some(KeyText(Working(row, w, "U_Estilo"), true)), x)
  {
    assert x != "U_Estilo" && x != "U_Descripcion" && x != "U_Talla" && x != "U_Descrip_Color";
    assert Working(row, w, x) == Get(row, x);
    assert x in Available(reference);
  }
}
