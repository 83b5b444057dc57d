/**
 * Enrichment from a reference table: preparing the reference (column
 * selection, key coercion, de-duplication on the key) and the loop that, after
 * a left merge, fills the null cells of a column from its suffixed copy and
 * then drops the copy.
 */
module Enrich {
  import opened Wrappers
  import opened Text
  import opened Frame

  // ---------------------------------------------------------------------
  // The fill loop
  // ---------------------------------------------------------------------

  /**
   * One pass of the fill loop for column `c`: when the merge produced
   * `c + suffix`, fill the nulls of `c` from it (or, with `createMissing`,
   * create `c` as a copy of it when the table has no `c`) and drop it. Without
   * `createMissing`, reading an absent `c` raises `KeyError`.
   */
  function FillStep(t: Table, c: string, suffix: string, createMissing: bool): (r: Result<Table, CleanError>)
    requires WellFormed(t)
    ensures r.Ok? ==> WellFormed(r.value) && |r.value.rows| == |t.rows|
  {
    var src := c + suffix;
    if src !in t.columns then Ok(t)
    else if c !in t.columns && !createMissing then Err(KeyError([c]))
    else Ok(DropColumns(FillNa(t, c, src), {src}))
  }

  /** The fill loop over `cols`, in order, stopping at the first error. */
  function FillAll(t: Table, cols: seq<string>, suffix: string, createMissing: bool): (r: Result<Table, CleanError>)
    requires WellFormed(t)
    ensures r.Ok? ==> WellFormed(r.value) && |r.value.rows| == |t.rows|
    decreases |cols|
  {
    if |cols| == 0 then Ok(t)
    else
      match FillStep(t, cols[0], suffix, createMissing)
      case Err(e) => Err(e)
      case Ok(t1) => FillAll(t1, cols[1..], suffix, createMissing)
  }

  /** The loop as the source runs it: one column at a time, on a table it keeps reassigning. */
  method FillFromSuffix(t: Table, cols: seq<string>, suffix: string, createMissing: bool)
    returns (r: Result<Table, CleanError>)
    requires WellFormed(t)
    ensures r == FillAll(t, cols, suffix, createMissing)
  {
    var cur := t;
    var i := 0;
    while i < |cols|
      invariant 0 <= i <= |cols|
      invariant WellFormed(cur)
      invariant FillAll(t, cols, suffix, createMissing) == FillAll(cur, cols[i..], suffix, createMissing)
    {
      assert cols[i..][1..] == cols[i + 1..];
      var src := cols[i] + suffix;
      if src in cur.columns {
        if cols[i] !in cur.columns && !createMissing {
          return Err(KeyError([cols[i]]));
        }
        cur := FillNa(cur, cols[i], src);
        cur := DropColumns(cur, {src});
      }
      i := i + 1;
    }
    return Ok(cur);
  }

  // ---------------------------------------------------------------------
  // What the fill loop computes
  // ---------------------------------------------------------------------

  /** The suffixed copies the loop looks for. */
  function Sources(cols: seq<string>, suffix: string): set<string> {
    set c | c in cols :: c + suffix
  }

  /** The columns the loop creates (only with `createMissing`): those absent whose copy is present. */
  function Created(columns: seq<string>, cols: seq<string>, suffix: string): seq<string>
    decreases |cols|
  {
    if |cols| == 0 then []
    else (if cols[0] !in columns && cols[0] + suffix in columns then [cols[0]] else []) + Created(columns, cols[1..], suffix)
  }

  /** The labels after the loop: the created columns appended, every copy removed. */
  function FilledColumns(columns: seq<string>, cols: seq<string>, suffix: string): seq<string> {
    Without(columns + Created(columns, cols, suffix), Sources(cols, suffix))
  }

  /** The cell the loop leaves in column `x`: filled from its copy when it has one, else as it was. */
  function FilledCell(row: Row, x: string, cols: seq<string>, suffix: string): Cell {
    if x in cols && x + suffix in row then FillValue(row, x, x + suffix) else Get(row, x)
  }

  /** The loop succeeds exactly when every column whose copy is present is itself present (or may be created). */
  predicate FillSucceeds(columns: seq<string>, cols: seq<string>, suffix: string, createMissing: bool) {
    createMissing || forall c :: c in cols && c + suffix in columns ==> c in columns
  }

  /** No column of the loop is the copy of another one, and the suffix is not empty. */
  predicate Separated(cols: seq<string>, suffix: string) {
    |suffix| > 0 && Distinct(cols) && forall a, b :: a in cols && b in cols ==> a != b + suffix
  }

  lemma AppendInjective(a: string, b: string, s: string)
    requires a + s == b + s
    ensures a == b
  {
    assert |a| == |b|;
    assert a == (a + s)[..|a|];
    assert b == (b + s)[..|b|];
  }

  lemma SeparatedTail(cols: seq<string>, suffix: string)
    requires |cols| > 0 && Separated(cols, suffix)
    ensures Separated(cols[1..], suffix)
    ensures cols[0] !in cols[1..]
    ensures forall x :: x in cols[1..] ==> x != cols[0] && x != cols[0] + suffix &&
                                            x + suffix != cols[0] && x + suffix != cols[0] + suffix
  {
    DistinctCons(cols[0], cols[1..]);
    assert cols == [cols[0]] + cols[1..];
    forall a, b | a in cols[1..] && b in cols[1..] ensures a != b + suffix {
      assert a in cols && b in cols;
    }
    forall x | x in cols[1..]
      ensures x != cols[0] && x != cols[0] + suffix && x + suffix != cols[0] && x + suffix != cols[0] + suffix
    {
      assert x in cols && cols[0] in cols;
      if x + suffix == cols[0] + suffix { AppendInjective(x, cols[0], suffix); }
    }
  }

  /** A step fails exactly when the copy is present, the column absent, and creating it not allowed. */
  lemma FillStepOk(t: Table, c: string, suffix: string, createMissing: bool)
    requires WellFormed(t)
    ensures FillStep(t, c, suffix, createMissing).Ok? <==> !(c + suffix in t.columns && c !in t.columns && !createMissing)
    ensures FillStep(t, c, suffix, createMissing).Err? ==> FillStep(t, c, suffix, createMissing).error == KeyError([c])
  {
  }

  /** The labels after one step: `c` appended when it is created, the copy dropped. */
  lemma FillStepColumns(t: Table, c: string, suffix: string, createMissing: bool, t1: Table)
    requires WellFormed(t)
    requires FillStep(t, c, suffix, createMissing) == Ok(t1)
    ensures t1.columns == (if c + suffix in t.columns
                           then Without(t.columns + (if c in t.columns then [] else [c]), {c + suffix})
                           else t.columns)
  {
    assert t.columns + [] == t.columns;
  }

  /** One step, cell by cell. */
  lemma FillStepSpec(t: Table, c: string, suffix: string, createMissing: bool, t1: Table)
    requires WellFormed(t) && |suffix| > 0
    requires FillStep(t, c, suffix, createMissing) == Ok(t1)
    ensures t1.columns == (if c + suffix in t.columns
                           then Without(t.columns + (if c in t.columns then [] else [c]), {c + suffix})
                           else t.columns)
    ensures |t1.rows| == |t.rows|
    ensures forall k, x :: 0 <= k < |t.rows| && x != c && x != c + suffix ==> Get(t1.rows[k], x) == Get(t.rows[k], x)
    ensures forall k :: 0 <= k < |t.rows| ==>
              Get(t1.rows[k], c) == if c + suffix in t.columns then FillValue(t.rows[k], c, c + suffix) else Get(t.rows[k], c)
  {
    FillStepColumns(t, c, suffix, createMissing, t1);
    FillStepCells(t, c, suffix, createMissing, t1);
  }

  lemma FillStepCells(t: Table, c: string, suffix: string, createMissing: bool, t1: Table)
    requires WellFormed(t) && |suffix| > 0
    requires FillStep(t, c, suffix, createMissing) == Ok(t1)
    ensures |t1.rows| == |t.rows|
    ensures forall k, x :: 0 <= k < |t.rows| && x != c && x != c + suffix ==> Get(t1.rows[k], x) == Get(t.rows[k], x)
    ensures forall k :: 0 <= k < |t.rows| ==>
              Get(t1.rows[k], c) == if c + suffix in t.columns then FillValue(t.rows[k], c, c + suffix) else Get(t.rows[k], c)
  {
    var src := c + suffix;
    assert src != c by { assert |src| > |c|; }
    if src in t.columns {
      var f := FillNa(t, c, src);
      assert t1 == DropColumns(f, {src});
      forall k | 0 <= k < |t.rows|
        ensures Get(t1.rows[k], c) == FillValue(t.rows[k], c, src)
        ensures forall x :: x != c && x != src ==> Get(t1.rows[k], x) == Get(t.rows[k], x)
      {
        assert t1.rows[k] == t.rows[k][c := FillValue(t.rows[k], c, src)] - {src};
        FilledRow(t.rows[k], c, src, FillValue(t.rows[k], c, src));
      }
    }
  }

  /** Writing `c` and dropping `src` leaves every other cell of a row alone. */
  lemma FilledRow(row: Row, c: string, src: string, v: Cell)
    requires c != src
    ensures Get(row[c := v] - {src}, c) == v
    ensures forall x :: x != c && x != src ==> Get(row[c := v] - {src}, x) == Get(row, x)
  {
  }

  /** Taking one step and then the rest is the whole loop. */
  lemma FillAllUnfold(t: Table, cols: seq<string>, suffix: string, createMissing: bool, t1: Table)
    requires WellFormed(t) && |cols| > 0
    requires FillStep(t, cols[0], suffix, createMissing) == Ok(t1)
    ensures WellFormed(t1)
    ensures FillAll(t, cols, suffix, createMissing) == FillAll(t1, cols[1..], suffix, createMissing)
  {
  }

  /** The loop fails exactly when some column's copy is present but the column is not. */
  lemma {:induction false} FillAllOk(t: Table, cols: seq<string>, suffix: string, createMissing: bool)
    requires WellFormed(t) && Separated(cols, suffix)
    ensures FillAll(t, cols, suffix, createMissing).Ok? <==> FillSucceeds(t.columns, cols, suffix, createMissing)
    ensures FillAll(t, cols, suffix, createMissing).Err? ==>
              exists c :: c in cols && c !in t.columns && c + suffix in t.columns &&
                          FillAll(t, cols, suffix, createMissing).error == KeyError([c])
    decreases |cols|
  {
    if |cols| > 0 {
      var c := cols[0];
      FillStepOk(t, c, suffix, createMissing);
      SeparatedTail(cols, suffix);
      var s := FillStep(t, c, suffix, createMissing);
      if s.Ok? {
        var t1 := s.value;
        FillAllUnfold(t, cols, suffix, createMissing, t1);
        FillAllOk(t1, cols[1..], suffix, createMissing);
        MembershipAfterStep(t, c, suffix, createMissing, t1);
        assert forall x :: x in cols <==> x == c || x in cols[1..] by { assert cols == [c] + cols[1..]; }
      } else {
        assert c in cols;
      }
    }
  }

  /** Columns other than `c` and its copy are present after a step exactly when they were before. */
  lemma MembershipAfterStep(t: Table, c: string, suffix: string, createMissing: bool, t1: Table)
    requires WellFormed(t) && |suffix| > 0
    requires FillStep(t, c, suffix, createMissing) == Ok(t1)
    ensures forall x :: x != c && x != c + suffix ==> (x in t1.columns <==> x in t.columns)
  {
    FillStepColumns(t, c, suffix, createMissing, t1);
    var src := c + suffix;
    if src in t.columns {
      var base := t.columns + (if c in t.columns then [] else [c]);
      forall x | x != c && x != src ensures x in t1.columns <==> x in t.columns {
        assert x in ColumnSet(t1.columns) <==> x in ColumnSet(base) - {src};
        assert x in ColumnSet(base) <==> x in base;
      }
    }
  }

  lemma {:induction false} CreatedSame(a: seq<string>, b: seq<string>, cols: seq<string>, suffix: string)
    requires forall x :: x in cols ==> (x in a <==> x in b) && (x + suffix in a <==> x + suffix in b)
    ensures Created(a, cols, suffix) == Created(b, cols, suffix)
    decreases |cols|
  {
    if |cols| > 0 {
      assert cols[0] in cols;
      CreatedSame(a, b, cols[1..], suffix);
    }
  }

  /** A loop that may not create columns, and does not fail, creates none. */
  lemma {:induction false} CreatedNone(columns: seq<string>, cols: seq<string>, suffix: string)
    requires FillSucceeds(columns, cols, suffix, false)
    ensures Created(columns, cols, suffix) == []
    decreases |cols|
  {
    if |cols| > 0 {
      assert cols[0] in cols;
      forall c | c in cols[1..] ensures c in cols { }
      CreatedNone(columns, cols[1..], suffix);
    }
  }

  lemma {:induction false} CreatedFromCols(columns: seq<string>, cols: seq<string>, suffix: string)
    ensures forall i :: 0 <= i < |Created(columns, cols, suffix)| ==> Created(columns, cols, suffix)[i] in cols
    decreases |cols|
  {
    if |cols| > 0 {
      CreatedFromCols(columns, cols[1..], suffix);
    }
  }

  lemma SourcesCons(cols: seq<string>, suffix: string)
    requires |cols| > 0
    ensures Sources(cols, suffix) == {cols[0] + suffix} + Sources(cols[1..], suffix)
  {
    assert cols == [cols[0]] + cols[1..];
  }

  /** The labels after the loop: the created columns are appended, and every copy is gone. */
  lemma {:induction false} FillAllColumns(t: Table, cols: seq<string>, suffix: string, createMissing: bool)
    requires WellFormed(t) && Separated(cols, suffix)
    requires FillAll(t, cols, suffix, createMissing).Ok?
    ensures FillAll(t, cols, suffix, createMissing).value.columns == FilledColumns(t.columns, cols, suffix)
    decreases |cols|
  {
    if |cols| == 0 {
      WithoutNone(t.columns, {});
      assert t.columns + [] == t.columns;
      assert Sources(cols, suffix) == {};
    } else {
      var c := cols[0];
      var t1 := FillStep(t, c, suffix, createMissing).value;
      SeparatedTail(cols, suffix);
      FillAllUnfold(t, cols, suffix, createMissing, t1);
      FillAllColumns(t1, cols[1..], suffix, createMissing);
      StepColumns(t, cols, suffix, createMissing, t1);
    }
  }

  lemma StepColumns(t: Table, cols: seq<string>, suffix: string, createMissing: bool, t1: Table)
    requires WellFormed(t) && Separated(cols, suffix) && |cols| > 0
    requires FillStep(t, cols[0], suffix, createMissing) == Ok(t1)
    ensures FilledColumns(t1.columns, cols[1..], suffix) == FilledColumns(t.columns, cols, suffix)
  {
    var c := cols[0];
    var src := c + suffix;
    var rest := cols[1..];
    FillStepColumns(t, c, suffix, createMissing, t1);
    SourcesCons(cols, suffix);
    StepCreated(t, cols, suffix, createMissing, t1);
    var cr := Created(t.columns, rest, suffix);
    var base := if src in t.columns then t.columns + (if c in t.columns then [] else [c]) else t.columns;
    StepBase(t.columns, c, src, cr);
    assert t1.columns == Without(base, {src});
    DropThenDrop(base, cr, src, Sources(rest, suffix));
  }

  /** The labels the rest of the loop creates are the same before and after the step, and none is the step's copy. */
  lemma StepCreated(t: Table, cols: seq<string>, suffix: string, createMissing: bool, t1: Table)
    requires WellFormed(t) && Separated(cols, suffix) && |cols| > 0
    requires FillStep(t, cols[0], suffix, createMissing) == Ok(t1)
    ensures var c, cr := cols[0], Created(t.columns, cols[1..], suffix);
            Created(t1.columns, cols[1..], suffix) == cr && Without(cr, {c + suffix}) == cr &&
            Created(t.columns, cols, suffix) == (if c !in t.columns && c + suffix in t.columns then [c] else []) + cr
  {
    var c := cols[0];
    var src := c + suffix;
    var rest := cols[1..];
    SeparatedTail(cols, suffix);
    MembershipAfterStep(t, c, suffix, createMissing, t1);
    CreatedSame(t1.columns, t.columns, rest, suffix);
    var cr := Created(t.columns, rest, suffix);
    CreatedFromCols(t.columns, rest, suffix);
    assert forall i :: 0 <= i < |cr| ==> cr[i] !in {src};
    WithoutNone(cr, {src});
  }

  /** The base labels of the step followed by the rest's created labels are the labels followed by all created labels. */
  lemma StepBase(columns: seq<string>, c: string, src: string, cr: seq<string>)
    ensures var a := if c !in columns && src in columns then [c] else [];
            var base := if src in columns then columns + (if c in columns then [] else [c]) else columns;
            base + cr == columns + (a + cr) &&
            (src !in columns ==> Without(base, {src}) == base)
  {
    var a := if c !in columns && src in columns then [c] else [];
    if src in columns && c !in columns {
      ConcatAssoc(columns, [c], cr);
    } else {
      assert [] + cr == cr;
      if src in columns {
        assert columns + [] == columns;
      }
    }
    if src !in columns {
      assert forall i :: 0 <= i < |columns| ==> columns[i] !in {src};
      WithoutNone(columns, {src});
    }
  }

  lemma ConcatAssoc(a: seq<string>, b: seq<string>, c: seq<string>)
    ensures (a + b) + c == a + (b + c)
  {
  }

  lemma DropThenDrop(base: seq<string>, cr: seq<string>, src: string, S: set<string>)
    requires Without(cr, {src}) == cr
    ensures Without(Without(base, {src}) + cr, S) == Without(base + cr, {src} + S)
  {
    WithoutConcat(base, cr, {src});
    WithoutTwice(base + cr, {src}, S);
  }

  /** After the loop every cell outside the copies is the filled cell of the original row. */
  lemma {:induction false} FillAllCells(t: Table, cols: seq<string>, suffix: string, createMissing: bool)
    requires WellFormed(t) && Separated(cols, suffix)
    requires FillAll(t, cols, suffix, createMissing).Ok?
    ensures var r := FillAll(t, cols, suffix, createMissing).value;
            forall k, x :: 0 <= k < |t.rows| && x !in Sources(cols, suffix) ==>
              Get(r.rows[k], x) == FilledCell(t.rows[k], x, cols, suffix)
    decreases |cols|
  {
    if |cols| > 0 {
      var c := cols[0];
      var rest := cols[1..];
      var t1 := FillStep(t, c, suffix, createMissing).value;
      SeparatedTail(cols, suffix);
      FillAllUnfold(t, cols, suffix, createMissing, t1);
      FillAllCells(t1, rest, suffix, createMissing);
      FillStepSpec(t, c, suffix, createMissing, t1);
      MembershipAfterStep(t, c, suffix, createMissing, t1);
      SourcesCons(cols, suffix);
      var r := FillAll(t1, rest, suffix, createMissing).value;
      assert cols == [c] + rest;
      forall k, x | 0 <= k < |t.rows| && x !in Sources(cols, suffix)
        ensures Get(r.rows[k], x) == FilledCell(t.rows[k], x, cols, suffix)
      {
        StepCell(t, t1, c, suffix, rest, k, x);
      }
    }
  }

  lemma StepCell(t: Table, t1: Table, c: string, suffix: string, rest: seq<string>, k: nat, x: string)
    requires WellFormed(t) && WellFormed(t1) && Separated([c] + rest, suffix) && k < |t.rows| == |t1.rows|
    requires x != c + suffix
    requires forall k, x :: 0 <= k < |t.rows| && x != c && x != c + suffix ==> Get(t1.rows[k], x) == Get(t.rows[k], x)
    requires forall k :: 0 <= k < |t.rows| ==>
               Get(t1.rows[k], c) == if c + suffix in t.columns then FillValue(t.rows[k], c, c + suffix) else Get(t.rows[k], c)
    requires forall x :: x != c && x != c + suffix ==> (x in t1.columns <==> x in t.columns)
    ensures FilledCell(t1.rows[k], x, rest, suffix) == FilledCell(t.rows[k], x, [c] + rest, suffix)
  {
    var cols := [c] + rest;
    assert cols[0] == c && cols[1..] == rest;
    SeparatedTail(cols, suffix);
    assert t.rows[k].Keys == ColumnSet(t.columns) && t1.rows[k].Keys == ColumnSet(t1.columns);
    if x == c {
      assert x !in rest;
      if c + suffix in t.columns { assert c + suffix in t.rows[k]; } else { assert c + suffix !in t.rows[k]; }
    } else if x in rest {
      assert x + suffix in t1.rows[k] <==> x + suffix in t.rows[k] by {
        assert x + suffix in t1.columns <==> x + suffix in t.columns;
      }
    }
  }

  // ---------------------------------------------------------------------
  // Preparing a reference table: key coercion and de-duplication
  // ---------------------------------------------------------------------

  /** `astype(str)`, followed by `.str.strip()` when `strip` holds. */
  function KeyText(c: Cell, strip: bool): string {
    if strip then Strip(AsStr(c)) else AsStr(c)
  }

  /** The rows with their key cell replaced by its text. */
  function CoercedRows(rows: seq<Row>, key: string, strip: bool): (out: seq<Row>)
    ensures |out| == |rows|
    ensures forall k :: 0 <= k < |rows| ==> out[k] == rows[k][key := Some(KeyText(Get(rows[k], key), strip))]
  {
    seq(|rows|, k requires 0 <= k < |rows| => rows[k][key := Some(KeyText(Get(rows[k], key), strip))])
  }

  /** `t[key] = t[key].astype(str)` (and `.str.strip()`). */
  function CoerceKey(t: Table, key: string, strip: bool): (r: Table)
    requires WellFormed(t) && key in t.columns
    ensures WellFormed(r) && r.columns == t.columns && r.rows == CoercedRows(t.rows, key, strip)
  {
    SetColumn(t, key, seq(|t.rows|, k requires 0 <= k < |t.rows| => Some(KeyText(Get(t.rows[k], key), strip))))
  }

  /**
   * The order Skechers, Fabletics and Psycho Bunny use: de-duplicate on the
   * key, then coerce the key. Keys that differ before coercion but agree after
   * it (a null and the text "nan"; "ABC" and "ABC ") both survive.
   */
  function DedupThenCoerce(t: Table, key: string, strip: bool): (r: Table)
    requires WellFormed(t) && key in t.columns
    ensures WellFormed(r) && r.columns == t.columns && |r.rows| <= |t.rows|
  {
    CoerceKey(DropDuplicates(t, key).value, key, strip)
  }

  /** The corrected order, the one New Era uses: coerce the key, then de-duplicate. */
  function CoerceThenDedup(t: Table, key: string, strip: bool): (r: Table)
    requires WellFormed(t) && key in t.columns
    ensures WellFormed(r) && r.columns == t.columns && |r.rows| <= |t.rows|
    ensures DistinctKeys(r.rows, key)
    ensures forall k, c :: Lookup(r.rows, key, k, c) == Lookup(CoercedRows(t.rows, key, strip), key, k, c)
  {
    var r := DropDuplicates(CoerceKey(t, key, strip), key).value;
    r
  }

  /**
   * De-duplicating before coercing lets one left row match two reference
   * rows: two keys that `drop_duplicates` tells apart but that read the same
   * once coerced both survive, and a left row holding that text is joined to
   * both of them.
   */
  lemma DedupThenCoerceCollision(reference: Table, key: string, strip: bool, left: Table, suffix: string)
    requires WellFormed(reference) && key in reference.columns && |reference.rows| == 2
    requires Get(reference.rows[0], key) != Get(reference.rows[1], key)
    requires KeyText(Get(reference.rows[0], key), strip) == KeyText(Get(reference.rows[1], key), strip)
    requires WellFormed(left) && key in left.columns && |left.rows| == 1
    requires Get(left.rows[0], key) == Some(KeyText(Get(reference.rows[0], key), strip))
    requires LeftMerge(left, DedupThenCoerce(reference, key, strip), key, suffix).Ok?
    ensures |LeftMerge(left, DedupThenCoerce(reference, key, strip), key, suffix).value.rows| == 2
  {
    var rows := reference.rows;
    var k0, k1 := Get(rows[0], key), Get(rows[1], key);
    assert rows[1..][0] == rows[1] && rows[1..][1..] == [];
    assert DedupRows(rows[1..], key, {k0}) == [rows[1]] + DedupRows([], key, {k0, k1});
    assert DedupRows(rows, key, {}) == rows;
    var c := DedupThenCoerce(reference, key, strip);
    assert c.rows == CoercedRows(rows, key, strip);
    var kt := Some(KeyText(k0, strip));
    assert Get(c.rows[0], key) == kt && Get(c.rows[1], key) == kt;
    assert c.rows[1..][0] == c.rows[1] && c.rows[1..][1..] == [];
    assert |MatchRows(c.rows, key, kt)| == 2;
    assert left.rows[1..] == [];
    assert |JoinRows(left.rows, left.columns, c, key, suffix)| == |JoinRow(left.rows[0], left.columns, c, key, suffix)|;
  }

  /** A null key and the text "nan": what Skechers and Fabletics de-duplicate on. */
  lemma DedupThenCoerceDuplicatesNan()
    ensures var reference := Table(["U_Estilo", "U_Genero"],
                                   [map["U_Estilo" := None, "U_Genero" := Some("M")],
                                    map["U_Estilo" := Some("nan"), "U_Genero" := Some("W")]]);
            var left := Table(["U_Estilo"], [map["U_Estilo" := Some("nan")]]);
            |LeftMerge(left, DedupThenCoerce(reference, "U_Estilo", false), "U_Estilo", "_ref").value.rows| == 2
  {
    var reference := Table(["U_Estilo", "U_Genero"],
                           [map["U_Estilo" := None, "U_Genero" := Some("M")],
                            map["U_Estilo" := Some("nan"), "U_Genero" := Some("W")]]);
    var left := Table(["U_Estilo"], [map["U_Estilo" := Some("nan")]]);
    ExampleTablesWellFormed(reference, left);
    ExampleMergeOk(left, DedupThenCoerce(reference, "U_Estilo", false), "_ref");
    DedupThenCoerceCollision(reference, "U_Estilo", false, left, "_ref");
  }

  /** "ABC" and "ABC ": what Psycho Bunny de-duplicates on before stripping. */
  lemma DedupThenCoerceDuplicatesStrip()
    ensures var reference := Table(["U_Estilo", "U_Genero"],
                                   [map["U_Estilo" := Some("ABC"), "U_Genero" := Some("M")],
                                    map["U_Estilo" := Some("ABC "), "U_Genero" := Some("W")]]);
            var left := Table(["U_Estilo"], [map["U_Estilo" := Some("ABC")]]);
            |LeftMerge(left, DedupThenCoerce(reference, "U_Estilo", true), "U_Estilo", "_mongo").value.rows| == 2
  {
    var reference := Table(["U_Estilo", "U_Genero"],
                           [map["U_Estilo" := Some("ABC"), "U_Genero" := Some("M")],
                            map["U_Estilo" := Some("ABC "), "U_Genero" := Some("W")]]);
    var left := Table(["U_Estilo"], [map["U_Estilo" := Some("ABC")]]);
    ExampleTablesWellFormed(reference, left);
    StripExampleKeys(reference, left);
    ExampleMergeOk(left, DedupThenCoerce(reference, "U_Estilo", true), "_mongo");
    DedupThenCoerceCollision(reference, "U_Estilo", true, left, "_mongo");
  }

  lemma ExampleTablesWellFormed(reference: Table, left: Table)
    requires reference.columns == ["U_Estilo", "U_Genero"] && |reference.rows| == 2
    requires forall k :: 0 <= k < 2 ==> reference.rows[k].Keys == {"U_Estilo", "U_Genero"}
    requires left.columns == ["U_Estilo"] && |left.rows| == 1 && left.rows[0].Keys == {"U_Estilo"}
    ensures WellFormed(reference) && WellFormed(left)
  {
    assert ColumnSet(reference.columns) == {"U_Estilo", "U_Genero"};
    assert ColumnSet(left.columns) == {"U_Estilo"};
  }

  lemma ExampleMergeOk(left: Table, right: Table, suffix: string)
    requires WellFormed(left) && WellFormed(right)
    requires left.columns == ["U_Estilo"] && right.columns == ["U_Estilo", "U_Genero"]
    ensures LeftMerge(left, right, "U_Estilo", suffix).Ok?
  {
    var rc := right.columns;
    assert rc[1..] == ["U_Genero"] && rc[1..][1..] == [];
    assert Without(rc[1..], {"U_Estilo"}) == ["U_Genero"] + Without([], {"U_Estilo"});
    assert RightColumns(right, "U_Estilo") == ["U_Genero"];
    assert MergedColumns(left, right, "U_Estilo", suffix) == ["U_Estilo", "U_Genero"];
  }

  lemma StripExampleKeys(reference: Table, left: Table)
    requires |reference.rows| == 2 && |left.rows| == 1
    requires reference.rows[0] == map["U_Estilo" := Some("ABC"), "U_Genero" := Some("M")]
    requires reference.rows[1] == map["U_Estilo" := Some("ABC "), "U_Genero" := Some("W")]
    requires left.rows[0] == map["U_Estilo" := Some("ABC")]
    ensures Get(reference.rows[0], "U_Estilo") != Get(reference.rows[1], "U_Estilo")
    ensures KeyText(Get(reference.rows[0], "U_Estilo"), true) == KeyText(Get(reference.rows[1], "U_Estilo"), true)
    ensures Get(left.rows[0], "U_Estilo") == Some(KeyText(Get(reference.rows[0], "U_Estilo"), true))
  {
    assert Get(reference.rows[0], "U_Estilo") == Some("ABC") && Get(reference.rows[1], "U_Estilo") == Some("ABC ");
    assert |"ABC"| != |"ABC "|;
    StripKnown();
  }

  lemma StripKnown()
    ensures Strip("ABC") == "ABC" && Strip("ABC ") == "ABC"
  {
    StripSpec("ABC");
    StripSpec("ABC ");
  }

  /**
   * Coercing first, the reference keys are distinct text, so a left merge
   * against the prepared reference keeps exactly one row per left row, and
   * each brought-in cell is the one the first reference row with that text
   * holds.
   */
  lemma CoerceThenDedupOneToOne(left: Table, reference: Table, key: string, suffix: string, strip: bool, out: Table)
    requires WellFormed(left) && WellFormed(reference) && key in left.columns && key in reference.columns
    requires LeftMerge(left, CoerceThenDedup(reference, key, strip), key, suffix) == Ok(out)
    ensures |out.rows| == |left.rows|
    ensures forall k, c :: 0 <= k < |left.rows| && c in reference.columns && c != key ==>
              Get(out.rows[k], Renamed(left.columns, c, suffix)) ==
              Lookup(CoercedRows(reference.rows, key, strip), key, Get(left.rows[k], key), c)
  {
    MergeCells(left, CoerceThenDedup(reference, key, strip), key, suffix, out);
  }

  /** The reference as a routine prepares it: the columns `cs`, the key made text, then de-duplicated on the key. */
  function Prepare(reference: Table, cs: seq<string>, key: string, strip: bool): (r: Table)
    requires WellFormed(reference) && Distinct(cs) && key in cs
    ensures WellFormed(r) && r.columns == cs && DistinctKeys(r.rows, key)
    ensures forall k, c :: c in cs ==> Lookup(r.rows, key, k, c) == Lookup(CoercedRows(reference.rows, key, strip), key, k, c)
  {
    PrepareLookup(reference, cs, key, strip);
    CoerceThenDedup(Reindex(reference, cs), key, strip)
  }

  lemma PrepareLookup(reference: Table, cs: seq<string>, key: string, strip: bool)
    requires WellFormed(reference) && Distinct(cs) && key in cs
    ensures forall k, c :: c in cs ==>
              Lookup(CoerceThenDedup(Reindex(reference, cs), key, strip).rows, key, k, c) ==
              Lookup(CoercedRows(reference.rows, key, strip), key, k, c)
  {
    var sel := Reindex(reference, cs);
    var a := CoercedRows(sel.rows, key, strip);
    var b := CoercedRows(reference.rows, key, strip);
    forall k, c | c in cs ensures Lookup(a, key, k, c) == Lookup(b, key, k, c) {
      forall i | 0 <= i < |a| ensures Get(a[i], key) == Get(b[i], key) && Get(a[i], c) == Get(b[i], c) {
        assert Get(sel.rows[i], key) == Get(reference.rows[i], key) && Get(sel.rows[i], c) == Get(reference.rows[i], c);
      }
      LookupAgree(a, b, key, k, c);
    }
  }

  // ---------------------------------------------------------------------
  // A merge followed by the fill loop
  // ---------------------------------------------------------------------

  /**
   * The conditions under which merge-then-fill completes each right-hand
   * column: the loop covers every right-hand column, no two of its columns
   * are a column and its copy, and the left has no label shaped like a copy.
   */
  predicate Fresh(left: seq<string>, rc: seq<string>, cols: seq<string>, suffix: string) {
    Separated(cols, suffix) &&
    (forall c :: c in rc ==> c in cols) &&
    (forall c :: c in cols ==> c + suffix !in left)
  }

  /** The cell merge-then-fill leaves: a right-hand column's null (or absent) cell takes the first matching right row's value. */
  function CompletedCell(row: Row, right: Table, key: string, x: string): Cell {
    if x in RightColumns(right, key) && Get(row, x).None? then Lookup(right.rows, key, Get(row, key), x) else Get(row, x)
  }

  /** The left table completed from `right`: its own labels, then the right-hand ones it lacked; one row per left row. */
  ghost predicate Completed(left: Table, right: Table, key: string, out: Table) {
    WellFormed(out) &&
    out.columns == left.columns + Without(RightColumns(right, key), ColumnSet(left.columns)) &&
    |out.rows| == |left.rows| &&
    forall k, x :: 0 <= k < |left.rows| ==> Get(out.rows[k], x) == CompletedCell(left.rows[k], right, key, x)
  }

  /**
   * `pd.merge(left, right, on=key, how='left', suffixes=('', suffix))` and then
   * the fill loop over `cols`, against a right table with distinct keys.
   */
  method MergeFill(left: Table, right: Table, key: string, suffix: string, cols: seq<string>, createMissing: bool)
    returns (r: Result<Table, CleanError>)
    requires WellFormed(left) && WellFormed(right)
    requires key in left.columns && key in right.columns && DistinctKeys(right.rows, key)
    ensures r.Ok? ==> WellFormed(r.value) && |r.value.rows| == |left.rows|
    ensures r.Ok? && Separated(cols, suffix) ==>
              r.value.columns == FilledColumns(MergedColumns(left, right, key, suffix), cols, suffix)
    ensures Fresh(left.columns, RightColumns(right, key), cols, suffix) ==> r.Ok? && Completed(left, right, key, r.value)
  {
    var rc := RightColumns(right, key);
    var isFresh := Fresh(left.columns, rc, cols, suffix);
    if isFresh {
      FreshNames(left.columns, rc, cols, suffix);
    }
    var merged := LeftMerge(left, right, key, suffix);
    if merged.Err? {
      return Err(merged.error);
    }
    var m := merged.value;
    MergeCells(left, right, key, suffix, m);
    if isFresh {
      FreshNames(left.columns, rc, cols, suffix);
      FillAllOk(m, cols, suffix, createMissing);
    }
    r := FillFromSuffix(m, cols, suffix, createMissing);
    if r.Ok? && Separated(cols, suffix) {
      FillAllColumns(m, cols, suffix, createMissing);
    }
    if isFresh {
      CompletedFrom(left, right, key, suffix, cols, createMissing, m, r.value);
    }
  }

  /** Under `Fresh`, the merged labels are distinct, and a copy is present exactly when both sides had the column. */
  lemma FreshNames(left: seq<string>, rc: seq<string>, cols: seq<string>, suffix: string)
    requires Distinct(left) && Distinct(rc) && Fresh(left, rc, cols, suffix)
    ensures Distinct(left + RenamedAll(left, rc, suffix))
    ensures forall c :: c in cols ==> (c + suffix in left + RenamedAll(left, rc, suffix) <==> c in left && c in rc)
    ensures forall x :: x !in Sources(cols, suffix) ==> (x in RenamedAll(left, rc, suffix) <==> x !in left && x in rc)
    ensures FillSucceeds(left + RenamedAll(left, rc, suffix), cols, suffix, false)
  {
    var names := RenamedAll(left, rc, suffix);
    forall i | 0 <= i < |names| ensures names[i] !in left {
      assert rc[i] in rc;
    }
    forall i, j | 0 <= i < j < |names| ensures names[i] != names[j] {
      assert rc[i] in rc && rc[j] in rc;
      if rc[i] in left && rc[j] in left && names[i] == names[j] {
        AppendInjective(rc[i], rc[j], suffix);
      }
    }
    forall x | x in ColumnSet(names) ensures x !in ColumnSet(left) {
      var i :| 0 <= i < |names| && names[i] == x;
    }
    DistinctAppend(left, names);
    forall c | c in cols ensures c + suffix in left + names <==> c in left && c in rc {
      if c + suffix in names {
        var i :| 0 <= i < |names| && names[i] == c + suffix;
        assert rc[i] in rc;
        if rc[i] in left {
          AppendInjective(rc[i], c, suffix);
        }
      }
      if c in left && c in rc {
        var i :| 0 <= i < |rc| && rc[i] == c;
        assert names[i] == c + suffix;
      }
    }
    forall x | x !in Sources(cols, suffix) ensures x in names <==> x !in left && x in rc {
      if x in names {
        var i :| 0 <= i < |names| && names[i] == x;
        assert rc[i] in rc;
      }
      if x !in left && x in rc {
        var i :| 0 <= i < |rc| && rc[i] == x;
        assert names[i] == x;
      }
    }
  }

  /** The result of merge-then-fill against the steps that built it. */
  lemma CompletedFrom(left: Table, right: Table, key: string, suffix: string, cols: seq<string>, createMissing: bool,
                      m: Table, out: Table)
    requires WellFormed(left) && WellFormed(right)
    requires key in left.columns && key in right.columns && DistinctKeys(right.rows, key)
    requires Fresh(left.columns, RightColumns(right, key), cols, suffix)
    requires LeftMerge(left, right, key, suffix) == Ok(m)
    requires FillAll(m, cols, suffix, createMissing) == Ok(out)
    ensures Completed(left, right, key, out)
  {
    var rc := RightColumns(right, key);
    FreshNames(left.columns, rc, cols, suffix);
    MergeCells(left, right, key, suffix, m);
    FillAllColumns(m, cols, suffix, createMissing);
    FillAllCells(m, cols, suffix, createMissing);
    CompletedColumns(left.columns, rc, cols, suffix);
    forall c ensures c in rc <==> c in right.columns && c != key {
      WithoutMember(right.columns, {key}, c);
    }
    forall k | 0 <= k < |left.rows|
      ensures forall x :: Get(out.rows[k], x) == CompletedCell(left.rows[k], right, key, x)
    {
      CompletedRow(left.rows[k], m.rows[k], out.rows[k], left.columns, rc, cols, suffix, right, key, out.columns);
    }
  }

  /** The labels after merge-then-fill under `Fresh`. */
  lemma CompletedColumns(left: seq<string>, rc: seq<string>, cols: seq<string>, suffix: string)
    requires Distinct(left) && Distinct(rc) && Fresh(left, rc, cols, suffix)
    ensures FilledColumns(left + RenamedAll(left, rc, suffix), cols, suffix) == left + Without(rc, ColumnSet(left))
  {
    var names := RenamedAll(left, rc, suffix);
    var src := Sources(cols, suffix);
    FreshNames(left, rc, cols, suffix);
    CreatedNone(left + names, cols, suffix);
    assert left + names + [] == left + names;
    WithoutConcat(left, names, src);
    forall i | 0 <= i < |left| ensures left[i] !in src {
      assert left[i] in left;
    }
    WithoutNone(left, src);
    forall i | 0 <= i < |rc| ensures rc[i] + suffix in src && rc[i] !in src {
      assert rc[i] in rc;
    }
    WithoutRenamed(left, rc, suffix, src);
  }

  /** One row of merge-then-fill, from what the merge and the loop each do to its cells. */
  lemma CompletedRow(lrow: Row, mrow: Row, orow: Row, left: seq<string>, rc: seq<string>, cols: seq<string>,
                     suffix: string, right: Table, key: string, ocols: seq<string>)
    requires lrow.Keys == ColumnSet(left) && Fresh(left, rc, cols, suffix)
    requires forall c :: c in rc <==> c in right.columns && c != key
    requires rc == RightColumns(right, key)
    requires forall c :: c in cols ==> (c + suffix in left + RenamedAll(left, rc, suffix) <==> c in left && c in rc)
    requires forall x :: x !in Sources(cols, suffix) ==> (x in RenamedAll(left, rc, suffix) <==> x !in left && x in rc)
    requires mrow.Keys == ColumnSet(left + RenamedAll(left, rc, suffix))
    requires forall x :: x in left ==> Get(mrow, x) == Get(lrow, x)
    requires forall c :: c in right.columns && c != key ==>
               Get(mrow, Renamed(left, c, suffix)) == Lookup(right.rows, key, Get(lrow, key), c)
    requires forall x :: x !in Sources(cols, suffix) ==> Get(orow, x) == FilledCell(mrow, x, cols, suffix)
    requires orow.Keys == ColumnSet(ocols) && ocols == left + Without(rc, ColumnSet(left))
    ensures forall x :: Get(orow, x) == CompletedCell(lrow, right, key, x)
  {
    var names := RenamedAll(left, rc, suffix);
    forall x ensures Get(orow, x) == CompletedCell(lrow, right, key, x) {
      assert x in lrow <==> x in left;
      if x in Sources(cols, suffix) {
        var c :| c in cols && x == c + suffix;
        assert x !in left;
        assert x !in rc;
        WithoutMember(rc, ColumnSet(left), x);
        assert x !in ocols;
      } else {
        assert x in mrow <==> x in left || x in names;
        if x in left && x in rc {
          assert Renamed(left, x, suffix) == x + suffix;
          assert x + suffix in mrow;
        } else if x !in left && x in rc {
          assert Renamed(left, x, suffix) == x;
        }
      }
    }
  }
}
