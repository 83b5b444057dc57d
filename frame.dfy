/**
 * The part of a pandas DataFrame the cleaner relies on: a table of labelled
 * columns whose cells are strings or null (NaN), and the operations the
 * cleaner applies to it (column assignment, drop, reindex, selection, boolean
 * row filtering, concatenation, `drop_duplicates`, left `merge`, `fillna`).
 */
module Frame {
  import opened Wrappers
  import opened Text

  /** A cell: a string, or null (pandas NaN). */
  type Cell = Option<string>

  /** A row maps each column label of its table to a cell. */
  type Row = map<string, Cell>

  datatype Table = Table(columns: seq<string>, rows: seq<Row>)

  /** The exceptions the cleaner can raise. */
  datatype CleanError =
    | UnsupportedBrand(code: string)      // "Marca no soportada"
    | MissingColumns(names: seq<string>)  // "Columnas faltantes"
    | KeyError(labels: seq<string>)       // a label that pandas cannot find
    | MergeError(labels: seq<string>)     // a merge whose result would repeat a label
    | NonBooleanCondition                 // np.select given a condition holding NaN
    | UnboundLocal(name: string)          // a local read before any assignment

  predicate Distinct(cs: seq<string>) {
    forall i, j | 0 <= i < j < |cs| :: cs[i] != cs[j]
  }

  function ColumnSet(cs: seq<string>): set<string> {
    set c | c in cs
  }

  /** Labels are unique and every row has a cell for exactly the table's labels. */
  predicate WellFormed(t: Table) {
    Distinct(t.columns) && forall k | 0 <= k < |t.rows| :: t.rows[k].Keys == ColumnSet(t.columns)
  }

  /** The cell of `r` in column `c`; null when the row has no such column. */
  function Get(r: Row, c: string): Cell {
    if c in r then r[c] else None
  }

  /** `astype(str)`: a null cell becomes the text "nan". */
  function AsStr(c: Cell): string {
    match c
    case None => "nan"
    case Some(s) => s
  }

  /** `DataFrame.empty`: no rows or no columns. */
  predicate IsEmpty(t: Table) {
    |t.rows| == 0 || |t.columns| == 0
  }

  /** `pd.DataFrame()`. */
  const EmptyTable: Table := Table([], [])

  lemma ColumnSetAppend(cs: seq<string>, c: string)
    ensures ColumnSet(cs + [c]) == ColumnSet(cs) + {c}
  {
  }

  lemma ColumnSetCons(c: string, cs: seq<string>)
    ensures ColumnSet([c] + cs) == {c} + ColumnSet(cs)
  {
  }

  lemma ColumnSetConcat(a: seq<string>, b: seq<string>)
    ensures ColumnSet(a + b) == ColumnSet(a) + ColumnSet(b)
  {
  }

  lemma ColumnSetEmpty(cs: seq<string>)
    ensures ColumnSet(cs) == {} <==> cs == []
  {
    if cs != [] { assert cs[0] in ColumnSet(cs); }
  }

  lemma DistinctCons(c: string, cs: seq<string>)
    ensures Distinct([c] + cs) <==> c !in cs && Distinct(cs)
  {
    var s := [c] + cs;
    if c !in cs && Distinct(cs) {
      forall i, j | 0 <= i < j < |s| ensures s[i] != s[j] {
        if i == 0 { assert s[j] == cs[j - 1]; } else { assert s[i] == cs[i - 1] && s[j] == cs[j - 1]; }
      }
    }
    if Distinct(s) {
      forall i, j | 0 <= i < j < |cs| ensures cs[i] != cs[j] { assert cs[i] == s[i + 1] && cs[j] == s[j + 1]; }
      forall j | 0 <= j < |cs| ensures cs[j] != c { assert s[0] == c && cs[j] == s[j + 1]; }
    }
  }

  /** The second half of a list of distinct labels is distinct, and shares no label with the first. */
  lemma DistinctConcat(a: seq<string>, b: seq<string>)
    requires Distinct(a + b)
    ensures Distinct(a) && Distinct(b) && ColumnSet(a) * ColumnSet(b) == {}
  {
    var s := a + b;
    forall i, j | 0 <= i < j < |b| ensures b[i] != b[j] { assert b[i] == s[|a| + i] && b[j] == s[|a| + j]; }
    forall i, j | 0 <= i < j < |a| ensures a[i] != a[j] { assert a[i] == s[i] && a[j] == s[j]; }
    forall x | x in ColumnSet(a) ensures x !in ColumnSet(b) {
      var i :| 0 <= i < |a| && a[i] == x;
      forall j | 0 <= j < |b| ensures b[j] != x { assert s[i] == x && s[|a| + j] == b[j]; }
    }
  }

  // ---------------------------------------------------------------------
  // Columns
  // ---------------------------------------------------------------------

  /** The labels of `cs` that are not in `drop`, in order. */
  function Without(cs: seq<string>, drop: set<string>): (r: seq<string>)
    ensures ColumnSet(r) == ColumnSet(cs) - drop
    ensures Distinct(cs) ==> Distinct(r)
    ensures |r| <= |cs|
  {
    if |cs| == 0 then []
    else
      var rest := Without(cs[1..], drop);
      assert cs == [cs[0]] + cs[1..];
      ColumnSetCons(cs[0], cs[1..]);
      ColumnSetCons(cs[0], rest);
      DistinctCons(cs[0], cs[1..]);
      DistinctCons(cs[0], rest);
      if cs[0] in drop then rest else [cs[0]] + rest
  }

  /** The labels of `cs` that are in `keep`, in order. */
  function Only(cs: seq<string>, keep: set<string>): (r: seq<string>)
    ensures ColumnSet(r) == ColumnSet(cs) * keep
    ensures Distinct(cs) ==> Distinct(r)
  {
    if |cs| == 0 then []
    else
      var rest := Only(cs[1..], keep);
      assert cs == [cs[0]] + cs[1..];
      ColumnSetCons(cs[0], cs[1..]);
      ColumnSetCons(cs[0], rest);
      DistinctCons(cs[0], cs[1..]);
      DistinctCons(cs[0], rest);
      if cs[0] in keep then [cs[0]] + rest else rest
  }

  /** The labels of `cs` missing from `present`, in order: the list pandas reports. */
  function Missing(cs: seq<string>, present: seq<string>): (r: seq<string>)
    ensures r == [] <==> forall c :: c in cs ==> c in present
  {
    var r := Without(cs, ColumnSet(present));
    ColumnSetEmpty(r);
    assert ColumnSet(r) == {} <==> forall c :: c in cs ==> c in present by {
      if ColumnSet(r) == {} {
        forall c | c in cs ensures c in present {
          assert c in ColumnSet(cs) && c !in ColumnSet(r);
        }
      }
    }
    r
  }

  /** Dropping labels distributes over concatenation. */
  lemma {:induction false} WithoutConcat(a: seq<string>, b: seq<string>, drop: set<string>)
    ensures Without(a + b, drop) == Without(a, drop) + Without(b, drop)
    decreases |a|
  {
    if |a| > 0 {
      assert (a + b)[1..] == a[1..] + b;
      WithoutConcat(a[1..], b, drop);
    } else {
      assert a + b == b;
    }
  }

  /** Dropping in two rounds is dropping the union once. */
  lemma {:induction false} WithoutTwice(cs: seq<string>, a: set<string>, b: set<string>)
    ensures Without(Without(cs, a), b) == Without(cs, a + b)
    decreases |cs|
  {
    if |cs| > 0 {
      WithoutTwice(cs[1..], a, b);
      var rest := Without(cs[1..], a);
      if cs[0] !in a {
        assert ([cs[0]] + rest)[1..] == rest;
      }
    }
  }

  /** Dropping labels that do not occur changes nothing. */
  lemma {:induction false} WithoutNone(cs: seq<string>, drop: set<string>)
    requires forall i :: 0 <= i < |cs| ==> cs[i] !in drop
    ensures Without(cs, drop) == cs
    decreases |cs|
  {
    if |cs| > 0 {
      WithoutNone(cs[1..], drop);
      assert [cs[0]] + cs[1..] == cs;
    }
  }

  lemma OnlyMember(cs: seq<string>, keep: set<string>, x: string)
    ensures x in Only(cs, keep) <==> x in cs && x in keep
  {
    assert x in ColumnSet(Only(cs, keep)) <==> x in Only(cs, keep);
    assert x in ColumnSet(cs) <==> x in cs;
  }

  lemma WithoutMember(cs: seq<string>, drop: set<string>, x: string)
    ensures x in Without(cs, drop) <==> x in cs && x !in drop
  {
    assert x in ColumnSet(Without(cs, drop)) <==> x in Without(cs, drop);
    assert x in ColumnSet(cs) <==> x in cs;
  }

  /** Two disjoint lists of distinct labels concatenate to distinct labels. */
  lemma DistinctAppend(a: seq<string>, b: seq<string>)
    requires Distinct(a) && Distinct(b) && ColumnSet(a) * ColumnSet(b) == {}
    ensures Distinct(a + b)
  {
    var s := a + b;
    forall i, j | 0 <= i < j < |s| ensures s[i] != s[j] {
      if j < |a| {
        assert s[i] == a[i] && s[j] == a[j];
      } else if i >= |a| {
        assert s[i] == b[i - |a|] && s[j] == b[j - |a|];
      } else {
        assert s[i] == a[i] && s[j] == b[j - |a|];
        assert s[i] in ColumnSet(a) && s[j] in ColumnSet(b);
        assert s[i] !in ColumnSet(a) * ColumnSet(b);
      }
    }
  }

  /** `Only` looks at membership of the listed labels and nothing else. */
  lemma {:induction false} OnlySame(cs: seq<string>, a: set<string>, b: set<string>)
    requires forall i :: 0 <= i < |cs| ==> (cs[i] in a <==> cs[i] in b)
    ensures Only(cs, a) == Only(cs, b)
    decreases |cs|
  {
    if |cs| > 0 {
      OnlySame(cs[1..], a, b);
    }
  }

  /** `Without` looks at membership of the listed labels and nothing else. */
  lemma {:induction false} WithoutSame(cs: seq<string>, a: set<string>, b: set<string>)
    requires forall i :: 0 <= i < |cs| ==> (cs[i] in a <==> cs[i] in b)
    ensures Without(cs, a) == Without(cs, b)
    decreases |cs|
  {
    if |cs| > 0 {
      WithoutSame(cs[1..], a, b);
    }
  }

  /** Keeping labels distributes over concatenation. */
  lemma {:induction false} OnlyConcat(a: seq<string>, b: seq<string>, keep: set<string>)
    ensures Only(a + b, keep) == Only(a, keep) + Only(b, keep)
    decreases |a|
  {
    if |a| > 0 {
      assert (a + b)[1..] == a[1..] + b;
      OnlyConcat(a[1..], b, keep);
    } else {
      assert a + b == b;
    }
  }

  /** Keeping a superset of the labels keeps them all. */
  lemma {:induction false} OnlyAll(cs: seq<string>, keep: set<string>)
    requires forall i :: 0 <= i < |cs| ==> cs[i] in keep
    ensures Only(cs, keep) == cs
    decreases |cs|
  {
    if |cs| > 0 {
      OnlyAll(cs[1..], keep);
      assert [cs[0]] + cs[1..] == cs;
    }
  }

  /** The cells of column `c`, row by row. */
  function Column(t: Table, c: string): (vals: seq<Cell>)
    ensures |vals| == |t.rows|
    ensures forall k :: 0 <= k < |t.rows| ==> vals[k] == Get(t.rows[k], c)
  {
    seq(|t.rows|, k requires 0 <= k < |t.rows| => Get(t.rows[k], c))
  }

  /**
   * `df[c] = vals`: replace column `c`, or append it as the last column when
   * the table has no such label.
   */
  function SetColumn(t: Table, c: string, vals: seq<Cell>): (r: Table)
    requires WellFormed(t) && |vals| == |t.rows|
    ensures WellFormed(r)
    ensures r.columns == if c in t.columns then t.columns else t.columns + [c]
    ensures |r.rows| == |t.rows|
    ensures forall k :: 0 <= k < |t.rows| ==> r.rows[k] == t.rows[k][c := vals[k]]
  {
    ColumnSetAppend(t.columns, c);
    Table(if c in t.columns then t.columns else t.columns + [c],
          seq(|t.rows|, k requires 0 <= k < |t.rows| => t.rows[k][c := vals[k]]))
  }

  /** An assignment adds its label to the table's labels. */
  lemma SetColumnLabels(t: Table, c: string, vals: seq<Cell>)
    requires WellFormed(t) && |vals| == |t.rows|
    ensures ColumnSet(SetColumn(t, c, vals).columns) == ColumnSet(t.columns) + {c}
  {
    if c !in t.columns {
      ColumnSetAppend(t.columns, c);
    }
  }

  /** The labels after `df[c] = ...`: `c` appended when it is new. */
  function AddLabel(cs: seq<string>, c: string): seq<string> {
    if c in cs then cs else cs + [c]
  }

  /** Assigning labels one after another appends, in order, those the table lacked. */
  lemma AssignAppends(cs: seq<string>, done: seq<string>, c: string, r: seq<string>)
    requires r == cs + Without(done, ColumnSet(cs))
    requires c !in done
    ensures AddLabel(r, c) == cs + Without(done + [c], ColumnSet(cs))
  {
    WithoutConcat(done, [c], ColumnSet(cs));
    WithoutMember(done, ColumnSet(cs), c);
    assert Without([c], ColumnSet(cs)) == if c in cs then [] else [c] by {
      assert [c][1..] == [];
    }
  }

  /** A column of `n` nulls: `np.nan` broadcast over the rows. */
  function Nulls(n: nat): (vals: seq<Cell>)
    ensures |vals| == n && forall k :: 0 <= k < n ==> vals[k].None?
  {
    seq(n, k => None)
  }

  /** `for c in cs: if c not in df.columns: df[c] = np.nan`. */
  method AddMissingColumns(t: Table, cs: seq<string>) returns (r: Table)
    requires WellFormed(t) && Distinct(cs)
    ensures WellFormed(r)
    ensures r.columns == t.columns + Without(cs, ColumnSet(t.columns))
    ensures |r.rows| == |t.rows|
    ensures forall k, x :: 0 <= k < |t.rows| ==> Get(r.rows[k], x) == Get(t.rows[k], x)
  {
    r := t;
    var i := 0;
    assert Without([], ColumnSet(t.columns)) == [];
    while i < |cs|
      invariant 0 <= i <= |cs|
      invariant WellFormed(r) && |r.rows| == |t.rows|
      invariant r.columns == t.columns + Without(cs[..i], ColumnSet(t.columns))
      invariant forall k, x :: 0 <= k < |t.rows| ==> Get(r.rows[k], x) == Get(t.rows[k], x)
    {
      assert cs[..i + 1] == cs[..i] + [cs[i]];
      assert cs[i] !in cs[..i];
      AssignAppends(t.columns, cs[..i], cs[i], r.columns);
      if cs[i] !in r.columns {
        assert forall k :: 0 <= k < |t.rows| ==> Get(t.rows[k], cs[i]).None?;
        r := SetColumn(r, cs[i], Nulls(|r.rows|));
      }
      i := i + 1;
    }
    assert cs[..i] == cs;
  }

  /** `df.drop(columns=cs, errors='ignore')`. */
  function DropColumns(t: Table, cs: set<string>): (r: Table)
    requires WellFormed(t)
    ensures WellFormed(r)
    ensures r.columns == Without(t.columns, cs)
    ensures |r.rows| == |t.rows|
    ensures forall k :: 0 <= k < |t.rows| ==> r.rows[k] == t.rows[k] - cs
  {
    Table(Without(t.columns, cs), seq(|t.rows|, k requires 0 <= k < |t.rows| => t.rows[k] - cs))
  }

  /**
   * `df.reindex(columns=cs)`: exactly the labels `cs`, in that order; a label
   * the table lacks becomes a column of nulls, the others keep their cells.
   */
  function Reindex(t: Table, cs: seq<string>): (r: Table)
    requires Distinct(cs)
    ensures WellFormed(r)
    ensures r.columns == cs
    ensures |r.rows| == |t.rows|
    ensures forall k, c :: 0 <= k < |t.rows| && c in cs ==> Get(r.rows[k], c) == Get(t.rows[k], c)
  {
    Table(cs, seq(|t.rows|, k requires 0 <= k < |t.rows| => map c | c in ColumnSet(cs) :: Get(t.rows[k], c)))
  }

  /** `df[cs]`: like `Reindex`, but a label the table lacks raises `KeyError`. */
  function Select(t: Table, cs: seq<string>): (r: Result<Table, CleanError>)
    requires Distinct(cs)
    ensures r.Err? <==> Missing(cs, t.columns) != []
    ensures r.Err? ==> r.error == KeyError(Missing(cs, t.columns))
    ensures r.Ok? ==> r.value == Reindex(t, cs)
  {
    var missing := Missing(cs, t.columns);
    if missing != [] then Err(KeyError(missing)) else Ok(Reindex(t, cs))
  }

  // ---------------------------------------------------------------------
  // Rows: boolean masks and concatenation
  // ---------------------------------------------------------------------

  /** The indices `k` with `mask[k] == want`, in increasing order. */
  function Positions(mask: seq<bool>, want: bool): (ps: seq<nat>)
    ensures forall j :: 0 <= j < |ps| ==> ps[j] < |mask| && mask[ps[j]] == want
    ensures forall i, j :: 0 <= i < j < |ps| ==> ps[i] < ps[j]
    ensures forall k :: 0 <= k < |mask| && mask[k] == want ==> k in ps
    decreases |mask|
  {
    if |mask| == 0 then []
    else
      var p := Positions(mask[..|mask| - 1], want);
      if mask[|mask| - 1] == want then p + [|mask| - 1] else p
  }

  /** Every index lands on exactly one side of a mask. */
  lemma {:induction false} PositionsSplit(mask: seq<bool>)
    ensures |Positions(mask, true)| + |Positions(mask, false)| == |mask|
    decreases |mask|
  {
    if |mask| > 0 {
      PositionsSplit(mask[..|mask| - 1]);
    }
  }

  /** `df[mask]` (want = true) or `df[~mask]` (want = false). */
  function FilterRows(t: Table, mask: seq<bool>, want: bool): (r: Table)
    requires WellFormed(t) && |mask| == |t.rows|
    ensures WellFormed(r) && r.columns == t.columns
    ensures |r.rows| == |Positions(mask, want)|
    ensures forall j :: 0 <= j < |r.rows| ==> r.rows[j] == t.rows[Positions(mask, want)[j]]
  {
    var ps := Positions(mask, want);
    Table(t.columns, seq(|ps|, j requires 0 <= j < |ps| => t.rows[ps[j]]))
  }

  /** `pd.concat([a, b], ignore_index=True)` of two tables with the same labels. */
  function Concat(a: Table, b: Table): (r: Table)
    requires WellFormed(a) && WellFormed(b) && a.columns == b.columns
    ensures WellFormed(r) && r.columns == a.columns && r.rows == a.rows + b.rows
  {
    Table(a.columns, a.rows + b.rows)
  }

  // ---------------------------------------------------------------------
  // Keys: first match, drop_duplicates
  // ---------------------------------------------------------------------

  /** No two rows share a value in column `key`. */
  predicate DistinctKeys(rows: seq<Row>, key: string) {
    forall i, j | 0 <= i < j < |rows| :: Get(rows[i], key) != Get(rows[j], key)
  }

  /** The first row whose `key` cell equals `k`. */
  function FirstMatch(rows: seq<Row>, key: string, k: Cell): (m: Option<Row>)
    ensures m.Some? ==> m.value in rows && Get(m.value, key) == k
  {
    if |rows| == 0 then None
    else if Get(rows[0], key) == k then Some(rows[0])
    else FirstMatch(rows[1..], key, k)
  }

  /** `FirstMatch` picks the row at the least index that holds the key, or nothing. */
  lemma {:induction false} FirstMatchIsLeast(rows: seq<Row>, key: string, k: Cell)
    ensures FirstMatch(rows, key, k).None? <==> forall i :: 0 <= i < |rows| ==> Get(rows[i], key) != k
    ensures forall i :: (0 <= i < |rows| && Get(rows[i], key) == k &&
                         (forall j :: 0 <= j < i ==> Get(rows[j], key) != k)) ==>
              FirstMatch(rows, key, k) == Some(rows[i])
  {
    if |rows| > 0 {
      FirstMatchIsLeast(rows[1..], key, k);
      if Get(rows[0], key) != k {
        forall i | 0 < i < |rows| && Get(rows[i], key) == k && (forall j :: 0 <= j < i ==> Get(rows[j], key) != k)
          ensures FirstMatch(rows, key, k) == Some(rows[i])
        {
          assert rows[1..][i - 1] == rows[i];
          forall j | 0 <= j < i - 1 ensures Get(rows[1..][j], key) != k { assert rows[1..][j] == rows[j + 1]; }
        }
        if forall i :: 0 <= i < |rows[1..]| ==> Get(rows[1..][i], key) != k {
          forall i | 0 <= i < |rows| ensures Get(rows[i], key) != k {
            if i > 0 { assert rows[i] == rows[1..][i - 1]; }
          }
        }
      }
    }
  }

  /** The rows whose `key` cell equals `k`, in order: the right side of a join. */
  function MatchRows(rows: seq<Row>, key: string, k: Cell): (ms: seq<Row>)
    ensures |ms| <= |rows|
  {
    if |rows| == 0 then []
    else if Get(rows[0], key) == k then [rows[0]] + MatchRows(rows[1..], key, k)
    else MatchRows(rows[1..], key, k)
  }

  /** Under distinct keys, a key matches the first matching row and nothing else. */
  lemma {:induction false} DistinctKeysMatchOnce(rows: seq<Row>, key: string, k: Cell)
    requires DistinctKeys(rows, key)
    ensures MatchRows(rows, key, k) == match FirstMatch(rows, key, k) case None => [] case Some(m) => [m]
  {
    if |rows| > 0 {
      assert DistinctKeys(rows[1..], key) by {
        forall i, j | 0 <= i < j < |rows| - 1 ensures Get(rows[1..][i], key) != Get(rows[1..][j], key) {
          assert rows[1..][i] == rows[i + 1] && rows[1..][j] == rows[j + 1];
        }
      }
      DistinctKeysMatchOnce(rows[1..], key, k);
      if Get(rows[0], key) == k {
        FirstMatchIsLeast(rows[1..], key, k);
        forall i | 0 <= i < |rows[1..]| ensures Get(rows[1..][i], key) != k {
          assert rows[1..][i] == rows[i + 1];
        }
      }
    }
  }

  /** Keep, for every key value not in `seen`, the first row holding it. */
  function DedupRows(rows: seq<Row>, key: string, seen: set<Cell>): (out: seq<Row>)
    ensures forall j :: 0 <= j < |out| ==> out[j] in rows && Get(out[j], key) !in seen
    ensures DistinctKeys(out, key)
  {
    if |rows| == 0 then []
    else if Get(rows[0], key) in seen then DedupRows(rows[1..], key, seen)
    else
      var rest := DedupRows(rows[1..], key, seen + {Get(rows[0], key)});
      [rows[0]] + rest
  }

  /** Deduplication keeps the first row of every key. */
  lemma {:induction false} DedupKeepsFirst(rows: seq<Row>, key: string, seen: set<Cell>, k: Cell)
    ensures FirstMatch(DedupRows(rows, key, seen), key, k) == if k in seen then None else FirstMatch(rows, key, k)
  {
    if |rows| == 0 {
    } else if Get(rows[0], key) in seen {
      DedupKeepsFirst(rows[1..], key, seen, k);
    } else {
      var s' := seen + {Get(rows[0], key)};
      DedupKeepsFirst(rows[1..], key, s', k);
    }
  }

  /** `df.drop_duplicates(key)`: the first row of each key value, in order. */
  function DropDuplicates(t: Table, key: string): (r: Result<Table, CleanError>)
    requires WellFormed(t)
    ensures r.Err? <==> key !in t.columns
    ensures r.Err? ==> r.error == KeyError([key])
    ensures r.Ok? ==> WellFormed(r.value) && r.value.columns == t.columns
    ensures r.Ok? ==> DistinctKeys(r.value.rows, key) && |r.value.rows| <= |t.rows|
    ensures r.Ok? ==> forall k :: FirstMatch(r.value.rows, key, k) == FirstMatch(t.rows, key, k)
  {
    if key !in t.columns then Err(KeyError([key]))
    else
      var out := DedupRows(t.rows, key, {});
      forall k ensures FirstMatch(out, key, k) == FirstMatch(t.rows, key, k) {
        DedupKeepsFirst(t.rows, key, {}, k);
      }
      DedupShorter(t.rows, key, {});
      Ok(Table(t.columns, out))
  }

  lemma {:induction false} DedupShorter(rows: seq<Row>, key: string, seen: set<Cell>)
    ensures |DedupRows(rows, key, seen)| <= |rows|
  {
    if |rows| > 0 {
      DedupShorter(rows[1..], key, seen);
      DedupShorter(rows[1..], key, seen + {Get(rows[0], key)});
    }
  }

  // ---------------------------------------------------------------------
  // Left merge
  // ---------------------------------------------------------------------

  /** The label a right-hand column gets: the suffix is added when the left has it too. */
  function Renamed(left: seq<string>, c: string, suffix: string): string {
    if c in left then c + suffix else c
  }

  function RenamedAll(left: seq<string>, cs: seq<string>, suffix: string): (r: seq<string>)
    ensures |r| == |cs| && forall i :: 0 <= i < |cs| ==> r[i] == Renamed(left, cs[i], suffix)
  {
    seq(|cs|, i requires 0 <= i < |cs| => Renamed(left, cs[i], suffix))
  }

  /** The right-hand columns other than the key. */
  function RightColumns(right: Table, key: string): seq<string> {
    Without(right.columns, {key})
  }

  /**
   * Dropping the suffixed labels from the renamed right-hand labels leaves
   * the right-hand labels the left did not have.
   */
  lemma {:induction false} WithoutRenamed(left: seq<string>, rc: seq<string>, suffix: string, src: set<string>)
    requires forall i :: 0 <= i < |rc| ==> rc[i] + suffix in src && rc[i] !in src
    ensures Without(RenamedAll(left, rc, suffix), src) == Without(rc, ColumnSet(left))
    decreases |rc|
  {
    if |rc| > 0 {
      var names := RenamedAll(left, rc, suffix);
      assert names[1..] == RenamedAll(left, rc[1..], suffix);
      WithoutRenamed(left, rc[1..], suffix, src);
    }
  }

  /** The labels of a left merge: the left ones, then the renamed right ones. */
  function MergedColumns(left: Table, right: Table, key: string, suffix: string): seq<string> {
    left.columns + RenamedAll(left.columns, RightColumns(right, key), suffix)
  }

  /** The labels that repeat an earlier label, in order. */
  function Duplicated(cs: seq<string>): (r: seq<string>)
    ensures r == [] <==> Distinct(cs)
    decreases |cs|
  {
    if |cs| == 0 then []
    else
      var init := cs[..|cs| - 1];
      var last := cs[|cs| - 1];
      var rest := Duplicated(init);
      assert Distinct(cs) <==> Distinct(init) && last !in init by {
        if Distinct(init) && last !in init {
          forall i, j | 0 <= i < j < |cs| ensures cs[i] != cs[j] {
            if j < |cs| - 1 { assert cs[i] == init[i] && cs[j] == init[j]; } else { assert cs[i] == init[i]; }
          }
        }
        if Distinct(cs) {
          forall i, j | 0 <= i < j < |init| ensures init[i] != init[j] { assert init[i] == cs[i] && init[j] == cs[j]; }
        }
      }
      if last in init then rest + [last] else rest
  }

  /**
   * The row `row` extended with the right-hand columns `rcs`, renamed, taking
   * their cells from the matched right row `m`, or null when nothing matched.
   */
  function Extend(row: Row, left: seq<string>, rcs: seq<string>, suffix: string, m: Option<Row>): (r: Row)
    requires Distinct(RenamedAll(left, rcs, suffix))
    ensures r.Keys == row.Keys + ColumnSet(RenamedAll(left, rcs, suffix))
    ensures forall i :: 0 <= i < |rcs| ==>
              r[Renamed(left, rcs[i], suffix)] == (if m.Some? then Get(m.value, rcs[i]) else None)
    ensures forall x :: x in row && x !in ColumnSet(RenamedAll(left, rcs, suffix)) ==> r[x] == row[x]
    decreases |rcs|
  {
    if |rcs| == 0 then row
    else
      var c := rcs[0];
      var v := if m.Some? then Get(m.value, c) else None;
      var names := RenamedAll(left, rcs, suffix);
      assert RenamedAll(left, rcs[1..], suffix) == names[1..];
      assert Distinct(names[1..]) by {
        forall i, j | 0 <= i < j < |names| - 1 ensures names[1..][i] != names[1..][j] {
          assert names[1..][i] == names[i + 1] && names[1..][j] == names[j + 1];
        }
      }
      assert ColumnSet(names) == {names[0]} + ColumnSet(names[1..]);
      assert names[0] !in ColumnSet(names[1..]) by {
        forall j | 0 <= j < |names| - 1 ensures names[1..][j] != names[0] { assert names[1..][j] == names[j + 1]; }
      }
      var r := Extend(row, left, rcs[1..], suffix, m)[Renamed(left, c, suffix) := v];
      assert forall i :: 1 <= i < |rcs| ==> Renamed(left, rcs[i], suffix) == names[1..][i - 1];
      r
  }

  /** The merged rows produced by one left row: one per matching right row, or one with nulls. */
  function JoinRow(row: Row, left: seq<string>, right: Table, key: string, suffix: string): (out: seq<Row>)
    requires Distinct(RenamedAll(left, RightColumns(right, key), suffix))
  {
    var rcs := RightColumns(right, key);
    var ms := MatchRows(right.rows, key, Get(row, key));
    if |ms| == 0 then [Extend(row, left, rcs, suffix, None)]
    else seq(|ms|, j requires 0 <= j < |ms| => Extend(row, left, rcs, suffix, Some(ms[j])))
  }

  function JoinRows(rows: seq<Row>, left: seq<string>, right: Table, key: string, suffix: string): (out: seq<Row>)
    requires Distinct(RenamedAll(left, RightColumns(right, key), suffix))
  {
    if |rows| == 0 then []
    else JoinRow(rows[0], left, right, key, suffix) + JoinRows(rows[1..], left, right, key, suffix)
  }

  lemma JoinRowKeys(row: Row, left: seq<string>, right: Table, key: string, suffix: string)
    requires Distinct(RenamedAll(left, RightColumns(right, key), suffix))
    requires row.Keys == ColumnSet(left)
    ensures forall j :: 0 <= j < |JoinRow(row, left, right, key, suffix)| ==>
              JoinRow(row, left, right, key, suffix)[j].Keys ==
              ColumnSet(left) + ColumnSet(RenamedAll(left, RightColumns(right, key), suffix))
  {
  }

  /** Every merged row has a cell for exactly the merged labels. */
  lemma {:induction false} JoinRowsKeys(rows: seq<Row>, left: seq<string>, right: Table, key: string, suffix: string)
    requires Distinct(RenamedAll(left, RightColumns(right, key), suffix))
    requires forall k :: 0 <= k < |rows| ==> rows[k].Keys == ColumnSet(left)
    ensures forall j :: 0 <= j < |JoinRows(rows, left, right, key, suffix)| ==>
              JoinRows(rows, left, right, key, suffix)[j].Keys ==
              ColumnSet(left) + ColumnSet(RenamedAll(left, RightColumns(right, key), suffix))
  {
    if |rows| > 0 {
      JoinRowsKeys(rows[1..], left, right, key, suffix);
      JoinRowKeys(rows[0], left, right, key, suffix);
      var want := ColumnSet(left) + ColumnSet(RenamedAll(left, RightColumns(right, key), suffix));
      KeysAreConcat(JoinRow(rows[0], left, right, key, suffix), JoinRows(rows[1..], left, right, key, suffix), want);
    }
  }

  /** Every row of `rs` has a cell for exactly the labels `want`. */
  predicate KeysAre(rs: seq<Row>, want: set<string>) {
    forall j :: 0 <= j < |rs| ==> rs[j].Keys == want
  }

  lemma KeysAreConcat(a: seq<Row>, b: seq<Row>, want: set<string>)
    requires KeysAre(a, want) && KeysAre(b, want)
    ensures KeysAre(a + b, want)
  {
    forall j | 0 <= j < |a + b| ensures (a + b)[j].Keys == want {
      if j >= |a| { assert (a + b)[j] == b[j - |a|]; } else { assert (a + b)[j] == a[j]; }
    }
  }

  /** With distinct right keys, one left row gives one merged row. */
  lemma JoinRowOne(row: Row, left: seq<string>, right: Table, key: string, suffix: string)
    requires Distinct(RenamedAll(left, RightColumns(right, key), suffix))
    requires DistinctKeys(right.rows, key)
    ensures JoinRow(row, left, right, key, suffix) ==
            [Extend(row, left, RightColumns(right, key), suffix, FirstMatch(right.rows, key, Get(row, key)))]
  {
    DistinctKeysMatchOnce(right.rows, key, Get(row, key));
  }

  /** With distinct right keys, each left row gives exactly one merged row, at its own position. */
  lemma {:induction false} JoinRowsOneToOne(rows: seq<Row>, left: seq<string>, right: Table, key: string, suffix: string)
    requires Distinct(RenamedAll(left, RightColumns(right, key), suffix))
    requires DistinctKeys(right.rows, key)
    ensures var out := JoinRows(rows, left, right, key, suffix);
            |out| == |rows| &&
            forall k :: 0 <= k < |rows| ==>
              out[k] == Extend(rows[k], left, RightColumns(right, key), suffix, FirstMatch(right.rows, key, Get(rows[k], key)))
  {
    if |rows| > 0 {
      JoinRowsOneToOne(rows[1..], left, right, key, suffix);
      JoinRowOne(rows[0], left, right, key, suffix);
      var out := JoinRows(rows, left, right, key, suffix);
      var rest := JoinRows(rows[1..], left, right, key, suffix);
      assert out == [Extend(rows[0], left, RightColumns(right, key), suffix, FirstMatch(right.rows, key, Get(rows[0], key)))] + rest;
      forall k | 1 <= k < |rows|
        ensures out[k] == Extend(rows[k], left, RightColumns(right, key), suffix, FirstMatch(right.rows, key, Get(rows[k], key)))
      {
        assert out[k] == rest[k - 1];
        assert rows[1..][k - 1] == rows[k];
      }
    }
  }

  /**
   * `pd.merge(left, right, on=key, how='left', suffixes=('', suffix))`: every
   * left row, in order, joined with each right row holding its key (in the
   * right's order), or with nulls when none does. Right-hand labels the left
   * also has get the suffix; a result that would repeat a label is refused.
   */
  function LeftMerge(left: Table, right: Table, key: string, suffix: string): (r: Result<Table, CleanError>)
    requires WellFormed(left) && WellFormed(right)
    requires key in left.columns && key in right.columns
    ensures r.Err? <==> !Distinct(MergedColumns(left, right, key, suffix))
    ensures r.Err? ==> r.error == MergeError(Duplicated(MergedColumns(left, right, key, suffix)))
    ensures r.Ok? ==> WellFormed(r.value) && r.value.columns == MergedColumns(left, right, key, suffix)
    ensures r.Ok? ==> Distinct(RenamedAll(left.columns, RightColumns(right, key), suffix)) &&
                      r.value.rows == JoinRows(left.rows, left.columns, right, key, suffix)
  {
    var cols := MergedColumns(left, right, key, suffix);
    if !Distinct(cols) then Err(MergeError(Duplicated(cols)))
    else
      MergedRowsWellFormed(left, right, key, suffix);
      Ok(Table(cols, JoinRows(left.rows, left.columns, right, key, suffix)))
  }

  lemma MergedRowsWellFormed(left: Table, right: Table, key: string, suffix: string)
    requires WellFormed(left) && Distinct(MergedColumns(left, right, key, suffix))
    ensures Distinct(RenamedAll(left.columns, RightColumns(right, key), suffix))
    ensures WellFormed(Table(MergedColumns(left, right, key, suffix), JoinRows(left.rows, left.columns, right, key, suffix)))
  {
    var names := RenamedAll(left.columns, RightColumns(right, key), suffix);
    DistinctConcat(left.columns, names);
    JoinRowsKeys(left.rows, left.columns, right, key, suffix);
    ColumnSetConcat(left.columns, names);
  }

  /** With distinct right keys a left merge neither adds nor drops rows. */
  lemma MergeOneToOne(left: Table, right: Table, key: string, suffix: string)
    requires WellFormed(left) && WellFormed(right)
    requires key in left.columns && key in right.columns
    requires DistinctKeys(right.rows, key)
    requires LeftMerge(left, right, key, suffix).Ok?
    ensures var out := LeftMerge(left, right, key, suffix).value;
            |out.rows| == |left.rows| &&
            forall k :: 0 <= k < |left.rows| ==>
              out.rows[k] == Extend(left.rows[k], left.columns, RightColumns(right, key), suffix,
                                    FirstMatch(right.rows, key, Get(left.rows[k], key)))
  {
    JoinRowsOneToOne(left.rows, left.columns, right, key, suffix);
  }

  /** The cell in column `c` of the first row whose key is `k`; null when no row has that key. */
  function Lookup(rows: seq<Row>, key: string, k: Cell, c: string): Cell {
    match FirstMatch(rows, key, k)
    case None => None
    case Some(m) => Get(m, c)
  }

  /** Two tables that agree row by row on the key and on `c` give the same lookups in `c`. */
  lemma {:induction false} LookupAgree(a: seq<Row>, b: seq<Row>, key: string, k: Cell, c: string)
    requires |a| == |b|
    requires forall i :: 0 <= i < |a| ==> Get(a[i], key) == Get(b[i], key) && Get(a[i], c) == Get(b[i], c)
    ensures Lookup(a, key, k, c) == Lookup(b, key, k, c)
  {
    if |a| > 0 {
      assert forall i :: 0 <= i < |a| - 1 ==> a[1..][i] == a[i + 1] && b[1..][i] == b[i + 1];
      LookupAgree(a[1..], b[1..], key, k, c);
    }
  }
  /** A merge whose right-hand labels the left lacks renames nothing and cannot clash. */
  lemma MergeDisjoint(left: Table, right: Table, key: string, suffix: string)
    requires WellFormed(left) && WellFormed(right)
    requires forall c :: c in RightColumns(right, key) ==> c !in left.columns
    ensures RenamedAll(left.columns, RightColumns(right, key), suffix) == RightColumns(right, key)
    ensures Distinct(MergedColumns(left, right, key, suffix))
  {
    var rcs := RightColumns(right, key);
    var names := RenamedAll(left.columns, rcs, suffix);
    assert names == rcs by {
      forall i | 0 <= i < |rcs| ensures names[i] == rcs[i] {
        assert rcs[i] in rcs;
      }
    }
    DistinctAppend(left.columns, rcs);
  }

  /** De-duplication does not change what a lookup finds. */
  lemma DedupLookup(t: Table, key: string, out: Table)
    requires WellFormed(t) && DropDuplicates(t, key) == Ok(out)
    ensures forall k, c :: Lookup(out.rows, key, k, c) == Lookup(t.rows, key, k, c)
  {
  }

  /** Selecting columns that include the key and `c` does not change what a lookup in `c` finds. */
  lemma ReindexLookup(t: Table, cs: seq<string>, key: string, c: string, k: Cell)
    requires WellFormed(t) && Distinct(cs) && key in cs && c in cs
    ensures Lookup(Reindex(t, cs).rows, key, k, c) == Lookup(t.rows, key, k, c)
  {
    var r := Reindex(t, cs);
    forall i | 0 <= i < |t.rows| ensures Get(r.rows[i], key) == Get(t.rows[i], key) && Get(r.rows[i], c) == Get(t.rows[i], c) {
    }
    LookupAgree(r.rows, t.rows, key, k, c);
  }


  /**
   * A left merge against a table with distinct keys, cell by cell: one row per
   * left row, the left cells kept, and each right-hand column (renamed where
   * needed) holding the cell of the first right row with the same key.
   */
  lemma MergeCells(left: Table, right: Table, key: string, suffix: string, out: Table)
    requires WellFormed(left) && WellFormed(right)
    requires key in left.columns && key in right.columns
    requires DistinctKeys(right.rows, key)
    requires LeftMerge(left, right, key, suffix) == Ok(out)
    ensures |out.rows| == |left.rows|
    ensures forall k, x :: 0 <= k < |left.rows| && x in left.columns ==> Get(out.rows[k], x) == Get(left.rows[k], x)
    ensures forall k, c :: 0 <= k < |left.rows| && c in right.columns && c != key ==>
              Renamed(left.columns, c, suffix) in out.columns &&
              Get(out.rows[k], Renamed(left.columns, c, suffix)) == Lookup(right.rows, key, Get(left.rows[k], key), c)
  {
    var rcs := RightColumns(right, key);
    var names := RenamedAll(left.columns, rcs, suffix);
    assert out.columns == left.columns + names && Distinct(names);
    DistinctConcat(left.columns, names);
    JoinRowsOneToOne(left.rows, left.columns, right, key, suffix);
    forall k | 0 <= k < |left.rows|
      ensures forall x :: x in left.columns ==> Get(out.rows[k], x) == Get(left.rows[k], x)
      ensures forall c :: c in right.columns && c != key ==>
                Get(out.rows[k], Renamed(left.columns, c, suffix)) == Lookup(right.rows, key, Get(left.rows[k], key), c)
    {
      ExtendRowCells(left.rows[k], left.columns, right, key, suffix);
    }
    forall c | c in right.columns && c != key ensures Renamed(left.columns, c, suffix) in out.columns {
      assert c in ColumnSet(rcs);
      var i :| 0 <= i < |rcs| && rcs[i] == c;
      assert out.columns[|left.columns| + i] == names[i];
    }
  }

  /** One merged row, cell by cell. */
  lemma ExtendRowCells(row: Row, left: seq<string>, right: Table, key: string, suffix: string)
    requires row.Keys == ColumnSet(left)
    requires Distinct(RenamedAll(left, RightColumns(right, key), suffix))
    requires ColumnSet(left) * ColumnSet(RenamedAll(left, RightColumns(right, key), suffix)) == {}
    ensures var m := FirstMatch(right.rows, key, Get(row, key));
            var r := Extend(row, left, RightColumns(right, key), suffix, m);
            (forall x :: x in left ==> Get(r, x) == Get(row, x)) &&
            (forall c :: c in right.columns && c != key ==>
               Get(r, Renamed(left, c, suffix)) == Lookup(right.rows, key, Get(row, key), c))
  {
    var rcs := RightColumns(right, key);
    var m := FirstMatch(right.rows, key, Get(row, key));
    ExtendKeepsLeft(row, left, rcs, suffix, m);
    forall c | c in right.columns && c != key
      ensures Get(Extend(row, left, rcs, suffix, m), Renamed(left, c, suffix)) == Lookup(right.rows, key, Get(row, key), c)
    {
      assert c in ColumnSet(rcs);
      var i :| 0 <= i < |rcs| && rcs[i] == c;
      ExtendBringsRight(row, left, rcs, suffix, m, i);
    }
  }

  lemma ExtendKeepsLeft(row: Row, left: seq<string>, rcs: seq<string>, suffix: string, m: Option<Row>)
    requires row.Keys == ColumnSet(left)
    requires Distinct(RenamedAll(left, rcs, suffix))
    requires ColumnSet(left) * ColumnSet(RenamedAll(left, rcs, suffix)) == {}
    ensures forall x :: x in left ==> Get(Extend(row, left, rcs, suffix, m), x) == Get(row, x)
  {
    forall x | x in left ensures Get(Extend(row, left, rcs, suffix, m), x) == Get(row, x) {
      var names := RenamedAll(left, rcs, suffix);
      assert x !in ColumnSet(left) * ColumnSet(names);
      assert x in ColumnSet(left);
      ExtendKeepsCell(row, left, rcs, suffix, m, x);
    }
  }

  lemma ExtendKeepsCell(row: Row, left: seq<string>, rcs: seq<string>, suffix: string, m: Option<Row>, x: string)
    requires Distinct(RenamedAll(left, rcs, suffix))
    requires x in row && x !in ColumnSet(RenamedAll(left, rcs, suffix))
    ensures Get(Extend(row, left, rcs, suffix, m), x) == row[x]
  {
  }

  lemma ExtendBringsRight(row: Row, left: seq<string>, rcs: seq<string>, suffix: string, m: Option<Row>, i: nat)
    requires Distinct(RenamedAll(left, rcs, suffix))
    requires i < |rcs|
    ensures Get(Extend(row, left, rcs, suffix, m), Renamed(left, rcs[i], suffix)) ==
            match m case None => None case Some(mr) => Get(mr, rcs[i])
  {
    var names := RenamedAll(left, rcs, suffix);
    assert names[i] in ColumnSet(names);
  }

  // ---------------------------------------------------------------------
  // fillna
  // ---------------------------------------------------------------------

  /** `row[c]` unless it is null, in which case `row[src]`. */
  function FillValue(row: Row, c: string, src: string): Cell {
    if Get(row, c).Some? then Get(row, c) else Get(row, src)
  }

  /** `df[c] = df[c].fillna(df[src])`. */
  function FillNa(t: Table, c: string, src: string): (r: Table)
    requires WellFormed(t)
    ensures WellFormed(r) && |r.rows| == |t.rows|
    ensures r.columns == if c in t.columns then t.columns else t.columns + [c]
    ensures forall k :: 0 <= k < |t.rows| ==> r.rows[k] == t.rows[k][c := FillValue(t.rows[k], c, src)]
  {
    SetColumn(t, c, seq(|t.rows|, k requires 0 <= k < |t.rows| => FillValue(t.rows[k], c, src)))
  }
}
