/**
 * New Era (`_clean_new_era`): style, description and size come from the item
 * name (the description with its white space collapsed and trimmed); the
 * table is reshaped to a fixed list of columns; each of those columns but the
 * style has its nulls filled from the first reference row with the same style
 * text; last, a row whose league is blank gets the league of its team from a
 * fixed table.
 */
module NewEra {
  import opened Wrappers
  import opened Text
  import opened Frame
  import opened Enrich
  import opened Rules

  /** The columns the routine makes sure exist before deriving. */
  const Required: seq<string> := ["U_Estilo", "U_Silueta", "U_Team", "U_Descrip_Color", "U_Segmento", "U_Liga",
                                  "U_Coleccion_NE", "U_Genero", "U_Descripcion", "U_Temporalidad", "U_Talla"]

  /** The columns taken from the reference, key first. */
  const ToComplete: seq<string> := ["U_Estilo", "U_Silueta", "U_Team", "U_Descrip_Color", "U_Segmento", "U_Liga",
                                    "U_Coleccion_NE", "U_Genero", "U_Descripcion", "U_Temporalidad"]

  /** The columns whose nulls are filled: all of `ToComplete` but the key. */
  const Completable: seq<string> := ["U_Silueta", "U_Team", "U_Descrip_Color", "U_Segmento", "U_Liga",
                                     "U_Coleccion_NE", "U_Genero", "U_Descripcion", "U_Temporalidad"]

  /** The input columns kept besides those. */
  const Extra: seq<string> := ["ItemCode", "Empresa", "ItemName", "U_Talla"]

  /** The columns the merge's left side keeps. */
  const MergeLeft: seq<string> := ["ItemCode", "Empresa", "ItemName", "U_Talla", "U_Estilo"]

  /** The output columns, in order. */
  const Output: seq<string> := ["U_Estilo", "U_Silueta", "U_Team", "U_Descrip_Color", "U_Segmento", "U_Liga",
                                "U_Coleccion_NE", "U_Genero", "U_Descripcion", "U_Temporalidad",
                                "ItemCode", "Empresa", "ItemName", "U_Talla"]

  /** The suffix the merge would give a reference column the left side also has. */
  const Suffix: string := "_ref"

  // ---------------------------------------------------------------------
  // The specification of one row
  // ---------------------------------------------------------------------

  /** The style of a row as merge key: field 0 of the item name, made text. */
  function StyleKey(row: Row): string {
    KeyText(Field(Get(row, "ItemName"), '/', 0), false)
  }

  /** A cell of the reshaped table, before any filling: the three derived columns, and the input's own cells. */
  function Staged(row: Row, x: string): Cell {
    var name := Get(row, "ItemName");
    if x == "U_Estilo" then Some(StyleKey(row))
    else if x == "U_Descripcion" then NeDescription(name)
    else if x == "U_Talla" then Field(name, '/', 2)
    else Get(row, x)
  }

  /** A cell after the fill: a null completable cell takes the first reference row with the same style text. */
  function Enriched(row: Row, reference: Table, x: string): Cell {
    var v := Staged(row, x);
    if x in Completable && v.None?
    then Lookup(CoercedRows(reference.rows, "U_Estilo", false), "U_Estilo", Some(StyleKey(row)), x)
    else v
  }

  /** The league a row ends with: its own, unless that is blank and the team has a league in the table. */
  function LeagueOf(liga: Cell, team: Cell): (l: Cell)
    ensures !LeagueBlank(liga) ==> l == liga
    ensures LeagueBlank(liga) && League(team).None? ==> l == liga
    ensures LeagueBlank(liga) && League(team).Some? ==> l == League(team)
  {
    if LeagueBlank(liga) && League(team).Some? then League(team) else liga
  }

  /** Settling a league twice settles it once: a league the table supplied is never blank. */
  lemma LeagueOfIdempotent(liga: Cell, team: Cell)
    ensures LeagueOf(LeagueOf(liga, team), team) == LeagueOf(liga, team)
  {
  }

  /** A league stays blank exactly when it was blank and the team is not in the table. */
  lemma LeagueOfBlankIff(liga: Cell, team: Cell)
    ensures LeagueBlank(LeagueOf(liga, team)) <==>
            LeagueBlank(liga) && (team.None? || forall i :: 0 <= i < |TeamLicenses| ==> TeamLicenses[i].0 != team.value)
  {
  }

  /** One output row against its input row. */
  ghost predicate CleanedRow(row: Row, reference: Table, o: Row) {
    (forall x :: x in Output && x != "U_Liga" ==> Get(o, x) == Enriched(row, reference, x)) &&
    Get(o, "U_Liga") == LeagueOf(Enriched(row, reference, "U_Liga"), Enriched(row, reference, "U_Team"))
  }

  /** The whole output: exactly the fixed columns, one row per input row. */
  ghost predicate Cleaned(t: Table, reference: Table, out: Table) {
    WellFormed(out) &&
    out.columns == Output &&
    |out.rows| == |t.rows| &&
    forall k :: 0 <= k < |t.rows| ==> CleanedRow(t.rows[k], reference, out.rows[k])
  }

  // ---------------------------------------------------------------------
  // The routine
  // ---------------------------------------------------------------------

  method Clean(t: Table, reference: Table) returns (r: Result<Table, CleanError>)
    requires WellFormed(t) && WellFormed(reference) && "ItemName" in t.columns
    ensures IsEmpty(reference) ==> r == Ok(t)
    ensures !IsEmpty(reference) && Missing(ToComplete, reference.columns) != [] ==>
              r == Err(KeyError(Missing(ToComplete, reference.columns)))
    ensures !IsEmpty(reference) && Missing(ToComplete, reference.columns) == [] ==>
              r.Ok? && Cleaned(t, reference, r.value)
  {
    if IsEmpty(reference) {
      return Ok(t);
    }
    RequiredDistinct();
    var df := AddMissingColumns(t, Required);
    var styles := FieldColumn(df, "ItemName", '/', 0);
    var d1 := SetColumn(df, "U_Estilo", styles);
    var descriptions := DescriptionColumn(d1);
    var d2 := SetColumn(d1, "U_Descripcion", descriptions);
    var sizes := FieldColumn(d2, "ItemName", '/', 2);
    var d3 := SetColumn(d2, "U_Talla", sizes);
    DerivedCells(t, df, styles, d1, descriptions, d2, sizes, d3);
    ToCompleteDistinct();
    var sel := Select(reference, ToComplete);
    if sel.Err? {
      return Err(sel.error);
    }
    OutputDistinct();
    var dn := CoerceKey(Reindex(d3, Output), "U_Estilo", false);
    StagedCells(t, d3, dn);
    var right := Prepare(reference, ToComplete, "U_Estilo", false);
    MergeLeftDistinct();
    var left := Reindex(dn, MergeLeft);
    MergeLabels(right, left);
    MergeDisjoint(left, right, "U_Estilo", Suffix);
    var temp := LeftMerge(left, right, "U_Estilo", Suffix).value;
    TempCells(reference, dn, right, left, temp);
    var filled := MaskFill(dn, temp, Completable);
    var out := ApplyLeagues(filled);
    r := Ok(out);
    forall k | 0 <= k < |t.rows| ensures CleanedRow(t.rows[k], reference, out.rows[k]) {
      RowCleaned(t.rows[k], reference, dn.rows[k], temp.rows[k], filled.rows[k], out.rows[k]);
    }
  }

  /** The New Era description of every row, from its item name. */
  function DescriptionColumn(t: Table): (vals: seq<Cell>)
    ensures |vals| == |t.rows|
    ensures forall k :: 0 <= k < |t.rows| ==> vals[k] == NeDescription(Get(t.rows[k], "ItemName"))
  {
    seq(|t.rows|, k requires 0 <= k < |t.rows| => NeDescription(Get(t.rows[k], "ItemName")))
  }

  /**
   * `for c in cols: mask = t[c].isnull(); if c in temp.columns: t.loc[mask, c] = temp.loc[mask, c]`,
   * the two tables' rows matched by position.
   */
  method MaskFill(t: Table, temp: Table, cols: seq<string>) returns (r: Table)
    requires WellFormed(t) && WellFormed(temp) && |temp.rows| == |t.rows|
    requires forall c :: c in cols ==> c in t.columns
    ensures WellFormed(r) && r.columns == t.columns && |r.rows| == |t.rows|
    ensures forall k, x :: 0 <= k < |t.rows| ==> Get(r.rows[k], x) == MaskFilled(t.rows[k], temp.rows[k], cols, x)
  {
    r := t;
    var i := 0;
    while i < |cols|
      invariant 0 <= i <= |cols|
      invariant WellFormed(r) && r.columns == t.columns && |r.rows| == |t.rows|
      invariant forall k, x :: 0 <= k < |t.rows| ==> Get(r.rows[k], x) == MaskFilled(t.rows[k], temp.rows[k], cols[..i], x)
    {
      var c := cols[i];
      var r1 := r;
      if c in temp.columns {
        r1 := SetColumn(r, c, NullsFrom(r, temp, c));
      }
      forall k, x | 0 <= k < |t.rows| ensures Get(r1.rows[k], x) == MaskFilled(t.rows[k], temp.rows[k], cols[..i + 1], x) {
        MaskStep(t.rows[k], temp.rows[k], cols[..i], c, x, Get(r.rows[k], x), Get(r1.rows[k], x), Get(r.rows[k], c));
      }
      r := r1;
      i := i + 1;
    }
    assert cols[..i] == cols;
  }

  /** The cell a mask fill over `cols` leaves: a null cell of one of those columns takes the other table's cell. */
  function MaskFilled(row: Row, trow: Row, cols: seq<string>, x: string): Cell {
    if x in cols && Get(row, x).None? then Get(trow, x) else Get(row, x)
  }

  /** Column `c` with each null taken from `temp`'s row in the same position. */
  function NullsFrom(t: Table, temp: Table, c: string): (vals: seq<Cell>)
    requires |temp.rows| == |t.rows|
    ensures |vals| == |t.rows|
    ensures forall k :: 0 <= k < |t.rows| ==> vals[k] == if Get(t.rows[k], c).None? then Get(temp.rows[k], c) else Get(t.rows[k], c)
  {
    seq(|t.rows|, k requires 0 <= k < |t.rows| => if Get(t.rows[k], c).None? then Get(temp.rows[k], c) else Get(t.rows[k], c))
  }

  /** One column of the mask fill, for one cell: filling `c` again changes nothing already filled. */
  lemma MaskStep(row: Row, trow: Row, done: seq<string>, c: string, x: string, before: Cell, after: Cell, cur: Cell)
    requires before == MaskFilled(row, trow, done, x)
    requires x == c ==> cur == before
    requires after == if x == c then (if cur.None? then Get(trow, c) else cur) else before
    ensures after == MaskFilled(row, trow, done + [c], x)
  {
  }

  /**
   * The league pass: the rows whose league is null or empty are picked first;
   * then, one by one in order, each takes the league of its team when the
   * team is in the table.
   */
  method ApplyLeagues(t: Table) returns (r: Table)
    requires WellFormed(t) && "U_Liga" in t.columns
    ensures WellFormed(r) && r.columns == t.columns && |r.rows| == |t.rows|
    ensures forall k :: 0 <= k < |t.rows| ==> r.rows[k] == WithLeague(t.rows[k])
  {
    var mask := BlankMask(t);
    var blank := Positions(mask, true);
    var target := seq(|t.rows|, k requires 0 <= k < |t.rows| => WithLeague(t.rows[k]));
    forall k | 0 <= k < |t.rows| && mask[k] ensures target[k] == Licensed(t.rows[k], League) {
      BlankRowLeague(t.rows[k], League(Get(t.rows[k], "U_Team")));
    }
    var rows := VisitBlank(t.rows, mask, blank, League, target);
    forall k | 0 <= k < |t.rows| ensures rows[k] == WithLeague(t.rows[k]) && rows[k].Keys == ColumnSet(t.columns) {
      if !mask[k] {
        NonBlankRowLeague(t.rows[k]);
      }
      LeagueOnlyBlank(t.rows[k]);
    }
    r := Table(t.columns, rows);
  }

  /**
   * The league pass over the rows at the positions `blank`, in order: each
   * takes the league `leagueOf` gives its team, when it gives one, which
   * makes it the row `target` holds at that position.
   */
  method VisitBlank(orig: seq<Row>, mask: seq<bool>, blank: seq<nat>, leagueOf: Cell -> Option<string>, target: seq<Row>)
    returns (rows: seq<Row>)
    requires |target| == |orig| == |mask|
    requires forall j :: 0 <= j < |blank| ==> blank[j] < |mask| && mask[blank[j]]
    requires forall i, j :: 0 <= i < j < |blank| ==> blank[i] < blank[j]
    requires forall k :: 0 <= k < |mask| && mask[k] ==> k in blank
    requires forall k :: 0 <= k < |orig| && mask[k] ==> target[k] == Licensed(orig[k], leagueOf)
    ensures |rows| == |orig|
    ensures forall k :: 0 <= k < |orig| ==> rows[k] == if mask[k] then target[k] else orig[k]
  {
    rows := orig;
    var j := 0;
    ghost var done := seq(|orig|, k => false);
    while j < |blank|
      invariant 0 <= j <= |blank| && |rows| == |orig| && |done| == |orig|
      invariant forall i :: 0 <= i < j ==> done[blank[i]]
      invariant forall i :: j <= i < |blank| ==> !done[blank[i]]
      invariant forall k :: 0 <= k < |orig| && done[k] ==> mask[k]
      invariant forall k :: 0 <= k < |orig| ==> rows[k] == if done[k] then target[k] else orig[k]
    {
      var k := blank[j];
      var league := leagueOf(Get(orig[k], "U_Team"));
      if league.Some? {
        rows := rows[k := rows[k]["U_Liga" := league]];
      }
      assert rows[k] == target[k];
      forall i | j + 1 <= i < |blank| ensures blank[i] != k {
        assert blank[j] < blank[i];
      }
      forall i | 0 <= i < j + 1 ensures done[k := true][blank[i]] {
        if i < j { assert done[blank[i]]; }
      }
      done := done[k := true];
      j := j + 1;
    }
    forall k | 0 <= k < |orig| && mask[k] ensures done[k] {
      var i :| 0 <= i < |blank| && blank[i] == k;
    }
  }

  /** A row given the league `leagueOf` finds for its team, when it finds one. */
  function Licensed(row: Row, leagueOf: Cell -> Option<string>): Row {
    var league := leagueOf(Get(row, "U_Team"));
    if league.Some? then row["U_Liga" := league] else row
  }

  /** Which rows have a blank league. */
  function BlankMask(t: Table): (mask: seq<bool>)
    ensures |mask| == |t.rows|
    ensures forall k :: 0 <= k < |t.rows| ==> mask[k] == LeagueBlank(Get(t.rows[k], "U_Liga"))
  {
    seq(|t.rows|, k requires 0 <= k < |t.rows| => LeagueBlank(Get(t.rows[k], "U_Liga")))
  }

  /** A row after the league pass. */
  function WithLeague(row: Row): Row {
    var league := League(Get(row, "U_Team"));
    if LeagueBlank(Get(row, "U_Liga")) && league.Some? then row["U_Liga" := league] else row
  }

  // ---------------------------------------------------------------------
  // The league pass
  // ---------------------------------------------------------------------

  /** A blank row takes the team's league when there is one. */
  lemma BlankRowLeague(row: Row, league: Option<string>)
    requires LeagueBlank(Get(row, "U_Liga")) && league == League(Get(row, "U_Team"))
    ensures (if league.Some? then row["U_Liga" := league] else row) == WithLeague(row)
  {
  }

  /** A row whose league is set is left as it is. */
  lemma NonBlankRowLeague(row: Row)
    requires !LeagueBlank(Get(row, "U_Liga"))
    ensures WithLeague(row) == row
  {
  }

  /** The league pass changes only the league cell, and only when it was blank and the team is known. */
  lemma LeagueOnlyBlank(row: Row)
    requires "U_Liga" in row
    ensures forall x :: x != "U_Liga" ==> Get(WithLeague(row), x) == Get(row, x)
    ensures WithLeague(row).Keys == row.Keys
    ensures Get(WithLeague(row), "U_Liga") == LeagueOf(Get(row, "U_Liga"), Get(row, "U_Team"))
  {
  }

  /** A second league pass changes nothing: a filled league is not blank. */
  lemma LeaguePassIdempotent(row: Row)
    ensures WithLeague(WithLeague(row)) == WithLeague(row)
  {
  }

  // ---------------------------------------------------------------------
  // The steps, cell by cell
  // ---------------------------------------------------------------------

  lemma RequiredDistinct()
    ensures Distinct(Required)
  {
  }

  lemma ToCompleteDistinct()
    ensures Distinct(ToComplete) && "U_Estilo" in ToComplete
  {
  }

  lemma OutputDistinct()
    ensures Distinct(Output) && "U_Estilo" in Output
    ensures forall c :: c in Completable ==> c in Output
  {
  }

  lemma MergeLeftDistinct()
    ensures Distinct(MergeLeft) && "U_Estilo" in MergeLeft
    ensures forall c :: c in MergeLeft ==> c in Output
  {
  }

  /** The derived table against the input, cell by cell. */
  lemma DerivedCells(t: Table, df: Table, styles: seq<Cell>, d1: Table, descriptions: seq<Cell>, d2: Table,
                     sizes: seq<Cell>, d3: Table)
    requires WellFormed(df) && |df.rows| == |t.rows|
    requires forall k, x :: 0 <= k < |t.rows| ==> Get(df.rows[k], x) == Get(t.rows[k], x)
    requires styles == FieldColumn(df, "ItemName", '/', 0) && d1 == SetColumn(df, "U_Estilo", styles)
    requires descriptions == DescriptionColumn(d1) && d2 == SetColumn(d1, "U_Descripcion", descriptions)
    requires sizes == FieldColumn(d2, "ItemName", '/', 2) && d3 == SetColumn(d2, "U_Talla", sizes)
    ensures WellFormed(d3) && |d3.rows| == |t.rows|
    ensures forall k, x :: 0 <= k < |t.rows| ==> Get(d3.rows[k], x) == Derived(t.rows[k], x)
  {
    forall k | 0 <= k < |t.rows| ensures forall x :: Get(d3.rows[k], x) == Derived(t.rows[k], x) {
      var name := Get(t.rows[k], "ItemName");
      assert Get(df.rows[k], "ItemName") == name;
      assert d1.rows[k] == df.rows[k]["U_Estilo" := Field(name, '/', 0)];
      assert Get(d1.rows[k], "ItemName") == name;
      assert d2.rows[k] == d1.rows[k]["U_Descripcion" := NeDescription(name)];
      assert Get(d2.rows[k], "ItemName") == name;
      assert d3.rows[k] == d2.rows[k]["U_Talla" := Field(name, '/', 2)];
      DerivedRow(t.rows[k], df.rows[k], d3.rows[k]);
    }
  }

  /** One derived row: three assignments over a row that agrees with the input row. */
  lemma DerivedRow(row: Row, drow: Row, o: Row)
    requires forall x :: Get(drow, x) == Get(row, x)
    requires var name := Get(row, "ItemName");
             o == drow["U_Estilo" := Field(name, '/', 0)]["U_Descripcion" := NeDescription(name)]["U_Talla" := Field(name, '/', 2)]
    ensures forall x :: Get(o, x) == Derived(row, x)
  {
  }

  /** A cell of the derived table: style, description and size from the name, the rest the input's own. */
  function Derived(row: Row, x: string): Cell {
    var name := Get(row, "ItemName");
    if x == "U_Estilo" then Field(name, '/', 0)
    else if x == "U_Descripcion" then NeDescription(name)
    else if x == "U_Talla" then Field(name, '/', 2)
    else Get(row, x)
  }

  /** The reshaped table with its style made text holds the staged cells. */
  lemma StagedCells(t: Table, d3: Table, dn: Table)
    requires WellFormed(d3) && |d3.rows| == |t.rows| && Distinct(Output)
    requires forall k, x :: 0 <= k < |t.rows| ==> Get(d3.rows[k], x) == Derived(t.rows[k], x)
    requires dn == CoerceKey(Reindex(d3, Output), "U_Estilo", false)
    ensures |dn.rows| == |t.rows|
    ensures forall k, x :: 0 <= k < |t.rows| && x in Output ==> Get(dn.rows[k], x) == Staged(t.rows[k], x)
  {
    var re := Reindex(d3, Output);
    forall k, x | 0 <= k < |t.rows| && x in Output ensures Get(dn.rows[k], x) == Staged(t.rows[k], x) {
      assert Get(re.rows[k], x) == Derived(t.rows[k], x);
      assert Get(re.rows[k], "U_Estilo") == Field(Get(t.rows[k], "ItemName"), '/', 0);
    }
  }

  /** The merge's labels: its left side has none of the reference's completable columns. */
  lemma MergeLabels(right: Table, left: Table)
    requires right.columns == ToComplete && left.columns == MergeLeft
    ensures forall c :: c in RightColumns(right, "U_Estilo") ==> c !in left.columns
    ensures forall c :: c in Completable ==> c in right.columns && c != "U_Estilo" && c !in left.columns
  {
    LabelsApart();
    forall c | c in RightColumns(right, "U_Estilo") ensures c !in left.columns {
      WithoutMember(right.columns, {"U_Estilo"}, c);
    }
  }

  /** The reference labels are the key and the completable ones, none of which the merge's left side keeps. */
  lemma LabelsApart()
    ensures forall c :: c in ToComplete ==> c == "U_Estilo" || c in Completable
    ensures forall c :: c in Completable ==> c in ToComplete && c != "U_Estilo" && c !in MergeLeft
  {
  }

  /** The merged table holds, for each row, the reference cells of its style text. */
  lemma TempCells(reference: Table, dn: Table, right: Table, left: Table, temp: Table)
    requires WellFormed(reference) && WellFormed(dn) && Distinct(MergeLeft)
    requires forall c :: c in MergeLeft ==> c in dn.columns
    requires forall c :: c in ToComplete ==> c in reference.columns
    requires right == Prepare(reference, ToComplete, "U_Estilo", false) && left == Reindex(dn, MergeLeft)
    requires LeftMerge(left, right, "U_Estilo", Suffix) == Ok(temp)
    ensures WellFormed(temp) && |temp.rows| == |dn.rows|
    ensures forall k, c :: 0 <= k < |dn.rows| && c in Completable ==>
              Get(temp.rows[k], c) == Lookup(CoercedRows(reference.rows, "U_Estilo", false), "U_Estilo", Get(dn.rows[k], "U_Estilo"), c)
  {
    ToCompleteDistinct();
    MergeLeftDistinct();
    MergeLabels(right, left);
    MergeCells(left, right, "U_Estilo", Suffix, temp);
    forall k, c | 0 <= k < |dn.rows| && c in Completable
      ensures Get(temp.rows[k], c) == Lookup(CoercedRows(reference.rows, "U_Estilo", false), "U_Estilo", Get(dn.rows[k], "U_Estilo"), c)
    {
      assert Renamed(left.columns, c, Suffix) == c;
      assert Get(left.rows[k], "U_Estilo") == Get(dn.rows[k], "U_Estilo");
    }
  }

  /** One output row, following its cells back through the league pass, the fill, the merge and the staging. */
  lemma RowCleaned(row: Row, reference: Table, drow: Row, trow: Row, frow: Row, orow: Row)
    requires forall x :: x in Output ==> Get(drow, x) == Staged(row, x)
    requires forall c :: c in Completable ==>
               Get(trow, c) == Lookup(CoercedRows(reference.rows, "U_Estilo", false), "U_Estilo", Get(drow, "U_Estilo"), c)
    requires forall x :: Get(frow, x) == MaskFilled(drow, trow, Completable, x)
    requires "U_Liga" in frow && orow == WithLeague(frow)
    ensures CleanedRow(row, reference, orow)
  {
    OutputDistinct();
    LeagueOnlyBlank(frow);
    forall x | x in Output ensures Get(frow, x) == Enriched(row, reference, x) {
      assert Get(drow, x) == Staged(row, x);
    }
  }
}
