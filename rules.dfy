/**
 * The per-row derivations of the brand routines: positional fields of a
 * composite item name, the ordered first-match rules for gender, category and
 * segment, the team-to-league table, and the description clean-ups.
 */
module Rules {
  import opened Wrappers
  import opened Text
  import opened Frame

  // ---------------------------------------------------------------------
  // Positional fields: s.str.split(d).str[i]
  // ---------------------------------------------------------------------

  /** Field `i` of a cell split on `d`; null when the cell is null or has fewer fields. */
  function Field(c: Cell, d: char, i: nat): (f: Cell)
    ensures c.None? ==> f.None?
    ensures f.Some? ==> d !in f.value
  {
    match c
    case None => None
    case Some(s) =>
      var parts := Split(s, d);
      if i < |parts| then SplitFieldsFree(s, d, i); Some(parts[i]) else None
  }

  /** `t[source].str.split(d).str[i]`: field `i` of every row's cell. */
  function FieldColumn(t: Table, source: string, d: char, i: nat): (vals: seq<Cell>)
    ensures |vals| == |t.rows|
    ensures forall k :: 0 <= k < |t.rows| ==> vals[k] == Field(Get(t.rows[k], source), d, i)
  {
    seq(|t.rows|, k requires 0 <= k < |t.rows| => Field(Get(t.rows[k], source), d, i))
  }

  /** The first field of a text cell always exists: it is everything before the first delimiter. */
  lemma {:induction false} FirstFieldIsPrefix(s: string, d: char)
    ensures var f := Split(s, d)[0];
            |f| <= |s| && s[..|f|] == f && (|f| < |s| ==> s[|f|] == d)
  {
    if |s| > 0 && s[0] != d {
      FirstFieldIsPrefix(s[1..], d);
    }
  }

  /** Field `i + 1` exists exactly when the cell holds at least `i + 1` delimiters. */
  lemma FieldExists(s: string, d: char, i: nat)
    ensures Field(Some(s), d, i + 1).Some? <==> multiset(s)[d] > i
    ensures Field(Some(s), d, 0).Some?
  {
    SplitCount(s, d);
  }

  /** Splitting with at most three splits: `s.str.split('/', n=3)`, the last field keeping the rest. */
  function BoundedField(c: Cell, i: nat): (f: Cell)
    ensures c.None? ==> f.None?
  {
    match c
    case None => None
    case Some(s) =>
      var parts := SplitN(s, '/', 3);
      if i < |parts| then Some(parts[i]) else None
  }

  /**
   * The first three of the at-most-four fields are ordinary fields; the
   * fourth is the rest of the name after the third '/', separators included.
   */
  lemma BoundedFieldSpec(s: string)
    ensures forall i :: 0 <= i < 3 ==> BoundedField(Some(s), i) == Field(Some(s), '/', i)
    ensures var full := Split(s, '/');
            BoundedField(Some(s), 3) == if |full| < 4 then None else Some(Join(full[3..], '/'))
    ensures BoundedField(Some(s), 4).None?
  {
    SplitNIsBoundedSplit(s, '/', 3);
  }

  /** The number of fields a non-empty column of names splits into with `expand=True`. */
  function SplitWidth(names: seq<Cell>): (w: nat)
    ensures 1 <= w <= 4
    ensures forall k :: 0 <= k < |names| ==> forall i :: w <= i ==> BoundedField(names[k], i).None?
    ensures w == 1 || exists k :: 0 <= k < |names| && BoundedField(names[k], w - 1).Some?
  {
    if |names| == 0 then 1
    else
      var here := match names[0] case None => 1 case Some(s) => |SplitN(s, '/', 3)|;
      var rest := SplitWidth(names[1..]);
      if here > rest then
        assert BoundedField(names[0], here - 1).Some?;
        here
      else
        assert forall k :: 0 <= k < |names| - 1 ==> names[1..][k] == names[k + 1];
        rest
  }

  // ---------------------------------------------------------------------
  // Cole Haan: gender, category and segment from the first letter of the style
  // ---------------------------------------------------------------------

  /** np.select over startswith 'F', 'W', 'C', 'U', default "". */
  function ChGender(style: string): string {
    if StartsWith(style, "F") then "MACC"
    else if StartsWith(style, "W") then "WFW"
    else if StartsWith(style, "C") then "MFW"
    else if StartsWith(style, "U") then "WACC"
    else ""
  }

  /** FOOTWEAR for WFW and MFW, ACCESSORIES for MACC and WACC, else "". */
  function ChSegment(gender: string): string {
    if gender in ["WFW", "MFW"] then "FOOTWEAR"
    else if gender in ["MACC", "WACC"] then "ACCESSORIES"
    else ""
  }

  /** The gender depends on the first character of the style only. */
  lemma ChGenderByFirstLetter(style: string)
    ensures |style| == 0 ==> ChGender(style) == ""
    ensures |style| > 0 ==>
              ChGender(style) == match style[0]
                                 case 'F' => "MACC"
                                 case 'W' => "WFW"
                                 case 'C' => "MFW"
                                 case 'U' => "WACC"
                                 case _ => ""
  {
  }

  /** The segment follows from the first letter: W and C are footwear, F and U accessories. */
  lemma ChSegmentByFirstLetter(style: string)
    ensures ChSegment(ChGender(style)) ==
              if |style| > 0 && style[0] in "WC" then "FOOTWEAR"
              else if |style| > 0 && style[0] in "FU" then "ACCESSORIES"
              else ""
  {
    ChGenderByFirstLetter(style);
    if |style| > 0 {
      assert StartsWith(style, [style[0]]);
    }
  }

  // ---------------------------------------------------------------------
  // Columbia: gender from the prefix of the item code
  // ---------------------------------------------------------------------

  /** np.select over the item-code prefixes, first match wins, default "". */
  function ClGender(code: string): string {
    if StartsWith(code, "3") then "MENS"
    else if StartsWith(code, "804") || StartsWith(code, "805") then "UNISEX"
    else if StartsWith(code, "4") then "WOMENS"
    else if StartsWith(code, "5") then "YOUTH BOYS"
    else if StartsWith(code, "6") then "YOUTH GIRLS"
    else if StartsWith(code, "802") then "YOUTH UNISEX"
    else ""
  }

  /**
   * No two of the prefixes can both match, so the first match is the only
   * match: each prefix gives its own value whatever the order of the rules.
   */
  lemma ClGenderExclusive(code: string)
    ensures StartsWith(code, "3") ==> ClGender(code) == "MENS"
    ensures StartsWith(code, "804") || StartsWith(code, "805") ==> ClGender(code) == "UNISEX"
    ensures StartsWith(code, "4") ==> ClGender(code) == "WOMENS"
    ensures StartsWith(code, "5") ==> ClGender(code) == "YOUTH BOYS"
    ensures StartsWith(code, "6") ==> ClGender(code) == "YOUTH GIRLS"
    ensures StartsWith(code, "802") ==> ClGender(code) == "YOUTH UNISEX"
    ensures ClGender(code) == "" <==>
              !(StartsWith(code, "3") || StartsWith(code, "4") || StartsWith(code, "5") || StartsWith(code, "6") ||
                StartsWith(code, "802") || StartsWith(code, "804") || StartsWith(code, "805"))
  {
    if |code| > 0 {
      assert StartsWith(code, "802") || StartsWith(code, "804") || StartsWith(code, "805") ==> code[0] == '8';
      assert StartsWith(code, "3") ==> code[0] == '3';
      assert StartsWith(code, "4") ==> code[0] == '4';
      assert StartsWith(code, "5") ==> code[0] == '5';
    }
  }

  // ---------------------------------------------------------------------
  // New Era: the team-to-league table
  // ---------------------------------------------------------------------

  /** The leagues the team table names. */
  datatype LeagueName = MLB | NFL | NBA | NewEraBranded | NoAplica | Entertainment | Motorsport

  /** The text the table writes for each league. */
  function LeagueText(l: LeagueName): (s: string)
    ensures s != ""
  {
    match l
    case MLB => "MLB"
    case NFL => "NFL"
    case NBA => "NBA"
    case NewEraBranded => "NEW ERA BRANDED"
    case NoAplica => "NO APLICA"
    case Entertainment => "ENTERTAINMENT"
    case Motorsport => "MOTORSPORT"
  }

  /** The team-to-league dictionary, entry by entry, in the order it is written. */
  const TeamLicenses: seq<(string, LeagueName)> := [
    ("LOS ANGELES DODGERS", MLB), ("NEW YORK YANKEES", MLB), ("PITTSBURGH PIRATES", MLB),
    ("SAN FRANCISCO GIANTS", MLB), ("SEATTLE MARINERS", MLB), ("TAMPA BAY RAYS", MLB),
    ("NEW ERA BRANDED", NewEraBranded), ("NO APLICA", NoAplica), ("NEW ENGLAND PATRIOTS", NFL),
    ("HOUSTON TEXANS", NFL), ("BALTIMORE RAVENS", NFL), ("TORONTO BLUE JAYS", MLB),
    ("HOUSTON ASTROS", MLB), ("GREEN BAY PACKERS", NFL), ("BOSTON RED SOX", MLB),
    ("BALTIMORE ORIOLES", MLB), ("ST. LOUIS CARDINALS", MLB), ("SEATTLE SEAHAWKS", NFL),
    ("DALLAS COWBOYS", NFL), ("PITTSBURGH STEELERS", NFL), ("MIAMI DOLPHINS", NFL),
    ("STARWARS", Entertainment), ("DALLAS MAVERICKS", NBA), ("LOS ANGELES LAKERS", NBA),
    ("NEW ORLEANS SAINTS", NFL), ("JACKSONVILLE JAGUARS", NFL), ("CLEVELAND BROWNS", NFL),
    ("NEW YORK KNICKS", NBA), ("SAN ANTONIO SPURS", NBA), ("WASHINGTON NATIONALS", MLB),
    ("OAKLAND ATHLETICS", MLB), ("DETROIT TIGERS", MLB), ("ANAHEIM ANGELS", MLB),
    ("NASCAR", Motorsport), ("NEW YORK METS", MLB), ("PHILADELPHIA PHILLIES", MLB),
    ("CHICAGO WHITE SOX", MLB), ("SAN DIEGO PADRES", MLB), ("CLEVELAND INDIANS", MLB),
    ("DENVER BRONCOS", NFL), ("BUFFALO BILLS", NFL), ("ATLANTA FALCONS", NFL),
    ("CHICAGO BEARS", NFL), ("BROOKLYN NETS", NBA), ("CHICAGO BULLS", NBA),
    ("SAN FRANCISCO 49ERS", NFL), ("INDIANAPOLIS COLTS", NFL), ("ARIZONA CARDINALS", NFL),
    ("OAKLAND RAIDERS", NFL), ("LOS ANGELES RAMS", NFL), ("TAMPA BAY BUCCANEERS", NFL),
    ("GOLDEN STATE WARRIORS", NBA), ("BOSTON CELTICS", NBA), ("CHICAGO CUBS", MLB)
  ]

  /** `table[team]` when `team in table`: the league of the first entry for the team. */
  function LookupTeam(table: seq<(string, LeagueName)>, team: string): (l: Option<LeagueName>)
    ensures l.None? <==> forall i :: 0 <= i < |table| ==> table[i].0 != team
    ensures l.Some? ==> exists i :: 0 <= i < |table| && table[i] == (team, l.value) &&
                                    forall j :: 0 <= j < i ==> table[j].0 != team
  {
    if |table| == 0 then None
    else if table[0].0 == team then Some(table[0].1)
    else
      var l := LookupTeam(table[1..], team);
      assert forall i :: 1 <= i < |table| ==> table[i] == table[1..][i - 1];
      l
  }

  /**
   * The league the table gives a team cell, as text; a null team or a team
   * not in the table gives nothing, and a league found is never blank.
   */
  function League(team: Cell): (l: Option<string>)
    ensures team.None? ==> l.None?
    ensures team.Some? ==> (l.None? <==> forall i :: 0 <= i < |TeamLicenses| ==> TeamLicenses[i].0 != team.value)
    ensures l.Some? ==> !LeagueBlank(l)
  {
    match team
    case None => None
    case Some(t) =>
      match LookupTeam(TeamLicenses, t)
      case None => None
      case Some(n) => Some(LeagueText(n))
  }

  /** A row needs a league when its league cell is null or empty. */
  predicate LeagueBlank(c: Cell) {
    c.None? || c.value == ""
  }

  // ---------------------------------------------------------------------
  // Description clean-ups
  // ---------------------------------------------------------------------

  /** A field of a single-spaced string is single-spaced. */
  lemma {:induction false} SplitKeepsSingleSpaced(s: string, d: char, k: nat)
    requires SingleSpaced(s) && k < |Split(s, d)|
    ensures SingleSpaced(Split(s, d)[k])
    decreases |s|
  {
    if |s| > 0 {
      SingleSpacedSlice(s, 1, |s|);
      if s[0] == d {
        if k > 0 { SplitKeepsSingleSpaced(s[1..], d, k - 1); }
      } else if k == 0 {
        FirstFieldIsPrefix(s, d);
        SingleSpacedSlice(s, 0, |Split(s, d)[0]|);
      } else {
        SplitKeepsSingleSpaced(s[1..], d, k);
      }
    }
  }

  /**
   * New Era: in the name with every white-space run made one blank and the
   * ends stripped, field 1 of the split on '/', stripped again.
   */
  function NeDescription(name: Cell): (r: Cell)
    ensures name.None? ==> r.None?
    ensures r.Some? ==> Trimmed(r.value) && SingleSpaced(r.value)
  {
    match name
    case None => None
    case Some(s) =>
      var clean := Strip(CollapseSpace(s));
      var parts := Split(clean, '/');
      if |parts| < 2 then None
      else
        CollapseSpaceSingleSpaced(s);
        StripSingleSpaced(CollapseSpace(s));
        SplitKeepsSingleSpaced(clean, '/', 1);
        StripSingleSpaced(parts[1]);
        Some(Strip(parts[1]))
  }

  /** Skechers: the description with every Americana size removed. */
  function SkDescription(name: Cell): Cell {
    match Field(name, '/', 1)
    case None => None
    case Some(f) => Some(StripAmericana(f))
  }

  /** Psycho Bunny: the Americana sizes removed, then the ends stripped. */
  function PbDescription(d: Cell): (r: Cell)
    ensures d.None? <==> r.None?
    ensures r.Some? ==> Trimmed(r.value)
  {
    match d
    case None => None
    case Some(s) => StripSpec(StripAmericana(s)); Some(Strip(StripAmericana(s)))
  }

  // ---------------------------------------------------------------------
  // Skechers: which names are well formed
  // ---------------------------------------------------------------------

  /** A name holds '/', and its style (the part before it) has two characters or more, the first alphanumeric. */
  predicate SkValid(name: Cell) {
    name.Some? && '/' in name.value &&
    var style := Split(name.value, '/')[0];
    |style| >= 2 && IsAlnum(style[0])
  }

  /** A well-formed name always yields a description, and its style ends at the name's first '/'. */
  lemma SkValidFields(name: Cell)
    requires SkValid(name)
    ensures SkDescription(name).Some?
    ensures var s, style := name.value, Field(name, '/', 0).value;
            |style| >= 2 && IsAlnum(style[0]) && |style| < |s| && s[..|style|] == style && s[|style|] == '/'
  {
    var s := name.value;
    FieldExists(s, '/', 0);
    FirstFieldIsPrefix(s, '/');
    var style := Split(s, '/')[0];
    SplitFieldsFree(s, '/', 0);
    assert style != s;
  }

  // ---------------------------------------------------------------------
  // Fabletics: style and style-colour from the '-' tokens
  // ---------------------------------------------------------------------

  /** The first two '-' tokens of the name, joined by '-'. */
  function StyleColor(name: Cell): (r: Cell)
    ensures name.None? <==> r.None?
  {
    match name
    case None => None
    case Some(s) =>
      var parts := Split(s, '-');
      Some(Join(parts[..if |parts| < 2 then |parts| else 2], '-'))
  }

  /** Joining the first `n` fields gives a prefix of joining them all. */
  lemma {:induction false} JoinPrefix(parts: seq<string>, d: char, n: nat)
    requires 1 <= n <= |parts|
    ensures StartsWith(Join(parts, d), Join(parts[..n], d))
    decreases n
  {
    if n > 1 {
      JoinPrefix(parts[1..], d, n - 1);
      assert parts[..n][1..] == parts[1..][..n - 1];
      var tail := Join(parts[1..], d);
      var head := Join(parts[1..][..n - 1], d);
      assert tail[..|head|] == head;
      assert (parts[0] + [d] + tail)[..|parts[0]| + 1 + |head|] == parts[0] + [d] + head;
    } else {
      assert parts[..1] == [parts[0]];
    }
  }

  /**
   * The style-colour is the name up to (not including) its second '-', and
   * it begins with the style: the name itself when it has at most one '-'.
   */
  lemma StyleColorIsPrefix(s: string)
    ensures StartsWith(s, StyleColor(Some(s)).value)
    ensures StartsWith(StyleColor(Some(s)).value, Field(Some(s), '-', 0).value)
    ensures multiset(s)['-'] <= 1 ==> StyleColor(Some(s)).value == s
  {
    var parts := Split(s, '-');
    var n := if |parts| < 2 then |parts| else 2;
    SplitCount(s, '-');
    assert StyleColor(Some(s)).value == Join(parts[..n], '-');
    assert StartsWith(s, Join(parts[..n], '-')) by {
      JoinSplit(s, '-');
      JoinPrefix(parts, '-', n);
    }
    assert StartsWith(Join(parts[..n], '-'), parts[0]) by {
      JoinPrefix(parts[..n], '-', 1);
      assert parts[..n][..1] == [parts[0]];
    }
    if |parts| <= 2 {
      assert parts[..n] == parts;
      JoinSplit(s, '-');
    }
  }
}
