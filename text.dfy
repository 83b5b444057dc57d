/**
 * The string operations the cleaner applies cell by cell, with Python's
 * semantics: `str.split`, `str.split(d, n)`, `str.join`, `str.strip`,
 * `str.upper`/`str.lower`, `in`, `startswith`, and the two regular-expression
 * substitutions of the cleaner (`\s+` -> " " and the "americana <number>"
 * strip). Characters are classified over ASCII; the whitespace class also
 * holds the non-ASCII characters Python treats as white space.
 */
module Text {

  // ---------------------------------------------------------------------
  // Character classes
  // ---------------------------------------------------------------------

  /** Python's `str.isspace` / the `\s` class of a `str` pattern. */
  predicate IsSpace(c: char) {
    var n := c as int;
    (0x09 <= n <= 0x0D) || (0x1C <= n <= 0x20) || n == 0x85 || n == 0xA0 || n == 0x1680
    || (0x2000 <= n <= 0x200A) || n == 0x2028 || n == 0x2029 || n == 0x202F || n == 0x205F
    || n == 0x3000
  }

  predicate IsDigit(c: char) { '0' <= c <= '9' }

  predicate IsAsciiUpper(c: char) { 'A' <= c <= 'Z' }

  predicate IsAsciiLower(c: char) { 'a' <= c <= 'z' }

  /** `str.isalnum` on one character. */
  predicate IsAlnum(c: char) { IsDigit(c) || IsAsciiUpper(c) || IsAsciiLower(c) }

  function UpperChar(c: char): char {
    if IsAsciiLower(c) then (c as int - 32) as char else c
  }

  function LowerChar(c: char): char {
    if IsAsciiUpper(c) then (c as int + 32) as char else c
  }

  /** `str.upper()`. */
  function Upper(s: string): string {
    seq(|s|, i requires 0 <= i < |s| => UpperChar(s[i]))
  }

  /** `str.lower()`. */
  function Lower(s: string): string {
    seq(|s|, i requires 0 <= i < |s| => LowerChar(s[i]))
  }

  /** Upper-casing a string twice is upper-casing it once. */
  lemma UpperIdempotent(s: string)
    ensures Upper(Upper(s)) == Upper(s)
  {
    assert forall i :: 0 <= i < |s| ==> UpperChar(UpperChar(s[i])) == UpperChar(s[i]);
  }

  /** No ASCII lower-case letter survives `Upper`. */
  lemma UpperHasNoLower(s: string, i: nat)
    requires i < |s|
    ensures |Upper(s)| == |s| && !IsAsciiLower(Upper(s)[i])
  {
  }

  // ---------------------------------------------------------------------
  // Containment
  // ---------------------------------------------------------------------

  /** `s.startswith(p)`. */
  predicate StartsWith(s: string, p: string) {
    |p| <= |s| && s[..|p|] == p
  }

  /** `sub` occurs in `s` at index `i`. */
  predicate OccursAt(s: string, sub: string, i: nat) {
    i + |sub| <= |s| && s[i..i + |sub|] == sub
  }

  /** `sub in s`. */
  predicate Contains(s: string, sub: string) {
    exists i: nat | i <= |s| :: OccursAt(s, sub, i)
  }

  /** Upper-casing a string only removes lower-case letters. */
  lemma UpperFixesUpperOnly(s: string)
    requires forall i :: 0 <= i < |s| ==> !IsAsciiLower(s[i])
    ensures Upper(s) == s
  {
  }

  // ---------------------------------------------------------------------
  // str.split(d) and its inverse str.join
  // ---------------------------------------------------------------------

  /**
   * `s.split(d)`: the fields between the occurrences of `d`. There is one
   * more field than there are delimiters; an empty string has one empty field.
   */
  function Split(s: string, d: char): (parts: seq<string>)
    ensures |parts| >= 1
  {
    if |s| == 0 then [""]
    else
      var rest := Split(s[1..], d);
      if s[0] == d then [""] + rest
      else [[s[0]] + rest[0]] + rest[1..]
  }

  /** There is one more field than there are delimiters. */
  lemma {:induction false} SplitCount(s: string, d: char)
    ensures |Split(s, d)| == multiset(s)[d] + 1
  {
    if |s| > 0 {
      assert s == [s[0]] + s[1..];
      SplitCount(s[1..], d);
    }
  }

  /** `d.join(parts)`. */
  function Join(parts: seq<string>, d: char): string {
    if |parts| == 0 then ""
    else if |parts| == 1 then parts[0]
    else parts[0] + [d] + Join(parts[1..], d)
  }

  /** Joining the fields of a split gives back the string. */
  lemma {:induction false} JoinSplit(s: string, d: char)
    ensures Join(Split(s, d), d) == s
  {
    if |s| > 0 {
      var rest := Split(s[1..], d);
      JoinSplit(s[1..], d);
      if s[0] != d {
        var parts := Split(s, d);
        if |rest| > 1 {
          assert parts[1..] == rest[1..];
          assert Join(rest, d) == rest[0] + [d] + Join(rest[1..], d);
        }
      }
    }
  }

  /** No field of a split holds the delimiter. */
  lemma {:induction false} SplitFieldsFree(s: string, d: char, k: nat)
    requires k < |Split(s, d)|
    ensures d !in Split(s, d)[k]
  {
    if |s| > 0 {
      var rest := Split(s[1..], d);
      if s[0] == d {
        if k > 0 { SplitFieldsFree(s[1..], d, k - 1); }
      } else if k == 0 {
        SplitFieldsFree(s[1..], d, 0);
      } else {
        SplitFieldsFree(s[1..], d, k);
      }
    }
  }

  /** Splitting a join of delimiter-free fields gives back the fields. */
  lemma {:induction false} SplitJoin(parts: seq<string>, d: char)
    requires |parts| >= 1
    requires forall k :: 0 <= k < |parts| ==> d !in parts[k]
    ensures Split(Join(parts, d), d) == parts
  {
    if |parts| == 1 {
      SplitNoDelimiter(parts[0], d);
    } else {
      SplitJoin(parts[1..], d);
      SplitPrefix(parts[0], d, Join(parts[1..], d));
    }
  }

  /** A string without the delimiter is a single field. */
  lemma {:induction false} SplitNoDelimiter(s: string, d: char)
    requires d !in s
    ensures Split(s, d) == [s]
  {
    if |s| > 0 {
      assert d !in s[1..] by {
        forall k | 0 <= k < |s| - 1 ensures s[1..][k] != d { assert s[1..][k] == s[k + 1]; }
      }
      SplitNoDelimiter(s[1..], d);
      assert s == [s[0]] + s[1..];
    }
  }

  /** The field before the first delimiter comes off the front of a split. */
  lemma {:induction false} SplitPrefix(a: string, d: char, b: string)
    requires d !in a
    ensures Split(a + [d] + b, d) == [a] + Split(b, d)
  {
    if |a| > 0 {
      var s := a + [d] + b;
      assert s[1..] == a[1..] + [d] + b;
      assert d !in a[1..] by {
        forall k | 0 <= k < |a| - 1 ensures a[1..][k] != d { assert a[1..][k] == a[k + 1]; }
      }
      SplitPrefix(a[1..], d, b);
      var rest := Split(s[1..], d);
      assert rest == [a[1..]] + Split(b, d);
      assert s[0] == a[0] && s[0] != d;
      assert Split(s, d) == [[a[0]] + rest[0]] + rest[1..];
      assert [a[0]] + a[1..] == a;
    } else {
      assert a + [d] + b == [d] + b;
      assert ([d] + b)[1..] == b;
    }
  }

  // ---------------------------------------------------------------------
  // str.split(d, n): at most n splits, the last field keeps the rest
  // ---------------------------------------------------------------------

  function SplitN(s: string, d: char, n: nat): (parts: seq<string>)
    ensures 1 <= |parts| <= n + 1
  {
    if n == 0 || |s| == 0 then [s]
    else if s[0] == d then [""] + SplitN(s[1..], d, n - 1)
    else
      var rest := SplitN(s[1..], d, n);
      [[s[0]] + rest[0]] + rest[1..]
  }

  /** The fields of a full split cut down to at most n + 1: the first n, then the rest joined back. */
  function Bounded(full: seq<string>, d: char, n: nat): seq<string> {
    if |full| <= n + 1 then full else full[..n] + [Join(full[n..], d)]
  }

  /**
   * `s.split(d, n)` is `s.split(d)` when that has at most n + 1 fields;
   * otherwise its first n fields, followed by the rest of the string.
   */
  lemma {:induction false} SplitNIsBoundedSplit(s: string, d: char, n: nat)
    ensures var full := Split(s, d);
            SplitN(s, d, n) ==
              if |full| <= n + 1 then full else full[..n] + [Join(full[n..], d)]
  {
    var full := Split(s, d);
    if n == 0 {
      JoinSplit(s, d);
      assert full[0..] == full;
      if |full| == 1 {
        assert Join(full, d) == full[0];
      }
    } else if |s| == 0 {
    } else if s[0] == d {
      SplitNIsBoundedSplit(s[1..], d, n - 1);
      BoundedDelimiter(Split(s[1..], d), d, n);
    } else {
      SplitNIsBoundedSplit(s[1..], d, n);
      BoundedFirst(s[0], Split(s[1..], d), d, n);
    }
  }

  /** A leading empty field uses up one of the n splits. */
  lemma BoundedDelimiter(rest: seq<string>, d: char, n: nat)
    requires n > 0
    ensures Bounded([""] + rest, d, n) == [""] + Bounded(rest, d, n - 1)
  {
    if |rest| > n {
      assert ([""] + rest)[..n] == [""] + rest[..n - 1];
      assert ([""] + rest)[n..] == rest[n - 1..];
    }
  }

  /** A character put in front of the first field stays in the first field. */
  lemma BoundedFirst(c: char, rest: seq<string>, d: char, n: nat)
    requires n > 0 && |rest| >= 1
    ensures var q := Bounded(rest, d, n);
            Bounded([[c] + rest[0]] + rest[1..], d, n) == [[c] + q[0]] + q[1..]
  {
    var full := [[c] + rest[0]] + rest[1..];
    if |rest| > n + 1 {
      var q := Bounded(rest, d, n);
      assert q[0] == rest[0];
      assert q[1..] == rest[1..n] + [Join(rest[n..], d)];
      assert full[..n] == [[c] + rest[0]] + rest[1..n];
      assert full[n..] == rest[n..];
    }
  }

  // ---------------------------------------------------------------------
  // str.strip() and the \s+ -> " " substitution
  // ---------------------------------------------------------------------

  function TrimStart(s: string): (r: string)
    ensures |r| <= |s|
  {
    if |s| > 0 && IsSpace(s[0]) then TrimStart(s[1..]) else s
  }

  function TrimEnd(s: string): (r: string)
    ensures |r| <= |s|
  {
    if |s| > 0 && IsSpace(s[|s| - 1]) then TrimEnd(s[..|s| - 1]) else s
  }

  /** `s.strip()`. */
  function Strip(s: string): string {
    TrimEnd(TrimStart(s))
  }

  /** Neither end of a string is white space. */
  predicate Trimmed(s: string) {
    |s| == 0 || (!IsSpace(s[0]) && !IsSpace(s[|s| - 1]))
  }

  /** No two white-space characters stand next to each other, and every one is a blank. */
  predicate SingleSpaced(s: string) {
    forall i :: 0 <= i < |s| && IsSpace(s[i]) ==> s[i] == ' ' && (i + 1 == |s| || !IsSpace(s[i + 1]))
  }

  /** What `TrimStart` leaves is a suffix of `s`. */
  lemma {:induction false} TrimStartSlice(s: string)
    ensures TrimStart(s) == s[|s| - |TrimStart(s)|..]
    decreases |s|
  {
    if |s| > 0 && IsSpace(s[0]) {
      TrimStartSlice(s[1..]);
      assert s[1..][|s| - 1 - |TrimStart(s)|..] == s[|s| - |TrimStart(s)|..];
    }
  }

  /** What `TrimEnd` leaves is a prefix of `s`. */
  lemma {:induction false} TrimEndSlice(s: string)
    ensures TrimEnd(s) == s[..|TrimEnd(s)|]
    decreases |s|
  {
    if |s| > 0 && IsSpace(s[|s| - 1]) {
      TrimEndSlice(s[..|s| - 1]);
      assert s[..|s| - 1][..|TrimEnd(s)|] == s[..|TrimEnd(s)|];
    }
  }

  lemma {:induction false} TrimStartSpec(s: string)
    ensures var r := TrimStart(s);
            (|r| == 0 || !IsSpace(r[0])) && forall i :: 0 <= i < |s| - |r| ==> IsSpace(s[i])
  {
    if |s| > 0 && IsSpace(s[0]) {
      TrimStartSpec(s[1..]);
    }
  }

  lemma {:induction false} TrimEndSpec(s: string)
    ensures var r := TrimEnd(s);
            (|r| == 0 || !IsSpace(r[|r| - 1])) && forall i :: |r| <= i < |s| ==> IsSpace(s[i])
  {
    if |s| > 0 && IsSpace(s[|s| - 1]) {
      TrimEndSpec(s[..|s| - 1]);
    }
  }

  /** Where `s.strip()` starts inside `s`. */
  function StripOffset(s: string): nat {
    |s| - |TrimStart(s)|
  }

  /**
   * `s.strip()` is the slice of `s` left once the white space at both ends
   * is cut off: it starts and ends with a non-space, and what was cut is space.
   */
  lemma StripSpec(s: string)
    ensures var r, i := Strip(s), StripOffset(s);
            Trimmed(r) && i + |r| <= |s| && r == s[i..i + |r|] &&
            (forall k :: 0 <= k < i ==> IsSpace(s[k])) &&
            (forall k :: i + |r| <= k < |s| ==> IsSpace(s[k]))
  {
    StripSlice(s);
    StripTrimmed(s);
    StripTail(s);
    TrimStartSpec(s);
  }

  /** The stripped string is the slice of `s` at the strip offset. */
  lemma StripSlice(s: string)
    ensures StripOffset(s) + |Strip(s)| <= |s| && Strip(s) == s[StripOffset(s)..StripOffset(s) + |Strip(s)|]
  {
    var t := TrimStart(s);
    var i := |s| - |t|;
    TrimStartSlice(s);
    TrimEndSlice(t);
    SliceOfSuffix(s, i, |TrimEnd(t)|);
  }

  /** A prefix of a suffix is a middle slice. */
  lemma SliceOfSuffix(s: string, i: nat, n: nat)
    requires i + n <= |s|
    ensures s[i..][..n] == s[i..i + n]
  {
  }

  /** The stripped string has no white space at either end. */
  lemma StripTrimmed(s: string)
    ensures Trimmed(Strip(s))
  {
    var t := TrimStart(s);
    TrimStartSpec(s);
    TrimEndSpec(t);
    var r := TrimEnd(t);
    TrimEndSlice(t);
    if |r| > 0 {
      assert r[0] == t[0];
    }
  }

  /** What follows the stripped string in `s` is white space. */
  lemma StripTail(s: string)
    ensures forall k :: StripOffset(s) + |Strip(s)| <= k < |s| ==> IsSpace(s[k])
  {
    var t := TrimStart(s);
    var i := |s| - |t|;
    TrimStartSlice(s);
    TrimEndSpec(t);
    var r := TrimEnd(t);
    forall k | i + |r| <= k < |s| ensures IsSpace(s[k]) {
      assert s[k] == t[k - i];
    }
  }

  /** A slice of a single-spaced string is single-spaced. */
  lemma SingleSpacedSlice(s: string, i: nat, j: nat)
    requires SingleSpaced(s) && i <= j <= |s|
    ensures SingleSpaced(s[i..j])
  {
    var t := s[i..j];
    forall k | 0 <= k < |t| && IsSpace(t[k])
      ensures t[k] == ' ' && (k + 1 == |t| || !IsSpace(t[k + 1]))
    {
      assert t[k] == s[i + k];
      if k + 1 < |t| { assert t[k + 1] == s[i + k + 1]; }
    }
  }

  /** `re.sub(r'\s+', ' ', s)`: every run of white space becomes one blank. */
  function CollapseSpace(s: string): string
    decreases |s|
  {
    if |s| == 0 then ""
    else if IsSpace(s[0]) then " " + CollapseSpace(TrimStart(s))
    else [s[0]] + CollapseSpace(s[1..])
  }

  /** The substitution leaves nothing but single blanks between words. */
  lemma {:induction false} CollapseSpaceSingleSpaced(s: string)
    ensures SingleSpaced(CollapseSpace(s))
    ensures |s| > 0 && !IsSpace(s[0]) ==> |CollapseSpace(s)| > 0 && CollapseSpace(s)[0] == s[0]
    decreases |s|
  {
    if |s| > 0 {
      if IsSpace(s[0]) {
        var t := TrimStart(s);
        TrimStartSpec(s);
        CollapseSpaceSingleSpaced(t);
        var r := " " + CollapseSpace(t);
        forall i | 0 <= i < |r| && IsSpace(r[i]) ensures r[i] == ' ' && (i + 1 == |r| || !IsSpace(r[i + 1])) {
          if i == 0 {
            if |t| > 0 { assert r[1] == t[0]; }
          } else {
            assert r[i] == CollapseSpace(t)[i - 1];
          }
        }
      } else {
        CollapseSpaceSingleSpaced(s[1..]);
        var r := [s[0]] + CollapseSpace(s[1..]);
        forall i | 0 <= i < |r| && IsSpace(r[i]) ensures r[i] == ' ' && (i + 1 == |r| || !IsSpace(r[i + 1])) {
          assert r[i] == CollapseSpace(s[1..])[i - 1];
        }
      }
    }
  }

  /** A single-spaced string is left alone by the substitution. */
  lemma {:induction false} CollapseSpaceFixesSingleSpaced(s: string)
    requires SingleSpaced(s)
    ensures CollapseSpace(s) == s
    decreases |s|
  {
    if |s| > 0 {
      SingleSpacedSlice(s, 1, |s|);
      if IsSpace(s[0]) {
        assert |s| == 1 || !IsSpace(s[1]);
        assert TrimStart(s) == s[1..];
      }
      CollapseSpaceFixesSingleSpaced(s[1..]);
      assert s == [s[0]] + s[1..];
    }
  }

  /** Applying the substitution twice is applying it once. */
  lemma CollapseSpaceIdempotent(s: string)
    ensures CollapseSpace(CollapseSpace(s)) == CollapseSpace(s)
  {
    CollapseSpaceSingleSpaced(s);
    CollapseSpaceFixesSingleSpaced(CollapseSpace(s));
  }

  /** Stripping keeps a string single-spaced. */
  lemma StripSingleSpaced(s: string)
    requires SingleSpaced(s)
    ensures SingleSpaced(Strip(s)) && Trimmed(Strip(s))
  {
    StripSpec(s);
    var r, i := Strip(s), StripOffset(s);
    SingleSpacedSlice(s, i, i + |r|);
  }

  // ---------------------------------------------------------------------
  // re.sub(r'(?i)americana\s*\d+(?:\.\d+)?', '', s)
  // ---------------------------------------------------------------------

  /** The first index at or after `i` that does not hold a digit. */
  function DigitRunEnd(s: string, i: nat): (k: nat)
    requires i <= |s|
    ensures i <= k <= |s| && (k == |s| || !IsDigit(s[k]))
    ensures forall j :: i <= j < k ==> IsDigit(s[j])
    decreases |s| - i
  {
    if i < |s| && IsDigit(s[i]) then DigitRunEnd(s, i + 1) else i
  }

  /** The first index at or after `i` that does not hold white space. */
  function SpaceRunEnd(s: string, i: nat): (k: nat)
    requires i <= |s|
    ensures i <= k <= |s| && (k == |s| || !IsSpace(s[k]))
    ensures forall j :: i <= j < k ==> IsSpace(s[j])
    decreases |s| - i
  {
    if i < |s| && IsSpace(s[i]) then SpaceRunEnd(s, i + 1) else i
  }

  /**
   * The length of the match of `(?i)americana\s*\d+(?:\.\d+)?` at the start
   * of `s`, or 0 when the pattern does not match there. Each part of the
   * pattern is greedy and the classes it chains are disjoint, so the match,
   * when there is one, is unique.
   */
  function AmericanaMatch(s: string): (m: nat)
    ensures m <= |s|
    ensures m > 0 ==> m > 9 && Lower(s[..9]) == "americana"
  {
    if |s| < 9 || Lower(s[..9]) != "americana" then 0
    else
      var j := SpaceRunEnd(s, 9);
      var k := DigitRunEnd(s, j);
      if k == j then 0
      else if k + 1 < |s| && s[k] == '.' && IsDigit(s[k + 1]) then DigitRunEnd(s, k + 1)
      else k
  }

  /** Scan left to right, removing every match; unmatched characters are kept. */
  function StripAmericana(s: string): (r: string)
    ensures |r| <= |s|
    decreases |s|
  {
    if |s| == 0 then ""
    else
      var m := AmericanaMatch(s);
      if m > 0 then StripAmericana(s[m..]) else [s[0]] + StripAmericana(s[1..])
  }

  /** The pattern matches nowhere in `s`. */
  predicate NoAmericana(s: string) {
    forall i :: 0 <= i < |s| ==> AmericanaMatch(s[i..]) == 0
  }

  /** The substitution changes a string exactly when the pattern occurs in it. */
  lemma {:induction false} StripAmericanaUnchangedIff(s: string)
    ensures StripAmericana(s) == s <==> NoAmericana(s)
    decreases |s|
  {
    if |s| > 0 {
      var m := AmericanaMatch(s);
      if m > 0 {
        assert |StripAmericana(s[m..])| <= |s| - m;
        assert s[0..] == s;
      } else {
        StripAmericanaUnchangedIff(s[1..]);
        NoAmericanaTail(s);
        var rest := StripAmericana(s[1..]);
        assert StripAmericana(s) == [s[0]] + rest;
        assert s == [s[0]] + s[1..];
        if [s[0]] + rest == s {
          assert rest == ([s[0]] + rest)[1..];
        }
      }
    }
  }

  /** Where the pattern does not match at the start, it matches nowhere in `s` exactly when it matches nowhere in its tail. */
  lemma NoAmericanaTail(s: string)
    requires |s| > 0 && AmericanaMatch(s) == 0
    ensures NoAmericana(s) <==> NoAmericana(s[1..])
  {
    forall i | 1 <= i < |s| ensures s[i..] == s[1..][i - 1..] { }
    if NoAmericana(s) {
      forall i | 0 <= i < |s[1..]| ensures AmericanaMatch(s[1..][i..]) == 0 {
        assert s[1..][i..] == s[i + 1..];
      }
    }
    if NoAmericana(s[1..]) {
      forall i | 0 <= i < |s| ensures AmericanaMatch(s[i..]) == 0 {
        if i == 0 { assert s[0..] == s; } else { assert s[i..] == s[1..][i - 1..]; }
      }
    }
  }

  /** A match at the start of a string is removed. */
  lemma AmericanaAtStartRemoved(s: string)
    requires AmericanaMatch(s) > 0
    ensures StripAmericana(s) == StripAmericana(s[AmericanaMatch(s)..])
  {
  }
}
