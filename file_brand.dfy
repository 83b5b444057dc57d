/**
 * The brand code read off an uploaded file's name (`detect_brand_from_filename`):
 * on the upper-cased name, the first `L<digits><two letters>` pattern names the
 * brand by its two letters; otherwise the first of CH, CL, NE and SK the name
 * contains; otherwise none.
 */
module FileBrand {
  import opened Wrappers
  import opened Text

  /** The codes looked for directly, in the order they are tried. */
  const DirectCodes: seq<string> := ["CH", "CL", "NE", "SK"]

  /**
   * `L\d+([A-Z]{2})` matches at `i`: an `L`, a run of digits, then two
   * upper-case letters. `\d+` is greedy, and giving a digit back leaves a digit
   * where a letter is needed, so the match at `i`, if any, ends the digit run
   * at its first non-digit.
   */
  predicate LMatchAt(s: string, i: nat) {
    i + 1 < |s| && s[i] == 'L' && IsDigit(s[i + 1]) &&
    var j := DigitRunEnd(s, i + 1);
    j + 2 <= |s| && IsAsciiUpper(s[j]) && IsAsciiUpper(s[j + 1])
  }

  /** The captured group of the match at `i`. */
  function LGroup(s: string, i: nat): (g: string)
    requires LMatchAt(s, i)
    ensures |g| == 2 && IsAsciiUpper(g[0]) && IsAsciiUpper(g[1])
  {
    var j := DigitRunEnd(s, i + 1);
    s[j..j + 2]
  }

  /** `re.search`: the leftmost position at or after `from` where the pattern matches. */
  function FirstLMatch(s: string, from: nat): (m: Option<nat>)
    requires from <= |s|
    ensures m.Some? ==> from <= m.value < |s| && LMatchAt(s, m.value) &&
                        forall j :: from <= j < m.value ==> !LMatchAt(s, j)
    ensures m.None? ==> forall j :: from <= j ==> !LMatchAt(s, j)
    decreases |s| - from
  {
    if from == |s| then None
    else if LMatchAt(s, from) then Some(from)
    else FirstLMatch(s, from + 1)
  }

  /** The first of `codes` that `s` contains. */
  function FirstCode(s: string, codes: seq<string>): (r: Option<string>)
    ensures r.Some? ==> exists k :: 0 <= k < |codes| && codes[k] == r.value && Contains(s, codes[k]) &&
                                    forall j :: 0 <= j < k ==> !Contains(s, codes[j])
    ensures r.None? ==> forall k :: 0 <= k < |codes| ==> !Contains(s, codes[k])
  {
    if |codes| == 0 then None
    else if Contains(s, codes[0]) then Some(codes[0])
    else
      var r := FirstCode(s, codes[1..]);
      FirstCodeStep(s, codes, r);
      r
  }

  /** The first code of `codes[1..]` that `s` contains is the first of `codes` when `s` lacks `codes[0]`. */
  lemma FirstCodeStep(s: string, codes: seq<string>, r: Option<string>)
    requires |codes| > 0 && !Contains(s, codes[0])
    requires r.Some? ==> exists k :: 0 <= k < |codes[1..]| && codes[1..][k] == r.value && Contains(s, codes[1..][k]) &&
                                     forall j :: 0 <= j < k ==> !Contains(s, codes[1..][j])
    requires r.None? ==> forall k :: 0 <= k < |codes[1..]| ==> !Contains(s, codes[1..][k])
    ensures r.Some? ==> exists k :: 0 <= k < |codes| && codes[k] == r.value && Contains(s, codes[k]) &&
                                    forall j :: 0 <= j < k ==> !Contains(s, codes[j])
    ensures r.None? ==> forall k :: 0 <= k < |codes| ==> !Contains(s, codes[k])
  {
    if r.Some? {
      var k :| 0 <= k < |codes[1..]| && codes[1..][k] == r.value && Contains(s, codes[1..][k]) &&
               forall j :: 0 <= j < k ==> !Contains(s, codes[1..][j]);
      assert codes[k + 1] == r.value;
      forall j | 0 <= j < k + 1 ensures !Contains(s, codes[j]) {
        if j > 0 {
          assert codes[j] == codes[1..][j - 1];
        }
      }
    } else {
      forall k | 0 <= k < |codes| ensures !Contains(s, codes[k]) {
        if k > 0 {
          assert codes[k] == codes[1..][k - 1];
        }
      }
    }
  }

  /** The specification of the detection. */
  function Detected(filename: string): Option<string> {
    var u := Upper(filename);
    var m := FirstLMatch(u, 0);
    if m.Some? then Some(LGroup(u, m.value)) else FirstCode(u, DirectCodes)
  }

  /** `detect_brand_from_filename`. */
  method DetectBrand(filename: string) returns (r: Option<string>)
    ensures r == Detected(filename)
  {
    var u := Upper(filename);
    var m := FirstLMatch(u, 0);
    if m.Some? {
      return Some(LGroup(u, m.value));
    }
    var k := 0;
    while k < |DirectCodes|
      invariant 0 <= k <= |DirectCodes|
      invariant FirstCode(u, DirectCodes[k..]) == FirstCode(u, DirectCodes)
    {
      assert DirectCodes[k..][1..] == DirectCodes[k + 1..];
      if Contains(u, DirectCodes[k]) {
        return Some(DirectCodes[k]);
      }
      k := k + 1;
    }
    return None;
  }

  // ---------------------------------------------------------------------
  // Properties
  // ---------------------------------------------------------------------

  /** A detected code is two upper-case letters. */
  lemma DetectedShape(filename: string)
    requires Detected(filename).Some?
    ensures var c := Detected(filename).value; |c| == 2 && IsAsciiUpper(c[0]) && IsAsciiUpper(c[1])
  {
    var u := Upper(filename);
    if FirstLMatch(u, 0).None? {
      var k :| 0 <= k < |DirectCodes| && DirectCodes[k] == Detected(filename).value;
    }
  }

  /** The detection does not depend on letter case. */
  lemma DetectedIgnoresCase(filename: string)
    ensures Detected(Upper(filename)) == Detected(filename)
  {
    UpperIdempotent(filename);
  }

  /** An `L<digits><letters>` pattern anywhere takes priority over a direct code. */
  lemma PatternFirst(filename: string, i: nat)
    requires LMatchAt(Upper(filename), i)
    ensures Detected(filename).Some?
    ensures exists j: nat :: j <= i && LMatchAt(Upper(filename), j) && Detected(filename) == Some(LGroup(Upper(filename), j))
  {
    var u := Upper(filename);
    var m := FirstLMatch(u, 0);
    assert m.Some?;
  }

  /** Without a pattern, a direct code is found exactly when the name contains one of them. */
  lemma DirectFallback(filename: string)
    requires forall i :: !LMatchAt(Upper(filename), i)
    ensures Detected(filename).Some? <==> exists k :: 0 <= k < |DirectCodes| && Contains(Upper(filename), DirectCodes[k])
  {
    assert FirstLMatch(Upper(filename), 0).None?;
  }
}
