/** `CaramelAide` of the assist module: blankness, clamped substrings,
    affix tests and case-insensitive comparison, over ASCII. A nullable
    `CharSequence` is an `Option<string>`. */
module CaramelAide {
  import opened Wrappers
  import opened Text

  function IsEmpty(cs: Option<string>): (r: bool)
    ensures r <==> cs == None || cs == Some("")
  {
    cs == None || |cs.value| == 0
  }

  /** The scan in `isBlank`: every character is whitespace. */
  function AllWhitespaceScan(s: string): (r: bool)
    ensures r <==> AllWhitespace(s)
  {
    if s == [] then true
    else if !IsWhitespace(s[0]) then false
    else AllWhitespaceScan(s[1..])
  }

  /** `isBlank`: null, empty, or nothing but whitespace. */
  function IsBlank(cs: Option<string>): (r: bool)
    ensures r <==> cs == None || AllWhitespace(cs.value)
    ensures IsEmpty(cs) ==> r
  {
    match cs
    case None => true
    case Some(s) => |s| == 0 || AllWhitespaceScan(s)
  }

  function IsNotBlank(cs: Option<string>): (r: bool)
    ensures r <==> cs != None && exists i :: 0 <= i < |cs.value| && !IsWhitespace(cs.value[i])
  {
    !IsBlank(cs)
  }

  /** `trim`, passing null through. */
  function TrimOrNull(str: Option<string>): (r: Option<string>)
    ensures r == None <==> str == None
    ensures r != None ==> |r.value| <= |str.value|
    ensures r != None ==> exists a, b :: IsCore(str.value, a, b) && r.value == str.value[a..b]
  {
    match str
    case None => None
    case Some(s) =>
      TrimIsCore(s);
      Some(Trim(s))
  }

  /** `defaultIfBlank`: the default replaces exactly the blank inputs. */
  function DefaultIfBlank(str: Option<string>, defaultStr: Option<string>): (r: Option<string>)
    ensures IsBlank(str) ==> r == defaultStr
    ensures !IsBlank(str) ==> r == str && IsNotBlank(r)
  {
    if IsBlank(str) then defaultStr else str
  }

  // ----- substrings -----

  /** An index counted from the end when negative. */
  function FromEnd(i: int, n: nat): int {
    if i < 0 then n + i else i
  }

  /** `substring(str, start)`: a negative start takes the last `-start`
      characters (all of them when there are fewer), and a start past the
      end gives "". */
  function Substring(str: Option<string>, start: int): (r: Option<string>)
    ensures r == None <==> str == None
    ensures r != None ==> |r.value| <= |str.value| && r.value == str.value[|str.value| - |r.value|..]
    ensures r != None && 0 <= start <= |str.value| ==> r.value == str.value[start..]
    ensures r != None && start >= |str.value| ==> r.value == ""
    ensures r != None && start < 0 ==> |r.value| == if -start < |str.value| then -start else |str.value|
  {
    match str
    case None => None
    case Some(s) =>
      var st := FromEnd(start, |s|);
      var st := if st < 0 then 0 else st;
      if st > |s| then Some("") else Some(s[st..])
  }

  /** `substring(str, start, end)`: both bounds count from the end when
      negative, the end is clamped to the length, a start past the end
      gives "", and both are finally clamped at 0. */
  function SubstringRange(str: Option<string>, start: int, end: int): (r: Option<string>)
    ensures r == None <==> str == None
    ensures r != None ==> |r.value| <= |str.value|
    ensures r != None && 0 <= start <= end <= |str.value| ==> r.value == str.value[start..end]
    ensures r != None && FromEnd(start, |str.value|) >= FromEnd(end, |str.value|) ==> r.value == ""
    ensures r != None && 0 <= FromEnd(start, |str.value|) <= FromEnd(end, |str.value|) <= |str.value| ==>
      r.value == str.value[FromEnd(start, |str.value|)..FromEnd(end, |str.value|)]
    ensures r != None && FromEnd(start, |str.value|) < 0 <= FromEnd(end, |str.value|) <= |str.value| ==>
      r.value == str.value[..FromEnd(end, |str.value|)]
    ensures r != None && FromEnd(end, |str.value|) < 0 ==> r.value == ""
  {
    match str
    case None => None
    case Some(s) =>
      var e := FromEnd(end, |s|);
      var st := FromEnd(start, |s|);
      var e := if e > |s| then |s| else e;
      if st > e then Some("")
      else
        var st := if st < 0 then 0 else st;
        var e := if e < 0 then 0 else e;
        Some(s[st..e])
  }

  /** The one-bound form is the two-bound form ending at the length. */
  lemma SubstringToEnd(s: string, start: int)
    ensures Substring(Some(s), start) == SubstringRange(Some(s), start, |s|)
  {
    var st := if FromEnd(start, |s|) < 0 then 0 else FromEnd(start, |s|);
    if st <= |s| {
      assert s[st..] == s[st..|s|];
    }
  }

  /** Negative bounds count from the end: `substring("abcde", -3, -1)` is
      `"cd"`, and a start before the beginning is taken as 0. */
  lemma SubstringRangeFromEnd()
    ensures SubstringRange(Some("abcde"), -3, -1) == Some("cd")
    ensures SubstringRange(Some("abcde"), -9, 2) == Some("ab")
    ensures SubstringRange(Some("abcde"), 1, -9) == Some("")
  {
    assert "abcde"[2..4] == "cd";
    assert "abcde"[..2] == "ab";
  }

  /** An end beyond the length acts as the length. */
  lemma SubstringRangeClampsEnd(s: string, start: int, end: int)
    requires end >= |s|
    ensures SubstringRange(Some(s), start, end) == SubstringRange(Some(s), start, |s|)
  {
  }

  // ----- comparing regions -----

  /** Two characters match: equal, or (ignoring case) equal after
      upper-casing or after lower-casing. */
  predicate CharMatch(ignoreCase: bool, c1: char, c2: char) {
    c1 == c2 || (ignoreCase && (UpperChar(c1) == UpperChar(c2) || LowerChar(c1) == LowerChar(c2)))
  }

  /** Two regions of equal length match character by character. */
  predicate Agree(a: string, b: string, ignoreCase: bool)
    requires |a| == |b|
  {
    forall k :: 0 <= k < |a| ==> CharMatch(ignoreCase, a[k], b[k])
  }

  /** The character loop of `regionMatches`, over two regions of equal
      length. */
  function MatchRun(a: string, b: string, ignoreCase: bool): (r: bool)
    requires |a| == |b|
    ensures r <==> Agree(a, b, ignoreCase)
  {
    if a == [] then true
    else if !CharMatch(ignoreCase, a[0], b[0]) then false
    else MatchRun(a[1..], b[1..], ignoreCase)
  }

  /** `regionMatches` on two strings, which hands over to
      `String.regionMatches`: false for a negative offset or a region
      running past either string; a region of length zero or less then
      matches; otherwise every character pair of the two regions matches. */
  function RegionMatches(cs: string, ignoreCase: bool, thisStart: int, other: string, start: int, length: int): (r: bool)
    ensures r <==> (0 <= thisStart && 0 <= start
                    && thisStart + length <= |cs| && start + length <= |other|
                    && (length <= 0 ||
                        Agree(cs[thisStart..thisStart + length], other[start..start + length], ignoreCase)))
  {
    if thisStart < 0 || start < 0 || thisStart + length > |cs| || start + length > |other| then false
    else if length <= 0 then true
    else MatchRun(cs[thisStart..thisStart + length], other[start..start + length], ignoreCase)
  }

  /** `startsWith(str, prefix, ignoreCase)`: two nulls agree, one null
      does not, a longer prefix never matches. */
  function StartsWith(str: Option<string>, prefix: Option<string>, ignoreCase: bool): (r: bool)
    ensures str == None || prefix == None ==> (r <==> str == None && prefix == None)
    ensures str != None && prefix != None && |prefix.value| > |str.value| ==> !r
    ensures str != None && prefix != None && !ignoreCase ==>
      (r <==> |prefix.value| <= |str.value| && str.value[..|prefix.value|] == prefix.value)
  {
    if str == None || prefix == None then str == prefix
    else if |prefix.value| > |str.value| then false
    else
      var r := RegionMatches(str.value, ignoreCase, 0, prefix.value, 0, |prefix.value|);
      assert !ignoreCase ==> (r <==> str.value[..|prefix.value|] == prefix.value) by {
        if !ignoreCase && !r {
          var k :| 0 <= k < |prefix.value| && str.value[k] != prefix.value[k];
          assert str.value[..|prefix.value|][k] != prefix.value[k];
        }
      }
      r
  }

  /** `endsWith(str, suffix, ignoreCase)`: compares the last characters. */
  function EndsWith(str: Option<string>, suffix: Option<string>, ignoreCase: bool): (r: bool)
    ensures str == None || suffix == None ==> (r <==> str == None && suffix == None)
    ensures str != None && suffix != None && |suffix.value| > |str.value| ==> !r
    ensures str != None && suffix != None && !ignoreCase ==>
      (r <==> |suffix.value| <= |str.value| && str.value[|str.value| - |suffix.value|..] == suffix.value)
  {
    if str == None || suffix == None then str == suffix
    else if |suffix.value| > |str.value| then false
    else
      var off := |str.value| - |suffix.value|;
      var r := RegionMatches(str.value, ignoreCase, off, suffix.value, 0, |suffix.value|);
      assert !ignoreCase ==> (r <==> str.value[off..] == suffix.value) by {
        if !ignoreCase && !r {
          var k :| 0 <= k < |suffix.value| && str.value[off + k] != suffix.value[k];
          assert str.value[off..][k] != suffix.value[k];
        }
      }
      r
  }

  /** `equalsIgnoreCase`: two nulls are equal, one null is not, strings of
      different lengths are not; otherwise the whole strings are compared
      as regions ignoring case. */
  function EqualsIgnoreCase(cs1: Option<string>, cs2: Option<string>): (r: bool)
    ensures cs1 == None || cs2 == None ==> (r <==> cs1 == None && cs2 == None)
    ensures cs1 != None && cs2 != None && |cs1.value| != |cs2.value| ==> !r
  {
    if cs1 == None && cs2 == None then true
    else if cs1 == None || cs2 == None then false
    else if |cs1.value| != |cs2.value| then false
    else RegionMatches(cs1.value, true, 0, cs2.value, 0, |cs1.value|)
  }

  /** `equalsIgnoreCaseAfterTrim`. */
  function EqualsIgnoreCaseAfterTrim(str1: Option<string>, str2: Option<string>): (r: bool)
    ensures str1 == None || str2 == None ==> (r <==> str1 == None && str2 == None)
    ensures str1 != None && str2 != None ==> (r <==> Lower(Trim(str1.value)) == Lower(Trim(str2.value)))
  {
    if str1 != None && str2 != None then
      EqualsIgnoreCaseIsLowerEquality(Trim(str1.value), Trim(str2.value));
      EqualsIgnoreCase(TrimOrNull(str1), TrimOrNull(str2))
    else
      EqualsIgnoreCase(TrimOrNull(str1), TrimOrNull(str2))
  }

  // ----- properties -----

  /** On ASCII, matching ignoring case is equality after lower-casing. */
  lemma CharMatchIgnoringCase(c1: char, c2: char)
    ensures CharMatch(true, c1, c2) <==> LowerChar(c1) == LowerChar(c2)
  {
  }

  /** `equalsIgnoreCase` agrees with comparing the lower-cased strings. */
  lemma EqualsIgnoreCaseIsLowerEquality(a: string, b: string)
    ensures EqualsIgnoreCase(Some(a), Some(b)) <==> Lower(a) == Lower(b)
  {
    if Lower(a) == Lower(b) {
      forall k | 0 <= k < |a|
        ensures CharMatch(true, a[k], b[k])
      {
        assert Lower(a)[k] == Lower(b)[k];
        CharMatchIgnoringCase(a[k], b[k]);
      }
    }
    if EqualsIgnoreCase(Some(a), Some(b)) {
      forall k | 0 <= k < |a|
        ensures Lower(a)[k] == Lower(b)[k]
      {
        CharMatchIgnoringCase(a[k], b[k]);
      }
    }
  }

  lemma EqualsIgnoreCaseSymmetric(cs1: Option<string>, cs2: Option<string>)
    ensures EqualsIgnoreCase(cs1, cs2) == EqualsIgnoreCase(cs2, cs1)
  {
    if cs1 != None && cs2 != None {
      EqualsIgnoreCaseIsLowerEquality(cs1.value, cs2.value);
      EqualsIgnoreCaseIsLowerEquality(cs2.value, cs1.value);
    }
  }
}
