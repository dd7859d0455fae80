/** The pieces of `java.lang.String` and `java.lang.Character` the model
    relies on, restricted to ASCII: case mapping, whitespace, `trim`,
    `indexOf`/`lastIndexOf`, `replace`, `split` with a one-character
    separator, and `String.join`. */
module Text {

  // ----- characters -----

  predicate IsUpper(c: char) { 'A' <= c <= 'Z' }

  predicate IsLower(c: char) { 'a' <= c <= 'z' }

  predicate IsLetter(c: char) { IsUpper(c) || IsLower(c) }

  /** `Character.toLowerCase` on ASCII. */
  function LowerChar(c: char): char {
    if IsUpper(c) then (c as int + 32) as char else c
  }

  /** `Character.toUpperCase` on ASCII. */
  function UpperChar(c: char): char {
    if IsLower(c) then (c as int - 32) as char else c
  }

  /** `Character.isWhitespace` on ASCII: space, TAB..CR and the four
      information separators 0x1C..0x1F. */
  predicate IsWhitespace(c: char) {
    c == ' ' || ('\t' <= c <= '\r') || (28 <= c as int <= 31)
  }

  /** The characters `String.trim` removes. */
  predicate IsTrimmable(c: char) { c <= ' ' }

  // ----- whole strings -----

  function Lower(s: string): (r: string)
    ensures |r| == |s|
    ensures forall i :: 0 <= i < |s| ==> r[i] == LowerChar(s[i])
  {
    if s == [] then [] else [LowerChar(s[0])] + Lower(s[1..])
  }

  function Upper(s: string): (r: string)
    ensures |r| == |s|
    ensures forall i :: 0 <= i < |s| ==> r[i] == UpperChar(s[i])
  {
    if s == [] then [] else [UpperChar(s[0])] + Upper(s[1..])
  }

  /** Blank in the sense of the helpers' `isBlank`: every character is
      whitespace (the empty string included). */
  predicate AllWhitespace(s: string) {
    forall i :: 0 <= i < |s| ==> IsWhitespace(s[i])
  }

  function TrimStart(s: string): (r: string)
    ensures |r| <= |s| && r == s[|s| - |r|..]
    ensures r != [] ==> !IsTrimmable(r[0])
    ensures forall i :: 0 <= i < |s| - |r| ==> IsTrimmable(s[i])
  {
    if s != [] && IsTrimmable(s[0]) then TrimStart(s[1..]) else s
  }

  function TrimEnd(s: string): (r: string)
    ensures |r| <= |s| && r == s[..|r|]
    ensures r != [] ==> !IsTrimmable(r[|r| - 1])
    ensures forall i :: |r| <= i < |s| ==> IsTrimmable(s[i])
  {
    if s != [] && IsTrimmable(s[|s| - 1]) then TrimEnd(s[..|s| - 1]) else s
  }

  /** `String.trim`: drops every character `<= ' '` from both ends. */
  function Trim(s: string): (r: string)
    ensures |r| <= |s|
    ensures r != [] ==> !IsTrimmable(r[0]) && !IsTrimmable(r[|r| - 1])
  {
    TrimEnd(TrimStart(s))
  }

  /** `s[a..b]` is what is left of `s` once its trimmable ends are cut:
      only trimmable characters lie outside, and the slice, when not empty,
      starts and ends with a kept character. */
  predicate IsCore(s: string, a: int, b: int) {
    0 <= a <= b <= |s| &&
    (forall i :: 0 <= i < a ==> IsTrimmable(s[i])) &&
    (forall i :: b <= i < |s| ==> IsTrimmable(s[i])) &&
    (a < b ==> !IsTrimmable(s[a]) && !IsTrimmable(s[b - 1]))
  }

  /** `trim` returns the core of its argument. */
  lemma TrimCore(s: string) returns (a: int, b: int)
    ensures IsCore(s, a, b) && Trim(s) == s[a..b]
  {
    var t := TrimStart(s);
    var u := TrimEnd(t);
    a := |s| - |t|;
    b := a + |u|;
    assert t == s[a..];
    assert u == s[a..b];
    forall i | b <= i < |s|
      ensures IsTrimmable(s[i])
    {
      assert s[i] == t[i - a];
    }
    if a < b {
      assert s[a] == u[0] && s[b - 1] == u[|u| - 1];
    }
  }

  /** `trim` returns a core of its argument, stated without naming the
      bounds. */
  lemma TrimIsCore(s: string)
    ensures exists a, b :: IsCore(s, a, b) && Trim(s) == s[a..b]
  {
    var a, b := TrimCore(s);
  }

  /** A core is empty exactly when every character is trimmable. */
  lemma CoreEmpty(s: string, a: int, b: int)
    requires IsCore(s, a, b)
    ensures a < b <==> exists i :: 0 <= i < |s| && !IsTrimmable(s[i])
  {
    if exists i :: 0 <= i < |s| && !IsTrimmable(s[i]) {
      var i :| 0 <= i < |s| && !IsTrimmable(s[i]);
      assert a <= i < b;
    }
  }

  /** The core of a string is unique. */
  lemma CoreUnique(s: string, a: int, b: int, a2: int, b2: int)
    requires IsCore(s, a, b) && IsCore(s, a2, b2)
    ensures s[a..b] == s[a2..b2]
  {
    CoreEmpty(s, a, b);
    CoreEmpty(s, a2, b2);
    if a < b {
      assert !IsTrimmable(s[a]) && !IsTrimmable(s[a2]);
      assert a == a2;
      assert !IsTrimmable(s[b - 1]) && !IsTrimmable(s[b2 - 1]);
      assert b == b2;
    }
  }

  /** The core of a prefix followed only by trimmable characters is the
      core of the whole. */
  lemma CoreOfPrefix(s: string, n: int, a: int, b: int)
    requires 0 <= n <= |s| && IsCore(s[..n], a, b)
    requires forall i :: n <= i < |s| ==> IsTrimmable(s[i])
    ensures IsCore(s, a, b) && s[..n][a..b] == s[a..b]
  {
    var t := s[..n];
    forall i | b <= i < |s|
      ensures IsTrimmable(s[i])
    {
      if i < n { assert s[i] == t[i]; }
    }
  }

  /** Trimming the end first changes nothing. */
  lemma TrimAfterTrimEnd(s: string)
    ensures Trim(TrimEnd(s)) == Trim(s)
  {
    var t := TrimEnd(s);
    var a, b := TrimCore(t);
    assert t == s[..|t|];
    CoreOfPrefix(s, |t|, a, b);
    var a2, b2 := TrimCore(s);
    CoreUnique(s, a, b, a2, b2);
  }

  /** A text that starts and ends with a kept character shields what
      follows it from the start trim. */
  lemma TrimEnclosed(e: string, x: string)
    requires e != [] && !IsTrimmable(e[0]) && !IsTrimmable(e[|e| - 1])
    ensures Trim(e + x) == e + TrimEnd(x)
  {
    var s := e + x;
    var t := TrimEnd(x);
    var b := |e| + |t|;
    assert t == x[..|t|];
    forall i | b <= i < |s|
      ensures IsTrimmable(s[i])
    {
      assert s[i] == x[i - |e|];
    }
    assert s[b - 1] == (if t == [] then e[|e| - 1] else t[|t| - 1]);
    assert IsCore(s, 0, b);
    var a2, b2 := TrimCore(s);
    CoreUnique(s, 0, b, a2, b2);
    assert s[0..b] == e + t;
  }

  // ----- searching -----

  /** `s.indexOf(c)`: the first index of `c`, or -1. */
  function IndexOf(s: string, c: char): (r: int)
    ensures -1 <= r < |s|
    ensures r >= 0 ==> s[r] == c
    ensures forall i :: 0 <= i < |s| && (r == -1 || i < r) ==> s[i] != c
  {
    if s == [] then -1
    else if s[0] == c then 0
    else
      var k := IndexOf(s[1..], c);
      if k == -1 then -1 else k + 1
  }

  /** `s.lastIndexOf(c)`: the last index of `c`, or -1. */
  function LastIndexOf(s: string, c: char): (r: int)
    ensures -1 <= r < |s|
    ensures r >= 0 ==> s[r] == c
    ensures forall i :: r < i < |s| ==> s[i] != c
  {
    if s == [] then -1
    else if s[|s| - 1] == c then |s| - 1
    else
      var k := LastIndexOf(s[..|s| - 1], c);
      k
  }

  /** The first occurrence pins down `indexOf`. */
  lemma IndexOfIs(s: string, c: char, k: int)
    requires 0 <= k < |s| && s[k] == c
    requires forall i :: 0 <= i < k ==> s[i] != c
    ensures IndexOf(s, c) == k
  {
  }

  /** The last occurrence pins down `lastIndexOf`; `k == -1` when there is
      none. */
  lemma LastIndexOfIs(s: string, c: char, k: int)
    requires -1 <= k < |s| && (k >= 0 ==> s[k] == c)
    requires forall i :: k < i < |s| ==> s[i] != c
    ensures LastIndexOf(s, c) == k
  {
  }

  /** `pat` occurs in `s` at index `i`. */
  predicate MatchAt(s: string, pat: string, i: int) {
    0 <= i && i + |pat| <= |s| && s[i..i + |pat|] == pat
  }

  /** `s.indexOf(pat, from)` for a non-empty pattern. */
  function IndexOfFrom(s: string, pat: string, from: nat): (r: int)
    requires |pat| > 0
    ensures r == -1 || (from <= r && MatchAt(s, pat, r))
    ensures forall i :: from <= i && (r == -1 || i < r) ==> !MatchAt(s, pat, i)
    decreases |s| - from
  {
    if from + |pat| > |s| then -1
    else if s[from..from + |pat|] == pat then from
    else IndexOfFrom(s, pat, from + 1)
  }

  // ----- replacing -----

  /** A pattern at the head of a text whose first character appears
      nowhere after it is removed once, and the rest stays. */
  lemma RemoveLeading(pat: string, x: string)
    requires |pat| > 0 && pat[0] !in x
    ensures ReplaceAll(pat + x, pat, []) == x
  {
    var s := pat + x;
    assert s[..|pat|] == pat && s[|pat|..] == x;
    ReplaceAllHead(s, pat, []);
    forall i | 0 <= i
      ensures !MatchAt(x, pat, i)
    {
      if i + |pat| <= |x| {
        assert x[i..i + |pat|][0] == x[i];
      }
    }
    ReplaceAllNoMatch(x, pat, []);
  }

  /** Every non-overlapping occurrence of `pat`, found left to right,
      replaced by `rep` — the result of Java's `String.replace`. */
  function ReplaceAll(s: string, pat: string, rep: string): string
    requires |pat| > 0
    decreases |s|
  {
    if |s| < |pat| then s
    else if s[..|pat|] == pat then rep + ReplaceAll(s[|pat|..], pat, rep)
    else [s[0]] + ReplaceAll(s[1..], pat, rep)
  }

  /** How many occurrences `ReplaceAll` replaces. */
  function Occurrences(s: string, pat: string): nat
    requires |pat| > 0
    decreases |s|
  {
    if |s| < |pat| then 0
    else if s[..|pat|] == pat then 1 + Occurrences(s[|pat|..], pat)
    else Occurrences(s[1..], pat)
  }

  lemma {:induction false} ReplaceAllLength(s: string, pat: string, rep: string)
    requires |pat| > 0
    ensures |ReplaceAll(s, pat, rep)| == |s| + Occurrences(s, pat) * (|rep| - |pat|)
    decreases |s|
  {
    if |s| < |pat| {
    } else if s[..|pat|] == pat {
      var rest := s[|pat|..];
      ReplaceAllLength(rest, pat, rep);
      ReplaceAllHead(s, pat, rep);
      var o, d := Occurrences(rest, pat), |rep| - |pat|;
      assert |ReplaceAll(s, pat, rep)| == |rep| + |ReplaceAll(rest, pat, rep)|;
      assert Occurrences(s, pat) == 1 + o;
      assert (1 + o) * d == d + o * d;
    } else {
      ReplaceAllLength(s[1..], pat, rep);
      ReplaceAllHead(s, pat, rep);
    }
  }

  lemma {:induction false} ReplaceAllNoMatch(s: string, pat: string, rep: string)
    requires |pat| > 0
    requires forall i :: 0 <= i ==> !MatchAt(s, pat, i)
    ensures ReplaceAll(s, pat, rep) == s
    ensures Occurrences(s, pat) == 0
    decreases |s|
  {
    if |s| < |pat| {
    } else {
      assert !MatchAt(s, pat, 0);
      forall i | 0 <= i
        ensures !MatchAt(s[1..], pat, i)
      {
        assert !MatchAt(s, pat, i + 1);
      }
      ReplaceAllNoMatch(s[1..], pat, rep);
    }
  }

  lemma ReplaceAllHead(t: string, pat: string, rep: string)
    requires |pat| > 0 && |t| >= |pat|
    ensures t[..|pat|] == pat ==> ReplaceAll(t, pat, rep) == rep + ReplaceAll(t[|pat|..], pat, rep)
    ensures t[..|pat|] != pat ==> ReplaceAll(t, pat, rep) == [t[0]] + ReplaceAll(t[1..], pat, rep)
  {
  }

  /** The replacement of `s[from..]`, when the next match starts at `k`
      (or there is none, `k == -1`). */
  predicate ReplacesFrom(s: string, pat: string, rep: string, from: nat, k: int)
    requires |pat| > 0 && from <= |s|
    requires k == -1 || (from <= k && k + |pat| <= |s|)
  {
    if k == -1 then ReplaceAll(s[from..], pat, rep) == s[from..]
    else ReplaceAll(s[from..], pat, rep) == s[from..k] + rep + ReplaceAll(s[k + |pat|..], pat, rep)
  }

  /** One step of the index-driven replacement loop: from `from`, the next
      match (if any) splits the remaining text into an untouched stretch,
      the replacement, and the rest. */
  lemma {:induction false} ReplaceAllFrom(s: string, pat: string, rep: string, from: nat)
    requires |pat| > 0 && from <= |s|
    ensures ReplacesFrom(s, pat, rep, from, IndexOfFrom(s, pat, from))
    decreases |s| - from
  {
    var t := s[from..];
    if from + |pat| > |s| {
      assert |t| < |pat|;
    } else if s[from..from + |pat|] == pat {
      ReplaceAllMatchHere(s, pat, rep, from);
    } else {
      ReplaceAllFrom(s, pat, rep, from + 1);
      ReplaceAllSkipHere(s, pat, rep, from, IndexOfFrom(s, pat, from + 1));
    }
  }

  lemma ReplaceAllMatchHere(s: string, pat: string, rep: string, from: nat)
    requires |pat| > 0 && from + |pat| <= |s| && s[from..from + |pat|] == pat
    ensures IndexOfFrom(s, pat, from) == from
    ensures ReplacesFrom(s, pat, rep, from, from)
  {
    var t := s[from..];
    assert t[..|pat|] == pat;
    assert t[|pat|..] == s[from + |pat|..];
    ReplaceAllHead(t, pat, rep);
    assert s[from..from] + rep == rep;
  }

  lemma ReplaceAllSkipHere(s: string, pat: string, rep: string, from: nat, k: int)
    requires |pat| > 0 && from + |pat| <= |s| && s[from..from + |pat|] != pat
    requires k == -1 || (from + 1 <= k && k + |pat| <= |s|)
    requires ReplacesFrom(s, pat, rep, from + 1, k)
    ensures ReplacesFrom(s, pat, rep, from, k)
  {
    var t := s[from..];
    assert t[..|pat|] == s[from..from + |pat|];
    assert t[1..] == s[from + 1..];
    ReplaceAllHead(t, pat, rep);
    if k != -1 {
      assert s[from..k] == [s[from]] + s[from + 1..k];
    } else {
      assert s[from..] == [s[from]] + s[from + 1..];
    }
  }

  /** `s.replace(a, b)` for single characters. */
  function ReplaceChar(s: string, a: char, b: char): (r: string)
    ensures |r| == |s|
    ensures forall i :: 0 <= i < |s| ==> r[i] == (if s[i] == a then b else s[i])
  {
    if s == [] then [] else [if s[0] == a then b else s[0]] + ReplaceChar(s[1..], a, b)
  }

  /** `s.replace(String.valueOf(c), "")`: every `c` removed. */
  function RemoveChar(s: string, c: char): (r: string)
    ensures c !in r
    ensures |r| <= |s|
    ensures c !in s ==> r == s
  {
    if s == [] then [] else (if s[0] == c then [] else [s[0]]) + RemoveChar(s[1..], c)
  }

  /** A prefix one longer is the shorter prefix and the next element. */
  lemma PrefixSnoc<T>(s: seq<T>, k: nat)
    requires k < |s|
    ensures s[..k + 1] == s[..k] + [s[k]]
  {
  }

  /** Two elements put in front one at a time. */
  lemma ConsTwice<T>(a: T, b: T, s: seq<T>)
    ensures [a] + ([b] + s) == [a, b] + s
  {
  }

  lemma {:induction false} RemoveCharAppend(a: string, b: string, c: char)
    ensures RemoveChar(a + b, c) == RemoveChar(a, c) + RemoveChar(b, c)
  {
    if a == [] {
      assert a + b == b;
    } else {
      assert (a + b)[1..] == a[1..] + b;
      RemoveCharAppend(a[1..], b, c);
    }
  }

  lemma {:induction false} ReplaceAllSingleChar(s: string, c: char)
    ensures ReplaceAll(s, [c], "") == RemoveChar(s, c)
  {
    if s != [] {
      ReplaceAllSingleChar(s[1..], c);
    }
  }

  lemma {:induction false} ReplaceAllChar(s: string, a: char, b: char)
    ensures ReplaceAll(s, [a], [b]) == ReplaceChar(s, a, b)
  {
    if s != [] {
      ReplaceAllChar(s[1..], a, b);
    }
  }

  // ----- splitting and joining -----

  /** All the pieces between occurrences of `sep` (one more than there are
      separators). */
  function Pieces(s: string, sep: char): (r: seq<string>)
    ensures |r| >= 1
    ensures forall i :: 0 <= i < |r| ==> sep !in r[i]
    decreases |s|
  {
    var k := IndexOf(s, sep);
    if k == -1 then [s] else [s[..k]] + Pieces(s[k + 1..], sep)
  }

  function DropTrailingEmpty(parts: seq<string>): (r: seq<string>)
    ensures |r| <= |parts| && r == parts[..|r|]
    ensures r != [] ==> r[|r| - 1] != ""
    ensures forall i :: |r| <= i < |parts| ==> parts[i] == ""
  {
    if parts != [] && parts[|parts| - 1] == "" then DropTrailingEmpty(parts[..|parts| - 1]) else parts
  }

  /** `s.split(sep)` for a separator that is not a regular-expression
      metacharacter: with no separator the string itself is the only
      element; otherwise trailing empty strings are dropped. */
  function Split(s: string, sep: char): (r: seq<string>)
    ensures sep !in s ==> r == [s]
    ensures forall i :: 0 <= i < |r| ==> sep !in r[i]
  {
    if sep !in s then [s] else DropTrailingEmpty(Pieces(s, sep))
  }

  /** `String.join(sep, parts)`. */
  function Join(parts: seq<string>, sep: char): string {
    if parts == [] then ""
    else if |parts| == 1 then parts[0]
    else parts[0] + [sep] + Join(parts[1..], sep)
  }

  lemma {:induction false} JoinPieces(s: string, sep: char)
    ensures Join(Pieces(s, sep), sep) == s
    decreases |s|
  {
    var k := IndexOf(s, sep);
    if k != -1 {
      var rest := Pieces(s[k + 1..], sep);
      JoinPieces(s[k + 1..], sep);
      assert Pieces(s, sep) == [s[..k]] + rest;
      assert Join([s[..k]] + rest, sep) == s[..k] + [sep] + Join(rest, sep) by {
        assert ([s[..k]] + rest)[1..] == rest;
      }
      assert s == s[..k] + [sep] + s[k + 1..];
    } else {
      assert Pieces(s, sep) == [s];
    }
  }
}
