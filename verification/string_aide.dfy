/** `StringAide` of the core module: null-aware emptiness, equality and the
    index-driven `replace`. A Java `CharSequence` that may be null is an
    `Option<string>`. */
module StringAide {
  import opened Wrappers
  import opened Text

  /** `isNotEmpty`: present and at least one character long. */
  function IsNotEmpty(cs: Option<string>): (r: bool)
    ensures r <==> cs.Some? && |cs.value| > 0
  {
    cs != None && |cs.value| > 0
  }

  /** `isEmpty`, defined as the negation of `isNotEmpty`. */
  function IsEmpty(cs: Option<string>): (r: bool)
    ensures r <==> cs == None || cs == Some("")
  {
    !IsNotEmpty(cs)
  }

  /** `equals`: two nulls are equal, one null never equals anything, and two
      strings are compared length first, then character by character. */
  method Equals(cs1: Option<string>, cs2: Option<string>) returns (r: bool)
    ensures r <==> cs1 == cs2
  {
    if cs1 == None && cs2 == None {
      return true;
    }
    if cs1 == None || cs2 == None {
      return false;
    }
    var a, b := cs1.value, cs2.value;
    if |a| != |b| {
      return false;
    }
    var i := 0;
    while i < |a|
      invariant 0 <= i <= |a|
      invariant a[..i] == b[..i]
    {
      if a[i] != b[i] {
        return false;
      }
      assert a[..i + 1] == a[..i] + [a[i]];
      assert b[..i + 1] == b[..i] + [b[i]];
      i := i + 1;
    }
    assert a == a[..i] && b == b[..i];
    return true;
  }

  /** `replace`: the input comes back untouched when it or the pattern is
      empty or the replacement is null; otherwise every occurrence of the
      pattern, found left to right without overlap, is replaced. The loop
      walks `indexOf(pattern, pos)` exactly as the source does; the result
      is the reference definition `Text.ReplaceAll`. */
  method Replace(input: Option<string>, pattern: Option<string>, replacement: Option<string>)
    returns (r: Option<string>)
    ensures IsEmpty(input) || IsEmpty(pattern) || replacement == None ==> r == input
    ensures IsNotEmpty(input) && IsNotEmpty(pattern) && replacement != None ==>
      r == Some(ReplaceAll(input.value, pattern.value, replacement.value))
  {
    if IsEmpty(input) || IsEmpty(pattern) || replacement == None {
      return input;
    }
    var s, p, n := input.value, pattern.value, replacement.value;
    var index := IndexOfFrom(s, p, 0);
    if index == -1 {
      ReplaceWithoutOccurrence(s, p, n);
      return input;
    }
    var replaced := ReplaceFound(s, p, n, index);
    return Some(replaced);
  }

  /** The loop of `replace`, from the first occurrence on. */
  method ReplaceFound(s: string, p: string, n: string, first: int) returns (r: string)
    requires |p| > 0 && first == IndexOfFrom(s, p, 0)
    ensures r == ReplaceAll(s, p, n)
  {
    var builder := "";
    var pos := 0;
    var index := first;
    BuiltStart(s, p, n);
    while index >= 0
      invariant 0 <= pos <= |s|
      invariant index == IndexOfFrom(s, p, pos)
      invariant Built(s, p, n, pos, builder)
      decreases |s| - pos
    {
      ReplaceLoopStep(s, p, n, pos, index, builder);
      builder, pos := builder + s[pos..index] + n, index + |p|;
      index := IndexOfFrom(s, p, pos);
    }
    ReplaceLoopExit(s, p, n, pos, index, builder);
    r := builder + s[pos..];
  }

  /** The loop's invariant: the builder followed by the replacement of the
      text from `pos` on is the replacement of the whole text. */
  predicate Built(s: string, p: string, n: string, pos: nat, builder: string)
    requires |p| > 0 && pos <= |s|
  {
    builder + ReplaceAll(s[pos..], p, n) == ReplaceAll(s, p, n)
  }

  lemma BuiltStart(s: string, p: string, n: string)
    requires |p| > 0
    ensures Built(s, p, n, 0, "")
  {
    assert s[0..] == s;
  }

  /** One pass of the loop: the text up to the occurrence and the
      replacement join the builder, and the rest is still to be replaced. */
  lemma ReplaceLoopStep(s: string, p: string, n: string, pos: nat, index: int, builder: string)
    requires |p| > 0 && pos <= |s| && index == IndexOfFrom(s, p, pos) && index >= 0
    requires Built(s, p, n, pos, builder)
    ensures pos <= index && index + |p| <= |s|
    ensures Built(s, p, n, index + |p|, builder + s[pos..index] + n)
  {
    ReplaceAllFrom(s, p, n, pos);
    var rest := ReplaceAll(s[index + |p|..], p, n);
    Concat3(builder, s[pos..index], n, rest);
  }

  /** The loop ends when no occurrence is left: the rest stays as it is. */
  lemma ReplaceLoopExit(s: string, p: string, n: string, pos: nat, index: int, builder: string)
    requires |p| > 0 && pos <= |s| && index == IndexOfFrom(s, p, pos) && index < 0
    requires Built(s, p, n, pos, builder)
    ensures builder + s[pos..] == ReplaceAll(s, p, n)
  {
    ReplaceAllFrom(s, p, n, pos);
  }

  lemma Concat3<T>(a: seq<T>, b: seq<T>, c: seq<T>, d: seq<T>)
    ensures a + b + c + d == a + (b + c + d)
  {
  }

  /** With no occurrence of the pattern, `replace` returns its input. */
  lemma ReplaceWithoutOccurrence(s: string, pattern: string, replacement: string)
    requires |pattern| > 0
    requires IndexOfFrom(s, pattern, 0) == -1
    ensures ReplaceAll(s, pattern, replacement) == s
  {
    ReplaceAllFrom(s, pattern, replacement, 0);
    assert s[0..] == s;
  }
}
