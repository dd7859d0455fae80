/** `LocalConfigResourceLocator.LocationSegmentPickup`: the optional
    `{key}` and `(priority)` segments at the head of a location descriptor
    are checked, extracted and cut out of the location. */
module LocationPickup {
  import opened Wrappers
  import opened Text
  import opened PriorityOrder

  const KeyPrefix: char := '{'
  const KeySuffix: char := '}'
  const PriorityPrefix: char := '('
  const PrioritySuffix: char := ')'

  /** Why locating failed: the malformed and incomplete cases of
      `ConfigLocateException`, and the out-of-range `substring` the pickup
      as written can run into. */
  datatype LocateError =
    | DuplicateSymbol(symbol: char)
    | ReversedSymbols(prefix: char, suffix: char)
    | OutOfOrder
    | PriorityNotNumber
    | Incomplete
    | IndexOutOfBounds

  /** What the pickup leaves: the location without its segments, the key
      and the priority (null unless given). */
  datatype Picked = Picked(location: string, key: Option<string>, priority: Priority)

  predicate IsSymbol(c: char) {
    c == KeyPrefix || c == KeySuffix || c == PriorityPrefix || c == PrioritySuffix
  }

  /** Text without any segment symbol. */
  predicate Plain(s: string) {
    forall i :: 0 <= i < |s| ==> !IsSymbol(s[i])
  }

  /** `c` occurs at least twice in `s`. */
  predicate Twice(s: string, c: char) {
    exists i, j :: 0 <= i < j < |s| && s[i] == c && s[j] == c
  }

  /** The first and the last index of a character agree exactly when it
      does not occur twice. */
  lemma FirstIsLast(s: string, c: char)
    ensures IndexOf(s, c) == LastIndexOf(s, c) <==> !Twice(s, c)
  {
    var first, last := IndexOf(s, c), LastIndexOf(s, c);
    if Twice(s, c) {
      var i, j :| 0 <= i < j < |s| && s[i] == c && s[j] == c;
      assert first <= i && j <= last;
    } else {
      if first >= 0 {
        assert s[first] == c && first <= last && s[last] == c;
      }
    }
  }

  // ----- setup checks -----

  /** `checkSetup` as written: whether a segment is set up, given the first
      and last indices of its prefix and suffix (-1 when absent). */
  function CheckSetup(prefixIndex: int, prefixLastIndex: int, suffixIndex: int, suffixLastIndex: int,
                      prefix: char, suffix: char): (r: Result<bool, LocateError>)
    ensures r == Ok(false) <==> prefixIndex == -1 && suffixIndex == -1
    ensures r == Ok(true) ==>
      prefixIndex == prefixLastIndex && suffixIndex == suffixLastIndex && prefixIndex <= suffixIndex
    ensures r.Err? ==> r.error in {DuplicateSymbol(prefix), DuplicateSymbol(suffix), ReversedSymbols(prefix, suffix)}
  {
    if prefixIndex == -1 && suffixIndex == -1 then Ok(false)
    else if prefixIndex != prefixLastIndex then Err(DuplicateSymbol(prefix))
    else if suffixIndex != suffixLastIndex then Err(DuplicateSymbol(suffix))
    else if prefixIndex > suffixIndex then Err(ReversedSymbols(prefix, suffix))
    else Ok(true)
  }

  /** `checkSetup` corrected: a suffix without its prefix counts as
      reversed, like a prefix without its suffix. */
  function CheckSetupFixed(prefixIndex: int, prefixLastIndex: int, suffixIndex: int, suffixLastIndex: int,
                           prefix: char, suffix: char): (r: Result<bool, LocateError>)
    ensures r == Ok(false) <==> prefixIndex == -1 && suffixIndex == -1
    ensures r == Ok(true) ==>
      0 <= prefixIndex == prefixLastIndex && suffixIndex == suffixLastIndex && prefixIndex <= suffixIndex
    ensures r.Err? ==> r.error in {DuplicateSymbol(prefix), DuplicateSymbol(suffix), ReversedSymbols(prefix, suffix)}
  {
    var r := CheckSetup(prefixIndex, prefixLastIndex, suffixIndex, suffixLastIndex, prefix, suffix);
    if r == Ok(true) && prefixIndex < 0 then Err(ReversedSymbols(prefix, suffix)) else r
  }

  /** A segment's symbols are well placed: neither occurs, or each occurs
      once with the prefix first. */
  predicate Paired(s: string, prefix: char, suffix: char) {
    (prefix !in s && suffix !in s) ||
    (prefix in s && suffix in s && !Twice(s, prefix) && !Twice(s, suffix) &&
     IndexOf(s, prefix) < IndexOf(s, suffix))
  }

  /** The corrected check of one segment of `s`. */
  function SetupFixed(s: string, prefix: char, suffix: char): (r: Result<bool, LocateError>)
    requires prefix != suffix
    ensures r.Ok? <==> Paired(s, prefix, suffix)
    ensures r == Ok(true) <==> prefix in s && Paired(s, prefix, suffix)
    ensures r.Err? && r.error.DuplicateSymbol? ==> Twice(s, r.error.symbol)
    ensures r.Err? ==> r.error in {DuplicateSymbol(prefix), DuplicateSymbol(suffix), ReversedSymbols(prefix, suffix)}
  {
    FirstIsLast(s, prefix);
    FirstIsLast(s, suffix);
    CheckSetupFixed(IndexOf(s, prefix), LastIndexOf(s, prefix), IndexOf(s, suffix), LastIndexOf(s, suffix),
                    prefix, suffix)
  }

  // ----- pickup -----

  /** A delimiter of one segment strictly inside the other's range. */
  predicate Overlap(keyPrefix: int, keySuffix: int, priorityPrefix: int, prioritySuffix: int) {
    (priorityPrefix < keyPrefix < prioritySuffix) || (priorityPrefix < keySuffix < prioritySuffix) ||
    (keyPrefix < priorityPrefix < keySuffix) || (keyPrefix < prioritySuffix < keySuffix)
  }

  /** A key segment without its braces. */
  function KeyText(segment: string): string {
    RemoveChar(RemoveChar(segment, KeyPrefix), KeySuffix)
  }

  /** A priority segment without its parentheses. */
  function PriorityText(segment: string): string {
    RemoveChar(RemoveChar(segment, PriorityPrefix), PrioritySuffix)
  }

  /** A blank key is no key. */
  function KeyOf(text: string): (r: Option<string>)
    ensures r.Some? <==> !AllWhitespace(text)
    ensures r.Some? ==> r.value == text
  {
    if AllWhitespace(text) then None else Some(text)
  }

  /** A blank priority is none; otherwise the trimmed text must parse as a
      number. */
  function PriorityOf(text: string, parseDouble: string -> Option<real>): (r: Result<Priority, LocateError>)
    ensures r.Err? <==> !AllWhitespace(text) && parseDouble(Trim(text)).None?
    ensures r.Err? ==> r.error == PriorityNotNumber
    ensures r.Ok? ==> (r.value.None? <==> AllWhitespace(text))
    ensures r.Ok? && r.value.Some? ==> parseDouble(Trim(text)) == r.value
  {
    if AllWhitespace(text) then Ok(None)
    else match parseDouble(Trim(text))
      case None => Err(PriorityNotNumber)
      case Some(v) => Ok(Some(v))
  }

  /** The body of `pickup` once both segments are checked: the order
      check, then the key segment, then the priority segment, each cut out
      of the location and the rest trimmed; a segment whose prefix index
      is -1 makes `substring` fail. */
  function Extract(original: string, keySetup: bool, kp: int, ks: int,
                   prioritySetup: bool, pp: int, ps: int,
                   parseDouble: string -> Option<real>): (r: Result<Picked, LocateError>)
    requires -1 <= kp < |original| && -1 <= ks < |original| && -1 <= pp < |original| && -1 <= ps < |original|
    requires keySetup ==> kp <= ks
    requires prioritySetup ==> pp <= ps
    ensures !keySetup && !prioritySetup ==> r == Ok(Picked(original, None, None))
    ensures r == Err(IndexOutOfBounds) ==> (keySetup && kp < 0) || (prioritySetup && pp < 0)
    ensures keySetup && prioritySetup ==> (r == Err(OutOfOrder) <==> Overlap(kp, ks, pp, ps))
    ensures r.Err? ==> r.error in {OutOfOrder, IndexOutOfBounds, PriorityNotNumber, Incomplete}
  {
    if !keySetup && !prioritySetup then Ok(Picked(original, None, None))
    else if keySetup && prioritySetup && Overlap(kp, ks, pp, ps) then Err(OutOfOrder)
    else if keySetup && kp < 0 then Err(IndexOutOfBounds)
    else
      var keySegment := if keySetup then original[kp..ks + 1] else [];
      var key := if keySetup then KeyOf(KeyText(keySegment)) else None;
      var afterKey := if keySetup then Trim(ReplaceAll(original, keySegment, [])) else original;
      if prioritySetup && pp < 0 then Err(IndexOutOfBounds)
      else
        var prioritySegment := if prioritySetup then original[pp..ps + 1] else [];
        var priority := if prioritySetup then PriorityOf(PriorityText(prioritySegment), parseDouble) else Ok(None);
        if priority.Err? then Err(priority.error)
        else
          var location := if prioritySetup then Trim(ReplaceAll(afterKey, prioritySegment, [])) else afterKey;
          if AllWhitespace(location) then Err(Incomplete)
          else Ok(Picked(location, key, priority.value))
  }

  /** `pickup` past its two setup checks: the first failed check, or the
      extraction. */
  function AfterChecks(location: string, keyCheck: Result<bool, LocateError>,
                       priorityCheck: Result<bool, LocateError>,
                       parseDouble: string -> Option<real>): (r: Result<Picked, LocateError>)
    requires keyCheck == Ok(true) ==> IndexOf(location, KeyPrefix) <= IndexOf(location, KeySuffix)
    requires priorityCheck == Ok(true) ==> IndexOf(location, PriorityPrefix) <= IndexOf(location, PrioritySuffix)
    ensures keyCheck.Err? ==> r == Err(keyCheck.error)
    ensures keyCheck.Ok? && priorityCheck.Err? ==> r == Err(priorityCheck.error)
    ensures r.Ok? ==> keyCheck.Ok? && priorityCheck.Ok?
    ensures keyCheck == Ok(false) && priorityCheck == Ok(false) ==> r == Ok(Picked(location, None, None))
    ensures r.Err? && keyCheck.Ok? && priorityCheck.Ok? ==> !r.error.DuplicateSymbol?
    ensures r == Err(IndexOutOfBounds) && keyCheck.Ok? && priorityCheck.Ok? ==>
      (keyCheck == Ok(true) && IndexOf(location, KeyPrefix) < 0) ||
      (priorityCheck == Ok(true) && IndexOf(location, PriorityPrefix) < 0)
  {
    match keyCheck
    case Err(e) => Err(e)
    case Ok(keySetup) =>
      match priorityCheck
      case Err(e) => Err(e)
      case Ok(prioritySetup) =>
        Extract(location, keySetup, IndexOf(location, KeyPrefix), IndexOf(location, KeySuffix),
                prioritySetup, IndexOf(location, PriorityPrefix), IndexOf(location, PrioritySuffix), parseDouble)
  }

  /** `pickup` as written: the key's "last" indices are taken with
      `indexOf`, so a doubled key symbol goes unnoticed, and a lone closing
      symbol passes the check. */
  function Pickup(location: string, parseDouble: string -> Option<real>): (r: Result<Picked, LocateError>)
    ensures Plain(location) ==> r == Ok(Picked(location, None, None))
  {
    var kp := IndexOf(location, KeyPrefix);
    var ks := IndexOf(location, KeySuffix);
    var keyCheck := CheckSetup(kp, kp, ks, ks, KeyPrefix, KeySuffix);
    var priorityCheck := CheckSetup(IndexOf(location, PriorityPrefix), LastIndexOf(location, PriorityPrefix),
                                    IndexOf(location, PrioritySuffix), LastIndexOf(location, PrioritySuffix),
                                    PriorityPrefix, PrioritySuffix);
    AfterChecks(location, keyCheck, priorityCheck, parseDouble)
  }

  /** `pickup` corrected: both segments are checked with first and last
      indices, and a lone closing symbol is reversed. */
  function PickupFixed(location: string, parseDouble: string -> Option<real>): (r: Result<Picked, LocateError>)
    ensures Plain(location) ==> r == Ok(Picked(location, None, None))
    ensures r != Err(IndexOutOfBounds)
    ensures r.Ok? ==> Paired(location, KeyPrefix, KeySuffix) && Paired(location, PriorityPrefix, PrioritySuffix)
    ensures r.Err? && r.error.DuplicateSymbol? ==> Twice(location, r.error.symbol)
  {
    AfterChecks(location, SetupFixed(location, KeyPrefix, KeySuffix),
                SetupFixed(location, PriorityPrefix, PrioritySuffix), parseDouble)
  }

  /** With both segments well paired, the order is rejected exactly when
      a symbol of one lies strictly inside the other. */
  lemma PickupFixedOrder(location: string, parseDouble: string -> Option<real>)
    requires KeyPrefix in location && Paired(location, KeyPrefix, KeySuffix)
    requires PriorityPrefix in location && Paired(location, PriorityPrefix, PrioritySuffix)
    ensures PickupFixed(location, parseDouble) == Err(OutOfOrder) <==>
      Overlap(IndexOf(location, KeyPrefix), IndexOf(location, KeySuffix),
              IndexOf(location, PriorityPrefix), IndexOf(location, PrioritySuffix))
  {
  }

  // ----- descriptors written out -----

  /** `[prefix] + text + [suffix]`. */
  function Segment(prefix: char, text: string, suffix: char): string {
    [prefix] + text + [suffix]
  }

  /** A descriptor written out: an optional key segment, an optional
      priority segment, then the rest of the location. */
  function Render(key: Option<string>, priority: Option<string>, rest: string): string {
    (if key.Some? then Segment(KeyPrefix, key.value, KeySuffix) else []) +
    (if priority.Some? then Segment(PriorityPrefix, priority.value, PrioritySuffix) else []) + rest
  }

  /** What picking up a written-out descriptor gives back: without
      segments the location as it is; otherwise the trimmed rest, which
      must not be blank, the key unless blank, and the priority parsed
      unless blank. */
  function Expected(key: Option<string>, priority: Option<string>, rest: string,
                    parseDouble: string -> Option<real>): Result<Picked, LocateError>
  {
    if key.None? && priority.None? then Ok(Picked(rest, None, None))
    else
      var p := if priority.Some? then PriorityOf(priority.value, parseDouble) else Ok(None);
      if p.Err? then Err(p.error)
      else if AllWhitespace(Trim(rest)) then Err(Incomplete)
      else Ok(Picked(Trim(rest), if key.Some? then KeyOf(key.value) else None, p.value))
  }

  /** `c` occurs in `s` at `i` and nowhere else. */
  predicate Sole(s: string, c: char, i: int) {
    0 <= i < |s| && s[i] == c && forall j :: 0 <= j < |s| && j != i ==> s[j] != c
  }

  lemma SoleIndex(s: string, c: char, i: int)
    requires Sole(s, c, i)
    ensures IndexOf(s, c) == i && LastIndexOf(s, c) == i
  {
    IndexOfIs(s, c, i);
    LastIndexOfIs(s, c, i);
  }

  lemma SoleAfter(u: string, x: string, c: char, i: int)
    requires c !in u && Sole(x, c, i)
    ensures Sole(u + x, c, |u| + i)
  {
    var s := u + x;
    forall j | 0 <= j < |s| && j != |u| + i
      ensures s[j] != c
    {
      if j >= |u| {
        assert s[j] == x[j - |u|];
      }
    }
  }

  /** A segment around plain text holds its two symbols once each and no
      other symbol. */
  lemma SegmentSymbols(prefix: char, text: string, suffix: char, x: string)
    requires IsSymbol(prefix) && IsSymbol(suffix) && prefix != suffix && Plain(text)
    requires prefix !in x && suffix !in x
    ensures Sole(Segment(prefix, text, suffix) + x, prefix, 0)
    ensures Sole(Segment(prefix, text, suffix) + x, suffix, |text| + 1)
    ensures forall c :: IsSymbol(c) && c != prefix && c != suffix ==> c !in Segment(prefix, text, suffix)
  {
    var g := Segment(prefix, text, suffix);
    var s := g + x;
    forall j | 0 <= j < |s|
      ensures s[j] == prefix <==> j == 0
      ensures s[j] == suffix <==> j == |text| + 1
    {
      if 0 < j <= |text| {
        assert s[j] == text[j - 1];
      } else if j > |text| + 1 {
        assert s[j] == x[j - |g|];
      }
    }
    forall c | IsSymbol(c) && c != prefix && c != suffix
      ensures c !in g
    {
      forall j | 0 <= j < |g|
        ensures g[j] != c
      {
        if 0 < j <= |text| {
          assert g[j] == text[j - 1];
        }
      }
    }
  }

  /** Removing a segment's opening symbol leaves its text and closing symbol. */
  lemma RemoveOpening(prefix: char, text: string, suffix: char)
    requires prefix != suffix && prefix !in text
    ensures RemoveChar(Segment(prefix, text, suffix), prefix) == text + [suffix]
  {
    RemoveCharAppend([prefix] + text, [suffix], prefix);
    RemoveCharAppend([prefix], text, prefix);
    assert RemoveChar([prefix], prefix) == [];
    assert RemoveChar([suffix], prefix) == [suffix];
    assert [] + text + [suffix] == text + [suffix];
  }

  /** Removing a trailing symbol absent from the text leaves the text. */
  lemma RemoveClosing(text: string, suffix: char)
    requires suffix !in text
    ensures RemoveChar(text + [suffix], suffix) == text
  {
    RemoveCharAppend(text, [suffix], suffix);
    assert RemoveChar([suffix], suffix) == [];
    assert text + [] == text;
  }

  /** Removing a segment's symbols leaves its plain text. */
  lemma SegmentText(prefix: char, text: string, suffix: char)
    requires IsSymbol(prefix) && IsSymbol(suffix) && prefix != suffix && Plain(text)
    ensures RemoveChar(RemoveChar(Segment(prefix, text, suffix), prefix), suffix) == text
  {
    RemoveOpening(prefix, text, suffix);
    RemoveClosing(text, suffix);
  }

  lemma PlainAbsent(s: string)
    requires Plain(s)
    ensures KeyPrefix !in s && KeySuffix !in s && PriorityPrefix !in s && PrioritySuffix !in s
  {
  }

  /** Where the symbols of a key segment followed by plain text are. */
  lemma KeyOnlyShape(s: string, k: string, rest: string)
    requires Plain(k) && Plain(rest) && s == Segment(KeyPrefix, k, KeySuffix) + rest
    ensures IndexOf(s, KeyPrefix) == 0 && IndexOf(s, KeySuffix) == |k| + 1
    ensures IndexOf(s, PriorityPrefix) == -1 && IndexOf(s, PrioritySuffix) == -1
    ensures SetupFixed(s, KeyPrefix, KeySuffix) == Ok(true)
    ensures SetupFixed(s, PriorityPrefix, PrioritySuffix) == Ok(false)
  {
    PlainAbsent(rest);
    SegmentSymbols(KeyPrefix, k, KeySuffix, rest);
    SoleIndex(s, KeyPrefix, 0);
    SoleIndex(s, KeySuffix, |k| + 1);
    assert PriorityPrefix !in s && PrioritySuffix !in s;
  }

  /** Extraction of a key segment followed by plain text. */
  lemma ExtractKeyOnly(s: string, k: string, rest: string, parseDouble: string -> Option<real>)
    requires Plain(k) && Plain(rest) && s == Segment(KeyPrefix, k, KeySuffix) + rest
    ensures IndexOf(s, KeyPrefix) <= IndexOf(s, KeySuffix)
    ensures Extract(s, true, IndexOf(s, KeyPrefix), IndexOf(s, KeySuffix),
                    false, IndexOf(s, PriorityPrefix), IndexOf(s, PrioritySuffix), parseDouble) ==
      if AllWhitespace(Trim(rest)) then Err(Incomplete) else Ok(Picked(Trim(rest), KeyOf(k), None))
  {
    KeyOnlyShape(s, k, rest);
    var a := Segment(KeyPrefix, k, KeySuffix);
    assert s[0..|k| + 2] == a;
    SegmentText(KeyPrefix, k, KeySuffix);
    PlainAbsent(rest);
    RemoveLeading(a, rest);
  }

  /** A key segment, then plain text. */
  lemma PickupKeyOnly(k: string, rest: string, parseDouble: string -> Option<real>)
    requires Plain(k) && Plain(rest)
    ensures PickupFixed(Render(Some(k), None, rest), parseDouble) == Expected(Some(k), None, rest, parseDouble)
  {
    var s := Segment(KeyPrefix, k, KeySuffix) + rest;
    assert Render(Some(k), None, rest) == s;
    KeyOnlyShape(s, k, rest);
    ExtractKeyOnly(s, k, rest, parseDouble);
  }

  /** Where the symbols of a priority segment followed by plain text are. */
  lemma PriorityOnlyShape(s: string, p: string, rest: string)
    requires Plain(p) && Plain(rest) && s == Segment(PriorityPrefix, p, PrioritySuffix) + rest
    ensures IndexOf(s, KeyPrefix) == -1 && IndexOf(s, KeySuffix) == -1
    ensures IndexOf(s, PriorityPrefix) == 0 && IndexOf(s, PrioritySuffix) == |p| + 1
    ensures SetupFixed(s, KeyPrefix, KeySuffix) == Ok(false)
    ensures SetupFixed(s, PriorityPrefix, PrioritySuffix) == Ok(true)
  {
    PlainAbsent(rest);
    SegmentSymbols(PriorityPrefix, p, PrioritySuffix, rest);
    SoleIndex(s, PriorityPrefix, 0);
    SoleIndex(s, PrioritySuffix, |p| + 1);
    assert KeyPrefix !in s && KeySuffix !in s;
  }

  /** Extraction of a priority segment followed by plain text. */
  lemma ExtractPriorityOnly(s: string, p: string, rest: string, parseDouble: string -> Option<real>)
    requires Plain(p) && Plain(rest) && s == Segment(PriorityPrefix, p, PrioritySuffix) + rest
    ensures IndexOf(s, PriorityPrefix) <= IndexOf(s, PrioritySuffix)
    ensures var pr := PriorityOf(p, parseDouble);
      Extract(s, false, IndexOf(s, KeyPrefix), IndexOf(s, KeySuffix),
              true, IndexOf(s, PriorityPrefix), IndexOf(s, PrioritySuffix), parseDouble) ==
        if pr.Err? then Err(pr.error)
        else if AllWhitespace(Trim(rest)) then Err(Incomplete)
        else Ok(Picked(Trim(rest), None, pr.value))
  {
    PriorityOnlyShape(s, p, rest);
    var b := Segment(PriorityPrefix, p, PrioritySuffix);
    assert s[0..|p| + 2] == b;
    SegmentText(PriorityPrefix, p, PrioritySuffix);
    PlainAbsent(rest);
    RemoveLeading(b, rest);
  }

  /** A priority segment, then plain text. */
  lemma PickupPriorityOnly(p: string, rest: string, parseDouble: string -> Option<real>)
    requires Plain(p) && Plain(rest)
    ensures PickupFixed(Render(None, Some(p), rest), parseDouble) == Expected(None, Some(p), rest, parseDouble)
  {
    var s := Segment(PriorityPrefix, p, PrioritySuffix) + rest;
    assert Render(None, Some(p), rest) == s;
    PriorityOnlyShape(s, p, rest);
    ExtractPriorityOnly(s, p, rest, parseDouble);
  }

  /** Where the symbols of a key segment, a priority segment and plain
      text are. */
  lemma BothShape(s: string, k: string, p: string, rest: string)
    requires Plain(k) && Plain(p) && Plain(rest)
    requires s == Segment(KeyPrefix, k, KeySuffix) + (Segment(PriorityPrefix, p, PrioritySuffix) + rest)
    ensures IndexOf(s, KeyPrefix) == 0 && IndexOf(s, KeySuffix) == |k| + 1
    ensures IndexOf(s, PriorityPrefix) == |k| + 2 && IndexOf(s, PrioritySuffix) == |k| + |p| + 3
    ensures SetupFixed(s, KeyPrefix, KeySuffix) == Ok(true)
    ensures SetupFixed(s, PriorityPrefix, PrioritySuffix) == Ok(true)
  {
    var a := Segment(KeyPrefix, k, KeySuffix);
    var tail := Segment(PriorityPrefix, p, PrioritySuffix) + rest;
    PlainAbsent(rest);
    SegmentSymbols(PriorityPrefix, p, PrioritySuffix, rest);
    assert KeyPrefix !in tail && KeySuffix !in tail;
    SegmentSymbols(KeyPrefix, k, KeySuffix, tail);
    SoleAfter(a, tail, PriorityPrefix, 0);
    SoleAfter(a, tail, PrioritySuffix, |p| + 1);
    SoleIndex(s, KeyPrefix, 0);
    SoleIndex(s, KeySuffix, |k| + 1);
    SoleIndex(s, PriorityPrefix, |a|);
    SoleIndex(s, PrioritySuffix, |a| + |p| + 1);
  }

  /** Cutting the priority segment out of the trimmed remainder leaves the
      trimmed rest. */
  lemma CutPriority(b: string, rest: string)
    requires |b| > 0 && !IsTrimmable(b[0]) && !IsTrimmable(b[|b| - 1]) && b[0] !in rest
    ensures Trim(ReplaceAll(Trim(b + rest), b, [])) == Trim(rest)
  {
    TrimEnclosed(b, rest);
    var cut := TrimEnd(rest);
    assert cut == rest[..|cut|];
    assert b[0] !in cut;
    RemoveLeading(b, cut);
    TrimAfterTrimEnd(rest);
  }

  /** Extraction of a key segment, a priority segment and plain text. */
  lemma ExtractBoth(s: string, k: string, p: string, rest: string, kp: int, ks: int, pp: int, ps: int,
                    parseDouble: string -> Option<real>)
    requires Plain(k) && Plain(p) && Plain(rest)
    requires s == Segment(KeyPrefix, k, KeySuffix) + (Segment(PriorityPrefix, p, PrioritySuffix) + rest)
    requires kp == 0 && ks == |k| + 1 && pp == |k| + 2 && ps == |k| + |p| + 3
    ensures var pr := PriorityOf(p, parseDouble);
      Extract(s, true, kp, ks, true, pp, ps, parseDouble) ==
        if pr.Err? then Err(pr.error)
        else if AllWhitespace(Trim(rest)) then Err(Incomplete)
        else Ok(Picked(Trim(rest), KeyOf(k), pr.value))
  {
    var a := Segment(KeyPrefix, k, KeySuffix);
    var b := Segment(PriorityPrefix, p, PrioritySuffix);
    var tail := b + rest;
    assert !Overlap(kp, ks, pp, ps);
    assert s[kp..ks + 1] == a;
    assert s[pp..ps + 1] == b;
    SegmentText(KeyPrefix, k, KeySuffix);
    SegmentText(PriorityPrefix, p, PrioritySuffix);
    assert KeyText(a) == k && PriorityText(b) == p;
    PlainAbsent(rest);
    assert KeyPrefix !in tail by {
      SegmentSymbols(PriorityPrefix, p, PrioritySuffix, rest);
    }
    RemoveLeading(a, tail);
    assert Trim(ReplaceAll(s, a, [])) == Trim(tail);
    CutPriority(b, rest);
    assert Trim(ReplaceAll(Trim(tail), b, [])) == Trim(rest);
  }

  /** A key segment, a priority segment, then plain text. */
  lemma PickupBoth(k: string, p: string, rest: string, parseDouble: string -> Option<real>)
    requires Plain(k) && Plain(p) && Plain(rest)
    ensures PickupFixed(Render(Some(k), Some(p), rest), parseDouble) == Expected(Some(k), Some(p), rest, parseDouble)
  {
    var s := Segment(KeyPrefix, k, KeySuffix) + (Segment(PriorityPrefix, p, PrioritySuffix) + rest);
    assert Render(Some(k), Some(p), rest) == s;
    BothShape(s, k, p, rest);
    ExtractBoth(s, k, p, rest, IndexOf(s, KeyPrefix), IndexOf(s, KeySuffix),
                IndexOf(s, PriorityPrefix), IndexOf(s, PrioritySuffix), parseDouble);
  }

  /** Picking up a written-out descriptor gives back its parts: the
      corrected pickup inverts `Render` on plain key, priority and rest. */
  lemma PickupRender(key: Option<string>, priority: Option<string>, rest: string,
                     parseDouble: string -> Option<real>)
    requires key.Some? ==> Plain(key.value)
    requires priority.Some? ==> Plain(priority.value)
    requires Plain(rest)
    ensures PickupFixed(Render(key, priority, rest), parseDouble) == Expected(key, priority, rest, parseDouble)
  {
    match (key, priority)
    case (Some(k), Some(p)) => PickupBoth(k, p, rest, parseDouble);
    case (Some(k), None) => PickupKeyOnly(k, rest, parseDouble);
    case (None, Some(p)) => PickupPriorityOnly(p, rest, parseDouble);
    case (None, None) =>
      assert Render(key, priority, rest) == rest;
  }

  // ----- where the pickup as written goes astray -----

  /** Where the symbols of a doubled key prefix are. */
  lemma DoubledShape(s: string, k: string, rest: string)
    requires Plain(k) && Plain(rest) && s == [KeyPrefix] + (Segment(KeyPrefix, k, KeySuffix) + rest)
    ensures IndexOf(s, KeyPrefix) == 0 && LastIndexOf(s, KeyPrefix) == 1
    ensures IndexOf(s, KeySuffix) == |k| + 2
    ensures IndexOf(s, PriorityPrefix) == -1 && LastIndexOf(s, PriorityPrefix) == -1
    ensures IndexOf(s, PrioritySuffix) == -1 && LastIndexOf(s, PrioritySuffix) == -1
  {
    var a := Segment(KeyPrefix, k, KeySuffix);
    PlainAbsent(rest);
    SegmentSymbols(KeyPrefix, k, KeySuffix, rest);
    SoleAfter([KeyPrefix], a + rest, KeySuffix, |k| + 1);
    SoleIndex(s, KeySuffix, |k| + 2);
    IndexOfIs(s, KeyPrefix, 0);
    assert s[1..] == a + rest;
    LastIndexOfIs(s, KeyPrefix, 1);
    assert PriorityPrefix !in s && PrioritySuffix !in s;
  }

  /** Extraction of a doubled key prefix: both braces go, and so does the
      whole segment. */
  lemma ExtractDoubled(s: string, k: string, rest: string, kp: int, ks: int, pp: int, ps: int,
                       parseDouble: string -> Option<real>)
    requires Plain(k) && Plain(rest) && s == [KeyPrefix] + (Segment(KeyPrefix, k, KeySuffix) + rest)
    requires kp == 0 && ks == |k| + 2 && pp == -1 && ps == -1
    ensures Extract(s, true, kp, ks, false, pp, ps, parseDouble) ==
      if AllWhitespace(Trim(rest)) then Err(Incomplete) else Ok(Picked(Trim(rest), KeyOf(k), None))
  {
    var a := Segment(KeyPrefix, k, KeySuffix);
    var seg := [KeyPrefix] + a;
    assert s == seg + rest;
    assert s[kp..ks + 1] == seg;
    assert KeyText(seg) == k by {
      RemoveCharAppend([KeyPrefix], a, KeyPrefix);
      assert RemoveChar([KeyPrefix], KeyPrefix) == [];
      assert [] + RemoveChar(a, KeyPrefix) == RemoveChar(a, KeyPrefix);
      SegmentText(KeyPrefix, k, KeySuffix);
    }
    PlainAbsent(rest);
    RemoveLeading(seg, rest);
    assert Trim(ReplaceAll(s, seg, [])) == Trim(rest);
  }

  /** A doubled key prefix as written: the key check looks at first
      indices only, so `{{k}rest` passes and yields key `k`; corrected, it
      is reported as a duplicate symbol. */
  lemma DoubledKeyPrefixAsWritten(k: string, rest: string, parseDouble: string -> Option<real>)
    requires Plain(k) && Plain(rest)
    ensures var s := [KeyPrefix] + (Segment(KeyPrefix, k, KeySuffix) + rest);
      Pickup(s, parseDouble) == Expected(Some(k), None, rest, parseDouble) &&
      PickupFixed(s, parseDouble) == Err(DuplicateSymbol(KeyPrefix))
  {
    var s := [KeyPrefix] + (Segment(KeyPrefix, k, KeySuffix) + rest);
    DoubledShape(s, k, rest);
    ExtractDoubled(s, k, rest, IndexOf(s, KeyPrefix), IndexOf(s, KeySuffix),
                   IndexOf(s, PriorityPrefix), IndexOf(s, PrioritySuffix), parseDouble);
  }

  /** A lone closing parenthesis as written: the check lets it through as
      a set-up segment whose prefix index is -1, and `substring(-1, ..)`
      fails; corrected, it is reported as reversed. */
  lemma LoneClosingAsWritten(s: string, parseDouble: string -> Option<real>)
    requires KeyPrefix !in s && KeySuffix !in s && PriorityPrefix !in s
    requires PrioritySuffix in s && !Twice(s, PrioritySuffix)
    ensures Pickup(s, parseDouble) == Err(IndexOutOfBounds)
    ensures PickupFixed(s, parseDouble) == Err(ReversedSymbols(PriorityPrefix, PrioritySuffix))
  {
    FirstIsLast(s, PrioritySuffix);
    assert IndexOf(s, PriorityPrefix) == -1 && LastIndexOf(s, PriorityPrefix) == -1;
    assert IndexOf(s, KeyPrefix) == -1 && IndexOf(s, KeySuffix) == -1;
    assert IndexOf(s, PrioritySuffix) >= 0;
  }

  /** Where neither finding applies, the pickup as written and the
      corrected one agree: no key symbol occurs twice and no closing
      symbol occurs without its opening one. */
  lemma PickupAgrees(s: string, parseDouble: string -> Option<real>)
    requires !Twice(s, KeyPrefix) && !Twice(s, KeySuffix)
    requires KeySuffix in s ==> KeyPrefix in s
    requires PrioritySuffix in s ==> PriorityPrefix in s
    ensures Pickup(s, parseDouble) == PickupFixed(s, parseDouble)
  {
    FirstIsLast(s, KeyPrefix);
    FirstIsLast(s, KeySuffix);
    var kp, ks := IndexOf(s, KeyPrefix), IndexOf(s, KeySuffix);
    assert CheckSetup(kp, kp, ks, ks, KeyPrefix, KeySuffix) == SetupFixed(s, KeyPrefix, KeySuffix);
    assert CheckSetup(IndexOf(s, PriorityPrefix), LastIndexOf(s, PriorityPrefix),
                      IndexOf(s, PrioritySuffix), LastIndexOf(s, PrioritySuffix),
                      PriorityPrefix, PrioritySuffix) == SetupFixed(s, PriorityPrefix, PrioritySuffix);
  }
}
