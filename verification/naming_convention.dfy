/** `NamingConvention` of the core module: converting between camelCase
    and separated names (snake_case, kebab-case or any one-character
    separator), and swapping one separator for another. ASCII only: a
    character is "upper" when lower-casing changes it. */
module NamingConvention {
  import opened Wrappers
  import opened Text

  /** How the characters of the result are cased (`MODE_KEEP`,
      `MODE_LOWER`, `MODE_UPPER`). */
  datatype CaseMode = Keep | LowerCase | UpperCase

  const SnakeSeparator: char := '_'
  const KebabSeparator: char := '-'

  /** One input character as the result spells it. */
  function Emit(c: char, mode: CaseMode): char {
    match mode
    case Keep => c
    case LowerCase => LowerChar(c)
    case UpperCase => UpperChar(c)
  }

  /** Every character of `s` spelled per `mode`. */
  function ApplyMode(s: string, mode: CaseMode): (r: string)
    ensures |r| == |s|
    ensures forall i :: 0 <= i < |s| ==> r[i] == Emit(s[i], mode)
  {
    match mode
    case Keep => s
    case LowerCase => Lower(s)
    case UpperCase => Upper(s)
  }

  // ----- camel case to separated: the declarative reading -----

  /** The result of `camel2Separator` holds a separator right before the
      `k`-th input character when that character is upper case and either
      starts a run of upper-case characters (not at index 0), or is the
      last letter of a run of two or more that a non-upper character
      follows. */
  predicate SepBefore(t: string, k: nat)
    requires k < |t|
  {
    (k > 0 && IsUpper(t[k]) && !IsUpper(t[k - 1]))
    || (k >= 1 && k + 1 < |t| && IsUpper(t[k - 1]) && IsUpper(t[k]) && !IsUpper(t[k + 1]))
  }

  /** What the `k`-th input character contributes to the result. */
  function Piece(t: string, k: nat, sep: char, mode: CaseMode): string
    requires k < |t|
  {
    (if SepBefore(t, k) then [sep] else []) + [Emit(t[k], mode)]
  }

  /** The contributions of the first `m` input characters. */
  function PiecesUpTo(t: string, m: nat, sep: char, mode: CaseMode): (r: string)
    requires m <= |t|
    ensures |r| >= m
  {
    if m == 0 then [] else PiecesUpTo(t, m - 1, sep, mode) + Piece(t, m - 1, sep, mode)
  }

  /** The separated form of `t`: every piece, in order. */
  function Separated(t: string, sep: char, mode: CaseMode): (r: string)
    ensures |r| >= |t|
  {
    PiecesUpTo(t, |t|, sep, mode)
  }

  /** The length of the run of upper-case characters ending `t`. */
  function TrailingUpper(t: string): (r: nat)
    ensures r <= |t|
  {
    if t == [] || !IsUpper(t[|t| - 1]) then 0 else 1 + TrailingUpper(t[..|t| - 1])
  }

  // ----- camel case to separated: the scan of the source -----

  /** The loop state of `camel2Separator`: the builder and `upperCount`. */
  datatype ScanState = ScanState(builder: string, upperCount: nat)

  /** One turn of the loop over the character `c` at index `i`: a
      non-upper character ending a run of two or more upper-case ones
      first inserts the separator before the builder's last character; an
      upper-case one starting a run (past index 0) first appends the
      separator; then the character is appended per `mode`. */
  function Step(st: ScanState, c: char, i: nat, sep: char, mode: CaseMode): (r: ScanState)
    requires st.upperCount <= |st.builder|
    ensures r.upperCount <= |r.builder|
  {
    if !IsUpper(c) then
      var b := st.builder;
      var b := if st.upperCount > 1 then b[..|b| - 1] + [sep] + [b[|b| - 1]] else b;
      ScanState(b + [Emit(c, mode)], 0)
    else
      var b := if st.upperCount == 0 && i > 0 then st.builder + [sep] else st.builder;
      ScanState(b + [Emit(c, mode)], st.upperCount + 1)
  }

  /** The loop of `camel2Separator`, from index `i` on with the remaining
      characters `t`. */
  function Loop(st: ScanState, t: string, i: nat, sep: char, mode: CaseMode): ScanState
    requires st.upperCount <= |st.builder|
    decreases |t|
  {
    if t == [] then st else Loop(Step(st, t[0], i, sep, mode), t[1..], i + 1, sep, mode)
  }

  /** The loop run over all of `t`, built up one character at a time at the
      end; its builder is the separated form and its counter the trailing
      upper-case run. */
  function Scan(t: string, sep: char, mode: CaseMode): (r: ScanState)
    ensures r.builder == Separated(t, sep, mode)
    ensures r.upperCount == TrailingUpper(t)
    decreases |t|
  {
    if t == [] then ScanState([], 0)
    else
      var p := t[..|t| - 1];
      var c := t[|t| - 1];
      assert p + [c] == t;
      var st := Scan(p, sep, mode);
      StepExtends(p, c, sep, mode);
      Step(st, c, |p|, sep, mode)
  }

  /** The pieces of the first `m` characters do not depend on what follows
      character `m`. */
  lemma {:induction false} PiecesUpToPrefix(p: string, c: char, m: nat, sep: char, mode: CaseMode)
    requires m < |p|
    ensures PiecesUpTo(p + [c], m, sep, mode) == PiecesUpTo(p, m, sep, mode)
  {
    if m > 0 {
      PiecesUpToPrefix(p, c, m - 1, sep, mode);
      assert Piece(p + [c], m - 1, sep, mode) == Piece(p, m - 1, sep, mode);
    }
  }

  lemma TrailingUpperFacts(p: string)
    ensures TrailingUpper(p) == 0 <==> (p == [] || !IsUpper(p[|p| - 1]))
    ensures TrailingUpper(p) > 1 <==> (|p| >= 2 && IsUpper(p[|p| - 1]) && IsUpper(p[|p| - 2]))
  {
    if p != [] && IsUpper(p[|p| - 1]) {
      var q := p[..|p| - 1];
      assert q != [] ==> q[|q| - 1] == p[|p| - 2];
    }
  }

  /** Appending a character to the input performs exactly one loop turn on
      the separated form. */
  lemma StepExtends(p: string, c: char, sep: char, mode: CaseMode)
    ensures Step(ScanState(Separated(p, sep, mode), TrailingUpper(p)), c, |p|, sep, mode)
         == ScanState(Separated(p + [c], sep, mode), TrailingUpper(p + [c]))
  {
    var t := p + [c];
    TrailingUpperFacts(p);
    assert t[..|t| - 1] == p;
    assert TrailingUpper(t) == if IsUpper(c) then TrailingUpper(p) + 1 else 0;
    if p == [] {
      assert PiecesUpTo(t, 1, sep, mode) == PiecesUpTo(t, 0, sep, mode) + Piece(t, 0, sep, mode);
    } else if !IsUpper(c) && TrailingUpper(p) > 1 {
      StepInsertCase(p, c, sep, mode);
    } else {
      StepAppendCase(p, c, sep, mode);
    }
  }

  lemma StepInsertCase(p: string, c: char, sep: char, mode: CaseMode)
    requires |p| >= 2 && IsUpper(p[|p| - 1]) && IsUpper(p[|p| - 2]) && !IsUpper(c)
    requires TrailingUpper(p) > 1
    ensures Step(ScanState(Separated(p, sep, mode), TrailingUpper(p)), c, |p|, sep, mode).builder
         == Separated(p + [c], sep, mode)
  {
    StepInsertsSeparator(p, c, sep, mode);
  }

  lemma StepAppendCase(p: string, c: char, sep: char, mode: CaseMode)
    requires p != []
    requires TrailingUpper(p) == 0 <==> !IsUpper(p[|p| - 1])
    requires IsUpper(c) || TrailingUpper(p) <= 1
    requires TrailingUpper(p) > 1 <==> (|p| >= 2 && IsUpper(p[|p| - 1]) && IsUpper(p[|p| - 2]))
    ensures Step(ScanState(Separated(p, sep, mode), TrailingUpper(p)), c, |p|, sep, mode).builder
         == Separated(p + [c], sep, mode)
  {
    var b := Separated(p, sep, mode);
    var n := TrailingUpper(p);
    StepBuilder(b, n, c, |p|, sep, mode);
    StepAppends(p, c, sep, mode);
  }

  /** The builder after a turn that inserts nothing in the middle. */
  lemma StepBuilder(b: string, n: nat, c: char, i: nat, sep: char, mode: CaseMode)
    requires n <= |b| && i > 0
    requires IsUpper(c) || n <= 1
    ensures Step(ScanState(b, n), c, i, sep, mode).builder
         == b + (if IsUpper(c) && n == 0 then [sep] else []) + [Emit(c, mode)]
  {
  }

  /** The separated form of `p + [c]` from that of `p`, around the last
      piece of `p`. */
  lemma SeparatedSnoc(p: string, c: char, sep: char, mode: CaseMode)
    requires p != []
    ensures var n := |p|;
      Separated(p, sep, mode) == PiecesUpTo(p, n - 1, sep, mode) + Piece(p, n - 1, sep, mode)
      && Separated(p + [c], sep, mode)
         == PiecesUpTo(p, n - 1, sep, mode) + Piece(p + [c], n - 1, sep, mode) + Piece(p + [c], n, sep, mode)
  {
    var t := p + [c];
    var n := |p|;
    PiecesUpToPrefix(p, c, n - 1, sep, mode);
    assert PiecesUpTo(t, n + 1, sep, mode) == PiecesUpTo(t, n, sep, mode) + Piece(t, n, sep, mode);
    assert PiecesUpTo(t, n, sep, mode) == PiecesUpTo(t, n - 1, sep, mode) + Piece(t, n - 1, sep, mode);
  }

  lemma StepInsertsSeparator(p: string, c: char, sep: char, mode: CaseMode)
    requires |p| >= 2 && IsUpper(p[|p| - 1]) && IsUpper(p[|p| - 2]) && !IsUpper(c)
    ensures var b := Separated(p, sep, mode);
      |b| >= 1 && Separated(p + [c], sep, mode) == b[..|b| - 1] + [sep] + [b[|b| - 1]] + [Emit(c, mode)]
  {
    var n := |p|;
    var t := p + [c];
    SeparatedSnoc(p, c, sep, mode);
    assert SepBefore(t, n - 1) && !SepBefore(p, n - 1) && !SepBefore(t, n);
    var b := Separated(p, sep, mode);
    assert b[..|b| - 1] == PiecesUpTo(p, n - 1, sep, mode);
  }

  lemma StepAppends(p: string, c: char, sep: char, mode: CaseMode)
    requires p != []
    requires IsUpper(c) || !(|p| >= 2 && IsUpper(p[|p| - 1]) && IsUpper(p[|p| - 2]))
    ensures Separated(p + [c], sep, mode)
         == Separated(p, sep, mode) + (if IsUpper(c) && !IsUpper(p[|p| - 1]) then [sep] else []) + [Emit(c, mode)]
  {
    var n := |p|;
    var t := p + [c];
    SeparatedSnoc(p, c, sep, mode);
    assert SepBefore(t, n - 1) == SepBefore(p, n - 1);
  }

  /** Running the loop on the rest of the input, after the scan of the
      first part, is the scan of the whole input. */
  lemma {:induction false} LoopIsScan(p: string, q: string, sep: char, mode: CaseMode)
    ensures Loop(Scan(p, sep, mode), q, |p|, sep, mode) == Scan(p + q, sep, mode)
    decreases |q|
  {
    if q == [] {
      assert p + q == p;
    } else {
      var p' := p + [q[0]];
      assert p'[..|p'| - 1] == p;
      assert Step(Scan(p, sep, mode), q[0], |p|, sep, mode) == Scan(p', sep, mode);
      LoopIsScan(p', q[1..], sep, mode);
      assert p' + q[1..] == p + q;
    }
  }

  /** `camel2Separator`: null or empty input comes back as it is; otherwise
      the loop's builder, which is the separated form. */
  function Camel2Separator(input: Option<string>, sep: char, mode: CaseMode): (r: Option<string>)
    ensures input == None || input == Some("") ==> r == input
    ensures input != None ==> r == Some(Separated(input.value, sep, mode))
  {
    match input
    case None => None
    case Some(s) =>
      if |s| == 0 then input
      else
        LoopIsScan([], s, sep, mode);
        assert [] + s == s;
        Some(Loop(ScanState([], 0), s, 0, sep, mode).builder)
  }

  // ----- properties of camel2Separator -----

  /** Emitting and casing commute with cutting a string in two. */
  lemma ApplyModeAppend(a: string, b: string, mode: CaseMode)
    ensures ApplyMode(a + b, mode) == ApplyMode(a, mode) + ApplyMode(b, mode)
  {
    var l, r := ApplyMode(a + b, mode), ApplyMode(a, mode) + ApplyMode(b, mode);
    assert forall i :: 0 <= i < |l| ==> l[i] == r[i];
  }

  /** The case modes only respell characters: a separator that casing
      leaves alone ends up where it does when the case is kept. */
  lemma {:induction false} SeparatedInMode(t: string, m: nat, sep: char, mode: CaseMode)
    requires m <= |t|
    requires Emit(sep, mode) == sep
    ensures PiecesUpTo(t, m, sep, mode) == ApplyMode(PiecesUpTo(t, m, sep, Keep), mode)
  {
    if m > 0 {
      SeparatedInMode(t, m - 1, sep, mode);
      var k := m - 1;
      ApplyModeAppend(PiecesUpTo(t, k, sep, Keep), Piece(t, k, sep, Keep), mode);
      var sepPart: string := if SepBefore(t, k) then [sep] else [];
      ApplyModeAppend(sepPart, [t[k]], mode);
    }
  }

  /** Removing the separators from the KEEP-case result gives back the
      input, when the input holds no separator. */
  lemma {:induction false} SeparatorsRemoved(t: string, m: nat, sep: char)
    requires m <= |t|
    requires sep !in t
    ensures RemoveChar(PiecesUpTo(t, m, sep, Keep), sep) == t[..m]
  {
    if m > 0 {
      var k := m - 1;
      SeparatorsRemoved(t, k, sep);
      var prev := PiecesUpTo(t, k, sep, Keep);
      var sepPart: string := if SepBefore(t, k) then [sep] else [];
      assert t[k] != sep;
      assert Piece(t, k, sep, Keep) == sepPart + [t[k]];
      assert PiecesUpTo(t, m, sep, Keep) == prev + (sepPart + [t[k]]);
      RemoveCharAppend(prev, sepPart + [t[k]], sep);
      RemoveCharAppend(sepPart, [t[k]], sep);
      assert RemoveChar(sepPart, sep) == [] by {
        if sepPart != [] {
          assert RemoveChar(sepPart, sep) == [] + RemoveChar(sepPart[1..], sep);
        }
      }
      assert RemoveChar([t[k]], sep) == [t[k]];
      PrefixSnoc(t, k);
    }
  }

  lemma Camel2SeparatorKeepRoundTrip(input: string, sep: char)
    requires sep !in input
    ensures RemoveChar(Camel2Separator(Some(input), sep, Keep).value, sep) == input
  {
    SeparatorsRemoved(input, |input|, sep);
    assert input[..|input|] == input;
  }

  /** The lower- and upper-case results are the KEEP-case result, cased. */
  lemma Camel2SeparatorModes(input: string, sep: char, mode: CaseMode)
    requires !IsLetter(sep)
    ensures Camel2Separator(Some(input), sep, mode).value
         == ApplyMode(Camel2Separator(Some(input), sep, Keep).value, mode)
  {
    SeparatedInMode(input, |input|, sep, mode);
  }

  /** The loop over `a + b` is the loop over `a`, continued over `b`. */
  lemma {:induction false} LoopAppend(st: ScanState, a: string, b: string, i: nat, sep: char, mode: CaseMode)
    requires st.upperCount <= |st.builder|
    ensures Loop(st, a + b, i, sep, mode).upperCount <= |Loop(st, a + b, i, sep, mode).builder|
    ensures Loop(st, a, i, sep, mode).upperCount <= |Loop(st, a, i, sep, mode).builder|
    ensures Loop(st, a + b, i, sep, mode) == Loop(Loop(st, a, i, sep, mode), b, i + |a|, sep, mode)
    decreases |a|
  {
    if a == [] {
      assert a + b == b;
      LoopInvariant(st, b, i, sep, mode);
    } else {
      assert (a + b)[1..] == a[1..] + b;
      LoopAppend(Step(st, a[0], i, sep, mode), a[1..], b, i + 1, sep, mode);
    }
  }

  lemma {:induction false} LoopInvariant(st: ScanState, t: string, i: nat, sep: char, mode: CaseMode)
    requires st.upperCount <= |st.builder|
    ensures Loop(st, t, i, sep, mode).upperCount <= |Loop(st, t, i, sep, mode).builder|
    decreases |t|
  {
    if t != [] {
      LoopInvariant(Step(st, t[0], i, sep, mode), t[1..], i + 1, sep, mode);
    }
  }

  /** `camel2Separator` as its loop, from an empty builder. */
  lemma Camel2SeparatorLoop(s: string, sep: char, mode: CaseMode)
    requires s != []
    ensures Camel2Separator(Some(s), sep, mode) == Some(Loop(ScanState([], 0), s, 0, sep, mode).builder)
  {
  }

  // ----- separated to camel case -----

  /** What goes wrong in the source: reading past the end of the string. */
  datatype NamingError = IndexOutOfBounds

  /** `input` with every leading `sep` removed (the first `while` loop). */
  function StripLeading(s: string, sep: char): (r: string)
    ensures |r| <= |s| && r == s[|s| - |r|..]
    ensures r == [] || r[0] != sep
    ensures forall i :: 0 <= i < |s| - |r| ==> s[i] == sep
  {
    if s != [] && s[0] == sep then StripLeading(s[1..], sep) else s
  }

  /** `input` with every trailing `sep` removed (the second `while` loop). */
  function StripTrailing(s: string, sep: char): (r: string)
    ensures |r| <= |s| && r == s[..|r|]
    ensures r == [] || r[|r| - 1] != sep
    ensures forall i :: |r| <= i < |s| ==> s[i] == sep
  {
    if s != [] && s[|s| - 1] == sep then StripTrailing(s[..|s| - 1], sep) else s
  }

  function Strip(s: string, sep: char): (r: string)
    ensures |r| <= |s|
    ensures r == [] || (r[0] != sep && r[|r| - 1] != sep)
    ensures (s == [] || (s[0] != sep && s[|s| - 1] != sep)) ==> r == s
  {
    StripTrailing(StripLeading(s, sep), sep)
  }

  /** The loop of `separator2Camel` over a string that does not end in the
      separator: a separator is dropped and the character after it
      upper-cased, every other character is lower-cased. */
  function Camelize(t: string, sep: char): (r: string)
    requires t == [] || t[|t| - 1] != sep
    ensures |r| <= |t|
    ensures t != [] ==> r != []
    ensures t != [] && t[0] != sep ==> r[0] == LowerChar(t[0])
    ensures sep !in t ==> r == Lower(t)
    decreases |t|
  {
    if t == [] then []
    else if t[0] == sep then [UpperChar(t[1])] + Camelize(t[2..], sep)
    else [LowerChar(t[0])] + Camelize(t[1..], sep)
  }

  /** The final `setCharAt(0, …)` per mode. */
  function SetFirst(b: string, mode: CaseMode): (r: string)
    requires b != []
    ensures |r| == |b| && r[1..] == b[1..]
    ensures r[0] == Emit(b[0], mode)
  {
    [Emit(b[0], mode)] + b[1..]
  }

  /** `separator2Camel` as written: null and empty input come back as they
      are. The loop runs over the length of the input BEFORE the leading
      and trailing separators are stripped, so whenever anything was
      stripped it reads past the end of the shorter string. */
  function Separator2Camel(input: Option<string>, sep: char, mode: CaseMode): (r: Result<Option<string>, NamingError>)
    ensures input == None || input == Some("") ==> r == Ok(input)
    ensures r.Err? <==> input != None && input.value != [] && (input.value[0] == sep || input.value[|input.value| - 1] == sep)
    ensures r.Ok? && input != None && input.value != [] ==>
      r.value != None && r.value.value == SetFirst(Camelize(input.value, sep), mode)
  {
    match input
    case None => Ok(None)
    case Some(s) =>
      if |s| == 0 then Ok(input)
      else
        var t := Strip(s, sep);
        if |t| < |s| then Err(IndexOutOfBounds)
        else Ok(Some(SetFirst(Camelize(t, sep), mode)))
  }

  /** `separator2Camel` with the loop running over the stripped string, as
      evidently intended; an input of nothing but separators gives "". */
  function Separator2CamelStripped(input: Option<string>, sep: char, mode: CaseMode): (r: Option<string>)
    ensures input == None <==> r == None
    ensures input != None && Strip(input.value, sep) == [] ==> r == Some("")
    ensures input != None && Strip(input.value, sep) != [] ==>
      r == Some(SetFirst(Camelize(Strip(input.value, sep), sep), mode))
  {
    match input
    case None => None
    case Some(s) =>
      var t := Strip(s, sep);
      if t == [] then Some("") else Some(SetFirst(Camelize(t, sep), mode))
  }

  /** Wherever the source returns, the corrected form returns the same. */
  lemma Separator2CamelStrippedAgrees(input: Option<string>, sep: char, mode: CaseMode)
    requires Separator2Camel(input, sep, mode).Ok?
    ensures Ok(Separator2CamelStripped(input, sep, mode)) == Separator2Camel(input, sep, mode)
  {
  }

  lemma {:induction false} StripLeadingSnoc(x: string, sep: char)
    ensures StripLeading(x + [sep], sep) == if StripLeading(x, sep) == [] then [] else StripLeading(x, sep) + [sep]
  {
    var xs := x + [sep];
    if x == [] {
      assert xs[1..] == [];
      assert StripLeading(xs, sep) == StripLeading([], sep);
    } else if x[0] == sep {
      assert xs[0] == sep && xs[1..] == x[1..] + [sep];
      assert StripLeading(xs, sep) == StripLeading(x[1..] + [sep], sep);
      assert StripLeading(x, sep) == StripLeading(x[1..], sep);
      StripLeadingSnoc(x[1..], sep);
    } else {
      assert xs[0] != sep;
      assert StripLeading(xs, sep) == xs;
      assert StripLeading(x, sep) == x;
    }
  }

  lemma StripSeparatorAtStart(x: string, sep: char)
    ensures Strip([sep] + x, sep) == Strip(x, sep)
  {
    assert ([sep] + x)[1..] == x;
  }

  lemma StripSeparatorAtEnd(x: string, sep: char)
    ensures Strip(x + [sep], sep) == Strip(x, sep)
  {
    StripLeadingSnoc(x, sep);
    var w := StripLeading(x, sep);
    if w != [] {
      assert (w + [sep])[..|w|] == w;
    }
  }

  /** The corrected form ignores separators at either end. */
  lemma Separator2CamelStrippedIgnoresEnds(x: string, sep: char, mode: CaseMode)
    ensures Separator2CamelStripped(Some([sep] + x), sep, mode) == Separator2CamelStripped(Some(x), sep, mode)
    ensures Separator2CamelStripped(Some(x + [sep]), sep, mode) == Separator2CamelStripped(Some(x), sep, mode)
  {
    StripSeparatorAtStart(x, sep);
    StripSeparatorAtEnd(x, sep);
  }

  /** The smallest input that shows the difference: a leading separator. */
  lemma Separator2CamelLeadingSeparator()
    ensures Separator2Camel(Some("_id"), SnakeSeparator, LowerCase) == Err(IndexOutOfBounds)
    ensures Separator2CamelStripped(Some("_id"), SnakeSeparator, LowerCase) == Some("id")
  {
    assert Strip("_id", SnakeSeparator) == "id" by {
      assert "_id"[1..] == "id";
    }
    assert Camelize("id", SnakeSeparator) == "id" by {
      assert "id"[1..] == "d";
      assert "d"[1..] == "";
    }
  }

  // ----- the round trip -----

  /** A snake-shaped name under `sep`: no upper-case letter, and every
      separator is followed by a lower-case letter, which is not itself
      followed by another separator (words after the first have at least
      two characters). */
  predicate Words(x: string, sep: char) {
    (forall i :: 0 <= i < |x| ==> !IsUpper(x[i]))
    && (forall i :: 0 <= i < |x| && x[i] == sep ==>
          i + 1 < |x| && IsLower(x[i + 1]) && (i + 2 < |x| ==> x[i + 2] != sep))
  }

  /** The junction of two separated forms. Cutting the input between two
      characters changes nothing but the separator the second part may
      start with, unless the cut splits an upper-case run. */
  lemma SeparatedAppend(a: string, b: string, sep: char, mode: CaseMode)
    requires a != [] && b != []
    requires IsUpper(a[|a| - 1]) ==> !IsUpper(b[0]) && (|a| == 1 || !IsUpper(a[|a| - 2]))
    ensures Separated(a + b, sep, mode)
         == Separated(a, sep, mode) + (if IsUpper(b[0]) then [sep] else []) + Separated(b, sep, mode)
  {
    PiecesAppendFront(a, b, |a|, sep, mode);
    PiecesAppendBack(a, b, |b|, sep, mode);
  }

  lemma {:induction false} PiecesAppendFront(a: string, b: string, m: nat, sep: char, mode: CaseMode)
    requires a != [] && b != [] && m <= |a|
    requires IsUpper(a[|a| - 1]) ==> !IsUpper(b[0]) && (|a| == 1 || !IsUpper(a[|a| - 2]))
    ensures PiecesUpTo(a + b, m, sep, mode) == PiecesUpTo(a, m, sep, mode)
  {
    if m > 0 {
      PiecesAppendFront(a, b, m - 1, sep, mode);
      assert SepBefore(a + b, m - 1) == SepBefore(a, m - 1);
    }
  }

  lemma {:induction false} PiecesAppendBack(a: string, b: string, m: nat, sep: char, mode: CaseMode)
    requires a != [] && b != [] && m <= |b|
    requires IsUpper(a[|a| - 1]) ==> !IsUpper(b[0]) && (|a| == 1 || !IsUpper(a[|a| - 2]))
    requires PiecesUpTo(a + b, |a|, sep, mode) == PiecesUpTo(a, |a|, sep, mode)
    ensures m > 0 ==>
      PiecesUpTo(a + b, |a| + m, sep, mode)
      == Separated(a, sep, mode) + (if IsUpper(b[0]) then [sep] else []) + PiecesUpTo(b, m, sep, mode)
  {
    if m > 1 {
      PiecesAppendBack(a, b, m - 1, sep, mode);
      assert SepBefore(a + b, |a| + m - 1) == SepBefore(b, m - 1);
      assert (a + b)[|a| + m - 1] == b[m - 1];
    } else if m == 1 {
      assert (a + b)[|a|] == b[0];
      assert SepBefore(a + b, |a|) == IsUpper(b[0]);
      assert PiecesUpTo(b, 1, sep, mode) == [Emit(b[0], mode)];
    }
  }

  /** What is left of a snake-shaped name after its first character is
      still snake-shaped. */
  lemma WordsTail(x: string, sep: char, k: nat)
    requires Words(x, sep) && k <= |x|
    ensures Words(x[k..], sep)
  {
    var rest := x[k..];
    forall i | 0 <= i < |rest| && rest[i] == sep
      ensures i + 1 < |rest| && IsLower(rest[i + 1]) && (i + 2 < |rest| ==> rest[i + 2] != sep)
    {
      assert x[i + k] == sep;
    }
  }

  /** Lower-case camel conversion followed by lower-case separation gives
      back every snake-shaped name that starts with a word. */
  lemma {:induction false} CamelizeSeparated(x: string, sep: char)
    requires x != [] && x[0] != sep && Words(x, sep)
    ensures Separated(Camelize(x, sep), sep, LowerCase) == x
    decreases |x|
  {
    if |x| == 1 {
      CamelizeSingle(x, sep);
    } else if x[1] != sep {
      WordsTail(x, sep, 1);
      CamelizeSeparated(x[1..], sep);
      CamelizePlainStep(x, sep);
    } else if |x| == 3 {
      CamelizeLastWord(x, sep);
    } else {
      WordsTail(x, sep, 3);
      CamelizeSeparated(x[3..], sep);
      CamelizeWordStep(x, sep);
    }
  }

  lemma CamelizeSingle(x: string, sep: char)
    requires |x| == 1 && x[0] != sep && !IsUpper(x[0])
    ensures Separated(Camelize(x, sep), sep, LowerCase) == x
  {
    assert Camelize(x, sep) == [x[0]];
    assert PiecesUpTo([x[0]], 1, sep, LowerCase) == [x[0]];
  }

  /** A separated form that starts with a non-upper character. */
  lemma SeparatedAfterLower(c: char, w: string, sep: char)
    requires !IsUpper(c) && w != []
    ensures Separated([c] + w, sep, LowerCase)
         == [LowerChar(c)] + (if IsUpper(w[0]) then [sep] else []) + Separated(w, sep, LowerCase)
  {
    assert PiecesUpTo([c], 1, sep, LowerCase) == [LowerChar(c)];
    SeparatedAppend([c], w, sep, LowerCase);
  }

  /** A separated form that starts with a lone upper-case character. */
  lemma SeparatedAfterUpper(big: char, z: string, sep: char)
    requires IsUpper(big) && z != [] && !IsUpper(z[0])
    ensures Separated([big] + z, sep, LowerCase) == [LowerChar(big)] + Separated(z, sep, LowerCase)
  {
    assert PiecesUpTo([big], 1, sep, LowerCase) == [LowerChar(big)];
    SeparatedAppend([big], z, sep, LowerCase);
  }

  lemma CamelizePlainStep(x: string, sep: char)
    requires |x| >= 2 && x[0] != sep && x[1] != sep && Words(x, sep)
    requires Separated(Camelize(x[1..], sep), sep, LowerCase) == x[1..]
    ensures Separated(Camelize(x, sep), sep, LowerCase) == x
  {
    var c := x[0];
    var z := Camelize(x[1..], sep);
    assert Camelize(x, sep) == [c] + z;
    SeparatedAfterLower(c, z, sep);
    assert [c] + x[1..] == x;
  }

  lemma CamelizeLastWord(x: string, sep: char)
    requires |x| == 3 && x[0] != sep && x[1] == sep && Words(x, sep)
    ensures Separated(Camelize(x, sep), sep, LowerCase) == x
  {
    var c, l := x[0], x[2];
    var big := UpperChar(l);
    assert IsLower(l) && IsUpper(big) && LowerChar(big) == l;
    assert Camelize(x, sep) == [c] + [big] by {
      assert x[1..][1] == l && x[1..][2..] == [];
    }
    assert PiecesUpTo([big], 1, sep, LowerCase) == [l];
    SeparatedAfterLower(c, [big], sep);
    assert x == [c, sep, l];
  }

  lemma CamelizeWordStep(x: string, sep: char)
    requires |x| >= 4 && x[0] != sep && x[1] == sep && Words(x, sep)
    requires Separated(Camelize(x[3..], sep), sep, LowerCase) == x[3..]
    ensures Separated(Camelize(x, sep), sep, LowerCase) == x
  {
    var c, l := x[0], x[2];
    var big := UpperChar(l);
    assert IsLower(l) && IsUpper(big) && LowerChar(big) == l;
    var tail := x[3..];
    assert tail[0] != sep && !IsUpper(tail[0]);
    var z := Camelize(tail, sep);
    assert Camelize(x, sep) == [c] + ([big] + z) by {
      assert x[1..][1] == l && x[1..][2..] == tail;
    }
    var w := [big] + z;
    assert Separated(w, sep, LowerCase) == [l] + tail by {
      SeparatedAfterUpper(big, z, sep);
    }
    assert Separated([c] + w, sep, LowerCase) == [c] + [sep] + ([l] + tail) by {
      assert w[0] == big && LowerChar(c) == c;
      SeparatedAfterLower(c, w, sep);
    }
    assert x == [c] + [sep] + ([l] + tail);
  }

  /** `LowerCamel.fromSeparator` then `Separator.fromCamel` gives back a
      snake-shaped name. */
  lemma CamelRoundTrip(x: string, sep: char)
    requires Words(x, sep) && (x == [] || x[0] != sep)
    ensures Separator2Camel(Some(x), sep, LowerCase).Ok?
    ensures Camel2Separator(Separator2Camel(Some(x), sep, LowerCase).value, sep, LowerCase) == Some(x)
  {
    if x != [] {
      CamelizeSeparated(x, sep);
      var b := Camelize(x, sep);
      assert SetFirst(b, LowerCase) == b;
    }
  }

  // ----- swapping separators -----

  /** The `Snake`, `Kebab` and `Separator` helpers that turn one separator
      into another: empty or null input comes back as it is; otherwise
      every `from` becomes `to` and the result is cased per `mode`. */
  function ReplaceSeparator(input: Option<string>, from: char, to: char, mode: CaseMode): (r: Option<string>)
    ensures input == None || input == Some("") ==> r == input
    ensures input != None ==> r != None && |r.value| == |input.value|
    ensures input != None ==> forall i :: 0 <= i < |input.value| ==>
      r.value[i] == Emit(if input.value[i] == from then to else input.value[i], mode)
  {
    match input
    case None => None
    case Some(s) => if |s| == 0 then input else Some(ApplyMode(ReplaceChar(s, from, to), mode))
  }

  /** Swapping a separator back undoes the swap when the target separator
      did not occur before. */
  lemma ReplaceSeparatorInverse(input: string, from: char, to: char)
    requires to !in input
    ensures ReplaceSeparator(ReplaceSeparator(Some(input), from, to, Keep), to, from, Keep) == Some(input)
  {
    if input != [] {
      var r := ReplaceSeparator(ReplaceSeparator(Some(input), from, to, Keep), to, from, Keep).value;
      assert |r| == |input|;
      assert forall i :: 0 <= i < |input| ==> r[i] == input[i];
      assert r == input;
    }
  }
}
