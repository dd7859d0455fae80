/** Path arithmetic of the resource layer: normalising `.` and `..` segments,
    replacing the file name of a path, and splitting off a file extension.
    Paths are plain strings with `/` as the separator; a backslash is the
    Windows separator and is converted on the way in. */
module ResourceUtils {
  import opened Wrappers
  import opened Text

  const PathSeparator: char := '/'
  const WindowsSeparator: char := '\\'
  const CurrentPath: string := "."
  const ParentPath: string := ".."
  const ExtensionSeparator: char := '.'

  /** A path element that is neither `.` nor `..`. */
  predicate Named(e: string) { e != CurrentPath && e != ParentPath }

  predicate AllNamed(elements: seq<string>) {
    forall i :: 0 <= i < |elements| ==> Named(elements[i])
  }

  // ----- prefix handling -----

  /** A path cut into the part kept verbatim (a `scheme:` prefix and/or a
      leading root slash) and the part whose elements are normalised. */
  datatype Rooted = Rooted(prefix: string, path: string)

  /** The prefix is the scheme (see `SchemeEnd`) and, when what follows it
      starts with `/`, that one slash. */
  function Root(s: string): (r: Rooted)
    ensures r.prefix + r.path == s
    ensures forall i :: 0 <= i < |r.prefix| - 1 ==> r.prefix[i] != PathSeparator
    ensures |r.prefix| == SchemeEnd(s) || |r.prefix| == SchemeEnd(s) + 1
    ensures |r.prefix| == SchemeEnd(s) + 1 <==> SchemeEnd(s) < |s| && s[SchemeEnd(s)] == PathSeparator
  {
    var cut := SchemeEnd(s);
    if cut < |s| && s[cut] == PathSeparator then Rooted(s[..cut + 1], s[cut + 1..])
    else Rooted(s[..cut], s[cut..])
  }

  /** Where a `scheme:` prefix ends: just after the first `:` when no `/`
      comes before it, else 0. */
  function SchemeEnd(s: string): (cut: nat)
    ensures cut <= |s|
    ensures forall i :: 0 <= i < cut ==> s[i] != PathSeparator
    ensures var k := IndexOf(s, ':'); var slash := IndexOf(s, PathSeparator);
      cut == if k != -1 && (slash == -1 || k < slash) then k + 1 else 0
  {
    var k := IndexOf(s, ':');
    var slash := IndexOf(s, PathSeparator);
    if k != -1 && (slash == -1 || k < slash) then k + 1 else 0
  }

  // ----- collapsing `.` and `..` -----

  /** What is left of a run of path elements: `parents` leading `..`
      that nothing cancelled, then the surviving named elements. */
  datatype Folded = Folded(parents: nat, kept: seq<string>)

  function Repeat(e: string, n: nat): (r: seq<string>)
    ensures |r| == n && forall i :: 0 <= i < n ==> r[i] == e
  {
    if n == 0 then [] else [e] + Repeat(e, n - 1)
  }

  /** The elements a folded run stands for. */
  function Elements(st: Folded): seq<string> {
    Repeat(ParentPath, st.parents) + st.kept
  }

  /** One step of the right-to-left scan of the source: `.` is skipped,
      `..` is counted, and a named element either cancels one pending
      `..` or is put in front of the kept elements. */
  function Visit(e: string, st: Folded): Folded {
    if e == CurrentPath then st
    else if e == ParentPath then Folded(st.parents + 1, st.kept)
    else if st.parents > 0 then Folded(st.parents - 1, st.kept)
    else Folded(0, [e] + st.kept)
  }

  /** The scan from the last element to the first. */
  function Collapse(elements: seq<string>): (r: Folded)
    ensures AllNamed(r.kept)
    ensures |r.kept| <= |elements|
  {
    if elements == [] then Folded(0, []) else Visit(elements[0], Collapse(elements[1..]))
  }

  /** The usual stack discipline, reading from the first element to the
      last: `..` pops a named element when there is one, else it stays. */
  function Push(st: Folded, e: string): Folded {
    if e == CurrentPath then st
    else if e == ParentPath then
      (if st.kept != [] then Folded(st.parents, st.kept[..|st.kept| - 1]) else Folded(st.parents + 1, st.kept))
    else Folded(st.parents, st.kept + [e])
  }

  /** Reference normalisation of a run of elements. */
  function Resolve(elements: seq<string>): (r: Folded)
    ensures AllNamed(r.kept)
  {
    if elements == [] then Folded(0, [])
    else Push(Resolve(elements[..|elements| - 1]), elements[|elements| - 1])
  }

  /** The folded form of two runs, one after the other: the `..` of the
      second cancel kept elements of the first from the end. */
  function Combine(a: Folded, b: Folded): Folded {
    if b.parents <= |a.kept| then Folded(a.parents, a.kept[..|a.kept| - b.parents] + b.kept)
    else Folded(a.parents + b.parents - |a.kept|, b.kept)
  }

  lemma VisitCombine(e: string, a: Folded, b: Folded)
    ensures Visit(e, Combine(a, b)) == Combine(Visit(e, a), b)
  {
    if Named(e) && a.parents == 0 && b.parents <= |a.kept| {
      assert ([e] + a.kept)[..|a.kept| + 1 - b.parents] == [e] + a.kept[..|a.kept| - b.parents];
    }
  }

  lemma {:induction false} CollapseAppend(u: seq<string>, v: seq<string>)
    ensures Collapse(u + v) == Combine(Collapse(u), Collapse(v))
  {
    if u == [] {
      assert u + v == v;
    } else {
      assert (u + v)[1..] == u[1..] + v;
      CollapseAppend(u[1..], v);
      VisitCombine(u[0], Collapse(u[1..]), Collapse(v));
    }
  }

  lemma PushCombine(st: Folded, e: string)
    ensures Push(st, e) == Combine(st, Collapse([e]))
  {
    assert [e][1..] == [];
    assert st.kept[..|st.kept|] == st.kept;
  }

  /** The right-to-left counter of the source and the left-to-right stack
      agree on every run of elements. */
  lemma {:induction false} CollapseIsResolve(elements: seq<string>)
    ensures Collapse(elements) == Resolve(elements)
  {
    if elements != [] {
      var init, e := elements[..|elements| - 1], elements[|elements| - 1];
      assert elements == init + [e];
      CollapseIsResolve(init);
      CollapseAppend(init, [e]);
      PushCombine(Resolve(init), e);
    }
  }

  /** The scan keeps every element exactly when all of them are named,
      and then it keeps them as they are. */
  lemma {:induction false} CollapseKeepsAll(elements: seq<string>)
    ensures |Collapse(elements).kept| == |elements| <==> AllNamed(elements)
    ensures AllNamed(elements) ==> Collapse(elements) == Folded(0, elements)
  {
    if elements != [] {
      CollapseKeepsAll(elements[1..]);
      assert elements == [elements[0]] + elements[1..];
      if !Named(elements[0]) {
        assert !AllNamed(elements);
      } else if AllNamed(elements[1..]) {
        assert AllNamed(elements) <==> true by {
          forall i | 0 <= i < |elements| ensures Named(elements[i]) {
            if i > 0 { assert elements[i] == elements[1..][i - 1]; }
          }
        }
      } else {
        assert !AllNamed(elements) by {
          var i :| 0 <= i < |elements[1..]| && !Named(elements[1..][i]);
          assert elements[i + 1] == elements[1..][i];
        }
      }
    }
  }

  // ----- normalizePath -----

  /** The tail of the source after the scan: the uncancelled `..` go in
      front, and a lone empty element under a prefix that is not a root
      becomes `./`. */
  function Finish(prefix: string, st: Folded): (r: string)
    ensures prefix <= r
  {
    var elements := Elements(st);
    var shown := if |elements| == 1 && elements[0] == "" && !(prefix != [] && prefix[|prefix| - 1] == PathSeparator)
      then [CurrentPath] + elements else elements;
    prefix + Join(shown, PathSeparator)
  }

  /** normalizePath: an absent or empty path is returned as it is; otherwise
      backslashes become slashes and, if the path holds a dot, the `.` and
      `..` elements after the prefix are resolved. */
  function NormalizePath(path: Option<string>): (r: Option<string>)
    ensures path == None || path == Some("") ==> r == path
    ensures path.Some? && path.value != "" ==>
      var s := ReplaceChar(path.value, WindowsSeparator, PathSeparator);
      var root := Root(s);
      var elements := Split(root.path, PathSeparator);
      r == Some(if IndexOf(s, ExtensionSeparator) == -1 || AllNamed(elements) then s else Finish(root.prefix, Resolve(elements)))
  {
    match path
    case None => None
    case Some(p) =>
      if p == "" then path
      else
        var s := ReplaceAll(p, [WindowsSeparator], [PathSeparator]);
        ReplaceAllChar(p, WindowsSeparator, PathSeparator);
        if IndexOf(s, ExtensionSeparator) == -1 then Some(s)
        else
          var root := Root(s);
          var elements := Split(root.path, PathSeparator);
          var st := Collapse(elements);
          CollapseKeepsAll(elements);
          CollapseIsResolve(elements);
          if |elements| == |st.kept| then Some(root.prefix + root.path)
          else Some(Finish(root.prefix, st))
  }

  /** A path none of whose elements is `.` or `..` comes back unchanged
      apart from its separators. */
  lemma NormalizePlainPath(p: string)
    requires p != ""
    requires AllNamed(Split(Root(ReplaceChar(p, WindowsSeparator, PathSeparator)).path, PathSeparator))
    ensures NormalizePath(Some(p)) == Some(ReplaceChar(p, WindowsSeparator, PathSeparator))
  {
  }

  lemma ReplaceCharAbsent(s: string, a: char, b: char)
    requires a !in s
    ensures ReplaceChar(s, a, b) == s
  {
  }

  /** Splitting at a separator that the first piece does not hold. */
  lemma PiecesCons(a: string, b: string, sep: char)
    requires sep !in a
    ensures Pieces(a + [sep] + b, sep) == [a] + Pieces(b, sep)
  {
    var s := a + [sep] + b;
    IndexOfIs(s, sep, |a|);
    assert s[..|a|] == a && s[|a| + 1..] == b;
  }

  lemma CollapseCons(e: string, rest: seq<string>)
    ensures Collapse([e] + rest) == Visit(e, Collapse(rest))
  {
    assert ([e] + rest)[1..] == rest;
  }

  lemma JoinCons(e: string, rest: seq<string>, sep: char)
    requires rest != []
    ensures Join([e] + rest, sep) == e + [sep] + Join(rest, sep)
  {
    assert ([e] + rest)[1..] == rest;
  }

  /** The last piece is empty only when the string ends with the separator. */
  lemma {:induction false} PiecesLast(s: string, sep: char)
    requires s != [] && s[|s| - 1] != sep
    ensures var ps := Pieces(s, sep); ps[|ps| - 1] != ""
    decreases |s|
  {
    var k := IndexOf(s, sep);
    if k != -1 {
      assert s[k + 1..] != [] && s[k + 1..][|s[k + 1..]| - 1] == s[|s| - 1];
      PiecesLast(s[k + 1..], sep);
    }
  }

  /** Splitting a string that does not end with the separator keeps every
      piece. */
  lemma SplitKeepsPieces(s: string, sep: char)
    requires s != [] && s[|s| - 1] != sep
    ensures Split(s, sep) == Pieces(s, sep)
  {
    PiecesLast(s, sep);
    if sep !in s {
      assert IndexOf(s, sep) == -1;
    }
  }

  lemma RootAfterScheme(scheme: string, path: string)
    requires ':' !in scheme && PathSeparator !in scheme
    requires path != [] && path[0] != PathSeparator
    ensures Root(scheme + ":" + path) == Rooted(scheme + ":", path)
  {
    var s := scheme + ":" + path;
    IndexOfIs(s, ':', |scheme|);
    assert forall i :: 0 <= i <= |scheme| ==> s[i] != PathSeparator;
    assert s[..|scheme| + 1] == scheme + ":";
    assert s[|scheme| + 1..] == path;
  }

  lemma ParentPathSpelling(x: string, rest: string)
    ensures x + "/../" + rest == x + [PathSeparator] + (ParentPath + [PathSeparator] + rest)
  {
  }

  lemma SplitCancelled(x: string, rest: string)
    requires x != "" && PathSeparator !in x
    requires rest != "" && rest[|rest| - 1] != PathSeparator
    ensures Split(x + "/../" + rest, PathSeparator) == [x, ParentPath] + Split(rest, PathSeparator)
  {
    var path := x + "/../" + rest;
    var ps := Pieces(rest, PathSeparator);
    assert Split(path, PathSeparator) == [x, ParentPath] + ps by {
      SplitPathPieces(x, rest);
    }
    assert Split(rest, PathSeparator) == ps by {
      SplitKeepsPieces(rest, PathSeparator);
    }
  }

  lemma SplitPathPieces(x: string, rest: string)
    requires x != "" && PathSeparator !in x
    requires rest != "" && rest[|rest| - 1] != PathSeparator
    ensures Split(x + "/../" + rest, PathSeparator) == [x, ParentPath] + Pieces(rest, PathSeparator)
  {
    var path := x + "/../" + rest;
    var tail := ParentPath + [PathSeparator] + rest;
    var ps := Pieces(rest, PathSeparator);
    assert Pieces(path, PathSeparator) == [x] + ([ParentPath] + ps) by {
      ParentPathSpelling(x, rest);
      PiecesCons(ParentPath, rest, PathSeparator);
      PiecesCons(x, tail, PathSeparator);
    }
    assert Split(path, PathSeparator) == Pieces(path, PathSeparator) by {
      assert path[|path| - 1] == rest[|rest| - 1];
      SplitKeepsPieces(path, PathSeparator);
    }
    ConsTwice(x, ParentPath, ps);
  }

  lemma CollapseCancelled(x: string, ps: seq<string>)
    requires Named(x) && AllNamed(ps)
    ensures Collapse([x, ParentPath] + ps) == Folded(0, ps)
    ensures !AllNamed([x, ParentPath] + ps)
  {
    CollapseAppend([x, ParentPath], ps);
    CollapseCons(x, [ParentPath]);
    CollapseCons(ParentPath, []);
    CollapseKeepsAll(ps);
    assert ([x, ParentPath] + ps)[1] == ParentPath;
  }

  lemma FinishNamed(prefix: string, ps: seq<string>)
    requires ps != [] && ps[|ps| - 1] != ""
    ensures Finish(prefix, Folded(0, ps)) == prefix + Join(ps, PathSeparator)
  {
    assert Elements(Folded(0, ps)) == ps;
  }

  /** The elements after the prefix: `x` and `..` cancel, the rest stays. */
  lemma CancelledElements(prefix: string, x: string, rest: string)
    requires x != "" && Named(x) && PathSeparator !in x
    requires rest != "" && rest[|rest| - 1] != PathSeparator
    requires AllNamed(Split(rest, PathSeparator))
    ensures var elements := Split(x + "/../" + rest, PathSeparator);
      !AllNamed(elements) && Finish(prefix, Resolve(elements)) == prefix + rest
  {
    var ps := Split(rest, PathSeparator);
    var elements := [x, ParentPath] + ps;
    SplitCancelled(x, rest);
    CollapseCancelled(x, ps);
    CollapseIsResolve(elements);
    SplitKeepsPieces(rest, PathSeparator);
    PiecesLast(rest, PathSeparator);
    FinishNamed(prefix, ps);
    JoinPieces(rest, PathSeparator);
  }

  /** After a `scheme:` prefix, a named element followed by `..` disappears
      and the prefix stays, as in `file:core/../core/io/Resource.class`
      becoming `file:core/io/Resource.class`. */
  lemma NormalizeCancelsParent(scheme: string, x: string, rest: string)
    requires ':' !in scheme && PathSeparator !in scheme && WindowsSeparator !in scheme
    requires x != "" && Named(x) && PathSeparator !in x && WindowsSeparator !in x
    requires rest != "" && rest[|rest| - 1] != PathSeparator && WindowsSeparator !in rest
    requires AllNamed(Split(rest, PathSeparator))
    ensures NormalizePath(Some(scheme + ":" + x + "/../" + rest)) == Some(scheme + ":" + rest)
  {
    var path := x + "/../" + rest;
    var s := scheme + ":" + path;
    var elements := Split(path, PathSeparator);
    assert s == scheme + ":" + x + "/../" + rest;
    assert ReplaceChar(s, WindowsSeparator, PathSeparator) == s by {
      ReplaceCharAbsent(s, WindowsSeparator, PathSeparator);
    }
    assert IndexOf(s, ExtensionSeparator) != -1 by {
      assert s[|scheme| + 1 + |x| + 1] == ExtensionSeparator;
    }
    assert Root(s) == Rooted(scheme + ":", path) by {
      RootAfterScheme(scheme, path);
    }
    assert !AllNamed(elements) && Finish(scheme + ":", Resolve(elements)) == scheme + ":" + rest by {
      CancelledElements(scheme + ":", x, rest);
    }
  }

  // ----- file names -----

  /** applyRelativePath: the file name of `path` (everything after its last
      `/`) is replaced by `relative`, with exactly one `/` between them when
      `relative` itself starts with at most one; a path without `/` is
      replaced entirely. */
  function ApplyRelativePath(path: string, relative: string): (r: string)
    ensures PathSeparator !in path ==> r == relative
    ensures PathSeparator in path ==>
      var folder := path[..LastIndexOf(path, PathSeparator) + 1];
      folder <= r &&
      r[|folder|..] == (if relative != [] && relative[0] == PathSeparator then relative[1..] else relative)
  {
    var k := LastIndexOf(path, PathSeparator);
    if k == -1 then relative
    else
      var base := path[..k];
      var joined := if !(relative != [] && relative[0] == PathSeparator) then base + [PathSeparator] else base;
      assert path[..k + 1] == base + [PathSeparator];
      assert relative != [] && relative[0] == PathSeparator ==> relative == [PathSeparator] + relative[1..];
      joined + relative
  }

  /** getFilename: the part after the last `/`, or the whole path. */
  function GetFilename(path: Option<string>): (r: Option<string>)
    ensures r.Some? <==> path.Some?
    ensures r.Some? ==> |r.value| <= |path.value|
    ensures r.Some? ==> forall i :: 0 <= i < |r.value| ==>
      r.value[i] == path.value[|path.value| - |r.value| + i] && r.value[i] != PathSeparator
    ensures r.Some? && |r.value| < |path.value| ==> path.value[|path.value| - |r.value| - 1] == PathSeparator
  {
    match path
    case None => None
    case Some(p) =>
      var k := LastIndexOf(p, PathSeparator);
      if k != -1 then Some(p[k + 1..]) else Some(p)
  }

  /** Applying a plain file name to a path makes it the path's file name
      and keeps the folder. */
  lemma ApplyRelativeSetsFilename(path: string, name: string)
    requires PathSeparator !in name
    ensures GetFilename(Some(ApplyRelativePath(path, name))) == Some(name)
  {
    var r := ApplyRelativePath(path, name);
    var k := LastIndexOf(path, PathSeparator);
    if k != -1 {
      assert r == path[..k + 1] + name;
      assert r[k] == PathSeparator;
      assert r[k + 1..] == name;
      LastIndexOfIs(r, PathSeparator, k);
    }
  }

  /** stripFilenameExtension: the path without the text from the last `.`
      on, when that `.` lies in the file name. */
  function StripFilenameExtension(path: string): (r: string)
    ensures r <= path
    ensures r == path || path[|r|] == ExtensionSeparator
  {
    var ext := LastIndexOf(path, ExtensionSeparator);
    if ext == -1 then path
    else if LastIndexOf(path, PathSeparator) > ext then path
    else path[..ext]
  }

  /** getFilenameExtension: the text after the last `.`, when that `.`
      lies in the file name. */
  function GetFilenameExtension(path: Option<string>): (r: Option<string>)
    ensures path == None ==> r == None
    ensures r.Some? ==> forall i :: 0 <= i < |r.value| ==> r.value[i] != ExtensionSeparator && r.value[i] != PathSeparator
  {
    match path
    case None => None
    case Some(p) =>
      var ext := LastIndexOf(p, ExtensionSeparator);
      if ext == -1 then None
      else if LastIndexOf(p, PathSeparator) > ext then None
      else
        Some(p[ext + 1..])
  }

  lemma ExtensionInName(p: string)
    requires LastIndexOf(p, PathSeparator) < LastIndexOf(p, ExtensionSeparator)
    ensures ExtensionSeparator in GetFilename(Some(p)).value
    ensures GetFilenameExtension(Some(p)).Some?
    ensures StripFilenameExtension(p) + [ExtensionSeparator] + GetFilenameExtension(Some(p)).value == p
  {
    DotInFilename(p);
    ExtensionSplits(p);
  }

  lemma DotInFilename(p: string)
    requires LastIndexOf(p, PathSeparator) < LastIndexOf(p, ExtensionSeparator)
    ensures ExtensionSeparator in GetFilename(Some(p)).value
  {
    var k := LastIndexOf(p, PathSeparator);
    assert GetFilename(Some(p)) == Some(FilenameAfter(p, k));
    DotAfter(p, k, LastIndexOf(p, ExtensionSeparator));
  }

  lemma ExtensionSplits(p: string)
    requires LastIndexOf(p, PathSeparator) < LastIndexOf(p, ExtensionSeparator)
    ensures GetFilenameExtension(Some(p)).Some?
    ensures StripFilenameExtension(p) + [ExtensionSeparator] + GetFilenameExtension(Some(p)).value == p
  {
    var ext := LastIndexOf(p, ExtensionSeparator);
    assert GetFilenameExtension(Some(p)) == Some(p[ext + 1..]);
    assert StripFilenameExtension(p) == p[..ext];
    CutAt(p, ext);
  }

  /** The file name of a path whose last separator is at `k`. */
  function FilenameAfter(p: string, k: int): string
    requires -1 <= k < |p|
  {
    if k != -1 then p[k + 1..] else p
  }

  /** A dot after the last separator is in the file name. */
  lemma DotAfter(p: string, k: int, ext: int)
    requires -1 <= k < ext < |p| && p[ext] == ExtensionSeparator
    ensures ExtensionSeparator in FilenameAfter(p, k)
  {
    assert FilenameAfter(p, k)[ext - k - 1] == p[ext];
  }

  lemma CutAt(s: string, k: int)
    requires 0 <= k < |s|
    ensures s[..k] + [s[k]] + s[k + 1..] == s
  {
  }

  lemma NoExtensionInName(p: string)
    requires LastIndexOf(p, ExtensionSeparator) < LastIndexOf(p, PathSeparator) || LastIndexOf(p, ExtensionSeparator) == -1
    ensures ExtensionSeparator !in GetFilename(Some(p)).value
    ensures GetFilenameExtension(Some(p)) == None
    ensures StripFilenameExtension(p) == p
  {
    var name := GetFilename(Some(p)).value;
    forall i | 0 <= i < |name| ensures name[i] != ExtensionSeparator {
      assert name[i] == p[|p| - |name| + i];
    }
  }

  /** A path has an extension exactly when its file name holds a dot, and
      then the stripped path, a dot and the extension give the path back;
      without an extension stripping changes nothing. */
  lemma ExtensionRoundTrip(p: string)
    ensures GetFilenameExtension(Some(p)).Some? <==> ExtensionSeparator in GetFilename(Some(p)).value
    ensures match GetFilenameExtension(Some(p))
      case Some(e) => StripFilenameExtension(p) + [ExtensionSeparator] + e == p
      case None => StripFilenameExtension(p) == p
  {
    if LastIndexOf(p, PathSeparator) < LastIndexOf(p, ExtensionSeparator) {
      ExtensionInName(p);
    } else {
      NoExtensionInName(p);
    }
  }

  /** The example of the source's documentation. */
  lemma ApplyRelativePathExample()
    ensures ApplyRelativePath("C:/path/to/file", "file2") == "C:/path/to/file2"
  {
    LastIndexOfIs("C:/path/to/file", PathSeparator, 10);
  }
}
