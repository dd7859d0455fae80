/** What both locators share about a location: splitting the text after
    the key and priority segments into path, name and extension, and
    expanding a name over the conventional directories and extensions. */
module Locations {
  import opened Wrappers
  import opened Text
  import opened PriorityOrder
  import opened CaramelAide

  const PathSeparator: char := '/'
  const NameSeparator: char := '.'

  /** The conventional directories, in rising priority. */
  const DefaultPaths: seq<string> := ["classpath:/", "classpath:/config/", "file:./", "file:./config/"]

  /** The conventional extensions, in rising priority; `""` is a file with
      no extension. */
  const DefaultExtensions: seq<string> := ["", ".properties", ".json", ".conf"]

  /** A position, resolved from a descriptor or declared as it is: every
      field is nullable. */
  datatype Position = Position(key: Option<string>, priority: Priority, path: Option<string>,
                               name: Option<string>, extension: Option<string>,
                               refreshEnabled: Option<bool>)

  /** What resolution guarantees of a position: a name and a key, neither
      blank. */
  predicate Complete(p: Position) {
    !IsBlank(p.name) && !IsBlank(p.key)
  }

  /** The path, name and extension of a location; the path and extension
      stay null when the location has none. */
  datatype Parts = Parts(path: Option<string>, name: string, extension: Option<string>)

  /** The text after the last separator, or all of it. */
  function FileText(p: Parts): string {
    p.name + p.extension.GetOr("")
  }

  /** The extension split of the text after the last separator: from its
      last `.`, dot included, when that `.` is not the first character. */
  function SplitExtension(file: string): (r: (string, Option<string>))
    ensures r.0 + r.1.GetOr("") == file
    ensures r.1.Some? ==>
      r.0 != [] && r.1.value != [] && r.1.value[0] == NameSeparator && NameSeparator !in r.1.value[1..]
    ensures r.1.None? && r.0 != [] ==> NameSeparator !in r.0[1..]
  {
    var d := LastIndexOf(file, NameSeparator);
    if d > 0 then
      assert file == file[..d] + file[d..];
      (file[..d], Some(file[d..]))
    else
      (file, None)
  }

  /** The split: the path is what precedes the last `/` (`/` itself when
      that is the first character), and the rest splits into name and
      extension. */
  function SplitLocation(location: string): (r: Parts)
    ensures r.path.None? <==> PathSeparator !in location
    ensures r.path.None? ==> location == FileText(r)
    ensures r.path.Some? ==>
      exists k :: 0 <= k < |location| && location[k] == PathSeparator &&
        (forall i :: k < i < |location| ==> location[i] != PathSeparator) &&
        r.path.value == (if k == 0 then [PathSeparator] else location[..k]) &&
        location[k + 1..] == FileText(r)
    ensures PathSeparator !in FileText(r)
    ensures r.extension.Some? ==>
      r.name != [] && r.extension.value != [] && r.extension.value[0] == NameSeparator &&
      NameSeparator !in r.extension.value[1..]
    ensures r.extension.None? && r.name != [] ==> NameSeparator !in r.name[1..]
  {
    var k := LastIndexOf(location, PathSeparator);
    var path := if k == 0 then Some([PathSeparator]) else if k > 0 then Some(location[..k]) else None;
    var file := location[k + 1..];
    var (name, extension) := SplitExtension(file);
    assert k == -1 ==> file == location;
    assert PathSeparator !in file by {
      forall i | 0 <= i < |file|
        ensures file[i] != PathSeparator
      {
        assert file[i] == location[k + 1 + i];
      }
    }
    Parts(path, name, extension)
  }

  predicate EndsWithSeparator(path: string) {
    |path| > 0 && path[|path| - 1] == PathSeparator
  }

  /** An extension as it is appended: nothing for `""`, otherwise with a
      leading dot, added when missing. */
  function Dotted(extension: string): (r: string)
    ensures extension == [] <==> r == []
    ensures r != [] ==> r[0] == NameSeparator && (r == extension || r == [NameSeparator] + extension)
  {
    if extension == [] then []
    else if extension[0] == NameSeparator then extension
    else [NameSeparator] + extension
  }

  /** One candidate location: the path, a separator unless the path already
      ends with one, the name, and the dotted extension. */
  function Candidate(path: string, name: string, extension: string): string {
    (if EndsWithSeparator(path) then path else path + [PathSeparator]) + name + Dotted(extension)
  }

  /** A name without dots followed by a dotted extension splits back into
      the two. */
  lemma SplitExtensionOf(name: string, ext: string)
    requires name != [] && NameSeparator !in name
    requires ext != [] ==> ext[0] == NameSeparator && NameSeparator !in ext[1..]
    ensures SplitExtension(name + ext) == (name, if ext == [] then None else Some(ext))
  {
    var file := name + ext;
    if ext == [] {
      assert file == name;
      LastIndexOfIs(file, NameSeparator, -1);
    } else {
      forall i | |name| < i < |file|
        ensures file[i] != NameSeparator
      {
        assert file[i] == ext[1..][i - |name| - 1];
      }
      LastIndexOfIs(file, NameSeparator, |name|);
      assert file[..|name|] == name && file[|name|..] == ext;
    }
  }

  /** A candidate splits back into the name and extension it was built
      from, provided the name holds neither separator and the extension
      holds no `/` and no dot past its first character. */
  lemma SplitCandidate(path: string, name: string, extension: string)
    requires name != [] && PathSeparator !in name && NameSeparator !in name
    requires PathSeparator !in extension
    requires extension != [] ==> NameSeparator !in extension[1..]
    ensures var p := SplitLocation(Candidate(path, name, extension));
      p.path.Some? && p.name == name &&
      p.extension == (if extension == [] then None else Some(Dotted(extension)))
  {
    var dir := if EndsWithSeparator(path) then path else path + [PathSeparator];
    var ext := Dotted(extension);
    var file := name + ext;
    var c := dir + file;
    assert c == Candidate(path, name, extension);
    assert ext != [] ==> NameSeparator !in ext[1..] && PathSeparator !in ext by {
      if ext != [] && ext != extension {
        assert ext[1..] == extension;
      }
    }
    forall i | |dir| - 1 < i < |c|
      ensures c[i] != PathSeparator
    {
      assert c[i] == file[i - |dir|];
      if i - |dir| >= |name| {
        assert file[i - |dir|] == ext[i - |dir| - |name|];
      }
    }
    LastIndexOfIs(c, PathSeparator, |dir| - 1);
    assert c[|dir|..] == file;
    SplitExtensionOf(name, ext);
  }

  /** The candidates for one path, in extension order. */
  function Row(path: string, name: string, extensions: seq<string>): (r: seq<string>)
    ensures |r| == |extensions|
    ensures forall j :: 0 <= j < |extensions| ==> r[j] == Candidate(path, name, extensions[j])
  {
    seq(|extensions|, j requires 0 <= j < |extensions| => Candidate(path, name, extensions[j]))
  }

  /** Every path with every extension, path-major: the nested iteration of
      the locators. */
  function Candidates(name: string, paths: seq<string>, extensions: seq<string>): (r: seq<string>)
    ensures |r| == |paths| * |extensions|
    decreases |paths|
  {
    if paths == [] then []
    else
      var n := |extensions|;
      assert |paths| * n == n + (|paths| - 1) * n;
      Row(paths[0], name, extensions) + Candidates(name, paths[1..], extensions)
  }

  /** The candidate at position `i * |extensions| + j` is path `i` with
      extension `j`. */
  lemma {:induction false} CandidatesAt(name: string, paths: seq<string>, extensions: seq<string>, i: int, j: int)
    requires 0 <= i < |paths| && 0 <= j < |extensions|
    ensures 0 <= i * |extensions| + j < |Candidates(name, paths, extensions)|
    ensures Candidates(name, paths, extensions)[i * |extensions| + j] == Candidate(paths[i], name, extensions[j])
    decreases i
  {
    var n := |extensions|;
    var row := Row(paths[0], name, extensions);
    var rest := Candidates(name, paths[1..], extensions);
    assert Candidates(name, paths, extensions) == row + rest;
    if i > 0 {
      CandidatesAt(name, paths[1..], extensions, i - 1, j);
      assert i * n + j == n + ((i - 1) * n + j);
      assert paths[1..][i - 1] == paths[i];
    } else {
      assert i * n + j == j;
    }
  }

  /** A location's own path when it has a non-blank one, else the
      conventional directories. */
  function SearchPaths(path: Option<string>): (r: seq<string>)
    ensures path.Some? && !AllWhitespace(path.value) ==> r == [path.value]
    ensures path.None? || AllWhitespace(path.value) ==> r == DefaultPaths
  {
    if path.Some? && !AllWhitespace(path.value) then [path.value] else DefaultPaths
  }

  /** Likewise for the extension. */
  function SearchExtensions(extension: Option<string>): (r: seq<string>)
    ensures extension.Some? && !AllWhitespace(extension.value) ==> r == [extension.value]
    ensures extension.None? || AllWhitespace(extension.value) ==> r == DefaultExtensions
  {
    if extension.Some? && !AllWhitespace(extension.value) then [extension.value] else DefaultExtensions
  }
}
