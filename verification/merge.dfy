/** The per-key merge of `ConfigResourceLoader.load`, of the older
    `ConfigRegistry.init` and of `CaramelConfigRegistry.init`: resources are
    read in bunch-priority order, then resource order; the first tree is
    taken as it is, and every later tree is merged into it entry by entry.
    The three revisions differ only in how a merged entry is written:
    - `Renaming` (the loader): a property whose name folds like the new
      one is removed, and the new entry is written under its own name;
    - `KeepName` (the older registry): the value is written under the name
      that is already there;
    - `Exact` (folding off, and `CaramelConfigRegistry`): `withValue` at the
      entry's own path. */
module ConfigMerge {
  import opened Wrappers
  import opened Text
  import opened PriorityOrder
  import opened ConfigTree
  import opened ConfigResources
  import opened Assoc

  // ----- kebab/camel name folding -----

  /** `name.replace("-", "").toLowerCase()`. */
  function FoldName(name: string): (r: string)
    ensures r == Lower(RemoveChar(name, '-'))
  {
    ReplaceAllSingleChar(name, '-');
    Lower(ReplaceAll(name, "-", ""))
  }

  /** Two property names are the same property when they fold alike. */
  predicate SameClass(a: string, b: string) {
    FoldName(a) == FoldName(b)
  }

  /** A dash between two parts of a name does not change its class. */
  lemma FoldIgnoresDash(a: string, b: string)
    ensures FoldName(a + "-" + b) == FoldName(a + b)
  {
    var x := a + "-";
    RemoveCharAppend(x, b, '-');
    RemoveCharAppend(a, "-", '-');
    RemoveCharAppend(a, b, '-');
    assert RemoveChar("-", '-') == [];
    assert RemoveChar(x, '-') == RemoveChar(a, '-');
    assert RemoveChar(a + "-" + b, '-') == RemoveChar(a + b, '-');
  }

  lemma {:induction false} RemoveDashLower(s: string)
    ensures RemoveChar(Lower(s), '-') == Lower(RemoveChar(s, '-'))
  {
    if s != [] {
      RemoveDashLower(s[1..]);
      assert Lower(s) == [LowerChar(s[0])] + Lower(s[1..]);
      assert Lower(s)[1..] == Lower(s[1..]);
      if s[0] != '-' {
        assert Lower([s[0]] + RemoveChar(s[1..], '-')) == [LowerChar(s[0])] + Lower(RemoveChar(s[1..], '-'));
      }
    }
  }

  lemma LowerCharIdempotent(c: char)
    ensures LowerChar(LowerChar(c)) == LowerChar(c)
  {
  }

  /** Letter case does not change the class of a name. */
  lemma FoldIgnoresCase(s: string)
    ensures FoldName(Lower(s)) == FoldName(s)
  {
    RemoveDashLower(s);
    var t := RemoveChar(s, '-');
    forall i | 0 <= i < |t|
      ensures Lower(Lower(t))[i] == Lower(t)[i]
    {
      LowerCharIdempotent(t[i]);
    }
  }

  /** The scan's invariant: `found` is the last entry before `i` of the
      class of `name`, `-1` when there is none. */
  predicate Scanned(t: Tree, name: string, i: nat, found: int) {
    i <= |t| && -1 <= found < i &&
    (found >= 0 ==> SameClass(t[found].path, name)) &&
    forall k :: found < k < i ==> !SameClass(t[k].path, name)
  }

  lemma ScanStep(t: Tree, name: string, i: nat, found: int, next: int)
    requires Scanned(t, name, i, found) && i < |t|
    requires next == if SameClass(t[i].path, name) then i else found
    ensures Scanned(t, name, i + 1, next)
  {
    var here := SameClass(t[i].path, name);
    forall k | next < k < i + 1
      ensures !SameClass(t[k].path, name)
    {
      if k == i {
        assert !here;
      }
    }
  }

  /** The scan over the existing entries: every entry whose name folds like
      `name` replaces the candidate, so the last such entry in iteration
      order is found. `found` is the candidate so far, `-1` for none. */
  function ScanMatches(t: Tree, name: string, i: nat, found: int): (r: int)
    requires Scanned(t, name, i, found)
    ensures -1 <= r < |t|
    ensures r >= 0 ==> SameClass(t[r].path, name)
    ensures forall k :: r < k < |t| ==> !SameClass(t[k].path, name)
    ensures r == -1 ==> found == -1
    decreases |t| - i
  {
    if i == |t| then found
    else
      var next := if SameClass(t[i].path, name) then i else found;
      ScanStep(t, name, i, found, next);
      ScanMatches(t, name, i + 1, next)
  }

  /** The index of the last existing entry of the class of `name`. */
  function LastMatch(t: Tree, name: string): (r: int)
    ensures -1 <= r < |t|
    ensures r >= 0 ==> SameClass(t[r].path, name)
    ensures forall k :: r < k < |t| ==> !SameClass(t[k].path, name)
  {
    ScanMatches(t, name, 0, -1)
  }

  // ----- one merged entry -----

  datatype Folding = Renaming | KeepName | Exact

  /** The loader's step: a match is removed, then the entry is written
      under its own name. */
  function RenamingStep(acc: Tree, e: Entry): (r: Tree)
    ensures Lookup(r, e.path) == Some(e.value)
    ensures forall q :: !SameClass(q, e.path) ==> Lookup(r, q) == Lookup(acc, q)
    ensures var m := LastMatch(acc, e.path);
      forall q :: q != e.path ==>
        Lookup(r, q) == (if m >= 0 && q == acc[m].path then None else Lookup(acc, q))
  {
    var m := LastMatch(acc, e.path);
    if m >= 0 then WithValue(WithoutPath(acc, acc[m].path), e.path, e.value)
    else WithValue(acc, e.path, e.value)
  }

  /** The older registry's step: a match receives the value under its
      existing name; otherwise the entry is written as it is. */
  function KeepNameStep(acc: Tree, e: Entry): (r: Tree)
    ensures var m := LastMatch(acc, e.path);
      m >= 0 ==> Lookup(r, acc[m].path) == Some(e.value) &&
                 (forall q :: q != acc[m].path ==> Lookup(r, q) == Lookup(acc, q))
    ensures var m := LastMatch(acc, e.path);
      m < 0 ==> Lookup(r, e.path) == Some(e.value) &&
                (forall q :: q != e.path ==> Lookup(r, q) == Lookup(acc, q))
  {
    var m := LastMatch(acc, e.path);
    if m >= 0 then
      assert HasPath(acc, acc[m].path);
      WithValue(acc, acc[m].path, e.value)
    else WithValue(acc, e.path, e.value)
  }

  function MergeEntry(acc: Tree, e: Entry, folding: Folding): Tree {
    match folding
    case Renaming => RenamingStep(acc, e)
    case KeepName => KeepNameStep(acc, e)
    case Exact => WithValue(acc, e.path, e.value)
  }

  /** Every entry of a later tree merged in, in its iteration order. */
  function MergeTree(acc: Tree, t: Tree, folding: Folding): Tree
    decreases |t|
  {
    if t == [] then acc else MergeTree(MergeEntry(acc, t[0], folding), t[1..], folding)
  }

  /** Without folding, merging a tree is `CaramelConfig.overwrite`. */
  lemma {:induction false} MergeExactIsOverwrite(acc: Tree, t: Tree)
    ensures MergeTree(acc, t, Exact) == Overwrite(acc, t)
    decreases |t|
  {
    if t != [] {
      MergeExactIsOverwrite(WithValue(acc, t[0].path, t[0].value), t[1..]);
    }
  }

  // ----- at most one property per class -----

  /** No two properties of the tree fold alike (so, in particular, no path
      occurs twice). */
  predicate ClassUnique(t: Tree) {
    forall i, j :: 0 <= i < j < |t| ==> !SameClass(t[i].path, t[j].path)
  }

  /** A tree with no property of the class of `name`. */
  predicate ClassFree(t: Tree, name: string) {
    forall i :: 0 <= i < |t| ==> !SameClass(t[i].path, name)
  }

  lemma ClassUniqueWellFormed(t: Tree)
    requires ClassUnique(t)
    ensures WellFormed(t)
  {
  }

  lemma LastMatchNoneClassFree(t: Tree, name: string)
    requires LastMatch(t, name) == -1
    ensures ClassFree(t, name)
  {
  }

  /** Adding a property of a class the tree does not have keeps the classes
      unique. */
  lemma AddToFreeClass(t: Tree, e: Entry)
    requires ClassUnique(t) && ClassFree(t, e.path)
    ensures ClassUnique(WithValue(t, e.path, e.value))
  {
    assert !HasPath(t, e.path);
    var r := WithValue(t, e.path, e.value);
    assert r == t + [Entry(e.path, e.value)];
    forall i, j | 0 <= i < j < |r|
      ensures !SameClass(r[i].path, r[j].path)
    {
      assert r[i] == t[i];
    }
  }

  /** Every path of `WithoutPath(t, p)` is a path of `t` other than `p`. */
  lemma {:induction false} WithoutPathFrom(t: Tree, p: string, i: int)
    requires 0 <= i < |WithoutPath(t, p)|
    ensures var q := WithoutPath(t, p)[i].path;
      q != p && exists k :: 0 <= k < |t| && t[k].path == q
  {
    var w := WithoutPath(t, p);
    var rest := WithoutPath(t[1..], p);
    if t[0].path == p {
      assert w == rest;
      WithoutPathFrom(t[1..], p, i);
      var k :| 0 <= k < |t[1..]| && t[1..][k].path == w[i].path;
      assert t[k + 1].path == w[i].path;
    } else {
      assert w == [t[0]] + rest;
      if i == 0 {
        assert t[0].path == w[i].path;
      } else {
        assert w[i] == rest[i - 1];
        WithoutPathFrom(t[1..], p, i - 1);
        var k :| 0 <= k < |t[1..]| && t[1..][k].path == w[i].path;
        assert t[k + 1].path == w[i].path;
      }
    }
  }

  /** With at most one property per class, the match (if any) is the only
      property of the class, and removing it frees the class. */
  lemma RemoveMatchFreesClass(t: Tree, e: Entry)
    requires ClassUnique(t) && LastMatch(t, e.path) >= 0
    ensures var w := WithoutPath(t, t[LastMatch(t, e.path)].path);
      ClassUnique(w) && ClassFree(w, e.path)
  {
    var m := LastMatch(t, e.path);
    var oldPath := t[m].path;
    var w := WithoutPath(t, oldPath);
    ClassUniqueWellFormed(t);
    forall i | 0 <= i < |w|
      ensures !SameClass(w[i].path, e.path)
    {
      WithoutPathFrom(t, oldPath, i);
      var k :| 0 <= k < |t| && t[k].path == w[i].path;
      assert k != m;
    }
    forall i, j | 0 <= i < j < |w|
      ensures !SameClass(w[i].path, w[j].path)
    {
      WithoutPathFrom(t, oldPath, i);
      WithoutPathFrom(t, oldPath, j);
      var a :| 0 <= a < |t| && t[a].path == w[i].path;
      var b :| 0 <= b < |t| && t[b].path == w[j].path;
      assert a != b;
    }
  }

  lemma RenamingStepClassUnique(acc: Tree, e: Entry)
    requires ClassUnique(acc)
    ensures ClassUnique(RenamingStep(acc, e))
  {
    var m := LastMatch(acc, e.path);
    if m >= 0 {
      RemoveMatchFreesClass(acc, e);
      AddToFreeClass(WithoutPath(acc, acc[m].path), e);
    } else {
      LastMatchNoneClassFree(acc, e.path);
      AddToFreeClass(acc, e);
    }
  }

  lemma KeepNameStepClassUnique(acc: Tree, e: Entry)
    requires ClassUnique(acc)
    ensures ClassUnique(KeepNameStep(acc, e))
  {
    var m := LastMatch(acc, e.path);
    if m >= 0 {
      assert HasPath(acc, acc[m].path);
      WithValueInPlace(acc, acc[m].path, e.value);
    } else {
      LastMatchNoneClassFree(acc, e.path);
      AddToFreeClass(acc, e);
    }
  }

  /** With folding on, an accumulator with at most one property per class
      keeps that shape through any merged tree. */
  lemma {:induction false} MergeTreeClassUnique(acc: Tree, t: Tree, folding: Folding)
    requires folding != Exact && ClassUnique(acc)
    ensures ClassUnique(MergeTree(acc, t, folding))
    decreases |t|
  {
    if t != [] {
      if folding == Renaming {
        RenamingStepClassUnique(acc, t[0]);
      } else {
        KeepNameStepClassUnique(acc, t[0]);
      }
      MergeTreeClassUnique(MergeEntry(acc, t[0], folding), t[1..], folding);
    }
  }

  // ----- folding a key's resources -----

  /** Every resource can be read and parsed. */
  predicate AllParse(rs: seq<ConfigResource>, parse: Resource -> Option<Tree>) {
    forall i :: 0 <= i < |rs| ==> parse(rs[i].resource).Some?
  }

  /** `bad` is the first resource of `rs` that cannot be read. */
  predicate FirstFailure(rs: seq<ConfigResource>, parse: Resource -> Option<Tree>, bad: ConfigResource) {
    exists i :: 0 <= i < |rs| && rs[i] == bad && parse(bad.resource).None? &&
      forall k :: 0 <= k < i ==> parse(rs[k].resource).Some?
  }

  lemma AllParseCons(rs: seq<ConfigResource>, parse: Resource -> Option<Tree>)
    requires rs != []
    ensures AllParse(rs, parse) <==> parse(rs[0].resource).Some? && AllParse(rs[1..], parse)
  {
    if parse(rs[0].resource).Some? && AllParse(rs[1..], parse) {
      forall i | 0 <= i < |rs|
        ensures parse(rs[i].resource).Some?
      {
        if i > 0 {
          assert rs[i] == rs[1..][i - 1];
        }
      }
    }
  }

  lemma FirstFailureCons(rs: seq<ConfigResource>, parse: Resource -> Option<Tree>, bad: ConfigResource)
    requires rs != [] && parse(rs[0].resource).Some? && FirstFailure(rs[1..], parse, bad)
    ensures FirstFailure(rs, parse, bad)
  {
    var i :| 0 <= i < |rs[1..]| && rs[1..][i] == bad && parse(bad.resource).None? &&
      forall k :: 0 <= k < i ==> parse(rs[1..][k].resource).Some?;
    assert rs[i + 1] == bad;
    forall k | 0 <= k < i + 1
      ensures parse(rs[k].resource).Some?
    {
      if k > 0 {
        assert rs[k] == rs[1..][k - 1];
      }
    }
  }

  /** The accumulator after one more tree: the first tree is taken as it
      is, later ones are merged in. */
  function Absorb(acc: Option<Tree>, t: Tree, folding: Folding): Tree {
    match acc
    case None => t
    case Some(a) => MergeTree(a, t, folding)
  }

  /** The fold over a key's resources in load order. A resource that cannot
      be read or parsed aborts the fold with that resource (the
      `ConfigLoadException` naming it). */
  function FoldResources(acc: Option<Tree>, rs: seq<ConfigResource>,
                         parse: Resource -> Option<Tree>, folding: Folding): (r: Result<Option<Tree>, ConfigResource>)
    ensures r.Ok? <==> AllParse(rs, parse)
    ensures r.Err? ==> FirstFailure(rs, parse, r.error)
    ensures r.Ok? ==> (r.value.None? <==> acc.None? && rs == [])
    decreases |rs|
  {
    if rs == [] then Ok(acc)
    else
      AllParseCons(rs, parse);
      match parse(rs[0].resource)
      case None =>
        assert FirstFailure(rs, parse, rs[0]) by {
          assert rs[0] == rs[0];
        }
        Err(rs[0])
      case Some(t) =>
        var r := FoldResources(Some(Absorb(acc, t, folding)), rs[1..], parse, folding);
        if r.Err? then
          FirstFailureCons(rs, parse, r.error);
          r
        else r
  }

  /** The first resource's tree becomes the accumulator unchanged: it is
      not merged into an empty tree. */
  lemma FirstTreeVerbatim(rs: seq<ConfigResource>, parse: Resource -> Option<Tree>, folding: Folding)
    requires rs != [] && parse(rs[0].resource).Some?
    ensures FoldResources(None, rs, parse, folding) ==
            FoldResources(Some(parse(rs[0].resource).value), rs[1..], parse, folding)
  {
  }

  /** The trees of `rs`, read in order. */
  function Parsed(rs: seq<ConfigResource>, parse: Resource -> Option<Tree>): (r: seq<Tree>)
    requires AllParse(rs, parse)
    ensures |r| == |rs|
    decreases |rs|
  {
    if rs == [] then []
    else
      AllParseCons(rs, parse);
      [parse(rs[0].resource).value] + Parsed(rs[1..], parse)
  }

  /** The value of `q` in the last tree of `trees` that has it. */
  function LastDefinition(trees: seq<Tree>, q: string): (r: Option<Value>)
    decreases |trees|
  {
    if trees == [] then None
    else
      var later := LastDefinition(trees[1..], q);
      if later.Some? then later else Lookup(trees[0], q)
  }

  /** The parser produces entry sets: no path twice. */
  predicate ParsesWellFormed(rs: seq<ConfigResource>, parse: Resource -> Option<Tree>) {
    forall i :: 0 <= i < |rs| && parse(rs[i].resource).Some? ==> WellFormed(parse(rs[i].resource).value)
  }

  /** Without folding, every path ends up with the value of the last
      resource that defines it, and keeps the accumulator's value when no
      resource does. */
  lemma {:induction false} ExactFoldLastWins(acc: Tree, rs: seq<ConfigResource>, parse: Resource -> Option<Tree>, q: string)
    requires AllParse(rs, parse) && ParsesWellFormed(rs, parse)
    ensures var r := FoldResources(Some(acc), rs, parse, Exact);
      r.Ok? && r.value.Some? &&
      Lookup(r.value.value, q) == (var d := LastDefinition(Parsed(rs, parse), q); if d.Some? then d else Lookup(acc, q))
    decreases |rs|
  {
    if rs != [] {
      AllParseCons(rs, parse);
      var t := parse(rs[0].resource).value;
      assert WellFormed(t) by {
        assert parse(rs[0].resource).Some?;
      }
      var next := MergeTree(acc, t, Exact);
      MergeExactIsOverwrite(acc, t);
      assert ParsesWellFormed(rs[1..], parse) by {
        forall i | 0 <= i < |rs[1..]| && parse(rs[1..][i].resource).Some?
          ensures WellFormed(parse(rs[1..][i].resource).value)
        {
          assert rs[1..][i] == rs[i + 1];
        }
      }
      ExactFoldLastWins(next, rs[1..], parse, q);
      assert Parsed(rs, parse) == [t] + Parsed(rs[1..], parse);
      assert Parsed(rs, parse)[1..] == Parsed(rs[1..], parse);
      assert Lookup(next, q) == (if HasPath(t, q) then Lookup(t, q) else Lookup(acc, q));
    }
  }

  /** Starting from nothing, the first tree is the base and the rest
      override it. */
  lemma ExactLoadLastWins(rs: seq<ConfigResource>, parse: Resource -> Option<Tree>, q: string)
    requires rs != [] && AllParse(rs, parse) && ParsesWellFormed(rs, parse)
    ensures var r := FoldResources(None, rs, parse, Exact);
      r.Ok? && r.value.Some? && Lookup(r.value.value, q) == LastDefinition(Parsed(rs, parse), q)
  {
    AllParseCons(rs, parse);
    var t := parse(rs[0].resource).value;
    assert ParsesWellFormed(rs[1..], parse) by {
      forall i | 0 <= i < |rs[1..]| && parse(rs[1..][i].resource).Some?
        ensures WellFormed(parse(rs[1..][i].resource).value)
      {
        assert rs[1..][i] == rs[i + 1];
      }
    }
    ExactFoldLastWins(t, rs[1..], parse, q);
    assert Parsed(rs, parse)[1..] == Parsed(rs[1..], parse);
  }

  // ----- the order resources are read in -----

  /** A bunch's resources in the order they are read: sorted by convention
      priority in the loader, in map order in the older registry. */
  function ResourceOrder(b: Bunch, sortResources: bool): (r: seq<ConfigResource>)
    ensures multiset(r) == multiset(Values(b))
    ensures sortResources ==> SortedBy(r, ResourcePriority)
  {
    if sortResources then Sort(Values(b), ResourcePriority) else Values(b)
  }

  /** However the map iterates, sorting gives back the enumeration order,
      since the enumeration numbered the resources 1, 2, 3, ... */
  lemma ResourceOrderRestoresEnumeration(b: Bunch, enumerated: seq<ConfigResource>)
    requires StrictlySortedBy(enumerated, ResourcePriority)
    requires multiset(Values(b)) == multiset(enumerated)
    ensures ResourceOrder(b, true) == enumerated
  {
    SortRestoresStrictOrder(Values(b), enumerated, ResourcePriority);
  }

  function ConcatOrders(bunches: seq<Bunch>, sortResources: bool): seq<ConfigResource>
    decreases |bunches|
  {
    if bunches == [] then [] else ResourceOrder(bunches[0], sortResources) + ConcatOrders(bunches[1..], sortResources)
  }

  /** A key's resources in load order: bunches stably sorted by explicit
      priority, then each bunch's resources. */
  function LoadOrder(bunches: seq<Bunch>, sortResources: bool): (r: seq<ConfigResource>)
  {
    ConcatOrders(Sort(bunches, BunchPriority), sortResources)
  }

  lemma {:induction false} ConcatOrdersAppend(a: seq<Bunch>, b: seq<Bunch>, sortResources: bool)
    ensures ConcatOrders(a + b, sortResources) == ConcatOrders(a, sortResources) + ConcatOrders(b, sortResources)
    decreases |a|
  {
    if a == [] {
      assert a + b == b;
    } else {
      var s := sortResources;
      calc {
        ConcatOrders(a + b, s);
        ResourceOrder((a + b)[0], s) + ConcatOrders((a + b)[1..], s);
        { assert (a + b)[0] == a[0] && (a + b)[1..] == a[1..] + b; }
        ResourceOrder(a[0], s) + ConcatOrders(a[1..] + b, s);
        { ConcatOrdersAppend(a[1..], b, s); }
        ResourceOrder(a[0], s) + (ConcatOrders(a[1..], s) + ConcatOrders(b, s));
        (ResourceOrder(a[0], s) + ConcatOrders(a[1..], s)) + ConcatOrders(b, s);
      }
    }
  }

  /** Load order is bunch-major: the resources of the bunches before the
      `i`-th one in priority order, then that bunch's resources, then the
      rest. */
  lemma LoadOrderBunchMajor(bunches: seq<Bunch>, sortResources: bool, i: int)
    requires 0 <= i < |bunches|
    ensures var sorted := Sort(bunches, BunchPriority);
      LoadOrder(bunches, sortResources) ==
        ConcatOrders(sorted[..i], sortResources) + ResourceOrder(sorted[i], sortResources) +
        ConcatOrders(sorted[i + 1..], sortResources)
  {
    var sorted := Sort(bunches, BunchPriority);
    assert sorted == sorted[..i] + ([sorted[i]] + sorted[i + 1..]);
    ConcatOrdersAppend(sorted[..i], [sorted[i]] + sorted[i + 1..], sortResources);
    assert ([sorted[i]] + sorted[i + 1..])[1..] == sorted[i + 1..];
  }

  /** One key: its bunches folded into one tree, or the resource that could
      not be read. */
  function LoadKey(bunches: seq<Bunch>, parse: Resource -> Option<Tree>,
                   folding: Folding, sortResources: bool): (r: Result<Option<Tree>, ConfigResource>)
    ensures r.Ok? <==> AllParse(LoadOrder(bunches, sortResources), parse)
    ensures r.Err? ==> FirstFailure(LoadOrder(bunches, sortResources), parse, r.error)
  {
    FoldResources(None, LoadOrder(bunches, sortResources), parse, folding)
  }

  // ----- every key -----

  /** The holder's entries: key to tree, a null tree when a key had no
      resource. */
  type Holder = map<string, Option<Tree>>

  /** After the loop over keys: the holder, and the unreadable resource
      that stopped it, if any. */
  datatype LoadOutcome = LoadOutcome(holder: Holder, failure: Option<ConfigResource>)

  predicate AllKeysLoad(keyed: seq<(string, seq<Bunch>)>, parse: Resource -> Option<Tree>,
                        folding: Folding, sortResources: bool) {
    forall i :: 0 <= i < |keyed| ==> LoadKey(keyed[i].1, parse, folding, sortResources).Ok?
  }

  /** Every key not listed in `keyed` has the same entry, or the same
      absence, in `after` as in `before`. */
  ghost predicate KeptOutside(keyed: seq<(string, seq<Bunch>)>, before: Holder, after: Holder) {
    forall k :: !HasKey(keyed, k) ==>
      (k in after <==> k in before) && (k in before ==> after[k] == before[k])
  }

  /** Key `i` is the first whose fold fails, and `bad` is its unreadable
      resource. */
  predicate StoppedAt(keyed: seq<(string, seq<Bunch>)>, parse: Resource -> Option<Tree>,
                      folding: Folding, sortResources: bool, i: int, bad: ConfigResource) {
    0 <= i < |keyed| &&
    (forall j :: 0 <= j < i ==> LoadKey(keyed[j].1, parse, folding, sortResources).Ok?) &&
    LoadKey(keyed[i].1, parse, folding, sortResources) == Err(bad)
  }

  /** A failed loop stopped at the first failing key, and only the keys
      before it may have changed: the failing key and every later one keep
      what they held, unless an earlier key shares their name. */
  ghost predicate StopsAtFirst(keyed: seq<(string, seq<Bunch>)>, holder: Holder, parse: Resource -> Option<Tree>,
                         folding: Folding, sortResources: bool, r: LoadOutcome) {
    r.failure.Some? ==>
      exists i :: StoppedAt(keyed, parse, folding, sortResources, i, r.failure.value) &&
        KeptOutside(keyed[..i], holder, r.holder)
  }

  /** The loop over the located keys: each key is registered once its fold
      has completed; the first failure ends the loop, so that key and every
      later one are left as they were. */
  function LoadAll(keyed: seq<(string, seq<Bunch>)>, holder: Holder, parse: Resource -> Option<Tree>,
                   folding: Folding, sortResources: bool): (r: LoadOutcome)
    ensures r.failure.None? <==> AllKeysLoad(keyed, parse, folding, sortResources)
    ensures forall k :: !HasKey(keyed, k) ==>
      (k in r.holder <==> k in holder) && (k in holder ==> r.holder[k] == holder[k])
    ensures forall k :: k in holder ==> k in r.holder
    ensures StopsAtFirst(keyed, holder, parse, folding, sortResources, r)
    decreases |keyed|
  {
    if keyed == [] then LoadOutcome(holder, None)
    else
      var (key, bunches) := keyed[0];
      match LoadKey(bunches, parse, folding, sortResources)
      case Err(bad) =>
        var r := LoadOutcome(holder, Some(bad));
        StopsAtHead(keyed, holder, parse, folding, sortResources, bad);
        r
      case Ok(tree) =>
        var r := LoadAll(keyed[1..], holder[key := tree], parse, folding, sortResources);
        LoadAllStep(keyed, holder, parse, folding, sortResources, r);
        StopsAtFirstStep(keyed, holder, parse, folding, sortResources, r);
        r
  }

  /** A failure at the first key changes nothing. */
  lemma StopsAtHead(keyed: seq<(string, seq<Bunch>)>, holder: Holder, parse: Resource -> Option<Tree>,
                    folding: Folding, sortResources: bool, bad: ConfigResource)
    requires keyed != [] && LoadKey(keyed[0].1, parse, folding, sortResources) == Err(bad)
    ensures StopsAtFirst(keyed, holder, parse, folding, sortResources, LoadOutcome(holder, Some(bad)))
  {
    assert StoppedAt(keyed, parse, folding, sortResources, 0, bad);
    assert KeptOutside(keyed[..0], holder, holder);
  }

  /** Where the rest of the loop stopped, one key further on, the whole
      loop stopped. */
  lemma StopsAtFirstStep(keyed: seq<(string, seq<Bunch>)>, holder: Holder, parse: Resource -> Option<Tree>,
                         folding: Folding, sortResources: bool, r: LoadOutcome)
    requires keyed != [] && LoadKey(keyed[0].1, parse, folding, sortResources).Ok?
    requires StopsAtFirst(keyed[1..], holder[keyed[0].0 := LoadKey(keyed[0].1, parse, folding, sortResources).value],
                          parse, folding, sortResources, r)
    ensures StopsAtFirst(keyed, holder, parse, folding, sortResources, r)
  {
    if r.failure.Some? {
      var v := LoadKey(keyed[0].1, parse, folding, sortResources).value;
      var rest := keyed[1..];
      var i :| StoppedAt(rest, parse, folding, sortResources, i, r.failure.value) &&
        KeptOutside(rest[..i], holder[keyed[0].0 := v], r.holder);
      StoppedAtCons(keyed, parse, folding, sortResources, i, r.failure.value);
      TakeTail(keyed, i);
      KeptOutsideCons(keyed[..i + 1], holder, v, r.holder);
      StopsAtWitness(keyed, holder, parse, folding, sortResources, r, i + 1);
    }
  }

  lemma TakeTail<T>(s: seq<T>, i: int)
    requires 0 <= i < |s|
    ensures s[..i + 1] != [] && s[..i + 1][0] == s[0] && s[..i + 1][1..] == s[1..][..i]
  {
  }

  lemma StopsAtWitness(keyed: seq<(string, seq<Bunch>)>, holder: Holder, parse: Resource -> Option<Tree>,
                       folding: Folding, sortResources: bool, r: LoadOutcome, i: int)
    requires r.failure.Some? && StoppedAt(keyed, parse, folding, sortResources, i, r.failure.value)
    requires KeptOutside(keyed[..i], holder, r.holder)
    ensures StopsAtFirst(keyed, holder, parse, folding, sortResources, r)
  {
  }

  lemma StoppedAtCons(keyed: seq<(string, seq<Bunch>)>, parse: Resource -> Option<Tree>,
                      folding: Folding, sortResources: bool, i: int, bad: ConfigResource)
    requires keyed != [] && LoadKey(keyed[0].1, parse, folding, sortResources).Ok?
    requires StoppedAt(keyed[1..], parse, folding, sortResources, i, bad)
    ensures StoppedAt(keyed, parse, folding, sortResources, i + 1, bad)
  {
    forall j | 0 <= j < i + 1
      ensures LoadKey(keyed[j].1, parse, folding, sortResources).Ok?
    {
      if j > 0 {
        assert keyed[j] == keyed[1..][j - 1];
      }
    }
    assert keyed[i + 1] == keyed[1..][i];
  }

  /** Registering the first key before the rest keeps every key outside
      the whole list. */
  lemma KeptOutsideCons(keyed: seq<(string, seq<Bunch>)>, holder: Holder, v: Option<Tree>, after: Holder)
    requires keyed != [] && KeptOutside(keyed[1..], holder[keyed[0].0 := v], after)
    ensures KeptOutside(keyed, holder, after)
  {
    forall k | !HasKey(keyed, k)
      ensures (k in after <==> k in holder) && (k in holder ==> after[k] == holder[k])
    {
      HasKeyCons(keyed, k);
    }
  }

  lemma LoadAllStep(keyed: seq<(string, seq<Bunch>)>, holder: Holder, parse: Resource -> Option<Tree>,
                    folding: Folding, sortResources: bool, r: LoadOutcome)
    requires keyed != [] && LoadKey(keyed[0].1, parse, folding, sortResources).Ok?
    requires var h := holder[keyed[0].0 := LoadKey(keyed[0].1, parse, folding, sortResources).value];
      (r.failure.None? <==> AllKeysLoad(keyed[1..], parse, folding, sortResources)) &&
      (forall k :: !HasKey(keyed[1..], k) ==> (k in r.holder <==> k in h) && (k in h ==> r.holder[k] == h[k])) &&
      (forall k :: k in h ==> k in r.holder)
    ensures r.failure.None? <==> AllKeysLoad(keyed, parse, folding, sortResources)
    ensures forall k :: !HasKey(keyed, k) ==>
      (k in r.holder <==> k in holder) && (k in holder ==> r.holder[k] == holder[k])
    ensures forall k :: k in holder ==> k in r.holder
  {
    forall k
      ensures HasKey(keyed, k) <==> keyed[0].0 == k || HasKey(keyed[1..], k)
    {
      HasKeyCons(keyed, k);
    }
    if AllKeysLoad(keyed[1..], parse, folding, sortResources) {
      forall i | 0 <= i < |keyed|
        ensures LoadKey(keyed[i].1, parse, folding, sortResources).Ok?
      {
        if i > 0 {
          assert keyed[i] == keyed[1..][i - 1];
        }
      }
    }
    if AllKeysLoad(keyed, parse, folding, sortResources) {
      forall i | 0 <= i < |keyed[1..]|
        ensures LoadKey(keyed[1..][i].1, parse, folding, sortResources).Ok?
      {
        assert keyed[1..][i] == keyed[i + 1];
      }
    }
  }

  /** The keys of `keyed` from position `i` on have the same entry, or the
      same absence, in `after` as in `before`. */
  predicate KeptFrom(keyed: seq<(string, seq<Bunch>)>, i: int, before: Holder, after: Holder) {
    forall j :: i <= j < |keyed| && 0 <= j ==>
      (keyed[j].0 in after <==> keyed[j].0 in before) &&
      (keyed[j].0 in before ==> after[keyed[j].0] == before[keyed[j].0])
  }

  /** With distinct keys, a failed loop leaves the failing key and every
      later one exactly as they were: nothing is registered for a key whose
      fold did not complete. */
  lemma LoadAllLeavesRestUntouched(keyed: seq<(string, seq<Bunch>)>, holder: Holder, parse: Resource -> Option<Tree>,
                                   folding: Folding, sortResources: bool)
    requires forall a, b :: 0 <= a < b < |keyed| ==> keyed[a].0 != keyed[b].0
    requires LoadAll(keyed, holder, parse, folding, sortResources).failure.Some?
    ensures var r := LoadAll(keyed, holder, parse, folding, sortResources);
      exists i :: StoppedAt(keyed, parse, folding, sortResources, i, r.failure.value) &&
        KeptFrom(keyed, i, holder, r.holder)
  {
    var r := LoadAll(keyed, holder, parse, folding, sortResources);
    var i :| StoppedAt(keyed, parse, folding, sortResources, i, r.failure.value) &&
      KeptOutside(keyed[..i], holder, r.holder);
    KeptBeyond(keyed, i, holder, r.holder);
  }

  /** With distinct keys, the keys from `i` on lie outside the first `i`. */
  lemma KeptBeyond(keyed: seq<(string, seq<Bunch>)>, i: int, before: Holder, after: Holder)
    requires forall a, b :: 0 <= a < b < |keyed| ==> keyed[a].0 != keyed[b].0
    requires 0 <= i <= |keyed| && KeptOutside(keyed[..i], before, after)
    ensures KeptFrom(keyed, i, before, after)
  {
    forall j | i <= j < |keyed|
      ensures !HasKey(keyed[..i], keyed[j].0)
    {
    }
  }

  /** `bad` is the first unreadable resource in the load order of one of
      the keys. */
  predicate KeyFailed(keyed: seq<(string, seq<Bunch>)>, parse: Resource -> Option<Tree>,
                      sortResources: bool, bad: ConfigResource) {
    exists i :: 0 <= i < |keyed| && FirstFailure(LoadOrder(keyed[i].1, sortResources), parse, bad)
  }

  /** A failure names the first unreadable resource of some key's load
      order. */
  lemma {:induction false} LoadAllFailure(keyed: seq<(string, seq<Bunch>)>, holder: Holder, parse: Resource -> Option<Tree>,
                                          folding: Folding, sortResources: bool)
    ensures var r := LoadAll(keyed, holder, parse, folding, sortResources);
      r.failure.Some? ==> KeyFailed(keyed, parse, sortResources, r.failure.value)
    decreases |keyed|
  {
    if keyed != [] {
      var (key, bunches) := keyed[0];
      var l := LoadKey(bunches, parse, folding, sortResources);
      if l.Err? {
        assert FirstFailure(LoadOrder(keyed[0].1, sortResources), parse, l.error);
      } else {
        LoadAllFailure(keyed[1..], holder[key := l.value], parse, folding, sortResources);
        var r := LoadAll(keyed[1..], holder[key := l.value], parse, folding, sortResources);
        if r.failure.Some? {
          var i :| 0 <= i < |keyed[1..]| && FirstFailure(LoadOrder(keyed[1..][i].1, sortResources), parse, r.failure.value);
          assert keyed[1..][i] == keyed[i + 1];
        }
      }
    }
  }

  /** When every key loads, each key (the keys being distinct) holds its
      own fold. */
  lemma {:induction false} LoadAllRegistersEveryKey(keyed: seq<(string, seq<Bunch>)>, holder: Holder,
                                                    parse: Resource -> Option<Tree>, folding: Folding,
                                                    sortResources: bool, i: int)
    requires forall a, b :: 0 <= a < b < |keyed| ==> keyed[a].0 != keyed[b].0
    requires AllKeysLoad(keyed, parse, folding, sortResources) && 0 <= i < |keyed|
    ensures var r := LoadAll(keyed, holder, parse, folding, sortResources);
      keyed[i].0 in r.holder &&
      r.holder[keyed[i].0] == LoadKey(keyed[i].1, parse, folding, sortResources).value
    decreases |keyed|
  {
    var (key, bunches) := keyed[0];
    assert LoadKey(bunches, parse, folding, sortResources).Ok?;
    var h := holder[key := LoadKey(bunches, parse, folding, sortResources).value];
    if i == 0 {
      assert !HasKey(keyed[1..], key) by {
        forall j | 0 <= j < |keyed[1..]|
          ensures keyed[1..][j].0 != key
        {
          assert keyed[1..][j] == keyed[j + 1];
        }
      }
    } else {
      assert AllKeysLoad(keyed[1..], parse, folding, sortResources) by {
        forall j | 0 <= j < |keyed[1..]|
          ensures LoadKey(keyed[1..][j].1, parse, folding, sortResources).Ok?
        {
          assert keyed[1..][j] == keyed[j + 1];
        }
      }
      assert keyed[1..][i - 1] == keyed[i];
      LoadAllRegistersEveryKey(keyed[1..], h, parse, folding, sortResources, i - 1);
    }
  }
}
