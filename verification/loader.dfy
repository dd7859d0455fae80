/** `ConfigResourceLoader.load`: every key's bunches sorted by explicit
    priority, each bunch's resources sorted by convention priority, and the
    trees folded with the renaming merge when kebab/camel mapping is on. */
module ResourceLoader {
  import opened Wrappers
  import opened ConfigTree
  import opened ConfigResources
  import opened ConfigMerge
  import opened Assoc

  function LoaderFolding(mapKebabCamelCase: bool): Folding {
    if mapKebabCamelCase then Renaming else Exact
  }

  /** `load` over the bunches map, registering each key into `holder`. */
  function Load(mapKebabCamelCase: bool, bunchesMap: seq<(string, seq<Bunch>)>, holder: Holder,
                parse: Resource -> Option<Tree>): (r: LoadOutcome)
    ensures r.failure.None? <==> AllKeysLoad(bunchesMap, parse, LoaderFolding(mapKebabCamelCase), true)
    ensures r.failure.Some? ==> KeyFailed(bunchesMap, parse, true, r.failure.value)
    ensures forall k :: !HasKey(bunchesMap, k) ==>
      (k in r.holder <==> k in holder) && (k in holder ==> r.holder[k] == holder[k])
    ensures r.failure.Some? ==>
      exists i :: StoppedAt(bunchesMap, parse, LoaderFolding(mapKebabCamelCase), true, i, r.failure.value) &&
        KeptOutside(bunchesMap[..i], holder, r.holder)
  {
    LoadAllFailure(bunchesMap, holder, parse, LoaderFolding(mapKebabCamelCase), true);
    LoadAll(bunchesMap, holder, parse, LoaderFolding(mapKebabCamelCase), true)
  }

  /** Every tree the parser can produce has at most one property per
      kebab/camel class. */
  predicate ParsesClassUnique(rs: seq<ConfigResource>, parse: Resource -> Option<Tree>) {
    forall i :: 0 <= i < |rs| && parse(rs[i].resource).Some? ==> ClassUnique(parse(rs[i].resource).value)
  }

  /** With renaming on, a fold over trees that each hold one property per
      class yields a tree that still does. */
  lemma {:induction false} RenamingFoldClassUnique(acc: Option<Tree>, rs: seq<ConfigResource>,
                                                   parse: Resource -> Option<Tree>)
    requires acc.Some? ==> ClassUnique(acc.value)
    requires ParsesClassUnique(rs, parse)
    ensures var r := FoldResources(acc, rs, parse, Renaming);
      r.Ok? && r.value.Some? ==> ClassUnique(r.value.value)
    decreases |rs|
  {
    if rs != [] && parse(rs[0].resource).Some? {
      var t := parse(rs[0].resource).value;
      assert ClassUnique(t);
      if acc.Some? {
        MergeTreeClassUnique(acc.value, t, Renaming);
      }
      assert ParsesClassUnique(rs[1..], parse) by {
        forall i | 0 <= i < |rs[1..]| && parse(rs[1..][i].resource).Some?
          ensures ClassUnique(parse(rs[1..][i].resource).value)
        {
          assert rs[1..][i] == rs[i + 1];
        }
      }
      RenamingFoldClassUnique(Some(Absorb(acc, t, Renaming)), rs[1..], parse);
    }
  }

  /** A key loaded with renaming on holds at most one property per class,
      provided each of its files does. */
  lemma LoadedKeyClassUnique(bunches: seq<Bunch>, parse: Resource -> Option<Tree>)
    requires ParsesClassUnique(LoadOrder(bunches, true), parse)
    ensures var r := LoadKey(bunches, parse, Renaming, true);
      r.Ok? && r.value.Some? ==> ClassUnique(r.value.value)
  {
    RenamingFoldClassUnique(None, LoadOrder(bunches, true), parse);
  }

  /** When every key loads, each key of the map (keys being distinct) holds
      the fold of its sorted bunches and sorted resources. */
  lemma LoadRegistersEveryKey(mapKebabCamelCase: bool, bunchesMap: seq<(string, seq<Bunch>)>, holder: Holder,
                              parse: Resource -> Option<Tree>, i: int)
    requires forall a, b :: 0 <= a < b < |bunchesMap| ==> bunchesMap[a].0 != bunchesMap[b].0
    requires Load(mapKebabCamelCase, bunchesMap, holder, parse).failure.None? && 0 <= i < |bunchesMap|
    ensures LoadKey(bunchesMap[i].1, parse, LoaderFolding(mapKebabCamelCase), true).Ok?
    ensures var r := Load(mapKebabCamelCase, bunchesMap, holder, parse);
      bunchesMap[i].0 in r.holder &&
      r.holder[bunchesMap[i].0] == LoadKey(bunchesMap[i].1, parse, LoaderFolding(mapKebabCamelCase), true).value
  {
    LoadAllRegistersEveryKey(bunchesMap, holder, parse, LoaderFolding(mapKebabCamelCase), true, i);
  }
}
