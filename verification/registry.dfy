/** `ConfigRegistry`, the older registry: it sorts its locators, gathers
    the bunches they locate per key, folds each key's resources with the
    kebab/camel "keep the existing name" merge (or exact paths when that
    option is off) and holds the results by key. */
module Registry {
  import opened Wrappers
  import opened PriorityOrder
  import opened ConfigTree
  import opened ConfigResources
  import opened ConfigMerge
  import opened Assoc

  /** What one locator located: key to bunches, in the map's iteration
      order, as `locate()` returned it. */
  type Located = seq<(string, seq<Bunch>)>

  datatype Locator = Locator(priority: Priority, located: Located)

  function LocatorPriority(l: Locator): Priority {
    l.priority
  }

  lemma AppendAssociative<T>(a: seq<T>, b: seq<T>, c: seq<T>)
    ensures (a + b) + c == a + (b + c)
  {
  }

  /** Every bunch `located` lists for `k`, in order. */
  function Collected(located: Located, k: string): (r: seq<Bunch>)
    ensures !HasKey(located, k) ==> r == []
    decreases |located|
  {
    if located == [] then []
    else
      HasKeyCons(located, k);
      (if located[0].0 == k then located[0].1 else []) + Collected(located[1..], k)
  }

  /** One entry of a located map added to the gathered map: appended to the
      key's bunches when the key is there, put at the end otherwise. */
  function Gather(acc: Located, key: string, bunches: seq<Bunch>): (r: Located)
    ensures Find(r, key) == Some(Find(acc, key).GetOr([]) + bunches)
    ensures forall k :: k != key ==> Find(r, k) == Find(acc, k)
    ensures DistinctKeys(acc) ==> DistinctKeys(r)
  {
    Put(acc, key, Find(acc, key).GetOr([]) + bunches)
  }

  /** One locator's map gathered in, entry by entry. */
  function GatherLocated(acc: Located, located: Located): (r: Located)
    ensures forall k :: Find(r, k).Some? <==> Find(acc, k).Some? || HasKey(located, k)
    ensures forall k :: Find(r, k).GetOr([]) == Find(acc, k).GetOr([]) + Collected(located, k)
    ensures DistinctKeys(acc) ==> DistinctKeys(r)
    decreases |located|
  {
    if located == [] then acc
    else
      var (key, bunches) := located[0];
      var next := Gather(acc, key, bunches);
      var r := GatherLocated(next, located[1..]);
      GatherLocatedStep(acc, located, next, r);
      r
  }

  lemma GatherLocatedStep(acc: Located, located: Located, next: Located, r: Located)
    requires located != [] && next == Gather(acc, located[0].0, located[0].1)
    requires forall k :: Find(r, k).Some? <==> Find(next, k).Some? || HasKey(located[1..], k)
    requires forall k :: Find(r, k).GetOr([]) == Find(next, k).GetOr([]) + Collected(located[1..], k)
    ensures forall k :: Find(r, k).Some? <==> Find(acc, k).Some? || HasKey(located, k)
    ensures forall k :: Find(r, k).GetOr([]) == Find(acc, k).GetOr([]) + Collected(located, k)
  {
    forall k
      ensures Find(r, k).Some? <==> Find(acc, k).Some? || HasKey(located, k)
      ensures Find(r, k).GetOr([]) == Find(acc, k).GetOr([]) + Collected(located, k)
    {
      GatherLocatedKey(acc, located, next, r, k);
    }
  }

  lemma GatherLocatedKey(acc: Located, located: Located, next: Located, r: Located, k: string)
    requires located != [] && next == Gather(acc, located[0].0, located[0].1)
    requires Find(r, k).Some? <==> Find(next, k).Some? || HasKey(located[1..], k)
    requires Find(r, k).GetOr([]) == Find(next, k).GetOr([]) + Collected(located[1..], k)
    ensures Find(r, k).Some? <==> Find(acc, k).Some? || HasKey(located, k)
    ensures Find(r, k).GetOr([]) == Find(acc, k).GetOr([]) + Collected(located, k)
  {
    HasKeyCons(located, k);
    var head := if located[0].0 == k then located[0].1 else [];
    var a := Find(acc, k).GetOr([]);
    var rest := Collected(located[1..], k);
    assert Collected(located, k) == head + rest;
    if located[0].0 == k {
      assert Find(next, k) == Some(a + head);
      AppendAssociative(a, head, rest);
    } else {
      assert Find(next, k) == Find(acc, k);
      assert head + rest == rest;
    }
  }

  /** Every bunch the locators find for `k`, locator by locator. */
  function CollectedAll(locators: seq<Locator>, k: string): seq<Bunch>
    decreases |locators|
  {
    if locators == [] then [] else Collected(locators[0].located, k) + CollectedAll(locators[1..], k)
  }

  /** Some locator found `k`. */
  predicate AnyLocates(locators: seq<Locator>, k: string) {
    exists i :: 0 <= i < |locators| && HasKey(locators[i].located, k)
  }

  function GatherAll(acc: Located, locators: seq<Locator>): (r: Located)
    ensures forall k :: Find(r, k).Some? <==> Find(acc, k).Some? || AnyLocates(locators, k)
    ensures forall k :: Find(r, k).GetOr([]) == Find(acc, k).GetOr([]) + CollectedAll(locators, k)
    ensures DistinctKeys(acc) ==> DistinctKeys(r)
    decreases |locators|
  {
    if locators == [] then acc
    else
      var next := GatherLocated(acc, locators[0].located);
      var r := GatherAll(next, locators[1..]);
      GatherAllStep(acc, locators, next, r);
      r
  }

  lemma GatherAllStep(acc: Located, locators: seq<Locator>, next: Located, r: Located)
    requires locators != [] && next == GatherLocated(acc, locators[0].located)
    requires forall k :: Find(r, k).Some? <==> Find(next, k).Some? || AnyLocates(locators[1..], k)
    requires forall k :: Find(r, k).GetOr([]) == Find(next, k).GetOr([]) + CollectedAll(locators[1..], k)
    ensures forall k :: Find(r, k).Some? <==> Find(acc, k).Some? || AnyLocates(locators, k)
    ensures forall k :: Find(r, k).GetOr([]) == Find(acc, k).GetOr([]) + CollectedAll(locators, k)
  {
    forall k
      ensures Find(r, k).Some? <==> Find(acc, k).Some? || AnyLocates(locators, k)
      ensures Find(r, k).GetOr([]) == Find(acc, k).GetOr([]) + CollectedAll(locators, k)
    {
      GatherAllKey(acc, locators, next, r, k);
    }
  }

  lemma GatherAllKey(acc: Located, locators: seq<Locator>, next: Located, r: Located, k: string)
    requires locators != [] && next == GatherLocated(acc, locators[0].located)
    requires Find(r, k).Some? <==> Find(next, k).Some? || AnyLocates(locators[1..], k)
    requires Find(r, k).GetOr([]) == Find(next, k).GetOr([]) + CollectedAll(locators[1..], k)
    ensures Find(r, k).Some? <==> Find(acc, k).Some? || AnyLocates(locators, k)
    ensures Find(r, k).GetOr([]) == Find(acc, k).GetOr([]) + CollectedAll(locators, k)
  {
    var c0 := Collected(locators[0].located, k);
    var a := Find(acc, k).GetOr([]);
    var rest := CollectedAll(locators[1..], k);
    assert CollectedAll(locators, k) == c0 + rest;
    assert Find(next, k).GetOr([]) == a + c0 by {
      assert Find(next, k).GetOr([]) == Find(acc, k).GetOr([]) + Collected(locators[0].located, k);
    }
    AppendAssociative(a, c0, rest);
    AnyLocatesCons(locators, k);
  }

  lemma AnyLocatesCons(locators: seq<Locator>, k: string)
    requires locators != []
    ensures AnyLocates(locators, k) <==> HasKey(locators[0].located, k) || AnyLocates(locators[1..], k)
  {
    if AnyLocates(locators[1..], k) {
      var i :| 0 <= i < |locators[1..]| && HasKey(locators[1..][i].located, k);
      assert locators[i + 1] == locators[1..][i];
    }
    if AnyLocates(locators, k) && !HasKey(locators[0].located, k) {
      var i :| 0 <= i < |locators| && HasKey(locators[i].located, k);
      assert locators[1..][i - 1] == locators[i];
    }
  }

  /** `loadResourceBunches`: the locators sorted by priority, then each
      one's map gathered in. A key keeps the bunches of lower-priority
      locators first. */
  function LoadResourceBunches(locators: seq<Locator>): (r: Located)
    ensures DistinctKeys(r)
    ensures forall k :: Find(r, k).Some? <==> AnyLocates(locators, k)
    ensures forall k :: Find(r, k).GetOr([]) == CollectedAll(Sort(locators, LocatorPriority), k)
  {
    var sorted := Sort(locators, LocatorPriority);
    GatherAllFromEmpty(locators, sorted);
    GatherAll([], sorted)
  }

  lemma GatherAllFromEmpty(locators: seq<Locator>, sorted: seq<Locator>)
    requires multiset(sorted) == multiset(locators)
    ensures var r := GatherAll([], sorted);
      DistinctKeys(r) &&
      (forall k :: Find(r, k).Some? <==> AnyLocates(locators, k)) &&
      (forall k :: Find(r, k).GetOr([]) == CollectedAll(sorted, k))
  {
    var empty: Located := [];
    assert DistinctKeys(empty);
    forall k
      ensures Find(GatherAll(empty, sorted), k).Some? <==> AnyLocates(locators, k)
      ensures Find(GatherAll(empty, sorted), k).GetOr([]) == CollectedAll(sorted, k)
    {
      GatherFromEmptyKey(locators, sorted, GatherAll(empty, sorted), k);
    }
  }

  lemma GatherFromEmptyKey(locators: seq<Locator>, sorted: seq<Locator>, r: Located, k: string)
    requires multiset(sorted) == multiset(locators)
    requires Find(r, k).Some? <==> AnyLocates(sorted, k)
    requires Find(r, k).GetOr([]) == [] + CollectedAll(sorted, k)
    ensures Find(r, k).Some? <==> AnyLocates(locators, k)
    ensures Find(r, k).GetOr([]) == CollectedAll(sorted, k)
  {
    SortedLocatesSame(locators, sorted, k);
  }

  lemma SortedLocatesSame(locators: seq<Locator>, sorted: seq<Locator>, k: string)
    requires multiset(sorted) == multiset(locators)
    ensures AnyLocates(sorted, k) <==> AnyLocates(locators, k)
  {
    if AnyLocates(sorted, k) {
      var i :| 0 <= i < |sorted| && HasKey(sorted[i].located, k);
      assert sorted[i] in multiset(locators);
      var j :| 0 <= j < |locators| && locators[j] == sorted[i];
    }
    if AnyLocates(locators, k) {
      var i :| 0 <= i < |locators| && HasKey(locators[i].located, k);
      assert locators[i] in multiset(sorted);
      var j :| 0 <= j < |sorted| && sorted[j] == locators[i];
    }
  }

  /** Locators already in ascending priority are gathered as given: the
      bunches of a key come locator by locator in list order. */
  lemma LoadResourceBunchesInOrder(locators: seq<Locator>, k: string)
    requires StrictlySortedBy(locators, LocatorPriority)
    ensures Find(LoadResourceBunches(locators), k).GetOr([]) == CollectedAll(locators, k)
  {
    SortRestoresStrictOrder(locators, locators, LocatorPriority);
  }

  // ----- the registry -----

  /** The registry's state. `locators` is null until set; the holder maps a
      key to its loaded tree (null when a key had no resource). */
  datatype ConfigRegistry = ConfigRegistry(enabled: bool, refreshEnabled: bool, mapKebabCamelCase: bool,
                                           locators: Option<seq<Locator>>, holder: Holder)

  /** The constructor: disabled, kebab/camel folding on, nothing held. */
  function NewRegistry(): (r: ConfigRegistry)
    ensures !r.enabled && r.mapKebabCamelCase && r.locators.None?
    ensures forall k :: Get(r, k).None?
  {
    ConfigRegistry(false, false, true, None, map[])
  }

  /** `get`: the held tree, `None` when the key is not held. */
  function Get(reg: ConfigRegistry, key: string): (r: Option<Option<Tree>>)
    ensures r.Some? <==> key in GetAll(reg)
    ensures r.Some? ==> r.value == GetAll(reg)[key]
  {
    if key in reg.holder then Some(reg.holder[key]) else None
  }

  /** `getAll`: a read-only view of the holder. */
  function GetAll(reg: ConfigRegistry): Holder {
    reg.holder
  }

  /** `destroy`: the holder is emptied; settings stay. */
  function Destroy(reg: ConfigRegistry): (r: ConfigRegistry)
    ensures forall k :: Get(r, k).None?
    ensures r.enabled == reg.enabled && r.mapKebabCamelCase == reg.mapKebabCamelCase
    ensures r.refreshEnabled == reg.refreshEnabled && r.locators == reg.locators
  {
    reg.(holder := map[])
  }

  /** Why `init` stopped: the locator list was never set (sorting it throws
      a null pointer exception), or a resource could not be read. */
  datatype InitError = NullLocators | ReadFailure(resource: ConfigResource)

  datatype InitOutcome = InitOutcome(registry: ConfigRegistry, error: Option<InitError>)

  function FoldingOf(reg: ConfigRegistry): Folding {
    if reg.mapKebabCamelCase then KeepName else Exact
  }

  /** `init`. `loadResourceBunches` sorts the registry's own locator list in
      place before locating, so an enabled registry with locators keeps them
      sorted whatever follows. Resources of a bunch are read in the map's
      order; only the bunches are sorted. */
  function Init(reg: ConfigRegistry, parse: Resource -> Option<Tree>): (r: InitOutcome)
    ensures r.registry == reg.(holder := r.registry.holder, locators := r.registry.locators)
    ensures !reg.enabled || reg.locators.None? ==> r.registry.locators == reg.locators
    ensures reg.enabled && reg.locators.Some? ==>
      r.registry.locators == Some(Sort(reg.locators.value, LocatorPriority))
    ensures !reg.enabled ==> r == InitOutcome(reg, None)
    ensures reg.enabled && reg.locators.None? ==> r == InitOutcome(reg, Some(NullLocators))
    ensures reg.enabled && reg.locators.Some? && LoadResourceBunches(reg.locators.value) == [] ==>
      r == InitOutcome(reg.(locators := Some(Sort(reg.locators.value, LocatorPriority))), None)
    ensures r.error.Some? && r.error.value.ReadFailure? ==>
      reg.enabled && reg.locators.Some? &&
      var bunches := LoadResourceBunches(reg.locators.value);
      exists i :: StoppedAt(bunches, parse, FoldingOf(reg), false, i, r.error.value.resource) &&
        KeptOutside(bunches[..i], reg.holder, r.registry.holder)
  {
    if !reg.enabled then InitOutcome(reg, None)
    else if reg.locators.None? then InitOutcome(reg, Some(NullLocators))
    else
      var sorted := reg.(locators := Some(Sort(reg.locators.value, LocatorPriority)));
      var bunches := LoadResourceBunches(reg.locators.value);
      if bunches == [] then InitOutcome(sorted, None)
      else
        var out := LoadAll(bunches, reg.holder, parse, FoldingOf(reg), false);
        InitOutcome(sorted.(holder := out.holder), if out.failure.Some? then Some(ReadFailure(out.failure.value)) else None)
  }

  /** The in-place sort settles the locator list: a second `init` finds it
      in order and leaves it as the first one did. */
  lemma InitSettlesLocators(reg: ConfigRegistry, parse: Resource -> Option<Tree>, parse2: Resource -> Option<Tree>)
    ensures var once := Init(reg, parse).registry;
      Init(once, parse2).registry.locators == once.locators
  {
    var once := Init(reg, parse).registry;
    if reg.enabled && reg.locators.Some? {
      SortSorted(once.locators.value, LocatorPriority);
    }
  }

  /** A read failure names the first unreadable resource in the load order
      of one of the located keys. */
  lemma InitFailureNamesResource(reg: ConfigRegistry, parse: Resource -> Option<Tree>, bad: ConfigResource)
    requires Init(reg, parse).error == Some(ReadFailure(bad))
    ensures reg.enabled && reg.locators.Some?
    ensures KeyFailed(LoadResourceBunches(reg.locators.value), parse, false, bad)
  {
    var bunches := LoadResourceBunches(reg.locators.value);
    LoadAllFailure(bunches, reg.holder, parse, FoldingOf(reg), false);
  }

  /** A key no locator found keeps whatever the registry held for it. */
  lemma InitKeepsUnlocatedKeys(reg: ConfigRegistry, parse: Resource -> Option<Tree>, k: string)
    requires reg.locators.Some? ==> !AnyLocates(reg.locators.value, k)
    ensures Get(Init(reg, parse).registry, k) == Get(reg, k)
  {
    if reg.enabled && reg.locators.Some? {
      var bunches := LoadResourceBunches(reg.locators.value);
      assert Find(bunches, k).None?;
    }
  }

  /** When every key loads, each located key holds the fold of all the
      bunches its locators found, lower-priority locators first. */
  lemma InitRegistersEveryKey(reg: ConfigRegistry, parse: Resource -> Option<Tree>, k: string)
    requires reg.enabled && reg.locators.Some?
    requires Init(reg, parse).error.None? && AnyLocates(reg.locators.value, k)
    ensures LoadKey(CollectedAll(Sort(reg.locators.value, LocatorPriority), k), parse, FoldingOf(reg), false).Ok?
    ensures var bunches := CollectedAll(Sort(reg.locators.value, LocatorPriority), k);
      Get(Init(reg, parse).registry, k) == Some(LoadKey(bunches, parse, FoldingOf(reg), false).value)
  {
    var located := LoadResourceBunches(reg.locators.value);
    var i :| 0 <= i < |located| && located[i] == (k, Find(located, k).value);
    var out := LoadAll(located, reg.holder, parse, FoldingOf(reg), false);
    LoadAllRegistersEveryKey(located, reg.holder, parse, FoldingOf(reg), false, i);
  }

  /** After a successful `init`, `get` answers for a key exactly when it was
      held before or some locator finds it. */
  lemma InitGetPresence(reg: ConfigRegistry, parse: Resource -> Option<Tree>, k: string)
    requires reg.enabled && reg.locators.Some? && Init(reg, parse).error.None?
    ensures Get(Init(reg, parse).registry, k).Some? <==> Get(reg, k).Some? || AnyLocates(reg.locators.value, k)
  {
    if AnyLocates(reg.locators.value, k) {
      InitRegistersEveryKey(reg, parse, k);
    } else {
      InitKeepsUnlocatedKeys(reg, parse, k);
    }
  }
}
