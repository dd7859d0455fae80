/** `LocalConfigResourceLocator`: descriptors and declared positions are
    resolved into positions, each position is expanded over directories and
    extensions into the resources that exist, and the bunches that found
    something are grouped by key. */
module LocalLocator {
  import opened Wrappers
  import opened Text
  import opened PriorityOrder
  import opened ConfigResources
  import opened ConfigMerge
  import opened Assoc
  import opened CaramelAide
  import opened Locations
  import opened LocationPickup
  import Registry

  // ----- positions -----

  /** The position a picked-up descriptor describes: the remainder split
      into path, name and extension, a blank name rejected, and a missing
      key taken from the name. */
  function PositionFrom(picked: Picked): (r: Result<Position, LocateError>)
    ensures r.Err? <==> AllWhitespace(SplitLocation(picked.location).name)
    ensures r.Err? ==> r.error == Incomplete
    ensures r.Ok? ==> Complete(r.value) && r.value.refreshEnabled.None? && r.value.priority == picked.priority
  {
    PositionOfParts(SplitLocation(picked.location), picked.key, picked.priority)
  }

  /** The position of split parts, with the key and priority picked up. */
  function PositionOfParts(parts: Parts, key: Option<string>, priority: Priority): (r: Result<Position, LocateError>)
    ensures r.Err? <==> AllWhitespace(parts.name)
    ensures r.Err? ==> r.error == Incomplete
    ensures r.Ok? ==> Complete(r.value) && r.value.refreshEnabled.None? && r.value.priority == priority
    ensures r.Ok? ==> r.value.path == parts.path && r.value.name == Some(parts.name) &&
                      r.value.extension == parts.extension
    ensures r.Ok? ==> r.value.key == if IsBlank(key) then Some(parts.name) else key
  {
    if AllWhitespace(parts.name) then Err(Incomplete)
    else
      var k := if key.Some? && !AllWhitespace(key.value) then key else Some(parts.name);
      assert !IsBlank(Some(parts.name)) && !IsBlank(k);
      Ok(Position(k, priority, parts.path, Some(parts.name), parts.extension, None))
  }

  /** One descriptor in `resolveConfigPositions`: trimmed, its segments
      picked up as the locator does, then turned into a position. A crash
      of the pickup on a closing symbol without its opening one surfaces as
      `IndexOutOfBounds`. */
  function PositionOf(original: string, parseDouble: string -> Option<real>): (r: Result<Position, LocateError>)
    ensures Pickup(Trim(original), parseDouble).Err? ==>
      r == Err(Pickup(Trim(original), parseDouble).error)
    ensures r.Ok? ==> Pickup(Trim(original), parseDouble).Ok?
    ensures r.Ok? ==> Complete(r.value) && r.value.refreshEnabled.None?
    ensures r.Ok? ==> r.value.priority == Pickup(Trim(original), parseDouble).value.priority
    ensures Pickup(Trim(original), parseDouble).Ok? ==>
      (r.Err? <==> AllWhitespace(SplitLocation(Pickup(Trim(original), parseDouble).value.location).name))
  {
    match Pickup(Trim(original), parseDouble)
    case Err(e) => Err(e)
    case Ok(picked) => PositionFrom(picked)
  }

  /** The same descriptor read with the corrected pickup, which reports
      doubled and unpaired symbols instead of crashing. */
  function PositionOfFixed(original: string, parseDouble: string -> Option<real>): (r: Result<Position, LocateError>)
    ensures PickupFixed(Trim(original), parseDouble).Err? ==>
      r == Err(PickupFixed(Trim(original), parseDouble).error)
    ensures r.Err? ==> r.error != IndexOutOfBounds
    ensures r.Ok? ==> PickupFixed(Trim(original), parseDouble).Ok?
    ensures r.Ok? ==> Complete(r.value) && r.value.refreshEnabled.None?
    ensures r.Ok? ==> r.value.priority == PickupFixed(Trim(original), parseDouble).value.priority
  {
    match PickupFixed(Trim(original), parseDouble)
    case Err(e) => Err(e)
    case Ok(picked) => PositionFrom(picked)
  }

  /** Without a doubled key symbol or a closing symbol missing its opening
      one, the locator as written and the corrected reading agree. */
  lemma PositionOfAgrees(original: string, parseDouble: string -> Option<real>)
    requires var s := Trim(original);
      !Twice(s, KeyPrefix) && !Twice(s, KeySuffix) &&
      (KeySuffix in s ==> KeyPrefix in s) && (PrioritySuffix in s ==> PriorityPrefix in s)
    ensures PositionOf(original, parseDouble) == PositionOfFixed(original, parseDouble)
    ensures PositionOf(original, parseDouble) != Err(IndexOutOfBounds)
  {
    PickupAgrees(Trim(original), parseDouble);
  }

  /** The descriptor `{{k}rest` is already trimmed, and the two pickups
      part on it. */
  lemma PickupDoubledKey(k: string, rest: string, parseDouble: string -> Option<real>)
    requires Plain(k) && !AllWhitespace(k)
    requires Plain(rest) && rest != [] && !IsTrimmable(rest[0]) && !IsTrimmable(rest[|rest| - 1])
    ensures var s := [KeyPrefix] + (Segment(KeyPrefix, k, KeySuffix) + rest);
      Trim(s) == s &&
      Pickup(s, parseDouble) == Ok(Picked(rest, Some(k), None)) &&
      PickupFixed(s, parseDouble) == Err(DuplicateSymbol(KeyPrefix))
  {
    var s := [KeyPrefix] + (Segment(KeyPrefix, k, KeySuffix) + rest);
    TrimEnclosed(s, []);
    assert s + [] == s;
    TrimEnclosed(rest, []);
    assert rest + [] == rest;
    assert !IsWhitespace(rest[0]);
    DoubledKeyPrefixAsWritten(k, rest, parseDouble);
  }

  /** A doubled key prefix, as in `{{redis}db`: as written the descriptor
      is accepted with key `k` and the rest as its location; corrected, it
      is a duplicate `{`. */
  lemma PositionOfDoubledKey(k: string, rest: string, parseDouble: string -> Option<real>)
    requires Plain(k) && !AllWhitespace(k)
    requires Plain(rest) && rest != [] && !IsTrimmable(rest[0]) && !IsTrimmable(rest[|rest| - 1])
    ensures var s := [KeyPrefix] + (Segment(KeyPrefix, k, KeySuffix) + rest);
      PositionOf(s, parseDouble) == PositionOfParts(SplitLocation(rest), Some(k), None) &&
      PositionOfFixed(s, parseDouble) == Err(DuplicateSymbol(KeyPrefix))
  {
    PickupDoubledKey(k, rest, parseDouble);
  }

  /** A closing parenthesis without its opening one, as in `abc)`: as
      written the pickup crashes; corrected, it is reported as unpaired. */
  lemma PositionOfLoneClosing(s: string, parseDouble: string -> Option<real>)
    requires s != [] && !IsTrimmable(s[0]) && !IsTrimmable(s[|s| - 1])
    requires KeyPrefix !in s && KeySuffix !in s && PriorityPrefix !in s
    requires PrioritySuffix in s && !Twice(s, PrioritySuffix)
    ensures PositionOf(s, parseDouble) == Err(IndexOutOfBounds)
    ensures PositionOfFixed(s, parseDouble) == Err(ReversedSymbols(PriorityPrefix, PrioritySuffix))
  {
    TrimEnclosed(s, []);
    assert s + [] == s;
    LoneClosingAsWritten(s, parseDouble);
  }

  /** A declared position in `resolveConfigPositions`: a blank name is
      rejected, and a blank key becomes the name. */
  function CompletePosition(p: Position): (r: Result<Position, LocateError>)
    ensures r.Err? <==> IsBlank(p.name)
    ensures r.Err? ==> r.error == Incomplete
    ensures r.Ok? ==> Complete(r.value) && r.value.(key := p.key) == p
    ensures r.Ok? && !IsBlank(p.key) ==> r.value == p
    ensures r.Ok? && IsBlank(p.key) ==> r.value.key == p.name
  {
    if IsBlank(p.name) then Err(Incomplete)
    else if IsBlank(p.key) then Ok(p.(key := p.name))
    else Ok(p)
  }

  /** Each element resolved in turn, the first failure ending the stream. */
  function ResolveEach<T>(xs: seq<T>, resolve: T -> Result<Position, LocateError>): (r: Result<seq<Position>, LocateError>)
    ensures r.Ok? <==> forall i :: 0 <= i < |xs| ==> resolve(xs[i]).Ok?
    ensures r.Ok? ==> |r.value| == |xs| && forall i :: 0 <= i < |xs| ==> r.value[i] == resolve(xs[i]).value
    ensures r.Err? ==> exists i :: 0 <= i < |xs| && resolve(xs[i]) == Err(r.error) &&
                                   forall j :: 0 <= j < i ==> resolve(xs[j]).Ok?
    decreases |xs|
  {
    if xs == [] then Ok([])
    else
      match resolve(xs[0])
      case Err(e) => Err(e)
      case Ok(p) =>
        var rest := ResolveEach(xs[1..], resolve);
        assert forall i :: 1 <= i < |xs| ==> xs[1..][i - 1] == xs[i];
        match rest
        case Err(e) =>
          assert exists i :: 0 <= i < |xs| && resolve(xs[i]) == Err(e) &&
                             forall j :: 0 <= j < i ==> resolve(xs[j]).Ok? by {
            var i :| 0 <= i < |xs[1..]| && resolve(xs[1..][i]) == Err(e) &&
                     forall j :: 0 <= j < i ==> resolve(xs[1..][j]).Ok?;
            assert forall j :: 0 <= j < i + 1 ==> resolve(xs[j]).Ok? by {
              forall j | 0 <= j < i + 1
                ensures resolve(xs[j]).Ok?
              {
                if j > 0 {
                  assert xs[j] == xs[1..][j - 1];
                }
              }
            }
          }
          Err(e)
        case Ok(ps) => Ok([p] + ps)
  }

  /** With two resolutions that agree element by element, the first failure
      is the same one. */
  lemma {:induction false} EachErrorIsFirst<T>(xs: seq<T>, f: T -> Result<Position, LocateError>,
                                               g: T -> Result<Position, LocateError>)
    requires forall i :: 0 <= i < |xs| ==> f(xs[i]) == g(xs[i])
    ensures ResolveEach(xs, f) == ResolveEach(xs, g)
    decreases |xs|
  {
    if xs != [] {
      assert f(xs[0]) == g(xs[0]);
      EachErrorIsFirst(xs[1..], f, g);
    }
  }

  predicate AllComplete(ps: seq<Position>) {
    forall i :: 0 <= i < |ps| ==> Complete(ps[i])
  }

  lemma ConcatComplete(a: seq<Position>, b: seq<Position>)
    requires AllComplete(a) && AllComplete(b)
    ensures AllComplete(a + b)
  {
    forall i | 0 <= i < |a + b|
      ensures Complete((a + b)[i])
    {
      if i >= |a| {
        assert (a + b)[i] == b[i - |a|];
      }
    }
  }

  /** The descriptors of `resolveConfigPositions`, in order. */
  function ResolveLocations(locations: seq<string>, parseDouble: string -> Option<real>): (r: Result<seq<Position>, LocateError>)
    ensures r.Ok? <==> forall i :: 0 <= i < |locations| ==> PositionOf(locations[i], parseDouble).Ok?
    ensures r.Ok? ==> |r.value| == |locations|
    ensures r.Ok? ==> forall i :: 0 <= i < |locations| ==> r.value[i] == PositionOf(locations[i], parseDouble).value
    ensures r.Ok? ==> AllComplete(r.value)
    ensures r.Err? ==> exists i :: 0 <= i < |locations| && PositionOf(locations[i], parseDouble) == Err(r.error)
  {
    ResolveEach(locations, (l: string) => PositionOf(l, parseDouble))
  }

  /** When no descriptor holds a doubled key symbol or a closing symbol
      without its opening one, resolving them as written is resolving them
      with the corrected pickup, and no index error can arise. */
  lemma ResolveLocationsAgree(locations: seq<string>, parseDouble: string -> Option<real>)
    requires forall i :: 0 <= i < |locations| ==>
      var s := Trim(locations[i]);
      !Twice(s, KeyPrefix) && !Twice(s, KeySuffix) &&
      (KeySuffix in s ==> KeyPrefix in s) && (PrioritySuffix in s ==> PriorityPrefix in s)
    ensures ResolveLocations(locations, parseDouble) ==
      ResolveEach(locations, (l: string) => PositionOfFixed(l, parseDouble))
    ensures ResolveLocations(locations, parseDouble) != Err(IndexOutOfBounds)
  {
    forall i | 0 <= i < |locations|
      ensures PositionOf(locations[i], parseDouble) == PositionOfFixed(locations[i], parseDouble)
    {
      PositionOfAgrees(locations[i], parseDouble);
    }
    EachErrorIsFirst(locations, (l: string) => PositionOf(l, parseDouble),
                     (l: string) => PositionOfFixed(l, parseDouble));
  }

  /** The declared positions of `resolveConfigPositions`, in order. */
  function ResolveDeclared(positions: seq<Position>): (r: Result<seq<Position>, LocateError>)
    ensures r.Ok? <==> forall j :: 0 <= j < |positions| ==> !IsBlank(positions[j].name)
    ensures r.Ok? ==> |r.value| == |positions|
    ensures r.Ok? ==> forall j :: 0 <= j < |positions| ==> r.value[j] == CompletePosition(positions[j]).value
    ensures r.Ok? ==> AllComplete(r.value)
    ensures r.Err? ==> r.error == Incomplete && exists j :: 0 <= j < |positions| && IsBlank(positions[j].name)
  {
    ResolveEach(positions, CompletePosition)
  }

  /** `resolveConfigPositions`: the descriptors first, then the declared
      positions, every one complete once resolved. */
  function ResolvePositions(locations: seq<string>, positions: seq<Position>,
                            parseDouble: string -> Option<real>): (r: Result<seq<Position>, LocateError>)
    ensures r.Ok? <==> ResolveLocations(locations, parseDouble).Ok? && ResolveDeclared(positions).Ok?
    ensures r.Ok? ==> r.value == ResolveLocations(locations, parseDouble).value + ResolveDeclared(positions).value
    ensures r.Ok? ==> AllComplete(r.value)
    ensures r.Err? ==> r.error == (if ResolveLocations(locations, parseDouble).Err?
                                   then ResolveLocations(locations, parseDouble).error
                                   else ResolveDeclared(positions).error)
  {
    match ResolveLocations(locations, parseDouble)
    case Err(e) => Err(e)
    case Ok(a) =>
      match ResolveDeclared(positions)
      case Err(e) => Err(e)
      case Ok(b) =>
        ConcatComplete(a, b);
        Ok(a + b)
  }

  // ----- resources -----

  /** What the locator asks of the outside world: the resource loader's
      `getResource`, a resource's `exists` (here `present`), and its SHA-256
      hash, whose reading may fail. */
  datatype Env = Env(getResource: string -> Resource, present: Resource -> bool,
                     hash: Resource -> Option<string>)

  /** Every entry is filed under its resource's description. */
  predicate FiledByDescription(m: seq<(string, ConfigResource)>) {
    forall i :: 0 <= i < |m| ==> m[i].0 == Description(m[i].1)
  }

  lemma {:induction false} PutFiled(m: seq<(string, ConfigResource)>, c: ConfigResource)
    ensures FiledByDescription(m) ==> FiledByDescription(Put(m, Description(c), c))
    decreases |m|
  {
    if FiledByDescription(m) && m != [] && m[0].0 != Description(c) {
      assert FiledByDescription(m[1..]) by {
        forall i | 0 <= i < |m[1..]|
          ensures m[1..][i].0 == Description(m[1..][i].1)
        {
          assert m[1..][i] == m[i + 1];
        }
      }
      PutFiled(m[1..], c);
      var rest := Put(m[1..], Description(c), c);
      assert Put(m, Description(c), c) == [m[0]] + rest;
      forall i | 0 <= i < |[m[0]] + rest|
        ensures ([m[0]] + rest)[i].0 == Description(([m[0]] + rest)[i].1)
      {
        if i > 0 {
          assert ([m[0]] + rest)[i] == rest[i - 1];
        }
      }
    }
  }

  /** `resolveResources` from the candidate at hand on: the counter is
      bumped for every candidate that exists, before its hash is computed,
      so a resource whose hash fails still uses up its number; a resource
      is put under its description. */
  function Enumerate(env: Env, candidates: seq<string>, counter: nat,
                     acc: seq<(string, ConfigResource)>): (r: seq<(string, ConfigResource)>)
    ensures FiledByDescription(acc) ==> FiledByDescription(r)
    ensures DistinctKeys(acc) ==> DistinctKeys(r)
    decreases |candidates|
  {
    if candidates == [] then acc
    else
      var resource := env.getResource(candidates[0]);
      if !env.present(resource) then Enumerate(env, candidates[1..], counter, acc)
      else
        var n := counter + 1;
        match CreateResource(resource, Some(n as real), env.hash)
        case None => Enumerate(env, candidates[1..], n, acc)
        case Some(c) =>
          PutFiled(acc, c);
          Enumerate(env, candidates[1..], n, Put(acc, Description(c), c))
  }

  /** The resources an enumeration finds, in enumeration order, each with
      the number it is given. */
  function Numbered(env: Env, candidates: seq<string>, counter: nat): (r: seq<ConfigResource>)
    ensures StrictlySortedBy(r, ResourcePriority)
    ensures forall i :: 0 <= i < |r| ==>
      r[i].priority.Some? && counter as real < r[i].priority.value <= (counter + |candidates|) as real
    ensures forall i :: 0 <= i < |r| ==> env.present(r[i].resource) && env.hash(r[i].resource) == Some(r[i].hashValue)
    decreases |candidates|
  {
    if candidates == [] then []
    else
      var resource := env.getResource(candidates[0]);
      if !env.present(resource) then Numbered(env, candidates[1..], counter)
      else
        var n := counter + 1;
        var rest := Numbered(env, candidates[1..], n);
        match CreateResource(resource, Some(n as real), env.hash)
        case None => rest
        case Some(c) =>
          assert forall i :: 0 <= i < |rest| ==> Below(Some(n as real), rest[i].priority);
          [c] + rest
  }

  /** Resources filed under their descriptions, in order. */
  function Filed(rs: seq<ConfigResource>): (r: seq<(string, ConfigResource)>)
    ensures |r| == |rs|
    ensures forall i :: 0 <= i < |rs| ==> r[i] == (Description(rs[i]), rs[i])
  {
    seq(|rs|, i requires 0 <= i < |rs| => (Description(rs[i]), rs[i]))
  }

  /** When no two resources found share a description, the map holds them
      in enumeration order, after what it held before. */
  lemma {:induction false} EnumerateInOrder(env: Env, candidates: seq<string>, counter: nat,
                                            acc: seq<(string, ConfigResource)>)
    requires DistinctKeys(acc + Filed(Numbered(env, candidates, counter)))
    ensures Enumerate(env, candidates, counter, acc) == acc + Filed(Numbered(env, candidates, counter))
    decreases |candidates|
  {
    if candidates != [] {
      var resource := env.getResource(candidates[0]);
      if !env.present(resource) {
        EnumerateInOrder(env, candidates[1..], counter, acc);
      } else {
        var n := counter + 1;
        var rest := Numbered(env, candidates[1..], n);
        match CreateResource(resource, Some(n as real), env.hash)
        case None =>
          EnumerateInOrder(env, candidates[1..], n, acc);
        case Some(c) =>
          assert Numbered(env, candidates, counter) == [c] + rest;
          assert acc + Filed([c] + rest) == (acc + [(Description(c), c)]) + Filed(rest);
          assert !HasKey(acc, Description(c)) by {
            var all := acc + Filed([c] + rest);
            forall i | 0 <= i < |acc|
              ensures acc[i].0 != Description(c)
            {
              assert all[i] == acc[i] && all[|acc|].0 == Description(c);
            }
          }
          assert Put(acc, Description(c), c) == acc + [(Description(c), c)];
          EnumerateInOrder(env, candidates[1..], n, acc + [(Description(c), c)]);
      }
    }
  }

  /** The candidates of a position: its own path and extension when not
      blank, the conventional ones otherwise. */
  function CandidatesOf(p: Position): seq<string>
    requires p.name.Some?
  {
    Candidates(p.name.value, SearchPaths(p.path), SearchExtensions(p.extension))
  }

  /** A position without its own path and extension searches the four
      conventional directories, each with the four conventional extensions
      in turn: sixteen candidates, directory-major. */
  lemma DefaultCandidates(p: Position, i: int, j: int)
    requires p.name.Some? && IsBlank(p.path) && IsBlank(p.extension)
    requires 0 <= i < |DefaultPaths| && 0 <= j < |DefaultExtensions|
    ensures |CandidatesOf(p)| == 16
    ensures CandidatesOf(p)[i * 4 + j] == Candidate(DefaultPaths[i], p.name.value, DefaultExtensions[j])
  {
    CandidatesAt(p.name.value, DefaultPaths, DefaultExtensions, i, j);
  }

  /** A position with its own path and extension has exactly one
      candidate. */
  lemma OwnCandidate(p: Position)
    requires p.name.Some? && !IsBlank(p.path) && !IsBlank(p.extension)
    ensures CandidatesOf(p) == [Candidate(p.path.value, p.name.value, p.extension.value)]
  {
    var paths := SearchPaths(p.path);
    var rest := Candidates(p.name.value, paths[1..], SearchExtensions(p.extension));
    assert rest == [];
  }

  /** `resolveResources` for a position: the map from description to
      resource, numbered from 1. */
  function ResourcesOf(env: Env, p: Position): (r: seq<(string, ConfigResource)>)
    requires p.name.Some?
    ensures FiledByDescription(r) && DistinctKeys(r)
  {
    Enumerate(env, CandidatesOf(p), 0, [])
  }

  /** The bunch of a position, unless nothing was found. */
  function BunchOf(env: Env, p: Position): (r: Option<Bunch>)
    requires Complete(p)
    ensures r.Some? <==> ResourcesOf(env, p) != []
    ensures r.Some? ==> KeyedByDescription(r.value)
    ensures r.Some? ==>
      r.value.key == p.key.value && r.value.name == p.name.value &&
      r.value.priority == p.priority && r.value.refreshEnabled == p.refreshEnabled &&
      r.value.resources == ResourcesOf(env, p)
  {
    var resources := ResourcesOf(env, p);
    if resources == [] then None
    else Some(CreateBunch(p.key.value, p.name.value, p.priority, resources, p.refreshEnabled))
  }

  /** Sorting a bunch's resources by convention priority, as loading does,
      gives back the enumeration order whenever the descriptions found are
      distinct, whatever order the map iterates in. */
  lemma ResourceOrderIsEnumeration(env: Env, p: Position)
    requires Complete(p) && BunchOf(env, p).Some?
    requires DistinctKeys(Filed(Numbered(env, CandidatesOf(p), 0)))
    ensures ResourceOrder(BunchOf(env, p).value, true) == Numbered(env, CandidatesOf(p), 0)
  {
    var rs := Numbered(env, CandidatesOf(p), 0);
    assert [] + Filed(rs) == Filed(rs);
    EnumerateInOrder(env, CandidatesOf(p), 0, []);
    var b := BunchOf(env, p).value;
    assert Values(b) == rs;
    ResourceOrderRestoresEnumeration(b, rs);
  }

  // ----- bunches -----

  /** Every bunch is keyed `k` and files its resources by description. */
  predicate KeyedAs(bs: seq<Bunch>, k: string) {
    forall i :: 0 <= i < |bs| ==> bs[i].key == k && KeyedByDescription(bs[i])
  }

  lemma KeyedConcat(a: seq<Bunch>, b: seq<Bunch>, k: string)
    requires KeyedAs(a, k) && KeyedAs(b, k)
    ensures KeyedAs(a + b, k)
  {
    forall i | |a| <= i < |a + b|
      ensures (a + b)[i] == b[i - |a|]
    {
    }
  }

  /** The bunches of the positions keyed `k`, in position order. */
  function BunchesFor(env: Env, positions: seq<Position>, k: string): (r: seq<Bunch>)
    requires forall i :: 0 <= i < |positions| ==> Complete(positions[i])
    ensures KeyedAs(r, k)
    decreases |positions|
  {
    if positions == [] then []
    else
      var own, rest := OwnBunch(env, positions[0], k), BunchesFor(env, positions[1..], k);
      KeyedConcat(own, rest, k);
      own + rest
  }

  /** `resolveConfigResourceBunches` from the position at hand on: a bunch
      that found something is appended to its key's list, which is created
      when missing. */
  function ResolveBunches(env: Env, positions: seq<Position>, acc: Registry.Located): (r: Registry.Located)
    requires forall i :: 0 <= i < |positions| ==> Complete(positions[i])
    ensures forall k :: Find(r, k).GetOr([]) == Find(acc, k).GetOr([]) + BunchesFor(env, positions, k)
    ensures forall k :: Find(r, k).Some? <==> Find(acc, k).Some? || BunchesFor(env, positions, k) != []
    ensures DistinctKeys(acc) ==> DistinctKeys(r)
    decreases |positions|
  {
    if positions == [] then acc
    else
      var next := match BunchOf(env, positions[0])
        case Some(b) => Registry.Gather(acc, b.key, [b])
        case None => acc;
      var r := ResolveBunches(env, positions[1..], next);
      assert forall k :: Find(r, k).GetOr([]) == Find(acc, k).GetOr([]) + BunchesFor(env, positions, k) &&
                         (Find(r, k).Some? <==> Find(acc, k).Some? || BunchesFor(env, positions, k) != []) by {
        forall k
          ensures Find(r, k).GetOr([]) == Find(acc, k).GetOr([]) + BunchesFor(env, positions, k)
          ensures Find(r, k).Some? <==> Find(acc, k).Some? || BunchesFor(env, positions, k) != []
        {
          ResolveBunchesKey(env, positions, acc, next, k);
          ResolveBunchesStep(acc, next, r, k, OwnBunch(env, positions[0], k), BunchesFor(env, positions[1..], k));
        }
      }
      r
  }

  /** One step of `ResolveBunches`, under one key: what the position at
      hand added comes in front of what the rest add. */
  lemma ResolveBunchesStep(acc: Registry.Located, next: Registry.Located, r: Registry.Located, k: string,
                           own: seq<Bunch>, rest: seq<Bunch>)
    requires Find(next, k).GetOr([]) == Find(acc, k).GetOr([]) + own
    requires Find(next, k).Some? <==> Find(acc, k).Some? || own != []
    requires Find(r, k).GetOr([]) == Find(next, k).GetOr([]) + rest
    requires Find(r, k).Some? <==> Find(next, k).Some? || rest != []
    ensures Find(r, k).GetOr([]) == Find(acc, k).GetOr([]) + (own + rest)
    ensures Find(r, k).Some? <==> Find(acc, k).Some? || own + rest != []
  {
    Registry.AppendAssociative(Find(acc, k).GetOr([]), own, rest);
  }

  /** The bunch one position adds under `k`. */
  function OwnBunch(env: Env, p: Position, k: string): (r: seq<Bunch>)
    requires Complete(p)
    ensures |r| <= 1
    ensures KeyedAs(r, k)
  {
    match BunchOf(env, p)
    case Some(b) => if b.key == k then [b] else []
    case None => []
  }

  lemma ResolveBunchesKey(env: Env, positions: seq<Position>, acc: Registry.Located,
                          next: Registry.Located, k: string)
    requires positions != [] && forall i :: 0 <= i < |positions| ==> Complete(positions[i])
    requires next == match BunchOf(env, positions[0])
      case Some(b) => Registry.Gather(acc, b.key, [b])
      case None => acc
    ensures BunchesFor(env, positions, k) == OwnBunch(env, positions[0], k) + BunchesFor(env, positions[1..], k)
    ensures Find(next, k).GetOr([]) == Find(acc, k).GetOr([]) + OwnBunch(env, positions[0], k)
    ensures Find(next, k).Some? <==> Find(acc, k).Some? || OwnBunch(env, positions[0], k) != []
  {
    match BunchOf(env, positions[0])
    case None =>
      assert Find(acc, k).GetOr([]) + [] == Find(acc, k).GetOr([]);
    case Some(b) =>
      if b.key != k {
        assert Find(acc, k).GetOr([]) + [] == Find(acc, k).GetOr([]);
      }
  }

  /** `locate`: the positions resolved, then their bunches grouped by key. */
  function Locate(env: Env, locations: seq<string>, positions: seq<Position>,
                  parseDouble: string -> Option<real>): (r: Result<Registry.Located, LocateError>)
    ensures r.Ok? <==> ResolvePositions(locations, positions, parseDouble).Ok?
    ensures r.Err? ==> r.error == ResolvePositions(locations, positions, parseDouble).error
    ensures r.Ok? ==> DistinctKeys(r.value)
    ensures r.Ok? ==> forall k ::
      Find(r.value, k).GetOr([]) == BunchesFor(env, ResolvePositions(locations, positions, parseDouble).value, k)
    ensures r.Ok? ==> forall k :: Find(r.value, k).Some? ==>
      Find(r.value, k).value != [] &&
      forall i :: 0 <= i < |Find(r.value, k).value| ==> Find(r.value, k).value[i].key == k
  {
    match ResolvePositions(locations, positions, parseDouble)
    case Err(e) => Err(e)
    case Ok(resolved) => Ok(Grouped(env, resolved))
  }

  /** `resolveConfigResourceBunches` from an empty map: every key present
      holds its positions' bunches, in position order. */
  function Grouped(env: Env, resolved: seq<Position>): (r: Registry.Located)
    requires AllComplete(resolved)
    ensures DistinctKeys(r)
    ensures forall k :: Find(r, k).GetOr([]) == BunchesFor(env, resolved, k)
    ensures forall k :: Find(r, k).Some? ==>
      Find(r, k).value != [] && forall i :: 0 <= i < |Find(r, k).value| ==> Find(r, k).value[i].key == k
  {
    var empty: Registry.Located := [];
    assert forall k :: Find(empty, k) == None;
    ResolveBunches(env, resolved, empty)
  }
}
