/** `CaramelConfigLocator`, the locator the local one replaced: a
    descriptor is a bare location with no key or priority segment, the key is
    always the name, every existing candidate is kept without numbering or
    hashing, and a key's list is replaced by the next position with that key
    that finds something. */
module LegacyLocator {
  import opened Wrappers
  import opened Text
  import opened ConfigResources
  import opened Assoc
  import opened CaramelAide
  import opened Locations
  import opened LocationPickup
  import opened LocalLocator

  /** One descriptor: trimmed and split, a blank name rejected, the key set
      to the name. Nothing is picked up, so segment symbols stay in the
      text. */
  function LegacyPositionOf(original: string): (r: Result<Position, LocateError>)
    ensures r.Err? <==> AllWhitespace(SplitLocation(Trim(original)).name)
    ensures r.Err? ==> r.error == Incomplete
    ensures r.Ok? ==> Complete(r.value) && r.value.key == r.value.name
    ensures r.Ok? ==>
      var parts := SplitLocation(Trim(original));
      r.value.name == Some(parts.name) && r.value.path == parts.path && r.value.extension == parts.extension
    ensures r.Ok? ==> r.value.priority.None? && r.value.refreshEnabled.None?
  {
    PositionOfParts(SplitLocation(Trim(original)), None, None)
  }

  /** On a descriptor without segment symbols the two locators read the same
      position. */
  lemma LegacyAgreesOnPlain(original: string, parseDouble: string -> Option<real>)
    requires Plain(Trim(original))
    ensures LegacyPositionOf(original) == PositionOf(original, parseDouble)
  {
    assert Pickup(Trim(original), parseDouble) == Ok(Picked(Trim(original), None, None));
  }

  /** The descriptors of `resolveConfigPositions`, in order. */
  function LegacyResolveLocations(locations: seq<string>): (r: Result<seq<Position>, LocateError>)
    ensures r.Ok? <==> forall i :: 0 <= i < |locations| ==> LegacyPositionOf(locations[i]).Ok?
    ensures r.Ok? ==> |r.value| == |locations|
    ensures r.Ok? ==> forall i :: 0 <= i < |locations| ==> r.value[i] == LegacyPositionOf(locations[i]).value
    ensures r.Ok? ==> AllComplete(r.value)
    ensures r.Err? ==> r.error == Incomplete
  {
    ResolveEach(locations, LegacyPositionOf)
  }

  /** `resolveConfigPositions`: the descriptors, then the declared positions,
      which are completed exactly as in the local locator. */
  function LegacyResolvePositions(locations: seq<string>, positions: seq<Position>): (r: Result<seq<Position>, LocateError>)
    ensures r.Ok? <==> LegacyResolveLocations(locations).Ok? && ResolveDeclared(positions).Ok?
    ensures r.Ok? ==> r.value == LegacyResolveLocations(locations).value + ResolveDeclared(positions).value
    ensures r.Ok? ==> AllComplete(r.value)
    ensures r.Err? ==> r.error == Incomplete
  {
    match LegacyResolveLocations(locations)
    case Err(e) => Err(e)
    case Ok(a) =>
      match ResolveDeclared(positions)
      case Err(e) => Err(e)
      case Ok(b) =>
        ConcatComplete(a, b);
        Ok(a + b)
  }

  /** When every descriptor is plain, both locators resolve the same
      positions. */
  lemma {:induction false} LegacyResolveAgreesOnPlain(locations: seq<string>, positions: seq<Position>,
                                                      parseDouble: string -> Option<real>)
    requires forall i :: 0 <= i < |locations| ==> Plain(Trim(locations[i]))
    ensures LegacyResolvePositions(locations, positions) == ResolvePositions(locations, positions, parseDouble)
  {
    forall i | 0 <= i < |locations|
      ensures LegacyPositionOf(locations[i]) == PositionOf(locations[i], parseDouble)
    {
      LegacyAgreesOnPlain(locations[i], parseDouble);
    }
    var legacy := LegacyResolveLocations(locations);
    var local := ResolveLocations(locations, parseDouble);
    if legacy.Ok? && local.Ok? {
      assert legacy.value == local.value;
    } else if legacy.Err? && local.Err? {
      EachErrorIsFirst(locations, LegacyPositionOf, (l: string) => PositionOf(l, parseDouble));
    }
  }

  // ----- resources -----

  /** `resolveOneKeyResources`: the candidates that exist, in order. */
  function Found(env: Env, candidates: seq<string>): (r: seq<Resource>)
    ensures |r| <= |candidates|
    ensures forall i :: 0 <= i < |r| ==> env.present(r[i])
    ensures forall i :: 0 <= i < |candidates| && env.present(env.getResource(candidates[i])) ==>
      env.getResource(candidates[i]) in r
    decreases |candidates|
  {
    if candidates == [] then []
    else
      var resource := env.getResource(candidates[0]);
      var rest := Found(env, candidates[1..]);
      assert forall i :: 1 <= i < |candidates| ==> candidates[i] == candidates[1..][i - 1];
      if env.present(resource) then [resource] + rest else rest
  }

  /** The resources of a numbered enumeration. */
  function ResourcesIn(rs: seq<ConfigResource>): (r: seq<Resource>)
    ensures |r| == |rs| && forall i :: 0 <= i < |rs| ==> r[i] == rs[i].resource
  {
    seq(|rs|, i requires 0 <= i < |rs| => rs[i].resource)
  }

  /** When hashing never fails, the local locator's enumeration finds the
      very resources the legacy one keeps, in the same order. */
  lemma {:induction false} FoundIsNumbered(env: Env, candidates: seq<string>, counter: nat)
    requires forall x :: env.hash(x).Some?
    ensures Found(env, candidates) == ResourcesIn(Numbered(env, candidates, counter))
    decreases |candidates|
  {
    if candidates != [] {
      var resource := env.getResource(candidates[0]);
      if env.present(resource) {
        FoundIsNumbered(env, candidates[1..], counter + 1);
        var rest := Numbered(env, candidates[1..], counter + 1);
        var c := CreateResource(resource, Some((counter + 1) as real), env.hash);
        assert c.Some?;
        assert Numbered(env, candidates, counter) == [c.value] + rest;
        assert ResourcesIn([c.value] + rest) == [resource] + ResourcesIn(rest);
      } else {
        FoundIsNumbered(env, candidates[1..], counter);
      }
    }
  }

  /** The resources a legacy position finds. */
  function FoundFor(env: Env, p: Position): (r: seq<Resource>)
    requires p.name.Some?
    ensures |r| <= |CandidatesOf(p)|
  {
    Found(env, CandidatesOf(p))
  }

  /** The reference: the list of the last position keyed `k` that found
      something. */
  function LastFound(env: Env, positions: seq<Position>, k: string): (r: Option<seq<Resource>>)
    requires AllComplete(positions)
    ensures r.Some? ==> r.value != []
    ensures r.Some? <==> exists i :: 0 <= i < |positions| && positions[i].key == Some(k) && FoundFor(env, positions[i]) != []
    decreases |positions|
  {
    if positions == [] then None
    else
      var p := positions[0];
      assert forall i :: 1 <= i < |positions| ==> positions[i] == positions[1..][i - 1];
      match LastFound(env, positions[1..], k)
      case Some(rs) => Some(rs)
      case None =>
        if p.key == Some(k) && FoundFor(env, p) != [] then Some(FoundFor(env, p)) else None
  }

  /** `LastFound` unrolled once: the rest decides, else the position at hand. */
  lemma LastFoundStep(env: Env, positions: seq<Position>, k: string)
    requires AllComplete(positions) && positions != []
    ensures AllComplete(positions[1..])
    ensures LastFound(env, positions, k) ==
      if LastFound(env, positions[1..], k).Some? then LastFound(env, positions[1..], k)
      else if positions[0].key == Some(k) && FoundFor(env, positions[0]) != [] then Some(FoundFor(env, positions[0]))
      else None
  {
  }

  /** The last position keyed `k` that found something decides the list. */
  lemma {:induction false} LastFoundIsLast(env: Env, positions: seq<Position>, k: string, i: int)
    requires AllComplete(positions)
    requires 0 <= i < |positions| && positions[i].key == Some(k) && FoundFor(env, positions[i]) != []
    requires forall j :: i < j < |positions| && positions[j].key == Some(k) ==> FoundFor(env, positions[j]) == []
    ensures LastFound(env, positions, k) == Some(FoundFor(env, positions[i]))
    decreases |positions|
  {
    var tail := positions[1..];
    if i == 0 {
      forall j | 0 <= j < |tail| && tail[j].key == Some(k)
        ensures FoundFor(env, tail[j]) == []
      {
        assert tail[j] == positions[j + 1];
      }
    } else {
      forall j | i - 1 < j < |tail| && tail[j].key == Some(k)
        ensures FoundFor(env, tail[j]) == []
      {
        assert tail[j] == positions[j + 1];
      }
      assert tail[i - 1] == positions[i];
      LastFoundIsLast(env, tail, k, i - 1);
    }
  }

  /** `resolveConfigResources` from the position at hand on: a position that
      finds something puts its list under its key, replacing any list an
      earlier position put there. */
  function LegacyResolveResources(env: Env, positions: seq<Position>, acc: seq<(string, seq<Resource>)>)
    : (r: seq<(string, seq<Resource>)>)
    requires AllComplete(positions)
    ensures forall k :: Find(r, k) == (if LastFound(env, positions, k).Some? then LastFound(env, positions, k)
                                       else Find(acc, k))
    ensures DistinctKeys(acc) ==> DistinctKeys(r)
    decreases |positions|
  {
    if positions == [] then acc
    else
      var p := positions[0];
      var found := FoundFor(env, p);
      var next := if found != [] then Put(acc, p.key.value, found) else acc;
      var r := LegacyResolveResources(env, positions[1..], next);
      assert forall k :: Find(r, k) == (if LastFound(env, positions, k).Some? then LastFound(env, positions, k)
                                        else Find(acc, k)) by {
        forall k
          ensures Find(r, k) == (if LastFound(env, positions, k).Some? then LastFound(env, positions, k)
                                 else Find(acc, k))
        {
          LastFoundStep(env, positions, k);
        }
      }
      r
  }

  /** `locate`: the positions resolved, then each key given the list of its
      last position that found something. */
  function LegacyLocate(env: Env, locations: seq<string>, positions: seq<Position>)
    : (r: Result<seq<(string, seq<Resource>)>, LocateError>)
    ensures r.Ok? <==> LegacyResolvePositions(locations, positions).Ok?
    ensures r.Err? ==> r.error == Incomplete
    ensures r.Ok? ==> DistinctKeys(r.value)
    ensures r.Ok? ==> forall k :: Find(r.value, k) == LastFound(env, LegacyResolvePositions(locations, positions).value, k)
    ensures r.Ok? ==> forall k :: Find(r.value, k).Some? ==> Find(r.value, k).value != []
  {
    match LegacyResolvePositions(locations, positions)
    case Err(e) => Err(e)
    case Ok(resolved) =>
      var empty: seq<(string, seq<Resource>)> := [];
      assert forall k :: Find(empty, k) == None;
      Ok(LegacyResolveResources(env, resolved, empty))
  }
}
