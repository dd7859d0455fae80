/** `ConfigResource` and `ConfigResourceBunch`: a located file with its
    convention priority, and the group of files one location descriptor
    found, with the descriptor's key, name and explicit priority. */
module ConfigResources {
  import opened Wrappers
  import opened PriorityOrder

  /** A located resource, known by its description; its contents and its
      hash are read through oracles. */
  datatype Resource = Resource(description: string)

  /** The record is immutable: resource, hash and priority are fixed at
      construction. */
  datatype ConfigResource = ConfigResource(resource: Resource, hashValue: string, priority: Priority)

  /** `ConfigResource.create`, which is its constructor: computing the
      SHA-256 hash reads the resource and may fail, and then nothing is
      created. */
  function CreateResource(resource: Resource, priority: Priority, hash: Resource -> Option<string>): (r: Option<ConfigResource>)
    ensures r.Some? <==> hash(resource).Some?
    ensures r.Some? ==> r.value.priority == priority && r.value.hashValue == hash(resource).value
    ensures r.Some? ==> Description(r.value) == resource.description
  {
    match hash(resource)
    case None => None
    case Some(h) => Some(ConfigResource(resource, h, priority))
  }

  /** `getDescription`: the wrapped resource's description. */
  function Description(c: ConfigResource): string {
    c.resource.description
  }

  /** The sort key of resources (`PriorityComparable` on the convention
      priority). */
  function ResourcePriority(c: ConfigResource): Priority {
    c.priority
  }

  /** A bunch. Its resources are the map from description to resource, as
      (description, resource) pairs in the map's iteration order. */
  datatype Bunch = Bunch(key: string, name: string, priority: Priority,
                         resources: seq<(string, ConfigResource)>,
                         refreshEnabled: Option<bool>, softPriority: real)

  /** The map's invariant: each resource is filed under its own
      description, and no description twice. */
  predicate KeyedByDescription(b: Bunch) {
    (forall i :: 0 <= i < |b.resources| ==> b.resources[i].0 == Description(b.resources[i].1)) &&
    (forall i, j :: 0 <= i < j < |b.resources| ==> b.resources[i].0 != b.resources[j].0)
  }

  /** `ConfigResourceBunch.create`, which is its constructor. The soft
      priority is a Java `double` field and starts at zero. */
  function CreateBunch(key: string, name: string, priority: Priority,
                       resources: seq<(string, ConfigResource)>, refreshEnabled: Option<bool>): (r: Bunch)
    ensures r.key == key && r.name == name && r.priority == priority
    ensures r.resources == resources && r.refreshEnabled == refreshEnabled
    ensures r.softPriority == 0.0
  {
    Bunch(key, name, priority, resources, refreshEnabled, 0.0)
  }

  /** `resources.values()`, in iteration order. */
  function Values(b: Bunch): (r: seq<ConfigResource>)
    ensures |r| == |b.resources|
    ensures forall i :: 0 <= i < |r| ==> r[i] == b.resources[i].1
  {
    seq(|b.resources|, i requires 0 <= i < |b.resources| => b.resources[i].1)
  }

  /** The sort key of bunches: the explicit priority only. */
  function BunchPriority(b: Bunch): Priority {
    b.priority
  }

  /** `compareTo` of bunches. */
  function BunchCompare(a: Bunch, b: Bunch): (r: int)
    ensures r == 0 <==> a.priority == b.priority
    ensures r < 0 <==> Below(a.priority, b.priority)
    ensures r > 0 <==> Below(b.priority, a.priority)
  {
    Compare(BunchPriority(a), BunchPriority(b))
  }

  /** The soft priority plays no part in the ordering. */
  lemma BunchCompareIgnoresSoftPriority(a: Bunch, b: Bunch, s: real, t: real)
    ensures BunchCompare(a.(softPriority := s), b.(softPriority := t)) == BunchCompare(a, b)
  {
  }

  /** `setSoftPriority`: the only field that can change. */
  function SetSoftPriority(b: Bunch, softPriority: real): (r: Bunch)
    ensures r.softPriority == softPriority
    ensures r.key == b.key && r.name == b.name && r.priority == b.priority
    ensures r.resources == b.resources && r.refreshEnabled == b.refreshEnabled
  {
    b.(softPriority := softPriority)
  }

  /** The getter returns what the setter stored, and setting the old value
      back restores the bunch. */
  lemma SoftPriorityRoundTrip(b: Bunch, v: real, w: real)
    ensures SetSoftPriority(b, v).softPriority == v
    ensures SetSoftPriority(SetSoftPriority(b, v), b.softPriority) == b
    ensures SetSoftPriority(SetSoftPriority(b, v), w) == SetSoftPriority(b, w)
  {
  }
}
