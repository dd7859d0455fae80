/** `CaramelConfigRegistry`, the non-folding revision: its properties
    carry the enabled switch, the echo options and the located bunches;
    every later entry overwrites the same exact path. */
module CaramelRegistry {
  import opened Wrappers
  import opened ConfigTree
  import opened ConfigResources
  import opened ConfigMerge
  import opened ConfigEcho
  import opened Assoc

  /** The properties object: the enabled switch, the echo options (null
      unless set) and what locating its locations and positions found. */
  datatype Properties = Properties(enabled: bool, echo: Option<Echo>, located: seq<(string, seq<Bunch>)>)

  datatype CaramelConfigRegistry = CaramelConfigRegistry(properties: Option<Properties>, holder: Holder)

  /** The constructor: no properties, nothing held. */
  function NewRegistry(): (r: CaramelConfigRegistry)
    ensures r.properties.None?
    ensures forall k :: Get(r, k).None?
  {
    CaramelConfigRegistry(None, map[])
  }

  function Get(reg: CaramelConfigRegistry, key: string): (r: Option<Option<Tree>>)
    ensures r.Some? <==> key in reg.holder
    ensures r.Some? ==> r.value == reg.holder[key]
  {
    if key in reg.holder then Some(reg.holder[key]) else None
  }

  /** Why `init` stopped: the echo options were never set (the first key
      dereferences them), or a resource could not be read. */
  datatype InitError = NullEcho | ReadFailure(resource: ConfigResource)

  datatype InitOutcome = InitOutcome(registry: CaramelConfigRegistry, error: Option<InitError>)

  /** `init`: nothing happens without properties, when disabled, or when
      nothing is located; otherwise each key is folded by exact path and
      registered in turn. */
  function Init(reg: CaramelConfigRegistry, parse: Resource -> Option<Tree>): (r: InitOutcome)
    ensures r.registry.properties == reg.properties
    ensures reg.properties.None? || !reg.properties.value.enabled || reg.properties.value.located == [] ==>
      r == InitOutcome(reg, None)
    ensures (reg.properties.Some? && reg.properties.value.enabled && reg.properties.value.located != [] &&
             reg.properties.value.echo.None?) ==> r == InitOutcome(reg, Some(NullEcho))
    ensures r.error.Some? && r.error.value.ReadFailure? ==>
      KeyFailed(reg.properties.value.located, parse, false, r.error.value.resource)
    ensures r.error.Some? && r.error.value.ReadFailure? ==>
      var located := reg.properties.value.located;
      exists i :: StoppedAt(located, parse, Exact, false, i, r.error.value.resource) &&
        KeptOutside(located[..i], reg.holder, r.registry.holder)
  {
    match reg.properties
    case None => InitOutcome(reg, None)
    case Some(props) =>
      if !props.enabled || props.located == [] then InitOutcome(reg, None)
      else if props.echo.None? then InitOutcome(reg, Some(NullEcho))
      else
        var out := LoadAll(props.located, reg.holder, parse, Exact, false);
        LoadAllFailure(props.located, reg.holder, parse, Exact, false);
        InitOutcome(reg.(holder := out.holder), if out.failure.Some? then Some(ReadFailure(out.failure.value)) else None)
  }

  /** After a successful `init`, every path of a key holds the value of the
      last of its resources that defines it. */
  lemma InitLastDefinitionWins(reg: CaramelConfigRegistry, parse: Resource -> Option<Tree>, i: int, q: string)
    requires reg.properties.Some? && reg.properties.value.enabled && reg.properties.value.echo.Some?
    requires var located := reg.properties.value.located;
      (forall a, b :: 0 <= a < b < |located| ==> located[a].0 != located[b].0) && 0 <= i < |located|
    requires Init(reg, parse).error.None?
    requires var rs := LoadOrder(reg.properties.value.located[i].1, false);
      rs != [] && ParsesWellFormed(rs, parse)
    ensures var located := reg.properties.value.located;
      var rs := LoadOrder(located[i].1, false);
      AllParse(rs, parse) &&
      exists t :: Get(Init(reg, parse).registry, located[i].0) == Some(Some(t)) &&
        Lookup(t, q) == LastDefinition(Parsed(rs, parse), q)
  {
    var located := reg.properties.value.located;
    var rs := LoadOrder(located[i].1, false);
    LoadAllRegistersEveryKey(located, reg.holder, parse, Exact, false, i);
    ExactLoadLastWins(rs, parse, q);
    var t := FoldResources(None, rs, parse, Exact).value.value;
    assert Get(Init(reg, parse).registry, located[i].0) == Some(Some(t));
  }

  /** After a successful `init`, `get` answers for a key exactly when it was
      held before or something was located for it. */
  lemma InitGetPresence(reg: CaramelConfigRegistry, parse: Resource -> Option<Tree>, k: string)
    requires reg.properties.Some? && reg.properties.value.enabled && reg.properties.value.echo.Some?
    requires var located := reg.properties.value.located;
      forall a, b :: 0 <= a < b < |located| ==> located[a].0 != located[b].0
    requires Init(reg, parse).error.None?
    ensures Get(Init(reg, parse).registry, k).Some? <==>
      Get(reg, k).Some? || HasKey(reg.properties.value.located, k)
  {
    var located := reg.properties.value.located;
    if HasKey(located, k) {
      var i :| 0 <= i < |located| && located[i].0 == k;
      LoadAllRegistersEveryKey(located, reg.holder, parse, Exact, false, i);
    }
  }

  /** `destroy`: the holder is emptied and the properties dropped. */
  function Destroy(reg: CaramelConfigRegistry): (r: CaramelConfigRegistry)
    ensures r.properties.None?
    ensures forall k :: Get(r, k).None?
  {
    CaramelConfigRegistry(None, map[])
  }

  /** After `destroy`, `init` does nothing until properties are set again. */
  lemma DestroyThenInitIsNoop(reg: CaramelConfigRegistry, parse: Resource -> Option<Tree>)
    ensures Init(Destroy(reg), parse) == InitOutcome(Destroy(reg), None)
  {
  }
}
