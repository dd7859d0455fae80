/** A configuration tree as the loaders see it: its `entrySet`, a list of
    (path, value) entries in iteration order with distinct paths. Values
    are opaque; `withValue`, `withoutPath` and `hasPath` act on whole
    paths, and `CaramelConfig.overwrite` folds `withValue` over a second
    tree. */
module ConfigTree {
  import opened Wrappers

  /** A configuration value, kept opaque. */
  datatype Value = Value(raw: string)

  datatype Entry = Entry(path: string, value: Value)

  type Tree = seq<Entry>

  /** Every path occurs at most once. */
  predicate WellFormed(t: Tree) {
    forall i, j :: 0 <= i < j < |t| ==> t[i].path != t[j].path
  }

  /** `hasPath`. */
  predicate HasPath(t: Tree, p: string) {
    exists i :: 0 <= i < |t| && t[i].path == p
  }

  lemma HasPathCons(t: Tree, p: string)
    requires t != []
    ensures HasPath(t, p) <==> t[0].path == p || HasPath(t[1..], p)
  {
    if HasPath(t[1..], p) {
      var i :| 0 <= i < |t[1..]| && t[1..][i].path == p;
      assert t[i + 1].path == p;
    }
    if HasPath(t, p) && t[0].path != p {
      var i :| 0 <= i < |t| && t[i].path == p;
      assert t[1..][i - 1].path == p;
    }
  }

  lemma WellFormedCons(t: Tree)
    requires t != []
    ensures WellFormed(t) <==> WellFormed(t[1..]) && !HasPath(t[1..], t[0].path)
  {
    HasPathCons(t, t[0].path);
    if WellFormed(t[1..]) && !HasPath(t[1..], t[0].path) {
      forall i, j | 0 <= i < j < |t|
        ensures t[i].path != t[j].path
      {
        if i == 0 {
          assert t[1..][j - 1].path == t[j].path;
        } else {
          assert t[1..][i - 1].path != t[1..][j - 1].path;
        }
      }
    }
    if WellFormed(t) {
      forall i | 0 <= i < |t[1..]|
        ensures t[1..][i].path != t[0].path
      {
        assert t[1..][i] == t[i + 1];
      }
    }
  }

  /** The value at a path, read from the first entry that has it. */
  function Lookup(t: Tree, p: string): (r: Option<Value>)
    ensures r.Some? <==> HasPath(t, p)
    ensures r.Some? ==> exists i :: 0 <= i < |t| && t[i] == Entry(p, r.value)
  {
    if t == [] then None
    else
      HasPathCons(t, p);
      if t[0].path == p then Some(t[0].value)
      else
        var r := Lookup(t[1..], p);
        assert r.Some? ==> exists i :: 0 <= i < |t| && t[i] == Entry(p, r.value) by {
          if r.Some? {
            var i :| 0 <= i < |t[1..]| && t[1..][i] == Entry(p, r.value);
            assert t[i + 1] == Entry(p, r.value);
          }
        }
        r
  }

  /** In a well-formed tree, each entry is what a lookup of its path finds. */
  lemma {:induction false} LookupEntry(t: Tree, i: int)
    requires WellFormed(t) && 0 <= i < |t|
    ensures Lookup(t, t[i].path) == Some(t[i].value)
  {
    if i > 0 {
      WellFormedCons(t);
      assert t[1..][i - 1] == t[i];
      LookupEntry(t[1..], i - 1);
    }
  }

  /** `withValue`: the entry of path `p` gets value `v` in place, or a new
      entry is added at the end when there is none. */
  function WithValue(t: Tree, p: string, v: Value): (r: Tree)
    ensures Lookup(r, p) == Some(v)
    ensures forall q :: q != p ==> Lookup(r, q) == Lookup(t, q)
    ensures !HasPath(t, p) ==> r == t + [Entry(p, v)]
  {
    if t == [] then [Entry(p, v)]
    else
      HasPathCons(t, p);
      if t[0].path == p then [Entry(p, v)] + t[1..]
      else
        var rest := WithValue(t[1..], p, v);
        assert !HasPath(t, p) ==> [t[0]] + rest == t + [Entry(p, v)] by {
          if !HasPath(t, p) {
            assert t == [t[0]] + t[1..];
          }
        }
        [t[0]] + rest
  }

  /** When the path is there, `WithValue` keeps every path where it was. */
  lemma {:induction false} WithValueInPlace(t: Tree, p: string, v: Value)
    requires HasPath(t, p)
    ensures var r := WithValue(t, p, v);
      |r| == |t| && forall i :: 0 <= i < |t| ==> r[i].path == t[i].path
  {
    HasPathCons(t, p);
    if t[0].path != p {
      WithValueInPlace(t[1..], p, v);
      var rest := WithValue(t[1..], p, v);
      assert WithValue(t, p, v) == [t[0]] + rest;
    }
  }

  /** Writing the value a path already has changes nothing. */
  lemma {:induction false} WithValueSame(t: Tree, p: string, v: Value)
    requires Lookup(t, p) == Some(v)
    ensures WithValue(t, p, v) == t
  {
    if t[0].path == p {
      assert t == [Entry(p, v)] + t[1..];
    } else {
      WithValueSame(t[1..], p, v);
      assert t == [t[0]] + t[1..];
    }
  }

  /** The two branches of `WithValue` keep the paths distinct. */
  lemma WithValueWellFormed(t: Tree, p: string, v: Value)
    requires WellFormed(t)
    ensures WellFormed(WithValue(t, p, v))
  {
    var r := WithValue(t, p, v);
    if HasPath(t, p) {
      WithValueInPlace(t, p, v);
      forall i, j | 0 <= i < j < |r|
        ensures r[i].path != r[j].path
      {
        assert t[i].path != t[j].path;
      }
    } else {
      forall i, j | 0 <= i < j < |r|
        ensures r[i].path != r[j].path
      {
        if j == |t| {
          assert r[i].path == t[i].path;
        }
      }
    }
  }

  /** `withoutPath`: every entry of path `p` is dropped. */
  function WithoutPath(t: Tree, p: string): (r: Tree)
    ensures Lookup(r, p) == None
    ensures forall q :: q != p ==> Lookup(r, q) == Lookup(t, q)
    ensures WellFormed(t) ==> WellFormed(r)
  {
    if t == [] then []
    else
      var rest := WithoutPath(t[1..], p);
      HasPathCons(t, p);
      if t[0].path == p then
        assert WellFormed(t) ==> WellFormed(t[1..]) by {
          if WellFormed(t) { WellFormedCons(t); }
        }
        rest
      else
        var r := [t[0]] + rest;
        WithoutPathCons(t, rest, p);
        r
  }

  lemma WithoutPathCons(t: Tree, rest: Tree, p: string)
    requires t != [] && t[0].path != p
    requires Lookup(rest, p) == None
    requires forall q :: q != p ==> Lookup(rest, q) == Lookup(t[1..], q)
    requires WellFormed(t[1..]) ==> WellFormed(rest)
    ensures var r := [t[0]] + rest;
      Lookup(r, p) == None &&
      (forall q :: q != p ==> Lookup(r, q) == Lookup(t, q)) &&
      (WellFormed(t) ==> WellFormed(r))
  {
    var r := [t[0]] + rest;
    assert r[1..] == rest;
    assert r[0] == t[0];
    if WellFormed(t) {
      WellFormedCons(t);
      assert Lookup(rest, t[0].path) == Lookup(t[1..], t[0].path);
      WellFormedCons(r);
    }
  }

  // ----- `CaramelConfig.overwrite` -----

  /** `overwrite`: `withValue` for each entry of the new tree, in order. */
  function Overwrite(config: Tree, newConfig: Tree): (r: Tree)
    ensures forall q :: !HasPath(newConfig, q) ==> Lookup(r, q) == Lookup(config, q)
    ensures WellFormed(newConfig) ==>
      forall q :: HasPath(newConfig, q) ==> Lookup(r, q) == Lookup(newConfig, q)
    decreases |newConfig|
  {
    if newConfig == [] then config
    else
      var e := newConfig[0];
      var next := WithValue(config, e.path, e.value);
      var r := Overwrite(next, newConfig[1..]);
      OverwriteStep(config, newConfig, r);
      r
  }

  lemma OverwriteStep(config: Tree, newConfig: Tree, r: Tree)
    requires newConfig != []
    requires var e := newConfig[0]; var next := WithValue(config, e.path, e.value);
      (forall q :: !HasPath(newConfig[1..], q) ==> Lookup(r, q) == Lookup(next, q)) &&
      (WellFormed(newConfig[1..]) ==>
        forall q :: HasPath(newConfig[1..], q) ==> Lookup(r, q) == Lookup(newConfig[1..], q))
    ensures forall q :: !HasPath(newConfig, q) ==> Lookup(r, q) == Lookup(config, q)
    ensures WellFormed(newConfig) ==>
      forall q :: HasPath(newConfig, q) ==> Lookup(r, q) == Lookup(newConfig, q)
  {
    forall q
      ensures !HasPath(newConfig, q) ==> Lookup(r, q) == Lookup(config, q)
      ensures WellFormed(newConfig) && HasPath(newConfig, q) ==> Lookup(r, q) == Lookup(newConfig, q)
    {
      HasPathCons(newConfig, q);
      if WellFormed(newConfig) {
        WellFormedCons(newConfig);
      }
    }
  }

  /** Overwriting keeps the paths of the old tree distinct. */
  lemma {:induction false} OverwriteWellFormed(config: Tree, newConfig: Tree)
    requires WellFormed(config)
    ensures WellFormed(Overwrite(config, newConfig))
    decreases |newConfig|
  {
    if newConfig != [] {
      var e := newConfig[0];
      WithValueWellFormed(config, e.path, e.value);
      OverwriteWellFormed(WithValue(config, e.path, e.value), newConfig[1..]);
    }
  }

  /** Overwriting with an empty tree changes nothing. */
  lemma OverwriteEmpty(config: Tree)
    ensures Overwrite(config, []) == config
  {
  }

  /** Overwriting with entries that are all already in place changes
      nothing, entry order included. */
  lemma {:induction false} OverwriteHolding(config: Tree, newConfig: Tree)
    requires forall i :: 0 <= i < |newConfig| ==> Lookup(config, newConfig[i].path) == Some(newConfig[i].value)
    ensures Overwrite(config, newConfig) == config
    decreases |newConfig|
  {
    if newConfig != [] {
      var e := newConfig[0];
      WithValueSame(config, e.path, e.value);
      forall i | 0 <= i < |newConfig[1..]|
        ensures Lookup(config, newConfig[1..][i].path) == Some(newConfig[1..][i].value)
      {
        assert newConfig[1..][i] == newConfig[i + 1];
      }
      OverwriteHolding(config, newConfig[1..]);
    }
  }

  /** Overwriting twice with the same tree is overwriting once. */
  lemma OverwriteIdempotent(config: Tree, newConfig: Tree)
    requires WellFormed(newConfig)
    ensures Overwrite(Overwrite(config, newConfig), newConfig) == Overwrite(config, newConfig)
  {
    var once := Overwrite(config, newConfig);
    forall i | 0 <= i < |newConfig|
      ensures Lookup(once, newConfig[i].path) == Some(newConfig[i].value)
    {
      LookupEntry(newConfig, i);
    }
    OverwriteHolding(once, newConfig);
  }
}
