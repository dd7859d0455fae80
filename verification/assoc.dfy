/** A Java `HashMap` with string keys, as the list of its entries in
    iteration order: `get` finds the entry of a key, and `put` replaces the
    value in place or adds the entry at the end. */
module Assoc {
  import opened Wrappers

  predicate HasKey<V>(m: seq<(string, V)>, k: string) {
    exists i :: 0 <= i < |m| && m[i].0 == k
  }

  lemma HasKeyCons<V>(m: seq<(string, V)>, k: string)
    requires m != []
    ensures HasKey(m, k) <==> m[0].0 == k || HasKey(m[1..], k)
  {
    if HasKey(m[1..], k) {
      var i :| 0 <= i < |m[1..]| && m[1..][i].0 == k;
      assert m[i + 1].0 == k;
    }
    if HasKey(m, k) && m[0].0 != k {
      var i :| 0 <= i < |m| && m[i].0 == k;
      assert m[1..][i - 1].0 == k;
    }
  }

  /** No key is listed twice. */
  predicate DistinctKeys<V>(m: seq<(string, V)>) {
    forall i, j :: 0 <= i < j < |m| ==> m[i].0 != m[j].0
  }

  lemma DistinctKeysTail<V>(m: seq<(string, V)>)
    requires DistinctKeys(m) && m != []
    ensures DistinctKeys(m[1..]) && !HasKey(m[1..], m[0].0)
  {
    forall a, b | 0 <= a < b < |m[1..]|
      ensures m[1..][a].0 != m[1..][b].0
    {
      assert m[1..][a] == m[a + 1] && m[1..][b] == m[b + 1];
    }
    forall a | 0 <= a < |m[1..]|
      ensures m[1..][a].0 != m[0].0
    {
      assert m[1..][a] == m[a + 1];
    }
  }

  /** `get`: the value of the first entry for `k`. */
  function Find<V>(m: seq<(string, V)>, k: string): (r: Option<V>)
    ensures r.Some? <==> HasKey(m, k)
    ensures r.Some? ==> exists i :: 0 <= i < |m| && m[i] == (k, r.value)
    decreases |m|
  {
    if m == [] then None
    else
      HasKeyCons(m, k);
      if m[0].0 == k then Some(m[0].1)
      else
        var r := Find(m[1..], k);
        assert r.Some? ==> exists i :: 0 <= i < |m| && m[i] == (k, r.value) by {
          if r.Some? {
            var i :| 0 <= i < |m[1..]| && m[1..][i] == (k, r.value);
            assert m[i + 1] == (k, r.value);
          }
        }
        r
  }

  /** With distinct keys, each entry is what `Find` returns for its key. */
  lemma {:induction false} FindEntry<V>(m: seq<(string, V)>, i: int)
    requires DistinctKeys(m) && 0 <= i < |m|
    ensures Find(m, m[i].0) == Some(m[i].1)
    decreases |m|
  {
    if i > 0 {
      assert m[0].0 != m[i].0;
      DistinctKeysTail(m);
      assert m[1..][i - 1] == m[i];
      FindEntry(m[1..], i - 1);
    }
  }

  /** `put`: the entry of `k` takes value `v` where it stands, or a new
      entry goes at the end. */
  function Put<V>(m: seq<(string, V)>, k: string, v: V): (r: seq<(string, V)>)
    ensures Find(r, k) == Some(v)
    ensures forall q :: q != k ==> Find(r, q) == Find(m, q)
    ensures !HasKey(m, k) ==> r == m + [(k, v)]
    ensures DistinctKeys(m) ==> DistinctKeys(r)
    decreases |m|
  {
    if m == [] then [(k, v)]
    else if m[0].0 == k then [(k, v)] + m[1..]
    else
      var rest := Put(m[1..], k, v);
      PutCons(m, k, v, rest);
      [m[0]] + rest
  }

  lemma PutCons<V>(m: seq<(string, V)>, k: string, v: V, rest: seq<(string, V)>)
    requires m != [] && m[0].0 != k
    requires Find(rest, k) == Some(v)
    requires forall q :: q != k ==> Find(rest, q) == Find(m[1..], q)
    requires !HasKey(m[1..], k) ==> rest == m[1..] + [(k, v)]
    requires DistinctKeys(m[1..]) ==> DistinctKeys(rest)
    ensures var r := [m[0]] + rest;
      Find(r, k) == Some(v) &&
      (forall q :: q != k ==> Find(r, q) == Find(m, q)) &&
      (!HasKey(m, k) ==> r == m + [(k, v)]) &&
      (DistinctKeys(m) ==> DistinctKeys(r))
  {
    var r := [m[0]] + rest;
    assert r[1..] == rest;
    HasKeyCons(m, k);
    if !HasKey(m, k) {
      assert rest == m[1..] + [(k, v)];
      assert [m[0]] + (m[1..] + [(k, v)]) == ([m[0]] + m[1..]) + [(k, v)];
      assert m == [m[0]] + m[1..];
    }
    forall q | q != k
      ensures Find(r, q) == Find(m, q)
    {
      assert Find(r, q) == (if m[0].0 == q then Some(m[0].1) else Find(rest, q));
    }
    if DistinctKeys(m) {
      DistinctKeysTail(m);
      assert !HasKey(rest, m[0].0) by {
        assert Find(rest, m[0].0) == None;
      }
      DistinctKeysCons(m[0], rest);
    }
  }

  lemma DistinctKeysCons<V>(e: (string, V), rest: seq<(string, V)>)
    requires DistinctKeys(rest) && !HasKey(rest, e.0)
    ensures DistinctKeys([e] + rest)
  {
    var r := [e] + rest;
    forall a, b | 0 <= a < b < |r|
      ensures r[a].0 != r[b].0
    {
      assert r[b] == rest[b - 1];
      if a > 0 {
        assert r[a] == rest[a - 1];
      }
    }
  }

  /** The values in iteration order (`values()`). */
  function ValuesOf<V>(m: seq<(string, V)>): (r: seq<V>)
    ensures |r| == |m|
    ensures forall i :: 0 <= i < |m| ==> r[i] == m[i].1
  {
    seq(|m|, i requires 0 <= i < |m| => m[i].1)
  }
}
