/** `PriorityComparable`: the null-low ordering of `Double` priorities, and
    the stable sort (`Collections.sort`) that bunches, resources and
    listeners are put through. NaN is not a value of the model. */
module PriorityOrder {
  import opened Wrappers

  /** A nullable `Double` priority. */
  type Priority = Option<real>

  /** The strict order behind `compareTo`: null is below every number, and
      numbers are ordered by value. */
  predicate Below(a: Priority, b: Priority) {
    (a.None? && b.Some?) || (a.Some? && b.Some? && a.value < b.value)
  }

  /** `compareTo` of two priorities. */
  function Compare(a: Priority, b: Priority): (r: int)
    ensures -1 <= r <= 1
    ensures r == 0 <==> a == b
    ensures r < 0 <==> Below(a, b)
    ensures r > 0 <==> Below(b, a)
  {
    if a == None && b == None then 0
    else if a == None then -1
    else if b == None then 1
    else if a.value == b.value then 0
    else if a.value > b.value then 1
    else -1
  }

  lemma CompareAntisymmetric(a: Priority, b: Priority)
    ensures Compare(a, b) == -Compare(b, a)
  {
  }

  lemma CompareTransitive(a: Priority, b: Priority, c: Priority)
    ensures Compare(a, b) <= 0 && Compare(b, c) <= 0 ==> Compare(a, c) <= 0
    ensures Compare(a, b) < 0 && Compare(b, c) < 0 ==> Compare(a, c) < 0
  {
  }

  lemma CompareTotal(a: Priority, b: Priority)
    ensures Compare(a, b) == 0 || Compare(a, b) == -Compare(b, a) != 0
  {
  }

  // ----- stable sorting by a priority key -----

  /** No element is strictly below an earlier one. */
  predicate SortedBy<T>(s: seq<T>, key: T -> Priority) {
    forall i, j :: 0 <= i < j < |s| ==> !Below(key(s[j]), key(s[i]))
  }

  /** The elements whose key is `p`, in their order in `s`. A sort that
      leaves every `WithKey` unchanged is stable. */
  function WithKey<T>(s: seq<T>, key: T -> Priority, p: Priority): (r: seq<T>)
    ensures |r| <= |s|
  {
    if s == [] then []
    else WithKey(s[..|s| - 1], key, p) + (if key(s[|s| - 1]) == p then [s[|s| - 1]] else [])
  }

  lemma WithKeySnoc<T>(s: seq<T>, x: T, key: T -> Priority, p: Priority)
    ensures WithKey(s + [x], key, p) == WithKey(s, key, p) + (if key(x) == p then [x] else [])
  {
    assert (s + [x])[..|s|] == s;
  }

  /** Every key of `s` is at most `b`. */
  predicate AllAtMost<T>(s: seq<T>, key: T -> Priority, b: Priority) {
    forall i :: 0 <= i < |s| ==> !Below(b, key(s[i]))
  }

  /** One insertion step: `x` goes after every element whose key is not
      above its own, so equal keys keep their arrival order. */
  function Insert<T>(s: seq<T>, x: T, key: T -> Priority): (r: seq<T>)
    ensures |r| == |s| + 1
    ensures multiset(r) == multiset(s) + multiset{x}
  {
    if s == [] then [x]
    else if Below(key(x), key(s[|s| - 1])) then
      assert s == s[..|s| - 1] + [s[|s| - 1]];
      Insert(s[..|s| - 1], x, key) + [s[|s| - 1]]
    else s + [x]
  }

  /** `x` itself when its key is `p`, otherwise nothing. */
  function Tagged<T>(x: T, key: T -> Priority, p: Priority): (r: seq<T>)
    ensures |r| <= 1
  {
    if key(x) == p then [x] else []
  }

  lemma {:induction false} InsertWithKey<T>(s: seq<T>, x: T, key: T -> Priority, p: Priority)
    ensures WithKey(Insert(s, x, key), key, p) == WithKey(s, key, p) + Tagged(x, key, p)
  {
    if s == [] || !Below(key(x), key(s[|s| - 1])) {
      assert Insert(s, x, key) == s + [x];
      WithKeySnoc(s, x, key, p);
    } else {
      var init, last := s[..|s| - 1], s[|s| - 1];
      assert s == init + [last];
      InsertWithKey(init, x, key, p);
      InsertWithKeyPast(init, last, x, key, p);
    }
  }

  /** Inserting below the last element inserts into the rest. */
  lemma InsertPast<T>(init: seq<T>, last: T, x: T, key: T -> Priority)
    requires Below(key(x), key(last))
    ensures Insert(init + [last], x, key) == Insert(init, x, key) + [last]
  {
    var s := init + [last];
    assert s[..|s| - 1] == init;
  }

  /** The step of `InsertWithKey` where `x` moves in front of `last`. */
  lemma InsertWithKeyPast<T>(init: seq<T>, last: T, x: T, key: T -> Priority, p: Priority)
    requires Below(key(x), key(last))
    requires WithKey(Insert(init, x, key), key, p) == WithKey(init, key, p) + Tagged(x, key, p)
    ensures WithKey(Insert(init + [last], x, key), key, p) == WithKey(init + [last], key, p) + Tagged(x, key, p)
  {
    var inserted := Insert(init, x, key);
    var w, tx, tl := WithKey(init, key, p), Tagged(x, key, p), Tagged(last, key, p);
    InsertPast(init, last, x, key);
    assert WithKey(inserted + [last], key, p) == w + tx + tl by {
      WithKeySnoc(inserted, last, key, p);
    }
    assert WithKey(init + [last], key, p) == w + tl by {
      WithKeySnoc(init, last, key, p);
    }
    TaggedApart(x, last, key, p);
    SwapEmpty(w, tx, tl);
  }

  /** Two elements with different keys are not both tagged with `p`. */
  lemma TaggedApart<T>(x: T, y: T, key: T -> Priority, p: Priority)
    requires Below(key(x), key(y))
    ensures Tagged(x, key, p) == [] || Tagged(y, key, p) == []
  {
    assert key(x) != key(y);
  }

  /** Two pieces of which one is empty may be swapped. */
  lemma SwapEmpty<T>(w: seq<T>, a: seq<T>, b: seq<T>)
    requires a == [] || b == []
    ensures w + a + b == w + b + a
  {
    if a == [] {
      assert w + a == w;
    } else {
      assert w + b == w;
    }
  }

  lemma {:induction false} InsertAtMost<T>(s: seq<T>, x: T, key: T -> Priority, b: Priority)
    requires AllAtMost(s, key, b) && !Below(b, key(x))
    ensures AllAtMost(Insert(s, x, key), key, b)
  {
    if s != [] && Below(key(x), key(s[|s| - 1])) {
      InsertAtMost(s[..|s| - 1], x, key, b);
    }
  }

  lemma {:induction false} InsertSorted<T>(s: seq<T>, x: T, key: T -> Priority)
    requires SortedBy(s, key)
    ensures SortedBy(Insert(s, x, key), key)
  {
    if s == [] {
    } else if Below(key(x), key(s[|s| - 1])) {
      var init, last := s[..|s| - 1], s[|s| - 1];
      InsertSorted(init, x, key);
      InsertAtMost(init, x, key, key(last));
      var r := Insert(init, x, key) + [last];
      forall i, j | 0 <= i < j < |r|
        ensures !Below(key(r[j]), key(r[i]))
      {
        if j == |r| - 1 {
          assert r[i] == Insert(init, x, key)[i];
        }
      }
    } else {
      var r := s + [x];
      forall i, j | 0 <= i < j < |r|
        ensures !Below(key(r[j]), key(r[i]))
      {
        if j == |r| - 1 && i < |s| - 1 {
          assert !Below(key(s[|s| - 1]), key(s[i]));
        }
      }
    }
  }

  /** Java's stable sort by ascending priority (null first), as an
      insertion sort. */
  function Sort<T>(xs: seq<T>, key: T -> Priority): (r: seq<T>)
    ensures |r| == |xs|
    ensures multiset(r) == multiset(xs)
    ensures SortedBy(r, key)
    ensures forall p :: WithKey(r, key, p) == WithKey(xs, key, p)
  {
    if xs == [] then []
    else
      var init, last := xs[..|xs| - 1], xs[|xs| - 1];
      var sorted := Sort(init, key);
      InsertSorted(sorted, last, key);
      SortStep(init, sorted, last, key);
      assert xs == init + [last];
      Insert(sorted, last, key)
  }

  lemma SortStep<T>(init: seq<T>, sorted: seq<T>, last: T, key: T -> Priority)
    requires forall p :: WithKey(sorted, key, p) == WithKey(init, key, p)
    ensures forall p :: WithKey(Insert(sorted, last, key), key, p) == WithKey(init + [last], key, p)
  {
    forall p
      ensures WithKey(Insert(sorted, last, key), key, p) == WithKey(init + [last], key, p)
    {
      InsertWithKey(sorted, last, key, p);
      WithKeySnoc(init, last, key, p);
      assert Tagged(last, key, p) == (if key(last) == p then [last] else []);
    }
  }

  // ----- any stable sort gives the same sequence -----

  lemma {:induction false} WithKeyHas<T>(s: seq<T>, key: T -> Priority, p: Priority)
    requires |WithKey(s, key, p)| > 0
    ensures exists i :: 0 <= i < |s| && key(s[i]) == p
  {
    if key(s[|s| - 1]) != p {
      WithKeyHas(s[..|s| - 1], key, p);
      var i :| 0 <= i < |s| - 1 && key(s[..|s| - 1][i]) == p;
      assert key(s[i]) == p;
    }
  }

  /** The last element of a sorted sequence has the largest key. */
  lemma SortedLastIsMax<T>(r: seq<T>, key: T -> Priority, i: int)
    requires SortedBy(r, key) && 0 <= i < |r|
    ensures !Below(key(r[|r| - 1]), key(r[i]))
  {
    if i < |r| - 1 {
      assert !Below(key(r[|r| - 1]), key(r[i]));
    }
  }

  /** Two sequences with the same elements of key `p`, where `p` is the key of
      the last element of `other`: the last element of sorted `r` is at
      least `p`. */
  lemma MaxKeyIsLast<T>(r: seq<T>, other: seq<T>, key: T -> Priority)
    requires SortedBy(r, key) && |r| > 0 && |other| > 0
    requires WithKey(r, key, key(other[|other| - 1])) == WithKey(other, key, key(other[|other| - 1]))
    ensures !Below(key(r[|r| - 1]), key(other[|other| - 1]))
  {
    var p := key(other[|other| - 1]);
    assert WithKey(other, key, p) == WithKey(other[..|other| - 1], key, p) + [other[|other| - 1]];
    WithKeyHas(r, key, p);
    var i :| 0 <= i < |r| && key(r[i]) == p;
    SortedLastIsMax(r, key, i);
  }

  /** The last element of a non-empty sequence is found by its own key. */
  lemma LastHasKey<T>(s: seq<T>, key: T -> Priority)
    requires |s| > 0
    ensures WithKey(s, key, key(s[|s| - 1])) != []
  {
  }

  /** Two sorted sequences with the same per-key subsequences end with the
      same element. */
  lemma SortedSameLast<T>(r1: seq<T>, r2: seq<T>, key: T -> Priority)
    requires SortedBy(r1, key) && SortedBy(r2, key) && |r1| > 0 && |r2| > 0
    requires forall p :: WithKey(r1, key, p) == WithKey(r2, key, p)
    ensures r1[|r1| - 1] == r2[|r2| - 1]
  {
    var a, b := r1[|r1| - 1], r2[|r2| - 1];
    MaxKeyIsLast(r1, r2, key);
    MaxKeyIsLast(r2, r1, key);
    assert key(a) == key(b);
    var w1, w2 := WithKey(r1, key, key(a)), WithKey(r2, key, key(a));
    assert w1 == w2;
    assert w1[|w1| - 1] == a;
    assert w2[|w2| - 1] == b;
  }

  /** Dropping the same last element keeps the per-key subsequences equal. */
  lemma SameWithoutLast<T>(i1: seq<T>, i2: seq<T>, a: T, key: T -> Priority)
    requires forall p :: WithKey(i1 + [a], key, p) == WithKey(i2 + [a], key, p)
    ensures forall p :: WithKey(i1, key, p) == WithKey(i2, key, p)
  {
    forall p
      ensures WithKey(i1, key, p) == WithKey(i2, key, p)
    {
      WithKeySnoc(i1, a, key, p);
      WithKeySnoc(i2, a, key, p);
      var w1, w2, t := WithKey(i1, key, p), WithKey(i2, key, p), Tagged(a, key, p);
      assert w1 + t == w2 + t;
      assert w1 == (w1 + t)[..|w1|];
      assert w2 == (w2 + t)[..|w2|];
    }
  }

  /** A sorted sequence is determined by its per-key subsequences, so the
      insertion sort above agrees with every stable sort. */
  lemma {:induction false} SortedUnique<T>(r1: seq<T>, r2: seq<T>, key: T -> Priority)
    requires SortedBy(r1, key) && SortedBy(r2, key)
    requires forall p :: WithKey(r1, key, p) == WithKey(r2, key, p)
    ensures r1 == r2
    decreases |r1|
  {
    if r1 == [] && r2 == [] {
    } else if r1 == [] {
      LastHasKey(r2, key);
      assert false;
    } else if r2 == [] {
      LastHasKey(r1, key);
      assert false;
    } else {
      var i1, i2 := r1[..|r1| - 1], r2[..|r2| - 1];
      SortedSameLast(r1, r2, key);
      var a := r1[|r1| - 1];
      assert r1 == i1 + [a];
      assert r2 == i2 + [a];
      SameWithoutLast(i1, i2, a, key);
      SortedUnique(i1, i2, key);
    }
  }

  lemma SortIsStableSort<T>(xs: seq<T>, r: seq<T>, key: T -> Priority)
    requires SortedBy(r, key)
    requires forall p :: WithKey(r, key, p) == WithKey(xs, key, p)
    ensures Sort(xs, key) == r
  {
    SortedUnique(Sort(xs, key), r, key);
  }

  /** Sorting what is already in order changes nothing. */
  lemma SortSorted<T>(xs: seq<T>, key: T -> Priority)
    requires SortedBy(xs, key)
    ensures Sort(xs, key) == xs
  {
    SortIsStableSort(xs, xs, key);
  }

  /** Every key is strictly above the keys before it. */
  predicate StrictlySortedBy<T>(s: seq<T>, key: T -> Priority) {
    forall i, j :: 0 <= i < j < |s| ==> Below(key(s[i]), key(s[j]))
  }

  /** A sorted permutation of a strictly sorted sequence starts with the
      same element. */
  lemma SortedPermutationHead<T>(r: seq<T>, xs: seq<T>, key: T -> Priority)
    requires SortedBy(r, key) && StrictlySortedBy(xs, key)
    requires multiset(r) == multiset(xs) && xs != []
    ensures |r| == |xs| && r[0] == xs[0]
  {
    assert |r| == |multiset(r)| == |xs|;
    assert r[0] in multiset(xs);
    assert xs[0] in multiset(r);
    var i :| 0 <= i < |r| && r[i] == xs[0];
    assert !Below(key(xs[0]), key(r[0])) by {
      if i > 0 {
        assert !Below(key(r[i]), key(r[0]));
      }
    }
    forall k | 0 < k < |xs|
      ensures xs[k] != r[0]
    {
      assert Below(key(xs[0]), key(xs[k]));
    }
  }

  lemma TailsKeepOrder<T>(r: seq<T>, xs: seq<T>, key: T -> Priority)
    requires SortedBy(r, key) && StrictlySortedBy(xs, key) && r != [] && xs != []
    ensures SortedBy(r[1..], key) && StrictlySortedBy(xs[1..], key)
  {
    forall i, j | 0 <= i < j < |r[1..]|
      ensures !Below(key(r[1..][j]), key(r[1..][i]))
    {
      assert r[1..][j] == r[j + 1] && r[1..][i] == r[i + 1];
    }
    forall i, j | 0 <= i < j < |xs[1..]|
      ensures Below(key(xs[1..][i]), key(xs[1..][j]))
    {
      assert xs[1..][j] == xs[j + 1] && xs[1..][i] == xs[i + 1];
    }
  }

  lemma TailsSameMultiset<T>(r: seq<T>, xs: seq<T>)
    requires multiset(r) == multiset(xs) && r != [] && xs != [] && r[0] == xs[0]
    ensures multiset(r[1..]) == multiset(xs[1..])
  {
    assert r == [r[0]] + r[1..];
    assert xs == [xs[0]] + xs[1..];
    assert multiset(r) == multiset{r[0]} + multiset(r[1..]);
    assert multiset(xs) == multiset{xs[0]} + multiset(xs[1..]);
    assert multiset(r[1..]) == multiset(r) - multiset{r[0]};
    assert multiset(xs[1..]) == multiset(xs) - multiset{xs[0]};
  }

  /** A sorted permutation of a strictly sorted sequence is that sequence. */
  lemma {:induction false} SortedPermutationUnique<T>(r: seq<T>, xs: seq<T>, key: T -> Priority)
    requires SortedBy(r, key) && StrictlySortedBy(xs, key)
    requires multiset(r) == multiset(xs)
    ensures r == xs
    decreases |xs|
  {
    if xs == [] {
      assert |r| == |multiset(r)| == 0;
    } else {
      SortedPermutationHead(r, xs, key);
      TailsKeepOrder(r, xs, key);
      TailsSameMultiset(r, xs);
      SortedPermutationUnique(r[1..], xs[1..], key);
      assert r == [r[0]] + r[1..];
      assert xs == [xs[0]] + xs[1..];
    }
  }

  /** Sorting any arrangement of a strictly sorted sequence gives that
      sequence back. */
  lemma SortRestoresStrictOrder<T>(vs: seq<T>, xs: seq<T>, key: T -> Priority)
    requires StrictlySortedBy(xs, key)
    requires multiset(vs) == multiset(xs)
    ensures Sort(vs, key) == xs
  {
    SortedPermutationUnique(Sort(vs, key), xs, key);
  }

  // ----- `ConfigListener` -----

  /** `ConfigListener.compareTo`: the difference of the two orders. */
  function ListenerCompare(order: int, otherOrder: int): (r: int)
    ensures r == 0 <==> order == otherOrder
    ensures r < 0 <==> order < otherOrder
  {
    order - otherOrder
  }

  /** The listener comparison has the sign of `Compare` on the orders. */
  lemma ListenerCompareSign(a: int, b: int)
    ensures ListenerCompare(a, b) < 0 <==> Compare(Some(a as real), Some(b as real)) < 0
    ensures ListenerCompare(a, b) == 0 <==> Compare(Some(a as real), Some(b as real)) == 0
    ensures ListenerCompare(a, b) == -ListenerCompare(b, a)
  {
  }

  /** Listeners sorted with that comparator are in ascending order. */
  lemma ListenersAscending<T>(xs: seq<T>, order: T -> int)
    ensures var r := Sort(xs, (x: T) => Some(order(x) as real));
      forall i, j :: 0 <= i < j < |r| ==> order(r[i]) <= order(r[j])
  {
    var key := (x: T) => Some(order(x) as real);
    var r := Sort(xs, key);
    forall i, j | 0 <= i < j < |r|
      ensures order(r[i]) <= order(r[j])
    {
      assert !Below(key(r[j]), key(r[i]));
    }
  }
}
