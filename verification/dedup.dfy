/** De-duplication by key with JavaScript `Map` re-insertion semantics, the
    idiom `Array.from(new Map(list.map((x) => [x.id, x])).values())`: a Map
    keeps each key at the position where it was first inserted, and setting
    an existing key replaces its value in place. */
module Dedup {
  import opened Seqs

  /** The key of every element, in order. */
  function Keys<T, K>(xs: seq<T>, key: T -> K): (ks: seq<K>)
    ensures |ks| == |xs|
    ensures forall i :: 0 <= i < |xs| ==> ks[i] == key(xs[i])
  {
    seq(|xs|, i requires 0 <= i < |xs| => key(xs[i]))
  }

  /** Position of the first occurrence of `k`. */
  function FirstIndex<K(==)>(ks: seq<K>, k: K): (i: nat)
    requires k in ks
    ensures i < |ks| && ks[i] == k
    ensures forall j :: 0 <= j < i ==> ks[j] != k
  {
    if ks[0] == k then 0 else 1 + FirstIndex(ks[1..], k)
  }

  /** The last element of `xs` whose key is `k`. */
  function LastWith<T, K(==)>(xs: seq<T>, key: T -> K, k: K): (x: T)
    requires k in Keys(xs, key)
    ensures key(x) == k
  {
    var n := |xs| - 1;
    if key(xs[n]) == k then xs[n]
    else
      var j := FirstIndex(Keys(xs, key), k);
      assert Keys(xs[..n], key)[j] == k;
      LastWith(xs[..n], key, k)
  }

  /** The reference meaning of "de-duplicated by key": one element per
      distinct key of `xs` and no other keys, each element the LAST one of
      `xs` carrying that key, placed in the order in which the keys FIRST
      occur in `xs`. */
  ghost predicate IsDedupOf<T, K>(r: seq<T>, xs: seq<T>, key: T -> K) {
    var rk := Keys(r, key);
    var xk := Keys(xs, key);
    && Distinct(rk)
    && (forall i :: 0 <= i < |xs| ==> xk[i] in rk)
    && (forall i :: 0 <= i < |r| ==> rk[i] in xk && r[i] == LastWith(xs, key, rk[i]))
    && (forall i, j :: 0 <= i < j < |r| ==>
          rk[i] in xk && rk[j] in xk && FirstIndex(xk, rk[i]) < FirstIndex(xk, rk[j]))
  }

  /** One `map.set(key(x), x)` on the list of values in insertion order. */
  function Put<T, K(==)>(acc: seq<T>, x: T, key: T -> K): seq<T> {
    var ks := Keys(acc, key);
    if key(x) in ks then acc[FirstIndex(ks, key(x)) := x] else acc + [x]
  }

  /** The values of a Map filled from `xs` in order. */
  function DedupByKey<T, K(==)>(xs: seq<T>, key: T -> K): (r: seq<T>)
    ensures IsDedupOf(r, xs, key)
    ensures |r| <= |xs|
  {
    if |xs| == 0 then []
    else
      var n := |xs| - 1;
      var r := DedupByKey(xs[..n], key);
      assert xs == xs[..n] + [xs[n]];
      PutPreservesDedup(r, xs[..n], xs[n], key);
      Put(r, xs[n], key)
  }

  lemma FirstIndexAppend<K>(ks: seq<K>, k: K, extra: K)
    requires k in ks
    ensures k in ks + [extra]
    ensures FirstIndex(ks + [extra], k) == FirstIndex(ks, k)
  {
    if ks[0] != k {
      assert (ks + [extra])[1..] == ks[1..] + [extra];
      FirstIndexAppend(ks[1..], k, extra);
    }
  }

  lemma LastWithAppend<T, K>(xs: seq<T>, x: T, key: T -> K, k: K)
    requires k in Keys(xs, key) || k == key(x)
    ensures k in Keys(xs + [x], key)
    ensures LastWith(xs + [x], key, k) == if k == key(x) then x else LastWith(xs, key, k)
  {
    var ys := xs + [x];
    assert Keys(ys, key)[|xs|] == key(x);
    if k != key(x) {
      var j := FirstIndex(Keys(xs, key), k);
      assert Keys(ys, key)[j] == k;
      assert ys[..|xs|] == xs;
    }
  }

  lemma PutPreservesDedup<T, K>(r: seq<T>, xs: seq<T>, x: T, key: T -> K)
    requires IsDedupOf(r, xs, key)
    ensures IsDedupOf(Put(r, x, key), xs + [x], key)
  {
    var rk := Keys(r, key);
    var xk := Keys(xs, key);
    var ys := xs + [x];
    var yk := Keys(ys, key);
    assert yk == xk + [key(x)];
    forall k | k in xk
      ensures k in yk && FirstIndex(yk, k) == FirstIndex(xk, k)
    {
      FirstIndexAppend(xk, k, key(x));
    }
    forall k | k in xk || k == key(x)
      ensures k in yk
      ensures LastWith(ys, key, k) == if k == key(x) then x else LastWith(xs, key, k)
    {
      LastWithAppend(xs, x, key, k);
    }
    if key(x) in rk {
      PutExisting(r, xs, x, key);
    } else {
      PutFresh(r, xs, x, key);
    }
  }

  lemma PutExisting<T, K>(r: seq<T>, xs: seq<T>, x: T, key: T -> K)
    requires IsDedupOf(r, xs, key)
    requires key(x) in Keys(r, key)
    requires forall k :: k in Keys(xs, key) ==>
               k in Keys(xs + [x], key) && FirstIndex(Keys(xs + [x], key), k) == FirstIndex(Keys(xs, key), k)
    requires forall k :: k in Keys(xs, key) || k == key(x) ==>
               k in Keys(xs + [x], key) &&
               LastWith(xs + [x], key, k) == if k == key(x) then x else LastWith(xs, key, k)
    ensures IsDedupOf(Put(r, x, key), xs + [x], key)
  {
    var rk := Keys(r, key);
    var p := FirstIndex(rk, key(x));
    var r' := r[p := x];
    assert Put(r, x, key) == r';
    assert Keys(r', key) == rk;
    assert Keys(xs + [x], key) == Keys(xs, key) + [key(x)];
  }

  lemma PutFresh<T, K>(r: seq<T>, xs: seq<T>, x: T, key: T -> K)
    requires IsDedupOf(r, xs, key)
    requires key(x) !in Keys(r, key)
    requires forall k :: k in Keys(xs, key) ==>
               k in Keys(xs + [x], key) && FirstIndex(Keys(xs + [x], key), k) == FirstIndex(Keys(xs, key), k)
    requires forall k :: k in Keys(xs, key) || k == key(x) ==>
               k in Keys(xs + [x], key) &&
               LastWith(xs + [x], key, k) == if k == key(x) then x else LastWith(xs, key, k)
    ensures IsDedupOf(Put(r, x, key), xs + [x], key)
  {
    var rk := Keys(r, key);
    var xk := Keys(xs, key);
    var ys := xs + [x];
    var yk := Keys(ys, key);
    var r' := r + [x];
    var rk' := Keys(r', key);
    assert Put(r, x, key) == r';
    assert rk' == rk + [key(x)];
    assert yk == xk + [key(x)];
    assert key(x) !in xk;
    assert FirstIndex(yk, key(x)) == |xs|;
    assert Distinct(rk') by {
      forall i, j | 0 <= i < j < |rk'| ensures rk'[i] != rk'[j] {
        if j < |rk| {
          assert rk[i] != rk[j];
        }
      }
    }
    forall i | 0 <= i < |ys| ensures yk[i] in rk' {
      if i < |xs| {
        assert xk[i] in rk;
      }
    }
    forall i | 0 <= i < |r'| ensures rk'[i] in yk && r'[i] == LastWith(ys, key, rk'[i]) {
      if i < |r| {
        assert rk[i] in xk;
      }
    }
    forall i, j | 0 <= i < j < |r'|
      ensures rk'[i] in yk && rk'[j] in yk && FirstIndex(yk, rk'[i]) < FirstIndex(yk, rk'[j])
    {
      if j < |r| {
        assert FirstIndex(xk, rk[i]) < FirstIndex(xk, rk[j]);
      } else {
        assert rk[i] in xk;
        assert FirstIndex(xk, rk[i]) < |xs|;
      }
    }
  }

  /** A list whose keys are already distinct comes out unchanged. */
  lemma {:induction false} DedupOfDistinct<T, K>(xs: seq<T>, key: T -> K)
    requires Distinct(Keys(xs, key))
    ensures DedupByKey(xs, key) == xs
  {
    if |xs| > 0 {
      var n := |xs| - 1;
      var p := xs[..n];
      var x := xs[n];
      DistinctKeysPrefix(xs, key);
      calc {
        DedupByKey(xs, key);
        { DedupByKeyLast(xs, key); }
        Put(DedupByKey(p, key), x, key);
        { DedupOfDistinct(p, key); }
        Put(p, x, key);
        { PutFreshAppends(p, x, key); }
        p + [x];
        xs;
      }
    }
  }

  /** One more element is one more `Put`. */
  lemma DedupByKeyLast<T, K>(xs: seq<T>, key: T -> K)
    requires |xs| > 0
    ensures DedupByKey(xs, key) == Put(DedupByKey(xs[..|xs| - 1], key), xs[|xs| - 1], key)
  {
  }

  /** The prefix of a list with distinct keys has distinct keys, none of
      them the last element's key. */
  lemma DistinctKeysPrefix<T, K>(xs: seq<T>, key: T -> K)
    requires |xs| > 0 && Distinct(Keys(xs, key))
    ensures Distinct(Keys(xs[..|xs| - 1], key))
    ensures key(xs[|xs| - 1]) !in Keys(xs[..|xs| - 1], key)
  {
    var n := |xs| - 1;
    var ks := Keys(xs, key);
    var pk := Keys(xs[..n], key);
    assert forall i :: 0 <= i < n ==> pk[i] == ks[i];
    assert ks[n] == key(xs[n]);
  }

  /** Putting a fresh key appends. */
  lemma PutFreshAppends<T, K>(r: seq<T>, x: T, key: T -> K)
    requires key(x) !in Keys(r, key)
    ensures Put(r, x, key) == r + [x]
  {
  }

  /** Reordering a de-duplicated list keeps its meaning apart from the
      order: one element per key of `xs`, each the last with its key. */
  lemma PermutedDedup<T, K>(r: seq<T>, xs: seq<T>, key: T -> K, items: seq<T>)
    requires IsDedupOf(r, xs, key)
    requires multiset(items) == multiset(r)
    ensures Distinct(Keys(items, key))
    ensures forall i :: 0 <= i < |xs| ==> Keys(xs, key)[i] in Keys(items, key)
    ensures forall i :: 0 <= i < |items| ==>
              Keys(items, key)[i] in Keys(xs, key) && items[i] == LastWith(xs, key, Keys(items, key)[i])
  {
    PermutedDedupElements(r, xs, key, items);
    PermutedDedupCovers(r, xs, key, items);
    var ik := Keys(items, key);
    assert Distinct(r) by {
      forall i, j | 0 <= i < j < |r| ensures r[i] != r[j] {
        assert Keys(r, key)[i] != Keys(r, key)[j];
      }
    }
    DistinctPermutation(r, items);
    forall i, j | 0 <= i < j < |items| ensures ik[i] != ik[j] {
      assert items[i] != items[j];
    }
  }

  lemma PermutedDedupElements<T, K>(r: seq<T>, xs: seq<T>, key: T -> K, items: seq<T>)
    requires IsDedupOf(r, xs, key)
    requires multiset(items) == multiset(r)
    ensures forall i :: 0 <= i < |items| ==>
              Keys(items, key)[i] in Keys(xs, key) && items[i] == LastWith(xs, key, Keys(items, key)[i])
  {
    forall i | 0 <= i < |items|
      ensures Keys(items, key)[i] in Keys(xs, key) && items[i] == LastWith(xs, key, Keys(items, key)[i])
    {
      assert items[i] in multiset(r);
      var a :| 0 <= a < |r| && r[a] == items[i];
      assert Keys(r, key)[a] == Keys(items, key)[i];
    }
  }

  lemma PermutedDedupCovers<T, K>(r: seq<T>, xs: seq<T>, key: T -> K, items: seq<T>)
    requires IsDedupOf(r, xs, key)
    requires multiset(items) == multiset(r)
    ensures forall i :: 0 <= i < |xs| ==> Keys(xs, key)[i] in Keys(items, key)
  {
    var rk := Keys(r, key);
    forall i | 0 <= i < |xs| ensures Keys(xs, key)[i] in Keys(items, key) {
      assert Keys(xs, key)[i] in rk;
      var a :| 0 <= a < |r| && rk[a] == Keys(xs, key)[i];
      assert r[a] in multiset(items);
      var b :| 0 <= b < |items| && items[b] == r[a];
      assert Keys(items, key)[b] == rk[a];
    }
  }
}
