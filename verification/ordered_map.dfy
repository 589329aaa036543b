/**
 Python's insertion-ordered `dict`, as an association list. Assigning to an
 existing key replaces its value in place; assigning to a new key appends it.
 */
module OrderedMap {
  import opened Wrappers

  type OMap<K, V> = seq<(K, V)>

  function Keys<K, V>(m: OMap<K, V>): (ks: seq<K>)
    ensures |ks| == |m|
    ensures forall i :: 0 <= i < |m| ==> ks[i] == m[i].0
  {
    seq(|m|, i requires 0 <= i < |m| => m[i].0)
  }

  predicate HasKey<K(==), V>(m: OMap<K, V>, k: K) {
    exists i :: 0 <= i < |m| && m[i].0 == k
  }

  /** Keys are pairwise distinct, as in any Python dict. */
  predicate Distinct<K(==), V>(m: OMap<K, V>) {
    forall i, j :: 0 <= i < j < |m| ==> m[i].0 != m[j].0
  }

  /** `list(d).index(k)`: the position of `k` in insertion order. */
  function IndexOf<K(==), V>(m: OMap<K, V>, k: K): (i: nat)
    requires HasKey(m, k)
    ensures i < |m| && m[i].0 == k
    ensures forall j :: 0 <= j < i ==> m[j].0 != k
  {
    IndexFrom(m, k, 0)
  }

  function IndexFrom<K(==), V>(m: OMap<K, V>, k: K, from: nat): (i: nat)
    requires from <= |m|
    requires exists i :: from <= i < |m| && m[i].0 == k
    ensures from <= i < |m| && m[i].0 == k
    ensures forall j :: from <= j < i ==> m[j].0 != k
    decreases |m| - from
  {
    if m[from].0 == k then from else IndexFrom(m, k, from + 1)
  }

  /** `d.get(k)` */
  function Get<K(==), V>(m: OMap<K, V>, k: K): (r: Option<V>)
    ensures r.Some? <==> HasKey(m, k)
    ensures r.Some? ==> r.value == m[IndexOf(m, k)].1
  {
    if HasKey(m, k) then Some(m[IndexOf(m, k)].1) else None
  }

  /** `d[k] = v` */
  function Put<K(==), V>(m: OMap<K, V>, k: K, v: V): (r: OMap<K, V>)
    ensures HasKey(m, k) ==> |r| == |m| && Keys(r) == Keys(m)
    ensures !HasKey(m, k) ==> r == m + [(k, v)]
    ensures HasKey(m, k) ==> r[IndexOf(m, k)] == (k, v)
    ensures forall i :: 0 <= i < |m| && m[i].0 != k ==> r[i] == m[i]
  {
    if HasKey(m, k) then m[IndexOf(m, k) := (k, v)] else m + [(k, v)]
  }

  /** Two maps with the same keys in the same order are distinct together. */
  lemma SameKeysDistinct<K, V, W>(m: OMap<K, V>, n: OMap<K, W>)
    requires Keys(m) == Keys(n) && Distinct(m)
    ensures Distinct(n)
  {
    forall i, j | 0 <= i < j < |n|
      ensures n[i].0 != n[j].0
    {
      assert n[i].0 == Keys(n)[i] == m[i].0;
      assert n[j].0 == Keys(n)[j] == m[j].0;
    }
  }

  /** In a map with distinct keys, a pair is present exactly when looking its key up gives its value. */
  lemma GetIn<K, V>(m: OMap<K, V>, k: K, v: V)
    requires Distinct(m)
    ensures (k, v) in m <==> Get(m, k) == Some(v)
  {
    if (k, v) in m {
      var i :| 0 <= i < |m| && m[i] == (k, v);
      assert IndexOf(m, k) == i;
    }
  }

  /** Assignment keeps keys distinct, makes `k` present and stores `v` under it. */
  lemma PutSpec<K, V>(m: OMap<K, V>, k: K, v: V)
    requires Distinct(m)
    ensures Distinct(Put(m, k, v))
    ensures Get(Put(m, k, v), k) == Some(v)
    ensures forall k' :: k' != k ==> Get(Put(m, k, v), k') == Get(m, k')
  {
    var r := Put(m, k, v);
    if HasKey(m, k) {
      var p := IndexOf(m, k);
      assert Keys(r) == Keys(m);
      assert forall i :: 0 <= i < |r| ==> r[i].0 == Keys(m)[i];
      forall k' | k' != k
        ensures Get(r, k') == Get(m, k')
      {
        if HasKey(m, k') {
          var q := IndexOf(m, k');
          assert r[q] == m[q];
          assert IndexOf(r, k') == q;
        } else {
          assert !HasKey(r, k');
        }
      }
      assert IndexOf(r, k) == p;
    } else {
      assert r[|m|].0 == k;
      assert IndexOf(r, k) == |m|;
      forall k' | k' != k
        ensures Get(r, k') == Get(m, k')
      {
        if HasKey(m, k') {
          var q := IndexOf(m, k');
          assert IndexOf(r, k') == q;
        }
      }
    }
  }

  /** Assign every pair in turn, left to right: `for k, v in pairs: d[k] = v`. */
  function PutAll<K(==), V>(m: OMap<K, V>, pairs: seq<(K, V)>): (r: OMap<K, V>)
    ensures Distinct(m) ==> Distinct(r)
  {
    if |pairs| == 0 then m
    else
      var d := PutAll(m, pairs[..|pairs| - 1]);
      var last := pairs[|pairs| - 1];
      assert Distinct(m) ==> Distinct(Put(d, last.0, last.1)) by {
        if Distinct(m) { PutSpec(d, last.0, last.1); }
      }
      Put(d, last.0, last.1)
  }

  /**
   After assigning the pairs, a key carried by some pair maps to the value of
   the last pair carrying it; any other key keeps its old value.
   */
  lemma {:induction false} PutAllLast<K, V>(m: OMap<K, V>, pairs: seq<(K, V)>, k: K)
    requires Distinct(m)
    ensures (forall i :: 0 <= i < |pairs| ==> pairs[i].0 != k) ==> Get(PutAll(m, pairs), k) == Get(m, k)
    ensures (exists i :: 0 <= i < |pairs| && pairs[i].0 == k) ==>
      Get(PutAll(m, pairs), k).Some? &&
      exists i :: 0 <= i < |pairs| && pairs[i] == (k, Get(PutAll(m, pairs), k).value)
        && forall j :: i < j < |pairs| ==> pairs[j].0 != k
  {
    if |pairs| > 0 {
      var init := pairs[..|pairs| - 1];
      var last := pairs[|pairs| - 1];
      assert pairs == init + [last];
      PutAllLast(m, init, k);
      var d := PutAll(m, init);
      PutSpec(d, last.0, last.1);
      LastPairStep(init, last, k, Get(m, k), Get(d, k), Get(PutAll(m, pairs), k));
    }
  }

  /**
   The step of `PutAllLast`, on the values alone: `before` is what `k` maps
   to after `init`, `after` what it maps to once `last` is assigned too.
   */
  lemma LastPairStep<K, V>(init: seq<(K, V)>, last: (K, V), k: K, start: Option<V>, before: Option<V>, after: Option<V>)
    requires last.0 == k ==> after == Some(last.1)
    requires last.0 != k ==> after == before
    requires (forall i :: 0 <= i < |init| ==> init[i].0 != k) ==> before == start
    requires (exists i :: 0 <= i < |init| && init[i].0 == k) ==>
      before.Some? &&
      exists i :: 0 <= i < |init| && init[i] == (k, before.value)
        && forall j :: i < j < |init| ==> init[j].0 != k
    ensures var pairs := init + [last];
      (forall i :: 0 <= i < |pairs| ==> pairs[i].0 != k) ==> after == start
    ensures var pairs := init + [last];
      (exists i :: 0 <= i < |pairs| && pairs[i].0 == k) ==>
        after.Some? &&
        exists i :: 0 <= i < |pairs| && pairs[i] == (k, after.value)
          && forall j :: i < j < |pairs| ==> pairs[j].0 != k
  {
    var pairs := init + [last];
    if last.0 == k {
      assert pairs[|init|] == (k, after.value);
    } else {
      assert forall i :: 0 <= i < |init| ==> pairs[i] == init[i];
      if exists i :: 0 <= i < |init| && init[i].0 == k {
        var i :| 0 <= i < |init| && init[i] == (k, before.value) && forall j :: i < j < |init| ==> init[j].0 != k;
        assert pairs[i] == (k, after.value);
      }
    }
  }

  /** Assigning two runs of pairs is assigning their concatenation. */
  lemma {:induction false} PutAllAppend<K, V>(m: OMap<K, V>, a: seq<(K, V)>, b: seq<(K, V)>)
    ensures PutAll(m, a + b) == PutAll(PutAll(m, a), b)
  {
    if |b| == 0 {
      assert a + b == a;
    } else {
      PutAllAppend(m, a, b[..|b| - 1]);
      assert (a + b)[..|a + b| - 1] == a + b[..|b| - 1];
      assert (a + b)[|a + b| - 1] == b[|b| - 1];
    }
  }
}
