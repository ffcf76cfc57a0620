/** A Python `dict` whose iteration order matters, as an association list in
    insertion order: assigning to an existing key updates it in place, a new
    key is appended at the end. */
module Dict {
  import opened Common

  datatype Entry<K, V> = Entry(key: K, value: V)

  /** `d.get(k)`: the value stored under `k`, if any. */
  function Get<K(==,!new), V>(d: seq<Entry<K, V>>, k: K): (r: Option<V>)
    ensures r.Some? <==> exists i :: 0 <= i < |d| && d[i].key == k
  {
    if d == [] then None
    else if d[0].key == k then Some(d[0].value)
    else
      var r := Get(d[1..], k);
      assert forall i :: 1 <= i < |d| ==> d[i] == d[1..][i - 1];
      r
  }

  /** `d[k] = v`. */
  function Put<K(==,!new), V>(d: seq<Entry<K, V>>, k: K, v: V): (r: seq<Entry<K, V>>)
    ensures Get(r, k) == Some(v)
    ensures forall k' :: k' != k ==> Get(r, k') == Get(d, k')
    ensures |r| == if Get(d, k).Some? then |d| else |d| + 1
  {
    if d == [] then [Entry(k, v)]
    else if d[0].key == k then [Entry(k, v)] + d[1..]
    else
      var r := [d[0]] + Put(d[1..], k, v);
      assert r[1..] == Put(d[1..], k, v);
      r
  }

  /** The keys are pairwise distinct, as in every Python dict. */
  ghost predicate DistinctKeys<K, V>(d: seq<Entry<K, V>>) {
    forall i, j :: 0 <= i < j < |d| ==> d[i].key != d[j].key
  }

  lemma {:induction false} PutDistinct<K(!new), V>(d: seq<Entry<K, V>>, k: K, v: V)
    requires DistinctKeys(d)
    ensures DistinctKeys(Put(d, k, v))
  {
    if d != [] && d[0].key != k {
      var tail := Put(d[1..], k, v);
      assert DistinctKeys(d[1..]);
      PutDistinct(d[1..], k, v);
      assert Put(d, k, v) == [d[0]] + tail;
      forall j | 0 <= j < |tail|
        ensures tail[j].key != d[0].key
      {
        var key := tail[j].key;
        assert Get(tail, key).Some?;
        if key != k {
          var i :| 0 <= i < |d[1..]| && d[1..][i].key == key;
          assert d[i + 1].key == key;
        }
      }
    } else if d != [] {
      assert Put(d, k, v) == [Entry(k, v)] + d[1..];
    }
  }

  /** The sum of `f` over the stored values. */
  function SumBy<K, V>(d: seq<Entry<K, V>>, f: V -> nat): nat {
    if d == [] then 0 else f(d[0].value) + SumBy(d[1..], f)
  }

  /** Storing `v` under `k` replaces the contribution of the old value, if any. */
  lemma {:induction false} PutSumBy<K(!new), V>(d: seq<Entry<K, V>>, k: K, v: V, f: V -> nat)
    ensures SumBy(Put(d, k, v), f)
         == SumBy(d, f) + f(v) - (match Get(d, k) case Some(prev) => f(prev) case None => 0)
  {
    if d != [] && d[0].key != k {
      PutSumBy(d[1..], k, v, f);
      assert Put(d, k, v)[1..] == Put(d[1..], k, v);
    } else if d != [] {
      assert Put(d, k, v)[1..] == d[1..];
    }
  }

  /** The entry stored under `k`, when there is one, contributes its `f` to the sum. */
  lemma {:induction false} GetBoundsSumBy<K(!new), V>(d: seq<Entry<K, V>>, k: K, f: V -> nat)
    requires Get(d, k).Some?
    ensures f(Get(d, k).value) <= SumBy(d, f)
  {
    if d[0].key != k {
      GetBoundsSumBy(d[1..], k, f);
    }
  }
}
