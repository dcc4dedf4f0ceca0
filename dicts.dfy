/**
 * A Python `dict` as the sequence of its items in insertion order. Keys are
 * distinct in every dict the pipeline builds; assigning to a key that is
 * already present replaces its value in place and keeps its position, and a
 * new key is appended, as in Python.
 */
module Dicts {
  import opened Wrappers

  type Dict<K, V> = seq<(K, V)>

  /** `list(d.keys())`. */
  function Keys<K, V>(d: Dict<K, V>): (ks: seq<K>)
    ensures |ks| == |d|
    ensures forall i :: 0 <= i < |d| ==> ks[i] == d[i].0
  {
    seq(|d|, i requires 0 <= i < |d| => d[i].0)
  }

  /** No element occurs twice. */
  predicate Distinct<K(==)>(ks: seq<K>) {
    forall i, j :: 0 <= i < j < |ks| ==> ks[i] != ks[j]
  }

  predicate DistinctKeys<K(==), V>(d: Dict<K, V>) {
    Distinct(Keys(d))
  }

  /** `d.get(k)`. */
  function Get<K(==), V>(d: Dict<K, V>, k: K): (r: Option<V>)
    ensures r.None? <==> k !in Keys(d)
    ensures r.Some? ==> (k, r.value) in d
  {
    if d == [] then None
    else if d[0].0 == k then Some(d[0].1)
    else
      assert Keys(d) == [d[0].0] + Keys(d[1..]);
      Get(d[1..], k)
  }

  /** `d[k] = v`, as a new dict. */
  function Put<K(==), V>(d: Dict<K, V>, k: K, v: V): (r: Dict<K, V>)
    ensures Keys(r) == if k in Keys(d) then Keys(d) else Keys(d) + [k]
    ensures k !in Keys(d) ==> r == d + [(k, v)]
  {
    if d == [] then [(k, v)]
    else
      KeysCons(d[0], d[1..]);
      if d[0].0 == k then
        KeysCons((k, v), d[1..]);
        [(k, v)] + d[1..]
      else
        var p := Put(d[1..], k, v);
        KeysCons(d[0], p);
        assert k !in Keys(d) ==> [d[0]] + p == d + [(k, v)];
        [d[0]] + p
  }

  /** The keys of a dict with one more item in front. */
  lemma KeysCons<K, V>(x: (K, V), d: Dict<K, V>)
    ensures Keys([x] + d) == [x.0] + Keys(d)
  {
  }

  /** After `d[k] = v`, `k` maps to `v` and every other key keeps its value. */
  lemma {:induction false} GetPut<K, V>(d: Dict<K, V>, k: K, v: V, k': K)
    ensures Get(Put(d, k, v), k') == if k' == k then Some(v) else Get(d, k')
  {
    if d != [] && d[0].0 != k {
      GetPut(d[1..], k, v, k');
    }
  }

  /** The value of the last pair with key `k`, if any. */
  function LastValue<K(==), V>(kvs: seq<(K, V)>, k: K): (r: Option<V>)
    ensures r.None? <==> k !in Keys(kvs)
  {
    if kvs == [] then None
    else if kvs[|kvs| - 1].0 == k then Some(kvs[|kvs| - 1].1)
    else
      assert Keys(kvs) == Keys(kvs[..|kvs| - 1]) + [kvs[|kvs| - 1].0];
      LastValue(kvs[..|kvs| - 1], k)
  }

  /** `for k, v in kvs: d[k] = v`. Every key ends up with its last value. */
  function PutAll<K(==,!new), V>(d: Dict<K, V>, kvs: seq<(K, V)>): (r: Dict<K, V>)
    ensures DistinctKeys(d) ==> DistinctKeys(r)
    ensures forall k :: Get(r, k) == if LastValue(kvs, k).Some? then LastValue(kvs, k) else Get(d, k)
  {
    if kvs == [] then d
    else
      var (k, v) := kvs[|kvs| - 1];
      var p := PutAll(d, kvs[..|kvs| - 1]);
      PutKeepsDistinct(p, k, v);
      assert forall k' :: Get(Put(p, k, v), k') == if k' == k then Some(v) else Get(p, k') by {
        forall k' { GetPut(p, k, v, k'); }
      }
      Put(p, k, v)
  }

  /** The distinct elements of `ks` in the order in which each first occurs. */
  function FirstOccurrences<K(==,!new)>(ks: seq<K>): (r: seq<K>)
    ensures forall k :: k in r <==> k in ks
  {
    if ks == [] then []
    else
      var p := FirstOccurrences(ks[..|ks| - 1]);
      var k := ks[|ks| - 1];
      assert forall x :: x in ks <==> x in ks[..|ks| - 1] || x == k;
      if k in p then p else p + [k]
  }

  // ---------------------------------------------------------------------------
  // Properties
  // ---------------------------------------------------------------------------

  /** Assignment never introduces a second item with the same key. */
  lemma PutKeepsDistinct<K(!new), V>(d: Dict<K, V>, k: K, v: V)
    ensures DistinctKeys(d) ==> DistinctKeys(Put(d, k, v))
  {
    var ks := Keys(d);
    if DistinctKeys(d) && k !in ks {
      var ks' := ks + [k];
      assert Keys(Put(d, k, v)) == ks';
      forall i, j | 0 <= i < j < |ks'| ensures ks'[i] != ks'[j] {
        if j == |ks| {
          assert ks'[i] == ks[i];
        } else {
          assert ks'[i] == ks[i] && ks'[j] == ks[j];
        }
      }
    }
  }

  /** In a dict with distinct keys, `d.get(k)` is `v` exactly when the item
      `(k, v)` is in `d`. */
  lemma {:induction false} GetMember<K, V>(d: Dict<K, V>, k: K, v: V)
    requires DistinctKeys(d)
    ensures Get(d, k) == Some(v) <==> (k, v) in d
  {
    if d != [] && d[0].0 != k {
      assert Keys(d[1..]) == Keys(d)[1..];
      GetMember(d[1..], k, v);
    }
  }

  /** The last pair with key `k` carries value `v` exactly when some pair
      `(k, v)` is followed by no other pair with key `k`. */
  lemma {:induction false} LastValueIsLast<K, V>(kvs: seq<(K, V)>, k: K, v: V)
    ensures LastValue(kvs, k) == Some(v) <==>
      exists i :: 0 <= i < |kvs| && kvs[i] == (k, v) && forall j :: i < j < |kvs| ==> kvs[j].0 != k
  {
    if kvs != [] {
      var n := |kvs| - 1;
      var init := kvs[..n];
      if kvs[n].0 == k {
        if kvs[n] != (k, v) {
          forall i | 0 <= i < |kvs| && kvs[i] == (k, v)
            ensures exists j :: i < j < |kvs| && kvs[j].0 == k
          {
            assert i < n;
          }
        }
      } else {
        LastValueIsLast(init, k, v);
        if LastValue(init, k) == Some(v) {
          var i :| 0 <= i < |init| && init[i] == (k, v) && forall j :: i < j < |init| ==> init[j].0 != k;
          assert kvs[i] == (k, v) && forall j :: i < j < |kvs| ==> kvs[j].0 != k;
        } else {
          forall i | 0 <= i < |kvs| && kvs[i] == (k, v)
            ensures exists j :: i < j < |kvs| && kvs[j].0 == k
          {
            assert i < n && init[i] == (k, v);
            var j :| i < j < |init| && init[j].0 == k;
            assert kvs[j].0 == k;
          }
        }
      }
    }
  }

  /** Filling an empty dict keeps the keys in the order of their first
      assignment. */
  lemma {:induction false} KeysOfPutAll<K(!new), V>(kvs: seq<(K, V)>)
    ensures Keys(PutAll([], kvs)) == FirstOccurrences(Keys(kvs))
  {
    if kvs != [] {
      var n := |kvs| - 1;
      KeysOfPutAll(kvs[..n]);
      assert Keys(kvs)[..n] == Keys(kvs[..n]);
      var p := PutAll([], kvs[..n]);
      assert kvs[n].0 in Keys(p) <==> kvs[n].0 in FirstOccurrences(Keys(kvs)[..n]);
    }
  }

  /** `FirstOccurrences` lists every element once. */
  lemma {:induction false} FirstOccurrencesDistinct<K(!new)>(ks: seq<K>)
    ensures Distinct(FirstOccurrences(ks))
  {
    if ks != [] {
      FirstOccurrencesDistinct(ks[..|ks| - 1]);
    }
  }

  /** Filling an empty dict from pairs with distinct keys gives those pairs. */
  lemma {:induction false} PutAllDistinct<K(!new), V>(kvs: seq<(K, V)>)
    requires DistinctKeys(kvs)
    ensures PutAll([], kvs) == kvs
  {
    if kvs != [] {
      var n := |kvs| - 1;
      var init := kvs[..n];
      assert Keys(init) == Keys(kvs)[..n];
      PutAllDistinct(init);
      assert kvs[n].0 !in Keys(init) by {
        forall i | 0 <= i < n ensures Keys(init)[i] != kvs[n].0 {
          assert Keys(kvs)[i] != Keys(kvs)[n];
        }
      }
      assert init + [kvs[n]] == kvs;
    }
  }

  /** A dict `e` built as `{f(v): k for k, v in d.items()}`, with no two keys
      of `e` alike, inverts `d`: the image of each value leads back to its
      key, and each key of `e` is the image of the value of the key it maps
      to. */
  lemma InvertedDict<A(!new), B(!new), C(!new)>(d: Dict<A, B>, e: Dict<C, A>, f: B -> C)
    requires DistinctKeys(d) && DistinctKeys(e)
    requires |e| == |d| && forall i :: 0 <= i < |d| ==> e[i] == (f(d[i].1), d[i].0)
    ensures forall a, b :: Get(d, a) == Some(b) ==> Get(e, f(b)) == Some(a)
    ensures forall c, a :: Get(e, c) == Some(a) ==> Get(d, a).Some? && f(Get(d, a).value) == c
  {
    forall a, b | Get(d, a) == Some(b) ensures Get(e, f(b)) == Some(a) {
      InvertedAt(d, e, f, a, b);
    }
    forall c, a | Get(e, c) == Some(a) ensures Get(d, a).Some? && f(Get(d, a).value) == c {
      var i :| 0 <= i < |e| && e[i] == (c, a);
      InvertedBack(d, e, f, i);
    }
  }

  lemma InvertedAt<A, B, C>(d: Dict<A, B>, e: Dict<C, A>, f: B -> C, a: A, b: B)
    requires DistinctKeys(e)
    requires |e| == |d| && forall i :: 0 <= i < |d| ==> e[i] == (f(d[i].1), d[i].0)
    requires Get(d, a) == Some(b)
    ensures Get(e, f(b)) == Some(a)
  {
    var i :| 0 <= i < |d| && d[i] == (a, b);
    assert e[i] == (f(b), a);
    GetMember(e, f(b), a);
  }

  lemma InvertedBack<A, B, C>(d: Dict<A, B>, e: Dict<C, A>, f: B -> C, i: nat)
    requires DistinctKeys(d)
    requires |e| == |d| && forall i :: 0 <= i < |d| ==> e[i] == (f(d[i].1), d[i].0)
    requires i < |e|
    ensures Get(d, e[i].1) == Some(d[i].1) && f(d[i].1) == e[i].0
  {
    assert d[i] == (e[i].1, d[i].1);
    GetMember(d, e[i].1, d[i].1);
  }

  /** The elements of a sequence, as a set, number no more than its length. */
  lemma {:induction false} CardAtMost<K>(ks: seq<K>)
    ensures |set x | x in ks| <= |ks|
  {
    if ks != [] {
      CardAtMost(ks[1..]);
      assert (set x | x in ks) == {ks[0]} + (set x | x in ks[1..]);
    }
  }

  /** Without repeats, a sequence has as many distinct elements as it is
      long. */
  lemma {:induction false} DistinctCard<K>(ks: seq<K>)
    requires Distinct(ks)
    ensures |set x | x in ks| == |ks|
  {
    if ks != [] {
      DistinctCard(ks[1..]);
      assert ks[0] !in ks[1..] by {
        forall j | 0 <= j < |ks[1..]| ensures ks[1..][j] != ks[0] {
          assert ks[1..][j] == ks[j + 1];
        }
      }
      assert (set x | x in ks) == {ks[0]} + (set x | x in ks[1..]);
    }
  }

  /** A sequence without repeats whose elements all occur in `ks'` is no
      longer than `ks'`. */
  lemma DistinctWithin<K>(ks: seq<K>, ks': seq<K>)
    requires Distinct(ks)
    requires forall k :: k in ks ==> k in ks'
    ensures |ks| <= |ks'|
  {
    DistinctCard(ks);
    CardAtMost(ks');
    var a, b := set x | x in ks, set x | x in ks';
    assert b == a + (b - a) && a * (b - a) == {};
    assert |a| <= |b|;
  }
}
