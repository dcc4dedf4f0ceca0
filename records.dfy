/**
 * What the loaders have in common: each walks the records of a JSON list in
 * order, reduces every record to a key-value pair or skips it, and assigns
 * the pairs into a dict that starts out empty, so that a later record
 * overwrites an earlier one with the same key.
 */
module Records {
  import opened Wrappers
  import opened Dicts
  import opened Json

  // ---------------------------------------------------------------------------
  // Records reduced to key-value pairs
  // ---------------------------------------------------------------------------

  /** A record's pair, as a loader would store it, has key `k`. */
  predicate HasKey<V>(e: Option<(string, V)>, k: string) {
    e.Some? && e.value.0 == k
  }

  /** The pairs of the records a loader keeps, in input order: `f` gives the
      pair of a record, or `None` when the loader skips it. */
  function Pairs<V>(rows: seq<Json>, f: Json -> Option<(string, V)>): (kvs: seq<(string, V)>)
    ensures |kvs| <= |rows|
  {
    if rows == [] then []
    else
      var n := |rows| - 1;
      Pairs(rows[..n], f) + (match f(rows[n]) case Some(kv) => [kv] case None => [])
  }

  /** The dict the loop `for r in rows: if f(r) is (k, v): out[k] = v` builds
      from an empty one. */
  function Loaded<V>(rows: seq<Json>, f: Json -> Option<(string, V)>): Dict<string, V> {
    PutAll([], Pairs(rows, f))
  }

  /** One more record: a skipped one leaves the dict alone, a kept one is
      assigned. */
  lemma LoadedStep<V>(rows: seq<Json>, f: Json -> Option<(string, V)>, i: nat)
    requires i < |rows|
    ensures Loaded(rows[..i + 1], f) ==
      match f(rows[i]) case None => Loaded(rows[..i], f) case Some(kv) => Put(Loaded(rows[..i], f), kv.0, kv.1)
  {
    assert rows[..i + 1][..i] == rows[..i];
    var p := Pairs(rows[..i], f);
    if f(rows[i]).Some? {
      var kv := f(rows[i]).value;
      assert Pairs(rows[..i + 1], f) == p + [kv];
      assert (p + [kv])[..|p|] == p;
    } else {
      assert Pairs(rows[..i + 1], f) == p;
    }
  }

  /** The kept pairs of a non-empty input: those of all records but the
      last, then the last record's pair if it is kept. */
  lemma PairsStep<V>(rows: seq<Json>, f: Json -> Option<(string, V)>, k: string)
    requires rows != []
    ensures var n := |rows| - 1;
      && (k in Keys(Pairs(rows, f)) <==> HasKey(f(rows[n]), k) || k in Keys(Pairs(rows[..n], f)))
      && LastValue(Pairs(rows, f), k) ==
           if HasKey(f(rows[n]), k) then Some(f(rows[n]).value.1) else LastValue(Pairs(rows[..n], f), k)
  {
    var n := |rows| - 1;
    var p := Pairs(rows[..n], f);
    if f(rows[n]).Some? {
      var kv := f(rows[n]).value;
      assert Pairs(rows, f) == p + [kv];
      assert Keys(p + [kv]) == Keys(p) + [kv.0];
      assert (p + [kv])[..|p|] == p;
    } else {
      assert Pairs(rows, f) == p;
    }
  }

  /** A key is present exactly when some kept record has it. */
  lemma {:induction false} PairsKeys<V>(rows: seq<Json>, f: Json -> Option<(string, V)>, k: string)
    ensures k in Keys(Pairs(rows, f)) <==> exists i :: 0 <= i < |rows| && HasKey(f(rows[i]), k)
  {
    if rows != [] {
      var n := |rows| - 1;
      var init := rows[..n];
      PairsStep(rows, f, k);
      PairsKeys(init, f, k);
      if exists i :: 0 <= i < n && HasKey(f(init[i]), k) {
        var i :| 0 <= i < n && HasKey(f(init[i]), k);
        assert rows[i] == init[i];
      }
      if exists i :: 0 <= i < |rows| && HasKey(f(rows[i]), k) {
        var i :| 0 <= i < |rows| && HasKey(f(rows[i]), k);
        if i < n {
          assert init[i] == rows[i];
        }
      }
    }
  }

  /** The value a key ends with comes from the last kept record with that
      key. */
  lemma {:induction false} PairsLast<V>(rows: seq<Json>, f: Json -> Option<(string, V)>, k: string, v: V)
    ensures LastValue(Pairs(rows, f), k) == Some(v) <==> LastIs(rows, f, k, v)
  {
    if rows != [] {
      PairsStep(rows, f, k);
      if HasKey(f(rows[|rows| - 1]), k) {
        LastIsAtEnd(rows, f, k, v);
      } else {
        PairsLast(rows[..|rows| - 1], f, k, v);
        LastIsInit(rows, f, k, v);
      }
    }
  }

  /** The record at `i` is kept as `(k, v)` and no later record is kept
      under `k`. */
  ghost predicate LastAt<V>(rows: seq<Json>, f: Json -> Option<(string, V)>, k: string, v: V, i: nat) {
    i < |rows| && f(rows[i]) == Some((k, v)) && forall j :: i < j < |rows| ==> !HasKey(f(rows[j]), k)
  }

  /** Some record is the last one kept under `k`, and it is kept as `(k, v)`. */
  ghost predicate LastIs<V>(rows: seq<Json>, f: Json -> Option<(string, V)>, k: string, v: V) {
    exists i :: 0 <= i < |rows| && LastAt(rows, f, k, v, i)
  }

  /** When the last record is kept under `k`, it is the one. */
  lemma LastIsAtEnd<V>(rows: seq<Json>, f: Json -> Option<(string, V)>, k: string, v: V)
    requires rows != [] && HasKey(f(rows[|rows| - 1]), k)
    ensures LastIs(rows, f, k, v) <==> f(rows[|rows| - 1]) == Some((k, v))
  {
    var n := |rows| - 1;
    if f(rows[n]) == Some((k, v)) {
      assert LastAt(rows, f, k, v, n);
    } else {
      forall i | 0 <= i < |rows| ensures !LastAt(rows, f, k, v, i) {
        if i < n {
          assert HasKey(f(rows[n]), k);
        }
      }
    }
  }

  /** When the last record is not kept under `k`, the records before it
      decide. */
  lemma LastIsInit<V>(rows: seq<Json>, f: Json -> Option<(string, V)>, k: string, v: V)
    requires rows != [] && !HasKey(f(rows[|rows| - 1]), k)
    ensures LastIs(rows, f, k, v) <==> LastIs(rows[..|rows| - 1], f, k, v)
  {
    var n := |rows| - 1;
    var init := rows[..n];
    if LastIs(init, f, k, v) {
      var i :| 0 <= i < n && LastAt(init, f, k, v, i);
      LastAtInit(rows, f, k, v, i);
    }
    if LastIs(rows, f, k, v) {
      var i :| 0 <= i < |rows| && LastAt(rows, f, k, v, i);
      LastAtInit(rows, f, k, v, i);
    }
  }

  /** When the last record is not kept under `k`, being the last record kept
      under `k` means the same with or without it. */
  lemma LastAtInit<V>(rows: seq<Json>, f: Json -> Option<(string, V)>, k: string, v: V, i: nat)
    requires rows != [] && i < |rows| && !HasKey(f(rows[|rows| - 1]), k)
    ensures LastAt(rows, f, k, v, i) <==> (i < |rows| - 1 && LastAt(rows[..|rows| - 1], f, k, v, i))
  {
    var init := rows[..|rows| - 1];
    assert forall j :: i < j < |init| ==> init[j] == rows[j];
  }

  /** What every loader that keeps the last record per key promises: a key
      is present exactly when some kept record has it, and then it holds the
      value of the last such record. */
  lemma LastRecordWins<V>(rows: seq<Json>, f: Json -> Option<(string, V)>, k: string, v: V)
    ensures DistinctKeys(Loaded(rows, f))
    ensures k in Keys(Loaded(rows, f)) <==> exists i :: 0 <= i < |rows| && HasKey(f(rows[i]), k)
    ensures Get(Loaded(rows, f), k) == Some(v) <==> LastIs(rows, f, k, v)
  {
    assert DistinctKeys<string, V>([]);
    PairsKeys(rows, f, k);
    PairsLast(rows, f, k, v);
    assert Get<string, V>([], k) == None;
  }

}
