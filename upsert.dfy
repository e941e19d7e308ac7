/**
 * The effect of `executemany` with an `INSERT ... ON CONFLICT (key) DO UPDATE`
 * statement on a table keyed by K: the rows are applied in order, each one
 * inserting its key or overwriting the value already stored under it.
 */
module Upsert {

  /** The keys that a sequence of rows writes. */
  function KeysOf<K(==), V(==)>(entries: seq<(K, V)>): set<K> {
    set i | 0 <= i < |entries| :: entries[i].0
  }

  /** The table after writing `entries` in order on top of `m`. */
  function UpsertAll<K(==), V(==)>(m: map<K, V>, entries: seq<(K, V)>): (r: map<K, V>)
    ensures r.Keys == m.Keys + KeysOf(entries)
    decreases |entries|
  {
    if entries == [] then m
    else
      var prefix := entries[..|entries| - 1];
      var last := entries[|entries| - 1];
      assert KeysOf(entries) == KeysOf(prefix) + {last.0} by {
        forall k | k in KeysOf(entries) ensures k in KeysOf(prefix) + {last.0} {
          var i :| 0 <= i < |entries| && entries[i].0 == k;
          if i < |entries| - 1 { assert prefix[i] == entries[i]; }
        }
        forall k | k in KeysOf(prefix) ensures k in KeysOf(entries) {
          var i :| 0 <= i < |prefix| && prefix[i].0 == k;
          assert entries[i] == prefix[i];
        }
      }
      UpsertAll(m, prefix)[last.0 := last.1]
  }

  /** The position of the last row in `entries` that has key `k`. */
  function LastIndexOf<K(==), V(==)>(entries: seq<(K, V)>, k: K): (i: nat)
    requires k in KeysOf(entries)
    ensures i < |entries| && entries[i].0 == k
    ensures forall j :: i < j < |entries| ==> entries[j].0 != k
    decreases |entries|
  {
    var prefix := entries[..|entries| - 1];
    if entries[|entries| - 1].0 == k then |entries| - 1
    else
      assert k in KeysOf(prefix) by {
        var i :| 0 <= i < |entries| && entries[i].0 == k;
        assert i < |entries| - 1 && prefix[i] == entries[i];
      }
      LastIndexOf(prefix, k)
  }

  /** The value of the last row in `entries` that has key `k`. */
  function LastValueOf<K(==), V(==)>(entries: seq<(K, V)>, k: K): V
    requires k in KeysOf(entries)
  {
    entries[LastIndexOf(entries, k)].1
  }

  /** After the write every written key holds the last value written for it,
      and every other key keeps its old value. */
  lemma {:induction false} UpsertAllAt<K, V>(m: map<K, V>, entries: seq<(K, V)>, k: K)
    requires k in m || k in KeysOf(entries)
    ensures k in UpsertAll(m, entries)
    ensures k in KeysOf(entries) ==> UpsertAll(m, entries)[k] == LastValueOf(entries, k)
    ensures k !in KeysOf(entries) ==> UpsertAll(m, entries)[k] == m[k]
    decreases |entries|
  {
    if entries != [] {
      var prefix := entries[..|entries| - 1];
      var last := entries[|entries| - 1];
      if last.0 != k {
        assert k in KeysOf(entries) <==> k in KeysOf(prefix) by {
          if k in KeysOf(entries) {
            var i :| 0 <= i < |entries| && entries[i].0 == k;
            assert prefix[i] == entries[i];
          }
          if k in KeysOf(prefix) {
            var i :| 0 <= i < |prefix| && prefix[i].0 == k;
            assert entries[i] == prefix[i];
          }
        }
        UpsertAllAt(m, prefix, k);
        if k in KeysOf(entries) {
          assert LastIndexOf(entries, k) == LastIndexOf(prefix, k);
        }
      }
    }
  }

  /** No two rows write the same key. */
  ghost predicate DistinctKeys<K, V>(entries: seq<(K, V)>) {
    forall i, j :: 0 <= i < j < |entries| ==> entries[i].0 != entries[j].0
  }

  /** With distinct keys each row's value survives the write. */
  lemma {:induction false} UpsertAllDistinctAt<K, V>(m: map<K, V>, entries: seq<(K, V)>, i: nat)
    requires DistinctKeys(entries) && i < |entries|
    ensures entries[i].0 in UpsertAll(m, entries)
    ensures UpsertAll(m, entries)[entries[i].0] == entries[i].1
  {
    var k := entries[i].0;
    assert k in KeysOf(entries);
    UpsertAllAt(m, entries, k);
  }

  /** With distinct keys the order in which the rows arrive does not matter:
      two orderings of the same rows leave the same table. */
  lemma UpsertAllOrderFree<K, V>(m: map<K, V>, e1: seq<(K, V)>, e2: seq<(K, V)>)
    requires DistinctKeys(e1) && DistinctKeys(e2)
    requires forall x :: x in e1 <==> x in e2
    ensures UpsertAll(m, e1) == UpsertAll(m, e2)
  {
    var r1, r2 := UpsertAll(m, e1), UpsertAll(m, e2);
    assert KeysOf(e1) == KeysOf(e2) by {
      forall k | k in KeysOf(e1) ensures k in KeysOf(e2) {
        var i :| 0 <= i < |e1| && e1[i].0 == k;
        assert e1[i] in e2;
      }
      forall k | k in KeysOf(e2) ensures k in KeysOf(e1) {
        var i :| 0 <= i < |e2| && e2[i].0 == k;
        assert e2[i] in e1;
      }
    }
    forall k | k in r1.Keys ensures r1[k] == r2[k] {
      if k in KeysOf(e1) {
        var i :| 0 <= i < |e1| && e1[i].0 == k;
        assert e1[i] in e2;
        var j :| 0 <= j < |e2| && e2[j] == e1[i];
        UpsertAllDistinctAt(m, e1, i);
        UpsertAllDistinctAt(m, e2, j);
      } else {
        UpsertAllAt(m, e1, k);
        UpsertAllAt(m, e2, k);
      }
    }
  }
}
