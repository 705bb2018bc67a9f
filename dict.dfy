/**
  A Python `dict` with string keys, kept as the list of its entries in
  insertion order (the order in which Python iterates it).
 */
module Dict {
  import opened Wrappers

  function KeySet<V>(d: seq<(string, V)>): set<string> {
    set i | 0 <= i < |d| :: d[i].0
  }

  /** No key appears twice, as in every real dictionary. */
  predicate DistinctKeys<V>(d: seq<(string, V)>) {
    forall i, j :: 0 <= i < j < |d| ==> d[i].0 != d[j].0
  }

  lemma KeySetCons<V>(d: seq<(string, V)>)
    requires d != []
    ensures KeySet(d) == {d[0].0} + KeySet(d[1..])
  {
    forall k | k in KeySet(d) ensures k in {d[0].0} + KeySet(d[1..]) {
      var i :| 0 <= i < |d| && d[i].0 == k;
      if i > 0 { assert d[1..][i - 1].0 == k; }
    }
    forall k | k in KeySet(d[1..]) ensures k in KeySet(d) {
      var i :| 0 <= i < |d[1..]| && d[1..][i].0 == k;
      assert d[i + 1].0 == k;
    }
  }

  /** `d.get(k)`: the value stored under `k`, if any. */
  function Get<V>(d: seq<(string, V)>, k: string): (r: Option<V>)
    ensures r.Some? <==> k in KeySet(d)
  {
    if d == [] then None
    else
      KeySetCons(d);
      if d[0].0 == k then Some(d[0].1) else Get(d[1..], k)
  }

  /** In a real dictionary the value found is the one stored with the key. */
  lemma {:induction false} GetEntry<V>(d: seq<(string, V)>, i: nat)
    requires DistinctKeys(d) && i < |d|
    ensures Get(d, d[i].0) == Some(d[i].1)
  {
    if i > 0 {
      assert d[0].0 != d[i].0;
      GetEntry(d[1..], i - 1);
    }
  }

  /**
    `d[k] = v`: an existing key keeps its place and takes the new value, a
    new key goes at the end.
   */
  function Put<V>(d: seq<(string, V)>, k: string, v: V): (r: seq<(string, V)>)
    ensures |r| == if k in KeySet(d) then |d| else |d| + 1
    ensures forall i :: 0 <= i < |d| ==> r[i].0 == d[i].0
  {
    if d == [] then [(k, v)]
    else
      KeySetCons(d);
      if d[0].0 == k then [(k, v)] + d[1..] else [d[0]] + Put(d[1..], k, v)
  }

  /** After `d[k] = v`, `k` holds `v`. */
  lemma {:induction false} PutGet<V>(d: seq<(string, V)>, k: string, v: V)
    ensures Get(Put(d, k, v), k) == Some(v)
  {
    if d != [] && d[0].0 != k {
      PutGet(d[1..], k, v);
      assert Put(d, k, v)[1..] == Put(d[1..], k, v);
    }
  }

  /** `d[k] = v` leaves every other key's value as it was. */
  lemma {:induction false} PutOther<V>(d: seq<(string, V)>, k: string, v: V, k': string)
    requires k' != k
    ensures Get(Put(d, k, v), k') == Get(d, k')
  {
    if d != [] && d[0].0 != k {
      PutOther(d[1..], k, v, k');
      assert Put(d, k, v)[1..] == Put(d[1..], k, v);
    } else if d != [] {
      assert Put(d, k, v)[1..] == d[1..];
    }
  }

  /** `d[k] = v` adds `k` to the keys and no other, and keeps the keys distinct. */
  lemma {:induction false} PutKeys<V>(d: seq<(string, V)>, k: string, v: V)
    ensures KeySet(Put(d, k, v)) == KeySet(d) + {k}
    ensures DistinctKeys(d) ==> DistinctKeys(Put(d, k, v))
  {
    var r := Put(d, k, v);
    if d == [] {
      KeySetCons(r);
    } else {
      KeySetCons(d);
      KeySetCons(r);
      if d[0].0 != k {
        PutKeys(d[1..], k, v);
        assert r[1..] == Put(d[1..], k, v);
      } else {
        assert r[1..] == d[1..];
      }
    }
  }

  /** Storing twice under one key leaves only the second value. */
  lemma {:induction false} PutPut<V>(d: seq<(string, V)>, k: string, v1: V, v2: V)
    ensures Put(Put(d, k, v1), k, v2) == Put(d, k, v2)
  {
    if d != [] && d[0].0 != k {
      PutPut(d[1..], k, v1, v2);
      var p := Put(d, k, v1);
      assert p == [d[0]] + Put(d[1..], k, v1);
      assert p[1..] == Put(d[1..], k, v1);
    }
  }

  /** A new key goes at the end. */
  lemma {:induction false} PutNew<V>(d: seq<(string, V)>, k: string, v: V)
    requires k !in KeySet(d)
    ensures Put(d, k, v) == d + [(k, v)]
  {
    if d != [] {
      KeySetCons(d);
      PutNew(d[1..], k, v);
      assert d == [d[0]] + d[1..];
    }
  }

  /** In a real dictionary, the entries after `d[k] = v` are `(k, v)` and the entries of `d` under other keys. */
  lemma {:induction false} PutEntries<V>(d: seq<(string, V)>, k: string, v: V, x: (string, V))
    requires DistinctKeys(d)
    ensures x in Put(d, k, v) <==> x == (k, v) || (x.0 != k && x in d)
  {
    if d != [] {
      KeySetCons(d);
      assert DistinctKeys(d[1..]) by {
        forall i, j | 0 <= i < j < |d| - 1 ensures d[1..][i].0 != d[1..][j].0 {
          assert d[i + 1].0 != d[j + 1].0;
        }
      }
      if d[0].0 == k {
        assert x in d[1..] ==> x.0 != k by {
          if x in d[1..] {
            var j :| 0 <= j < |d[1..]| && d[1..][j] == x;
            assert d[j + 1] == x;
          }
        }
        assert d == [d[0]] + d[1..];
      } else {
        PutEntries(d[1..], k, v, x);
        assert d == [d[0]] + d[1..];
      }
    }
  }
}

