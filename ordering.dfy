/**
  Python's `sorted` as the manuscript tools use it: on file names, on the
  roots produced by `os.walk` and on the date keys of the progress ledger.
  Strings compare lexicographically by code point, so `"Chapter 10"` sorts
  before `"Chapter 2"`.
 */
module Ordering {
  import opened Dict

  /** Python's `a <= b` on strings. */
  predicate LexLe(a: string, b: string) {
    a == [] || (b != [] && (a[0] < b[0] || (a[0] == b[0] && LexLe(a[1..], b[1..]))))
  }

  lemma {:induction false} LexLeTotal(a: string, b: string)
    ensures LexLe(a, b) || LexLe(b, a)
  {
    if a != [] && b != [] && a[0] == b[0] {
      LexLeTotal(a[1..], b[1..]);
    }
  }

  lemma {:induction false} LexLeTrans(a: string, b: string, c: string)
    requires LexLe(a, b) && LexLe(b, c)
    ensures LexLe(a, c)
  {
    if a != [] && b != [] && c != [] && a[0] == b[0] == c[0] {
      LexLeTrans(a[1..], b[1..], c[1..]);
    }
  }

  lemma {:induction false} LexLeAntisymmetric(a: string, b: string)
    requires LexLe(a, b) && LexLe(b, a)
    ensures a == b
  {
    if a != [] {
      LexLeAntisymmetric(a[1..], b[1..]);
      assert a == [a[0]] + a[1..] && b == [b[0]] + b[1..];
    }
  }

  /** A string sorts no later than any string it is a prefix of. */
  lemma {:induction false} LexLePrefix(a: string, b: string)
    requires |a| <= |b| && b[..|a|] == a
    ensures LexLe(a, b)
  {
    if a != [] {
      assert a[0] == b[0];
      assert b[1..][..|a| - 1] == a[1..];
      LexLePrefix(a[1..], b[1..]);
    }
  }

  /** Strings sharing a prefix compare as their remainders do. */
  lemma {:induction false} LexLeCommonPrefix(p: string, a: string, b: string)
    requires LexLe(a, b)
    ensures LexLe(p + a, p + b)
  {
    if p != [] {
      assert (p + a)[1..] == p[1..] + a && (p + b)[1..] == p[1..] + b;
      LexLeCommonPrefix(p[1..], a, b);
    } else {
      assert p + a == a && p + b == b;
    }
  }

  /** Entries in ascending key order. */
  predicate SortedByKey<V>(xs: seq<(string, V)>) {
    forall i, j :: 0 <= i < j < |xs| ==> LexLe(xs[i].0, xs[j].0)
  }

  /** `k` sorts no later than every key of `xs`. */
  predicate LowerBound<V>(k: string, xs: seq<(string, V)>) {
    forall i :: 0 <= i < |xs| ==> LexLe(k, xs[i].0)
  }

  /** `x` placed into `xs` in front of the first entry whose key is not smaller. */
  function InsertByKey<V>(x: (string, V), xs: seq<(string, V)>): (r: seq<(string, V)>)
    ensures |r| == |xs| + 1
  {
    if xs == [] || LexLe(x.0, xs[0].0) then [x] + xs
    else [xs[0]] + InsertByKey(x, xs[1..])
  }

  /** Inserting into a sorted sequence keeps it sorted, and keeps every common lower bound. */
  lemma {:induction false} InsertSorted<V>(x: (string, V), xs: seq<(string, V)>)
    requires SortedByKey(xs)
    ensures SortedByKey(InsertByKey(x, xs))
    ensures forall k :: LowerBound(k, xs) && LexLe(k, x.0) ==> LowerBound(k, InsertByKey(x, xs))
  {
    var r := InsertByKey(x, xs);
    if xs == [] {
    } else if LexLe(x.0, xs[0].0) {
      forall j | 0 <= j < |xs| ensures LexLe(x.0, xs[j].0) {
        if j > 0 { LexLeTrans(x.0, xs[0].0, xs[j].0); }
      }
      assert r[1..] == xs;
    } else {
      LexLeTotal(x.0, xs[0].0);
      InsertSorted(x, xs[1..]);
      assert LowerBound(xs[0].0, xs[1..]);
      assert r[1..] == InsertByKey(x, xs[1..]);
    }
  }

  /** Inserting adds exactly one entry, `x`. */
  lemma {:induction false} InsertPermutes<V>(x: (string, V), xs: seq<(string, V)>)
    ensures multiset(InsertByKey(x, xs)) == multiset(xs) + multiset{x}
  {
    if xs != [] && !LexLe(x.0, xs[0].0) {
      InsertPermutes(x, xs[1..]);
      assert xs == [xs[0]] + xs[1..];
    }
  }

  /** Inserting adds the key of `x` and no other, and a fresh key keeps the keys distinct. */
  lemma {:induction false} InsertKeys<V>(x: (string, V), xs: seq<(string, V)>)
    ensures KeySet(InsertByKey(x, xs)) == KeySet(xs) + {x.0}
    ensures DistinctKeys(xs) && x.0 !in KeySet(xs) ==> DistinctKeys(InsertByKey(x, xs))
  {
    var r := InsertByKey(x, xs);
    KeySetCons(r);
    if xs == [] {
    } else if LexLe(x.0, xs[0].0) {
      assert r[1..] == xs;
    } else {
      KeySetCons(xs);
      InsertKeys(x, xs[1..]);
      assert r[1..] == InsertByKey(x, xs[1..]);
    }
  }

  /** Python's `sorted` on entries, by key; entries with equal keys keep their order. */
  function SortByKey<V(==)>(xs: seq<(string, V)>): (r: seq<(string, V)>)
    ensures SortedByKey(r)
    ensures multiset(r) == multiset(xs)
    ensures |r| == |xs|
    ensures KeySet(r) == KeySet(xs)
    ensures DistinctKeys(xs) ==> DistinctKeys(r)
  {
    if xs == [] then []
    else
      var rest := SortByKey(xs[1..]);
      InsertStep(xs, rest);
      InsertByKey(xs[0], rest)
  }

  /** Inserting the head into the sorted tail sorts the whole sequence. */
  lemma InsertStep<V>(xs: seq<(string, V)>, rest: seq<(string, V)>)
    requires xs != [] && SortedByKey(rest) && multiset(rest) == multiset(xs[1..])
    requires KeySet(rest) == KeySet(xs[1..]) && (DistinctKeys(xs[1..]) ==> DistinctKeys(rest))
    ensures var r := InsertByKey(xs[0], rest);
      && SortedByKey(r) && multiset(r) == multiset(xs) && KeySet(r) == KeySet(xs)
      && (DistinctKeys(xs) ==> DistinctKeys(r))
  {
    InsertSorted(xs[0], rest);
    InsertPermutes(xs[0], rest);
    assert xs == [xs[0]] + xs[1..];
    InsertStepKeys(xs, rest);
  }

  lemma InsertStepKeys<V>(xs: seq<(string, V)>, rest: seq<(string, V)>)
    requires xs != [] && KeySet(rest) == KeySet(xs[1..]) && (DistinctKeys(xs[1..]) ==> DistinctKeys(rest))
    ensures var r := InsertByKey(xs[0], rest);
      KeySet(r) == KeySet(xs) && (DistinctKeys(xs) ==> DistinctKeys(r))
  {
    KeySetCons(xs);
    InsertKeys(xs[0], rest);
    if DistinctKeys(xs) {
      assert DistinctKeys(xs[1..]) by {
        forall i, j | 0 <= i < j < |xs[1..]| ensures xs[1..][i].0 != xs[1..][j].0 {
          assert xs[1..][i] == xs[i + 1] && xs[1..][j] == xs[j + 1];
        }
      }
    }
  }

  /** Sorting what is already sorted changes nothing. */
  lemma {:induction false} SortSorted<V>(xs: seq<(string, V)>)
    requires SortedByKey(xs)
    ensures SortByKey(xs) == xs
  {
    if xs != [] {
      SortSorted(xs[1..]);
      assert xs == [xs[0]] + xs[1..];
    }
  }

  /** Distinct keys in ascending order strictly increase. */
  lemma SortedDistinctStrict<V>(xs: seq<(string, V)>, i: nat, j: nat)
    requires SortedByKey(xs) && DistinctKeys(xs)
    requires i < j < |xs|
    ensures LexLe(xs[i].0, xs[j].0) && !LexLe(xs[j].0, xs[i].0)
  {
    if LexLe(xs[j].0, xs[i].0) {
      LexLeAntisymmetric(xs[i].0, xs[j].0);
    }
  }
}
