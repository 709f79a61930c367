/**
 * The relational operators the engine's queries use, on sequences of rows:
 * `WHERE` (Filter), `ORDER BY key` (SortBy), `ORDER BY key LIMIT n`
 * (TakeSmallest), `LIMIT n` without an order (Take) and the first-seen
 * de-duplication of a JavaScript `Set` (Dedup).
 */
module Ordering {
  import opened TextOrder

  function Min(a: nat, b: nat): nat
  {
    if a <= b then a else b
  }

  /** Every pair of rows is in non-decreasing key order (ties in any order). */
  ghost predicate SortedBy<T>(s: seq<T>, key: T -> Str)
  {
    forall i, j :: 0 <= i < j < |s| ==> StrLe(key(s[i]), key(s[j]))
  }

  /** No value occurs twice. */
  ghost predicate NoDup<T>(s: seq<T>)
  {
    forall i, j :: 0 <= i < j < |s| ==> s[i] != s[j]
  }

  /** `WHERE p`: keeps exactly the rows satisfying `p`, each as often as it occurs, in scan order. */
  function Filter<T(!new)>(s: seq<T>, p: T -> bool): (r: seq<T>)
    ensures forall x :: x in r <==> x in s && p(x)
    ensures forall x :: multiset(r)[x] == if p(x) then multiset(s)[x] else 0
    ensures |r| <= |s|
  {
    if s == [] then []
    else
      var rest := Filter(s[1..], p);
      assert s == [s[0]] + s[1..];
      if p(s[0]) then [s[0]] + rest else rest
  }

  /** One row at a time: the first row is kept exactly when it satisfies `p`. */
  lemma FilterCons<T(!new)>(s: seq<T>, p: T -> bool)
    requires s != []
    ensures Filter(s, p) == (if p(s[0]) then [s[0]] else []) + Filter(s[1..], p)
  {
  }

  lemma ConcatTail<T>(a: seq<T>, b: seq<T>)
    requires a != []
    ensures (a + b)[0] == a[0] && (a + b)[1..] == a[1..] + b
  {
  }

  /** `WHERE` keeps the scan order: filtering a concatenation filters each part in turn. */
  lemma {:induction false} FilterConcat<T(!new)>(a: seq<T>, b: seq<T>, p: T -> bool)
    ensures Filter(a + b, p) == Filter(a, p) + Filter(b, p)
    decreases |a|
  {
    if a == [] {
      FilterConcatNil(a, b, p);
    } else {
      FilterConcat(a[1..], b, p);
      FilterConcatStep(a, b, p);
    }
  }

  lemma FilterConcatStep<T(!new)>(a: seq<T>, b: seq<T>, p: T -> bool)
    requires a != []
    requires Filter(a[1..] + b, p) == Filter(a[1..], p) + Filter(b, p)
    ensures Filter(a + b, p) == Filter(a, p) + Filter(b, p)
  {
    var head := if p(a[0]) then [a[0]] else [];
    ConcatTail(a, b);
    FilterCons(a + b, p);
    FilterCons(a, p);
    SeqAssoc(head, Filter(a[1..], p), Filter(b, p));
  }

  lemma FilterConcatNil<T(!new)>(a: seq<T>, b: seq<T>, p: T -> bool)
    requires a == []
    ensures Filter(a + b, p) == Filter(a, p) + Filter(b, p)
  {
    calc {
      Filter(a + b, p);
      { assert a + b == b; }
      Filter(b, p);
      { assert Filter(a, p) == []; }
      Filter(a, p) + Filter(b, p);
    }
  }

  lemma SeqAssoc<T>(x: seq<T>, y: seq<T>, z: seq<T>)
    ensures x + (y + z) == (x + y) + z
  {
  }

  /** Inserts `x` before the first row whose key is not smaller. */
  function Insert<T>(x: T, s: seq<T>, key: T -> Str): (r: seq<T>)
    requires SortedBy(s, key)
    ensures SortedBy(r, key)
    ensures multiset(r) == multiset(s) + multiset{x}
  {
    if s == [] then [x]
    else if StrLe(key(x), key(s[0])) then
      var r := [x] + s;
      forall i, j | 0 <= i < j < |r|
        ensures StrLe(key(r[i]), key(r[j]))
      {
        if i == 0 && j > 1 {
          StrLeTransitive(key(x), key(s[0]), key(s[j - 1]));
        }
      }
      r
    else
      var rest := Insert(x, s[1..], key);
      var r := [s[0]] + rest;
      StrLeTotal(key(x), key(s[0]));
      assert s == [s[0]] + s[1..];
      forall i, j | 0 <= i < j < |r|
        ensures StrLe(key(r[i]), key(r[j]))
      {
        if i == 0 {
          // r[j] is x or a row of s[1..]; both have keys at least key(s[0])
          assert r[j] in multiset(rest);
          assert r[j] in multiset(s[1..]) + multiset{x};
          if r[j] != x {
            var k :| 0 <= k < |s[1..]| && s[1..][k] == r[j];
            assert StrLe(key(s[0]), key(s[k + 1]));
          }
        }
      }
      r
  }

  /** `ORDER BY key`: a stable insertion sort. */
  function SortBy<T>(s: seq<T>, key: T -> Str): (r: seq<T>)
    ensures SortedBy(r, key)
    ensures multiset(r) == multiset(s)
    ensures |r| == |s|
  {
    if s == [] then []
    else
      assert s == [s[0]] + s[1..];
      Insert(s[0], SortBy(s[1..], key), key)
  }

  /**
   * `r` is a possible answer of `ORDER BY key LIMIT n` over `pool`: as many rows
   * as the limit allows, taken from the pool, in key order, and no row left out
   * has a smaller key than a row kept.
   */
  ghost predicate SmallestBy<T>(r: seq<T>, pool: seq<T>, key: T -> Str, n: nat)
  {
    && |r| == Min(n, |pool|)
    && multiset(r) <= multiset(pool)
    && SortedBy(r, key)
    && forall x, y :: x in multiset(pool) - multiset(r) && y in r ==> StrLe(key(y), key(x))
  }

  /** In a sorted sequence no row after position `k` has a smaller key than one before it. */
  lemma SortedSplit<T>(sorted: seq<T>, key: T -> Str, k: nat, x: T, y: T)
    requires SortedBy(sorted, key) && k <= |sorted|
    requires x in sorted[k..] && y in sorted[..k]
    ensures StrLe(key(y), key(x))
  {
    var j :| 0 <= j < |sorted[k..]| && sorted[k..][j] == x;
    var i :| 0 <= i < k && sorted[..k][i] == y;
    assert sorted[i] == y && sorted[k + j] == x;
  }

  /** The first rows of a sorted permutation of the pool are its smallest. */
  lemma SortedPrefixSmallest<T>(pool: seq<T>, sorted: seq<T>, key: T -> Str, n: nat)
    requires SortedBy(sorted, key) && multiset(sorted) == multiset(pool)
    ensures SmallestBy(sorted[..Min(n, |sorted|)], pool, key, n)
  {
    var k := Min(n, |sorted|);
    var r := sorted[..k];
    assert sorted == r + sorted[k..];
    assert multiset(sorted) == multiset(r) + multiset(sorted[k..]);
    forall x, y | x in multiset(pool) - multiset(r) && y in r
      ensures StrLe(key(y), key(x))
    {
      assert x in multiset(sorted[k..]);
      SortedSplit(sorted, key, k, x, y);
    }
  }

  /** `ORDER BY key LIMIT n`. */
  function TakeSmallest<T>(pool: seq<T>, key: T -> Str, n: nat): (r: seq<T>)
    ensures SmallestBy(r, pool, key, n)
  {
    var sorted := SortBy(pool, key);
    SortedPrefixSmallest(pool, sorted, key, n);
    sorted[..Min(n, |sorted|)]
  }

  /** `LIMIT n` with no `ORDER BY`: the first `n` rows of the scan. */
  function Take<T>(s: seq<T>, n: nat): (r: seq<T>)
    ensures |r| == Min(n, |s|)
    ensures r <= s
  {
    s[..Min(n, |s|)]
  }

  /** `Array.from(new Set(s))`: each value once, at its first occurrence. */
  function Dedup<T(==,!new)>(s: seq<T>): (r: seq<T>)
    ensures forall x :: x in r <==> x in s
    ensures NoDup(r)
    ensures |r| <= |s|
  {
    if s == [] then []
    else
      var init := Dedup(s[..|s| - 1]);
      var last := s[|s| - 1];
      assert s == s[..|s| - 1] + [last];
      if last in init then init else init + [last]
  }
}
