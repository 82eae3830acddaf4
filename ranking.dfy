/** Python's `sorted(items, key=..., reverse=True)` — a stable sort into
    non-increasing key order — and the slice `items[:n]`. */
module Ranking {

  ghost predicate NonIncreasing<T>(s: seq<T>, key: T -> real) {
    forall i, j :: 0 <= i < j < |s| ==> key(s[i]) >= key(s[j])
  }

  lemma SortedCons<T>(y: T, t: seq<T>, key: T -> real)
    requires NonIncreasing(t, key)
    requires forall j :: 0 <= j < |t| ==> key(y) >= key(t[j])
    ensures NonIncreasing([y] + t, key)
  {
    var r := [y] + t;
    forall i, j | 0 <= i < j < |r| ensures key(r[i]) >= key(r[j]) {
      assert r[j] == t[j - 1];
      if i > 0 { assert r[i] == t[i - 1]; }
    }
  }

  /** Places `x` in front of the first element whose key is not larger, so
      that `x` stays ahead of the elements that tie with it. */
  function Insert<T(==)>(x: T, s: seq<T>, key: T -> real): (r: seq<T>)
    requires NonIncreasing(s, key)
    ensures |r| == |s| + 1
    ensures multiset(r) == multiset(s) + multiset{x}
    ensures NonIncreasing(r, key)
  {
    if s == [] || key(s[0]) <= key(x) then
      SortedCons(x, s, key);
      [x] + s
    else
      var t := Insert(x, s[1..], key);
      assert s == [s[0]] + s[1..];
      forall j | 0 <= j < |t| ensures key(s[0]) >= key(t[j]) {
        assert t[j] in multiset(s[1..]) + multiset{x};
        if t[j] != x {
          assert t[j] in s[1..];
        }
      }
      SortedCons(s[0], t, key);
      [s[0]] + t
  }

  /** `sorted(s, key=key, reverse=True)` */
  function SortDesc<T(==)>(s: seq<T>, key: T -> real): (r: seq<T>)
    ensures |r| == |s|
    ensures multiset(r) == multiset(s)
    ensures NonIncreasing(r, key)
  {
    if s == [] then [] else
      assert s == [s[0]] + s[1..];
      Insert(s[0], SortDesc(s[1..], key), key)
  }

  /** The elements of `s` whose key is `k`, in order. */
  function WithKey<T>(s: seq<T>, key: T -> real, k: real): seq<T> {
    if s == [] then [] else (if key(s[0]) == k then [s[0]] else []) + WithKey(s[1..], key, k)
  }

  lemma WithKeyCons<T>(y: T, t: seq<T>, key: T -> real, k: real)
    ensures WithKey([y] + t, key, k) == (if key(y) == k then [y] else []) + WithKey(t, key, k)
  {
    assert ([y] + t)[1..] == t;
  }

  lemma {:induction false} InsertStable<T>(x: T, s: seq<T>, key: T -> real, k: real)
    requires NonIncreasing(s, key)
    ensures WithKey(Insert(x, s, key), key, k) ==
            (if key(x) == k then [x] else []) + WithKey(s, key, k)
  {
    if s == [] || key(s[0]) <= key(x) {
      assert Insert(x, s, key) == [x] + s;
      WithKeyCons(x, s, key, k);
    } else {
      var t := Insert(x, s[1..], key);
      assert Insert(x, s, key) == [s[0]] + t;
      InsertStable(x, s[1..], key, k);
      WithKeyCons(s[0], t, key, k);
      assert s == [s[0]] + s[1..];
      WithKeyCons(s[0], s[1..], key, k);
      // `x` and `s[0]` have different keys, so at most one of them is kept.
      if key(x) == k {
        assert key(s[0]) != k;
      }
    }
  }

  /** The sort is stable: elements that tie keep their relative order. */
  lemma {:induction false} SortDescStable<T>(s: seq<T>, key: T -> real, k: real)
    ensures WithKey(SortDesc(s, key), key, k) == WithKey(s, key, k)
  {
    if s != [] {
      SortDescStable(s[1..], key, k);
      InsertStable(s[0], SortDesc(s[1..], key), key, k);
    }
  }

  function Min(a: int, b: int): int { if a <= b then a else b }
  function Max(a: int, b: int): int { if a >= b then a else b }

  /** Where Python's slice `s[:n]` stops, for a sequence of length `len`:
      a negative `n` counts back from the end. */
  function SliceStop(len: nat, n: int): (k: nat)
    ensures k <= len
    ensures 0 <= n ==> k == Min(n, len)
    ensures n < 0 ==> k == Max(0, len + n)
  {
    if n >= 0 then Min(n, len) else Max(0, len + n)
  }

  /** `s[:n]` */
  function Prefix<T>(s: seq<T>, n: int): seq<T> {
    s[..SliceStop(|s|, n)]
  }

  lemma {:induction false} WithKeyPrefix<T>(s: seq<T>, m: nat, key: T -> real, k: real)
    requires m <= |s|
    ensures WithKey(s, key, k) == WithKey(s[..m], key, k) + WithKey(s[m..], key, k)
  {
    if m > 0 {
      WithKeyPrefix(s[1..], m - 1, key, k);
      assert s[1..][..m - 1] == s[..m][1..];
      assert s[1..][m - 1..] == s[m..];
    } else {
      assert s[..m] == [] && s[m..] == s;
    }
  }

  /** In a rearrangement sorted best first, an element outside the first `m`
      has a key no larger than any element among them. */
  lemma PrefixHoldsTheBest<T>(all: seq<T>, r: seq<T>, key: T -> real, m: nat, x: T)
    requires multiset(r) == multiset(all) && NonIncreasing(r, key)
    requires m <= |r| && x in all && x !in r[..m]
    ensures forall i :: 0 <= i < m ==> key(x) <= key(r[i])
  {
    assert x in multiset(r);
    var k :| 0 <= k < |r| && r[k] == x;
    assert forall i :: 0 <= i < m ==> r[..m][i] == r[i];
    assert k >= m;
  }
}
