/** A stable sort by an integer key.

    The database orderings (`orderBy: { date: 'asc' }`, `orderBy: { attended_at: 'desc' }`, ...)
    and the in-memory `Array.prototype.sort` of the top-students report are all modelled by
    `SortBy`; a descending order is an ascending order on the negated key. */
module Sorting {

  /** `s` is ordered by `key`, smallest first. */
  ghost predicate Ascending<T>(s: seq<T>, key: T -> int) {
    forall i, j :: 0 <= i < j < |s| ==> key(s[i]) <= key(s[j])
  }

  /** The elements of `s` whose key is `k`, in the order they occur in `s`. */
  function WithKey<T>(s: seq<T>, key: T -> int, k: int): seq<T> {
    if s == [] then []
    else (if key(s[0]) == k then [s[0]] else []) + WithKey(s[1..], key, k)
  }

  /** Places `x` in front of the first element whose key is not smaller than its own. */
  function Insert<T>(x: T, s: seq<T>, key: T -> int): (r: seq<T>)
    requires Ascending(s, key)
    ensures |r| == |s| + 1
    ensures multiset(r) == multiset(s) + multiset{x}
    ensures Ascending(r, key)
    ensures r[0] == x || (s != [] && r[0] == s[0])
  {
    if s == [] || key(x) <= key(s[0]) then [x] + s
    else
      var rest := Insert(x, s[1..], key);
      assert s == [s[0]] + s[1..];
      [s[0]] + rest
  }

  /** Insertion sort; equal keys keep their input order. */
  function SortBy<T>(s: seq<T>, key: T -> int): (r: seq<T>)
    ensures |r| == |s|
    ensures multiset(r) == multiset(s)
    ensures Ascending(r, key)
  {
    if s == [] then []
    else
      assert s == [s[0]] + s[1..];
      Insert(s[0], SortBy(s[1..], key), key)
  }

  lemma {:induction false} InsertWithKey<T>(x: T, s: seq<T>, key: T -> int, k: int)
    requires Ascending(s, key)
    ensures WithKey(Insert(x, s, key), key, k) == (if key(x) == k then [x] else []) + WithKey(s, key, k)
  {
    var xs := if key(x) == k then [x] else [];
    if s == [] || key(x) <= key(s[0]) {
      assert ([x] + s)[1..] == s;
      assert WithKey([x] + s, key, k) == xs + WithKey(s, key, k);
    } else {
      var rest := Insert(x, s[1..], key);
      var ys := if key(s[0]) == k then [s[0]] else [];
      assert ([s[0]] + rest)[1..] == rest;
      InsertWithKey(x, s[1..], key, k);
      calc {
        WithKey([s[0]] + rest, key, k);
        ys + WithKey(rest, key, k);
        ys + (xs + WithKey(s[1..], key, k));
        { assert xs == [] || ys == []; }
        xs + (ys + WithKey(s[1..], key, k));
        xs + WithKey(s, key, k);
      }
    }
  }

  /** Stability: for every key value, the elements carrying it appear in the sorted sequence in
      exactly the order they had in the input. */
  lemma {:induction false} SortByStable<T>(s: seq<T>, key: T -> int, k: int)
    ensures WithKey(SortBy(s, key), key, k) == WithKey(s, key, k)
  {
    if s != [] {
      SortByStable(s[1..], key, k);
      InsertWithKey(s[0], SortBy(s[1..], key), key, k);
    }
  }

  /** Cutting a sequence short keeps, for each key value, a prefix of the elements carrying it. */
  lemma {:induction false} WithKeyOfPrefix<T>(s: seq<T>, n: nat, key: T -> int, k: int)
    requires n <= |s|
    ensures WithKey(s[..n], key, k) <= WithKey(s, key, k)
  {
    if n > 0 {
      assert s[..n][1..] == s[1..][..n - 1];
      WithKeyOfPrefix(s[1..], n - 1, key, k);
    }
  }

  /** Sorting and then keeping the first `n` elements keeps, for each key value, the first of
      the input's elements carrying it, in input order. */
  lemma SortedPrefixStable<T>(s: seq<T>, n: nat, key: T -> int)
    requires n <= |s|
    ensures forall k :: WithKey(SortBy(s, key)[..n], key, k) <= WithKey(s, key, k)
  {
    var sorted := SortBy(s, key);
    forall k ensures WithKey(sorted[..n], key, k) <= WithKey(s, key, k) {
      SortByStable(s, key, k);
      WithKeyOfPrefix(sorted, n, key, k);
      var a := WithKey(sorted[..n], key, k);
      var b := WithKey(sorted, key, k);
      assert a <= b;
      assert b == WithKey(s, key, k);
    }
  }

  /** When `a` holds no element more often than `b` (a permutation of `b`, or of part of it),
      each element of `a` is an element of `b`. */
  lemma MembersOf<T>(a: seq<T>, b: seq<T>)
    requires multiset(a) <= multiset(b)
    ensures forall i :: 0 <= i < |a| ==> a[i] in b
  {
    forall i | 0 <= i < |a| ensures a[i] in b {
      assert a[i] in multiset(a);
    }
  }
}
