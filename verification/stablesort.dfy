/**
 * Python's `list.sort(key=...)` with an integer key: a stable ascending
 * sort. `StableSortOf` is the specification (sorted by key, and elements of
 * equal key keep their relative order); `SortBy` is an insertion sort that
 * meets it, and `SortByIsTheStableSort` shows that nothing else does.
 */
module StableSort {

  predicate SortedBy<T>(s: seq<T>, key: T -> int) {
    forall i, j :: 0 <= i < j < |s| ==> key(s[i]) <= key(s[j])
  }

  /** The elements of `s` whose key is `k`, in their order in `s`. */
  function WithKey<T>(s: seq<T>, key: T -> int, k: int): (r: seq<T>)
    ensures |r| <= |s|
  {
    if s == [] then []
    else (if key(s[0]) == k then [s[0]] else []) + WithKey(s[1..], key, k)
  }

  lemma {:induction false} WithKeyMembers<T>(s: seq<T>, key: T -> int, k: int, i: int)
    requires 0 <= i < |WithKey(s, key, k)|
    ensures WithKey(s, key, k)[i] in s && key(WithKey(s, key, k)[i]) == k
    decreases |s|
  {
    if s != [] {
      var h := if key(s[0]) == k then [s[0]] else [];
      if i >= |h| {
        WithKeyMembers(s[1..], key, k, i - |h|);
      }
    }
  }

  /** `r` is `s` sorted ascending by `key`, with ties left in their order in `s`. */
  ghost predicate StableSortOf<T>(r: seq<T>, s: seq<T>, key: T -> int) {
    && SortedBy(r, key)
    && forall k :: WithKey(r, key, k) == WithKey(s, key, k)
  }

  /** No two positions of `s` carry the same key. */
  predicate DistinctKeys<T>(s: seq<T>, key: T -> int) {
    forall i, j :: 0 <= i < j < |s| ==> key(s[i]) != key(s[j])
  }

  /** Inserts `x` before the first element whose key is at least `key(x)`. */
  function Insert<T>(x: T, s: seq<T>, key: T -> int): (r: seq<T>)
    ensures multiset(r) == multiset(s) + multiset{x}
  {
    if s == [] || key(x) <= key(s[0]) then [x] + s
    else
      assert s == [s[0]] + s[1..];
      [s[0]] + Insert(x, s[1..], key)
  }

  lemma {:induction false} InsertKeepsSorted<T>(x: T, s: seq<T>, key: T -> int)
    requires SortedBy(s, key)
    ensures SortedBy(Insert(x, s, key), key)
    decreases |s|
  {
    if s == [] || key(x) <= key(s[0]) {
      SortedCons(x, s, key);
    } else {
      var t := Insert(x, s[1..], key);
      SortedTail(s, key);
      InsertKeepsSorted(x, s[1..], key);
      InsertAbove(x, s[1..], key, key(s[0]));
      SortedCons(s[0], t, key);
    }
  }

  /** Inserting into a sequence whose keys are all at least `lo` an element
      whose key is at least `lo` keeps every key at least `lo`. */
  lemma {:induction false} InsertAbove<T>(x: T, s: seq<T>, key: T -> int, lo: int)
    requires key(x) >= lo
    requires forall i :: 0 <= i < |s| ==> key(s[i]) >= lo
    ensures forall j :: 0 <= j < |Insert(x, s, key)| ==> key(Insert(x, s, key)[j]) >= lo
    decreases |s|
  {
    var r := Insert(x, s, key);
    if s == [] || key(x) <= key(s[0]) {
      assert forall j :: 1 <= j < |r| ==> r[j] == s[j - 1];
    } else {
      var t := Insert(x, s[1..], key);
      assert forall i :: 0 <= i < |s[1..]| ==> s[1..][i] == s[i + 1];
      InsertAbove(x, s[1..], key, lo);
      assert forall j :: 1 <= j < |r| ==> r[j] == t[j - 1];
    }
  }

  /** A sorted sequence stays sorted behind an element whose key is no
      larger than any of its keys. */
  lemma SortedCons<T>(y: T, ys: seq<T>, key: T -> int)
    requires SortedBy(ys, key)
    requires forall i :: 0 <= i < |ys| ==> key(y) <= key(ys[i])
    ensures SortedBy([y] + ys, key)
  {
    var r := [y] + ys;
    forall i, j | 0 <= i < j < |r| ensures key(r[i]) <= key(r[j]) {
      assert r[j] == ys[j - 1];
      if i > 0 { assert r[i] == ys[i - 1]; }
    }
  }

  /** `WithKey` on a first element and the rest. */
  lemma WithKeyCons<T>(y: T, ys: seq<T>, key: T -> int, k: int)
    ensures WithKey([y] + ys, key, k) == (if key(y) == k then [y] else []) + WithKey(ys, key, k)
  {
    assert ([y] + ys)[1..] == ys;
  }

  lemma {:induction false} InsertWithKey<T>(x: T, s: seq<T>, key: T -> int, k: int)
    ensures WithKey(Insert(x, s, key), key, k) == (if key(x) == k then [x] else []) + WithKey(s, key, k)
    decreases |s|
  {
    if s == [] || key(x) <= key(s[0]) {
      WithKeyCons(x, s, key, k);
    } else {
      var t := Insert(x, s[1..], key);
      InsertWithKey(x, s[1..], key, k);
      WithKeyPastSmaller(s[0], t, s[1..], x, key, k);
      assert [s[0]] + s[1..] == s;
    }
  }

  /** Putting `y`, whose key is below that of `x`, in front of both sides
      keeps `x` first among the elements of key `k`. */
  lemma WithKeyPastSmaller<T>(y: T, t: seq<T>, ys: seq<T>, x: T, key: T -> int, k: int)
    requires key(x) > key(y)
    requires WithKey(t, key, k) == (if key(x) == k then [x] else []) + WithKey(ys, key, k)
    ensures WithKey([y] + t, key, k) == (if key(x) == k then [x] else []) + WithKey([y] + ys, key, k)
  {
    WithKeyCons(y, t, key, k);
    WithKeyCons(y, ys, key, k);
  }

  /** Insertion sort by `key`; the result is the stable sort of `s`. */
  function SortBy<T>(s: seq<T>, key: T -> int): (r: seq<T>)
    ensures StableSortOf(r, s, key)
    ensures multiset(r) == multiset(s)
  {
    if s == [] then []
    else
      var q := SortBy(s[1..], key);
      var r := Insert(s[0], q, key);
      InsertKeepsSorted(s[0], q, key);
      forall k ensures WithKey(r, key, k) == WithKey(s, key, k) {
        InsertWithKey(s[0], q, key, k);
      }
      assert s == [s[0]] + s[1..];
      r
  }

  lemma {:induction false} WithKeyEmpty<T>(s: seq<T>, key: T -> int, k: int)
    requires forall i :: 0 <= i < |s| ==> key(s[i]) != k
    ensures WithKey(s, key, k) == []
    decreases |s|
  {
    if s != [] {
      WithKeyEmpty(s[1..], key, k);
    }
  }

  lemma BothEmptyOrNot<T>(a: seq<T>, b: seq<T>, key: T -> int)
    requires forall k :: WithKey(a, key, k) == WithKey(b, key, k)
    ensures a == [] <==> b == []
  {
    if a != [] {
      assert WithKey(a, key, key(a[0])) != [];
    }
    if b != [] {
      assert WithKey(b, key, key(b[0])) != [];
    }
  }

  /** Two sorted sequences with the same elements of every key, in the same
      order, are equal. */
  lemma {:induction false} SortedUnique<T>(a: seq<T>, b: seq<T>, key: T -> int)
    requires SortedBy(a, key) && SortedBy(b, key)
    requires forall k :: WithKey(a, key, k) == WithKey(b, key, k)
    ensures a == b
    decreases |a|
  {
    BothEmptyOrNot(a, b, key);
    if a != [] {
      SameHead(a, b, key);
      SameTailsWithKey(a, b, key);
      SortedTail(a, key);
      SortedTail(b, key);
      SortedUnique(a[1..], b[1..], key);
      assert a == [a[0]] + a[1..] && b == [b[0]] + b[1..];
    }
  }

  lemma SortedTail<T>(s: seq<T>, key: T -> int)
    requires s != [] && SortedBy(s, key)
    ensures SortedBy(s[1..], key)
  {
    assert forall i :: 0 <= i < |s| - 1 ==> s[1..][i] == s[i + 1];
  }

  /** Each sequence starts with an element of least key, and that element
      comes first among those of its key in the other: so they start alike. */
  lemma SameHead<T>(a: seq<T>, b: seq<T>, key: T -> int)
    requires a != [] && b != []
    requires SortedBy(a, key) && SortedBy(b, key)
    requires forall k :: WithKey(a, key, k) == WithKey(b, key, k)
    ensures a[0] == b[0]
  {
    var ka, kb := key(a[0]), key(b[0]);
    HeadOfWithKey(a, key);
    HeadOfWithKey(b, key);
    assert WithKey(b, key, ka) == WithKey(a, key, ka);
    assert WithKey(a, key, kb) == WithKey(b, key, kb);
    WithKeyMembers(b, key, ka, 0);
    WithKeyMembers(a, key, kb, 0);
    var ja :| 0 <= ja < |b| && b[ja] == a[0];
    var jb :| 0 <= jb < |a| && a[jb] == b[0];
    assert kb <= ka && ka <= kb;
  }

  lemma HeadOfWithKey<T>(s: seq<T>, key: T -> int)
    requires s != []
    ensures WithKey(s, key, key(s[0])) != [] && WithKey(s, key, key(s[0]))[0] == s[0]
  {
  }

  lemma SameTailsWithKey<T>(a: seq<T>, b: seq<T>, key: T -> int)
    requires a != [] && b != [] && a[0] == b[0]
    requires forall k :: WithKey(a, key, k) == WithKey(b, key, k)
    ensures forall k :: WithKey(a[1..], key, k) == WithKey(b[1..], key, k)
  {
    forall k ensures WithKey(a[1..], key, k) == WithKey(b[1..], key, k) {
      WithKeyCons(a[0], a[1..], key, k);
      WithKeyCons(b[0], b[1..], key, k);
      assert a == [a[0]] + a[1..] && b == [b[0]] + b[1..];
      var h := if key(a[0]) == k then [a[0]] else [];
      assert WithKey(a[1..], key, k) == WithKey(a, key, k)[|h|..];
      assert WithKey(b[1..], key, k) == WithKey(b, key, k)[|h|..];
    }
  }

  /** `SortBy` is the only stable sort: the specification determines it. */
  lemma SortByIsTheStableSort<T>(r: seq<T>, s: seq<T>, key: T -> int)
    requires StableSortOf(r, s, key)
    ensures r == SortBy(s, key)
  {
    var q := SortBy(s, key);
    SortedUnique(r, q, key);
  }

  /** A listing already in key order is left as it is. */
  lemma SortByKeepsSorted<T>(s: seq<T>, key: T -> int)
    requires SortedBy(s, key)
    ensures SortBy(s, key) == s
  {
    SortByIsTheStableSort(s, s, key);
  }

  lemma {:induction false} WithKeyCount<T>(s: seq<T>, key: T -> int, k: int, x: T)
    ensures multiset(WithKey(s, key, k))[x] == if key(x) == k then multiset(s)[x] else 0
    decreases |s|
  {
    if s != [] {
      WithKeyCount(s[1..], key, k, x);
      assert s == [s[0]] + s[1..];
    }
  }

  lemma {:induction false} DistinctKeysAtMostOne<T>(s: seq<T>, key: T -> int, k: int)
    requires DistinctKeys(s, key)
    ensures |WithKey(s, key, k)| <= 1
    decreases |s|
  {
    if s != [] {
      if key(s[0]) == k {
        WithKeyEmpty(s[1..], key, k);
      } else {
        DistinctKeysAtMostOne(s[1..], key, k);
      }
    }
  }

  lemma WithKeyPreservesPermutation<T>(s: seq<T>, t: seq<T>, key: T -> int, k: int)
    requires multiset(s) == multiset(t)
    ensures multiset(WithKey(s, key, k)) == multiset(WithKey(t, key, k))
  {
    var ws, wt := WithKey(s, key, k), WithKey(t, key, k);
    forall x ensures multiset(ws)[x] == multiset(wt)[x] {
      WithKeyCount(s, key, k, x);
      WithKeyCount(t, key, k, x);
    }
    MultisetsAgree(ws, wt);
  }

  lemma MultisetsAgree<T>(a: seq<T>, b: seq<T>)
    requires forall x :: multiset(a)[x] == multiset(b)[x]
    ensures multiset(a) == multiset(b)
  {
  }

  lemma SameWithKey<T>(s: seq<T>, t: seq<T>, key: T -> int, k: int)
    requires multiset(s) == multiset(t)
    requires DistinctKeys(s, key)
    ensures WithKey(s, key, k) == WithKey(t, key, k)
  {
    WithKeyPreservesPermutation(s, t, key, k);
    DistinctKeysAtMostOne(s, key, k);
    AtMostOneAgree(WithKey(s, key, k), WithKey(t, key, k));
  }

  /** Sequences of at most one element are equal when their multisets are. */
  lemma AtMostOneAgree<T>(a: seq<T>, b: seq<T>)
    requires |a| <= 1 && multiset(a) == multiset(b)
    ensures a == b
  {
    assert |b| == |multiset(b)| == |multiset(a)| == |a|;
    if |a| == 1 {
      assert a[0] in multiset(b);
      assert a == [a[0]] && b == [b[0]];
    }
  }

  /** With distinct keys the sorted order does not depend on the order the
      elements were listed in. */
  lemma SortByIgnoresListingOrder<T>(s: seq<T>, t: seq<T>, key: T -> int)
    requires multiset(s) == multiset(t)
    requires DistinctKeys(s, key)
    ensures SortBy(s, key) == SortBy(t, key)
  {
    forall k ensures WithKey(s, key, k) == WithKey(t, key, k) {
      SameWithKey(s, t, key, k);
    }
    SortedUnique(SortBy(s, key), SortBy(t, key), key);
  }
}
