/** Python's `sorted(xs, key=...)` for keys that are pairs of integers,
    compared as Python compares tuples: by the first component, then by the
    second. The sort is stable: items with equal keys keep their order. */
module Sorting {

  /** `a <= b` for pairs compared lexicographically. */
  predicate PairLe(a: (int, int), b: (int, int)) {
    a.0 < b.0 || (a.0 == b.0 && a.1 <= b.1)
  }

  /** The items' keys never decrease. */
  predicate SortedBy<T>(s: seq<T>, key: T -> (int, int)) {
    forall i, j :: 0 <= i < j < |s| ==> PairLe(key(s[i]), key(s[j]))
  }

  /** The items whose key is `k`, in order. */
  function WithKey<T>(s: seq<T>, key: T -> (int, int), k: (int, int)): (r: seq<T>)
    ensures |r| <= |s|
  {
    if s == [] then []
    else WithKey(s[..|s| - 1], key, k) + (if key(s[|s| - 1]) == k then [s[|s| - 1]] else [])
  }

  /** `x` placed after every item of `s` whose key is at most its own,
      counting from the back. */
  function Insert<T>(s: seq<T>, x: T, key: T -> (int, int)): (r: seq<T>)
    ensures |r| == |s| + 1
  {
    if s == [] || PairLe(key(s[|s| - 1]), key(x)) then s + [x]
    else Insert(s[..|s| - 1], x, key) + [s[|s| - 1]]
  }

  /** Insertion sort, taking the items in order. */
  function SortBy<T>(s: seq<T>, key: T -> (int, int)): (r: seq<T>)
    ensures |r| == |s|
  {
    if s == [] then [] else Insert(SortBy(s[..|s| - 1], key), s[|s| - 1], key)
  }

  /** `Insert` put `x` at position `p`: between `s[..p]` and `s[p..]`,
      right after an item whose key is at most its own, and every item
      after it having a larger key. */
  ghost predicate InsertedAt<T>(s: seq<T>, x: T, key: T -> (int, int), p: int) {
    && 0 <= p <= |s|
    && Insert(s, x, key) == s[..p] + [x] + s[p..]
    && (p > 0 ==> PairLe(key(s[p - 1]), key(x)))
    && forall j :: p <= j < |s| ==> !PairLe(key(s[j]), key(x))
  }

  /** `Insert` splits `s` in two and puts `x` between the parts; every item
      after `x` has a larger key. */
  lemma {:induction false} InsertSplits<T>(s: seq<T>, x: T, key: T -> (int, int))
    ensures exists p :: InsertedAt(s, x, key, p)
    decreases |s|
  {
    if s == [] || PairLe(key(s[|s| - 1]), key(x)) {
      assert Insert(s, x, key) == s[..|s|] + [x] + s[|s|..];
      assert InsertedAt(s, x, key, |s|);
    } else {
      var init := s[..|s| - 1];
      InsertSplits(init, x, key);
      var p :| InsertedAt(init, x, key, p);
      assert s[..p] == init[..p];
      assert s[p..] == init[p..] + [s[|s| - 1]];
      assert forall j :: p <= j < |init| ==> s[j] == init[j];
      assert InsertedAt(s, x, key, p);
    }
  }

  lemma WithKeyConcat<T>(a: seq<T>, b: seq<T>, key: T -> (int, int), k: (int, int))
    ensures WithKey(a + b, key, k) == WithKey(a, key, k) + WithKey(b, key, k)
    decreases |b|
  {
    if b != [] {
      assert (a + b)[..|a + b| - 1] == a + b[..|b| - 1];
      WithKeyConcat(a, b[..|b| - 1], key, k);
    } else {
      assert a + b == a;
    }
  }

  /** No item from position `p` on has a key at most `k`, so none has key
      `k`. */
  lemma {:induction false} WithKeyNone<T>(s: seq<T>, p: nat, key: T -> (int, int), k: (int, int))
    requires p <= |s|
    requires forall j :: p <= j < |s| ==> !PairLe(key(s[j]), k)
    ensures WithKey(s[p..], key, k) == []
    decreases |s|
  {
    if |s| > p {
      var init := s[..|s| - 1];
      assert s[p..][..|s[p..]| - 1] == init[p..];
      assert forall j :: p <= j < |init| ==> init[j] == s[j];
      WithKeyNone(init, p, key, k);
    }
  }

  /** Insertion keeps the items of every key in order, with `x` last among
      those of its own key. */
  lemma {:induction false} InsertWithKey<T>(s: seq<T>, x: T, key: T -> (int, int), k: (int, int))
    ensures WithKey(Insert(s, x, key), key, k)
      == WithKey(s, key, k) + (if key(x) == k then [x] else [])
  {
    InsertSplits(s, x, key);
    var p :| InsertedAt(s, x, key, p);
    var before, after := s[..p], s[p..];
    assert s == before + after;
    WithKeyConcat(before, after, key, k);
    WithKeySplice(before, x, after, key, k);
    if key(x) == k {
      WithKeyNone(s, p, key, k);
    }
  }

  /** The items of key `k` around one more item. */
  lemma WithKeySplice<T>(before: seq<T>, x: T, after: seq<T>, key: T -> (int, int), k: (int, int))
    ensures WithKey(before + [x] + after, key, k)
      == WithKey(before, key, k) + (if key(x) == k then [x] else []) + WithKey(after, key, k)
  {
    WithKeyConcat(before + [x], after, key, k);
    assert (before + [x])[..|before + [x]| - 1] == before;
  }

  /** Insertion into a sorted sequence keeps it sorted. */
  lemma InsertSorted<T>(s: seq<T>, x: T, key: T -> (int, int))
    requires SortedBy(s, key)
    ensures SortedBy(Insert(s, x, key), key)
  {
    InsertSplits(s, x, key);
    var p :| InsertedAt(s, x, key, p);
    var r := Insert(s, x, key);
    forall i, j | 0 <= i < j < |r| ensures PairLe(key(r[i]), key(r[j])) {
      if i < p && j == p {
        assert PairLe(key(s[i]), key(s[p - 1]));
      } else if i == p && j > p {
        assert r[j] == s[j - 1];
      } else if i < p && j > p {
        assert r[j] == s[j - 1];
      } else if i > p {
        assert r[i] == s[i - 1] && r[j] == s[j - 1];
      }
    }
  }

  /** `SortBy` returns its input sorted by key. */
  lemma {:induction false} SortByIsSorted<T>(s: seq<T>, key: T -> (int, int))
    ensures SortedBy(SortBy(s, key), key)
    decreases |s|
  {
    if s != [] {
      SortByIsSorted(s[..|s| - 1], key);
      InsertSorted(SortBy(s[..|s| - 1], key), s[|s| - 1], key);
    }
  }

  /** `SortBy` is stable: for every key, the items with that key come out
      in the order they went in. */
  lemma {:induction false} SortByIsStable<T>(s: seq<T>, key: T -> (int, int), k: (int, int))
    ensures WithKey(SortBy(s, key), key, k) == WithKey(s, key, k)
    decreases |s|
  {
    if s != [] {
      SortByIsStable(s[..|s| - 1], key, k);
      InsertWithKey(SortBy(s[..|s| - 1], key), s[|s| - 1], key, k);
    }
  }

  /** `SortBy` only reorders: every item keeps its multiplicity. */
  lemma {:induction false} SortByIsPermutation<T>(s: seq<T>, key: T -> (int, int))
    ensures multiset(SortBy(s, key)) == multiset(s)
    decreases |s|
  {
    if s != [] {
      var init := s[..|s| - 1];
      SortByIsPermutation(init, key);
      var sorted := SortBy(init, key);
      InsertSplits(sorted, s[|s| - 1], key);
      var p :| InsertedAt(sorted, s[|s| - 1], key, p);
      assert sorted == sorted[..p] + sorted[p..];
      assert s == init + [s[|s| - 1]];
    }
  }
}
