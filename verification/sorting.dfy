/** The stable sort behind `[...xs].sort((a, b) => key(a) - key(b))`.

    `Array.prototype.sort` is stable, so the ordered listing is determined by
    three facts proved here: it is ordered by the key, it is a permutation of
    the input, and elements with equal keys keep their input order. */
module Sorting {

  /** Keys never decrease along `s`. */
  predicate SortedBy<T>(s: seq<T>, key: T -> int) {
    forall i, j {:trigger key(s[i]), key(s[j])} :: 0 <= i < j < |s| ==> key(s[i]) <= key(s[j])
  }

  function Min(a: int, b: int): int {
    if a <= b then a else b
  }

  /** Places `x` in front of the first element whose key exceeds `key(x)`. */
  function Insert<T(==)>(x: T, s: seq<T>, key: T -> int): (r: seq<T>)
    ensures multiset(r) == multiset(s) + multiset{x}
    ensures |r| == |s| + 1
  {
    if s == [] then [x]
    else if key(x) < key(s[0]) then [x] + s
    else
      assert s == [s[0]] + s[1..];
      [s[0]] + Insert(x, s[1..], key)
  }

  /** Inserting into a sorted sequence keeps it sorted. */
  lemma {:induction false} InsertSorted<T>(x: T, s: seq<T>, key: T -> int)
    requires SortedBy(s, key)
    ensures SortedBy(Insert(x, s, key), key)
    ensures key(Insert(x, s, key)[0]) == if s == [] then key(x) else Min(key(x), key(s[0]))
    decreases |s|
  {
    if s == [] {
    } else if key(x) < key(s[0]) {
      SortedCons(x, s, key);
    } else {
      InsertSorted(x, s[1..], key);
      var rest := Insert(x, s[1..], key);
      assert s[1..] != [] ==> key(s[0]) <= key(s[1..][0]);
      SortedCons(s[0], rest, key);
    }
  }

  /** A head no larger than the first key of a sorted tail gives a sorted sequence. */
  lemma SortedCons<T>(h: T, t: seq<T>, key: T -> int)
    requires SortedBy(t, key)
    requires t != [] ==> key(h) <= key(t[0])
    ensures SortedBy([h] + t, key)
  {
    var r := [h] + t;
    forall i, j | 0 <= i < j < |r|
      ensures key(r[i]) <= key(r[j])
    {
      if i == 0 && j > 1 {
        assert key(t[0]) <= key(t[j - 1]);
      }
    }
  }

  /** Insertion sort, inserting the elements from first to last. */
  function SortBy<T(==)>(s: seq<T>, key: T -> int): (r: seq<T>)
    ensures SortedBy(r, key)
    ensures multiset(r) == multiset(s)
    ensures |r| == |s|
  {
    if s == [] then []
    else
      assert s == s[..|s| - 1] + [s[|s| - 1]];
      var sortedInit := SortBy(s[..|s| - 1], key);
      InsertSorted(s[|s| - 1], sortedInit, key);
      Insert(s[|s| - 1], sortedInit, key)
  }

  /** The elements of `s` whose key is `k`, in order. */
  function WithKey<T>(s: seq<T>, key: T -> int, k: int): seq<T> {
    if s == [] then [] else Keep(s[0], key, k) + WithKey(s[1..], key, k)
  }

  /** `[x]` when `x` has key `k`, otherwise empty. */
  function Keep<T>(x: T, key: T -> int, k: int): seq<T> {
    if key(x) == k then [x] else []
  }

  lemma {:induction false} WithKeyConcat<T>(a: seq<T>, b: seq<T>, key: T -> int, k: int)
    ensures WithKey(a + b, key, k) == WithKey(a, key, k) + WithKey(b, key, k)
    decreases |a|
  {
    if a == [] {
      assert a + b == b;
    } else {
      assert (a + b)[1..] == a[1..] + b;
      WithKeyConcat(a[1..], b, key, k);
    }
  }

  lemma {:induction false} WithKeyAbsent<T>(s: seq<T>, key: T -> int, k: int)
    requires forall i :: 0 <= i < |s| ==> key(s[i]) != k
    ensures WithKey(s, key, k) == []
    decreases |s|
  {
    if s != [] {
      WithKeyAbsent(s[1..], key, k);
    }
  }

  lemma WithKeyCons<T>(h: T, t: seq<T>, key: T -> int, k: int)
    ensures WithKey([h] + t, key, k) == Keep(h, key, k) + WithKey(t, key, k)
  {
    assert ([h] + t)[1..] == t;
  }

  /** Inserting adds `x` behind every element that shares its key. */
  lemma {:induction false} InsertWithKey<T>(x: T, s: seq<T>, key: T -> int, k: int)
    requires SortedBy(s, key)
    ensures WithKey(Insert(x, s, key), key, k)
         == WithKey(s, key, k) + Keep(x, key, k)
    decreases |s|
  {
    if s == [] {
      assert Insert(x, s, key) == [x];
      WithKeyCons(x, [], key, k);
    } else if key(x) < key(s[0]) {
      InsertInFront(x, s, key, k);
    } else {
      InsertWithKey(x, s[1..], key, k);
      InsertBehindHead(x, s, key, k);
    }
  }

  lemma InsertInFront<T>(x: T, s: seq<T>, key: T -> int, k: int)
    requires SortedBy(s, key) && s != [] && key(x) < key(s[0])
    ensures WithKey(Insert(x, s, key), key, k)
         == WithKey(s, key, k) + Keep(x, key, k)
  {
    assert Insert(x, s, key) == [x] + s;
    WithKeyCons(x, s, key, k);
    if key(x) == k {
      WithKeyAbsent(s, key, k);
    }
  }

  lemma InsertBehindHead<T>(x: T, s: seq<T>, key: T -> int, k: int)
    requires s != [] && key(s[0]) <= key(x)
    requires WithKey(Insert(x, s[1..], key), key, k)
          == WithKey(s[1..], key, k) + Keep(x, key, k)
    ensures WithKey(Insert(x, s, key), key, k)
         == WithKey(s, key, k) + Keep(x, key, k)
  {
  }

  /** Stability: among elements with equal keys the input order is kept. */
  lemma {:induction false} SortByStable<T>(s: seq<T>, key: T -> int, k: int)
    ensures WithKey(SortBy(s, key), key, k) == WithKey(s, key, k)
    decreases |s|
  {
    if s != [] {
      var init, last := s[..|s| - 1], s[|s| - 1];
      SortByStable(init, key, k);
      SortByStableStep(s, key, k);
    }
  }

  lemma SortByStableStep<T>(s: seq<T>, key: T -> int, k: int)
    requires s != []
    requires WithKey(SortBy(s[..|s| - 1], key), key, k) == WithKey(s[..|s| - 1], key, k)
    ensures WithKey(SortBy(s, key), key, k) == WithKey(s, key, k)
  {
    var init, last := s[..|s| - 1], s[|s| - 1];
    var sortedInit := SortBy(init, key);
    InsertWithKey(last, sortedInit, key, k);
    WithKeySnoc(s, key, k);
    calc {
      WithKey(SortBy(s, key), key, k);
      WithKey(Insert(last, sortedInit, key), key, k);
      WithKey(sortedInit, key, k) + Keep(last, key, k);
      WithKey(init, key, k) + Keep(last, key, k);
      WithKey(s, key, k);
    }
  }

  lemma WithKeySnoc<T>(s: seq<T>, key: T -> int, k: int)
    requires s != []
    ensures WithKey(s, key, k) == WithKey(s[..|s| - 1], key, k) + Keep(s[|s| - 1], key, k)
  {
    assert s == s[..|s| - 1] + [s[|s| - 1]];
    WithKeyConcat(s[..|s| - 1], [s[|s| - 1]], key, k);
    WithKeyCons(s[|s| - 1], [], key, k);
    assert [s[|s| - 1]] + [] == [s[|s| - 1]];
  }
}
