/** Lists of ids used as sets: the invitee, tag and member pickers all toggle an
    id by removing every occurrence when present and appending it otherwise. */
module Selection {

  /** No element occurs twice. */
  predicate NoDup<T(==)>(s: seq<T>) {
    forall i, j :: 0 <= i < j < |s| ==> s[i] != s[j]
  }

  /** `s.filter(y => y !== x)`. */
  function RemoveAll<T(==)>(s: seq<T>, x: T): (r: seq<T>)
    ensures x !in r
    ensures multiset(r) == multiset(s)[x := 0]
    ensures |r| == |s| - multiset(s)[x]
  {
    if s == [] then []
    else
      assert s == [s[0]] + s[1..];
      if s[0] == x then RemoveAll(s[1..], x) else [s[0]] + RemoveAll(s[1..], x)
  }

  /** Removal distributes over concatenation, so the survivors keep their order. */
  lemma {:induction false} RemoveAllConcat<T>(a: seq<T>, b: seq<T>, x: T)
    ensures RemoveAll(a + b, x) == RemoveAll(a, x) + RemoveAll(b, x)
    decreases |a|
  {
    if a != [] {
      assert (a + b)[1..] == a[1..] + b;
      RemoveAllConcat(a[1..], b, x);
    } else {
      assert a + b == b;
    }
  }

  /** Removing an id that does not occur is the identity. */
  lemma {:induction false} RemoveAllAbsent<T>(s: seq<T>, x: T)
    requires x !in s
    ensures RemoveAll(s, x) == s
  {
    if s != [] {
      RemoveAllAbsent(s[1..], x);
    }
  }

  /** Removing keeps a duplicate-free list duplicate-free. */
  lemma {:induction false} RemoveAllKeepsNoDup<T>(s: seq<T>, x: T)
    requires NoDup(s)
    ensures NoDup(RemoveAll(s, x))
  {
    if s != [] {
      RemoveAllKeepsNoDup(s[1..], x);
      var rest := RemoveAll(s[1..], x);
      assert s[0] !in rest by {
        assert multiset(rest)[s[0]] <= multiset(s[1..])[s[0]];
      }
    }
  }

  /** The toggle behind `toggleInvitee`, `toggleTag` and `handleToggleMember`. */
  function Toggle<T(==)>(s: seq<T>, x: T): (r: seq<T>)
    ensures x in r <==> x !in s
    ensures x in s ==> multiset(r) == multiset(s)[x := 0]
    ensures x !in s ==> r == s + [x]
    ensures x in s ==> |r| < |s|
    ensures x in s ==> r == RemoveAll(s, x)
  {
    if x in s then RemoveAll(s, x) else s + [x]
  }

  /** Membership of every other id is untouched. */
  lemma ToggleOthers<T>(s: seq<T>, x: T, y: T)
    requires y != x
    ensures y in Toggle(s, x) <==> y in s
  {
    if x in s {
      assert multiset(Toggle(s, x))[y] == multiset(s)[y];
    } else {
      assert y in s + [x] <==> y in s;
    }
  }

  /** Toggling an absent id twice gives back the original list. */
  lemma {:induction false} ToggleTwiceAbsent<T>(s: seq<T>, x: T)
    requires x !in s
    ensures Toggle(Toggle(s, x), x) == s
  {
    RemoveAllConcat(s, [x], x);
    RemoveAllAbsent(s, x);
    assert RemoveAll([x], x) == [];
  }

  /** Toggling a present id twice restores the set of selected ids (the id moves to the end). */
  lemma ToggleTwicePresent<T>(s: seq<T>, x: T)
    requires x in s
    ensures Toggle(Toggle(s, x), x) == RemoveAll(s, x) + [x]
    ensures forall y :: y in Toggle(Toggle(s, x), x) <==> y in s
  {
    var t := Toggle(Toggle(s, x), x);
    forall y
      ensures y in t <==> y in s
    {
      if y != x {
        ToggleOthers(s, x, y);
        ToggleOthers(Toggle(s, x), x, y);
      }
    }
  }

  /** Toggling keeps a duplicate-free selection duplicate-free. */
  lemma ToggleKeepsNoDup<T>(s: seq<T>, x: T)
    requires NoDup(s)
    ensures NoDup(Toggle(s, x))
  {
    if x in s {
      RemoveAllKeepsNoDup(s, x);
    }
  }
}
