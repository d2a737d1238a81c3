/** Sorting, and removal of neighbours, as the list operations of the standard library and of
    `itertools` perform them. */
module Ordering {

  ghost predicate TotalPreorder<T(!new)>(le: (T, T) -> bool) {
    && (forall x, y :: le(x, y) || le(y, x))
    && (forall x, y, z :: le(x, y) && le(y, z) ==> le(x, z))
  }

  ghost predicate Linear<T(!new)>(le: (T, T) -> bool) {
    && TotalPreorder(le)
    && (forall x, y :: le(x, y) && le(y, x) ==> x == y)
  }

  ghost predicate Sorted<T>(le: (T, T) -> bool, s: seq<T>) {
    forall i, j :: 0 <= i < j < |s| ==> le(s[i], s[j])
  }

  ghost predicate StrictlySorted<T>(le: (T, T) -> bool, s: seq<T>) {
    forall i, j :: 0 <= i < j < |s| ==> le(s[i], s[j]) && s[i] != s[j]
  }

  ghost predicate NoDuplicates<T>(s: seq<T>) {
    forall i, j :: 0 <= i < j < |s| ==> s[i] != s[j]
  }

  ghost predicate SameElements<T(!new)>(s: seq<T>, t: seq<T>) {
    forall x :: x in s <==> x in t
  }

  function Insert<T(!new)>(le: (T, T) -> bool, x: T, s: seq<T>): (r: seq<T>)
    requires TotalPreorder(le) && Sorted(le, s)
    ensures Sorted(le, r) && multiset(r) == multiset(s) + multiset{x}
  {
    if s == [] then
      [x]
    else if le(x, s[0]) then
      SortedCons(le, x, s);
      [x] + s
    else
      assert s == [s[0]] + s[1..];
      var r := Insert(le, x, s[1..]);
      InsertedAbove(le, s, x, r);
      SortedCons(le, s[0], r);
      [s[0]] + r
  }

  lemma SortedCons<T(!new)>(le: (T, T) -> bool, x: T, s: seq<T>)
    requires TotalPreorder(le) && Sorted(le, s)
    requires s != [] ==> le(x, s[0])
    ensures Sorted(le, [x] + s)
  {
    forall j | 0 <= j < |s| ensures le(x, s[j]) {
      assert j > 0 ==> le(s[0], s[j]);
    }
  }

  lemma InsertedAbove<T(!new)>(le: (T, T) -> bool, s: seq<T>, x: T, r: seq<T>)
    requires TotalPreorder(le) && Sorted(le, s) && s != [] && !le(x, s[0])
    requires multiset(r) == multiset(s[1..]) + multiset{x}
    ensures r != [] ==> le(s[0], r[0])
  {
    if r != [] {
      assert r[0] in multiset(r);
      assert r[0] == x || r[0] in s[1..];
    }
  }

  /** The sorted permutation of `s`. */
  function SortBy<T(!new)>(le: (T, T) -> bool, s: seq<T>): (r: seq<T>)
    requires TotalPreorder(le)
    ensures Sorted(le, r) && multiset(r) == multiset(s)
  {
    if s == [] then [] else
      assert s == [s[0]] + s[1..];
      Insert(le, s[0], SortBy(le, s[1..]))
  }

  lemma SortKeepsElements<T(!new)>(le: (T, T) -> bool, s: seq<T>)
    requires TotalPreorder(le)
    ensures SameElements(SortBy(le, s), s)
  {
    forall x ensures x in SortBy(le, s) <==> x in s {
      assert x in SortBy(le, s) <==> x in multiset(SortBy(le, s));
      assert x in s <==> x in multiset(s);
    }
  }

  /** Keeps `x` unless `same` relates it to the last element kept before it. */
  function Keep<T>(same: (T, T) -> bool, kept: seq<T>, x: T): (r: seq<T>)
    ensures r != []
    ensures forall y :: y in r ==> y in kept || y == x
  {
    if kept != [] && same(x, kept[|kept| - 1]) then kept else kept + [x]
  }

  /** Removes every element that `same` relates to the last element kept before it. */
  function DedupBy<T>(same: (T, T) -> bool, s: seq<T>): (r: seq<T>)
    ensures forall x :: x in r ==> x in s
    ensures s != [] ==> r != []
  {
    if s == [] then [] else
      Keep(same, DedupBy(same, s[..|s| - 1]), s[|s| - 1])
  }

  lemma DedupByStep<T>(same: (T, T) -> bool, s: seq<T>, k: nat)
    requires k < |s|
    ensures DedupBy(same, s[..k + 1]) == Keep(same, DedupBy(same, s[..k]), s[k])
  {
    assert s[..k + 1][..k] == s[..k];
  }

  function Equal<T(==)>(): (T, T) -> bool {
    (x, y) => x == y
  }

  /** On a sorted list, dropping equal neighbours leaves every element exactly once. */
  lemma {:induction false} DedupSorted<T(!new)>(le: (T, T) -> bool, same: (T, T) -> bool, s: seq<T>)
    requires Linear(le) && Sorted(le, s)
    requires forall x, y :: same(x, y) <==> x == y
    ensures StrictlySorted(le, DedupBy(same, s))
    ensures SameElements(DedupBy(same, s), s)
    ensures s != [] ==> DedupBy(same, s)[|DedupBy(same, s)| - 1] == s[|s| - 1]
  {
    if s != [] {
      var init, x := s[..|s| - 1], s[|s| - 1];
      DedupSorted(le, same, init);
      var kept := DedupBy(same, init);
      assert forall y :: y in s <==> y in init || y == x by { assert s == init + [x]; }
      if init != [] && kept[|kept| - 1] != x {
        StrictlySortedSnoc(le, kept, x);
        assert DedupBy(same, s) == kept + [x];
      }
    }
  }

  lemma StrictlySortedSnoc<T(!new)>(le: (T, T) -> bool, s: seq<T>, x: T)
    requires Linear(le) && StrictlySorted(le, s) && |s| > 0
    requires le(s[|s| - 1], x) && s[|s| - 1] != x
    ensures StrictlySorted(le, s + [x])
  {
    forall i | 0 <= i < |s| ensures le(s[i], x) && s[i] != x {
      if i < |s| - 1 { assert le(s[i], s[|s| - 1]); }
    }
  }

  /** A strictly sorted list is determined by its set of elements. */
  lemma {:induction false} StrictlySortedUnique<T(!new)>(le: (T, T) -> bool, s: seq<T>, t: seq<T>)
    requires Linear(le) && StrictlySorted(le, s) && StrictlySorted(le, t)
    requires SameElements(s, t)
    ensures s == t
  {
    assert s != [] ==> s[0] in t;
    assert t != [] ==> t[0] in s;
    if s != [] && t != [] {
      assert le(s[0], t[0]) && le(t[0], s[0]);
      assert s == [s[0]] + s[1..] && t == [t[0]] + t[1..];
      forall x ensures x in s[1..] <==> x in t[1..] {
        assert x in s <==> x in t;
        assert s[0] !in s[1..] && t[0] !in t[1..];
      }
      StrictlySortedUnique(le, s[1..], t[1..]);
    }
  }

  lemma NoDuplicatesSubmultiset<T(!new)>(r: seq<T>, s: seq<T>)
    requires NoDuplicates(r)
    requires forall x :: x in r ==> x in s
    ensures multiset(r) <= multiset(s)
  {
    forall x | x in r ensures multiset(r)[x] <= multiset(s)[x] {
      NoDuplicatesCount(r, x);
      assert x in multiset(s);
    }
  }

  lemma {:induction false} NoDuplicatesCount<T(!new)>(r: seq<T>, x: T)
    requires NoDuplicates(r)
    ensures multiset(r)[x] == if x in r then 1 else 0
  {
    if r != [] {
      assert r == [r[0]] + r[1..];
      NoDuplicatesCount(r[1..], x);
    }
  }
}
