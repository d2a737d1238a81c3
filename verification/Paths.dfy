/** Finite paths of a relation, and reachability along them. */
module Paths {

  /** `p` is a non-empty sequence whose neighbours are related by `r`. */
  ghost predicate IsPath<T(!new)>(r: (T, T) -> bool, p: seq<T>) {
    && |p| > 0
    && forall i :: 0 <= i < |p| - 1 ==> r(p[i], p[i + 1])
  }

  ghost predicate IsPathBetween<T(!new)>(r: (T, T) -> bool, p: seq<T>, x: T, y: T) {
    IsPath(r, p) && p[0] == x && p[|p| - 1] == y
  }

  /** Zero or more steps lead from `x` to `y`. */
  ghost predicate Reaches<T(!new)>(r: (T, T) -> bool, x: T, y: T) {
    exists p: seq<T> :: IsPathBetween(r, p, x, y)
  }

  /** One or more steps lead from `x` to `y`. */
  ghost predicate ReachesPlus<T(!new)>(r: (T, T) -> bool, x: T, y: T) {
    exists p: seq<T> :: |p| >= 2 && IsPathBetween(r, p, x, y)
  }

  /** Zero or more steps lead from a member of `roots` to `y`. */
  ghost predicate ReachesFrom<T(!new)>(r: (T, T) -> bool, roots: set<T>, y: T) {
    exists x :: x in roots && Reaches(r, x, y)
  }

  ghost predicate Closed<T(!new)>(r: (T, T) -> bool, s: set<T>) {
    forall x, y {:trigger r(x, y)} :: x in s && r(x, y) ==> y in s
  }

  lemma ReachesSelf<T(!new)>(r: (T, T) -> bool, x: T)
    ensures Reaches(r, x, x)
  {
    assert IsPathBetween(r, [x], x, x);
  }

  lemma ReachesSnoc<T(!new)>(r: (T, T) -> bool, x: T, y: T, z: T)
    requires Reaches(r, x, y) && r(y, z)
    ensures ReachesPlus(r, x, z) && Reaches(r, x, z)
  {
    var p :| IsPathBetween(r, p, x, y);
    assert IsPathBetween(r, p + [z], x, z);
  }

  lemma ReachesCons<T(!new)>(r: (T, T) -> bool, x: T, y: T, z: T)
    requires r(x, y) && Reaches(r, y, z)
    ensures ReachesPlus(r, x, z) && Reaches(r, x, z)
  {
    var p :| IsPathBetween(r, p, y, z);
    assert IsPathBetween(r, [x] + p, x, z);
  }

  /** A path of at least two nodes splits after its first step. */
  lemma PlusHead<T(!new)>(r: (T, T) -> bool, x: T, z: T) returns (y: T)
    requires ReachesPlus(r, x, z)
    ensures r(x, y) && Reaches(r, y, z)
  {
    var p :| |p| >= 2 && IsPathBetween(r, p, x, z);
    y := p[1];
    assert r(p[0], p[0 + 1]);
    assert IsPathBetween(r, p[1..], y, z) by {
      forall i | 0 <= i < |p[1..]| - 1 ensures r(p[1..][i], p[1..][i + 1]) {
        assert r(p[i + 1], p[i + 1 + 1]);
      }
    }
  }

  lemma ReachesIsSelfOrPlus<T(!new)>(r: (T, T) -> bool, x: T, z: T)
    requires Reaches(r, x, z)
    ensures x == z || ReachesPlus(r, x, z)
  {
    var p :| IsPathBetween(r, p, x, z);
    if |p| >= 2 {
      assert |p| >= 2 && IsPathBetween(r, p, x, z);
    }
  }

  /** A closed set that holds the start of a path holds all of it. */
  lemma {:induction false} ClosedHoldsPath<T(!new)>(r: (T, T) -> bool, s: set<T>, p: seq<T>, n: nat)
    requires Closed(r, s) && IsPath(r, p) && p[0] in s && n < |p|
    ensures p[n] in s
  {
    if n > 0 {
      ClosedHoldsPath(r, s, p, n - 1);
      assert r(p[n - 1], p[n - 1 + 1]);
    }
  }

  lemma ClosedHoldsReachable<T(!new)>(r: (T, T) -> bool, s: set<T>, x: T, y: T)
    requires Closed(r, s) && x in s && Reaches(r, x, y)
    ensures y in s
  {
    var p :| IsPathBetween(r, p, x, y);
    ClosedHoldsPath(r, s, p, |p| - 1);
  }
}
