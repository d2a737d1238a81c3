/** The information on a function instance: its order, and the removal of duplicates. */
module FunctionInfo {
  import opened Ordering

  newtype u16 = x: int | 0 <= x < 0x1_0000

  datatype FunctionInstanceInfo = FunctionInstanceInfo(instance: string, sourceFile: string, lineStart: u16, lineEnd: u16)

  // ----- The order of the fields, one after another

  predicate StringLe(a: string, b: string) {
    if a == "" then true
    else if b == "" then false
    else if a[0] != b[0] then a[0] < b[0]
    else StringLe(a[1..], b[1..])
  }

  predicate InfoLe(a: FunctionInstanceInfo, b: FunctionInstanceInfo) {
    if a.instance != b.instance then StringLe(a.instance, b.instance)
    else if a.sourceFile != b.sourceFile then StringLe(a.sourceFile, b.sourceFile)
    else if a.lineStart != b.lineStart then a.lineStart < b.lineStart
    else a.lineEnd <= b.lineEnd
  }

  function Ascending(): (FunctionInstanceInfo, FunctionInstanceInfo) -> bool {
    (a, b) => InfoLe(a, b)
  }

  function Descending(): (FunctionInstanceInfo, FunctionInstanceInfo) -> bool {
    (a, b) => InfoLe(b, a)
  }

  lemma {:induction false} StringLeTotal(a: string, b: string)
    ensures StringLe(a, b) || StringLe(b, a)
    ensures StringLe(a, b) && StringLe(b, a) ==> a == b
  {
    if a != "" && b != "" && a[0] == b[0] {
      StringLeTotal(a[1..], b[1..]);
      assert a == [a[0]] + a[1..] && b == [b[0]] + b[1..];
    }
  }

  lemma {:induction false} StringLeTransitive(a: string, b: string, c: string)
    requires StringLe(a, b) && StringLe(b, c)
    ensures StringLe(a, c)
  {
    if a != "" && b != "" && c != "" && a[0] == b[0] == c[0] {
      StringLeTransitive(a[1..], b[1..], c[1..]);
    }
  }

  lemma InfoLeTransitive(a: FunctionInstanceInfo, b: FunctionInstanceInfo, c: FunctionInstanceInfo)
    requires InfoLe(a, b) && InfoLe(b, c)
    ensures InfoLe(a, c)
  {
    StringLeTotal(a.instance, b.instance);
    StringLeTotal(b.instance, c.instance);
    StringLeTotal(a.sourceFile, b.sourceFile);
    StringLeTotal(b.sourceFile, c.sourceFile);
    if StringLe(a.instance, b.instance) && StringLe(b.instance, c.instance) {
      StringLeTransitive(a.instance, b.instance, c.instance);
    }
    if StringLe(a.sourceFile, b.sourceFile) && StringLe(b.sourceFile, c.sourceFile) {
      StringLeTransitive(a.sourceFile, b.sourceFile, c.sourceFile);
    }
  }

  lemma InfoLeLinear(a: FunctionInstanceInfo, b: FunctionInstanceInfo)
    ensures InfoLe(a, b) || InfoLe(b, a)
    ensures InfoLe(a, b) && InfoLe(b, a) ==> a == b
  {
    StringLeTotal(a.instance, b.instance);
    StringLeTotal(a.sourceFile, b.sourceFile);
  }

  /** The derived order is a linear order, and so is its reverse. */
  lemma OrdersAreLinear()
    ensures Linear(Ascending()) && Linear(Descending())
  {
    forall a, b, c | InfoLe(a, b) && InfoLe(b, c) ensures InfoLe(a, c) {
      InfoLeTransitive(a, b, c);
    }
    forall a, b ensures InfoLe(a, b) || InfoLe(b, a) {
      InfoLeLinear(a, b);
    }
    forall a, b | InfoLe(a, b) && InfoLe(b, a) ensures a == b {
      InfoLeLinear(a, b);
    }
    assert TotalPreorder(Ascending()) && TotalPreorder(Descending());
  }

  // ----- What the order means

  /** Dictionary order: `a` ends within `b`, or has the smaller character where they first differ. */
  ghost predicate Before(a: string, b: string) {
    a < b || exists k: nat :: k < |a| && k < |b| && a[..k] == b[..k] && a[k] < b[k]
  }

  /** By instance, then by source file, then by first line, then by last line. */
  ghost predicate InfoBefore(a: FunctionInstanceInfo, b: FunctionInstanceInfo) {
    || StartsBefore(a, b)
    || (a.instance == b.instance && a.sourceFile == b.sourceFile && a.lineStart == b.lineStart && a.lineEnd < b.lineEnd)
  }

  ghost predicate StartsBefore(a: FunctionInstanceInfo, b: FunctionInstanceInfo) {
    || Before(a.instance, b.instance)
    || (a.instance == b.instance && Before(a.sourceFile, b.sourceFile))
    || (a.instance == b.instance && a.sourceFile == b.sourceFile && a.lineStart < b.lineStart)
  }

  lemma {:induction false} StringLeExactly(a: string, b: string)
    ensures StringLe(a, b) <==> a == b || Before(a, b)
    ensures !Before(a, a)
  {
    if a != "" && b != "" && a[0] == b[0] {
      StringLeExactly(a[1..], b[1..]);
      assert a == [a[0]] + a[1..] && b == [b[0]] + b[1..];
      if k: nat :| k < |a[1..]| && k < |b[1..]| && a[1..][..k] == b[1..][..k] && a[1..][k] < b[1..][k] {
        assert a[..k + 1] == [a[0]] + a[1..][..k] && b[..k + 1] == [b[0]] + b[1..][..k];
      }
      if k: nat :| k < |a| && k < |b| && a[..k] == b[..k] && a[k] < b[k] {
        assert a[1..][..k - 1] == a[..k][1..] && b[1..][..k - 1] == b[..k][1..];
      }
    } else if a != "" && b != "" {
      assert a[..0] == b[..0];
      assert forall k: nat :: 0 < k <= |a| && k <= |b| ==> a[..k][0] == a[0] && b[..k][0] == b[0];
    }
  }

  lemma InfoLeExactly(a: FunctionInstanceInfo, b: FunctionInstanceInfo)
    ensures InfoLe(a, b) <==> a == b || InfoBefore(a, b)
    ensures !InfoBefore(a, a)
  {
    StringLeExactly(a.instance, b.instance);
    StringLeExactly(a.sourceFile, b.sourceFile);
  }

  /** Each entry of the list comes before those after it. */
  ghost predicate InOrder(s: seq<FunctionInstanceInfo>) {
    forall i, j {:trigger InfoBefore(s[i], s[j])} :: 0 <= i < j < |s| ==> InfoBefore(s[i], s[j])
  }

  lemma InOrderExactly(s: seq<FunctionInstanceInfo>)
    ensures InOrder(s) <==> StrictlySorted(Ascending(), s)
  {
    forall i, j | 0 <= i < j < |s| ensures InfoBefore(s[i], s[j]) <==> Ascending()(s[i], s[j]) && s[i] != s[j] {
      InfoLeExactly(s[i], s[j]);
    }
    if InOrder(s) {
      forall i, j | 0 <= i < j < |s| ensures Ascending()(s[i], s[j]) && s[i] != s[j] {
        assert InfoBefore(s[i], s[j]);
      }
    }
  }

  // ----- Duplicates

  predicate SameFunction(a: FunctionInstanceInfo, b: FunctionInstanceInfo) {
    a.instance == b.instance && a.sourceFile == b.sourceFile
  }

  predicate SameKey(a: FunctionInstanceInfo, b: FunctionInstanceInfo) {
    SameFunction(a, b) && a.lineStart == b.lineStart
  }

  /** The same function, on lines within those of `other`. */
  predicate Within(self: FunctionInstanceInfo, other: FunctionInstanceInfo) {
    SameFunction(self, other) && other.lineStart <= self.lineStart && self.lineEnd <= other.lineEnd
  }

  function WithinFn(): (FunctionInstanceInfo, FunctionInstanceInfo) -> bool {
    (a, b) => Within(a, b)
  }

  /** What the in-place operation leaves of a list. */
  function Deduped(s: seq<FunctionInstanceInfo>): seq<FunctionInstanceInfo> {
    OrdersAreLinear();
    DedupBy(WithinFn(), SortBy(Descending(), s))
  }

  class FunctionList {
    var items: seq<FunctionInstanceInfo>

    constructor (items: seq<FunctionInstanceInfo>)
      ensures this.items == items
    {
      this.items := items;
    }

    /** Removes from the list every entry whose function and start recur with a later end. */
    method Dedup()
      modifies this
      ensures items == Deduped(old(items))
    {
      OrdersAreLinear();
      items := SortBy(Descending(), items);
      ghost var sorted := items;
      var kept := [];
      for k := 0 to |items|
        invariant items == sorted
        invariant kept == DedupBy(WithinFn(), items[..k])
      {
        DedupByStep(WithinFn(), items, k);
        kept := Keep(WithinFn(), kept, items[k]);
      }
      assert items[..|items|] == items;
      items := kept;
    }
  }

  // ----- What is left: the maximum of each group

  /** The entry ends last among those of `s` with its function and its start. */
  ghost predicate IsGroupMaximum(e: FunctionInstanceInfo, s: seq<FunctionInstanceInfo>) {
    e in s && forall x :: x in s && SameKey(x, e) ==> x.lineEnd <= e.lineEnd
  }

  predicate KeyAbove(a: FunctionInstanceInfo, b: FunctionInstanceInfo) {
    InfoLe(b, a) && !SameKey(a, b)
  }

  lemma KeyAboveExactly(a: FunctionInstanceInfo, b: FunctionInstanceInfo)
    ensures KeyAbove(a, b) <==> StartsBefore(b, a)
  {
    InfoLeExactly(a, b);
    InfoLeExactly(b, a);
    InfoLeLinear(a, b);
    StringLeExactly(a.instance, b.instance);
    StringLeExactly(a.sourceFile, b.sourceFile);
  }

  /** Strictly descending in function and start, whatever the ends. */
  ghost predicate KeysDescend(r: seq<FunctionInstanceInfo>) {
    forall i, j {:trigger KeyAbove(r[i], r[j])} :: 0 <= i < j < |r| ==> KeyAbove(r[i], r[j])
  }

  /** `r` holds the group maxima of `s`, in strictly descending order of function and start. */
  ghost predicate HoldsMaxima(r: seq<FunctionInstanceInfo>, s: seq<FunctionInstanceInfo>) {
    && KeysDescend(r)
    && (forall e {:trigger IsGroupMaximum(e, s)} :: e in r <==> IsGroupMaximum(e, s))
  }

  lemma {:induction false} DedupSortedGroups(s: seq<FunctionInstanceInfo>) returns (r: seq<FunctionInstanceInfo>)
    requires Sorted(Descending(), s)
    ensures r == DedupBy(WithinFn(), s) && HoldsMaxima(r, s)
    ensures s != [] ==> r != [] && SameKey(r[|r| - 1], s[|s| - 1])
  {
    if |s| <= 1 {
      r := s;
      FirstGroup(s);
    } else {
      var init, x := s[..|s| - 1], s[|s| - 1];
      var kept := DedupSortedGroups(init);
      DescendingLast(init, x, s);
      DedupByStep(WithinFn(), s, |s| - 1);
      assert s[..|s| - 1 + 1] == s;
      r := GroupStep(init, x, s, kept);
    }
  }

  lemma FirstGroup(s: seq<FunctionInstanceInfo>)
    requires |s| <= 1
    ensures DedupBy(WithinFn(), s) == s && HoldsMaxima(s, s)
  {
    if |s| == 1 {
      DedupByStep(WithinFn(), s, 0);
      assert s[..0] == [] && s[..1] == s && [] + [s[0]] == s;
    }
    AtMostOneEntry(s);
  }

  lemma AtMostOneEntry(s: seq<FunctionInstanceInfo>)
    requires |s| <= 1
    ensures HoldsMaxima(s, s)
  {
    forall e ensures e in s <==> IsGroupMaximum(e, s) {
      assert forall x :: x in s && e in s ==> x == e;
    }
  }

  lemma DescendingLast(init: seq<FunctionInstanceInfo>, x: FunctionInstanceInfo, s: seq<FunctionInstanceInfo>)
    requires |s| > 0 && Sorted(Descending(), s) && init == s[..|s| - 1] && x == s[|s| - 1]
    ensures forall e :: e in init ==> InfoLe(x, e)
    ensures forall e :: e in s <==> e in init || e == x
  {
    forall e | e in init ensures InfoLe(x, e) {
      var i :| 0 <= i < |init| && init[i] == e;
      assert Descending()(s[i], s[|s| - 1]);
    }
    assert s == init + [x];
  }

  /** The next entry of a descending list either has the key of the last group, and is dropped as
      no maximum, or it opens a group of its own. */
  lemma GroupStep(init: seq<FunctionInstanceInfo>, x: FunctionInstanceInfo, s: seq<FunctionInstanceInfo>,
                  kept: seq<FunctionInstanceInfo>)
    returns (r: seq<FunctionInstanceInfo>)
    requires init != [] && kept != [] && HoldsMaxima(kept, init)
    requires SameKey(kept[|kept| - 1], init[|init| - 1])
    requires forall e :: e in init ==> InfoLe(x, e)
    requires forall e :: e in s <==> e in init || e == x
    requires Sorted(Descending(), init)
    ensures r == Keep(WithinFn(), kept, x)
    ensures HoldsMaxima(r, s) && SameKey(r[|r| - 1], x)
  {
    r := Keep(WithinFn(), kept, x);
    var last, l := kept[|kept| - 1], init[|init| - 1];
    assert last in kept && IsGroupMaximum(last, init);
    InfoLeLinear(x, last);
    if SameKey(x, l) {
      assert Within(x, last);
      forall e ensures IsGroupMaximum(e, init) <==> IsGroupMaximum(e, s) {
        SameGroup(init, x, s, last, e);
      }
    } else {
      assert !Within(x, last);
      forall e | e in init ensures !SameKey(e, x) {
        SortedKeysApart(init, x, e);
      }
      forall e ensures IsGroupMaximum(e, s) <==> IsGroupMaximum(e, init) || e == x {
        NewGroup(init, x, s, e);
      }
      forall i | 0 <= i < |kept| ensures KeyAbove(kept[i], x) {
        assert kept[i] in kept && IsGroupMaximum(kept[i], init);
      }
    }
  }

  lemma SameGroup(init: seq<FunctionInstanceInfo>, x: FunctionInstanceInfo, s: seq<FunctionInstanceInfo>,
                  last: FunctionInstanceInfo, e: FunctionInstanceInfo)
    requires IsGroupMaximum(last, init) && SameKey(x, last) && x.lineEnd <= last.lineEnd
    requires forall y :: y in s <==> y in init || y == x
    ensures IsGroupMaximum(e, init) <==> IsGroupMaximum(e, s)
  {
    assert last in s;
    if e == x && IsGroupMaximum(x, s) {
      assert x == last;
    }
  }

  lemma NewGroup(init: seq<FunctionInstanceInfo>, x: FunctionInstanceInfo, s: seq<FunctionInstanceInfo>,
                 e: FunctionInstanceInfo)
    requires forall y :: y in init ==> !SameKey(y, x)
    requires forall y :: y in s <==> y in init || y == x
    ensures IsGroupMaximum(e, s) <==> IsGroupMaximum(e, init) || e == x
  {
  }

  /** In a descending list with `x` below everything, the entries with the key of `x` come last. */
  lemma SortedKeysApart(init: seq<FunctionInstanceInfo>, x: FunctionInstanceInfo, e: FunctionInstanceInfo)
    requires init != [] && Sorted(Descending(), init) && e in init
    requires InfoLe(x, init[|init| - 1]) && !SameKey(x, init[|init| - 1])
    ensures !SameKey(e, x)
  {
    var l := init[|init| - 1];
    var i :| 0 <= i < |init| && init[i] == e;
    assert i < |init| - 1 ==> Descending()(init[i], init[|init| - 1]);
    InfoLeLinear(x, l);
    InfoLeLinear(l, e);
    StringLeTotal(x.instance, l.instance);
    StringLeTotal(x.sourceFile, l.sourceFile);
  }

  /** The result holds, in strictly descending order of function and start, exactly the entries that
      end last in their group, and each once. */
  lemma DedupedIsGroupMaximum(s: seq<FunctionInstanceInfo>)
    ensures HoldsMaxima(Deduped(s), s)
    ensures forall i, j {:trigger StartsBefore(Deduped(s)[j], Deduped(s)[i])} ::
              0 <= i < j < |Deduped(s)| ==> StartsBefore(Deduped(s)[j], Deduped(s)[i])
    ensures multiset(Deduped(s)) <= multiset(s)
  {
    OrdersAreLinear();
    var sorted := SortBy(Descending(), s);
    SortKeepsElements(Descending(), s);
    var r := DedupSortedGroups(sorted);
    forall e ensures IsGroupMaximum(e, sorted) <==> IsGroupMaximum(e, s) {}
    forall e ensures e in r <==> IsGroupMaximum(e, s) {
      assert e in r <==> IsGroupMaximum(e, sorted);
    }
    forall i, j | 0 <= i < j < |r| ensures StartsBefore(r[j], r[i]) {
      assert KeyAbove(r[i], r[j]);
      KeyAboveExactly(r[i], r[j]);
    }
    KeysDescendDistinct(r);
    MaximaAreEntries(r, s);
    NoDuplicatesSubmultiset(r, s);
  }

  lemma KeysDescendDistinct(r: seq<FunctionInstanceInfo>)
    requires KeysDescend(r)
    ensures StrictlySorted(Descending(), r)
    ensures NoDuplicates(r)
  {
    forall i, j | 0 <= i < j < |r| ensures Descending()(r[i], r[j]) && r[i] != r[j] {
      assert KeyAbove(r[i], r[j]);
    }
  }

  lemma MaximaAreEntries(r: seq<FunctionInstanceInfo>, s: seq<FunctionInstanceInfo>)
    requires HoldsMaxima(r, s)
    ensures forall e :: e in r ==> e in s
  {
    forall e | e in r ensures e in s {
      assert IsGroupMaximum(e, s);
    }
  }

  /** A list of group maxima in descending order is the only one for its set of entries. */
  lemma MaximaUnique(r: seq<FunctionInstanceInfo>, s: seq<FunctionInstanceInfo>, r': seq<FunctionInstanceInfo>,
                     s': seq<FunctionInstanceInfo>)
    requires HoldsMaxima(r, s) && HoldsMaxima(r', s')
    requires forall e :: IsGroupMaximum(e, s) <==> IsGroupMaximum(e, s')
    ensures r == r'
  {
    OrdersAreLinear();
    KeysDescendDistinct(r);
    KeysDescendDistinct(r');
    forall e ensures e in r <==> e in r' {
      assert IsGroupMaximum(e, s) <==> IsGroupMaximum(e, s');
    }
    StrictlySortedUnique(Descending(), r, r');
  }

  /** The result depends on nothing but the set of entries. */
  lemma DedupedDependsOnElements(s: seq<FunctionInstanceInfo>, t: seq<FunctionInstanceInfo>)
    requires SameElements(s, t)
    ensures Deduped(s) == Deduped(t)
  {
    DedupedIsGroupMaximum(s);
    DedupedIsGroupMaximum(t);
    MaximaUnique(Deduped(s), s, Deduped(t), t);
  }

  /** Every entry is dominated by a maximum of its group. */
  lemma {:induction false} MaximumExists(e: FunctionInstanceInfo,
                                         s: seq<FunctionInstanceInfo>) returns (m: FunctionInstanceInfo)
    requires e in s
    ensures IsGroupMaximum(m, s) && SameKey(m, e)
  {
    m := e;
    var k := 0;
    while k < |s|
      invariant k <= |s| && m in s && SameKey(m, e)
      invariant forall i :: 0 <= i < k && SameKey(s[i], e) ==> s[i].lineEnd <= m.lineEnd
    {
      if SameKey(s[k], e) && s[k].lineEnd > m.lineEnd {
        m := s[k];
      }
      k := k + 1;
    }
  }

  /** Dropping entries that are not maxima, as long as the maxima stay, changes no maximum. */
  lemma MaximaOfSublist(s: seq<FunctionInstanceInfo>, t: seq<FunctionInstanceInfo>, e: FunctionInstanceInfo)
    requires forall x :: x in t ==> x in s
    requires forall x :: IsGroupMaximum(x, s) ==> x in t
    ensures IsGroupMaximum(e, s) <==> IsGroupMaximum(e, t)
  {
    if IsGroupMaximum(e, t) {
      var m := MaximumExists(e, s);
      assert m in t && m.lineEnd <= e.lineEnd;
    }
  }

  lemma DedupedAgain(s: seq<FunctionInstanceInfo>, t: seq<FunctionInstanceInfo>)
    requires forall x :: x in t ==> x in s
    requires forall x :: IsGroupMaximum(x, s) ==> x in t
    ensures Deduped(t) == Deduped(s)
  {
    DedupedIsGroupMaximum(s);
    DedupedIsGroupMaximum(t);
    forall e ensures IsGroupMaximum(e, s) <==> IsGroupMaximum(e, t) {
      MaximaOfSublist(s, t, e);
    }
    MaximaUnique(Deduped(s), s, Deduped(t), t);
  }

  /** Of two entries with the same start the one that ends later stays, before an earlier start. */
  lemma DedupedOfThree(s: seq<FunctionInstanceInfo>)
    requires |s| == 3
    requires SameKey(s[0], s[1]) && s[0].lineEnd < s[1].lineEnd
    requires SameFunction(s[1], s[2]) && s[2].lineStart < s[1].lineStart
    ensures Deduped(s) == s[1..]
  {
    DedupedIsGroupMaximum(s);
    ThreeEntries(s, s[0], s[1], s[2]);
    MaximaUnique(Deduped(s), s, s[1..], s);
  }

  lemma ThreeEntries(s: seq<FunctionInstanceInfo>, a: FunctionInstanceInfo, b: FunctionInstanceInfo,
                     c: FunctionInstanceInfo)
    requires s == [a, b, c]
    requires SameKey(a, b) && a.lineEnd < b.lineEnd
    requires SameFunction(b, c) && c.lineStart < b.lineStart
    ensures HoldsMaxima(s[1..], s)
  {
    assert s[1..] == [b, c];
    assert forall e :: e in s <==> e == a || e == b || e == c;
    assert IsGroupMaximum(b, s) && IsGroupMaximum(c, s) && !IsGroupMaximum(a, s);
  }

  lemma DedupedIdempotent(s: seq<FunctionInstanceInfo>)
    ensures Deduped(Deduped(s)) == Deduped(s)
  {
    DedupedIsGroupMaximum(s);
    MaximaAreEntries(Deduped(s), s);
    DedupedAgain(s, Deduped(s));
  }

  // ----- Lists of several crates

  function Flatten<T(!new)>(lists: seq<seq<T>>): (r: seq<T>)
    ensures forall x :: x in r <==> exists l :: l in lists && x in l
  {
    if lists == [] then [] else
      assert forall l :: l in lists <==> l == lists[0] || l in lists[1..];
      lists[0] + Flatten(lists[1..])
  }

  function DedupedEach(lists: seq<seq<FunctionInstanceInfo>>): (r: seq<seq<FunctionInstanceInfo>>)
    ensures forall l :: l in lists ==> Deduped(l) in r
    ensures forall d :: d in r ==> exists l :: l in lists && d == Deduped(l)
  {
    var r := seq(|lists|, k requires 0 <= k < |lists| => Deduped(lists[k]));
    assert forall k :: 0 <= k < |lists| ==> r[k] == Deduped(lists[k]);
    r
  }

  /** Removing duplicates crate by crate first makes no difference, in any order of the crates. */
  lemma DedupedRespectsMerging(lists: seq<seq<FunctionInstanceInfo>>, reordered: seq<seq<FunctionInstanceInfo>>)
    requires forall l :: l in lists <==> l in reordered
    ensures Deduped(Flatten(DedupedEach(reordered))) == Deduped(Flatten(lists))
  {
    var s, t := Flatten(lists), Flatten(DedupedEach(reordered));
    forall x | x in t ensures x in s {
      var d :| d in DedupedEach(reordered) && x in d;
      var l :| l in reordered && d == Deduped(l);
      DedupedIsGroupMaximum(l);
      MaximaAreEntries(d, l);
      assert x in l && l in lists;
    }
    forall x | IsGroupMaximum(x, s) ensures x in t {
      var l :| l in lists && x in l;
      assert forall y :: y in l ==> y in s;
      DedupedIsGroupMaximum(l);
      assert IsGroupMaximum(x, l);
      assert Deduped(l) in DedupedEach(reordered) && x in Deduped(l);
    }
    DedupedAgain(s, t);
  }

  // ----- What is not removed: entries within others that start earlier

  /** Some entry lies within another. */
  ghost predicate Nested(r: seq<FunctionInstanceInfo>) {
    exists a, b :: a in r && b in r && a != b && Within(a, b)
  }

  /** An entry starts earlier than a group of its function and ends no earlier than that group. */
  ghost predicate Overhangs(s: seq<FunctionInstanceInfo>) {
    exists a, b :: a in s && b in s && SameFunction(a, b) && b.lineStart < a.lineStart
                   && forall x :: x in s && SameKey(x, a) ==> x.lineEnd <= b.lineEnd
  }

  /** The lines 2-3 and 1-5 of one function both survive, although the first lie within the second. */
  lemma NestedSurvives()
    ensures var inner, outer := FunctionInstanceInfo("f", "a.rs", 2, 3), FunctionInstanceInfo("f", "a.rs", 1, 5);
            inner in Deduped([inner, outer]) && outer in Deduped([inner, outer]) && Within(inner, outer)
  {
    var inner, outer := FunctionInstanceInfo("f", "a.rs", 2, 3), FunctionInstanceInfo("f", "a.rs", 1, 5);
    DedupedIsGroupMaximum([inner, outer]);
    assert IsGroupMaximum(inner, [inner, outer]) && IsGroupMaximum(outer, [inner, outer]);
  }

  /** The result is free of nested entries exactly if no entry of the input overhangs a group. */
  lemma NestedExactly(s: seq<FunctionInstanceInfo>)
    ensures Nested(Deduped(s)) <==> Overhangs(s)
  {
    DedupedIsGroupMaximum(s);
    var r := Deduped(s);
    if a, b :| a in r && b in r && a != b && Within(a, b) {
      assert IsGroupMaximum(a, s) && IsGroupMaximum(b, s);
      assert b.lineStart < a.lineStart;
      assert Overhangs(s);
    }
    if a, b :| a in s && b in s && SameFunction(a, b) && b.lineStart < a.lineStart
               && forall x :: x in s && SameKey(x, a) ==> x.lineEnd <= b.lineEnd {
      var m := MaximumExists(a, s);
      var n := MaximumExists(b, s);
      assert m in r && n in r && m != n && Within(m, n);
    }
  }
}
