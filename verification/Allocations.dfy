/** The mono items behind an allocation, found by following provenance. */
module Allocations {
  import opened Wrappers
  import opened Paths
  import opened Ordering
  import opened Mir

  /** The allocations that the collection looks through: the pointers of memory and of anonymous
      statics, and the memory of a vtable. */
  function LooksThrough(tcx: Tcx, id: AllocId): seq<AllocId> {
    match tcx.globalAlloc(id)
    case StaticAlloc(def) => if tcx.isAnonStatic(def) then tcx.evalInitializer(def).ptrs else []
    case Memory(alloc) => alloc.ptrs
    case VTable(ty, principal) => [tcx.vtableAllocation(ty, principal)]
    case _ => []
  }

  ghost function LooksThroughRel(tcx: Tcx): (AllocId, AllocId) -> bool {
    (a: AllocId, b: AllocId) => b in LooksThrough(tcx, a)
  }

  /** Chains of memory, anonymous statics and vtables are finite: a cycle of allocations goes
      through a named static. */
  ghost predicate WellFoundedAllocs(tcx: Tcx) {
    forall a, b :: b in LooksThrough(tcx, a) ==> tcx.allocDepth(b) < tcx.allocDepth(a)
  }

  predicate IsLocalStatic(tcx: Tcx, def: StaticDef) {
    !tcx.isAnonStatic(def) && ShouldCodegenLocally(tcx, tcx.staticInstance(def))
  }

  /** The item an allocation stands for by itself: a local function or a local named static. */
  function ItemOf(tcx: Tcx, id: AllocId): Option<MonoItem> {
    match tcx.globalAlloc(id)
    case StaticAlloc(def) => if IsLocalStatic(tcx, def) then Some(Static(def)) else None
    case FunctionAlloc(instance) => if ShouldCodegenLocally(tcx, instance) then Some(Fn(instance)) else None
    case _ => None
  }

  ghost predicate Below(tcx: Tcx, ptrs: seq<AllocId>, bound: nat) {
    forall p :: p in ptrs ==> tcx.allocDepth(p) < bound
  }

  /** The least number above the depth of every allocation in `ptrs`. */
  function Bound(tcx: Tcx, ptrs: seq<AllocId>): (b: nat)
    ensures Below(tcx, ptrs, b)
    ensures forall c: nat :: Below(tcx, ptrs, c) ==> b <= c
  {
    if ptrs == [] then 0 else
      var rest, d := Bound(tcx, ptrs[1..]), tcx.allocDepth(ptrs[0]) + 1;
      assert forall p :: p in ptrs <==> p == ptrs[0] || p in ptrs[1..];
      assert forall c: nat :: Below(tcx, ptrs, c) ==> Below(tcx, ptrs[1..], c) && ptrs[0] in ptrs;
      if rest < d then d else rest
  }

  function CollectAllocItems(tcx: Tcx, id: AllocId): (items: seq<MonoItem>)
    requires WellFoundedAllocs(tcx)
    // Only local functions and local named statics, never an anonymous static.
    ensures forall x :: x in items ==>
              || (x.Fn? && ShouldCodegenLocally(tcx, x.instance))
              || (x.Static? && IsLocalStatic(tcx, x.staticDef))
    decreases tcx.allocDepth(id), 1, 0
  {
    match tcx.globalAlloc(id)
    case StaticAlloc(def) =>
      if tcx.isAnonStatic(def) then
        assert Below(tcx, LooksThrough(tcx, id), tcx.allocDepth(id));
        CollectPtrItems(tcx, tcx.evalInitializer(def).ptrs)
      else if ShouldCodegenLocally(tcx, tcx.staticInstance(def)) then [Static(def)]
      else []
    case FunctionAlloc(instance) =>
      if ShouldCodegenLocally(tcx, instance) then [Fn(instance)] else []
    case Memory(alloc) =>
      assert Below(tcx, LooksThrough(tcx, id), tcx.allocDepth(id));
      CollectPtrItems(tcx, alloc.ptrs)
    case VTable(ty, principal) =>
      assert tcx.vtableAllocation(ty, principal) in LooksThrough(tcx, id);
      CollectAllocItems(tcx, tcx.vtableAllocation(ty, principal))
    case TypeId(_) => []
  }

  /** The items behind each pointer of an allocation, one pointer after another. */
  function CollectPtrItems(tcx: Tcx, ptrs: seq<AllocId>): (items: seq<MonoItem>)
    requires WellFoundedAllocs(tcx)
    ensures forall x :: x in items <==> exists p :: p in ptrs && x in CollectAllocItems(tcx, p)
    ensures forall x :: x in items ==>
              || (x.Fn? && ShouldCodegenLocally(tcx, x.instance))
              || (x.Static? && IsLocalStatic(tcx, x.staticDef))
    decreases Bound(tcx, ptrs), 0, |ptrs|
  {
    if ptrs == [] then [] else
      assert forall p :: p in ptrs <==> p == ptrs[0] || p in ptrs[1..];
      var first, rest := CollectAllocItems(tcx, ptrs[0]), CollectPtrItems(tcx, ptrs[1..]);
      assert forall x :: x in first + rest <==> x in first || x in rest;
      first + rest
  }

  /** The collection is that of the items themselves and of everything looked through. */
  lemma CollectAllocItemsUnfold(tcx: Tcx, id: AllocId)
    requires WellFoundedAllocs(tcx)
    ensures CollectAllocItems(tcx, id) ==
            if ItemOf(tcx, id).Some? then [ItemOf(tcx, id).value] else CollectPtrItems(tcx, LooksThrough(tcx, id))
  {
    var g := tcx.globalAlloc(id);
    if g.VTable? {
      var v := tcx.vtableAllocation(g.ty, g.principal);
      assert LooksThrough(tcx, id) == [v] && [v][1..] == [];
      assert CollectPtrItems(tcx, [v]) == CollectAllocItems(tcx, v) + CollectPtrItems(tcx, [v][1..]);
    }
  }

  // ----- What is found, by reachability

  lemma {:induction false} FoundIsReachable(tcx: Tcx, id: AllocId, x: MonoItem)
    requires WellFoundedAllocs(tcx) && x in CollectAllocItems(tcx, id)
    ensures exists t :: Reaches(LooksThroughRel(tcx), id, t) && ItemOf(tcx, t) == Some(x)
    decreases tcx.allocDepth(id)
  {
    CollectAllocItemsUnfold(tcx, id);
    if ItemOf(tcx, id).Some? {
      ReachesSelf(LooksThroughRel(tcx), id);
    } else {
      var p :| p in LooksThrough(tcx, id) && x in CollectAllocItems(tcx, p);
      FoundIsReachable(tcx, p, x);
      var t :| Reaches(LooksThroughRel(tcx), p, t) && ItemOf(tcx, t) == Some(x);
      ReachesCons(LooksThroughRel(tcx), id, p, t);
    }
  }

  lemma {:induction false} ReachableIsFound(tcx: Tcx, id: AllocId, t: AllocId)
    requires WellFoundedAllocs(tcx)
    requires Reaches(LooksThroughRel(tcx), id, t) && ItemOf(tcx, t).Some?
    ensures ItemOf(tcx, t).value in CollectAllocItems(tcx, id)
    decreases tcx.allocDepth(id)
  {
    CollectAllocItemsUnfold(tcx, id);
    ReachesIsSelfOrPlus(LooksThroughRel(tcx), id, t);
    if id != t {
      var p := PlusHead(LooksThroughRel(tcx), id, t);
      ReachableIsFound(tcx, p, t);
    }
  }

  /** Exactly the local functions and local named statics at the end of a chain of memory,
      anonymous statics and vtables. */
  lemma CollectAllocItemsExact(tcx: Tcx, id: AllocId, x: MonoItem)
    requires WellFoundedAllocs(tcx)
    ensures x in CollectAllocItems(tcx, id) <==>
            exists t :: Reaches(LooksThroughRel(tcx), id, t) && ItemOf(tcx, t) == Some(x)
  {
    if x in CollectAllocItems(tcx, id) {
      FoundIsReachable(tcx, id, x);
    }
    if t :| Reaches(LooksThroughRel(tcx), id, t) && ItemOf(tcx, t) == Some(x) {
      ReachableIsFound(tcx, id, t);
    }
  }

  // ----- How often it is found: once for each way to get there

  /** Follows the pointers with the given indices, and names the item at the end. */
  ghost function Follow(tcx: Tcx, id: AllocId, way: seq<nat>): Option<MonoItem>
    decreases |way|, 1
  {
    if way == [] then ItemOf(tcx, id) else FollowFrom(tcx, LooksThrough(tcx, id), way)
  }

  ghost function FollowFrom(tcx: Tcx, ptrs: seq<AllocId>, way: seq<nat>): Option<MonoItem>
    decreases |way|, 0
  {
    if way != [] && way[0] < |ptrs| then Follow(tcx, ptrs[way[0]], way[1..]) else None
  }

  /** Every way to an item, in the order of the collection. */
  ghost function Ways(tcx: Tcx, id: AllocId): seq<seq<nat>>
    requires WellFoundedAllocs(tcx)
    decreases tcx.allocDepth(id), 1, 0
  {
    if ItemOf(tcx, id).Some? then [[]] else
      assert Below(tcx, LooksThrough(tcx, id), tcx.allocDepth(id));
      WaysFrom(tcx, LooksThrough(tcx, id), 0)
  }

  ghost function WaysFrom(tcx: Tcx, ptrs: seq<AllocId>, j: nat): seq<seq<nat>>
    requires WellFoundedAllocs(tcx) && j <= |ptrs|
    decreases Bound(tcx, ptrs), 0, |ptrs| - j
  {
    if j == |ptrs| then [] else
      Prefixed(j, Ways(tcx, ptrs[j])) + WaysFrom(tcx, ptrs, j + 1)
  }

  ghost function Prefixed(j: nat, ways: seq<seq<nat>>): seq<seq<nat>> {
    seq(|ways|, k requires 0 <= k < |ways| => [j] + ways[k])
  }

  /** A way that leads to an item is listed. */
  ghost predicate ListedIfLeading(tcx: Tcx, id: AllocId, ways: seq<seq<nat>>, way: seq<nat>) {
    Follow(tcx, id, way).Some? ==> way in ways
  }

  ghost predicate ListsAll(tcx: Tcx, id: AllocId, ways: seq<seq<nat>>) {
    forall way {:trigger ListedIfLeading(tcx, id, ways, way)} :: ListedIfLeading(tcx, id, ways, way)
  }

  ghost predicate ListedIfLeadingFrom(tcx: Tcx, ptrs: seq<AllocId>, ways: seq<seq<nat>>, way: seq<nat>) {
    FollowFrom(tcx, ptrs, way).Some? ==> way in ways
  }

  ghost predicate ListsAllFrom(tcx: Tcx, ptrs: seq<AllocId>, j: nat, ways: seq<seq<nat>>) {
    forall way {:trigger ListedIfLeadingFrom(tcx, ptrs, ways, way)} ::
      |way| > 0 && way[0] >= j ==> ListedIfLeadingFrom(tcx, ptrs, ways, way)
  }

  /** The `k`th way starts with the pointer `j` or a later one, and leads to the `k`th item. */
  ghost predicate LeadsAt(tcx: Tcx, ptrs: seq<AllocId>, j: nat, ways: seq<seq<nat>>, items: seq<MonoItem>, k: nat)
    requires k < |ways| == |items|
  {
    |ways[k]| > 0 && ways[k][0] >= j && FollowFrom(tcx, ptrs, ways[k]) == Some(items[k])
  }

  /** `ways` lists, without repetition, the ways through the pointers from the `j`th on, and `items`
      lists the items they lead to. */
  ghost predicate Enumerates(tcx: Tcx, ptrs: seq<AllocId>, j: nat, ways: seq<seq<nat>>, items: seq<MonoItem>) {
    && |ways| == |items|
    && (forall k {:trigger LeadsAt(tcx, ptrs, j, ways, items, k)} ::
          0 <= k < |ways| ==> LeadsAt(tcx, ptrs, j, ways, items, k))
    && NoDuplicates(ways)
    && ListsAllFrom(tcx, ptrs, j, ways)
  }

  /** The collection returns one occurrence of an item for each provenance path to it: the ways
      pair off with the occurrences, no way is listed twice, and none is missing. */
  lemma {:induction false} OneOccurrencePerWay(tcx: Tcx, id: AllocId)
    requires WellFoundedAllocs(tcx)
    ensures |Ways(tcx, id)| == |CollectAllocItems(tcx, id)|
    ensures forall k :: 0 <= k < |Ways(tcx, id)| ==>
              Follow(tcx, id, Ways(tcx, id)[k]) == Some(CollectAllocItems(tcx, id)[k])
    ensures NoDuplicates(Ways(tcx, id))
    ensures ListsAll(tcx, id, Ways(tcx, id))
    decreases tcx.allocDepth(id), 1, 0
  {
    CollectAllocItemsUnfold(tcx, id);
    if ItemOf(tcx, id).Some? {
      ItemIsOnlyWay(tcx, id);
    } else {
      assert Below(tcx, LooksThrough(tcx, id), tcx.allocDepth(id));
      OneOccurrencePerWayFrom(tcx, LooksThrough(tcx, id), 0);
      assert LooksThrough(tcx, id)[0..] == LooksThrough(tcx, id);
      EnumeratesAll(tcx, id, Ways(tcx, id), CollectAllocItems(tcx, id));
    }
  }

  lemma ItemIsOnlyWay(tcx: Tcx, id: AllocId)
    requires ItemOf(tcx, id).Some?
    ensures Follow(tcx, id, []) == ItemOf(tcx, id)
    ensures ListsAll(tcx, id, [[]])
  {
    assert LooksThrough(tcx, id) == [];
    forall way ensures ListedIfLeading(tcx, id, [[]], way) {
      assert way == [] ==> [[]][0] == way;
      assert FollowFrom(tcx, [], way).None?;
    }
  }

  lemma EnumeratesAll(tcx: Tcx, id: AllocId, ways: seq<seq<nat>>, items: seq<MonoItem>)
    requires ItemOf(tcx, id).None? && Enumerates(tcx, LooksThrough(tcx, id), 0, ways, items)
    ensures forall k :: 0 <= k < |ways| ==> Follow(tcx, id, ways[k]) == Some(items[k])
    ensures ListsAll(tcx, id, ways)
  {
    forall k | 0 <= k < |ways| ensures Follow(tcx, id, ways[k]) == Some(items[k]) {
      assert LeadsAt(tcx, LooksThrough(tcx, id), 0, ways, items, k);
    }
    forall way ensures ListedIfLeading(tcx, id, ways, way) {
      if way != [] {
        assert ListedIfLeadingFrom(tcx, LooksThrough(tcx, id), ways, way);
      }
    }
  }

  lemma {:induction false} OneOccurrencePerWayFrom(tcx: Tcx, ptrs: seq<AllocId>, j: nat)
    requires WellFoundedAllocs(tcx) && j <= |ptrs|
    ensures Enumerates(tcx, ptrs, j, WaysFrom(tcx, ptrs, j), CollectPtrItems(tcx, ptrs[j..]))
    decreases Bound(tcx, ptrs), 0, |ptrs| - j
  {
    if j < |ptrs| {
      assert ptrs[j..][0] == ptrs[j] && ptrs[j..][1..] == ptrs[j + 1..];
      OneOccurrencePerWay(tcx, ptrs[j]);
      OneOccurrencePerWayFrom(tcx, ptrs, j + 1);
      PrefixEnumerates(tcx, ptrs, j, Ways(tcx, ptrs[j]), CollectAllocItems(tcx, ptrs[j]),
                       WaysFrom(tcx, ptrs, j + 1), CollectPtrItems(tcx, ptrs[j + 1..]));
    } else {
      forall way: seq<nat> | |way| > 0 && way[0] >= j ensures ListedIfLeadingFrom(tcx, ptrs, [], way) {
      }
    }
  }

  lemma PrefixEnumerates(tcx: Tcx, ptrs: seq<AllocId>, j: nat, here: seq<seq<nat>>, items: seq<MonoItem>,
                         rest: seq<seq<nat>>, restItems: seq<MonoItem>)
    requires j < |ptrs| && |here| == |items| && NoDuplicates(here)
    requires forall k :: 0 <= k < |here| ==> Follow(tcx, ptrs[j], here[k]) == Some(items[k])
    requires ListsAll(tcx, ptrs[j], here)
    requires Enumerates(tcx, ptrs, j + 1, rest, restItems)
    ensures Enumerates(tcx, ptrs, j, Prefixed(j, here) + rest, items + restItems)
  {
    var all, allItems := Prefixed(j, here) + rest, items + restItems;
    forall k | 0 <= k < |all| ensures LeadsAt(tcx, ptrs, j, all, allItems, k) {
      if k < |here| {
        FollowPrefixed(tcx, ptrs, j, here[k]);
      } else {
        assert LeadsAt(tcx, ptrs, j + 1, rest, restItems, k - |here|);
      }
    }
    forall k | 0 <= k < |rest| ensures |rest[k]| > 0 && rest[k][0] > j {
      assert LeadsAt(tcx, ptrs, j + 1, rest, restItems, k);
    }
    PrefixedNoDuplicates(j, here, rest);
    forall way: seq<nat> | |way| > 0 && way[0] >= j ensures ListedIfLeadingFrom(tcx, ptrs, Prefixed(j, here) + rest, way) {
      if way[0] == j {
        PrefixedComplete(tcx, ptrs, j, here, way);
      } else {
        assert ListedIfLeadingFrom(tcx, ptrs, rest, way);
      }
    }
  }

  lemma PrefixedComplete(tcx: Tcx, ptrs: seq<AllocId>, j: nat, here: seq<seq<nat>>, way: seq<nat>)
    requires j < |ptrs| && |way| > 0 && way[0] == j
    requires ListsAll(tcx, ptrs[j], here)
    ensures ListedIfLeadingFrom(tcx, ptrs, Prefixed(j, here), way)
  {
    assert ListedIfLeading(tcx, ptrs[j], here, way[1..]);
    if way[1..] in here {
      PrefixedHolds(j, here, way);
    }
  }

  lemma FollowPrefixed(tcx: Tcx, ptrs: seq<AllocId>, j: nat, way: seq<nat>)
    requires j < |ptrs|
    ensures FollowFrom(tcx, ptrs, [j] + way) == Follow(tcx, ptrs[j], way)
  {
    assert ([j] + way)[1..] == way;
  }

  lemma PrefixedNoDuplicates(j: nat, here: seq<seq<nat>>, rest: seq<seq<nat>>)
    requires NoDuplicates(here) && NoDuplicates(rest)
    requires forall k :: 0 <= k < |rest| ==> |rest[k]| > 0 && rest[k][0] > j
    ensures NoDuplicates(Prefixed(j, here) + rest)
  {
    var first := Prefixed(j, here);
    forall k, l | 0 <= k < l < |first + rest| ensures (first + rest)[k] != (first + rest)[l] {
      if l < |first| {
        assert first[k][1..] == here[k] && first[l][1..] == here[l];
      } else if k < |first| {
        assert first[k][0] == j;
      }
    }
  }

  lemma PrefixedHolds(j: nat, here: seq<seq<nat>>, way: seq<nat>)
    requires |way| > 0 && way[0] == j && way[1..] in here
    ensures way in Prefixed(j, here)
  {
    var k :| 0 <= k < |here| && here[k] == way[1..];
    assert way == [j] + way[1..] == Prefixed(j, here)[k];
  }

  // ----- What a pointer can lead to at run time

  /** One hop of provenance, through named statics as well as through everything looked through.
      A foreign static has no initializer here. */
  ghost predicate ProvenanceHop(tcx: Tcx, a: AllocId, b: AllocId) {
    || b in LooksThrough(tcx, a)
    || (&& tcx.globalAlloc(a).StaticAlloc?
        && IsLocalStatic(tcx, tcx.globalAlloc(a).def)
        && b in tcx.evalInitializer(tcx.globalAlloc(a).def).ptrs)
  }

  ghost function ProvenanceRel(tcx: Tcx): (AllocId, AllocId) -> bool {
    (a: AllocId, b: AllocId) => ProvenanceHop(tcx, a, b)
  }
}
