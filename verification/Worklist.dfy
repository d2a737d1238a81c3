/** The worklist that visits every item reachable from the starting points, once. */
module Worklist {
  import opened Wrappers
  import opened Paths
  import opened Ordering
  import opened Mir
  import opened Allocations
  import opened EdgeLog
  import opened CallGraphs
  import opened Collector
  import opened Fixpoint

  class MonoItemsCollector {
    const tcx: Tcx
    var collected: set<MonoItem>
    var queue: seq<MonoItem>
    const callGraph: CallGraph
    ghost var roots: set<MonoItem>

    ghost predicate Valid()
      reads this, callGraph
    {
      && WellFormed(tcx)
      && callGraph.Valid()
      && Progress(VisitOf(tcx), roots, collected, queue, callGraph.nodes, callGraph.log)
    }

    constructor (tcx: Tcx)
      requires WellFormed(tcx)
      ensures Valid() && fresh(callGraph)
      ensures this.tcx == tcx && roots == {} && collected == {} && queue == []
    {
      this.tcx := tcx;
      callGraph := new CallGraph();
      collected, queue, roots := {}, [], {};
    }

    /** Collects everything reachable from one more starting point. Succeeds exactly if no visit of
        a reachable item panics. */
    method Collect(instance: Instance, ghost universe: set<MonoItem>) returns (r: Outcome<Panic>)
      requires Valid() && queue == []
      requires Closed(FindsRel(VisitOf(tcx)), universe) && roots + {Fn(instance)} <= universe
      modifies this, callGraph
      ensures roots == old(roots) + {Fn(instance)}
      ensures r.Pass? <==> AllVisitsOk(VisitOf(tcx), roots)
      ensures r.Pass? ==> Valid() && queue == [] && Complete(VisitOf(tcx), roots, collected, callGraph.edges)
    {
      ProgressRoot(VisitOf(tcx), roots, collected, Fn(instance), callGraph.nodes, callGraph.log);
      assert [] + [Fn(instance)] == [Fn(instance)];
      queue := queue + [Fn(instance)];
      roots := roots + {Fn(instance)};
      r := ReachableItems(universe);
      if r.Pass? {
        ProgressComplete(VisitOf(tcx), roots, collected,
                         callGraph.nodes, callGraph.edges, callGraph.backEdges, callGraph.log);
      }
    }

    method ReachableItems(ghost universe: set<MonoItem>) returns (r: Outcome<Panic>)
      requires Valid()
      // The reachable items are among finitely many, as they are whenever compilation ends.
      requires Closed(FindsRel(VisitOf(tcx)), universe) && roots <= universe
      modifies `collected, `queue, callGraph
      ensures r.Pass? <==> AllVisitsOk(VisitOf(tcx), roots)
      ensures r.Pass? ==> Valid() && queue == []
    {
      while queue != []
        invariant Valid()
        decreases universe - collected, |queue|
      {
        var found := VisitNext(universe);
        if found.Err? { return Fail(found.error); }
      }
      ProgressDone(VisitOf(tcx), roots, collected, queue, callGraph.nodes, callGraph.log);
      return Pass;
    }

    /** One iteration: takes an item off the queue and, unless it was collected before, visits it,
        records what the visit finds as its edges, and queues those findings not yet collected, in
        order and with repetitions. Returns what was found. */
    method VisitNext(ghost universe: set<MonoItem>) returns (r: Result<seq<CollectedItem>, Panic>)
      requires Valid() && queue != []
      requires Closed(FindsRel(VisitOf(tcx)), universe) && roots <= universe
      modifies `collected, `queue, callGraph
      ensures r.Ok? <==> old(queue[|queue| - 1] in collected) || VisitOf(tcx)(old(queue[|queue| - 1])).Some?
      ensures r.Err? ==> !AllVisitsOk(VisitOf(tcx), roots)
      ensures old(queue[|queue| - 1]) in universe
      ensures r.Ok? ==> Valid() && collected == old(collected + {queue[|queue| - 1]})
      ensures r.Ok? ==> queue == old(queue[..|queue| - 1]) + NotCollected(r.value, collected)
      ensures r.Ok? ==> if old(queue[|queue| - 1] in collected) then r.value == []
                        else VisitOf(tcx)(old(queue[|queue| - 1])) == Some(multiset(r.value))
    {
      var toVisit, rest := queue[|queue| - 1], queue[..|queue| - 1];
      PopLast(queue);
      QueuedIsReachable(VisitOf(tcx), roots, collected, queue, universe, toVisit);
      queue := rest;
      if toVisit in collected {
        ProgressSkip(VisitOf(tcx), roots, collected, rest, toVisit, callGraph.nodes, callGraph.log);
        AddMember(collected, toVisit);
        return Ok([]);
      }
      r := VisitNew(toVisit);
    }

    method VisitNew(toVisit: MonoItem) returns (r: Result<seq<CollectedItem>, Panic>)
      requires WellFormed(tcx) && callGraph.Valid() && toVisit !in collected
      requires Progress(VisitOf(tcx), roots, collected, queue + [toVisit], callGraph.nodes, callGraph.log)
      modifies `collected, `queue, callGraph
      ensures VisitOf(tcx)(toVisit) == if r.Ok? then Some(multiset(r.value)) else None
      ensures r.Ok? ==> Valid() && collected == old(collected) + {toVisit}
      ensures r.Ok? ==> queue == old(queue) + NotCollected(r.value, old(collected) + {toVisit})
    {
      ghost var before := collected;
      collected := collected + {toVisit};
      r := Visit(toVisit);
      if r.Err? {
        return;
      }
      var newItems := NotCollected(r.value, collected);
      ProgressVisit(VisitOf(tcx), roots, before, queue, toVisit,
                    callGraph.nodes, callGraph.log, r.value, queue + newItems);
      callGraph.AddEdges(toVisit, r.value);
      queue := queue + newItems;
      assert callGraph.Valid();
    }

    method Visit(item: MonoItem) returns (r: Result<seq<CollectedItem>, Panic>)
      requires WellFormed(tcx)
      ensures VisitOf(tcx)(item) == if r.Ok? then Some(multiset(r.value)) else None
    {
      match item {
        case Fn(instance) => r := VisitFn(instance);
        case Static(def) =>
          var found := VisitStatic(def);
          r := Ok(found);
        case GlobalAsm(_) => r := Ok([]);
      }
    }

    method VisitFn(instance: Instance) returns (r: Result<seq<CollectedItem>, Panic>)
      requires WellFormed(tcx)
      ensures r.Ok? <==> VisitOk(tcx, Fn(instance))
      ensures r.Ok? ==> multiset(r.value) == Successors(tcx, Fn(instance))
    {
      var body := tcx.body(instance);
      if body.None? {
        return Ok([]);
      }
      var collector := new MonoItemsFnCollector(tcx);
      var visit := collector.VisitBody(body.value);
      if visit.Fail? {
        return Err(visit.error);
      }
      var found := Enumerate(collector.collected);
      assert {} + BodyItems(tcx, body.value) == BodyItems(tcx, body.value);
      return Ok(found);
    }

    method VisitStatic(def: StaticDef) returns (found: seq<CollectedItem>)
      requires WellFormed(tcx)
      ensures found == StaticItems(tcx, def)
    {
      found := [];
      if !tcx.isAnonStatic(def) {
        var drop := tcx.resolveDropInPlace(tcx.staticTy(def));
        found := [CollectedItem(Fn(drop), StaticDrop)];
        var ptrs := tcx.evalInitializer(def).ptrs;
        for k := 0 to |ptrs|
          invariant found == [CollectedItem(Fn(drop), StaticDrop)] + WithStaticReason(CollectPtrItems(tcx, ptrs[..k]))
        {
          StaticItemsSnoc(tcx, ptrs, k);
          found := found + WithStaticReason(CollectAllocItems(tcx, ptrs[k]));
        }
        assert ptrs[..|ptrs|] == ptrs;
      }
    }
  }

  lemma StaticItemsSnoc(tcx: Tcx, ptrs: seq<AllocId>, k: nat)
    requires WellFormed(tcx) && k < |ptrs|
    ensures WithStaticReason(CollectPtrItems(tcx, ptrs[..k + 1]))
         == WithStaticReason(CollectPtrItems(tcx, ptrs[..k])) + WithStaticReason(CollectAllocItems(tcx, ptrs[k]))
  {
    CollectPtrItemsSnoc(tcx, ptrs, k);
  }

  lemma PopLast<T>(s: seq<T>)
    requires s != []
    ensures s == s[..|s| - 1] + [s[|s| - 1]]
  {
  }

  lemma AddMember<T>(s: set<T>, x: T)
    requires x in s
    ensures s + {x} == s
  {
  }

  /** The items found that are not yet collected, in order and with repetitions. */
  function NotCollected(found: seq<CollectedItem>, collected: set<MonoItem>): (r: seq<MonoItem>)
    ensures forall y :: y in r <==> y in ItemsOf(found) && y !in collected
  {
    if found == [] then [] else
      assert found == [found[0]] + found[1..];
      (if found[0].item in collected then [] else [found[0].item]) + NotCollected(found[1..], collected)
  }

  /** New items are queued in the order in which they were found, with repetitions. */
  lemma {:induction false} NotCollectedInOrder(found: seq<CollectedItem>, more: seq<CollectedItem>, c: CollectedItem,
                                               collected: set<MonoItem>)
    ensures NotCollected(found + more, collected) == NotCollected(found, collected) + NotCollected(more, collected)
    ensures NotCollected([c], collected) == if c.item in collected then [] else [c.item]
  {
    assert [c][1..] == [];
    if found == [] {
      assert found + more == more;
    } else {
      assert (found + more)[1..] == found[1..] + more;
      NotCollectedInOrder(found[1..], more, c, collected);
    }
  }

  // ----- All starting points

  function FunctionsOf(instances: seq<Instance>): set<MonoItem> {
    set i | i in instances :: Fn(i)
  }

  ghost function ByFingerprint(tcx: Tcx): (MonoItem, MonoItem) -> bool {
    (x, y) => tcx.fingerprint(x) <= tcx.fingerprint(y)
  }

  /** Everything reachable from the starting points, sorted by fingerprint, with the call graph. */
  method CollectReachableItems(tcx: Tcx, startingPoints: seq<Instance>, ghost universe: set<MonoItem>)
    returns (r: Result<seq<MonoItem>, Panic>, callGraph: CallGraph)
    requires WellFormed(tcx)
    requires Closed(FindsRel(VisitOf(tcx)), universe) && FunctionsOf(startingPoints) <= universe
    ensures fresh(callGraph)
    ensures r.Ok? <==> AllVisitsOk(VisitOf(tcx), FunctionsOf(startingPoints))
    ensures r.Ok? ==>
              && (forall i, j :: 0 <= i < j < |r.value| ==> tcx.fingerprint(r.value[i]) <= tcx.fingerprint(r.value[j]))
              && NoDuplicates(r.value)
              && callGraph.Valid()
              && Complete(VisitOf(tcx), FunctionsOf(startingPoints), Elements(r.value), callGraph.edges)
  {
    var collector := new MonoItemsCollector(tcx);
    callGraph := collector.callGraph;
    for k := 0 to |startingPoints|
      invariant collector.tcx == tcx && collector.callGraph == callGraph
      invariant fresh(collector) && fresh(callGraph)
      invariant collector.Valid() && collector.queue == []
      invariant collector.roots == FunctionsOf(startingPoints[..k])
    {
      FunctionsOfSnoc(startingPoints, k);
      var c := collector.Collect(startingPoints[k], universe);
      if c.Fail? {
        FewerVisits(VisitOf(tcx), collector.roots, FunctionsOf(startingPoints));
        return Err(c.error), callGraph;
      }
    }
    assert startingPoints[..|startingPoints|] == startingPoints;
    ProgressComplete(VisitOf(tcx), collector.roots, collector.collected,
                     callGraph.nodes, callGraph.edges, callGraph.backEdges, callGraph.log);
    var sorted := SortedByFingerprint(tcx, collector.collected);
    assert forall i, j :: 0 <= i < j < |sorted| ==> ByFingerprint(tcx)(sorted[i], sorted[j]);
    return Ok(sorted), callGraph;
  }

  /** Lists the items by ascending fingerprint; the order among equal fingerprints is arbitrary. */
  method SortedByFingerprint(tcx: Tcx, items: set<MonoItem>) returns (sorted: seq<MonoItem>)
    ensures Sorted(ByFingerprint(tcx), sorted) && Elements(sorted) == items
    ensures NoDuplicates(sorted)
  {
    var listed := Enumerate(items);
    sorted := SortBy((x, y) => tcx.fingerprint(x) <= tcx.fingerprint(y), listed);
    SortKeepsDistinct(ByFingerprint(tcx), listed, sorted);
    ElementsAre(sorted, items);
  }

  lemma ElementsAre(s: seq<MonoItem>, items: set<MonoItem>)
    requires forall x :: x in s <==> x in items
    ensures Elements(s) == items
  {
  }

  lemma FunctionsOfSnoc(s: seq<Instance>, k: nat)
    requires k < |s|
    ensures FunctionsOf(s[..k + 1]) == FunctionsOf(s[..k]) + {Fn(s[k])}
    ensures FunctionsOf(s[..k + 1]) <= FunctionsOf(s)
  {
    assert s[..k + 1] == s[..k] + [s[k]];
    assert forall i :: i in s[..k + 1] <==> i in s[..k] || i == s[k];
  }

  lemma FewerVisits(visit: Visit, a: set<MonoItem>, b: set<MonoItem>)
    requires a <= b && !AllVisitsOk(visit, a)
    ensures !AllVisitsOk(visit, b)
  {
    var x :| Reachable(visit, a, x) && visit(x).None?;
    MoreRootsReachMore(visit, a, b, x);
  }

  lemma SortKeepsDistinct<T(!new)>(le: (T, T) -> bool, s: seq<T>, t: seq<T>)
    requires multiset(s) == multiset(t)
    requires NoDuplicates(s)
    ensures NoDuplicates(t)
    ensures forall x :: x in s <==> x in t
  {
    forall x ensures x in s <==> x in t {
      assert x in s <==> x in multiset(s);
      assert x in t <==> x in multiset(t);
    }
    forall i, j | 0 <= i < j < |t| ensures t[i] != t[j] {
      if t[i] == t[j] {
        assert t == t[..j] + [t[j]] + t[j + 1..];
        assert t[..j][i] == t[i];
        assert t[i] in multiset(t[..j]);
        assert multiset(t)[t[i]] >= 2;
        NoDuplicatesCount(s, t[i]);
      }
    }
  }
}
