/** Worklist collection in the abstract: from a visit of single items to the least closed set. */
module Fixpoint {
  import opened Wrappers
  import opened Paths
  import opened Mir
  import opened EdgeLog
  import opened Slices

  /** What the visit of an item returns: the items found, or nothing if it panics. */
  type Visit = MonoItem -> Option<multiset<CollectedItem>>

  /** The visit of `x` finds `y`. */
  ghost predicate Finds(visit: Visit, x: MonoItem, y: MonoItem) {
    visit(x).Some? && exists c :: c in visit(x).value && c.item == y
  }

  ghost function FindsRel(visit: Visit): (MonoItem, MonoItem) -> bool {
    (x, y) => Finds(visit, x, y)
  }

  /** The item is reachable from the starting points. */
  ghost predicate Reachable(visit: Visit, roots: set<MonoItem>, item: MonoItem) {
    ReachesFrom(FindsRel(visit), roots, item)
  }

  ghost predicate AllVisitsOk(visit: Visit, roots: set<MonoItem>) {
    forall x {:trigger Reachable(visit, roots, x)} :: Reachable(visit, roots, x) ==> visit(x).Some?
  }

  // ----- The state between two visits

  /** Everything collected or queued is reachable, and no root is forgotten. */
  ghost predicate Tracked(visit: Visit, roots: set<MonoItem>, collected: set<MonoItem>, queue: seq<MonoItem>) {
    && (forall x {:trigger Reachable(visit, roots, x)} :: x in collected || x in queue ==> Reachable(visit, roots, x))
    && (forall x :: x in roots ==> x in collected || x in queue)
  }

  /** Whatever a visit found is collected or queued. */
  ghost predicate Swept(visit: Visit, collected: set<MonoItem>, queue: seq<MonoItem>) {
    forall x, y {:trigger Finds(visit, x, y)} :: x in collected && Finds(visit, x, y) ==> y in collected || y in queue
  }

  /** An item has been visited exactly once if it is collected, and its edges are then exactly what
      that visit found; otherwise it has none. */
  ghost predicate ExpandedAt(visit: Visit, collected: set<MonoItem>, log: seq<Edge>, x: MonoItem) {
    if x in collected then visit(x) == Some(multiset(Out(log, x))) else Out(log, x) == []
  }

  ghost predicate Expanded(visit: Visit, collected: set<MonoItem>, log: seq<Edge>) {
    forall x {:trigger ExpandedAt(visit, collected, log, x)} :: ExpandedAt(visit, collected, log, x)
  }

  ghost predicate Progress(visit: Visit, roots: set<MonoItem>, collected: set<MonoItem>, queue: seq<MonoItem>,
                           nodes: set<MonoItem>, log: seq<Edge>) {
    && Tracked(visit, roots, collected, queue)
    && Swept(visit, collected, queue)
    && Expanded(visit, collected, log)
    && collected <= nodes <= collected + Elements(queue)
  }

  /** When the queue is empty: the collected items are the reachable ones, all of them nodes of the
      graph, with the edges their visits found. */
  ghost predicate Complete(visit: Visit, roots: set<MonoItem>, collected: set<MonoItem>, edges: Adjacency) {
    && (forall x {:trigger Reachable(visit, roots, x)} :: x in collected <==> Reachable(visit, roots, x))
    && edges.Keys == collected
    && (forall x :: x in collected ==> visit(x) == Some(multiset(edges[x])))
  }

  lemma RootsReachable(visit: Visit, roots: set<MonoItem>, x: MonoItem)
    requires x in roots
    ensures Reachable(visit, roots, x)
  {
    ReachesSelf(FindsRel(visit), x);
  }

  lemma MoreRootsReachMore(visit: Visit, roots: set<MonoItem>, roots': set<MonoItem>, x: MonoItem)
    requires roots <= roots' && Reachable(visit, roots, x)
    ensures Reachable(visit, roots', x)
  {
    var root :| root in roots && Reaches(FindsRel(visit), root, x);
    assert root in roots';
  }

  lemma ReachableSuccessor(visit: Visit, roots: set<MonoItem>, x: MonoItem, y: MonoItem)
    requires Reachable(visit, roots, x) && Finds(visit, x, y)
    ensures Reachable(visit, roots, y)
  {
    var root :| root in roots && Reaches(FindsRel(visit), root, x);
    ReachesSnoc(FindsRel(visit), root, x, y);
  }

  lemma InUniverse(visit: Visit, roots: set<MonoItem>, universe: set<MonoItem>, x: MonoItem)
    requires Closed(FindsRel(visit), universe) && roots <= universe && Reachable(visit, roots, x)
    ensures x in universe
  {
    var root :| root in roots && Reaches(FindsRel(visit), root, x);
    ClosedHoldsReachable(FindsRel(visit), universe, root, x);
  }

  /** What is queued is within any closed set around the roots, and its panic is a reachable one. */
  lemma QueuedIsReachable(visit: Visit, roots: set<MonoItem>, collected: set<MonoItem>, queue: seq<MonoItem>,
                          universe: set<MonoItem>, x: MonoItem)
    requires Tracked(visit, roots, collected, queue) && x in queue
    requires Closed(FindsRel(visit), universe) && roots <= universe
    ensures x in universe
    ensures visit(x).None? ==> !AllVisitsOk(visit, roots)
  {
    assert Reachable(visit, roots, x);
    InUniverse(visit, roots, universe, x);
  }

  // ----- What one iteration keeps

  lemma FindsListed(visit: Visit, x: MonoItem, next: seq<CollectedItem>, y: MonoItem)
    requires visit(x) == Some(multiset(next))
    ensures Finds(visit, x, y) <==> y in ItemsOf(next)
  {
    assert forall c :: c in next <==> c in multiset(next);
  }

  lemma ExpandedVisit(visit: Visit, collected: set<MonoItem>, log: seq<Edge>, x: MonoItem, next: seq<CollectedItem>)
    requires Expanded(visit, collected, log)
    requires x !in collected && visit(x) == Some(multiset(next))
    ensures Expanded(visit, collected + {x}, log + EdgesFrom(x, next))
  {
    forall u ensures ExpandedAt(visit, collected + {x}, log + EdgesFrom(x, next), u) {
      assert ExpandedAt(visit, collected, log, u);
      OutAppend(log, x, next, u);
      assert [] + next == next && Out(log, u) + [] == Out(log, u);
    }
  }

  /** An item that was not collected before is visited, and what is new to the collection queued. */
  lemma ProgressVisit(visit: Visit, roots: set<MonoItem>, collected: set<MonoItem>, popped: seq<MonoItem>, x: MonoItem,
                      nodes: set<MonoItem>, log: seq<Edge>, next: seq<CollectedItem>, queue: seq<MonoItem>)
    requires Progress(visit, roots, collected, popped + [x], nodes, log)
    requires x !in collected && visit(x) == Some(multiset(next))
    requires forall y :: y in queue <==> y in popped || (y in ItemsOf(next) && y !in collected && y != x)
    ensures Progress(visit, roots, collected + {x}, queue, nodes + {x} + ItemsOf(next), log + EdgesFrom(x, next))
  {
    ExpandedVisit(visit, collected, log, x, next);
    assert forall y :: y in popped + [x] <==> y in popped || y == x;
    forall y ensures Finds(visit, x, y) <==> y in ItemsOf(next) {
      FindsListed(visit, x, next, y);
    }
    assert Reachable(visit, roots, x);
    forall y | y in ItemsOf(next) ensures Reachable(visit, roots, y) {
      ReachableSuccessor(visit, roots, x, y);
    }
    assert Tracked(visit, roots, collected + {x}, queue);
  }

  lemma ProgressSkip(visit: Visit, roots: set<MonoItem>, collected: set<MonoItem>, popped: seq<MonoItem>, x: MonoItem,
                     nodes: set<MonoItem>, log: seq<Edge>)
    requires Progress(visit, roots, collected, popped + [x], nodes, log) && x in collected
    ensures Progress(visit, roots, collected, popped, nodes, log)
  {
    assert forall y :: y in popped + [x] <==> y in popped || y == x;
  }

  lemma ProgressRoot(visit: Visit, roots: set<MonoItem>, collected: set<MonoItem>, x: MonoItem,
                     nodes: set<MonoItem>, log: seq<Edge>)
    requires Progress(visit, roots, collected, [], nodes, log)
    ensures Progress(visit, roots + {x}, collected, [x], nodes, log)
  {
    forall y | y in collected || y in [x] ensures Reachable(visit, roots + {x}, y) {
      if y == x {
        RootsReachable(visit, roots + {x}, x);
      } else {
        assert Reachable(visit, roots, y);
        MoreRootsReachMore(visit, roots, roots + {x}, y);
      }
    }
  }

  lemma ProgressComplete(visit: Visit, roots: set<MonoItem>, collected: set<MonoItem>, nodes: set<MonoItem>,
                         edges: Adjacency, backEdges: Adjacency, log: seq<Edge>)
    requires Progress(visit, roots, collected, [], nodes, log) && Records(nodes, edges, backEdges, log)
    ensures Complete(visit, roots, collected, edges) && AllVisitsOk(visit, roots)
  {
    forall x | Reachable(visit, roots, x) ensures x in collected {
      var root :| root in roots && Reaches(FindsRel(visit), root, x);
      ClosedHoldsReachable(FindsRel(visit), collected, root, x);
    }
    assert nodes == collected;
    forall x | x in collected ensures visit(x) == Some(multiset(edges[x])) {
      assert ExpandedAt(visit, collected, log, x) && Get(edges, x) == Out(log, x);
    }
  }

  lemma ProgressDone(visit: Visit, roots: set<MonoItem>, collected: set<MonoItem>, queue: seq<MonoItem>,
                     nodes: set<MonoItem>, log: seq<Edge>)
    requires Progress(visit, roots, collected, queue, nodes, log) && queue == []
    ensures AllVisitsOk(visit, roots)
  {
    forall x | Reachable(visit, roots, x) ensures visit(x).Some? {
      var root :| root in roots && Reaches(FindsRel(visit), root, x);
      ClosedHoldsReachable(FindsRel(visit), collected, root, x);
      assert ExpandedAt(visit, collected, log, x);
    }
  }

  // ----- What completeness means

  /** The collected set is the least one that holds the starting points and is closed. */
  lemma CollectedIsLeast(visit: Visit, roots: set<MonoItem>, collected: set<MonoItem>, edges: Adjacency)
    requires Complete(visit, roots, collected, edges)
    ensures roots <= collected && Closed(FindsRel(visit), collected)
    ensures forall other :: roots <= other && Closed(FindsRel(visit), other) ==> collected <= other
  {
    forall x | x in roots ensures x in collected {
      RootsReachable(visit, roots, x);
    }
    forall x, y | x in collected && FindsRel(visit)(x, y) ensures y in collected {
      assert Reachable(visit, roots, x);
      ReachableSuccessor(visit, roots, x, y);
    }
    forall other, x | roots <= other && Closed(FindsRel(visit), other) && x in collected ensures x in other {
      assert Reachable(visit, roots, x);
      InUniverse(visit, roots, other, x);
    }
  }

  /** A collected item is a starting point or was found by the visit of a collected item. */
  lemma FoundBySome(visit: Visit, roots: set<MonoItem>, collected: set<MonoItem>, edges: Adjacency, y: MonoItem)
    requires Complete(visit, roots, collected, edges) && y in collected
    ensures y in roots || exists x :: x in collected && Finds(visit, x, y)
  {
    assert Reachable(visit, roots, y);
    var root :| root in roots && Reaches(FindsRel(visit), root, y);
    var p :| IsPathBetween(FindsRel(visit), p, root, y);
    if |p| > 1 {
      CollectedIsLeast(visit, roots, collected, edges);
      ClosedHoldsPath(FindsRel(visit), collected, p, |p| - 2);
      assert FindsRel(visit)(p[|p| - 2], p[|p| - 2 + 1]);
    }
  }

  /** The edges of the graph are what the visits of the collected items find. */
  lemma EdgesAreFindings(visit: Visit, roots: set<MonoItem>, collected: set<MonoItem>, edges: Adjacency,
                         x: MonoItem, y: MonoItem)
    requires Complete(visit, roots, collected, edges)
    ensures HasEdge(edges, x, y) <==> x in collected && Finds(visit, x, y)
  {
    if x in collected {
      assert forall c :: c in edges[x] <==> c in multiset(edges[x]);
    }
  }

  /** Every collected item is explained: edges lead to it from a starting point, and so back edges
      lead from it to one. */
  lemma CollectedIsExplained(visit: Visit, roots: set<MonoItem>, collected: set<MonoItem>, edges: Adjacency, x: MonoItem)
    requires Complete(visit, roots, collected, edges) && x in collected
    ensures exists root :: root in roots && Reaches(EdgeRel(edges), root, x)
  {
    assert Reachable(visit, roots, x);
    var root :| root in roots && Reaches(FindsRel(visit), root, x);
    var p :| IsPathBetween(FindsRel(visit), p, root, x);
    CollectedIsLeast(visit, roots, collected, edges);
    forall i | 0 <= i < |p| - 1 ensures EdgeRel(edges)(p[i], p[i + 1]) {
      ClosedHoldsPath(FindsRel(visit), collected, p, i);
      EdgesAreFindings(visit, roots, collected, edges, p[i], p[i + 1]);
      assert FindsRel(visit)(p[i], p[i + 1]);
    }
    assert IsPathBetween(EdgeRel(edges), p, root, x);
  }

  /** A slice with any target at all holds a starting point. */
  lemma SliceHoldsStartingPoint(visit: Visit, roots: set<MonoItem>, collected: set<MonoItem>, edges: Adjacency,
                                seeds: set<MonoItem>, t: MonoItem)
    requires Complete(visit, roots, collected, edges) && t in seeds && t in collected
    ensures exists root :: root in roots && InSlice(edges, seeds, root)
  {
    CollectedIsExplained(visit, roots, collected, edges, t);
    var root :| root in roots && Reaches(EdgeRel(edges), root, t);
    assert InSlice(edges, seeds, root);
  }

  /** The starting points determine the collection and, but for the order of edges, the graph: it
      makes no difference in which order and in how many runs of the worklist they are collected. */
  lemma CompleteIsUnique(visit: Visit, roots: set<MonoItem>, collected: set<MonoItem>, edges: Adjacency,
                         collected': set<MonoItem>, edges': Adjacency)
    requires Complete(visit, roots, collected, edges) && Complete(visit, roots, collected', edges')
    ensures collected == collected' && edges.Keys == edges'.Keys
    ensures forall x :: x in edges ==> multiset(edges[x]) == multiset(edges'[x])
  {
    forall x ensures x in collected <==> x in collected' {
      assert x in collected <==> Reachable(visit, roots, x);
    }
    forall x | x in edges ensures multiset(edges[x]) == multiset(edges'[x]) {
      assert visit(x) == Some(multiset(edges[x])) && visit(x) == Some(multiset(edges'[x]));
    }
  }
}
