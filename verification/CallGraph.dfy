/** The call graph and the two traversals that run over it. */
module CallGraphs {
  import opened Wrappers
  import opened Ordering
  import opened Mir
  import opened EdgeLog
  import opened Callees
  import opened Slices

  /** A set that remembers the order of insertion. */
  class IndexSet {
    var items: seq<Instance>

    constructor ()
      ensures items == [] && Valid()
    {
      items := [];
    }

    ghost predicate Valid() reads this {
      NoDuplicates(items)
    }

    ghost function Contents(): set<Instance> reads this {
      set x | x in items
    }

    method Insert(x: Instance) returns (inserted: bool)
      requires Valid()
      modifies this
      ensures Valid()
      ensures inserted <==> x !in old(items)
      ensures items == if inserted then old(items) + [x] else old(items)
    {
      inserted := x !in items;
      if inserted {
        items := items + [x];
      }
    }
  }

  class CallGraph {
    var nodes: set<MonoItem>
    var edges: Adjacency
    var backEdges: Adjacency
    ghost var log: seq<Edge>

    ghost predicate Valid() reads this {
      Records(nodes, edges, backEdges, log)
    }

    constructor ()
      ensures Valid() && nodes == {} && log == []
    {
      nodes, edges, backEdges, log := {}, map[], map[], [];
    }

    method AddNode(item: MonoItem)
      requires Valid()
      modifies this
      ensures Valid() && nodes == old(nodes) + {item} && log == old(log)
    {
      nodes := nodes + {item};
      edges := OrDefault(edges, item);
      backEdges := OrDefault(backEdges, item);
    }

    method AddEdge(from: MonoItem, to: MonoItem, reason: CollectionReason)
      requires Valid()
      modifies this
      ensures Valid() && nodes == old(nodes) + {from, to} && log == old(log) + [Edge(from, to, reason)]
    {
      AddNode(from);
      AddNode(to);
      assert nodes == old(nodes) + {from, to} && log == old(log);
      RecordsEdge(nodes, edges, backEdges, log, Edge(from, to, reason));
      edges, backEdges, log :=
        Push(edges, from, CollectedItem(to, reason)),
        Push(backEdges, to, CollectedItem(from, reason)),
        log + [Edge(from, to, reason)];
    }

    method AddEdges(from: MonoItem, to: seq<CollectedItem>)
      requires Valid()
      modifies this
      ensures Valid()
      ensures nodes == old(nodes) + {from} + ItemsOf(to)
      ensures log == old(log) + EdgesFrom(from, to)
    {
      AddNode(from);
      for k := 0 to |to|
        invariant Valid()
        invariant nodes == old(nodes) + {from} + ItemsOf(to[..k])
        invariant log == old(log) + EdgesFrom(from, to[..k])
      {
        AddEdge(from, to[k].item, to[k].reason);
        AddedSoFar(from, to, k);
      }
      assert to[..|to|] == to;
    }

    /** The functions that are nodes of the graph. */
    ghost function Functions(): set<Instance> reads this {
      set n | n in nodes && n.Fn? :: n.instance
    }

    /** Adds to `callees` the functions at the ends of non-empty paths of functions from `item`
        that avoid the functions already there. Fails where `item` is not in the graph. */
    method RecursiveCallees(item: MonoItem, callees: IndexSet) returns (r: Outcome<Panic>)
      requires Valid() && callees.Valid()
      modifies callees
      ensures callees.Valid() && old(callees.items) <= callees.items
      ensures r == if item in nodes then Pass else Fail(NotInCallGraph)
      ensures r.Fail? ==> callees.items == old(callees.items)
      ensures r.Pass? ==> AddsWhitePaths(edges, old(callees.Contents()), item, callees.Contents())
      ensures r.Pass? ==> Discovered(edges, item, callees.items, |old(callees.items)|)
      decreases Functions() - callees.Contents()
    {
      if item !in edges {
        return Fail(NotInCallGraph);
      }
      var successors := edges[item];
      ghost var before := callees.Contents();
      for k := 0 to |successors|
        invariant callees.Valid() && old(callees.items) <= callees.items
        invariant Explored(edges, item, before, callees.Contents(), successors[..k])
        invariant Discovered(edges, item, callees.items, |old(callees.items)|)
      {
        var callee := successors[k].item;
        ghost var soFar, soFarItems := callees.Contents(), callees.items;
        assert successors[..k + 1] == successors[..k] + [successors[k]];
        match callee {
          case Fn(instance) =>
            var inserted := callees.Insert(instance);
            if inserted {
              assert callees.Contents() == soFar + {instance};
              assert HasEdge(edges, item, callee);
              SuccessorIsNode(nodes, edges, backEdges, log, item, successors[k]);
              assert instance in Functions() && instance !in soFar;
              ghost var extended := callees.items;
              assert extended[..|extended| - 1] == soFarItems;
              var _ := RecursiveCallees(callee, callees);
              DiscoveredNested(edges, item, extended, callees.items, |old(callees.items)|);
              ExploredInserted(edges, item, before, soFar, successors[..k], successors[k], callees.Contents());
            } else {
              assert callees.Contents() == soFar;
              ExploredKnown(edges, item, before, soFar, successors[..k], successors[k]);
            }
          case _ => ExploredKnown(edges, item, before, soFar, successors[..k], successors[k]);
        }
      }
      assert successors[..|successors|] == successors;
      ExploredAll(edges, item, before, callees.Contents());
      return Pass;
    }

    /** The nodes with a path to a node in `start`. */
    method Slice(start: seq<MonoItem>) returns (visited: set<MonoItem>)
      requires Valid() && forall n :: n in start ==> n in nodes
      ensures visited <= nodes
      ensures forall n :: n in visited <==> InSlice(edges, Elements(start), n)
    {
      ghost var seeds := Elements(start);
      var queue := start;
      visited := {};
      SlicedStart(edges, seeds);
      while queue != []
        invariant visited <= nodes && Elements(queue) <= nodes
        invariant Sliced(edges, seeds, visited, Elements(queue))
        decreases nodes - visited, |queue|
      {
        var toVisit, rest := queue[|queue| - 1], queue[..|queue| - 1];
        ElementsPop(queue);
        if toVisit in visited {
          SlicedSkip(edges, seeds, visited, Elements(rest), toVisit);
          queue := rest;
        } else {
          var predecessors := Items(backEdges[toVisit]);
          forall u ensures u in predecessors <==> HasEdge(edges, u, toVisit) {
            EdgesStayInside(u, toVisit);
          }
          assert Elements(predecessors) <= nodes;
          SlicedVisit(edges, seeds, visited, Elements(rest), toVisit, Elements(predecessors));
          ElementsAppend(rest, predecessors);
          visited, queue := visited + {toVisit}, rest + predecessors;
        }
      }
      SlicedAll(edges, seeds, visited);
    }

    /** Prints the nodes that may have led to the discovery of a node whose name contains `target`,
        and the edges between them: each node once, and each edge as often as it occurs. */
    method DumpReason(display: MonoItem -> string, target: string) returns (lines: seq<Line>)
      requires Valid()
      ensures PrintsSlice(edges, Matching(nodes, display, target), lines)
      ensures PrintsBlocks(edges, Matching(nodes, display, target), lines)
    {
      forall s {
        IsSubstringExactly(target, s);
      }
      var start := Enumerate(set n | n in nodes && IsSubstring(target, display(n)));
      assert Elements(start) == Matching(nodes, display, target);
      var visited := Slice(start);
      lines := PrintSlice(visited);
    }

    method PrintSlice(visited: set<MonoItem>) returns (lines: seq<Line>)
      requires Valid() && visited <= nodes
      ensures forall n :: multiset(lines)[NodeLine(n)] == if n in visited then 1 else 0
      ensures forall u, v, reason :: multiset(lines)[EdgeLine(u, v, reason)] ==
                if u in visited && v in visited then multiset(Get(edges, u))[CollectedItem(v, reason)] else 0
      ensures InBlocks(edges, visited, lines)
    {
      var rest := visited;
      ghost var order: seq<MonoItem> := [];
      lines := [];
      while rest != {}
        invariant rest <= visited && Elements(order) == visited - rest
        invariant NoDuplicates(order)
        invariant forall n :: n in order ==> n in edges
        invariant lines == Blocks(edges, order, visited)
        decreases rest
      {
        var node :| node in rest;
        rest := rest - {node};
        assert node !in Elements(order);
        BlocksSnoc(edges, order, node, visited);
        assert Elements(order) + {node} == visited - rest;
        lines := lines + [NodeLine(node)] + EdgeLines(node, edges[node], visited);
        order := order + [node];
      }
      BlocksOfSlice(edges, order, visited);
    }

    /** The back edges are the exact transpose of the edges, multiplicity included. */
    lemma ExactTranspose(u: MonoItem, v: MonoItem, reason: CollectionReason)
      requires Valid() && u in nodes && v in nodes
      ensures multiset(edges[u])[CollectedItem(v, reason)] == multiset(backEdges[v])[CollectedItem(u, reason)]
    {
      LogMultiplicity(log, u, v, reason);
    }

    /** There are as many edges as back edges, and as many of each as were added. */
    lemma EqualTotals()
      requires Valid()
      ensures Sum(nodes, Degree(edges)) == Sum(nodes, Degree(backEdges)) == |log|
    {
      forall e | e in log ensures e.from in nodes && e.to in nodes {
        LoggedInside(nodes, edges, backEdges, log, e);
      }
      LogTotals(log, nodes);
      var added := log;
      SumAgrees(nodes, Degree(edges), (n: MonoItem) => |Out(added, n)|);
      SumAgrees(nodes, Degree(backEdges), (n: MonoItem) => |In(added, n)|);
    }

    /** Every edge leads to a node, and the back edges are the same edges turned around. */
    lemma EdgesStayInside(u: MonoItem, v: MonoItem)
      requires Valid()
      ensures HasEdge(edges, u, v) ==> v in nodes
      ensures HasEdge(edges, u, v) <==> HasEdge(backEdges, v, u)
    {
      forall c ensures u in nodes && c in edges[u] && c.item == v ==> v in nodes && HasEdge(backEdges, v, u) {
        EntryIsLogged(log, u, v, c.reason);
      }
      forall c ensures v in nodes && c in backEdges[v] && c.item == u ==> HasEdge(edges, u, v) {
        EntryIsLogged(log, u, v, c.reason);
      }
    }
  }
}
