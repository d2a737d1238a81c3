/** The functions reachable through functions, and the depth-first traversal that finds them. */
module Callees {
  import opened Paths
  import opened Mir
  import opened EdgeLog

  /** An edge to a function that is not to be avoided. */
  ghost function WhiteRel(edges: Adjacency, avoid: set<Instance>): (MonoItem, MonoItem) -> bool {
    (u, v) => HasEdge(edges, u, v) && v.Fn? && v.instance !in avoid
  }

  /** A non-empty path leads from `item` to `f`, and every node on it after `item` is a function
      outside of `avoid`. */
  ghost predicate WhitePath(edges: Adjacency, avoid: set<Instance>, item: MonoItem, f: Instance) {
    ReachesPlus(WhiteRel(edges, avoid), item, Fn(f))
  }

  /** `after` is `before` and the functions on white paths around it from `item`. */
  ghost predicate AddsWhitePaths(edges: Adjacency, before: set<Instance>, item: MonoItem, after: set<Instance>) {
    && before <= after
    && forall f {:trigger WhitePath(edges, before, item, f)} ::
         f in after <==> f in before || WhitePath(edges, before, item, f)
  }

  /** The functions on non-empty paths of functions from `item`. */
  ghost predicate IsCallee(edges: Adjacency, item: MonoItem, f: Instance) {
    WhitePath(edges, {}, item, f)
  }

  /** What is closed under the white edges holds the ends of all white paths. */
  lemma {:induction false} WhiteClosure(edges: Adjacency, avoid: set<Instance>, item: MonoItem, f: Instance,
                                        c: set<Instance>)
    requires WhitePath(edges, avoid, item, f)
    requires forall g :: HasEdge(edges, item, Fn(g)) ==> g in c
    requires forall h, g :: h in c && h !in avoid && HasEdge(edges, Fn(h), Fn(g)) ==> g in c
    ensures f in c
  {
    var r := WhiteRel(edges, avoid);
    var p: seq<MonoItem> :| |p| >= 2 && IsPathBetween(r, p, item, Fn(f));
    var k := 1;
    assert r(p[0], p[0 + 1]);
    while k < |p| - 1
      invariant 1 <= k < |p| && p[k].Fn? && p[k].instance in c && p[k].instance !in avoid
    {
      assert r(p[k], p[k + 1]);
      assert HasEdge(edges, Fn(p[k].instance), Fn(p[k + 1].instance));
      k := k + 1;
    }
  }

  /** A white path around a larger set prolongs an edge to a white path around a smaller one. */
  lemma WhitePathExtends(edges: Adjacency, avoid: set<Instance>, avoid': set<Instance>, item: MonoItem,
                         g: Instance, f: Instance)
    requires avoid <= avoid' && g !in avoid
    requires HasEdge(edges, item, Fn(g)) && WhitePath(edges, avoid', Fn(g), f)
    ensures WhitePath(edges, avoid, item, f)
  {
    var r := WhiteRel(edges, avoid);
    var p: seq<MonoItem> :| |p| >= 2 && IsPathBetween(WhiteRel(edges, avoid'), p, Fn(g), Fn(f));
    forall i | 0 <= i < |p| - 1 ensures r(p[i], p[i + 1]) {
      assert WhiteRel(edges, avoid')(p[i], p[i + 1]);
    }
    assert IsPathBetween(r, p, Fn(g), Fn(f));
    ReachesCons(r, item, Fn(g), Fn(f));
  }

  lemma WhiteEdge(edges: Adjacency, avoid: set<Instance>, item: MonoItem, f: Instance)
    requires HasEdge(edges, item, Fn(f)) && f !in avoid
    ensures WhitePath(edges, avoid, item, f)
  {
    assert IsPathBetween(WhiteRel(edges, avoid), [item, Fn(f)], item, Fn(f));
  }

  lemma WhiteSnoc(edges: Adjacency, avoid: set<Instance>, item: MonoItem, g: Instance, f: Instance)
    requires WhitePath(edges, avoid, item, g) && HasEdge(edges, Fn(g), Fn(f)) && f !in avoid
    ensures WhitePath(edges, avoid, item, f)
  {
    ReachesSnoc(WhiteRel(edges, avoid), item, Fn(g), Fn(f));
  }

  /** What one recursive call leaves behind: with `g`, everything newly added is closed. */
  lemma WhiteSetClosed(edges: Adjacency, avoid: set<Instance>, g: Instance, after: set<Instance>)
    requires g in avoid && AddsWhitePaths(edges, avoid, Fn(g), after)
    ensures forall h, f {:trigger HasEdge(edges, Fn(h), Fn(f))} ::
              (h == g || (h in after && h !in avoid)) && HasEdge(edges, Fn(h), Fn(f)) ==> f in after
  {
    forall h, f | (h == g || (h in after && h !in avoid)) && HasEdge(edges, Fn(h), Fn(f)) && f !in avoid
      ensures WhitePath(edges, avoid, Fn(g), f)
    {
      if h == g {
        WhiteEdge(edges, avoid, Fn(g), f);
      } else {
        assert WhitePath(edges, avoid, Fn(g), h);
        WhiteSnoc(edges, avoid, Fn(g), h, f);
      }
    }
  }

  /** The traversal from `item` has visited the successors in `visited`, and `before` has grown
      to `c` meanwhile. */
  ghost predicate Explored(edges: Adjacency, item: MonoItem, before: set<Instance>, c: set<Instance>,
                           visited: seq<CollectedItem>) {
    && before <= c
    && (forall x :: x in visited && x.item.Fn? ==> x.item.instance in c)
    && (forall g, f {:trigger HasEdge(edges, Fn(g), Fn(f))} ::
          g in c && g !in before && HasEdge(edges, Fn(g), Fn(f)) ==> f in c)
    && (forall f {:trigger WhitePath(edges, before, item, f)} ::
          f in c && f !in before ==> WhitePath(edges, before, item, f))
  }

  lemma ExploredInserted(edges: Adjacency, item: MonoItem, before: set<Instance>, soFar: set<Instance>,
                         visited: seq<CollectedItem>, x: CollectedItem, after: set<Instance>)
    requires Explored(edges, item, before, soFar, visited)
    requires x.item.Fn? && x.item.instance !in soFar && HasEdge(edges, item, x.item)
    requires AddsWhitePaths(edges, soFar + {x.item.instance}, x.item, after)
    ensures Explored(edges, item, before, after, visited + [x])
  {
    var g := x.item.instance;
    WhiteSetClosed(edges, soFar + {g}, g, after);
    forall f | f in after && f !in soFar ensures WhitePath(edges, before, item, f) {
      if f == g {
        WhiteEdge(edges, before, item, f);
      } else {
        assert WhitePath(edges, soFar + {g}, Fn(g), f);
        WhitePathExtends(edges, before, soFar + {g}, item, g, f);
      }
    }
  }

  lemma ExploredKnown(edges: Adjacency, item: MonoItem, before: set<Instance>, c: set<Instance>,
                      visited: seq<CollectedItem>, x: CollectedItem)
    requires Explored(edges, item, before, c, visited)
    requires x.item.Fn? ==> x.item.instance in c
    ensures Explored(edges, item, before, c, visited + [x])
  {
  }

  lemma ExploredAll(edges: Adjacency, item: MonoItem, before: set<Instance>, c: set<Instance>)
    requires item in edges && Explored(edges, item, before, c, edges[item])
    ensures AddsWhitePaths(edges, before, item, c)
  {
    forall f | WhitePath(edges, before, item, f) ensures f in c {
      WhiteClosure(edges, before, item, f, c);
    }
  }

  // ----- One traversal after another

  ghost predicate ClosedUnderCalls(edges: Adjacency, c: set<Instance>) {
    forall h, g {:trigger HasEdge(edges, Fn(h), Fn(g))} :: h in c && HasEdge(edges, Fn(h), Fn(g)) ==> g in c
  }

  lemma WhitePathIsCallee(edges: Adjacency, avoid: set<Instance>, item: MonoItem, f: Instance)
    requires WhitePath(edges, avoid, item, f)
    ensures IsCallee(edges, item, f)
  {
    var p: seq<MonoItem> :| |p| >= 2 && IsPathBetween(WhiteRel(edges, avoid), p, item, Fn(f));
    forall i | 0 <= i < |p| - 1 ensures WhiteRel(edges, {})(p[i], p[i + 1]) {
      assert WhiteRel(edges, avoid)(p[i], p[i + 1]);
    }
    assert IsPathBetween(WhiteRel(edges, {}), p, item, Fn(f));
  }

  /** Traversals that share their set of callees accumulate: what an earlier one left is closed, and
      the next adds all the callees of its item, although it turns back at those found before. */
  lemma TraversalsAccumulate(edges: Adjacency, before: set<Instance>, item: MonoItem, after: set<Instance>)
    requires ClosedUnderCalls(edges, before) && AddsWhitePaths(edges, before, item, after)
    ensures ClosedUnderCalls(edges, after)
    ensures forall f :: f in after <==> f in before || IsCallee(edges, item, f)
  {
    forall h, g | h in after && HasEdge(edges, Fn(h), Fn(g)) ensures g in after {
      if h !in before && g !in before {
        assert WhitePath(edges, before, item, h);
        WhiteSnoc(edges, before, item, h, g);
      }
    }
    forall g | HasEdge(edges, item, Fn(g)) ensures g in after {
      if g !in before { WhiteEdge(edges, before, item, g); }
    }
    forall f ensures f in after <==> f in before || IsCallee(edges, item, f) {
      assert f in after <==> f in before || WhitePath(edges, before, item, f);
      if IsCallee(edges, item, f) {
        WhiteClosure(edges, {}, item, f, after);
      }
      if WhitePath(edges, before, item, f) {
        WhitePathIsCallee(edges, before, item, f);
      }
    }
  }

  // ----- The order of discovery

  /** Each function from position `from` on is called by `item` or by one listed before it. */
  ghost predicate Discovered(edges: Adjacency, item: MonoItem, items: seq<Instance>, from: nat) {
    forall i :: from <= i < |items| ==> DiscoveredAt(edges, item, items, from, i)
  }

  ghost predicate DiscoveredAt(edges: Adjacency, item: MonoItem, items: seq<Instance>, from: nat, i: nat)
    requires i < |items|
  {
    HasEdge(edges, item, Fn(items[i])) || exists j :: from <= j < i && HasEdge(edges, Fn(items[j]), Fn(items[i]))
  }

  lemma DiscoveredNested(edges: Adjacency, item: MonoItem, before: seq<Instance>, after: seq<Instance>, from: nat)
    requires |before| > from && before <= after
    requires Discovered(edges, item, before[..|before| - 1], from) && HasEdge(edges, item, Fn(before[|before| - 1]))
    requires Discovered(edges, Fn(before[|before| - 1]), after, |before|)
    ensures Discovered(edges, item, after, from)
  {
    var p := |before| - 1;
    forall i | from <= i < |after| ensures DiscoveredAt(edges, item, after, from, i) {
      if i < p {
        assert DiscoveredAt(edges, item, before[..p], from, i);
        assert after[i] == before[..p][i] && forall j :: 0 <= j < i ==> after[j] == before[..p][j];
      } else if i > p {
        assert DiscoveredAt(edges, Fn(before[p]), after, |before|, i);
        assert after[p] == before[p];
      }
    }
  }
}
