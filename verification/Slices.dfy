/** The nodes that lead to given nodes, the backward search that finds them, and their listing. */
module Slices {
  import opened Paths
  import opened Ordering
  import opened Mir
  import opened EdgeLog
  import opened Callees

  /** A path leads from `n` to some node in `seeds`. */
  ghost predicate InSlice(edges: Adjacency, seeds: set<MonoItem>, n: MonoItem) {
    exists t :: t in seeds && Reaches(EdgeRel(edges), n, t)
  }

  lemma SuffixReaches<T(!new)>(r: (T, T) -> bool, p: seq<T>, i: nat)
    requires IsPath(r, p) && i < |p|
    ensures Reaches(r, p[i], p[|p| - 1])
  {
    var q := p[i..];
    forall k | 0 <= k < |q| - 1 ensures r(q[k], q[k + 1]) {
      assert r(p[i + k], p[i + k + 1]);
    }
    assert IsPathBetween(r, q, p[i], p[|p| - 1]);
  }

  /** Forward and backward: a callee's slice holds the caller. Conversely, if the slice of `f` is made
      of functions but for the item itself, then `f` is a callee exactly if the item has an edge into
      the slice. */
  lemma CalleeSliceDuality(edges: Adjacency, item: MonoItem, callees: set<Instance>, f: Instance, visited: set<MonoItem>)
    requires AddsWhitePaths(edges, {}, item, callees)
    requires forall n :: n in visited <==> InSlice(edges, {Fn(f)}, n)
    ensures f in callees ==> item in visited
    ensures (forall n :: n in visited ==> n.Fn? || n == item) ==>
              (f in callees <==> exists n :: n in visited && HasEdge(edges, item, n))
  {
    assert f in callees <==> WhitePath(edges, {}, item, f);
    if f in callees {
      var n := CalleeInSlice(edges, item, f);
    }
    if n :| n in visited && HasEdge(edges, item, n) && forall u :: u in visited ==> u.Fn? || u == item {
      var t :| t in {Fn(f)} && Reaches(EdgeRel(edges), n, t);
      ReachesCons(EdgeRel(edges), item, n, t);
      var p: seq<MonoItem> :| |p| >= 2 && IsPathBetween(EdgeRel(edges), p, item, Fn(f));
      PathThroughSlice(edges, item, f, p);
    }
  }

  /** A callee is reached by way of one of the caller's edges. */
  lemma CalleeInSlice(edges: Adjacency, item: MonoItem, f: Instance) returns (n: MonoItem)
    requires IsCallee(edges, item, f)
    ensures HasEdge(edges, item, n) && InSlice(edges, {Fn(f)}, n) && InSlice(edges, {Fn(f)}, item)
  {
    var r, w := EdgeRel(edges), WhiteRel(edges, {});
    var p: seq<MonoItem> :| |p| >= 2 && IsPathBetween(w, p, item, Fn(f));
    forall i | 0 <= i < |p| - 1 ensures r(p[i], p[i + 1]) {
      assert w(p[i], p[i + 1]);
    }
    SuffixReaches(r, p, 0);
    SuffixReaches(r, p, 1);
    assert r(p[0], p[0 + 1]);
    n := p[1];
  }

  /** A path that leaves the functions comes back to the item, and can be cut there. */
  lemma {:induction false} PathThroughSlice(edges: Adjacency, item: MonoItem, f: Instance, p: seq<MonoItem>)
    requires |p| >= 2 && IsPathBetween(EdgeRel(edges), p, item, Fn(f))
    requires forall n :: InSlice(edges, {Fn(f)}, n) ==> n.Fn? || n == item
    ensures IsCallee(edges, item, f)
    decreases |p|
  {
    var r, w := EdgeRel(edges), WhiteRel(edges, {});
    if i :| 0 < i < |p| && !p[i].Fn? {
      SuffixReaches(r, p, i);
      assert InSlice(edges, {Fn(f)}, p[i]);
      forall k | 0 <= k < |p[i..]| - 1 ensures r(p[i..][k], p[i..][k + 1]) {
        assert r(p[i + k], p[i + k + 1]);
      }
      assert IsPathBetween(r, p[i..], item, Fn(f));
      PathThroughSlice(edges, item, f, p[i..]);
    } else {
      forall i | 0 <= i < |p| - 1 ensures w(p[i], p[i + 1]) {
        assert r(p[i], p[i + 1]);
      }
      assert IsPathBetween(w, p, item, Fn(f));
    }
  }

  /** What is closed under predecessors holds the start of every path into it. */
  lemma {:induction false} BackwardClosure<T(!new)>(r: (T, T) -> bool, s: set<T>, p: seq<T>, i: nat)
    requires forall u, v :: v in s && r(u, v) ==> u in s
    requires IsPath(r, p) && i < |p| && p[|p| - 1] in s
    ensures p[i] in s
    decreases |p| - i
  {
    if i < |p| - 1 {
      BackwardClosure(r, s, p, i + 1);
      assert r(p[i], p[i + 1]);
    }
  }

  // ----- The backward search

  /** The search from `seeds` has visited `visited` and still has `queue` to visit. */
  ghost predicate Sliced(edges: Adjacency, seeds: set<MonoItem>, visited: set<MonoItem>, queue: set<MonoItem>) {
    && (forall n {:trigger InSlice(edges, seeds, n)} :: n in visited + queue ==> InSlice(edges, seeds, n))
    && seeds <= visited + queue
    && (forall u, v {:trigger HasEdge(edges, u, v)} :: v in visited && HasEdge(edges, u, v) ==> u in visited + queue)
  }

  lemma SlicedStart(edges: Adjacency, seeds: set<MonoItem>)
    ensures Sliced(edges, seeds, {}, seeds)
  {
    forall n | n in seeds ensures InSlice(edges, seeds, n) {
      ReachesSelf(EdgeRel(edges), n);
    }
  }

  lemma SlicedSkip(edges: Adjacency, seeds: set<MonoItem>, visited: set<MonoItem>, rest: set<MonoItem>, n: MonoItem)
    requires Sliced(edges, seeds, visited, rest + {n}) && n in visited
    ensures Sliced(edges, seeds, visited, rest)
  {
    assert visited + (rest + {n}) == visited + rest;
  }

  lemma SlicedVisit(edges: Adjacency, seeds: set<MonoItem>, visited: set<MonoItem>, rest: set<MonoItem>,
                    n: MonoItem, predecessors: set<MonoItem>)
    requires Sliced(edges, seeds, visited, rest + {n})
    requires forall u :: u in predecessors <==> HasEdge(edges, u, n)
    ensures Sliced(edges, seeds, visited + {n}, rest + predecessors)
  {
    assert InSlice(edges, seeds, n);
    forall u | u in predecessors ensures InSlice(edges, seeds, u) {
      var t :| t in seeds && Reaches(EdgeRel(edges), n, t);
      ReachesCons(EdgeRel(edges), u, n, t);
    }
  }

  lemma SlicedAll(edges: Adjacency, seeds: set<MonoItem>, visited: set<MonoItem>)
    requires Sliced(edges, seeds, visited, {})
    ensures forall n :: n in visited <==> InSlice(edges, seeds, n)
  {
    forall n | InSlice(edges, seeds, n) ensures n in visited {
      var t :| t in seeds && Reaches(EdgeRel(edges), n, t);
      var p :| IsPathBetween(EdgeRel(edges), p, n, t);
      BackwardClosure(EdgeRel(edges), visited, p, 0);
    }
  }

  lemma ElementsPop(s: seq<MonoItem>)
    requires s != []
    ensures Elements(s) == Elements(s[..|s| - 1]) + {s[|s| - 1]}
  {
    assert s == s[..|s| - 1] + [s[|s| - 1]];
  }

  lemma ElementsAppend(s: seq<MonoItem>, t: seq<MonoItem>)
    ensures Elements(s + t) == Elements(s) + Elements(t)
  {
  }

  // ----- What is printed

  datatype Line = NodeLine(node: MonoItem) | EdgeLine(from: MonoItem, to: MonoItem, reason: CollectionReason)

  /** The edges of `u` that stay inside `nodes`, as lines. */
  function EdgeLines(u: MonoItem, out: seq<CollectedItem>, nodes: set<MonoItem>): seq<Line> {
    if out == [] then [] else
      var c := out[|out| - 1];
      EdgeLines(u, out[..|out| - 1], nodes) + if c.item in nodes then [EdgeLine(u, c.item, c.reason)] else []
  }

  /** Each node of `order` with its edges inside `nodes`. */
  ghost function Blocks(edges: Adjacency, order: seq<MonoItem>, nodes: set<MonoItem>): seq<Line>
    requires forall u :: u in order ==> u in edges
  {
    if order == [] then [] else
      var u := order[|order| - 1];
      Blocks(edges, order[..|order| - 1], nodes) + [NodeLine(u)] + EdgeLines(u, edges[u], nodes)
  }

  /** At position `k` stands the line of `u`, followed by those of its edges inside `nodes`. */
  ghost predicate BlockAt(edges: Adjacency, nodes: set<MonoItem>, lines: seq<Line>, u: MonoItem, k: nat) {
    var block := [NodeLine(u)] + EdgeLines(u, Get(edges, u), nodes);
    k + |block| <= |lines| && lines[k..k + |block|] == block
  }

  /** The lines come in blocks: each node, then at once its edges. */
  ghost predicate InBlocks(edges: Adjacency, nodes: set<MonoItem>, lines: seq<Line>) {
    forall u :: u in nodes ==> exists k: nat :: BlockAt(edges, nodes, lines, u, k)
  }

  /** Edges are kept in their order, and those that leave `nodes` are left out. */
  lemma {:induction false} EdgeLinesInOrder(u: MonoItem, out: seq<CollectedItem>, more: seq<CollectedItem>,
                                            c: CollectedItem, nodes: set<MonoItem>)
    ensures EdgeLines(u, out + more, nodes) == EdgeLines(u, out, nodes) + EdgeLines(u, more, nodes)
    ensures EdgeLines(u, [c], nodes) == if c.item in nodes then [EdgeLine(u, c.item, c.reason)] else []
    decreases |more|
  {
    assert [c][..0] == [] && EdgeLines(u, [], nodes) == [];
    if more == [] {
      assert out + more == out;
    } else {
      var init := more[..|more| - 1];
      assert (out + more)[..|out + more| - 1] == out + init;
      EdgeLinesInOrder(u, out, init, c, nodes);
    }
  }

  lemma {:induction false} BlocksHoldBlock(edges: Adjacency, order: seq<MonoItem>, nodes: set<MonoItem>, u: MonoItem)
    returns (k: nat)
    requires (forall v :: v in order ==> v in edges) && u in order
    ensures BlockAt(edges, nodes, Blocks(edges, order, nodes), u, k)
  {
    var init, v := order[..|order| - 1], order[|order| - 1];
    var before, block := Blocks(edges, init, nodes), [NodeLine(v)] + EdgeLines(v, edges[v], nodes);
    assert Blocks(edges, order, nodes) == before + block;
    if u in init {
      k := BlocksHoldBlock(edges, init, nodes, u);
      var here := [NodeLine(u)] + EdgeLines(u, Get(edges, u), nodes);
      assert (before + block)[k..k + |here|] == before[k..k + |here|];
    } else {
      assert order == init + [v];
      k := |before|;
      assert (before + block)[k..k + |block|] == block;
    }
  }

  lemma {:induction false} EdgeLinesMultiplicity(u: MonoItem, out: seq<CollectedItem>, nodes: set<MonoItem>, line: Line)
    ensures multiset(EdgeLines(u, out, nodes))[line] ==
            if line.EdgeLine? && line.from == u && line.to in nodes
            then multiset(out)[CollectedItem(line.to, line.reason)] else 0
  {
    if out != [] {
      assert out == out[..|out| - 1] + [out[|out| - 1]];
      EdgeLinesMultiplicity(u, out[..|out| - 1], nodes, line);
    }
  }

  /** Printed are each node once, and each edge between two of them as often as it occurs. */
  lemma {:induction false} BlocksMultiplicity(edges: Adjacency, order: seq<MonoItem>, nodes: set<MonoItem>, line: Line)
    requires forall u :: u in order ==> u in edges
    requires NoDuplicates(order)
    ensures multiset(Blocks(edges, order, nodes))[line] ==
            match line
            case NodeLine(n) => if n in order then 1 else 0
            case EdgeLine(u, v, reason) =>
              if u in order && v in nodes then multiset(edges[u])[CollectedItem(v, reason)] else 0
  {
    if order != [] {
      var init, u := order[..|order| - 1], order[|order| - 1];
      assert order == init + [u];
      BlocksMultiplicity(edges, init, nodes, line);
      EdgeLinesMultiplicity(u, edges[u], nodes, line);
    }
  }

  lemma BlocksSnoc(edges: Adjacency, order: seq<MonoItem>, u: MonoItem, nodes: set<MonoItem>)
    requires u in edges && forall v :: v in order ==> v in edges
    ensures (forall v :: v in order + [u] ==> v in edges)
            && Blocks(edges, order + [u], nodes) == Blocks(edges, order, nodes) + [NodeLine(u)] + EdgeLines(u, edges[u], nodes)
    ensures Elements(order + [u]) == Elements(order) + {u}
  {
    assert (order + [u])[..|order|] == order;
  }

  lemma BlocksOfSlice(edges: Adjacency, order: seq<MonoItem>, nodes: set<MonoItem>)
    requires forall u :: u in order ==> u in edges
    requires NoDuplicates(order)
    requires Elements(order) == nodes
    ensures forall n :: multiset(Blocks(edges, order, nodes))[NodeLine(n)] == if n in nodes then 1 else 0
    ensures forall u, v, reason :: multiset(Blocks(edges, order, nodes))[EdgeLine(u, v, reason)] ==
              if u in nodes && v in nodes then multiset(Get(edges, u))[CollectedItem(v, reason)] else 0
    ensures InBlocks(edges, nodes, Blocks(edges, order, nodes))
  {
    forall n ensures n in order <==> n in nodes {
      assert n in Elements(order) <==> n in order;
    }
    forall line {
      BlocksMultiplicity(edges, order, nodes, line);
    }
    forall u | u in nodes ensures exists k: nat :: BlockAt(edges, nodes, Blocks(edges, order, nodes), u, k) {
      var k := BlocksHoldBlock(edges, order, nodes, u);
    }
  }

  /** The lines hold each node of the slice once, and each edge between two of them as often as it
      occurs. */
  ghost predicate PrintsSlice(edges: Adjacency, seeds: set<MonoItem>, lines: seq<Line>) {
    && (forall n :: multiset(lines)[NodeLine(n)] == if InSlice(edges, seeds, n) then 1 else 0)
    && (forall u, v, reason :: multiset(lines)[EdgeLine(u, v, reason)] ==
          if InSlice(edges, seeds, u) && InSlice(edges, seeds, v)
          then multiset(Get(edges, u))[CollectedItem(v, reason)] else 0)
  }

  /** They come in blocks. */
  ghost predicate PrintsBlocks(edges: Adjacency, seeds: set<MonoItem>, lines: seq<Line>) {
    exists nodes: set<MonoItem> ::
      (forall n :: n in nodes <==> InSlice(edges, seeds, n)) && InBlocks(edges, nodes, lines)
  }

  /** Every path to a seed is printed whole, with all of its nodes and edges. */
  lemma PathsArePrinted(edges: Adjacency, seeds: set<MonoItem>, lines: seq<Line>, p: seq<MonoItem>, i: nat)
    requires PrintsSlice(edges, seeds, lines)
    requires IsPath(EdgeRel(edges), p) && p[|p| - 1] in seeds && i < |p|
    ensures NodeLine(p[i]) in lines
    ensures i < |p| - 1 ==> exists line :: line in lines && line.EdgeLine? && line.from == p[i] && line.to == p[i + 1]
  {
    SuffixReaches(EdgeRel(edges), p, i);
    assert InSlice(edges, seeds, p[i]) && NodeLine(p[i]) in multiset(lines);
    if i < |p| - 1 {
      SuffixReaches(EdgeRel(edges), p, i + 1);
      assert InSlice(edges, seeds, p[i + 1]) && EdgeRel(edges)(p[i], p[i + 1]);
      var c :| c in edges[p[i]] && c.item == p[i + 1];
      assert CollectedItem(p[i + 1], c.reason) in multiset(edges[p[i]]);
      assert EdgeLine(p[i], p[i + 1], c.reason) in multiset(lines);
    }
  }

  // ----- What is looked for

  ghost predicate Contains(s: string, part: string) {
    exists before: string, after: string {:trigger before + part + after} :: s == before + part + after
  }

  predicate IsSubstring(part: string, s: string) {
    exists i: nat {:trigger s[i..]} :: i <= |s| && part <= s[i..]
  }

  lemma IsSubstringExactly(part: string, s: string)
    ensures IsSubstring(part, s) <==> Contains(s, part)
  {
    if i: nat :| i <= |s| && part <= s[i..] {
      assert s == s[..i] + part + s[i + |part|..];
    }
    if before, after :| s == before + part + after {
      assert s[|before|..] == part + after;
    }
  }

  /** The nodes whose names contain `target`. */
  ghost function Matching(nodes: set<MonoItem>, display: MonoItem -> string, target: string): set<MonoItem> {
    set n | n in nodes && Contains(display(n), target)
  }

  /** A node is printed exactly if a path leads from it to a node whose name contains the target. */
  lemma PrintedExactly(edges: Adjacency, nodes: set<MonoItem>, display: MonoItem -> string, target: string,
                       lines: seq<Line>, n: MonoItem)
    requires PrintsSlice(edges, Matching(nodes, display, target), lines)
    ensures NodeLine(n) in lines <==>
            exists t, before, after ::
              t in nodes && display(t) == before + target + after && Reaches(EdgeRel(edges), n, t)
  {
    assert NodeLine(n) in lines <==> multiset(lines)[NodeLine(n)] > 0;
    if InSlice(edges, Matching(nodes, display, target), n) {
      var t :| t in Matching(nodes, display, target) && Reaches(EdgeRel(edges), n, t);
      var before, after :| display(t) == before + target + after;
    }
    if t, before, after :| t in nodes && display(t) == before + target + after && Reaches(EdgeRel(edges), n, t) {
      assert Contains(display(t), target) && t in Matching(nodes, display, target);
    }
  }
}
