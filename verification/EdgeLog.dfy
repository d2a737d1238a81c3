/** The edges of a call graph in both directions, as the record of their insertions. */
module EdgeLog {
  import opened Ordering
  import opened Mir

  datatype Edge = Edge(from: MonoItem, to: MonoItem, reason: CollectionReason)

  type Adjacency = map<MonoItem, seq<CollectedItem>>

  /** The edges out of `u`, in order of insertion. */
  ghost function Out(log: seq<Edge>, u: MonoItem): seq<CollectedItem> {
    if log == [] then [] else
      var e := log[|log| - 1];
      Out(log[..|log| - 1], u) + if e.from == u then [CollectedItem(e.to, e.reason)] else []
  }

  /** The edges into `v`, in order of insertion. */
  ghost function In(log: seq<Edge>, v: MonoItem): seq<CollectedItem> {
    if log == [] then [] else
      var e := log[|log| - 1];
      In(log[..|log| - 1], v) + if e.to == v then [CollectedItem(e.from, e.reason)] else []
  }

  ghost function ItemsOf(items: seq<CollectedItem>): set<MonoItem> {
    set c | c in items :: c.item
  }

  lemma ItemsOfSnoc(items: seq<CollectedItem>, c: CollectedItem)
    ensures ItemsOf(items + [c]) == ItemsOf(items) + {c.item}
  {
    assert c in items + [c];
    assert forall d :: d in items ==> d in items + [c];
  }

  ghost function EdgesFrom(from: MonoItem, to: seq<CollectedItem>): seq<Edge> {
    seq(|to|, k requires 0 <= k < |to| => Edge(from, to[k].item, to[k].reason))
  }

  lemma AddedSoFar(from: MonoItem, to: seq<CollectedItem>, k: nat)
    requires k < |to|
    ensures ItemsOf(to[..k + 1]) == ItemsOf(to[..k]) + {to[k].item}
    ensures EdgesFrom(from, to[..k + 1]) == EdgesFrom(from, to[..k]) + [Edge(from, to[k].item, to[k].reason)]
  {
    assert to[..k + 1] == to[..k] + [to[k]];
    ItemsOfSnoc(to[..k], to[k]);
  }

  lemma LogSnoc(log: seq<Edge>, e: Edge, n: MonoItem)
    ensures Out(log + [e], n) == Out(log, n) + if e.from == n then [CollectedItem(e.to, e.reason)] else []
    ensures In(log + [e], n) == In(log, n) + if e.to == n then [CollectedItem(e.from, e.reason)] else []
  {
    assert (log + [e])[..|log + [e]| - 1] == log;
  }

  /** Adding all the edges of a node appends them to that node's edges and to no other's. */
  lemma {:induction false} OutAppend(log: seq<Edge>, from: MonoItem, to: seq<CollectedItem>, u: MonoItem)
    ensures Out(log + EdgesFrom(from, to), u) == Out(log, u) + if u == from then to else []
    decreases |to|
  {
    if to == [] {
      assert log + EdgesFrom(from, to) == log;
    } else {
      var init, c := to[..|to| - 1], to[|to| - 1];
      var whole := log + EdgesFrom(from, to);
      assert whole[..|whole| - 1] == log + EdgesFrom(from, init);
      assert whole[|whole| - 1] == Edge(from, c.item, c.reason);
      OutAppend(log, from, init, u);
      assert to == init + [c];
    }
  }

  /** The multiplicity of an edge is that of its entry in either adjacency. */
  lemma {:induction false} LogMultiplicity(log: seq<Edge>, u: MonoItem, v: MonoItem, reason: CollectionReason)
    ensures multiset(Out(log, u))[CollectedItem(v, reason)] == multiset(log)[Edge(u, v, reason)]
    ensures multiset(In(log, v))[CollectedItem(u, reason)] == multiset(log)[Edge(u, v, reason)]
  {
    if log != [] {
      var init := log[..|log| - 1];
      assert log == init + [log[|log| - 1]];
      LogMultiplicity(init, u, v, reason);
    }
  }

  ghost function Sum(nodes: set<MonoItem>, size: MonoItem -> nat): nat {
    if nodes == {} then 0 else
      var n :| n in nodes;
      size(n) + Sum(nodes - {n}, size)
  }

  ghost function Degree(edges: Adjacency): MonoItem -> nat {
    n => if n in edges then |edges[n]| else 0
  }

  lemma {:induction false} SumAgrees(nodes: set<MonoItem>, f: MonoItem -> nat, g: MonoItem -> nat)
    requires forall n :: n in nodes ==> f(n) == g(n)
    ensures Sum(nodes, f) == Sum(nodes, g)
  {
    if nodes != {} {
      var n :| n in nodes && Sum(nodes, f) == f(n) + Sum(nodes - {n}, f) && Sum(nodes, g) == g(n) + Sum(nodes - {n}, g);
      SumAgrees(nodes - {n}, f, g);
    }
  }

  lemma {:induction false} SumBump(nodes: set<MonoItem>, f: MonoItem -> nat, g: MonoItem -> nat, x: MonoItem)
    requires x in nodes && g(x) == f(x) + 1
    requires forall n :: n in nodes && n != x ==> f(n) == g(n)
    ensures Sum(nodes, g) == Sum(nodes, f) + 1
  {
    var n :| n in nodes && Sum(nodes, f) == f(n) + Sum(nodes - {n}, f) && Sum(nodes, g) == g(n) + Sum(nodes - {n}, g);
    if n == x {
      SumAgrees(nodes - {n}, f, g);
    } else {
      SumBump(nodes - {n}, f, g, x);
    }
  }

  lemma {:induction false} SumZero(nodes: set<MonoItem>, f: MonoItem -> nat)
    requires forall n :: n in nodes ==> f(n) == 0
    ensures Sum(nodes, f) == 0
  {
    if nodes != {} {
      var n :| n in nodes && Sum(nodes, f) == f(n) + Sum(nodes - {n}, f);
      SumZero(nodes - {n}, f);
    }
  }

  lemma {:induction false} LogTotals(log: seq<Edge>, nodes: set<MonoItem>)
    requires forall e :: e in log ==> e.from in nodes && e.to in nodes
    ensures Sum(nodes, (n: MonoItem) => |Out(log, n)|) == |log|
    ensures Sum(nodes, (n: MonoItem) => |In(log, n)|) == |log|
  {
    var outs := (n: MonoItem) => |Out(log, n)|;
    var ins := (n: MonoItem) => |In(log, n)|;
    if log == [] {
      SumZero(nodes, outs);
      SumZero(nodes, ins);
    } else {
      var init, e := log[..|log| - 1], log[|log| - 1];
      LogTotals(init, nodes);
      SumBump(nodes, (n: MonoItem) => |Out(init, n)|, outs, e.from);
      SumBump(nodes, (n: MonoItem) => |In(init, n)|, ins, e.to);
    }
  }

  // ----- Edges and back edges

  function Get(edges: Adjacency, n: MonoItem): seq<CollectedItem> {
    if n in edges then edges[n] else []
  }

  /** The two adjacencies are those of the logged edges, and their keys are the nodes. */
  ghost predicate Records(nodes: set<MonoItem>, edges: Adjacency, backEdges: Adjacency, log: seq<Edge>) {
    && edges.Keys == nodes
    && backEdges.Keys == nodes
    && (forall n :: Get(edges, n) == Out(log, n))
    && (forall n :: Get(backEdges, n) == In(log, n))
  }

  /** The entry of a node, created empty if there is none. */
  function OrDefault(edges: Adjacency, item: MonoItem): (r: Adjacency)
    ensures r.Keys == edges.Keys + {item}
    ensures forall n :: Get(r, n) == Get(edges, n)
  {
    if item in edges then edges else edges[item := []]
  }

  function Push(edges: Adjacency, n: MonoItem, c: CollectedItem): (r: Adjacency)
    requires n in edges
    ensures r.Keys == edges.Keys
    ensures forall m :: Get(r, m) == Get(edges, m) + if m == n then [c] else []
  {
    edges[n := edges[n] + [c]]
  }

  lemma RecordsEdge(nodes: set<MonoItem>, edges: Adjacency, backEdges: Adjacency, log: seq<Edge>, e: Edge)
    requires Records(nodes, edges, backEdges, log) && e.from in nodes && e.to in nodes
    ensures Records(nodes,
                    Push(edges, e.from, CollectedItem(e.to, e.reason)),
                    Push(backEdges, e.to, CollectedItem(e.from, e.reason)),
                    log + [e])
  {
    forall n ensures Out(log + [e], n) == Get(edges, n) + if e.from == n then [CollectedItem(e.to, e.reason)] else []
             ensures In(log + [e], n) == Get(backEdges, n) + if e.to == n then [CollectedItem(e.from, e.reason)] else []
    {
      LogSnoc(log, e, n);
    }
  }

  /** The ends of edges are nodes. */
  lemma SuccessorIsNode(nodes: set<MonoItem>, edges: Adjacency, backEdges: Adjacency, log: seq<Edge>, u: MonoItem,
                        c: CollectedItem)
    requires Records(nodes, edges, backEdges, log) && u in edges && c in edges[u]
    ensures c.item in nodes
  {
    EntryIsLogged(log, u, c.item, c.reason);
    assert Get(edges, u) == Out(log, u);
    LoggedInside(nodes, edges, backEdges, log, Edge(u, c.item, c.reason));
  }

  lemma LoggedInside(nodes: set<MonoItem>, edges: Adjacency, backEdges: Adjacency, log: seq<Edge>, e: Edge)
    requires Records(nodes, edges, backEdges, log) && e in log
    ensures e.from in nodes && e.to in nodes
  {
    EntryIsLogged(log, e.from, e.to, e.reason);
    assert Get(edges, e.from) == Out(log, e.from) && Get(backEdges, e.to) == In(log, e.to);
  }

  lemma {:induction false} EntryIsLogged(log: seq<Edge>, u: MonoItem, v: MonoItem, reason: CollectionReason)
    ensures CollectedItem(v, reason) in Out(log, u) <==> Edge(u, v, reason) in log
    ensures CollectedItem(u, reason) in In(log, v) <==> Edge(u, v, reason) in log
  {
    LogMultiplicity(log, u, v, reason);
    assert CollectedItem(v, reason) in Out(log, u) <==> CollectedItem(v, reason) in multiset(Out(log, u));
    assert CollectedItem(u, reason) in In(log, v) <==> CollectedItem(u, reason) in multiset(In(log, v));
    assert Edge(u, v, reason) in log <==> Edge(u, v, reason) in multiset(log);
  }

  // ----- Edges as a relation

  ghost predicate HasEdge(edges: Adjacency, u: MonoItem, v: MonoItem) {
    u in edges && exists c :: c in edges[u] && c.item == v
  }

  ghost function EdgeRel(edges: Adjacency): (MonoItem, MonoItem) -> bool {
    (u, v) => HasEdge(edges, u, v)
  }

  // ----- Lists and sets of items

  function Elements(s: seq<MonoItem>): set<MonoItem> {
    set n | n in s
  }

  function Items(s: seq<CollectedItem>): (r: seq<MonoItem>)
    ensures |r| == |s| && forall i :: 0 <= i < |s| ==> r[i] == s[i].item
    ensures forall n :: n in r <==> exists c :: c in s && c.item == n
  {
    var r := seq(|s|, i requires 0 <= i < |s| => s[i].item);
    assert forall c :: c in s ==> c.item in r by {
      forall c | c in s ensures c.item in r {
        var i :| 0 <= i < |s| && s[i] == c;
        assert r[i] == c.item;
      }
    }
    r
  }

  /** Lists a set, in no particular order. */
  method Enumerate<T(==,!new)>(s: set<T>) returns (r: seq<T>)
    ensures NoDuplicates(r)
    ensures forall x :: x in r <==> x in s
    ensures multiset(r) == multiset(s)
  {
    r := [];
    var rest := s;
    while rest != {}
      invariant rest <= s
      invariant NoDuplicates(r)
      invariant forall x :: x in r <==> x in s - rest
      invariant multiset(r) == multiset(s - rest)
      decreases rest
    {
      var x :| x in rest;
      assert s - (rest - {x}) == (s - rest) + {x};
      r, rest := r + [x], rest - {x};
    }
    assert s - rest == s;
  }
}
