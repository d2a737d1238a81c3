/** Which foreign items are collected all the same. Visits filter out what is not to be generated
    locally, except for the starting points, the destructors of statics, and thread locals. */
module Locality {
  import opened Mir
  import opened Allocations
  import opened EdgeLog
  import opened Fixpoint
  import opened Collector
  import opened Execution

  /** A local function or a local named static. */
  predicate IsLocal(tcx: Tcx, item: MonoItem) {
    match item
    case Fn(f) => ShouldCodegenLocally(tcx, f)
    case Static(def) => IsLocalStatic(tcx, def)
    case GlobalAsm(_) => false
  }

  ghost predicate MentionsThreadLocal(tcx: Tcx, f: Instance, def: StaticDef) {
    tcx.body(f).Some? && RvalueEvent(ThreadLocalRef(def)) in tcx.body(f).value
  }

  /** An event finds local items only, except for the static of a thread-local reference. */
  lemma EventItemsLocal(tcx: Tcx, event: Event, c: CollectedItem)
    requires WellFormed(tcx) && c in EventItems(tcx, event)
    ensures IsLocal(tcx, c.item) || (c.item.Static? && event == RvalueEvent(ThreadLocalRef(c.item.staticDef)))
  {
    match event {
      case ConstEvent(Allocated(alloc)) => assert c.item in CollectPtrItems(tcx, alloc.ptrs);
      case _ =>
    }
  }

  lemma StaticItemsLocal(tcx: Tcx, def: StaticDef, c: CollectedItem)
    requires WellFormed(tcx) && c in StaticItems(tcx, def)
    ensures !tcx.isAnonStatic(def)
    ensures IsLocal(tcx, c.item) || c.item == Fn(tcx.resolveDropInPlace(tcx.staticTy(def)))
  {
    var found := CollectPtrItems(tcx, tcx.evalInitializer(def).ptrs);
    var items := StaticItems(tcx, def);
    var k :| 0 <= k < |items| && items[k] == c;
    if k > 0 {
      assert items[k] == WithStaticReason(found)[k - 1] && c.item == found[k - 1];
      assert c.item in found;
    }
  }

  /** The last step to a foreign item. */
  lemma FoundForeign(tcx: Tcx, x: MonoItem, c: CollectedItem, y: MonoItem)
    requires WellFormed(tcx) && c in Successors(tcx, x) && c.item == y && !IsLocal(tcx, y)
    ensures y.Fn? ==>
              && x.Static? && !tcx.isAnonStatic(x.staticDef)
              && y.instance == tcx.resolveDropInPlace(tcx.staticTy(x.staticDef))
    ensures y.Static? ==> x.Fn? && MentionsThreadLocal(tcx, x.instance, y.staticDef)
    ensures !y.GlobalAsm?
  {
    match x {
      case Fn(f) =>
        var body := tcx.body(f).value;
        assert c in BodyItems(tcx, body);
        var e :| e in body && c in EventItems(tcx, e);
        EventItemsLocal(tcx, e, c);
      case Static(def) =>
        assert c in StaticItems(tcx, def);
        StaticItemsLocal(tcx, def, c);
      case GlobalAsm(_) => assert false;
    }
  }

  /** A foreign function is collected exactly if it is a starting point or the destructor of a
      collected named static. */
  lemma ForeignFunctionsExactly(tcx: Tcx, roots: set<MonoItem>, collected: set<MonoItem>, edges: Adjacency, f: Instance)
    requires WellFormed(tcx) && Complete(VisitOf(tcx), roots, collected, edges)
    requires !ShouldCodegenLocally(tcx, f)
    ensures Fn(f) in collected <==>
            || Fn(f) in roots
            || exists def :: Static(def) in collected && !tcx.isAnonStatic(def)
                             && f == tcx.resolveDropInPlace(tcx.staticTy(def))
  {
    CompleteIsClosed(tcx, roots, collected, edges);
    if Fn(f) in collected && Fn(f) !in roots {
      FoundBySome(VisitOf(tcx), roots, collected, edges, Fn(f));
      var x :| x in collected && Finds(VisitOf(tcx), x, Fn(f));
      var c :| c in Successors(tcx, x) && c.item == Fn(f);
      FoundForeign(tcx, x, c, Fn(f));
      assert x == Static(x.staticDef);
    }
    if def :| Static(def) in collected && !tcx.isAnonStatic(def) && f == tcx.resolveDropInPlace(tcx.staticTy(def)) {
      StaticCovered(tcx, collected, def);
    }
  }

  /** A static that is not a local named one is collected exactly if it is a starting point or a
      collected function refers to it as a thread local. */
  lemma ForeignStaticsExactly(tcx: Tcx, roots: set<MonoItem>, collected: set<MonoItem>, edges: Adjacency, def: StaticDef)
    requires WellFormed(tcx) && Complete(VisitOf(tcx), roots, collected, edges)
    requires !IsLocalStatic(tcx, def)
    ensures Static(def) in collected <==>
            || Static(def) in roots
            || exists f :: Fn(f) in collected && MentionsThreadLocal(tcx, f, def)
  {
    CompleteIsClosed(tcx, roots, collected, edges);
    if Static(def) in collected && Static(def) !in roots {
      FoundBySome(VisitOf(tcx), roots, collected, edges, Static(def));
      var x :| x in collected && Finds(VisitOf(tcx), x, Static(def));
      var c :| c in Successors(tcx, x) && c.item == Static(def);
      FoundForeign(tcx, x, c, Static(def));
      assert x == Fn(x.instance);
    }
    if f :| Fn(f) in collected && MentionsThreadLocal(tcx, f, def) {
      ThreadLocalCovered(tcx, collected, f, def);
    }
  }

  /** Nothing but local functions and local named statics is collected exactly if the starting points
      are local, reachable statics have local destructors, and reachable functions refer to local
      thread locals only. */
  lemma AllLocalExactly(tcx: Tcx, roots: set<MonoItem>, collected: set<MonoItem>, edges: Adjacency)
    requires WellFormed(tcx) && Complete(VisitOf(tcx), roots, collected, edges)
    ensures (forall x :: x in collected ==> IsLocal(tcx, x)) <==>
            && (forall x :: x in roots ==> IsLocal(tcx, x))
            && (forall def :: Reachable(VisitOf(tcx), roots, Static(def)) && !tcx.isAnonStatic(def) ==>
                  ShouldCodegenLocally(tcx, tcx.resolveDropInPlace(tcx.staticTy(def))))
            && (forall f, def :: Reachable(VisitOf(tcx), roots, Fn(f)) && MentionsThreadLocal(tcx, f, def) ==>
                  IsLocalStatic(tcx, def))
  {
    CompleteIsClosed(tcx, roots, collected, edges);
    if forall x :: x in collected ==> IsLocal(tcx, x) {
      forall def | Reachable(VisitOf(tcx), roots, Static(def)) && !tcx.isAnonStatic(def)
        ensures ShouldCodegenLocally(tcx, tcx.resolveDropInPlace(tcx.staticTy(def)))
      {
        StaticCovered(tcx, collected, def);
        assert IsLocal(tcx, Fn(tcx.resolveDropInPlace(tcx.staticTy(def))));
      }
      forall f, def | Reachable(VisitOf(tcx), roots, Fn(f)) && MentionsThreadLocal(tcx, f, def)
        ensures IsLocalStatic(tcx, def)
      {
        ThreadLocalCovered(tcx, collected, f, def);
        assert IsLocal(tcx, Static(def));
      }
    } else {
      var x :| x in collected && !IsLocal(tcx, x);
      match x {
        case Fn(f) => ForeignFunctionsExactly(tcx, roots, collected, edges, f);
        case Static(def) => ForeignStaticsExactly(tcx, roots, collected, edges, def);
        case GlobalAsm(_) => AsmIsRoot(tcx, roots, collected, edges, x);
      }
    }
  }

  lemma AsmIsRoot(tcx: Tcx, roots: set<MonoItem>, collected: set<MonoItem>, edges: Adjacency, asm: MonoItem)
    requires WellFormed(tcx) && Complete(VisitOf(tcx), roots, collected, edges) && asm in collected && asm.GlobalAsm?
    ensures asm in roots
  {
    FoundBySome(VisitOf(tcx), roots, collected, edges, asm);
    if x :| x in collected && Finds(VisitOf(tcx), x, asm) {
      var c :| c in Successors(tcx, x) && c.item == asm;
      FoundForeign(tcx, x, c, asm);
    }
  }

  lemma ThreadLocalCovered(tcx: Tcx, collected: set<MonoItem>, f: Instance, def: StaticDef)
    requires WellFormed(tcx) && ClosedCollection(tcx, collected)
    requires Fn(f) in collected && MentionsThreadLocal(tcx, f, def)
    ensures Static(def) in collected
  {
    var body := tcx.body(f).value;
    var at :| 0 <= at < |body| && body[at] == RvalueEvent(ThreadLocalRef(def));
    EventCovered(tcx, collected, f, at, CollectedItem(Static(def), StaticReason));
  }
}
