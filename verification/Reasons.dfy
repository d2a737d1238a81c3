/** Why an item is collected: the edges of the finished call graph, read off the bodies and the
    initializers without the visits that found them. */
module Reasons {
  import opened Wrappers
  import opened Paths
  import opened Mir
  import opened Coercion
  import opened Allocations
  import opened EdgeLog
  import opened Fixpoint
  import opened Collector

  /** The function is local, and calling it is more than dynamic dispatch or a built-in. */
  ghost predicate IsWanted(tcx: Tcx, f: Instance) {
    && !tcx.isForeign(f)
    && (f.kind.Intrinsic? ==> tcx.hasBody(f) && !tcx.mustBeOverridden(f))
    && f.kind !in {Virtual, LlvmIntrinsic}
  }

  /** The body calls the function, or drops a value with it. */
  ghost predicate Invokes(tcx: Tcx, body: Body, f: Instance) {
    || (exists def, args :: TerminatorEvent(Call(FnDef(def, args))) in body && tcx.resolve(def, args) == f)
    || (exists ty :: TerminatorEvent(Drop(ty)) in body && tcx.resolveDropInPlace(ty) == f)
  }

  /** The body mentions the function as a type. */
  ghost predicate HasType(tcx: Tcx, body: Body, f: Instance) {
    exists def, args :: TyEvent(FnDef(def, args)) in body && tcx.resolve(def, args) == f
  }

  /** The body turns a pointer to `ty` into a trait object. */
  ghost predicate MakesObject(tcx: Tcx, body: Body, ty: Ty, principal: Option<TraitRef>) {
    && !ty.Dynamic?
    && exists src, dst ::
         RvalueEvent(UnsizeCast(src, dst)) in body && Coerces(tcx, (src, dst), CoercionBase(ty, Dynamic(principal)))
  }

  /** The body makes a pointer to the function. */
  ghost predicate PointsAt(tcx: Tcx, body: Body, f: Instance) {
    || (exists def, args :: RvalueEvent(ReifyFnPointer(FnDef(def, args))) in body && tcx.resolveForFnPtr(def, args) == f)
    || (exists def, args :: RvalueEvent(ClosureFnPointer(Closure(def, args))) in body && tcx.resolveClosure(def, args) == f)
  }

  /** The body makes a trait object that is dropped with the function. */
  ghost predicate HasDropGlue(tcx: Tcx, body: Body, f: Instance) {
    exists ty, principal :: MakesObject(tcx, body, ty, principal) && tcx.resolveDropInPlace(ty) == f
  }

  /** The body makes a trait object with this method. */
  ghost predicate HasVtableWith(tcx: Tcx, body: Body, f: Instance) {
    exists ty, principal :: MakesObject(tcx, body, ty, Some(principal)) && Method(f) in tcx.vtableEntries(ty, principal)
  }

  /** A chain of memory, anonymous statics and vtables leads from one of the pointers to the item. */
  ghost predicate Behind(tcx: Tcx, ptrs: seq<AllocId>, item: MonoItem) {
    exists p, t :: p in ptrs && Reaches(LooksThroughRel(tcx), p, t) && ItemOf(tcx, t) == Some(item)
  }

  /** The item is behind a constant of the body, or a thread local that the body refers to. */
  ghost predicate Mentions(tcx: Tcx, body: Body, item: MonoItem) {
    || (exists alloc :: ConstEvent(Allocated(alloc)) in body && Behind(tcx, alloc.ptrs, item))
    || (item.Static? && RvalueEvent(ThreadLocalRef(item.staticDef)) in body)
  }

  ghost predicate InBody(tcx: Tcx, body: Body, item: MonoItem, reason: CollectionReason) {
    match reason
    case DirectCall =>
      && item.Fn? && IsWanted(tcx, item.instance)
      && (Invokes(tcx, body, item.instance) || HasType(tcx, body, item.instance))
    case IndirectCall =>
      && item.Fn? && IsWanted(tcx, item.instance)
      && (PointsAt(tcx, body, item.instance) || HasDropGlue(tcx, body, item.instance))
    case VTableMethod => item.Fn? && !tcx.isForeign(item.instance) && HasVtableWith(tcx, body, item.instance)
    case StaticReason => Mentions(tcx, body, item)
    case StaticDrop => false
  }

  ghost predicate InStatic(tcx: Tcx, def: StaticDef, item: MonoItem, reason: CollectionReason) {
    match reason
    case StaticReason => Behind(tcx, tcx.evalInitializer(def).ptrs, item)
    case StaticDrop => item == Fn(tcx.resolveDropInPlace(tcx.staticTy(def)))
    case _ => false
  }

  /** The user asks for the item, for this reason. */
  ghost predicate AsksFor(tcx: Tcx, user: MonoItem, item: MonoItem, reason: CollectionReason) {
    match user
    case Fn(f) => tcx.body(f).Some? && InBody(tcx, tcx.body(f).value, item, reason)
    case Static(def) => !tcx.isAnonStatic(def) && InStatic(tcx, def, item, reason)
    case GlobalAsm(_) => false
  }

  // ----- One event

  lemma BehindExactly(tcx: Tcx, ptrs: seq<AllocId>, item: MonoItem)
    requires WellFoundedAllocs(tcx)
    ensures item in CollectPtrItems(tcx, ptrs) <==> Behind(tcx, ptrs, item)
  {
    if item in CollectPtrItems(tcx, ptrs) {
      var p :| p in ptrs && item in CollectAllocItems(tcx, p);
      CollectAllocItemsExact(tcx, p, item);
    }
    if p, t :| p in ptrs && Reaches(LooksThroughRel(tcx), p, t) && ItemOf(tcx, t) == Some(item) {
      CollectAllocItemsExact(tcx, p, item);
    }
  }

  lemma ObjectExactly(tcx: Tcx, src: Ty, dst: Ty, ty: Ty, principal: Option<TraitRef>)
    requires WellFormed(tcx)
    ensures Coerces(tcx, (src, dst), CoercionBase(ty, Dynamic(principal))) <==>
            ExtractBase(tcx, src, dst) == Some(CoercionBase(ty, Dynamic(principal)))
  {
    ExtractBaseExact(tcx, (src, dst), CoercionBase(ty, Dynamic(principal)));
  }

  /** What an event of the body finds, the body asks for. */
  lemma EventAsks(tcx: Tcx, body: Body, e: Event, c: CollectedItem)
    requires WellFormed(tcx) && e in body && c in EventItems(tcx, e)
    ensures InBody(tcx, body, c.item, c.reason)
  {
    match e {
      case RvalueEvent(UnsizeCast(src, dst)) =>
        var base := ExtractBase(tcx, src, dst).value;
        ObjectExactly(tcx, src, dst, base.srcTy, base.dstTy.principal);
        assert MakesObject(tcx, body, base.srcTy, base.dstTy.principal);
      case ConstEvent(Allocated(alloc)) => BehindExactly(tcx, alloc.ptrs, c.item);
      case _ =>
    }
  }

  lemma MadeObjectFinds(tcx: Tcx, body: Body, ty: Ty, principal: Option<TraitRef>, c: CollectedItem)
    requires WellFormed(tcx) && MakesObject(tcx, body, ty, principal) && c in VtableItems(tcx, ty, principal)
    ensures c in BodyItems(tcx, body)
  {
    var src, dst :|
      RvalueEvent(UnsizeCast(src, dst)) in body && Coerces(tcx, (src, dst), CoercionBase(ty, Dynamic(principal)));
    ObjectExactly(tcx, src, dst, ty, principal);
    assert c in EventItems(tcx, RvalueEvent(UnsizeCast(src, dst)));
  }

  lemma CallsFind(tcx: Tcx, body: Body, f: Instance)
    requires WellFormed(tcx) && IsWanted(tcx, f) && (Invokes(tcx, body, f) || HasType(tcx, body, f))
    ensures CollectedItem(Fn(f), DirectCall) in BodyItems(tcx, body)
  {
    var c := CollectedItem(Fn(f), DirectCall);
    if def, args :| TerminatorEvent(Call(FnDef(def, args))) in body && tcx.resolve(def, args) == f {
      assert c in EventItems(tcx, TerminatorEvent(Call(FnDef(def, args))));
    } else if ty :| TerminatorEvent(Drop(ty)) in body && tcx.resolveDropInPlace(ty) == f {
      assert c in EventItems(tcx, TerminatorEvent(Drop(ty)));
    } else {
      var def, args :| TyEvent(FnDef(def, args)) in body && tcx.resolve(def, args) == f;
      assert c in EventItems(tcx, TyEvent(FnDef(def, args)));
    }
  }

  lemma PointersFind(tcx: Tcx, body: Body, f: Instance)
    requires WellFormed(tcx) && IsWanted(tcx, f) && (PointsAt(tcx, body, f) || HasDropGlue(tcx, body, f))
    ensures CollectedItem(Fn(f), IndirectCall) in BodyItems(tcx, body)
  {
    var c := CollectedItem(Fn(f), IndirectCall);
    if def, args :| RvalueEvent(ReifyFnPointer(FnDef(def, args))) in body && tcx.resolveForFnPtr(def, args) == f {
      assert c in EventItems(tcx, RvalueEvent(ReifyFnPointer(FnDef(def, args))));
    } else if def, args :| RvalueEvent(ClosureFnPointer(Closure(def, args))) in body && tcx.resolveClosure(def, args) == f {
      assert c in EventItems(tcx, RvalueEvent(ClosureFnPointer(Closure(def, args))));
    } else {
      var ty, principal :| MakesObject(tcx, body, ty, principal) && tcx.resolveDropInPlace(ty) == f;
      MadeObjectFinds(tcx, body, ty, principal, c);
    }
  }

  lemma VtablesFind(tcx: Tcx, body: Body, f: Instance)
    requires WellFormed(tcx) && !tcx.isForeign(f) && HasVtableWith(tcx, body, f)
    ensures CollectedItem(Fn(f), VTableMethod) in BodyItems(tcx, body)
  {
    var ty, principal :| MakesObject(tcx, body, ty, Some(principal)) && Method(f) in tcx.vtableEntries(ty, principal);
    assert Method(f).method_ == f;
    MadeObjectFinds(tcx, body, ty, Some(principal), CollectedItem(Fn(f), VTableMethod));
  }

  lemma MentionsFind(tcx: Tcx, body: Body, item: MonoItem)
    requires WellFormed(tcx) && Mentions(tcx, body, item)
    ensures CollectedItem(item, StaticReason) in BodyItems(tcx, body)
  {
    var c := CollectedItem(item, StaticReason);
    if alloc :| ConstEvent(Allocated(alloc)) in body && Behind(tcx, alloc.ptrs, item) {
      BehindExactly(tcx, alloc.ptrs, item);
      assert c in EventItems(tcx, ConstEvent(Allocated(alloc)));
    } else {
      assert c in EventItems(tcx, RvalueEvent(ThreadLocalRef(item.staticDef)));
    }
  }

  lemma BodyItemsExactly(tcx: Tcx, body: Body, c: CollectedItem)
    requires WellFormed(tcx)
    ensures c in BodyItems(tcx, body) <==> InBody(tcx, body, c.item, c.reason)
  {
    if e :| e in body && c in EventItems(tcx, e) {
      EventAsks(tcx, body, e, c);
    }
    if InBody(tcx, body, c.item, c.reason) {
      match c.reason {
        case DirectCall => CallsFind(tcx, body, c.item.instance);
        case IndirectCall => PointersFind(tcx, body, c.item.instance);
        case VTableMethod => VtablesFind(tcx, body, c.item.instance);
        case StaticReason => MentionsFind(tcx, body, c.item);
      }
    }
  }

  lemma StaticItemsExactly(tcx: Tcx, def: StaticDef, c: CollectedItem)
    requires WellFormed(tcx)
    ensures c in StaticItems(tcx, def) <==> !tcx.isAnonStatic(def) && InStatic(tcx, def, c.item, c.reason)
  {
    var ptrs := tcx.evalInitializer(def).ptrs;
    var items, found := StaticItems(tcx, def), CollectPtrItems(tcx, ptrs);
    BehindExactly(tcx, ptrs, c.item);
    if c in items {
      var k :| 0 <= k < |items| && items[k] == c;
      assert k > 0 ==> items[k] == CollectedItem(found[k - 1], StaticReason);
    }
    if !tcx.isAnonStatic(def) && InStatic(tcx, def, c.item, c.reason) {
      if c.reason.StaticDrop? {
        assert items[0] == c;
      } else {
        var k :| 0 <= k < |found| && found[k] == c.item;
        assert items[k + 1] == c;
      }
    }
  }

  // ----- The finished graph

  /** The visit of an item finds exactly what the item asks for. */
  lemma FindingsExactly(tcx: Tcx, user: MonoItem, item: MonoItem, reason: CollectionReason)
    requires WellFormed(tcx)
    ensures CollectedItem(item, reason) in Successors(tcx, user) <==> AsksFor(tcx, user, item, reason)
  {
    var c := CollectedItem(item, reason);
    match user {
      case Fn(f) =>
        if tcx.body(f).Some? { BodyItemsExactly(tcx, tcx.body(f).value, c); }
      case Static(def) => StaticItemsExactly(tcx, def, c);
      case GlobalAsm(_) =>
    }
  }

  /** The edges of a collected item lead, under their reasons, exactly to what the item asks for. */
  lemma EdgesExactly(tcx: Tcx, roots: set<MonoItem>, collected: set<MonoItem>, edges: Adjacency,
                     user: MonoItem, item: MonoItem, reason: CollectionReason)
    requires WellFormed(tcx) && Complete(VisitOf(tcx), roots, collected, edges) && user in collected
    ensures CollectedItem(item, reason) in edges[user] <==> AsksFor(tcx, user, item, reason)
    ensures AsksFor(tcx, user, item, reason) ==> item in collected
  {
    var c := CollectedItem(item, reason);
    assert VisitOf(tcx)(user) == Some(multiset(edges[user]));
    assert c in edges[user] <==> c in multiset(edges[user]);
    FindingsExactly(tcx, user, item, reason);
    if AsksFor(tcx, user, item, reason) {
      CollectedIsLeast(VisitOf(tcx), roots, collected, edges);
      assert FindsRel(VisitOf(tcx))(user, item);
    }
  }

  /** A function has each of its edges once. */
  lemma FunctionEdgesOnce(tcx: Tcx, roots: set<MonoItem>, collected: set<MonoItem>, edges: Adjacency,
                          f: Instance, c: CollectedItem)
    requires WellFormed(tcx) && Complete(VisitOf(tcx), roots, collected, edges) && Fn(f) in collected
    ensures multiset(edges[Fn(f)])[c] <= 1
  {
    assert VisitOf(tcx)(Fn(f)) == Some(multiset(edges[Fn(f)]));
  }

  /** A function mentioned as a type is collected, as if it were called. */
  lemma TypeMentionIsCollected(tcx: Tcx, roots: set<MonoItem>, collected: set<MonoItem>, edges: Adjacency,
                               f: Instance, def: DefId, args: seq<Ty>)
    requires WellFormed(tcx) && Complete(VisitOf(tcx), roots, collected, edges)
    requires Fn(f) in collected && tcx.body(f).Some? && TyEvent(FnDef(def, args)) in tcx.body(f).value
    requires IsWanted(tcx, tcx.resolve(def, args))
    ensures Fn(tcx.resolve(def, args)) in collected
    ensures CollectedItem(Fn(tcx.resolve(def, args)), DirectCall) in edges[Fn(f)]
  {
    EdgesExactly(tcx, roots, collected, edges, Fn(f), Fn(tcx.resolve(def, args)), DirectCall);
  }

  /** What is collected is a starting point or asked for by something collected. */
  lemma CollectedExactly(tcx: Tcx, roots: set<MonoItem>, collected: set<MonoItem>, edges: Adjacency, item: MonoItem)
    requires WellFormed(tcx) && Complete(VisitOf(tcx), roots, collected, edges)
    ensures item in collected <==>
            item in roots || exists user, reason :: user in collected && AsksFor(tcx, user, item, reason)
  {
    CollectedIsLeast(VisitOf(tcx), roots, collected, edges);
    if item in collected && item !in roots {
      FoundBySome(VisitOf(tcx), roots, collected, edges, item);
      var user :| user in collected && Finds(VisitOf(tcx), user, item);
      var c :| c in Successors(tcx, user) && c.item == item;
      FindingsExactly(tcx, user, item, c.reason);
    }
    if user, reason :| user in collected && AsksFor(tcx, user, item, reason) {
      EdgesExactly(tcx, roots, collected, edges, user, item, reason);
    }
  }

  // ----- What stops a visit

  /** An instance that can only be called directly. */
  ghost predicate HasNoPointer(f: Instance) {
    f.kind in {Virtual, Intrinsic}
  }

  /** The visitor gives up at the event. */
  ghost predicate Stops(tcx: Tcx, e: Event) {
    match e
    case RvalueEvent(UnsizeCast(src, dst)) =>
      || (forall base :: !Coerces(tcx, (src, dst), base))
      || (exists ty: Ty, principal ::
            && !ty.Dynamic? && Coerces(tcx, (src, dst), CoercionBase(ty, Dynamic(principal)))
            && HasNoPointer(tcx.resolveDropInPlace(ty)))
    case RvalueEvent(ReifyFnPointer(FnDef(def, args))) => HasNoPointer(tcx.resolveForFnPtr(def, args))
    case RvalueEvent(ReifyFnPointer(_)) => true
    case RvalueEvent(ClosureFnPointer(Closure(def, args))) => HasNoPointer(tcx.resolveClosure(def, args))
    case RvalueEvent(ClosureFnPointer(_)) => true
    case ConstEvent(Param) => true
    case TerminatorEvent(Call(FnDef(_, _))) => false
    case TerminatorEvent(Call(FnPtr(_))) => false
    case TerminatorEvent(Call(_)) => true
    case _ => false
  }

  lemma EventStopsExactly(tcx: Tcx, e: Event)
    requires WellFormed(tcx)
    ensures EventOk(tcx, e) <==> !Stops(tcx, e)
  {
    match e {
      case RvalueEvent(UnsizeCast(src, dst)) =>
        var base := ExtractBase(tcx, src, dst);
        forall b ensures base == Some(b) <==> Coerces(tcx, (src, dst), b) {
          ExtractBaseExact(tcx, (src, dst), b);
        }
        if base.Some? && !base.value.srcTy.Dynamic? && base.value.dstTy.Dynamic? {
          assert base.value == CoercionBase(base.value.srcTy, Dynamic(base.value.dstTy.principal));
        }
      case _ =>
    }
  }

  /** The collection succeeds exactly if no body of a reachable function holds an event that stops
      the visitor. */
  lemma SucceedsExactly(tcx: Tcx, roots: set<MonoItem>)
    requires WellFormed(tcx)
    ensures AllVisitsOk(VisitOf(tcx), roots) <==>
            forall f, e :: Reachable(VisitOf(tcx), roots, Fn(f)) && tcx.body(f).Some? && e in tcx.body(f).value ==>
              !Stops(tcx, e)
  {
    forall e {
      EventStopsExactly(tcx, e);
    }
    if AllVisitsOk(VisitOf(tcx), roots) {
      forall f, e | Reachable(VisitOf(tcx), roots, Fn(f)) && tcx.body(f).Some? && e in tcx.body(f).value
        ensures !Stops(tcx, e)
      {
        assert VisitOf(tcx)(Fn(f)).Some?;
      }
    } else {
      var x :| Reachable(VisitOf(tcx), roots, x) && VisitOf(tcx)(x).None?;
      assert x == Fn(x.instance);
    }
  }
}
