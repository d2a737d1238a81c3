/** The collection of mono items: what one visit finds, and the worklist that visits everything
    reachable. */
module Collector {
  import opened Wrappers
  import opened Ordering
  import opened Mir
  import opened Coercion
  import opened Allocations

  ghost predicate WellFormed(tcx: Tcx) {
    FiniteLayout(tcx) && WellFoundedAllocs(tcx)
  }

  // ----- What a visit finds

  /** The visits ask for instances of this kind. */
  predicate ShouldCollect(tcx: Tcx, instance: Instance) {
    match instance.kind
    case Virtual => false
    case Intrinsic => !tcx.mustBeOverridden(instance) && tcx.hasBody(instance)
    case Shim => true
    case Item => true
    case LlvmIntrinsic => false
  }

  predicate InstanceOk(instance: Instance, isDirectCall: bool) {
    isDirectCall || !(instance.kind.Virtual? || instance.kind.Intrinsic?)
  }

  function InstanceItems(tcx: Tcx, instance: Instance, isDirectCall: bool): set<CollectedItem> {
    if ShouldCollect(tcx, instance) && ShouldCodegenLocally(tcx, instance) then
      {CollectedItem(Fn(instance), if isDirectCall then DirectCall else IndirectCall)}
    else {}
  }

  function LocalMethods(tcx: Tcx, entries: seq<VtblEntry>): set<CollectedItem> {
    set e | e in entries && e.Method? && ShouldCodegenLocally(tcx, e.method_) :: CollectedItem(Fn(e.method_), VTableMethod)
  }

  /** The entries of the vtable of `ty` for a trait object with the given principal. */
  function Entries(tcx: Tcx, ty: Ty, principal: Option<TraitRef>): seq<VtblEntry> {
    if principal.Some? then tcx.vtableEntries(ty, principal.value) else []
  }

  function VtableItems(tcx: Tcx, concreteTy: Ty, principal: Option<TraitRef>): set<CollectedItem> {
    LocalMethods(tcx, Entries(tcx, concreteTy, principal))
    + InstanceItems(tcx, tcx.resolveDropInPlace(concreteTy), false)
  }

  function Tagged(items: seq<MonoItem>): set<CollectedItem> {
    set x | x in items :: CollectedItem(x, StaticReason)
  }

  ghost predicate RvalueOk(tcx: Tcx, rvalue: Rvalue)
    requires WellFormed(tcx)
  {
    match rvalue
    case UnsizeCast(srcTy, dstTy) =>
      var base := ExtractBase(tcx, srcTy, dstTy);
      && base.Some?
      && (!base.value.srcTy.IsTrait() && base.value.dstTy.IsTrait() ==>
            InstanceOk(tcx.resolveDropInPlace(base.value.srcTy), false))
    case ReifyFnPointer(ty) => ty.FnDef? && InstanceOk(tcx.resolveForFnPtr(ty.fn, ty.fnArgs), false)
    case ClosureFnPointer(ty) => ty.Closure? && InstanceOk(tcx.resolveClosure(ty.closure, ty.closureArgs), false)
    case _ => true
  }

  ghost function RvalueItems(tcx: Tcx, rvalue: Rvalue): set<CollectedItem>
    requires WellFormed(tcx)
  {
    match rvalue
    case UnsizeCast(srcTy, dstTy) =>
      var base := ExtractBase(tcx, srcTy, dstTy);
      if base.Some? && !base.value.srcTy.IsTrait() && base.value.dstTy.IsTrait()
      then VtableItems(tcx, base.value.srcTy, base.value.dstTy.principal)
      else {}
    case ReifyFnPointer(ty) =>
      if ty.FnDef? then InstanceItems(tcx, tcx.resolveForFnPtr(ty.fn, ty.fnArgs), false) else {}
    case ClosureFnPointer(ty) =>
      if ty.Closure? then InstanceItems(tcx, tcx.resolveClosure(ty.closure, ty.closureArgs), false) else {}
    case ThreadLocalRef(def) => {CollectedItem(Static(def), StaticReason)}
    case OtherRvalue => {}
  }

  ghost predicate EventOk(tcx: Tcx, event: Event)
    requires WellFormed(tcx)
  {
    match event
    case RvalueEvent(rvalue) => RvalueOk(tcx, rvalue)
    case ConstEvent(constant) => !constant.Param?
    case TerminatorEvent(terminator) => terminator.Call? ==> terminator.funcTy.FnDef? || terminator.funcTy.FnPtr?
    case TyEvent(_) => true
  }

  ghost function EventItems(tcx: Tcx, event: Event): set<CollectedItem>
    requires WellFormed(tcx)
  {
    match event
    case RvalueEvent(rvalue) => RvalueItems(tcx, rvalue)
    case ConstEvent(constant) => if constant.Allocated? then Tagged(CollectPtrItems(tcx, constant.alloc.ptrs)) else {}
    case TerminatorEvent(Call(FnDef(def, args))) => InstanceItems(tcx, tcx.resolve(def, args), true)
    case TerminatorEvent(Drop(ty)) => InstanceItems(tcx, tcx.resolveDropInPlace(ty), true)
    case TyEvent(FnDef(def, args)) => InstanceItems(tcx, tcx.resolve(def, args), true)
    case _ => {}
  }

  ghost predicate BodyOk(tcx: Tcx, body: Body)
    requires WellFormed(tcx)
  {
    forall e :: e in body ==> EventOk(tcx, e)
  }

  ghost function BodyItems(tcx: Tcx, body: Body): set<CollectedItem>
    requires WellFormed(tcx)
  {
    set e, c | e in body && c in EventItems(tcx, e) :: c
  }

  function StaticItems(tcx: Tcx, def: StaticDef): seq<CollectedItem>
    requires WellFoundedAllocs(tcx)
  {
    if tcx.isAnonStatic(def) then [] else
      [CollectedItem(Fn(tcx.resolveDropInPlace(tcx.staticTy(def))), StaticDrop)]
      + WithStaticReason(CollectPtrItems(tcx, tcx.evalInitializer(def).ptrs))
  }

  function WithStaticReason(items: seq<MonoItem>): seq<CollectedItem> {
    seq(|items|, k requires 0 <= k < |items| => CollectedItem(items[k], StaticReason))
  }

  /** The visit of the item does not panic. */
  ghost predicate VisitOk(tcx: Tcx, item: MonoItem)
    requires WellFormed(tcx)
  {
    item.Fn? && tcx.body(item.instance).Some? ==> BodyOk(tcx, tcx.body(item.instance).value)
  }

  /** What the visit of the item finds: a set for a function, a list with repetitions for a static. */
  ghost function Successors(tcx: Tcx, item: MonoItem): multiset<CollectedItem>
    requires WellFormed(tcx)
  {
    match item
    case Fn(instance) =>
      var body := tcx.body(instance);
      if body.Some? then multiset(BodyItems(tcx, body.value)) else multiset{}
    case Static(def) => multiset(StaticItems(tcx, def))
    case GlobalAsm(_) => multiset{}
  }

  /** The visit of the static finds its destructor and whatever its initializer points to. */
  ghost predicate FindsDropAndInitializer(tcx: Tcx, def: StaticDef)
    requires WellFormed(tcx)
  {
    && CollectedItem(Fn(tcx.resolveDropInPlace(tcx.staticTy(def))), StaticDrop) in Successors(tcx, Static(def))
    && forall x :: x in CollectPtrItems(tcx, tcx.evalInitializer(def).ptrs) ==>
         CollectedItem(x, StaticReason) in Successors(tcx, Static(def))
  }

  /** It does so exactly if the static is not anonymous: the visit of one that is finds nothing. */
  lemma FindsDropAndInitializerExactly(tcx: Tcx, def: StaticDef)
    requires WellFormed(tcx)
    ensures FindsDropAndInitializer(tcx, def) <==> !tcx.isAnonStatic(def)
    ensures tcx.isAnonStatic(def) ==> Successors(tcx, Static(def)) == multiset{}
  {
    var items, found := StaticItems(tcx, def), CollectPtrItems(tcx, tcx.evalInitializer(def).ptrs);
    if !tcx.isAnonStatic(def) {
      assert items[0] in multiset(items);
      forall x | x in found ensures CollectedItem(x, StaticReason) in multiset(items) {
        var k :| 0 <= k < |found| && found[k] == x;
        assert items[k + 1] == CollectedItem(x, StaticReason);
      }
    }
  }

  /** The visit of a named static lists its destructor, and then one occurrence of an item for each
      provenance path to it from the initializer: no path is listed twice, and none is missing. */
  lemma StaticOccurrencePerWay(tcx: Tcx, def: StaticDef)
    requires WellFormed(tcx) && !tcx.isAnonStatic(def)
    ensures var items, ptrs := StaticItems(tcx, def), tcx.evalInitializer(def).ptrs;
            var ways := WaysFrom(tcx, ptrs, 0);
            && |items| == 1 + |ways|
            && items[0] == CollectedItem(Fn(tcx.resolveDropInPlace(tcx.staticTy(def))), StaticDrop)
            && (forall k :: 0 <= k < |ways| ==>
                  && FollowFrom(tcx, ptrs, ways[k]).Some?
                  && items[k + 1] == CollectedItem(FollowFrom(tcx, ptrs, ways[k]).value, StaticReason))
            && NoDuplicates(ways)
            && (forall way :: FollowFrom(tcx, ptrs, way).Some? ==> way in ways)
  {
    var ptrs := tcx.evalInitializer(def).ptrs;
    var ways, found := WaysFrom(tcx, ptrs, 0), CollectPtrItems(tcx, ptrs);
    OneOccurrencePerWayFrom(tcx, ptrs, 0);
    assert ptrs[0..] == ptrs;
    forall k | 0 <= k < |ways| ensures FollowFrom(tcx, ptrs, ways[k]) == Some(found[k]) {
      assert LeadsAt(tcx, ptrs, 0, ways, found, k);
    }
    forall way | FollowFrom(tcx, ptrs, way).Some? ensures way in ways {
      assert ListedIfLeadingFrom(tcx, ptrs, ways, way);
    }
  }

  /** What the visit of an item returns: `None` if it panics. */
  ghost function VisitOf(tcx: Tcx): MonoItem -> Option<multiset<CollectedItem>>
    requires WellFormed(tcx)
  {
    item => if VisitOk(tcx, item) then Some(Successors(tcx, item)) else None
  }

  // ----- The visitor of a body

  class MonoItemsFnCollector {
    const tcx: Tcx
    var collected: set<CollectedItem>

    constructor (tcx: Tcx)
      ensures this.tcx == tcx && collected == {}
    {
      this.tcx := tcx;
      collected := {};
    }

    method CollectInstance(instance: Instance, isDirectCall: bool) returns (r: Outcome<Panic>)
      modifies this
      ensures r == if InstanceOk(instance, isDirectCall) then Pass else Fail(ExpectedDirectCall)
      ensures r.Pass? ==> collected == old(collected) + InstanceItems(tcx, instance, isDirectCall)
    {
      var shouldCollect := false;
      match instance.kind {
        case Virtual =>
          if !isDirectCall { return Fail(ExpectedDirectCall); }
        case Intrinsic =>
          if !isDirectCall { return Fail(ExpectedDirectCall); }
          shouldCollect := !tcx.mustBeOverridden(instance) && tcx.hasBody(instance);
        case Shim => shouldCollect := true;
        case Item => shouldCollect := true;
        case LlvmIntrinsic =>
      }
      if shouldCollect && ShouldCodegenLocally(tcx, instance) {
        var reason := if isDirectCall then DirectCall else IndirectCall;
        collected := collected + {CollectedItem(Fn(instance), reason)};
      }
      return Pass;
    }

    method CollectVtableMethods(concreteTy: Ty, traitTy: Ty) returns (r: Outcome<Panic>)
      requires !concreteTy.IsTrait() && traitTy.IsTrait()
      modifies this
      ensures r == if InstanceOk(tcx.resolveDropInPlace(concreteTy), false) then Pass else Fail(ExpectedDirectCall)
      ensures r.Pass? ==> collected == old(collected) + VtableItems(tcx, concreteTy, traitTy.principal)
    {
      if traitTy.principal.Some? {
        var entries := tcx.vtableEntries(concreteTy, traitTy.principal.value);
        for k := 0 to |entries|
          invariant collected == old(collected) + LocalMethods(tcx, entries[..k])
        {
          LocalMethodsSnoc(tcx, entries, k);
          match entries[k] {
            case Method(instance) =>
              if ShouldCodegenLocally(tcx, instance) {
                collected := collected + {CollectedItem(Fn(instance), VTableMethod)};
              }
            case _ =>
          }
        }
        assert entries[..|entries|] == entries;
      }
      r := CollectInstance(tcx.resolveDropInPlace(concreteTy), false);
    }

    method CollectAllocation(alloc: Allocation)
      requires WellFormed(tcx)
      modifies this
      ensures collected == old(collected) + Tagged(CollectPtrItems(tcx, alloc.ptrs))
    {
      var ptrs := alloc.ptrs;
      for k := 0 to |ptrs|
        invariant collected == old(collected) + Tagged(CollectPtrItems(tcx, ptrs[..k]))
      {
        CollectPtrItemsSnoc(tcx, ptrs, k);
        collected := collected + Tagged(CollectAllocItems(tcx, ptrs[k]));
      }
      assert ptrs[..|ptrs|] == ptrs;
    }

    method VisitRvalue(rvalue: Rvalue) returns (r: Outcome<Panic>)
      requires WellFormed(tcx)
      modifies this
      ensures r.Pass? <==> RvalueOk(tcx, rvalue)
      ensures r.Fail? ==>
                match rvalue
                case UnsizeCast(srcTy, dstTy) => ExtractBase(tcx, srcTy, dstTy).Some? ==> r.error == ExpectedDirectCall
                case ReifyFnPointer(ty) => r.error == if ty.FnDef? then ExpectedDirectCall else ExpectedFnDef
                case ClosureFnPointer(ty) => r.error == if ty.Closure? then ExpectedDirectCall else ExpectedClosure
                case _ => false
      ensures r.Pass? ==> collected == old(collected) + RvalueItems(tcx, rvalue)
    {
      r := Pass;
      match rvalue {
        case UnsizeCast(sourceTy, targetTy) =>
          var base := ExtractUnsizeCasting(tcx, sourceTy, targetTy);
          if base.Err? { return Fail(base.error); }
          if !base.value.srcTy.IsTrait() && base.value.dstTy.IsTrait() {
            r := CollectVtableMethods(base.value.srcTy, base.value.dstTy);
          }
        case ReifyFnPointer(ty) =>
          match ty {
            case FnDef(def, args) => r := CollectInstance(tcx.resolveForFnPtr(def, args), false);
            case _ => return Fail(ExpectedFnDef);
          }
        case ClosureFnPointer(ty) =>
          match ty {
            case Closure(def, args) => r := CollectInstance(tcx.resolveClosure(def, args), false);
            case _ => return Fail(ExpectedClosure);
          }
        case ThreadLocalRef(def) =>
          collected := collected + {CollectedItem(Static(def), StaticReason)};
        case OtherRvalue =>
      }
    }

    method VisitConstOperand(constant: ConstantKind) returns (r: Outcome<Panic>)
      requires WellFormed(tcx)
      modifies this
      ensures r == if EventOk(tcx, ConstEvent(constant)) then Pass else Fail(UnexpectedParameterConstant)
      ensures r.Pass? ==> collected == old(collected) + EventItems(tcx, ConstEvent(constant))
    {
      match constant {
        case Allocated(alloc) => CollectAllocation(alloc);
        case Unevaluated(_) =>
        case Param => return Fail(UnexpectedParameterConstant);
        case ZeroSized =>
        case TyConst =>
      }
      return Pass;
    }

    method VisitTerminator(terminator: Terminator) returns (r: Outcome<Panic>)
      requires WellFormed(tcx)
      modifies this
      ensures r == if EventOk(tcx, TerminatorEvent(terminator)) then Pass else Fail(UnexpectedCalleeType)
      ensures r.Pass? ==> collected == old(collected) + EventItems(tcx, TerminatorEvent(terminator))
    {
      r := Pass;
      match terminator {
        case Call(funcTy) =>
          match funcTy {
            case FnDef(def, args) => r := CollectInstance(tcx.resolve(def, args), true);
            case FnPtr(_) =>
            case _ => return Fail(UnexpectedCalleeType);
          }
        case Drop(placeTy) => r := CollectInstance(tcx.resolveDropInPlace(placeTy), true);
        case InlineAsm(_) =>
        case Assert(_) =>
        case Abort =>
        case OtherTerminator =>
      }
    }

    method VisitTy(ty: Ty) returns (r: Outcome<Panic>)
      requires WellFormed(tcx)
      modifies this
      ensures r.Pass?
      ensures collected == old(collected) + EventItems(tcx, TyEvent(ty))
    {
      r := Pass;
      if ty.FnDef? {
        r := CollectInstance(tcx.resolve(ty.fn, ty.fnArgs), true);
      }
    }

    method VisitBody(body: Body) returns (r: Outcome<Panic>)
      requires WellFormed(tcx)
      modifies this
      ensures r.Pass? <==> BodyOk(tcx, body)
      ensures r.Pass? ==> collected == old(collected) + BodyItems(tcx, body)
    {
      for k := 0 to |body|
        invariant BodyOk(tcx, body[..k])
        invariant collected == old(collected) + BodyItems(tcx, body[..k])
      {
        BodyItemsSnoc(tcx, body, k);
        match body[k] {
          case RvalueEvent(rvalue) => r := VisitRvalue(rvalue);
          case ConstEvent(constant) => r := VisitConstOperand(constant);
          case TerminatorEvent(terminator) => r := VisitTerminator(terminator);
          case TyEvent(ty) => r := VisitTy(ty);
        }
        if r.Fail? {
          assert body[k] in body && !EventOk(tcx, body[k]);
          return r;
        }
      }
      assert body[..|body|] == body;
      return Pass;
    }
  }

  lemma LocalMethodsSnoc(tcx: Tcx, entries: seq<VtblEntry>, k: nat)
    requires k < |entries|
    ensures LocalMethods(tcx, entries[..k + 1]) == LocalMethods(tcx, entries[..k]) + LocalMethods(tcx, [entries[k]])
    ensures LocalMethods(tcx, [entries[k]]) ==
            if entries[k].Method? && ShouldCodegenLocally(tcx, entries[k].method_)
            then {CollectedItem(Fn(entries[k].method_), VTableMethod)} else {}
  {
    var e := entries[k];
    assert entries[..k + 1] == entries[..k] + [e];
    assert e in [e];
    assert forall d :: d in entries[..k] + [e] <==> d in entries[..k] || d in [e];
  }

  lemma {:induction false} CollectPtrItemsAppend(tcx: Tcx, ptrs: seq<AllocId>, p: AllocId)
    requires WellFoundedAllocs(tcx)
    ensures CollectPtrItems(tcx, ptrs + [p]) == CollectPtrItems(tcx, ptrs) + CollectAllocItems(tcx, p)
  {
    if ptrs == [] {
      assert [p][1..] == [] && ptrs + [p] == [p];
      assert CollectPtrItems(tcx, [p]) == CollectAllocItems(tcx, p) + CollectPtrItems(tcx, []);
    } else {
      assert (ptrs + [p])[0] == ptrs[0] && (ptrs + [p])[1..] == ptrs[1..] + [p];
      CollectPtrItemsAppend(tcx, ptrs[1..], p);
    }
  }

  lemma CollectPtrItemsSnoc(tcx: Tcx, ptrs: seq<AllocId>, k: nat)
    requires WellFoundedAllocs(tcx) && k < |ptrs|
    ensures CollectPtrItems(tcx, ptrs[..k + 1]) == CollectPtrItems(tcx, ptrs[..k]) + CollectAllocItems(tcx, ptrs[k])
    ensures Tagged(CollectPtrItems(tcx, ptrs[..k + 1])) ==
            Tagged(CollectPtrItems(tcx, ptrs[..k])) + Tagged(CollectAllocItems(tcx, ptrs[k]))
  {
    assert ptrs[..k + 1] == ptrs[..k] + [ptrs[k]];
    CollectPtrItemsAppend(tcx, ptrs[..k], ptrs[k]);
  }

  lemma BodyItemsSnoc(tcx: Tcx, body: Body, k: nat)
    requires WellFormed(tcx) && k < |body|
    ensures BodyItems(tcx, body[..k + 1]) == BodyItems(tcx, body[..k]) + EventItems(tcx, body[k])
    ensures BodyOk(tcx, body[..k + 1]) <==> BodyOk(tcx, body[..k]) && EventOk(tcx, body[k])
  {
    assert body[..k + 1] == body[..k] + [body[k]];
    assert forall e :: e in body[..k + 1] <==> e in body[..k] || e == body[k];
  }
}
