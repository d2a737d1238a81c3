/** Runs of the analysed program, and what the collection promises about them. The semantics
    forgets control flow: a frame may execute any part of its body, in any order and any number of
    times, and the frames of all threads take turns in any order. */
module Execution {
  import opened Wrappers
  import opened Paths
  import opened Mir
  import opened Coercion
  import opened Allocations
  import opened EdgeLog
  import opened Fixpoint
  import opened Collector

  /** What holds at run time that the collection does not ask for. */
  datatype Runtime = Runtime(
    needsDrop: Ty -> bool,
    upcasts: (Option<TraitRef>, Option<TraitRef>) -> bool  // from a trait object to one of a supertrait
  )

  /** The values of the constants that the collection finds unevaluated. */
  type Evaluation = map<nat, Allocation>

  datatype Vtable = Vtable(ty: Ty, principal: Option<TraitRef>)

  /** The frames of all threads, and what the run has got hold of so far. */
  datatype State = State(
    frames: multiset<Instance>,
    fnPtrs: set<Instance>,
    vtables: set<Vtable>,
    held: set<AllocId>,
    statics: set<StaticDef>
  )

  predicate HasMethod(tcx: Tcx, v: Vtable, m: Instance) {
    v.principal.Some? && Method(m) in tcx.vtableEntries(v.ty, v.principal.value)
  }

  /** Calling the function runs MIR. */
  predicate HasMir(tcx: Tcx, f: Instance) {
    tcx.body(f).Some?
  }

  /** There is no MIR for what is dispatched dynamically, what LLVM provides, and those built-ins that
      must be overridden or have no body to fall back to. */
  ghost predicate MirOk(tcx: Tcx) {
    forall f :: HasMir(tcx, f) ==>
      && !f.kind.Virtual? && !f.kind.LlvmIntrinsic?
      && (f.kind.Intrinsic? ==> tcx.hasBody(f) && !tcx.mustBeOverridden(f))
  }

  /** The compiler lays out vtables so that upcasts find their methods, and the memory of a vtable
      points to its methods and to the destructor, if there is anything to drop. */
  ghost predicate RuntimeOk(tcx: Tcx, rt: Runtime) {
    && MirOk(tcx)
    && (forall ty, p, q, m :: rt.upcasts(p, q) && HasMethod(tcx, Vtable(ty, q), m) ==> HasMethod(tcx, Vtable(ty, p), m))
    && (forall ty, p, m :: HasMethod(tcx, Vtable(ty, p), m) ==> PointsTo(tcx, tcx.vtableAllocation(ty, p), m))
    && (forall ty, p :: rt.needsDrop(ty) ==> PointsTo(tcx, tcx.vtableAllocation(ty, p), tcx.resolveDropInPlace(ty)))
  }

  ghost predicate PointsTo(tcx: Tcx, id: AllocId, f: Instance) {
    tcx.globalAlloc(id).Memory? && exists p :: p in tcx.globalAlloc(id).alloc.ptrs && tcx.globalAlloc(p) == FunctionAlloc(f)
  }

  // ----- Steps

  datatype Action =
    | Execute(frame: Instance, at: nat)
    | CallVirtual(frame: Instance, at: nat, vtable: Vtable, target: Instance)
    | CallPointer(target: Instance)
    | CallUnasked(frame: Instance, at: nat, target: Instance)
    | DropDynamic(frame: Instance, at: nat, vtable: Vtable)
    | UpcastObject(frame: Instance, at: nat, vtable: Vtable)
    | Load(id: AllocId)
    | LoadStatic(def: StaticDef)
    | DropStatic(def: StaticDef)
    | Return(frame: Instance)

  /** The event is part of the MIR that the local function runs. */
  predicate HasEvent(tcx: Tcx, f: Instance, at: nat) {
    ShouldCodegenLocally(tcx, f) && HasMir(tcx, f) && at < |tcx.body(f).value|
  }

  function EventAt(tcx: Tcx, f: Instance, at: nat): Event
    requires HasEvent(tcx, f, at)
  {
    tcx.body(f).value[at]
  }

  predicate RunningAt(tcx: Tcx, s: State, f: Instance, at: nat) {
    f in s.frames && HasEvent(tcx, f, at)
  }

  /** A frame for the callee, unless there is no MIR behind it. */
  function Enter(tcx: Tcx, s: State, callee: Instance): State {
    if HasMir(tcx, callee) then s.(frames := s.frames + multiset{callee}) else s
  }

  function Hold(s: State, alloc: Allocation): State {
    s.(held := s.held + set p | p in alloc.ptrs)
  }

  function Evaluate(ev: Evaluation, id: nat): Allocation {
    if id in ev then ev[id] else Allocation([])
  }

  ghost function ExecuteRvalue(tcx: Tcx, s: State, rvalue: Rvalue): State
    requires WellFormed(tcx)
  {
    match rvalue
    case UnsizeCast(srcTy, dstTy) =>
      var base := ExtractBase(tcx, srcTy, dstTy);
      if base.Some? && !base.value.srcTy.IsTrait() && base.value.dstTy.IsTrait()
      then s.(vtables := s.vtables + {Vtable(base.value.srcTy, base.value.dstTy.principal)})
      else s
    case ReifyFnPointer(FnDef(def, args)) => s.(fnPtrs := s.fnPtrs + {tcx.resolveForFnPtr(def, args)})
    case ClosureFnPointer(Closure(def, args)) => s.(fnPtrs := s.fnPtrs + {tcx.resolveClosure(def, args)})
    case ThreadLocalRef(def) => s.(statics := s.statics + {def})
    case _ => s
  }

  ghost function ExecuteEvent(tcx: Tcx, ev: Evaluation, s: State, event: Event): State
    requires WellFormed(tcx)
  {
    match event
    case RvalueEvent(rvalue) => ExecuteRvalue(tcx, s, rvalue)
    case ConstEvent(Allocated(alloc)) => Hold(s, alloc)
    case ConstEvent(Unevaluated(id)) => Hold(s, Evaluate(ev, id))
    case TerminatorEvent(Call(FnDef(def, args))) => Enter(tcx, s, tcx.resolve(def, args))
    case TerminatorEvent(Drop(ty)) => Enter(tcx, s, tcx.resolveDropInPlace(ty))
    case _ => s
  }

  /** The callees of a terminator that the collection does not ask for: what a failed assertion or
      an abort enters, and the functions that inline assembly names. */
  function Unasked(tcx: Tcx, event: Event): seq<Instance> {
    match event
    case TerminatorEvent(Assert(message)) => [tcx.assertFailure(message)]
    case TerminatorEvent(Abort) => [tcx.abortEntry]
    case TerminatorEvent(InlineAsm(block)) => tcx.asmSymbols(block)
    case _ => []
  }

  predicate CallsVirtual(tcx: Tcx, event: Event) {
    match event
    case TerminatorEvent(Call(FnDef(def, args))) => tcx.resolve(def, args).kind.Virtual?
    case _ => false
  }

  predicate DropsObject(event: Event) {
    match event
    case TerminatorEvent(Drop(ty)) => ty.IsTrait()
    case _ => false
  }

  /** Looking at what a held pointer points to. A foreign static shows nothing. */
  function LoadFrom(tcx: Tcx, s: State, id: AllocId): State {
    match tcx.globalAlloc(id)
    case StaticAlloc(def) =>
      if tcx.isAnonStatic(def) then Hold(s, tcx.evalInitializer(def))
      else if IsLocalStatic(tcx, def) then Hold(s, tcx.evalInitializer(def)).(statics := s.statics + {def})
      else s
    case FunctionAlloc(f) => s.(fnPtrs := s.fnPtrs + {f})
    case Memory(alloc) => Hold(s, alloc)
    case VTable(ty, principal) =>
      Hold(s, Allocation([tcx.vtableAllocation(ty, principal)])).(vtables := s.vtables + {Vtable(ty, principal)})
    case TypeId(_) => s
  }

  ghost predicate Step(tcx: Tcx, rt: Runtime, ev: Evaluation, s: State, a: Action, s': State)
    requires WellFormed(tcx)
  {
    match a
    case Execute(f, at) =>
      RunningAt(tcx, s, f, at) && s' == ExecuteEvent(tcx, ev, s, EventAt(tcx, f, at))
    case CallVirtual(f, at, v, m) =>
      && RunningAt(tcx, s, f, at) && CallsVirtual(tcx, EventAt(tcx, f, at))
      && v in s.vtables && HasMethod(tcx, v, m) && s' == Enter(tcx, s, m)
    case CallPointer(target) =>  // by a call through a pointer, by a built-in or by foreign code
      target in s.fnPtrs && s' == Enter(tcx, s, target)
    case CallUnasked(f, at, target) =>
      RunningAt(tcx, s, f, at) && target in Unasked(tcx, EventAt(tcx, f, at)) && s' == Enter(tcx, s, target)
    case DropDynamic(f, at, v) =>
      && RunningAt(tcx, s, f, at) && DropsObject(EventAt(tcx, f, at))
      && v in s.vtables && rt.needsDrop(v.ty) && s' == Enter(tcx, s, tcx.resolveDropInPlace(v.ty))
    case UpcastObject(f, at, v) =>
      && RunningAt(tcx, s, f, at) && EventAt(tcx, f, at).RvalueEvent? && EventAt(tcx, f, at).rvalue.UnsizeCast?
      && var base := ExtractBase(tcx, EventAt(tcx, f, at).rvalue.unsizeTy, EventAt(tcx, f, at).rvalue.targetTy);
         && base.Some? && base.value.srcTy.IsTrait() && base.value.dstTy.IsTrait()
         && v in s.vtables && rt.upcasts(v.principal, base.value.dstTy.principal)
         && s' == s.(vtables := s.vtables + {Vtable(v.ty, base.value.dstTy.principal)})
    case Load(id) => id in s.held && s' == LoadFrom(tcx, s, id)
    case LoadStatic(def) =>
      def in s.statics && !tcx.isAnonStatic(def) && s' == Hold(s, tcx.evalInitializer(def))
    case DropStatic(def) =>
      def in s.statics && !tcx.isAnonStatic(def) && s' == Enter(tcx, s, tcx.resolveDropInPlace(tcx.staticTy(def)))
    case Return(f) => f in s.frames && s' == s.(frames := s.frames - multiset{f})
  }

  /** The action evaluates a constant that the collection skips. */
  predicate Unevaluates(tcx: Tcx, s: State, a: Action) {
    a.Execute? && RunningAt(tcx, s, a.frame, a.at) && IsUnevaluated(EventAt(tcx, a.frame, a.at))
  }

  predicate IsUnevaluated(event: Event) {
    event.ConstEvent? && event.constant.Unevaluated?
  }

  /** One frame, and nothing in hand. */
  function Start(root: Instance): State {
    State(multiset{root}, {}, {}, {}, {})
  }

  /** A run from any state, with any frames and with anything in hand. */
  ghost predicate IsRun(tcx: Tcx, rt: Runtime, ev: Evaluation, states: seq<State>, actions: seq<Action>)
    requires WellFormed(tcx)
  {
    && |states| == |actions| + 1
    && forall i :: 0 <= i < |actions| ==> Step(tcx, rt, ev, states[i], actions[i], states[i + 1])
  }

  // ----- What the collection covers

  ghost predicate FrameCovered(tcx: Tcx, collected: set<MonoItem>, f: Instance) {
    ShouldCodegenLocally(tcx, f) ==> Fn(f) in collected
  }

  ghost predicate TargetCovered(tcx: Tcx, collected: set<MonoItem>, f: Instance) {
    HasMir(tcx, f) && ShouldCodegenLocally(tcx, f) ==> Fn(f) in collected
  }

  ghost predicate VtableCovered(tcx: Tcx, rt: Runtime, collected: set<MonoItem>, v: Vtable) {
    && (forall m :: HasMethod(tcx, v, m) ==> FrameCovered(tcx, collected, m))
    && (rt.needsDrop(v.ty) ==> TargetCovered(tcx, collected, tcx.resolveDropInPlace(v.ty)))
  }

  ghost predicate AllocCovered(tcx: Tcx, collected: set<MonoItem>, id: AllocId)
    requires WellFormed(tcx)
  {
    forall x :: x in CollectAllocItems(tcx, id) ==> x in collected
  }

  /** No frame and nothing within the reach of the run is missing. */
  ghost predicate Covered(tcx: Tcx, rt: Runtime, collected: set<MonoItem>, s: State)
    requires WellFormed(tcx)
  {
    && (forall f :: f in s.frames ==> FrameCovered(tcx, collected, f))
    && (forall f :: f in s.fnPtrs ==> TargetCovered(tcx, collected, f))
    && (forall v :: v in s.vtables ==> VtableCovered(tcx, rt, collected, v))
    && (forall id :: id in s.held ==> AllocCovered(tcx, collected, id))
    && (forall def :: def in s.statics ==> Static(def) in collected)
  }

  /** The collection is closed and none of its visits panicked. */
  ghost predicate ClosedCollection(tcx: Tcx, collected: set<MonoItem>)
    requires WellFormed(tcx)
  {
    && Closed(FindsRel(VisitOf(tcx)), collected)
    && forall x :: x in collected ==> VisitOk(tcx, x)
  }

  lemma CompleteIsClosed(tcx: Tcx, roots: set<MonoItem>, collected: set<MonoItem>, edges: Adjacency)
    requires WellFormed(tcx) && Complete(VisitOf(tcx), roots, collected, edges)
    ensures roots <= collected && ClosedCollection(tcx, collected)
  {
    CollectedIsLeast(VisitOf(tcx), roots, collected, edges);
    forall x | x in collected ensures VisitOk(tcx, x) {
      assert VisitOf(tcx)(x) == Some(multiset(edges[x]));
    }
  }

  // ----- What a visit covers

  lemma EventCovered(tcx: Tcx, collected: set<MonoItem>, f: Instance, at: nat, c: CollectedItem)
    requires WellFormed(tcx) && ClosedCollection(tcx, collected)
    requires Fn(f) in collected && tcx.body(f).Some? && at < |tcx.body(f).value|
    requires c in EventItems(tcx, tcx.body(f).value[at])
    ensures c.item in collected
  {
    assert c in BodyItems(tcx, tcx.body(f).value);
    assert c in Successors(tcx, Fn(f));
    assert FindsRel(VisitOf(tcx))(Fn(f), c.item);
  }

  lemma StaticCovered(tcx: Tcx, collected: set<MonoItem>, def: StaticDef)
    requires WellFormed(tcx) && ClosedCollection(tcx, collected)
    requires Static(def) in collected && !tcx.isAnonStatic(def)
    ensures Fn(tcx.resolveDropInPlace(tcx.staticTy(def))) in collected
    ensures forall p :: p in tcx.evalInitializer(def).ptrs ==> AllocCovered(tcx, collected, p)
  {
    var items := StaticItems(tcx, def);
    forall c | c in items ensures c.item in collected {
      assert c in multiset(items) && c in Successors(tcx, Static(def));
      assert FindsRel(VisitOf(tcx))(Static(def), c.item);
    }
    assert items[0].item in collected;
    var found := CollectPtrItems(tcx, tcx.evalInitializer(def).ptrs);
    forall x | x in found ensures x in collected {
      var k :| 0 <= k < |found| && found[k] == x;
      assert items[k + 1] == CollectedItem(x, StaticReason);
    }
  }

  /** One hop of provenance from a covered allocation leads to a covered allocation: stopping at
      named statics loses nothing, since the worklist visits them. */
  lemma HopCovered(tcx: Tcx, collected: set<MonoItem>, a: AllocId, b: AllocId)
    requires WellFormed(tcx) && ClosedCollection(tcx, collected)
    requires AllocCovered(tcx, collected, a) && ProvenanceHop(tcx, a, b)
    ensures AllocCovered(tcx, collected, b)
  {
    CollectAllocItemsUnfold(tcx, a);
    if b in LooksThrough(tcx, a) {
      forall x | x in CollectAllocItems(tcx, b) ensures x in collected {
        assert x in CollectPtrItems(tcx, LooksThrough(tcx, a));
      }
    } else {
      var def := tcx.globalAlloc(a).def;
      assert Static(def) in CollectAllocItems(tcx, a);
      StaticCovered(tcx, collected, def);
    }
  }

  lemma {:induction false} ChainCovered(tcx: Tcx, collected: set<MonoItem>, p: seq<AllocId>, n: nat)
    requires WellFormed(tcx) && ClosedCollection(tcx, collected)
    requires IsPath(ProvenanceRel(tcx), p) && AllocCovered(tcx, collected, p[0]) && n < |p|
    ensures AllocCovered(tcx, collected, p[n])
  {
    if n > 0 {
      var m := n - 1;
      ChainCovered(tcx, collected, p, m);
      assert ProvenanceRel(tcx)(p[m], p[m + 1]);
      HopCovered(tcx, collected, p[m], p[n]);
    }
  }

  /** Every local function and every local named static at the end of any chain of provenance from
      a constant of a collected function is collected, through cycles of statics too. */
  lemma ProvenanceLosesNothing(tcx: Tcx, collected: set<MonoItem>, f: Instance, at: nat, start: AllocId, end: AllocId)
    requires WellFormed(tcx) && ClosedCollection(tcx, collected)
    requires Fn(f) in collected && tcx.body(f).Some? && at < |tcx.body(f).value|
    requires tcx.body(f).value[at].ConstEvent? && tcx.body(f).value[at].constant.Allocated?
    requires start in tcx.body(f).value[at].constant.alloc.ptrs && Reaches(ProvenanceRel(tcx), start, end)
    ensures ItemOf(tcx, end).Some? ==> ItemOf(tcx, end).value in collected
  {
    ConstantCovered(tcx, collected, f, at);
    var p :| IsPathBetween(ProvenanceRel(tcx), p, start, end);
    ChainCovered(tcx, collected, p, |p| - 1);
    CollectAllocItemsUnfold(tcx, end);
  }

  lemma ConstantCovered(tcx: Tcx, collected: set<MonoItem>, f: Instance, at: nat)
    requires WellFormed(tcx) && ClosedCollection(tcx, collected)
    requires Fn(f) in collected && tcx.body(f).Some? && at < |tcx.body(f).value|
    requires tcx.body(f).value[at].ConstEvent? && tcx.body(f).value[at].constant.Allocated?
    ensures forall p :: p in tcx.body(f).value[at].constant.alloc.ptrs ==> AllocCovered(tcx, collected, p)
  {
    var ptrs := tcx.body(f).value[at].constant.alloc.ptrs;
    forall p, x | p in ptrs && x in CollectAllocItems(tcx, p) ensures x in collected {
      assert x in CollectPtrItems(tcx, ptrs);
      EventCovered(tcx, collected, f, at, CollectedItem(x, StaticReason));
    }
  }
}
