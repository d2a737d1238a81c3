/** Nothing a run can call is missing from the collection. */
module Soundness {
  import opened Mir
  import opened Coercion
  import opened Allocations
  import opened EdgeLog
  import opened Fixpoint
  import opened Collector
  import opened Execution

  // ----- One step

  /** The step is not at the mercy of what the collection skips: a skipped constant holds covered
      pointers only, and a callee that was not asked for is collected all the same. */
  ghost predicate Guarded(tcx: Tcx, ev: Evaluation, collected: set<MonoItem>, s: State, a: Action)
    requires WellFormed(tcx)
  {
    && (Unevaluates(tcx, s, a) ==>
          forall p :: p in Evaluate(ev, EventAt(tcx, a.frame, a.at).constant.id).ptrs ==> AllocCovered(tcx, collected, p))
    && (a.CallUnasked? ==> TargetCovered(tcx, collected, a.target))
  }

  lemma HoldCovered(tcx: Tcx, rt: Runtime, collected: set<MonoItem>, s: State, alloc: Allocation)
    requires WellFormed(tcx) && Covered(tcx, rt, collected, s)
    requires forall p :: p in alloc.ptrs ==> AllocCovered(tcx, collected, p)
    ensures Covered(tcx, rt, collected, Hold(s, alloc))
  {
  }

  lemma EnterCovered(tcx: Tcx, rt: Runtime, collected: set<MonoItem>, s: State, f: Instance)
    requires WellFormed(tcx) && Covered(tcx, rt, collected, s) && TargetCovered(tcx, collected, f)
    ensures Covered(tcx, rt, collected, Enter(tcx, s, f))
  {
  }

  /** The callees, function pointers, vtables and statics of one event. */
  lemma ExecuteCovered(tcx: Tcx, rt: Runtime, ev: Evaluation, collected: set<MonoItem>, s: State, f: Instance, at: nat)
    requires WellFormed(tcx) && MirOk(tcx) && ClosedCollection(tcx, collected)
    requires Covered(tcx, rt, collected, s) && RunningAt(tcx, s, f, at)
    requires Guarded(tcx, ev, collected, s, Execute(f, at))
    ensures Covered(tcx, rt, collected, ExecuteEvent(tcx, ev, s, EventAt(tcx, f, at)))
  {
    assert FrameCovered(tcx, collected, f);
    forall c | c in EventItems(tcx, EventAt(tcx, f, at)) ensures c.item in collected {
      EventCovered(tcx, collected, f, at, c);
    }
    match EventAt(tcx, f, at) {
      case RvalueEvent(rvalue) => ExecuteRvalueCovered(tcx, rt, collected, s, rvalue);
      case ConstEvent(Allocated(alloc)) =>
        ConstantCovered(tcx, collected, f, at);
        HoldCovered(tcx, rt, collected, s, alloc);
      case ConstEvent(Unevaluated(id)) => HoldCovered(tcx, rt, collected, s, Evaluate(ev, id));
      case TerminatorEvent(Call(FnDef(def, args))) =>
        InstanceCovered(tcx, collected, tcx.resolve(def, args), true);
        EnterCovered(tcx, rt, collected, s, tcx.resolve(def, args));
      case TerminatorEvent(Drop(ty)) =>
        InstanceCovered(tcx, collected, tcx.resolveDropInPlace(ty), true);
        EnterCovered(tcx, rt, collected, s, tcx.resolveDropInPlace(ty));
      case _ =>
    }
  }

  lemma InstanceCovered(tcx: Tcx, collected: set<MonoItem>, f: Instance, isDirectCall: bool)
    requires MirOk(tcx) && forall c :: c in InstanceItems(tcx, f, isDirectCall) ==> c.item in collected
    ensures TargetCovered(tcx, collected, f)
  {
    assert CollectedItem(Fn(f), if isDirectCall then DirectCall else IndirectCall).item == Fn(f);
  }

  lemma ExecuteRvalueCovered(tcx: Tcx, rt: Runtime, collected: set<MonoItem>, s: State, rvalue: Rvalue)
    requires WellFormed(tcx) && MirOk(tcx) && Covered(tcx, rt, collected, s)
    requires forall c :: c in RvalueItems(tcx, rvalue) ==> c.item in collected
    ensures Covered(tcx, rt, collected, ExecuteRvalue(tcx, s, rvalue))
  {
    match rvalue {
      case UnsizeCast(srcTy, dstTy) =>
        var base := ExtractBase(tcx, srcTy, dstTy);
        if base.Some? && !base.value.srcTy.IsTrait() && base.value.dstTy.IsTrait() {
          NewVtableCovered(tcx, rt, collected, Vtable(base.value.srcTy, base.value.dstTy.principal));
        }
      case ReifyFnPointer(FnDef(def, args)) => InstanceCovered(tcx, collected, tcx.resolveForFnPtr(def, args), false);
      case ClosureFnPointer(Closure(def, args)) => InstanceCovered(tcx, collected, tcx.resolveClosure(def, args), false);
      case ThreadLocalRef(def) => assert CollectedItem(Static(def), StaticReason).item in collected;
      case _ =>
    }
  }

  lemma NewVtableCovered(tcx: Tcx, rt: Runtime, collected: set<MonoItem>, v: Vtable)
    requires MirOk(tcx) && forall c :: c in VtableItems(tcx, v.ty, v.principal) ==> c.item in collected
    ensures VtableCovered(tcx, rt, collected, v)
  {
    forall m | HasMethod(tcx, v, m) && ShouldCodegenLocally(tcx, m) ensures Fn(m) in collected {
      assert Method(m).method_ == m;
      assert CollectedItem(Fn(m), VTableMethod) in VtableItems(tcx, v.ty, v.principal);
    }
    InstanceCovered(tcx, collected, tcx.resolveDropInPlace(v.ty), false);
  }

  lemma PointeeCovered(tcx: Tcx, collected: set<MonoItem>, id: AllocId, f: Instance)
    requires WellFormed(tcx) && ClosedCollection(tcx, collected)
    requires AllocCovered(tcx, collected, id) && PointsTo(tcx, id, f)
    ensures FrameCovered(tcx, collected, f)
  {
    var p :| p in tcx.globalAlloc(id).alloc.ptrs && tcx.globalAlloc(p) == FunctionAlloc(f);
    HopCovered(tcx, collected, id, p);
    CollectAllocItemsUnfold(tcx, p);
    if ShouldCodegenLocally(tcx, f) {
      assert Fn(f) in CollectAllocItems(tcx, p);
    }
  }

  lemma LoadCovered(tcx: Tcx, rt: Runtime, collected: set<MonoItem>, s: State, id: AllocId)
    requires WellFormed(tcx) && RuntimeOk(tcx, rt) && ClosedCollection(tcx, collected)
    requires Covered(tcx, rt, collected, s) && AllocCovered(tcx, collected, id)
    ensures Covered(tcx, rt, collected, LoadFrom(tcx, s, id))
  {
    CollectAllocItemsUnfold(tcx, id);
    forall b | ProvenanceHop(tcx, id, b) ensures AllocCovered(tcx, collected, b) {
      HopCovered(tcx, collected, id, b);
    }
    match tcx.globalAlloc(id) {
      case StaticAlloc(def) =>
        if tcx.isAnonStatic(def) || IsLocalStatic(tcx, def) {
          HoldCovered(tcx, rt, collected, s, tcx.evalInitializer(def));
          if IsLocalStatic(tcx, def) { assert Static(def) in CollectAllocItems(tcx, id); }
        }
      case FunctionAlloc(f) =>
        if ShouldCodegenLocally(tcx, f) { assert Fn(f) in CollectAllocItems(tcx, id); }
      case Memory(alloc) => HoldCovered(tcx, rt, collected, s, alloc);
      case VTable(ty, principal) =>
        var memory := tcx.vtableAllocation(ty, principal);
        assert memory in LooksThrough(tcx, id);
        HoldCovered(tcx, rt, collected, s, Allocation([memory]));
        forall m | PointsTo(tcx, memory, m) ensures FrameCovered(tcx, collected, m) {
          PointeeCovered(tcx, collected, memory, m);
        }
        assert VtableCovered(tcx, rt, collected, Vtable(ty, principal));
      case TypeId(_) =>
    }
  }

  /** Every guarded step keeps the run covered. */
  lemma StepCovered(tcx: Tcx, rt: Runtime, ev: Evaluation, collected: set<MonoItem>, s: State, a: Action, s': State)
    requires WellFormed(tcx) && RuntimeOk(tcx, rt) && ClosedCollection(tcx, collected)
    requires Covered(tcx, rt, collected, s) && Step(tcx, rt, ev, s, a, s') && Guarded(tcx, ev, collected, s, a)
    ensures Covered(tcx, rt, collected, s')
  {
    match a {
      case Execute(f, at) => ExecuteCovered(tcx, rt, ev, collected, s, f, at);
      case CallVirtual(_, _, v, m) => EnterCovered(tcx, rt, collected, s, m);
      case CallPointer(target) => EnterCovered(tcx, rt, collected, s, target);
      case CallUnasked(_, _, target) => EnterCovered(tcx, rt, collected, s, target);
      case DropDynamic(_, _, v) => EnterCovered(tcx, rt, collected, s, tcx.resolveDropInPlace(v.ty));
      case UpcastObject(_, _, v) => UpcastCovered(tcx, rt, collected, s, v);
      case Load(id) => LoadCovered(tcx, rt, collected, s, id);
      case LoadStatic(def) =>
        StaticCovered(tcx, collected, def);
        HoldCovered(tcx, rt, collected, s, tcx.evalInitializer(def));
      case DropStatic(def) =>
        StaticCovered(tcx, collected, def);
        EnterCovered(tcx, rt, collected, s, tcx.resolveDropInPlace(tcx.staticTy(def)));
      case Return(_) =>
    }
  }

  lemma UpcastCovered(tcx: Tcx, rt: Runtime, collected: set<MonoItem>, s: State, v: Vtable)
    requires WellFormed(tcx) && RuntimeOk(tcx, rt)
    requires Covered(tcx, rt, collected, s) && v in s.vtables
    ensures forall q :: rt.upcasts(v.principal, q) ==> VtableCovered(tcx, rt, collected, Vtable(v.ty, q))
  {
    assert VtableCovered(tcx, rt, collected, v) && v == Vtable(v.ty, v.principal);
  }

  // ----- Whole runs

  lemma RunStep(tcx: Tcx, rt: Runtime, ev: Evaluation, states: seq<State>, actions: seq<Action>, i: nat)
    requires WellFormed(tcx) && IsRun(tcx, rt, ev, states, actions) && i < |actions|
    ensures Step(tcx, rt, ev, states[i], actions[i], states[i + 1])
  {
  }

  /** A run that starts covered stays covered as long as its steps are guarded: whatever it calls,
      points to or can dispatch to has been collected. */
  lemma {:induction false} RunCovered(tcx: Tcx, rt: Runtime, ev: Evaluation, collected: set<MonoItem>,
                                      states: seq<State>, actions: seq<Action>, n: nat)
    requires WellFormed(tcx) && RuntimeOk(tcx, rt) && ClosedCollection(tcx, collected)
    requires IsRun(tcx, rt, ev, states, actions) && Covered(tcx, rt, collected, states[0]) && n < |states|
    requires forall i :: 0 <= i < |actions| && Covered(tcx, rt, collected, states[i]) ==>
               Guarded(tcx, ev, collected, states[i], actions[i])
    ensures Covered(tcx, rt, collected, states[n])
  {
    if n > 0 {
      var m := n - 1;
      RunCovered(tcx, rt, ev, collected, states, actions, m);
      RunStep(tcx, rt, ev, states, actions, m);
      StepCovered(tcx, rt, ev, collected, states[m], actions[m], states[n]);
    }
  }

  // ----- What can be seen from the bodies

  /** No body that a collected function runs holds a constant that the collection skips. */
  ghost predicate NoUnevaluated(tcx: Tcx, collected: set<MonoItem>) {
    forall f, at: nat :: Fn(f) in collected && HasEvent(tcx, f, at) ==> !IsUnevaluated(EventAt(tcx, f, at))
  }

  /** The callees in those bodies that the collection does not ask for are collected all the same. */
  ghost predicate UnaskedCovered(tcx: Tcx, collected: set<MonoItem>) {
    forall f, at: nat, g :: Fn(f) in collected && HasEvent(tcx, f, at) && g in Unasked(tcx, EventAt(tcx, f, at)) ==>
      TargetCovered(tcx, collected, g)
  }

  /** Every local function and every local named static that some pointer refers to is collected. */
  ghost predicate PointeesCollected(tcx: Tcx, collected: set<MonoItem>) {
    forall id :: ItemOf(tcx, id).Some? ==> ItemOf(tcx, id).value in collected
  }

  lemma PointeesExactly(tcx: Tcx, collected: set<MonoItem>)
    requires WellFormed(tcx)
    ensures PointeesCollected(tcx, collected) <==> forall id :: AllocCovered(tcx, collected, id)
  {
    if PointeesCollected(tcx, collected) {
      forall id, x | x in CollectAllocItems(tcx, id) ensures x in collected {
        CollectAllocItemsExact(tcx, id, x);
      }
    }
    if forall id :: AllocCovered(tcx, collected, id) {
      forall id | ItemOf(tcx, id).Some? ensures ItemOf(tcx, id).value in collected {
        CollectAllocItemsUnfold(tcx, id);
        assert AllocCovered(tcx, collected, id);
      }
    }
  }

  lemma StepGuarded(tcx: Tcx, rt: Runtime, ev: Evaluation, collected: set<MonoItem>, s: State, a: Action, s': State)
    requires WellFormed(tcx) && Covered(tcx, rt, collected, s) && Step(tcx, rt, ev, s, a, s')
    requires NoUnevaluated(tcx, collected) || PointeesCollected(tcx, collected)
    requires UnaskedCovered(tcx, collected) || !a.CallUnasked?
    ensures Guarded(tcx, ev, collected, s, a)
  {
    PointeesExactly(tcx, collected);
    if a.CallUnasked? || Unevaluates(tcx, s, a) {
      assert FrameCovered(tcx, collected, a.frame);
    }
  }

  /** No assertion of the run fails, nothing aborts, and no assembly calls what it names. */
  ghost predicate EntersNoUnasked(actions: seq<Action>) {
    forall i :: 0 <= i < |actions| ==> !actions[i].CallUnasked?
  }

  /** Without skipped constants, or with nothing left for them to point to, every run is covered
      throughout that enters no callee that is not asked for, and every run at all if these callees
      are collected otherwise. */
  lemma EveryRunCovered(tcx: Tcx, rt: Runtime, ev: Evaluation, roots: set<MonoItem>, collected: set<MonoItem>,
                        edges: Adjacency, states: seq<State>, actions: seq<Action>, n: nat)
    requires WellFormed(tcx) && RuntimeOk(tcx, rt) && Complete(VisitOf(tcx), roots, collected, edges)
    requires IsRun(tcx, rt, ev, states, actions) && Covered(tcx, rt, collected, states[0]) && n < |states|
    requires NoUnevaluated(tcx, collected) || PointeesCollected(tcx, collected)
    requires UnaskedCovered(tcx, collected) || EntersNoUnasked(actions)
    ensures Covered(tcx, rt, collected, states[n])
  {
    CompleteIsClosed(tcx, roots, collected, edges);
    forall i | 0 <= i < |actions| && Covered(tcx, rt, collected, states[i])
      ensures Guarded(tcx, ev, collected, states[i], actions[i])
    {
      RunStep(tcx, rt, ev, states, actions, i);
      StepGuarded(tcx, rt, ev, collected, states[i], actions[i], states[i + 1]);
    }
    RunCovered(tcx, rt, ev, collected, states, actions, n);
  }

  /** A frame of a collected function, with nothing in hand, is covered. */
  lemma CollectedStartCovered(tcx: Tcx, rt: Runtime, collected: set<MonoItem>, root: Instance)
    requires WellFormed(tcx) && Fn(root) in collected
    ensures Covered(tcx, rt, collected, Start(root))
  {
  }

  // ----- The limit of the promise

  /** No step of the run evaluates a constant that the collection skips. */
  ghost predicate SkipsNothing(tcx: Tcx, states: seq<State>, actions: seq<Action>)
    requires |states| == |actions| + 1
  {
    forall i :: 0 <= i < |actions| ==> !Unevaluates(tcx, states[i], actions[i])
  }

  /** The run can evaluate a skipped constant next. */
  ghost predicate MeetsUnevaluated(tcx: Tcx, s: State) {
    exists f, at: nat :: RunningAt(tcx, s, f, at) && IsUnevaluated(EventAt(tcx, f, at))
  }

  /** The run skips nothing so far, and comes to a skipped constant at its end. */
  ghost predicate ComesToUnevaluated(tcx: Tcx, rt: Runtime, ev: Evaluation, states: seq<State>, actions: seq<Action>)
    requires WellFormed(tcx)
  {
    && IsRun(tcx, rt, ev, states, actions)
    && SkipsNothing(tcx, states, actions)
    && MeetsUnevaluated(tcx, states[|states| - 1])
  }

  /** The run can next enter a callee that was neither asked for nor collected otherwise. */
  ghost predicate MeetsMissing(tcx: Tcx, collected: set<MonoItem>, s: State) {
    exists f, at: nat, g ::
      RunningAt(tcx, s, f, at) && g in Unasked(tcx, EventAt(tcx, f, at)) && !TargetCovered(tcx, collected, g)
  }

  /** The run comes to such a callee at its end. */
  ghost predicate ComesToMissing(tcx: Tcx, rt: Runtime, ev: Evaluation, collected: set<MonoItem>, states: seq<State>,
                                 actions: seq<Action>)
    requires WellFormed(tcx)
  {
    && IsRun(tcx, rt, ev, states, actions)
    && MeetsMissing(tcx, collected, states[|states| - 1])
  }

  ghost predicate SomeRunMeetsUnevaluated(tcx: Tcx, rt: Runtime, from: State -> bool)
    requires WellFormed(tcx)
  {
    exists ev, states, actions :: ComesToUnevaluated(tcx, rt, ev, states, actions) && from(states[0])
  }

  ghost predicate SomeRunMeetsMissing(tcx: Tcx, rt: Runtime, from: State -> bool, collected: set<MonoItem>)
    requires WellFormed(tcx)
  {
    exists ev, states, actions :: ComesToMissing(tcx, rt, ev, collected, states, actions) && from(states[0])
  }

  ghost function CoveredStates(tcx: Tcx, rt: Runtime, collected: set<MonoItem>): State -> bool
    requires WellFormed(tcx)
  {
    s => Covered(tcx, rt, collected, s)
  }

  /** Every run from one of the given states ends covered, whatever skipped constants evaluate to. */
  ghost predicate AllRunsCovered(tcx: Tcx, rt: Runtime, from: State -> bool, collected: set<MonoItem>)
    requires WellFormed(tcx)
  {
    forall ev, states, actions ::
      IsRun(tcx, rt, ev, states, actions) && from(states[0]) ==> Covered(tcx, rt, collected, states[|states| - 1])
  }

  /** A run that skips nothing is a run whatever the skipped constants evaluate to. */
  lemma EvaluationIrrelevant(tcx: Tcx, rt: Runtime, ev: Evaluation, ev': Evaluation, states: seq<State>,
                             actions: seq<Action>)
    requires WellFormed(tcx) && IsRun(tcx, rt, ev, states, actions) && SkipsNothing(tcx, states, actions)
    ensures IsRun(tcx, rt, ev', states, actions)
  {
    forall i | 0 <= i < |actions| ensures Step(tcx, rt, ev', states[i], actions[i], states[i + 1]) {
      assert Step(tcx, rt, ev, states[i], actions[i], states[i + 1]) && !Unevaluates(tcx, states[i], actions[i]);
    }
  }

  lemma RunSnoc(tcx: Tcx, rt: Runtime, ev: Evaluation, states: seq<State>, actions: seq<Action>, a: Action, s: State)
    requires WellFormed(tcx) && IsRun(tcx, rt, ev, states, actions)
    requires Step(tcx, rt, ev, states[|states| - 1], a, s)
    ensures IsRun(tcx, rt, ev, states + [s], actions + [a])
  {
    var longer, steps := states + [s], actions + [a];
    forall i | 0 <= i < |steps| ensures Step(tcx, rt, ev, longer[i], steps[i], longer[i + 1]) {
      if i < |actions| { assert Step(tcx, rt, ev, states[i], actions[i], states[i + 1]); }
    }
  }

  lemma RunPrefix(tcx: Tcx, rt: Runtime, ev: Evaluation, states: seq<State>, actions: seq<Action>, n: nat)
    requires WellFormed(tcx) && IsRun(tcx, rt, ev, states, actions) && n <= |actions|
    ensures IsRun(tcx, rt, ev, states[..n + 1], actions[..n])
  {
    forall i | 0 <= i < n ensures Step(tcx, rt, ev, states[..n + 1][i], actions[..n][i], states[..n + 1][i + 1]) {
      assert Step(tcx, rt, ev, states[i], actions[i], states[i + 1]);
    }
  }

  /** A run that goes on to an uncovered state escapes. */
  lemma StepEscapes(tcx: Tcx, rt: Runtime, ev: Evaluation, from: State -> bool, collected: set<MonoItem>,
                    states: seq<State>, actions: seq<Action>, a: Action, s: State)
    requires WellFormed(tcx) && IsRun(tcx, rt, ev, states, actions) && from(states[0])
    requires Step(tcx, rt, ev, states[|states| - 1], a, s) && !Covered(tcx, rt, collected, s)
    ensures !AllRunsCovered(tcx, rt, from, collected)
  {
    RunSnoc(tcx, rt, ev, states, actions, a, s);
    assert (states + [s])[0] == states[0] && (states + [s])[|states + [s]| - 1] == s;
  }

  /** A run that comes to a skipped constant can escape: the constant may turn out to hold a pointer
      to something that was not collected, be it a function, a static or a vtable. */
  lemma UnevaluatedEscapes(tcx: Tcx, rt: Runtime, ev: Evaluation, from: State -> bool, collected: set<MonoItem>,
                           states: seq<State>, actions: seq<Action>, id: AllocId)
    requires WellFormed(tcx) && ComesToUnevaluated(tcx, rt, ev, states, actions) && from(states[0])
    requires !AllocCovered(tcx, collected, id)
    ensures !AllRunsCovered(tcx, rt, from, collected)
  {
    var s := states[|states| - 1];
    var f, at: nat :| RunningAt(tcx, s, f, at) && IsUnevaluated(EventAt(tcx, f, at));
    var ev' := map[EventAt(tcx, f, at).constant.id := Allocation([id])];
    EvaluationIrrelevant(tcx, rt, ev, ev', states, actions);
    assert id in [id] && id in Hold(s, Allocation([id])).held;
    StepEscapes(tcx, rt, ev', from, collected, states, actions, Execute(f, at), Hold(s, Allocation([id])));
  }

  ghost predicate SomeRunExecutes(tcx: Tcx, rt: Runtime, from: State -> bool, g: Instance)
    requires WellFormed(tcx)
  {
    exists ev, states: seq<State>, actions ::
      IsRun(tcx, rt, ev, states, actions) && from(states[0]) && g in states[|states| - 1].frames
  }

  /** In particular it can go on to execute any function that some pointer refers to. */
  lemma UnevaluatedExecutes(tcx: Tcx, rt: Runtime, ev: Evaluation, from: State -> bool, states: seq<State>,
                            actions: seq<Action>, id: AllocId, g: Instance)
    requires WellFormed(tcx) && ComesToUnevaluated(tcx, rt, ev, states, actions) && from(states[0])
    requires tcx.globalAlloc(id) == FunctionAlloc(g) && HasMir(tcx, g)
    ensures SomeRunExecutes(tcx, rt, from, g)
  {
    var s := states[|states| - 1];
    var f, at: nat :| RunningAt(tcx, s, f, at) && IsUnevaluated(EventAt(tcx, f, at));
    var ev' := map[EventAt(tcx, f, at).constant.id := Allocation([id])];
    EvaluationIrrelevant(tcx, rt, ev, ev', states, actions);
    var holding := Hold(s, Allocation([id]));
    assert id in [id] && id in holding.held;
    var loaded := LoadFrom(tcx, holding, id);
    var called := Enter(tcx, loaded, g);
    RunSnoc(tcx, rt, ev', states, actions, Execute(f, at), holding);
    RunSnoc(tcx, rt, ev', states + [holding], actions + [Execute(f, at)], Load(id), loaded);
    RunSnoc(tcx, rt, ev', states + [holding] + [loaded], actions + [Execute(f, at)] + [Load(id)], CallPointer(g), called);
    var longer := states + [holding] + [loaded] + [called];
    assert longer[0] == states[0] && longer[|longer| - 1] == called && g in called.frames;
  }

  /** A run that comes to a callee that is missing can escape through it. */
  lemma MissingEscapes(tcx: Tcx, rt: Runtime, ev: Evaluation, from: State -> bool, collected: set<MonoItem>,
                       states: seq<State>, actions: seq<Action>)
    requires WellFormed(tcx) && ComesToMissing(tcx, rt, ev, collected, states, actions) && from(states[0])
    ensures !AllRunsCovered(tcx, rt, from, collected)
  {
    var s := states[|states| - 1];
    var f, at: nat, g :|
      RunningAt(tcx, s, f, at) && g in Unasked(tcx, EventAt(tcx, f, at)) && !TargetCovered(tcx, collected, g);
    assert g in Enter(tcx, s, g).frames && !FrameCovered(tcx, collected, g);
    StepEscapes(tcx, rt, ev, from, collected, states, actions, CallUnasked(f, at, g), Enter(tcx, s, g));
  }

  lemma UnevaluatedInBodyEscapes(tcx: Tcx, rt: Runtime, from: State -> bool, collected: set<MonoItem>, f: Instance,
                                 at: nat, id: AllocId)
    requires WellFormed(tcx) && from(Start(f))
    requires HasEvent(tcx, f, at) && IsUnevaluated(EventAt(tcx, f, at)) && !AllocCovered(tcx, collected, id)
    ensures !AllRunsCovered(tcx, rt, from, collected)
  {
    assert RunningAt(tcx, Start(f), f, at);
    assert MeetsUnevaluated(tcx, [Start(f)][0]);
    UnevaluatedEscapes(tcx, rt, map[], from, collected, [Start(f)], [], id);
  }

  lemma MissingInBodyEscapes(tcx: Tcx, rt: Runtime, from: State -> bool, collected: set<MonoItem>, f: Instance,
                             at: nat, g: Instance)
    requires WellFormed(tcx) && from(Start(f))
    requires HasEvent(tcx, f, at) && g in Unasked(tcx, EventAt(tcx, f, at)) && !TargetCovered(tcx, collected, g)
    ensures !AllRunsCovered(tcx, rt, from, collected)
  {
    assert RunningAt(tcx, Start(f), f, at);
    assert MeetsMissing(tcx, collected, [Start(f)][0]);
    MissingEscapes(tcx, rt, map[], from, collected, [Start(f)], []);
  }

  /** A run that evaluates a skipped constant comes to one for the first time. */
  lemma {:induction false} FirstUnevaluated(tcx: Tcx, rt: Runtime, ev: Evaluation, states: seq<State>,
                                            actions: seq<Action>)
    returns (n: nat)
    requires WellFormed(tcx) && IsRun(tcx, rt, ev, states, actions) && !SkipsNothing(tcx, states, actions)
    ensures n < |actions| && ComesToUnevaluated(tcx, rt, ev, states[..n + 1], actions[..n])
    ensures states[..n + 1][0] == states[0]
  {
    n := 0;
    while !Unevaluates(tcx, states[n], actions[n])
      invariant n < |actions|
      invariant forall i :: 0 <= i < n ==> !Unevaluates(tcx, states[i], actions[i])
      decreases |actions| - n
    {
      assert exists i :: 0 <= i < |actions| && Unevaluates(tcx, states[i], actions[i]);
      n := n + 1;
    }
    RunPrefix(tcx, rt, ev, states, actions, n);
    assert MeetsUnevaluated(tcx, states[..n + 1][n]);
  }

  /** The steps of a run are guarded unless some run meets what the collection skips. */
  lemma GuardedUnlessMet(tcx: Tcx, rt: Runtime, ev: Evaluation, from: State -> bool, collected: set<MonoItem>,
                         states: seq<State>, actions: seq<Action>, i: nat)
    requires WellFormed(tcx) && IsRun(tcx, rt, ev, states, actions) && from(states[0]) && i < |actions|
    requires !SomeRunMeetsUnevaluated(tcx, rt, from) || PointeesCollected(tcx, collected)
    requires !SomeRunMeetsMissing(tcx, rt, from, collected)
    ensures Guarded(tcx, ev, collected, states[i], actions[i])
  {
    PointeesExactly(tcx, collected);
    RunStep(tcx, rt, ev, states, actions, i);
    var a := actions[i];
    if Unevaluates(tcx, states[i], a) && !PointeesCollected(tcx, collected) {
      var n := FirstUnevaluated(tcx, rt, ev, states, actions);
    }
    if a.CallUnasked? && !TargetCovered(tcx, collected, a.target) {
      RunPrefix(tcx, rt, ev, states, actions, i);
      assert states[..i + 1][0] == states[0];
      assert MeetsMissing(tcx, collected, states[..i + 1][i]);
      assert ComesToMissing(tcx, rt, ev, collected, states[..i + 1], actions[..i]);
    }
  }

  /** From whatever covered states runs start, all of them are covered exactly if none comes to a
      callee that is missing, and none comes to a skipped constant as long as anything at all is
      missing that a pointer can refer to. */
  lemma SoundExactly(tcx: Tcx, rt: Runtime, from: State -> bool, roots: set<MonoItem>, collected: set<MonoItem>,
                     edges: Adjacency)
    requires WellFormed(tcx) && RuntimeOk(tcx, rt) && Complete(VisitOf(tcx), roots, collected, edges)
    requires forall s :: from(s) ==> Covered(tcx, rt, collected, s)
    ensures AllRunsCovered(tcx, rt, from, collected) <==>
            && (!SomeRunMeetsUnevaluated(tcx, rt, from) || PointeesCollected(tcx, collected))
            && !SomeRunMeetsMissing(tcx, rt, from, collected)
  {
    CompleteIsClosed(tcx, roots, collected, edges);
    PointeesExactly(tcx, collected);
    if SomeRunMeetsUnevaluated(tcx, rt, from) && !PointeesCollected(tcx, collected) {
      var ev, states, actions :| ComesToUnevaluated(tcx, rt, ev, states, actions) && from(states[0]);
      var id :| !AllocCovered(tcx, collected, id);
      UnevaluatedEscapes(tcx, rt, ev, from, collected, states, actions, id);
    } else if SomeRunMeetsMissing(tcx, rt, from, collected) {
      var ev, states, actions :| ComesToMissing(tcx, rt, ev, collected, states, actions) && from(states[0]);
      MissingEscapes(tcx, rt, ev, from, collected, states, actions);
    } else {
      forall ev, states, actions | IsRun(tcx, rt, ev, states, actions) && from(states[0])
        ensures Covered(tcx, rt, collected, states[|states| - 1])
      {
        forall i | 0 <= i < |actions| ensures Guarded(tcx, ev, collected, states[i], actions[i]) {
          GuardedUnlessMet(tcx, rt, ev, from, collected, states, actions, i);
        }
        RunCovered(tcx, rt, ev, collected, states, actions, |states| - 1);
      }
    }
  }

  /** Seen from the bodies alone: runs from all covered states are covered exactly if the bodies that
      collected functions run hold no skipped constants, unless nothing is left for these to point to,
      and only such callees that are not asked for as are collected all the same. */
  lemma SoundExactlyByBodies(tcx: Tcx, rt: Runtime, roots: set<MonoItem>, collected: set<MonoItem>, edges: Adjacency)
    requires WellFormed(tcx) && RuntimeOk(tcx, rt) && Complete(VisitOf(tcx), roots, collected, edges)
    ensures AllRunsCovered(tcx, rt, CoveredStates(tcx, rt, collected), collected) <==>
            && (NoUnevaluated(tcx, collected) || PointeesCollected(tcx, collected))
            && UnaskedCovered(tcx, collected)
  {
    var from := CoveredStates(tcx, rt, collected);
    PointeesExactly(tcx, collected);
    if !NoUnevaluated(tcx, collected) && !PointeesCollected(tcx, collected) {
      var f, at: nat :| Fn(f) in collected && HasEvent(tcx, f, at) && IsUnevaluated(EventAt(tcx, f, at));
      var id :| !AllocCovered(tcx, collected, id);
      CollectedStartCovered(tcx, rt, collected, f);
      UnevaluatedInBodyEscapes(tcx, rt, from, collected, f, at, id);
    } else if !UnaskedCovered(tcx, collected) {
      var f, at: nat, g :| Fn(f) in collected && HasEvent(tcx, f, at) && g in Unasked(tcx, EventAt(tcx, f, at))
                           && !TargetCovered(tcx, collected, g);
      CollectedStartCovered(tcx, rt, collected, f);
      MissingInBodyEscapes(tcx, rt, from, collected, f, at, g);
    } else {
      forall ev, states, actions | IsRun(tcx, rt, ev, states, actions) && from(states[0])
        ensures Covered(tcx, rt, collected, states[|states| - 1])
      {
        EveryRunCovered(tcx, rt, ev, roots, collected, edges, states, actions, |states| - 1);
      }
    }
  }
}
