/** The converse of soundness: what the collection asks for can be brought to life by a run. */
module Precision {
  import opened Wrappers
  import opened Paths
  import opened Mir
  import opened Coercion
  import opened Allocations
  import opened Collector
  import opened Execution
  import opened Soundness
  import opened Reasons

  /** Some run goes from one state to the other. */
  ghost predicate Leads(tcx: Tcx, rt: Runtime, ev: Evaluation, s: State, t: State)
    requires WellFormed(tcx)
  {
    exists states, actions ::
      IsRun(tcx, rt, ev, states, actions) && states[0] == s && states[|states| - 1] == t
  }

  lemma LeadsSelf(tcx: Tcx, rt: Runtime, ev: Evaluation, s: State)
    requires WellFormed(tcx)
    ensures Leads(tcx, rt, ev, s, s)
  {
    var states, actions: seq<Action> := [s], [];
    assert IsRun(tcx, rt, ev, states, actions) && states[0] == s && states[|states| - 1] == s;
  }

  lemma LeadsOn(tcx: Tcx, rt: Runtime, ev: Evaluation, s: State, t: State, a: Action, u: State)
    requires WellFormed(tcx) && Leads(tcx, rt, ev, s, t) && Step(tcx, rt, ev, t, a, u)
    ensures Leads(tcx, rt, ev, s, u)
  {
    var states, actions :| IsRun(tcx, rt, ev, states, actions) && states[0] == s && states[|states| - 1] == t;
    RunSnoc(tcx, rt, ev, states, actions, a, u);
    var longer, steps := states + [u], actions + [a];
    assert IsRun(tcx, rt, ev, longer, steps) && longer[0] == s && longer[|longer| - 1] == u;
  }

  lemma LeadsFirst(tcx: Tcx, rt: Runtime, ev: Evaluation, s: State, a: Action, t: State)
    requires WellFormed(tcx) && Step(tcx, rt, ev, s, a, t)
    ensures Leads(tcx, rt, ev, s, t)
  {
    LeadsSelf(tcx, rt, ev, s);
    LeadsOn(tcx, rt, ev, s, s, a, t);
  }

  /** The function is running MIR, or the static is in use. */
  ghost predicate IsAlive(tcx: Tcx, s: State, item: MonoItem) {
    match item
    case Fn(f) => f in s.frames && ShouldCodegenLocally(tcx, f) && HasMir(tcx, f)
    case Static(def) => def in s.statics && !tcx.isAnonStatic(def)
    case GlobalAsm(_) => false
  }

  /** Some run enters the function or gets hold of the static. */
  ghost predicate Enlivens(tcx: Tcx, rt: Runtime, ev: Evaluation, s: State, item: MonoItem)
    requires WellFormed(tcx)
  {
    exists t ::
      && Leads(tcx, rt, ev, s, t)
      && match item
         case Fn(f) => f in t.frames
         case Static(def) => def in t.statics
         case GlobalAsm(_) => false
  }

  ghost predicate Has(tcx: Tcx, f: Instance, e: Event) {
    tcx.body(f).Some? && e in tcx.body(f).value
  }

  lemma PositionOf(tcx: Tcx, s: State, f: Instance, e: Event) returns (at: nat)
    requires IsAlive(tcx, s, Fn(f)) && Has(tcx, f, e)
    ensures RunningAt(tcx, s, f, at) && EventAt(tcx, f, at) == e
  {
    at :| at < |tcx.body(f).value| && tcx.body(f).value[at] == e;
  }

  lemma ExecuteLeads(tcx: Tcx, rt: Runtime, ev: Evaluation, s: State, f: Instance, e: Event)
    requires WellFormed(tcx) && IsAlive(tcx, s, Fn(f)) && Has(tcx, f, e)
    ensures Leads(tcx, rt, ev, s, ExecuteEvent(tcx, ev, s, e))
  {
    var at := PositionOf(tcx, s, f, e);
    LeadsFirst(tcx, rt, ev, s, Execute(f, at), ExecuteEvent(tcx, ev, s, e));
  }

  // ----- One reason after another

  lemma InvokedIsEntered(tcx: Tcx, rt: Runtime, ev: Evaluation, s: State, f: Instance, g: Instance)
    requires WellFormed(tcx) && IsAlive(tcx, s, Fn(f)) && HasMir(tcx, g)
    requires Invokes(tcx, tcx.body(f).value, g)
    ensures Enlivens(tcx, rt, ev, s, Fn(g))
  {
    var body := tcx.body(f).value;
    if def, args :| TerminatorEvent(Call(FnDef(def, args))) in body && tcx.resolve(def, args) == g {
      ExecuteLeads(tcx, rt, ev, s, f, TerminatorEvent(Call(FnDef(def, args))));
    } else {
      var ty :| TerminatorEvent(Drop(ty)) in body && tcx.resolveDropInPlace(ty) == g;
      ExecuteLeads(tcx, rt, ev, s, f, TerminatorEvent(Drop(ty)));
    }
    assert g in Enter(tcx, s, g).frames;
  }

  lemma PointerIsEntered(tcx: Tcx, rt: Runtime, ev: Evaluation, s: State, t: State, g: Instance)
    requires WellFormed(tcx) && Leads(tcx, rt, ev, s, t) && g in t.fnPtrs && HasMir(tcx, g)
    ensures Enlivens(tcx, rt, ev, s, Fn(g))
  {
    LeadsOn(tcx, rt, ev, s, t, CallPointer(g), Enter(tcx, t, g));
    assert g in Enter(tcx, t, g).frames;
  }

  lemma PointedAtIsEntered(tcx: Tcx, rt: Runtime, ev: Evaluation, s: State, f: Instance, g: Instance)
    requires WellFormed(tcx) && IsAlive(tcx, s, Fn(f)) && HasMir(tcx, g)
    requires PointsAt(tcx, tcx.body(f).value, g)
    ensures Enlivens(tcx, rt, ev, s, Fn(g))
  {
    var body := tcx.body(f).value;
    if def, args :| RvalueEvent(ReifyFnPointer(FnDef(def, args))) in body && tcx.resolveForFnPtr(def, args) == g {
      var e := RvalueEvent(ReifyFnPointer(FnDef(def, args)));
      ExecuteLeads(tcx, rt, ev, s, f, e);
      PointerIsEntered(tcx, rt, ev, s, ExecuteEvent(tcx, ev, s, e), g);
    } else {
      var def, args :| RvalueEvent(ClosureFnPointer(Closure(def, args))) in body && tcx.resolveClosure(def, args) == g;
      var e := RvalueEvent(ClosureFnPointer(Closure(def, args)));
      ExecuteLeads(tcx, rt, ev, s, f, e);
      PointerIsEntered(tcx, rt, ev, s, ExecuteEvent(tcx, ev, s, e), g);
    }
  }

  /** The trait object comes to life, with its vtable, and everything else stays. */
  lemma ObjectIsMade(tcx: Tcx, rt: Runtime, ev: Evaluation, s: State, f: Instance, ty: Ty, principal: Option<TraitRef>)
    requires WellFormed(tcx) && IsAlive(tcx, s, Fn(f)) && MakesObject(tcx, tcx.body(f).value, ty, principal)
    ensures Leads(tcx, rt, ev, s, s.(vtables := s.vtables + {Vtable(ty, principal)}))
  {
    var src, dst :|
      RvalueEvent(UnsizeCast(src, dst)) in tcx.body(f).value
      && Coerces(tcx, (src, dst), CoercionBase(ty, Dynamic(principal)));
    ObjectExactly(tcx, src, dst, ty, principal);
    ExecuteLeads(tcx, rt, ev, s, f, RvalueEvent(UnsizeCast(src, dst)));
  }

  /** So does the vtable of a supertrait, where a living object is upcast. */
  lemma ObjectIsUpcast(tcx: Tcx, rt: Runtime, ev: Evaluation, s: State, f: Instance, src: Ty, dst: Ty, v: Vtable,
                       p: Option<TraitRef>, q: Option<TraitRef>)
    requires WellFormed(tcx) && IsAlive(tcx, s, Fn(f)) && RvalueEvent(UnsizeCast(src, dst)) in tcx.body(f).value
    requires Coerces(tcx, (src, dst), CoercionBase(Dynamic(p), Dynamic(q)))
    requires v in s.vtables && rt.upcasts(v.principal, q)
    ensures Leads(tcx, rt, ev, s, s.(vtables := s.vtables + {Vtable(v.ty, q)}))
  {
    ExtractBaseExact(tcx, (src, dst), CoercionBase(Dynamic(p), Dynamic(q)));
    var at := PositionOf(tcx, s, f, RvalueEvent(UnsizeCast(src, dst)));
    LeadsFirst(tcx, rt, ev, s, UpcastObject(f, at, v), s.(vtables := s.vtables + {Vtable(v.ty, q)}));
  }

  /** Some frame calls a method of a trait object, and some frame drops one. */
  ghost predicate UsesObjects(tcx: Tcx, s: State) {
    && (exists f, at: nat :: RunningAt(tcx, s, f, at) && CallsVirtual(tcx, EventAt(tcx, f, at)))
    && (exists f, at: nat :: RunningAt(tcx, s, f, at) && DropsObject(EventAt(tcx, f, at)))
  }

  lemma MethodIsEntered(tcx: Tcx, rt: Runtime, ev: Evaluation, s: State, f: Instance, g: Instance)
    requires WellFormed(tcx) && IsAlive(tcx, s, Fn(f)) && HasMir(tcx, g) && UsesObjects(tcx, s)
    requires HasVtableWith(tcx, tcx.body(f).value, g)
    ensures Enlivens(tcx, rt, ev, s, Fn(g))
  {
    var ty, principal :|
      MakesObject(tcx, tcx.body(f).value, ty, Some(principal)) && Method(g) in tcx.vtableEntries(ty, principal);
    ObjectIsMade(tcx, rt, ev, s, f, ty, Some(principal));
    var v := Vtable(ty, Some(principal));
    var t := s.(vtables := s.vtables + {v});
    var h, at: nat :| RunningAt(tcx, s, h, at) && CallsVirtual(tcx, EventAt(tcx, h, at));
    LeadsOn(tcx, rt, ev, s, t, CallVirtual(h, at, v, g), Enter(tcx, t, g));
    assert g in Enter(tcx, t, g).frames;
  }

  lemma DropGlueIsEntered(tcx: Tcx, rt: Runtime, ev: Evaluation, s: State, f: Instance, g: Instance)
    requires WellFormed(tcx) && IsAlive(tcx, s, Fn(f)) && HasMir(tcx, g) && UsesObjects(tcx, s)
    requires forall ty :: tcx.resolveDropInPlace(ty) == g ==> rt.needsDrop(ty)
    requires HasDropGlue(tcx, tcx.body(f).value, g)
    ensures Enlivens(tcx, rt, ev, s, Fn(g))
  {
    var ty, principal :| MakesObject(tcx, tcx.body(f).value, ty, principal) && tcx.resolveDropInPlace(ty) == g;
    ObjectIsMade(tcx, rt, ev, s, f, ty, principal);
    var v := Vtable(ty, principal);
    var t := s.(vtables := s.vtables + {v});
    var h, at: nat :| RunningAt(tcx, s, h, at) && DropsObject(EventAt(tcx, h, at));
    LeadsOn(tcx, rt, ev, s, t, DropDynamic(h, at, v), Enter(tcx, t, g));
    assert g in Enter(tcx, t, g).frames;
  }

  // ----- Through pointers

  /** Loads follow any chain of memory, anonymous statics and vtables. */
  lemma {:induction false} ChainIsLoaded(tcx: Tcx, rt: Runtime, ev: Evaluation, s: State, t: State, p: seq<AllocId>, n: nat)
    returns (u: State)
    requires WellFormed(tcx) && Leads(tcx, rt, ev, s, t)
    requires IsPath(LooksThroughRel(tcx), p) && p[0] in t.held && n < |p|
    ensures Leads(tcx, rt, ev, s, u) && p[n] in u.held
  {
    u := t;
    if n > 0 {
      var m := n - 1;
      var before := ChainIsLoaded(tcx, rt, ev, s, t, p, m);
      assert LooksThroughRel(tcx)(p[m], p[m + 1]);
      u := LoadFrom(tcx, before, p[m]);
      LeadsOn(tcx, rt, ev, s, before, Load(p[m]), u);
    }
  }

  lemma BehindIsEnlivened(tcx: Tcx, rt: Runtime, ev: Evaluation, s: State, t: State, ptrs: seq<AllocId>, item: MonoItem)
    requires WellFormed(tcx) && Leads(tcx, rt, ev, s, t) && Behind(tcx, ptrs, item)
    requires forall p :: p in ptrs ==> p in t.held
    requires item.Fn? ==> HasMir(tcx, item.instance)
    ensures Enlivens(tcx, rt, ev, s, item)
  {
    var p, end :| p in ptrs && Reaches(LooksThroughRel(tcx), p, end) && ItemOf(tcx, end) == Some(item);
    var path :| IsPathBetween(LooksThroughRel(tcx), path, p, end);
    var u := ChainIsLoaded(tcx, rt, ev, s, t, path, |path| - 1);
    var loaded := LoadFrom(tcx, u, end);
    LeadsOn(tcx, rt, ev, s, u, Load(end), loaded);
    if item.Fn? {
      PointerIsEntered(tcx, rt, ev, s, loaded, item.instance);
    }
  }

  lemma MentionedIsEnlivened(tcx: Tcx, rt: Runtime, ev: Evaluation, s: State, f: Instance, item: MonoItem)
    requires WellFormed(tcx) && IsAlive(tcx, s, Fn(f)) && (item.Fn? ==> HasMir(tcx, item.instance))
    requires Mentions(tcx, tcx.body(f).value, item)
    ensures Enlivens(tcx, rt, ev, s, item)
  {
    if alloc :| ConstEvent(Allocated(alloc)) in tcx.body(f).value && Behind(tcx, alloc.ptrs, item) {
      ExecuteLeads(tcx, rt, ev, s, f, ConstEvent(Allocated(alloc)));
      BehindIsEnlivened(tcx, rt, ev, s, Hold(s, alloc), alloc.ptrs, item);
    } else {
      ExecuteLeads(tcx, rt, ev, s, f, RvalueEvent(ThreadLocalRef(item.staticDef)));
    }
  }

  lemma StaticEnlivens(tcx: Tcx, rt: Runtime, ev: Evaluation, s: State, def: StaticDef, item: MonoItem,
                       reason: CollectionReason)
    requires WellFormed(tcx) && IsAlive(tcx, s, Static(def)) && (item.Fn? ==> HasMir(tcx, item.instance))
    requires InStatic(tcx, def, item, reason)
    ensures Enlivens(tcx, rt, ev, s, item)
  {
    if reason.StaticDrop? {
      var g := item.instance;
      LeadsFirst(tcx, rt, ev, s, DropStatic(def), Enter(tcx, s, g));
      assert g in Enter(tcx, s, g).frames;
    } else {
      var alloc := tcx.evalInitializer(def);
      LeadsFirst(tcx, rt, ev, s, LoadStatic(def), Hold(s, alloc));
      BehindIsEnlivened(tcx, rt, ev, s, Hold(s, alloc), alloc.ptrs, item);
    }
  }

  /** Whatever a living user asks for, a run can bring to life, as far as there is MIR for it, objects
      are used, and destructors have something to drop. Only the mention as a type promises nothing. */
  lemma AskedForIsEnlivened(tcx: Tcx, rt: Runtime, ev: Evaluation, s: State, user: MonoItem, item: MonoItem,
                            reason: CollectionReason)
    requires WellFormed(tcx) && IsAlive(tcx, s, user) && AsksFor(tcx, user, item, reason)
    requires item.Fn? ==> HasMir(tcx, item.instance)
    requires reason in {IndirectCall, VTableMethod} ==> UsesObjects(tcx, s)
    requires reason.IndirectCall? ==> forall ty :: tcx.resolveDropInPlace(ty) == item.instance ==> rt.needsDrop(ty)
    ensures Enlivens(tcx, rt, ev, s, item)
            || (reason.DirectCall? && HasType(tcx, tcx.body(user.instance).value, item.instance))
  {
    match user {
      case Fn(f) =>
        var body := tcx.body(f).value;
        match reason {
          case DirectCall =>
            if Invokes(tcx, body, item.instance) { InvokedIsEntered(tcx, rt, ev, s, f, item.instance); }
          case IndirectCall =>
            if PointsAt(tcx, body, item.instance) {
              PointedAtIsEntered(tcx, rt, ev, s, f, item.instance);
            } else {
              DropGlueIsEntered(tcx, rt, ev, s, f, item.instance);
            }
          case VTableMethod => MethodIsEntered(tcx, rt, ev, s, f, item.instance);
          case StaticReason => MentionedIsEnlivened(tcx, rt, ev, s, f, item);
        }
      case Static(def) => StaticEnlivens(tcx, rt, ev, s, def, item, reason);
    }
  }
}
