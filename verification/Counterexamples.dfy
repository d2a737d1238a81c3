/** Programs on which the analysis does not keep what one might expect of it: some that escape their
    collection, one that collects a foreign static, and one with an anonymous static. */
module Counterexamples {
  import opened Wrappers
  import opened Paths
  import opened Mir
  import opened Allocations
  import opened EdgeLog
  import opened Fixpoint
  import opened Collector
  import opened Execution
  import opened Soundness
  import opened Locality

  const CALLER := Instance(Item, 0, [])
  const HIDDEN := Instance(Item, 1, [])
  const FOREIGN := Instance(Item, 2, [])
  const VARIABLE: StaticDef := 0

  function Depth(ty: Ty): nat {
    match ty
    case Pat(base, _) => Depth(base) + 1
    case _ => 0
  }

  /** A caller with the given body; everything else is empty. Every pointer is one to the hidden
      function, which is also what a failed assertion enters. Statics are foreign. */
  function Program(body: Body): Tcx {
    Tcx(
      instance => if instance == CALLER then Some(body) else if instance == HIDDEN then Some([]) else None,
      _ => true,
      instance => instance == FOREIGN,
      _ => false,
      (_, _) => CALLER,
      (_, _) => CALLER,
      (_, _) => CALLER,
      _ => CALLER,
      _ => HIDDEN,
      HIDDEN,
      _ => [HIDDEN],
      (_, _) => [],
      (_, _) => 0,
      _ => FunctionAlloc(HIDDEN),
      _ => false,
      _ => OtherTy(0),
      _ => FOREIGN,
      _ => Allocation([]),
      _ => [],
      (_, _, _) => OtherTy(0),
      (_, _) => None,
      (src, dst) => (src, dst),
      _ => false,
      _ => 0,
      ty => Depth(ty),
      _ => 0
    )
  }

  function NothingToDrop(): Runtime {
    Runtime(_ => false, (_, _) => false)
  }

  lemma AssumptionsHold(body: Body)
    ensures WellFormed(Program(body)) && RuntimeOk(Program(body), NothingToDrop())
  {
    var tcx := Program(body);
    assert forall id :: LooksThrough(tcx, id) == [];
    assert forall ty, p, m :: !HasMethod(tcx, Vtable(ty, p), m);
  }

  /** A closed set of reachable items, with what their visits find, is what the collection finds. */
  lemma IsComplete(visit: Visit, root: MonoItem, collected: set<MonoItem>, edges: Adjacency)
    requires root in collected && edges.Keys == collected && Closed(FindsRel(visit), collected)
    requires forall x :: x in collected ==> visit(x) == Some(multiset(edges[x]))
    requires forall x :: x in collected ==> x == root || Finds(visit, root, x)
    ensures Complete(visit, {root}, collected, edges)
  {
    RootsReachable(visit, {root}, root);
    forall x ensures x in collected <==> Reachable(visit, {root}, x) {
      if x in collected && x != root {
        ReachableSuccessor(visit, {root}, root, x);
      } else if Reachable(visit, {root}, x) {
        InUniverse(visit, {root}, collected, x);
      }
    }
  }

  /** What the visit of a caller with a single event finds. */
  lemma VisitOfCaller(e: Event)
    requires WellFormed(Program([e])) && EventOk(Program([e]), e)
    ensures VisitOf(Program([e]))(Fn(CALLER)) == Some(multiset(EventItems(Program([e]), e)))
  {
    var tcx := Program([e]);
    assert e in [e];
    assert BodyOk(tcx, [e]) && BodyItems(tcx, [e]) == EventItems(tcx, e);
    assert Successors(tcx, Fn(CALLER)) == multiset(EventItems(tcx, e));
  }

  /** A caller whose only event finds nothing is collected alone. */
  lemma CallerIsCollected(e: Event)
    requires WellFormed(Program([e])) && EventOk(Program([e]), e) && EventItems(Program([e]), e) == {}
    ensures Complete(VisitOf(Program([e])), {Fn(CALLER)}, {Fn(CALLER)}, map[Fn(CALLER) := []])
  {
    var visit, caller := VisitOf(Program([e])), Fn(CALLER);
    VisitOfCaller(e);
    assert multiset(EventItems(Program([e]), e)) == multiset{};
    assert visit(caller) == Some(multiset{});
    assert forall y :: !FindsRel(visit)(caller, y);
    assert Closed(FindsRel(visit), {caller});
    IsComplete(visit, caller, {caller}, map[caller := []]);
  }

  predicate IsStart(s: State) {
    s == Start(CALLER)
  }

  /** Without a condition on unevaluated constants the collection is not sound: with every assumption
      met, a run of this program executes a local function that is not collected. */
  lemma SkippedConstantEscapes()
    ensures var tcx := Program([ConstEvent(Unevaluated(0))]);
            && WellFormed(tcx) && RuntimeOk(tcx, NothingToDrop())
            && Complete(VisitOf(tcx), {Fn(CALLER)}, {Fn(CALLER)}, map[Fn(CALLER) := []])
            && !AllRunsCovered(tcx, NothingToDrop(), IsStart, {Fn(CALLER)})
            && ShouldCodegenLocally(tcx, HIDDEN) && SomeRunExecutes(tcx, NothingToDrop(), IsStart, HIDDEN)
  {
    var e := ConstEvent(Unevaluated(0));
    AssumptionsHold([e]);
    CallerIsCollected(e);
    var tcx := Program([e]);
    assert EventAt(tcx, CALLER, 0) == e;
    CollectAllocItemsUnfold(tcx, 0);
    assert Fn(HIDDEN) in CollectAllocItems(tcx, 0);
    UnevaluatedInBodyEscapes(tcx, NothingToDrop(), IsStart, {Fn(CALLER)}, CALLER, 0, 0);
    assert RunningAt(tcx, [Start(CALLER)][0], CALLER, 0);
    assert MeetsUnevaluated(tcx, [Start(CALLER)][0]);
    UnevaluatedExecutes(tcx, NothingToDrop(), map[], IsStart, [Start(CALLER)], [], 0, HIDDEN);
  }

  /** Nor without one on assertions, aborts and assembly: these programs are free of constants, and a
      run of theirs executes a local function that is not collected. */
  lemma UnaskedCalleeEscapes(e: Event)
    requires e.TerminatorEvent? && e.terminator in {Assert(0), Abort, InlineAsm(0)}
    ensures var tcx := Program([e]);
            && WellFormed(tcx) && RuntimeOk(tcx, NothingToDrop())
            && Complete(VisitOf(tcx), {Fn(CALLER)}, {Fn(CALLER)}, map[Fn(CALLER) := []])
            && NoUnevaluated(tcx, {Fn(CALLER)})
            && !AllRunsCovered(tcx, NothingToDrop(), IsStart, {Fn(CALLER)})
  {
    AssumptionsHold([e]);
    CallerIsCollected(e);
    var tcx := Program([e]);
    assert EventAt(tcx, CALLER, 0) == e && Unasked(tcx, e)[0] == HIDDEN;
    MissingInBodyEscapes(tcx, NothingToDrop(), IsStart, {Fn(CALLER)}, CALLER, 0, HIDDEN);
  }

  /** A foreign static is collected with a local starting point as the only one, if this refers to it
      as a thread local. */
  lemma ForeignStaticIsCollected()
    ensures var tcx := Program([RvalueEvent(ThreadLocalRef(VARIABLE))]);
            && WellFormed(tcx)
            && IsLocal(tcx, Fn(CALLER)) && !IsLocal(tcx, Static(VARIABLE))
            && Complete(VisitOf(tcx), {Fn(CALLER)}, {Fn(CALLER), Static(VARIABLE)},
                        map[Fn(CALLER) := [CollectedItem(Static(VARIABLE), StaticReason)],
                            Static(VARIABLE) := [CollectedItem(Fn(CALLER), StaticDrop)]])
  {
    var e := RvalueEvent(ThreadLocalRef(VARIABLE));
    AssumptionsHold([e]);
    var tcx := Program([e]);
    var visit, caller, variable := VisitOf(tcx), Fn(CALLER), Static(VARIABLE);
    var toVariable, toCaller := CollectedItem(variable, StaticReason), CollectedItem(caller, StaticDrop);
    VisitOfCaller(e);
    assert multiset({toVariable}) == multiset([toVariable]);
    assert StaticItems(tcx, VARIABLE) == [toCaller];
    IsComplete(visit, caller, {caller, variable}, map[caller := [toVariable], variable := [toCaller]]);
  }

  /** The visit of an anonymous static finds neither its destructor nor what its initializer holds. */
  lemma AnonymousStaticFindsNothing()
    ensures var tcx := Program([]).(isAnonStatic := _ => true, evalInitializer := _ => Allocation([0]));
            && WellFormed(tcx)
            && CollectPtrItems(tcx, tcx.evalInitializer(VARIABLE).ptrs) == [Fn(HIDDEN)]
            && Successors(tcx, Static(VARIABLE)) == multiset{}
  {
    AssumptionsHold([]);
    var tcx := Program([]).(isAnonStatic := _ => true, evalInitializer := _ => Allocation([0]));
    assert forall id :: LooksThrough(tcx, id) == [];
    CollectAllocItemsUnfold(tcx, 0);
    assert [0][1..] == [];
    assert CollectPtrItems(tcx, [0]) == CollectAllocItems(tcx, 0) + CollectPtrItems(tcx, [0][1..]);
  }
}
