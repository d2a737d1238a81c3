/** The entities of the analysis: types, instances, mono items, allocations, and the MIR nodes
    the visitor looks at. Everything the compiler answers is a total function of `Tcx`. */
module Mir {
  import opened Wrappers

  type DefId = nat
  type AdtDef = nat
  type AllocId = nat
  type StaticDef = nat
  type AssertMessage = nat
  type AsmBlock = nat
  type Symbol = string

  datatype TraitRef = TraitRef(def: DefId, args: seq<Ty>)

  datatype Ty =
    | Adt(adt: AdtDef, adtArgs: seq<Ty>)
    | Pat(base: Ty, pattern: nat)
    | Pointer(pointee: Ty, raw: bool)
    | FnDef(fn: DefId, fnArgs: seq<Ty>)
    | FnPtr(signature: nat)
    | Closure(closure: DefId, closureArgs: seq<Ty>)
    | Dynamic(principal: Option<TraitRef>)
    | Slice(elem: Ty)
    | OtherTy(id: nat)
  {
    predicate IsTrait() {
      Dynamic?
    }
  }

  datatype InstanceKind = Virtual | Intrinsic | Shim | Item | LlvmIntrinsic

  datatype Instance = Instance(kind: InstanceKind, def: DefId, args: seq<Ty>)

  datatype MonoItem = Fn(instance: Instance) | Static(staticDef: StaticDef) | GlobalAsm(asm: nat)

  datatype CollectionReason = DirectCall | IndirectCall | VTableMethod | StaticReason | StaticDrop

  datatype CollectedItem = CollectedItem(item: MonoItem, reason: CollectionReason)

  /** The provenance of an allocation: the allocations its pointers refer to, by offset. */
  datatype Allocation = Allocation(ptrs: seq<AllocId>)

  datatype GlobalAlloc =
    | StaticAlloc(def: StaticDef)
    | FunctionAlloc(target: Instance)
    | Memory(alloc: Allocation)
    | VTable(ty: Ty, principal: Option<TraitRef>)
    | TypeId(typeIdOf: Ty)

  datatype VtblEntry =
    | MetadataDropInPlace
    | MetadataSize
    | MetadataAlign
    | Vacant
    | Method(method_: Instance)
    | TraitVPtr(super_: TraitRef)

  datatype ConstantKind =
    | Allocated(alloc: Allocation)
    | Unevaluated(id: nat)
    | Param
    | ZeroSized
    | TyConst

  datatype Rvalue =
    | UnsizeCast(unsizeTy: Ty, targetTy: Ty)
    | ReifyFnPointer(reifyTy: Ty)
    | ClosureFnPointer(closureTy: Ty)
    | ThreadLocalRef(threadLocal: StaticDef)
    | OtherRvalue

  datatype Terminator =
    | Call(funcTy: Ty)
    | Drop(placeTy: Ty)
    | Assert(message: AssertMessage)
    | Abort
    | InlineAsm(block: AsmBlock)
    | OtherTerminator

  /** What the visitor meets while it traverses a body: one case for each overridden method. */
  datatype Event =
    | RvalueEvent(rvalue: Rvalue)
    | ConstEvent(constant: ConstantKind)
    | TerminatorEvent(terminator: Terminator)
    | TyEvent(ty: Ty)

  /** A body, flattened by the default traversal into the order of the visits. */
  type Body = seq<Event>

  /** The assertions and unreachable branches that can stop the analysis. */
  datatype Panic =
    | ExpectedPointer
    | ExpectedDestinationPointer
    | ExpectedTraitOrSlice
    | DifferentAdts
    | NoVariants
    | InvalidCoerceUnsizedImpl
    | CoerceIndexOutOfRange
    | ExpectedDirectCall
    | ExpectedFnDef
    | ExpectedClosure
    | UnexpectedCalleeType
    | UnexpectedParameterConstant
    | NotInCallGraph

  /** The compiler's answers. */
  datatype Tcx = Tcx(
    body: Instance -> Option<Body>,
    hasBody: Instance -> bool,
    isForeign: Instance -> bool,
    mustBeOverridden: Instance -> bool,
    resolve: (DefId, seq<Ty>) -> Instance,
    resolveForFnPtr: (DefId, seq<Ty>) -> Instance,
    resolveClosure: (DefId, seq<Ty>) -> Instance,
    resolveDropInPlace: Ty -> Instance,
    assertFailure: AssertMessage -> Instance,     // the lang item that a failed assertion enters
    abortEntry: Instance,                         // and the one for an abort
    asmSymbols: AsmBlock -> seq<Instance>,        // the functions that the operands of the assembly name
    vtableEntries: (Ty, TraitRef) -> seq<VtblEntry>,
    vtableAllocation: (Ty, Option<TraitRef>) -> AllocId,
    globalAlloc: AllocId -> GlobalAlloc,
    isAnonStatic: StaticDef -> bool,
    staticTy: StaticDef -> Ty,
    staticInstance: StaticDef -> Instance,
    evalInitializer: StaticDef -> Allocation,
    fieldNames: AdtDef -> seq<seq<Symbol>>,       // by variant
    fieldTy: (AdtDef, nat, seq<Ty>) -> Ty,        // of the first variant
    coerceUnsizedIndex: (Ty, Ty) -> Option<nat>,  // None: no user-defined implementation
    lockstepTails: (Ty, Ty) -> (Ty, Ty),
    isBox: AdtDef -> bool,
    fingerprint: MonoItem -> nat,
    layoutDepth: Ty -> nat,
    allocDepth: AllocId -> nat
  )

  /** No type contains itself by value: the compiler rejects types of infinite size. */
  ghost predicate FiniteLayout(tcx: Tcx) {
    && (forall adt, i: nat, args :: tcx.fieldNames(adt) != [] && i < |tcx.fieldNames(adt)[0]| ==>
          tcx.layoutDepth(tcx.fieldTy(adt, i, args)) < tcx.layoutDepth(Adt(adt, args)))
    && (forall base, pattern :: tcx.layoutDepth(base) < tcx.layoutDepth(Pat(base, pattern)))
  }

  predicate ShouldCodegenLocally(tcx: Tcx, instance: Instance) {
    !tcx.isForeign(instance)
  }
}
