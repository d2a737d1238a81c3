# Verification of the kmiri-helper reachability analysis

`kmiri-helper` runs inside the Rust compiler and lists the functions that a crate can reach. It
starts from every local item, visits the MIR of functions and the initializers of statics, follows
constants through the allocations they point to, and records a call graph. The lists of all crates
are merged afterwards. This project models that analysis and proves what its results mean.

| file | what it models |
|---|---|
| `Mir.dfy` | types, instances, mono items, allocations, MIR nodes, and the answers of the compiler (`Tcx`) |
| `Coercion.dfy` | `coercion.rs`: the walk from a coercion of smart pointers to the pointers inside |
| `Allocations.dfy` | `collect_alloc_items`: the items behind an allocation |
| `EdgeLog.dfy`, `Callees.dfy`, `Slices.dfy`, `CallGraph.dfy` | `CallGraph`: edges, back edges, `recursive_callees`, `dump_reason` |
| `Collector.dfy` | `MonoItemsFnCollector`: what one visit finds |
| `Fixpoint.dfy`, `Worklist.dfy` | `MonoItemsCollector`: the worklist, in the abstract and as the class |
| `Reasons.dfy` | why each item is collected and what stops a visit, read off bodies and initializers |
| `Execution.dfy`, `Soundness.dfy` | runs of the analysed program, and that the collection misses nothing they can call |
| `Precision.dfy` | the converse: what is asked for can be brought to life by a run |
| `Locality.dfy` | which foreign items are collected all the same |
| `Counterexamples.dfy` | concrete programs on which promises fail |
| `FunctionInfo.dfy`, `Analysis.dfy` | `FunctionInstanceInfo`, `dedup`, the pipeline of `analysis`, `merge_analysis` |
| `Wrappers.dfy`, `Paths.dfy`, `Ordering.dfy` | options and results, paths of a relation, sorting |

## Main results

* **Nothing a run can call is missed, and where the promise ends.** A small-step semantics covers direct
  calls, calls through function pointers by MIR, built-ins and foreign code, dynamic dispatch with upcasts,
  drops, loads from memory, statics and vtables, thread locals, failed assertions, aborts and the functions
  that inline assembly names. It forgets control flow: frames execute any part of their bodies in any order,
  and the frames of all threads take turns. A run may start anywhere, with anything in hand that is
  collected. `Soundness.EveryRunCovered` shows that in every state of every run each executing local
  function, each live function pointer, and the methods and the destructor of each live vtable have been
  collected, under two conditions. The first concerns unevaluated constants, which the visitor skips
  silently, the second what assertions, aborts and assembly enter, which it does not ask for.
  `Soundness.SoundExactly` shows that both are exact: all runs are covered, whatever skipped constants
  evaluate to, if and only if no run comes to a skipped constant while some pointer refers to something
  uncollected, and none comes to a callee that is neither asked for nor collected otherwise.
  `Soundness.SoundExactlyByBodies` says the same of the bodies alone, and `Counterexamples.dfy` holds
  programs for each of the two ways to escape.
* **Every edge has its reason, and every reason its edge.** `Reasons.EdgesExactly` gives the edges of the
  finished graph under each of the five reasons in terms of what stands in bodies and initializers, without
  the visits that found them; `Reasons.SucceedsExactly` does the same for the events that stop the
  collection. `Precision.AskedForIsEnlivened` is the converse of soundness: but for functions mentioned as
  types, a run can enter or get hold of whatever something alive asks for, as far as there is MIR behind it,
  frames use trait objects, and destructors have something to drop.
* **The worklist computes the least closed set.** After each starting point the collected items are
  exactly the reachable ones, each was visited once, and its edges are exactly what that visit found.
  The collection succeeds if and only if no visit of a reachable item panics.
* **`recursive_callees` is a white-path traversal.** It adds exactly the functions on non-empty paths
  of functions that avoid what was already there, on any graph, and successive traversals accumulate.
* **`dump_reason` prints exactly the backward slice**, each node once and each edge inside it as often
  as it occurs; forward and backward traversal are dual.
* **The coercion walk succeeds exactly on pairs that coerce**, and any wrapping leaves its base alone.
* **`collect_alloc_items` returns one occurrence for each provenance path** to a local function or a
  local named static, and stopping at named statics loses nothing.
* **`dedup` is a group-wise maximum** that depends on the set of entries alone and commutes with merging.
  It does not remove every entry that lies within another, and the condition is given exactly.

## Assumptions

The compiler's queries are total functions, the fields of `Tcx`. Three facts about them are assumed.
`FiniteLayout`: no type contains itself by value. `WellFoundedAllocs`: a cycle of allocations goes
through a named static. `RuntimeOk`: there is no MIR behind virtual instances, LLVM intrinsics, and built-ins
that must be overridden or have no body; the vtable of a trait has the methods of its supertraits, and the
memory of a vtable points to its methods and to the destructor if there is something to drop. The
assertions and unreachable branches of the analysis itself are modelled as panics, and the contracts
say when they happen.

The code and its comments differ in places, and the model follows the code. Each difference is proved
with an input and an exact condition.

* The iterator's comment promises pointers on both sides of the last pair (coercion.rs:151-153), but the base
  case checks the source only (coercion.rs:248-255). `Coercion.LastDestinationCanBeNoPointer` is a pair of
  types that ends otherwise. `Coercion.ExtractUnsizeCasting` stops with a missing destination pointer exactly
  on such pairs.
* The module comment promises initializer and destructor for every static (reachability.rs:13), but an
  anonymous static yields nothing (reachability.rs:229): `Collector.FindsDropAndInitializerExactly`, with
  `Counterexamples.AnonymousStaticFindsNothing`.
* Starting points, destructors of statics and thread locals are not filtered by `should_codegen_locally`, so
  foreign items can be collected: `Locality.AllLocalExactly`, with `Counterexamples.ForeignStaticIsCollected`.

## Model

| member | source | states |
|---|---|---|
| `Coercion.CoerceUnsizedIterator.Next` | kmiri-helper/src/bin/kmiri-helper/coercion.rs:206-262 | the two sides stay in lockstep; the item is the current pair with the coerced field's name; it panics exactly where there is neither a next pair nor a base |
| `Coercion.CoerceUnsizedIterator.Drain` | kmiri-helper/src/bin/kmiri-helper/coercion.rs:144-204 | the items left are the one coercion path, each pair under the name of the field that leads to the next, the last one without; a panic exactly if there is no path |
| `Coercion.WalkExact` | kmiri-helper/src/bin/kmiri-helper/coercion.rs:139-153 | the walk ends at a pair of pointers if and only if a path of coerced fields leads there |
| `Coercion.CoercionPathUnique` | kmiri-helper/src/bin/kmiri-helper/coercion.rs:144-152 | there is at most one such path |
| `Coercion.ExtractBaseExact` | kmiri-helper/src/bin/kmiri-helper/coercion.rs:26-61 | the extraction yields a base if and only if the pair coerces to that base, a trait object or slice on the destination side |
| `Coercion.WrapperInvariance` | kmiri-helper/src/bin/kmiri-helper/coercion.rs:42-46 | any depth of smart-pointer or pattern wrapping gives the base of the pointers inside, and none if they have none |
| `Coercion.ExtractUnsizeCasting` | kmiri-helper/src/bin/kmiri-helper/coercion.rs:79-119 | terminates, never finds an empty walk or a source that is no pointer, succeeds exactly on coercible pairs, and misses a destination pointer exactly where the last pair has none |
| `Coercion.ExtractPointeeExact` | kmiri-helper/src/bin/kmiri-helper/coercion.rs:296-299 | a pointee is extracted exactly from references, raw pointers of either kind and boxes |
| `Coercion.PointersCoerceExactly` | kmiri-helper/src/bin/kmiri-helper/coercion.rs:79-119 | a path to two pointers, raw or not, yields the tails of their targets if and only if the second is a trait object or a slice |
| `Coercion.NamedFieldLeads` | kmiri-helper/src/bin/kmiri-helper/coercion.rs:233-247 | an item names the field whose types make the next pair; a pattern names none |
| `Coercion.LastDestinationCanBeNoPointer` | kmiri-helper/src/bin/kmiri-helper/coercion.rs:151-153 | the last pair can be a pointer on the source side only, and nothing is extracted then |
| `Allocations.CollectAllocItems` | kmiri-helper/src/bin/kmiri-helper/reachability.rs:543-582 | yields local functions and local named statics only, never an anonymous static |
| `Allocations.CollectAllocItemsExact` | kmiri-helper/src/bin/kmiri-helper/reachability.rs:543-582 | an item is found if and only if a chain of memory, anonymous statics and vtables leads to it |
| `Allocations.OneOccurrencePerWay` | kmiri-helper/src/bin/kmiri-helper/reachability.rs:546-578 | occurrences pair off with the provenance paths: none twice, none missing |
| `CallGraphs.CallGraph.AddNode` | kmiri-helper/src/bin/kmiri-helper/reachability.rs:631-636 | a node with empty entries unless there already, and no other change |
| `CallGraphs.CallGraph.AddEdge` | kmiri-helper/src/bin/kmiri-helper/reachability.rs:639-658 | keeps edges and back edges the two views of one record of insertions, longer by this edge |
| `CallGraphs.CallGraph.AddEdges` | kmiri-helper/src/bin/kmiri-helper/reachability.rs:661-666 | adds exactly the given edges, in order, and their ends as nodes |
| `CallGraphs.CallGraph.ExactTranspose` | kmiri-helper/src/bin/kmiri-helper/reachability.rs:586-593 | an edge and its back edge have the same multiplicity, reason included |
| `CallGraphs.CallGraph.EqualTotals` | kmiri-helper/src/bin/kmiri-helper/reachability.rs:639-658 | as many edges as back edges as insertions |
| `CallGraphs.CallGraph.EdgesStayInside` | kmiri-helper/src/bin/kmiri-helper/reachability.rs:642-652 | every edge ends at a node, and back edges are edges turned around |
| `CallGraphs.IndexSet.Insert` | kmiri-helper/src/bin/kmiri-helper/reachability.rs:615 | appends what is new and says whether it was |
| `CallGraphs.CallGraph.RecursiveCallees` | kmiri-helper/src/bin/kmiri-helper/reachability.rs:605-626 | terminates on any graph and adds exactly the functions on white paths, each after a caller of it; fails only for an item that is no node |
| `Callees.TraversalsAccumulate` | kmiri-helper/src/bin/kmiri-helper/reachability.rs:605-626 | after earlier traversals the next one adds all callees of its item, although it turns back at known ones |
| `Slices.CalleeSliceDuality` | kmiri-helper/src/bin/kmiri-helper/reachability.rs:605-745 | the slice of a callee that `recursive_callees` returns holds the caller, and if a slice is made of functions, an edge into it makes its target a callee |
| `CallGraphs.CallGraph.Slice` | kmiri-helper/src/bin/kmiri-helper/reachability.rs:713-731 | the visited nodes are exactly those with a path to a seed, and no lookup fails |
| `CallGraphs.CallGraph.DumpReason` | kmiri-helper/src/bin/kmiri-helper/reachability.rs:712-745 | prints exactly the slice towards the names that contain the target: each node once, each edge inside with its multiplicity, each node directly followed by its edges |
| `Slices.IsSubstringExactly` | kmiri-helper/src/bin/kmiri-helper/reachability.rs:716 | a name contains the target if and only if it is the target with something before and after |
| `Slices.PrintedExactly` | kmiri-helper/src/bin/kmiri-helper/reachability.rs:711-731 | a node is printed if and only if a path leads from it to a node whose name contains the target |
| `Slices.EdgeLinesInOrder` | kmiri-helper/src/bin/kmiri-helper/reachability.rs:736-743 | the edges of a node are printed in their order, those that leave the slice left out |
| `CallGraphs.CallGraph.PrintSlice` | kmiri-helper/src/bin/kmiri-helper/reachability.rs:733-743 | each visited node is printed once and each edge between visited nodes with its multiplicity |
| `Slices.PathsArePrinted` | kmiri-helper/src/bin/kmiri-helper/reachability.rs:711 | every path to a target is printed whole, with a line for each node and each edge |
| `Collector.MonoItemsFnCollector.CollectInstance` | kmiri-helper/src/bin/kmiri-helper/reachability.rs:311-343 | collects local instances with code under the right reason; fails exactly for virtual and intrinsic instances that are not called directly |
| `Collector.MonoItemsFnCollector.CollectVtableMethods` | kmiri-helper/src/bin/kmiri-helper/reachability.rs:267-308 | collects the local methods of the vtable and the destructor |
| `Collector.MonoItemsFnCollector.CollectAllocation` | kmiri-helper/src/bin/kmiri-helper/reachability.rs:346-358 | collects what is behind every pointer of the allocation |
| `Collector.MonoItemsFnCollector.VisitRvalue` | kmiri-helper/src/bin/kmiri-helper/reachability.rs:382-438 | collects what the casts and thread-local references bring to life, or says what stops it |
| `Collector.MonoItemsFnCollector.VisitConstOperand` | kmiri-helper/src/bin/kmiri-helper/reachability.rs:441-460 | collects behind evaluated constants, skips unevaluated ones, fails for parameters only |
| `Collector.MonoItemsFnCollector.VisitTerminator` | kmiri-helper/src/bin/kmiri-helper/reachability.rs:463-497 | collects the callee or the destructor, and nothing for assembly, assertions and aborts; fails exactly for callees that are neither functions nor function pointers |
| `Collector.MonoItemsFnCollector.VisitTy` | kmiri-helper/src/bin/kmiri-helper/reachability.rs:507-513 | collects functions mentioned as types, and never fails |
| `Collector.MonoItemsFnCollector.VisitBody` | kmiri-helper/src/bin/kmiri-helper/reachability.rs:211-222 | the union over the body, and a panic if and only if some part panics |
| `Reasons.EdgesExactly` | kmiri-helper/src/bin/kmiri-helper/reachability.rs:211-438 | an edge is there, under its reason, if and only if the body or the initializer asks for its target; what is asked for is collected |
| `Reasons.CollectedExactly` | kmiri-helper/src/bin/kmiri-helper/reachability.rs:182-208 | collected are the starting points and what collected items ask for |
| `Reasons.TypeMentionIsCollected` | kmiri-helper/src/bin/kmiri-helper/reachability.rs:507-513 | a wanted function mentioned as a type is collected, with a direct-call edge |
| `Reasons.FunctionEdgesOnce` | kmiri-helper/src/bin/kmiri-helper/reachability.rs:211-222 | a function has each of its edges once |
| `Reasons.SucceedsExactly` | kmiri-helper/src/bin/kmiri-helper/reachability.rs:382-497 | the collection succeeds if and only if no body of a reachable function holds an event that stops the visitor |
| `Precision.AskedForIsEnlivened` | kmiri-helper/src/bin/kmiri-helper/reachability.rs:361-376 | a run can bring to life whatever something alive asks for, mentions as types excepted |
| `Fixpoint.ProgressVisit` | kmiri-helper/src/bin/kmiri-helper/reachability.rs:190-207 | an iteration keeps everything tracked, swept and expanded once, despite repeated entries and self-loops |
| `Worklist.MonoItemsCollector.VisitNext` | kmiri-helper/src/bin/kmiri-helper/reachability.rs:190-207 | one iteration keeps the invariant, and collects one more item and queues what is new, in order and with repetitions, or shortens the queue |
| `Worklist.NotCollectedInOrder` | kmiri-helper/src/bin/kmiri-helper/reachability.rs:203-205 | new items are queued in the order of their discovery, with repetitions |
| `Worklist.MonoItemsCollector.ReachableItems` | kmiri-helper/src/bin/kmiri-helper/reachability.rs:189-208 | from any queue, terminates with the queue empty; succeeds if and only if no reachable visit panics |
| `Worklist.MonoItemsCollector.Collect` | kmiri-helper/src/bin/kmiri-helper/reachability.rs:182-185 | afterwards collected, nodes and edges are exactly those reachable from all starting points so far |
| `Worklist.MonoItemsCollector.VisitFn` | kmiri-helper/src/bin/kmiri-helper/reachability.rs:211-222 | lists the found set in some order, nothing for a function without a body |
| `Worklist.MonoItemsCollector.VisitStatic` | kmiri-helper/src/bin/kmiri-helper/reachability.rs:225-252 | the destructor and the items of the initializer with repetitions, nothing for an anonymous static |
| `Collector.StaticOccurrencePerWay` | kmiri-helper/src/bin/kmiri-helper/reachability.rs:225-252 | first the destructor, then one occurrence for each provenance path from the initializer |
| `Collector.FindsDropAndInitializerExactly` | kmiri-helper/src/bin/kmiri-helper/reachability.rs:225-252 | destructor and initializer are found if and only if the static is not anonymous |
| `Counterexamples.AnonymousStaticFindsNothing` | kmiri-helper/src/bin/kmiri-helper/reachability.rs:229 | an anonymous static whose initializer points to a function yields nothing |
| `Fixpoint.CollectedIsLeast` | kmiri-helper/src/bin/kmiri-helper/reachability.rs:182-208 | the collected set is the least closed set with the starting points |
| `Fixpoint.CompleteIsUnique` | kmiri-helper/src/bin/kmiri-helper/reachability.rs:61-63 | the starting points determine the collected set and the edges, in whichever order and grouping they are run |
| `Fixpoint.EdgesAreFindings` | kmiri-helper/src/bin/kmiri-helper/reachability.rs:193-201 | the edges of the graph are exactly what visits of collected items find |
| `Fixpoint.CollectedIsExplained` | kmiri-helper/src/bin/kmiri-helper/reachability.rs:182-208 | edges lead from a starting point to every collected item |
| `Fixpoint.SliceHoldsStartingPoint` | kmiri-helper/src/bin/kmiri-helper/reachability.rs:711-731 | a slice with a target holds a starting point |
| `Worklist.CollectReachableItems` | kmiri-helper/src/bin/kmiri-helper/reachability.rs:54-78 | exactly the reachable items, each once, by ascending fingerprint, with the complete call graph |
| `Execution.HopCovered` | kmiri-helper/src/bin/kmiri-helper/reachability.rs:225-252 | one hop of provenance stays within what is collected, through named statics too |
| `Execution.ProvenanceLosesNothing` | kmiri-helper/src/bin/kmiri-helper/reachability.rs:346-358 | whatever any chain of provenance from a constant ends at is collected, through cycles of statics too |
| `Soundness.StepCovered` | kmiri-helper/src/bin/kmiri-helper/reachability.rs:361-376 | every step keeps the run covered, unless it gets something uncollected out of a skipped constant or from an assertion, an abort or assembly |
| `Soundness.RunCovered` | kmiri-helper/src/bin/kmiri-helper/reachability.rs:361-376 | every run made of such steps is covered throughout, from any covered start |
| `Soundness.EveryRunCovered` | kmiri-helper/src/bin/kmiri-helper/reachability.rs:7-13 | without skipped constants in collected bodies every run is covered throughout as long as it enters no callee that is not asked for, and always if these are collected otherwise |
| `Soundness.UnevaluatedEscapes` | kmiri-helper/src/bin/kmiri-helper/reachability.rs:444-448 | a run that comes to an unevaluated constant can escape if any pointer leads to something uncollected |
| `Soundness.UnevaluatedExecutes` | kmiri-helper/src/bin/kmiri-helper/reachability.rs:444-448 | it can then execute any function that a pointer refers to |
| `Soundness.MissingEscapes` | kmiri-helper/src/bin/kmiri-helper/reachability.rs:482-488 | a run that comes to an assertion, abort or assembly with an uncollected callee can escape |
| `Soundness.SoundExactly` | kmiri-helper/src/bin/kmiri-helper/reachability.rs:441-488 | all runs are covered if and only if none comes to an unevaluated constant, unless every pointee is collected, and none comes to an uncollected callee of an assertion, abort or assembly |
| `Soundness.SoundExactlyByBodies` | kmiri-helper/src/bin/kmiri-helper/reachability.rs:441-488 | the same in terms of the bodies of collected functions, for runs from all covered states |
| `Soundness.PointeesExactly` | kmiri-helper/src/bin/kmiri-helper/reachability.rs:543-582 | all allocations are covered if and only if every local function and local named static with a pointer to it is collected |
| `Counterexamples.SkippedConstantEscapes` | kmiri-helper/src/bin/kmiri-helper/reachability.rs:444-448 | one concrete program meets every assumption and still executes an uncollected function through an unevaluated constant |
| `Counterexamples.UnaskedCalleeEscapes` | kmiri-helper/src/bin/kmiri-helper/reachability.rs:482-488 | three others do so through a failed assertion, an abort and assembly |
| `Locality.ForeignFunctionsExactly` | kmiri-helper/src/bin/kmiri-helper/reachability.rs:183-235 | a foreign function is collected if and only if it is a starting point or the destructor of a collected named static |
| `Locality.ForeignStaticsExactly` | kmiri-helper/src/bin/kmiri-helper/reachability.rs:427-433 | a static that is not local and named is collected if and only if it is a starting point or mentioned as a thread local |
| `Locality.AllLocalExactly` | kmiri-helper/src/bin/kmiri-helper/reachability.rs:183-235 | everything collected is local if and only if starting points, destructors of reachable statics and thread locals of reachable functions are |
| `Counterexamples.ForeignStaticIsCollected` | kmiri-helper/src/bin/kmiri-helper/reachability.rs:427-433 | a concrete program with one local starting point collects a foreign static |
| `FunctionInfo.OrdersAreLinear` | kmiri-helper/src/lib.rs:15-23 | the derived order is linear |
| `FunctionInfo.StringLeExactly` | kmiri-helper/src/lib.rs:15-23 | strings are compared by the first character that differs, and a prefix comes first |
| `FunctionInfo.InfoLeExactly` | kmiri-helper/src/lib.rs:15-23 | entries are compared by instance, then source file, then first line, then last line |
| `FunctionInfo.FunctionList.Dedup` | kmiri-helper/src/lib.rs:34-39 | the in-place sort and compaction leave what the specification says |
| `FunctionInfo.DedupedIsGroupMaximum` | kmiri-helper/src/lib.rs:26-39 | strictly descending in function and start, exactly the entries that end last in their group, a sub-multiset of the input |
| `FunctionInfo.DedupedDependsOnElements` | kmiri-helper/src/lib.rs:34-39 | the result depends on the set of entries alone |
| `FunctionInfo.DedupedIdempotent` | kmiri-helper/src/lib.rs:34-39 | a second removal changes nothing |
| `FunctionInfo.DedupedOfThree` | kmiri-helper/src/lib.rs:42-67 | the case of the repository's own test, for any entries of that shape |
| `FunctionInfo.DedupedRespectsMerging` | kmiri-helper/src/lib.rs:34-39 | removing duplicates in each list first makes no difference, in any order of the lists |
| `FunctionInfo.NestedSurvives` | kmiri-helper/src/lib.rs:26-31 | lines 2-3 and 1-5 of one function both survive |
| `FunctionInfo.NestedExactly` | kmiri-helper/src/lib.rs:26-39 | nested entries remain if and only if some entry starts before a group of its function and ends no earlier |
| `Analysis.Analyze` | kmiri-helper/src/bin/kmiri-helper/main.rs:27-42 | exactly the information on the reachable functions, each once, in strictly ascending lexicographic order of the fields |
| `Analysis.AnalysisIsDeterministic` | kmiri-helper/src/bin/kmiri-helper/main.rs:31-42 | the list is determined by the set of starting points, whatever hash orders and fingerprints do |
| `Analysis.RunsAreListed` | kmiri-helper/src/bin/kmiri-helper/main.rs:30-42 | every local function that a run executes is on the list, under the conditions of `EveryRunCovered` |
| `Analysis.MergeIgnoresListingOrder` | kmiri-helper/src/bin/cargo-kmiri-helper.rs:174-186 | the merged list does not depend on the order of the directory listing |
| `Analysis.MergeThenDedup` | kmiri-helper/src/bin/cargo-kmiri-helper.rs:174-186 | removing duplicates after merging gives what removing them in each file first gives |
| `Analysis.MergeInPathOrder` | kmiri-helper/src/bin/cargo-kmiri-helper.rs:174-186 | each selected file's list appears whole, exactly the selected smaller paths before it |

## Left out

- Worklist.MonoItemsCollector.Collect: takes a finite set that is closed under visits and holds the starting points; without one, as with unbounded polymorphic recursion, the worklist does not end.
- CallGraphs.CallGraph.DumpReason: does not state the order of the nodes, which the hash set leaves open, nor the text of a line; write errors and the surrounding file are not modelled.
- Collector.MonoItemsFnCollector.VisitBody: does not state which of several panics comes first.
- Analysis.Analyze: takes the starting points; turning local items into instances and writing the file are not modelled.
- Panics of compiler queries (`unwrap` of a resolution, an initializer or a static's instance): the queries are total functions.
- The default traversal of MIR: a body is the sequence of the visits it makes.
- Executions inside foreign code, except that it may call any live function pointer; chains of provenance through foreign statics.
- Soundness.EveryRunCovered: a run gets hold of pointers, vtables and statics by the steps of `Execution.Step` only, not by casting integers to pointers, through symbols that global assembly names, or by undefined behaviour.
- `info.rs` and `instance_name`: one function from instances to their information stands for both.
- `filter_crate_items`, `filter_const_crate_items`, `dump_dot` and `dump_all`: dead code or plain output.
- The rest of `cargo-kmiri-helper.rs`: processes, environment, directories and JSON; a file is a function from its path to its list, and the order of paths is a parameter.
- The interpreter, its page states, threads and debugger: their implementation is not part of this repository.
