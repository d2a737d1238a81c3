/** From the starting points of a crate to its list of functions, and from the lists of all crates
    to one. */
module Analysis {
  import opened Wrappers
  import opened Paths
  import opened Ordering
  import opened Mir
  import opened EdgeLog
  import opened Collector
  import opened Fixpoint
  import opened Worklist
  import opened Execution
  import opened Soundness
  import opened FunctionInfo

  // ----- The list of one crate

  /** The information on the functions among the items, in the order of the items. */
  function FunctionInfos(items: seq<MonoItem>, info: Instance -> FunctionInstanceInfo): (r: seq<FunctionInstanceInfo>)
    ensures forall x :: x in r <==> exists f :: Fn(f) in items && info(f) == x
  {
    if items == [] then [] else
      assert forall y :: y in items <==> y == items[0] || y in items[1..];
      (if items[0].Fn? then [info(items[0].instance)] else []) + FunctionInfos(items[1..], info)
  }

  /** The list is in strictly ascending order and holds the information on the reachable functions. */
  ghost predicate IsAnalysis(visit: Visit, roots: set<MonoItem>, info: Instance -> FunctionInstanceInfo,
                             list: seq<FunctionInstanceInfo>) {
    && InOrder(list)
    && forall x :: x in list <==> exists f :: Reachable(visit, roots, Fn(f)) && info(f) == x
  }

  function Normalized(infos: seq<FunctionInstanceInfo>): (r: seq<FunctionInstanceInfo>)
    ensures StrictlySorted(Ascending(), r) && SameElements(r, infos)
  {
    OrdersAreLinear();
    var sorted := SortBy(Ascending(), infos);
    SortKeepsElements(Ascending(), infos);
    DedupSorted(Ascending(), Equal<FunctionInstanceInfo>(), sorted);
    DedupBy(Equal<FunctionInstanceInfo>(), sorted)
  }

  method Analyze(tcx: Tcx, info: Instance -> FunctionInstanceInfo, startingPoints: seq<Instance>,
                 ghost universe: set<MonoItem>)
    returns (r: Result<seq<FunctionInstanceInfo>, Panic>)
    requires WellFormed(tcx)
    requires Closed(FindsRel(VisitOf(tcx)), universe) && FunctionsOf(startingPoints) <= universe
    ensures r.Ok? <==> AllVisitsOk(VisitOf(tcx), FunctionsOf(startingPoints))
    ensures r.Ok? ==> IsAnalysis(VisitOf(tcx), FunctionsOf(startingPoints), info, r.value)
  {
    var items, _ := CollectReachableItems(tcx, startingPoints, universe);
    if items.Err? {
      return Err(items.error);
    }
    var infos := FunctionInfos(items.value, info);
    CollectedInfos(VisitOf(tcx), FunctionsOf(startingPoints), items.value, info);
    InOrderExactly(Normalized(infos));
    return Ok(Normalized(infos));
  }

  lemma CollectedInfos(visit: Visit, roots: set<MonoItem>, items: seq<MonoItem>, info: Instance -> FunctionInstanceInfo)
    requires forall x {:trigger Reachable(visit, roots, x)} :: x in Elements(items) <==> Reachable(visit, roots, x)
    ensures forall x :: x in FunctionInfos(items, info) <==> exists f :: Reachable(visit, roots, Fn(f)) && info(f) == x
  {
    forall f ensures Fn(f) in items <==> Reachable(visit, roots, Fn(f)) {
      assert Fn(f) in Elements(items) <==> Fn(f) in items;
    }
  }

  /** The list is determined by the set of starting points: neither their order, nor the iteration
      order of the collected set, nor collisions of fingerprints make a difference. */
  lemma AnalysisIsDeterministic(visit: Visit, info: Instance -> FunctionInstanceInfo, a: seq<Instance>, b: seq<Instance>,
                                listA: seq<FunctionInstanceInfo>, listB: seq<FunctionInstanceInfo>)
    requires SameElements(a, b)
    requires IsAnalysis(visit, FunctionsOf(a), info, listA) && IsAnalysis(visit, FunctionsOf(b), info, listB)
    ensures listA == listB
  {
    assert FunctionsOf(a) == FunctionsOf(b);
    OrdersAreLinear();
    InOrderExactly(listA);
    InOrderExactly(listB);
    StrictlySortedUnique(Ascending(), listA, listB);
  }

  /** From the starting points to the list: whatever local function a run ever executes is on the
      list, if no collected body holds a constant that the collection skips, and as long as the run
      enters no callee that the collection does not ask for. */
  lemma RunsAreListed(tcx: Tcx, rt: Runtime, ev: Evaluation, info: Instance -> FunctionInstanceInfo,
                      list: seq<FunctionInstanceInfo>,
                      roots: set<MonoItem>, collected: set<MonoItem>, edges: Adjacency,
                      states: seq<State>, actions: seq<Action>, n: nat, f: Instance)
    requires WellFormed(tcx) && RuntimeOk(tcx, rt) && Complete(VisitOf(tcx), roots, collected, edges)
    requires NoUnevaluated(tcx, collected) || PointeesCollected(tcx, collected)
    requires UnaskedCovered(tcx, collected) || EntersNoUnasked(actions)
    requires IsAnalysis(VisitOf(tcx), roots, info, list)
    requires IsRun(tcx, rt, ev, states, actions) && Covered(tcx, rt, collected, states[0])
    requires n < |states| && f in states[n].frames && ShouldCodegenLocally(tcx, f)
    ensures info(f) in list
  {
    EveryRunCovered(tcx, rt, ev, roots, collected, edges, states, actions, n);
    assert FrameCovered(tcx, collected, f);
    assert Reachable(VisitOf(tcx), roots, Fn(f));
  }

  // ----- The lists of all crates

  type Path = string

  /** The files to merge: those with the right extension, sorted and each once. */
  function Selected(listing: seq<Path>, le: (Path, Path) -> bool, isJson: Path -> bool): (r: seq<Path>)
    requires Linear(le)
    ensures StrictlySorted(le, r)
    ensures forall p :: p in r <==> p in listing && isJson(p)
  {
    var sorted := SortBy(le, Filter(listing, isJson));
    SortKeepsElements(le, Filter(listing, isJson));
    DedupSorted(le, Equal<Path>(), sorted);
    DedupBy(Equal<Path>(), sorted)
  }

  function Filter<T(!new)>(s: seq<T>, keep: T -> bool): (r: seq<T>)
    ensures forall x :: x in r <==> x in s && keep(x)
  {
    if s == [] then [] else
      assert forall x :: x in s <==> x == s[0] || x in s[1..];
      (if keep(s[0]) then [s[0]] else []) + Filter(s[1..], keep)
  }

  function ReadAll(paths: seq<Path>, read: Path -> seq<FunctionInstanceInfo>): (r: seq<seq<FunctionInstanceInfo>>)
    ensures |r| == |paths| && forall k :: 0 <= k < |paths| ==> r[k] == read(paths[k])
  {
    seq(|paths|, k requires 0 <= k < |paths| => read(paths[k]))
  }

  /** The concatenation of the lists in the files, in the order of the paths. */
  function MergeAnalysis(listing: seq<Path>, le: (Path, Path) -> bool, isJson: Path -> bool,
                         read: Path -> seq<FunctionInstanceInfo>)
    : seq<FunctionInstanceInfo>
    requires Linear(le)
  {
    Flatten(ReadAll(Selected(listing, le, isJson), read))
  }

  /** The merged list does not depend on how often or in which order the directory lists its files. */
  lemma MergeIgnoresListingOrder(a: seq<Path>, b: seq<Path>, le: (Path, Path) -> bool, isJson: Path -> bool,
                                 read: Path -> seq<FunctionInstanceInfo>)
    requires Linear(le) && SameElements(a, b)
    ensures MergeAnalysis(a, le, isJson, read) == MergeAnalysis(b, le, isJson, read)
  {
    StrictlySortedUnique(le, Selected(a, le, isJson), Selected(b, le, isJson));
  }

  /** Removing duplicates from the merged list gives what removing them from each file first gives. */
  lemma MergeThenDedup(listing: seq<Path>, le: (Path, Path) -> bool, isJson: Path -> bool,
                       read: Path -> seq<FunctionInstanceInfo>)
    requires Linear(le)
    ensures Deduped(MergeAnalysis(listing, le, isJson, read))
         == Deduped(MergeAnalysis(listing, le, isJson, p => Deduped(read(p))))
  {
    var deduped: Path -> seq<FunctionInstanceInfo> := p => Deduped(read(p));
    var paths := Selected(listing, le, isJson);
    var lists := ReadAll(paths, read);
    assert DedupedEach(lists) == ReadAll(paths, deduped);
    DedupedRespectsMerging(lists, lists);
  }

  /** The merged list holds the list of each file whole, after those of the paths before it and
      before those of the paths after it. */
  lemma {:induction false} FlattenSplits(lists: seq<seq<FunctionInstanceInfo>>, k: nat)
    requires k < |lists|
    ensures Flatten(lists) == Flatten(lists[..k]) + lists[k] + Flatten(lists[k + 1..])
  {
    if k == 0 {
      assert lists[..0] == [];
    } else {
      FlattenSplits(lists[1..], k - 1);
      assert lists[..k][0] == lists[0] && lists[..k][1..] == lists[1..][..k - 1];
      assert lists[1..][k..] == lists[k + 1..];
    }
  }

  /** The entries before position `k` of a strictly sorted list are exactly the smaller ones. */
  lemma SmallerBefore(le: (Path, Path) -> bool, paths: seq<Path>, k: nat, p: Path)
    requires Linear(le) && StrictlySorted(le, paths) && k < |paths|
    ensures p in paths[..k] <==> p in paths && le(p, paths[k]) && p != paths[k]
  {
    if p in paths {
      var i :| 0 <= i < |paths| && paths[i] == p;
      assert i < k ==> paths[..k][i] == p;
    }
  }

  /** The list of each selected file appears whole, after those of exactly the selected files with
      smaller paths. */
  lemma MergeInPathOrder(listing: seq<Path>, le: (Path, Path) -> bool, isJson: Path -> bool,
                         read: Path -> seq<FunctionInstanceInfo>, k: nat)
    requires Linear(le) && k < |Selected(listing, le, isJson)|
    ensures var paths := Selected(listing, le, isJson);
            && MergeAnalysis(listing, le, isJson, read)
               == Flatten(ReadAll(paths[..k], read)) + read(paths[k]) + Flatten(ReadAll(paths[k + 1..], read))
            && (forall p :: p in paths[..k] <==> p in paths && le(p, paths[k]) && p != paths[k])
  {
    var paths := Selected(listing, le, isJson);
    FlattenSplits(ReadAll(paths, read), k);
    assert ReadAll(paths, read)[..k] == ReadAll(paths[..k], read);
    assert ReadAll(paths, read)[k + 1..] == ReadAll(paths[k + 1..], read);
    forall p ensures p in paths[..k] <==> p in paths && le(p, paths[k]) && p != paths[k] {
      SmallerBefore(le, paths, k, p);
    }
  }
}
