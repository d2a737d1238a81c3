/** The walk from an unsized coercion of (smart) pointers to the builtin pointers inside, after
    the "Detailed design" of RFC 0982. */
module Coercion {
  import opened Wrappers
  import opened Paths
  import opened Mir

  datatype CoerceUnsizedInfo = CoerceUnsizedInfo(field: Option<Symbol>, srcTy: Ty, dstTy: Ty)

  datatype CoercionBase = CoercionBase(srcTy: Ty, dstTy: Ty)

  type TyPair = (Ty, Ty)

  /** The pointee of a builtin pointer: a reference, a raw pointer or a box. */
  function ExtractPointee(tcx: Tcx, ty: Ty): Option<Ty> {
    match ty
    case Pointer(pointee, _) => Some(pointee)
    case Adt(adt, args) => if tcx.isBox(adt) && |args| > 0 then Some(args[0]) else None
    case _ => None
  }

  // ----- What a coercion is, independently of the walk

  /** A reference, a raw pointer or a box. */
  ghost predicate IsPointerTo(tcx: Tcx, ty: Ty, pointee: Ty) {
    || ty == Pointer(pointee, true)
    || ty == Pointer(pointee, false)
    || exists adt, args :: ty == Adt(adt, args) && tcx.isBox(adt) && |args| > 0 && args[0] == pointee
  }

  ghost predicate IsPointer(tcx: Tcx, ty: Ty) {
    exists pointee :: IsPointerTo(tcx, ty, pointee)
  }

  lemma ExtractPointeeExact(tcx: Tcx, ty: Ty, pointee: Ty)
    ensures ExtractPointee(tcx, ty) == Some(pointee) <==> IsPointerTo(tcx, ty, pointee)
  {
  }

  lemma IsPointerExactly(tcx: Tcx, ty: Ty)
    ensures ExtractPointee(tcx, ty).Some? <==> IsPointer(tcx, ty)
  {
    if ExtractPointee(tcx, ty).Some? {
      ExtractPointeeExact(tcx, ty, ExtractPointee(tcx, ty).value);
    }
    if pointee :| IsPointerTo(tcx, ty, pointee) {
      ExtractPointeeExact(tcx, ty, pointee);
    }
  }

  /** The coerced field of a pair of smart pointers, or the base of a pair of pattern types. */
  ghost predicate Descends(tcx: Tcx, x: TyPair, y: TyPair) {
    match x
    case (Adt(srcAdt, srcArgs), Adt(dstAdt, dstArgs)) =>
      && srcAdt == dstAdt
      && tcx.fieldNames(srcAdt) != []
      && tcx.coerceUnsizedIndex(x.0, x.1).Some?
      && var i := tcx.coerceUnsizedIndex(x.0, x.1).value;
         && i < |tcx.fieldNames(srcAdt)[0]|
         && y == (tcx.fieldTy(srcAdt, i, srcArgs), tcx.fieldTy(dstAdt, i, dstArgs))
    case (Pat(srcBase, _), Pat(dstBase, _)) => y == (srcBase, dstBase)
    case _ => false
  }

  ghost function DescendsRel(tcx: Tcx): (TyPair, TyPair) -> bool {
    (x, y) => Descends(tcx, x, y)
  }

  /** The name of the field that leads from a pair of smart pointers to the next pair. */
  ghost function CoercedField(tcx: Tcx, x: TyPair): Option<Symbol>
    requires exists y :: Descends(tcx, x, y)
  {
    if x.0.Adt? then
      Some(tcx.fieldNames(x.0.adt)[0][tcx.coerceUnsizedIndex(x.0, x.1).value])
    else None
  }

  /** A pair at which the walk ends: neither two ADTs nor two pattern types, and the source is a
      builtin pointer. */
  ghost predicate IsBase(tcx: Tcx, x: TyPair) {
    && !(x.0.Adt? && x.1.Adt?)
    && !(x.0.Pat? && x.1.Pat?)
    && IsPointer(tcx, x.0)
  }

  /** `path` leads through coerced fields from `x` to a pair of builtin pointers. */
  ghost predicate CoercionPath(tcx: Tcx, path: seq<TyPair>, x: TyPair) {
    && IsPath(DescendsRel(tcx), path)
    && path[0] == x
    && IsBase(tcx, path[|path| - 1])
  }

  ghost predicate HasCoercionPath(tcx: Tcx, x: TyPair) {
    exists path :: CoercionPath(tcx, path, x)
  }

  /** `path` witnesses that the coercion of `x` unsizes `base.srcTy` to `base.dstTy`. */
  ghost predicate CoercesVia(tcx: Tcx, path: seq<TyPair>, x: TyPair, base: CoercionBase) {
    && CoercionPath(tcx, path, x)
    && (exists src, dst ::
          && IsPointerTo(tcx, path[|path| - 1].0, src)
          && IsPointerTo(tcx, path[|path| - 1].1, dst)
          && tcx.lockstepTails(src, dst) == (base.srcTy, base.dstTy))
    && (base.dstTy.Dynamic? || base.dstTy.Slice?)
  }

  ghost predicate Coerces(tcx: Tcx, x: TyPair, base: CoercionBase) {
    exists path :: CoercesVia(tcx, path, x, base)
  }

  lemma {:induction false} CoercionPathUnique(tcx: Tcx, p: seq<TyPair>, q: seq<TyPair>, x: TyPair)
    requires CoercionPath(tcx, p, x) && CoercionPath(tcx, q, x)
    ensures p == q
    decreases |p|
  {
    FirstStep(tcx, p, x);
    FirstStep(tcx, q, x);
    if |p| > 1 && |q| > 1 {
      TailPath(tcx, p, x);
      TailPath(tcx, q, x);
      CoercionPathUnique(tcx, p[1..], q[1..], p[1]);
      assert p == [x] + p[1..] && q == [x] + q[1..];
    }
  }

  lemma FirstStep(tcx: Tcx, p: seq<TyPair>, x: TyPair)
    requires CoercionPath(tcx, p, x)
    ensures |p| > 1 ==> Descends(tcx, x, p[1])
  {
    assert |p| > 1 ==> DescendsRel(tcx)(p[0], p[0 + 1]);
  }

  lemma TailPath(tcx: Tcx, p: seq<TyPair>, x: TyPair)
    requires CoercionPath(tcx, p, x) && |p| > 1
    ensures CoercionPath(tcx, p[1..], p[1])
  {
    forall i | 0 <= i < |p[1..]| - 1 ensures Descends(tcx, p[1..][i], p[1..][i + 1]) {
      assert DescendsRel(tcx)(p[i + 1], p[i + 1 + 1]);
    }
  }

  lemma ConsPath(tcx: Tcx, p: seq<TyPair>, x: TyPair)
    requires |p| > 0 && CoercionPath(tcx, p, p[0]) && Descends(tcx, x, p[0])
    ensures CoercionPath(tcx, [x] + p, x)
  {
    var q := [x] + p;
    forall i | 0 <= i < |q| - 1 ensures Descends(tcx, q[i], q[i + 1]) {
      if i > 0 { assert DescendsRel(tcx)(p[i - 1], p[i - 1 + 1]); }
    }
    assert q[|q| - 1] == p[|p| - 1];
  }

  // ----- The walk

  /** The pair of builtin pointers inside `src` and `dst`, if the walk reaches one. */
  function Walk(tcx: Tcx, src: Ty, dst: Ty): Option<TyPair>
    requires FiniteLayout(tcx)
    decreases tcx.layoutDepth(src)
  {
    match (src, dst)
    case (Adt(srcDef, srcArgs), Adt(dstDef, dstArgs)) =>
      var index := tcx.coerceUnsizedIndex(src, dst);
      if srcDef == dstDef && tcx.fieldNames(srcDef) != [] && index.Some? && index.value < |tcx.fieldNames(srcDef)[0]|
      then Walk(tcx, tcx.fieldTy(srcDef, index.value, srcArgs), tcx.fieldTy(dstDef, index.value, dstArgs))
      else None
    case (Pat(srcBase, _), Pat(dstBase, _)) => Walk(tcx, srcBase, dstBase)
    case _ => if ExtractPointee(tcx, src).Some? then Some((src, dst)) else None
  }

  /** The walk ends at a pair of pointers exactly when coerced fields lead there. */
  lemma {:induction false} WalkExact(tcx: Tcx, x: TyPair)
    requires FiniteLayout(tcx)
    ensures Walk(tcx, x.0, x.1).Some? ==>
              exists p :: CoercionPath(tcx, p, x) && p[|p| - 1] == Walk(tcx, x.0, x.1).value
    ensures forall p :: CoercionPath(tcx, p, x) ==> Walk(tcx, x.0, x.1) == Some(p[|p| - 1])
    decreases tcx.layoutDepth(x.0)
  {
    if y :| Descends(tcx, x, y) {
      assert Walk(tcx, x.0, x.1) == Walk(tcx, y.0, y.1);
      WalkExact(tcx, y);
      if Walk(tcx, x.0, x.1).Some? {
        var p :| CoercionPath(tcx, p, y) && p[|p| - 1] == Walk(tcx, y.0, y.1).value;
        ConsPath(tcx, p, x);
        assert ([x] + p)[|[x] + p| - 1] == p[|p| - 1];
      }
      forall p | CoercionPath(tcx, p, x) ensures Walk(tcx, x.0, x.1) == Some(p[|p| - 1]) {
        FirstStep(tcx, p, x);
        if |p| > 1 { TailPath(tcx, p, x); }
      }
    } else {
      if Walk(tcx, x.0, x.1).Some? {
        WalkStuck(tcx, x);
        assert CoercionPath(tcx, [x], x);
        assert [x][|[x]| - 1] == x;
      }
      forall p | CoercionPath(tcx, p, x) ensures Walk(tcx, x.0, x.1) == Some(p[|p| - 1]) {
        FirstStep(tcx, p, x);
      }
    }
  }

  lemma WalkEndsOnPath(tcx: Tcx, x: TyPair)
    requires FiniteLayout(tcx)
    ensures Walk(tcx, x.0, x.1).Some? <==> HasCoercionPath(tcx, x)
  {
    WalkExact(tcx, x);
  }

  lemma WalkStuck(tcx: Tcx, x: TyPair)
    requires FiniteLayout(tcx) && Walk(tcx, x.0, x.1).Some?
    requires forall y :: !Descends(tcx, x, y)
    ensures IsBase(tcx, x) && Walk(tcx, x.0, x.1) == Some(x)
  {
    match x {
      case (Adt(srcDef, srcArgs), Adt(dstDef, dstArgs)) =>
        var i := tcx.coerceUnsizedIndex(x.0, x.1).value;
        assert Descends(tcx, x, (tcx.fieldTy(srcDef, i, srcArgs), tcx.fieldTy(dstDef, i, dstArgs)));
      case (Pat(srcBase, _), Pat(dstBase, _)) =>
        assert Descends(tcx, x, (srcBase, dstBase));
      case _ => IsPointerExactly(tcx, x.0);
    }
  }

  // ----- The iterator

  function Pair(info: CoerceUnsizedInfo): TyPair {
    (info.srcTy, info.dstTy)
  }

  function Pairs(items: seq<CoerceUnsizedInfo>): seq<TyPair> {
    seq(|items|, k requires 0 <= k < |items| => Pair(items[k]))
  }

  /** The item stands at a pair from which the coerced field, under its name, leads to `next`, or at
      a base if there is no next pair. */
  ghost predicate LeadsTo(tcx: Tcx, info: CoerceUnsizedInfo, next: Option<TyPair>) {
    match next
    case Some(y) => Descends(tcx, Pair(info), y) && info.field == CoercedField(tcx, Pair(info))
    case None => IsBase(tcx, Pair(info)) && info.field == None
  }

  /** The items start at `x`, each leads to the one after it, and the last one to `next`. */
  ghost predicate Walked(tcx: Tcx, items: seq<CoerceUnsizedInfo>, x: TyPair, next: Option<TyPair>) {
    && (if items == [] then next == Some(x) else Pair(items[0]) == x)
    && forall k {:trigger items[k]} :: 0 <= k < |items| ==>
         LeadsTo(tcx, items[k], if k + 1 < |items| then Some(Pair(items[k + 1])) else next)
  }

  lemma WalkedSnoc(tcx: Tcx, items: seq<CoerceUnsizedInfo>, x: TyPair, info: CoerceUnsizedInfo, next: Option<TyPair>)
    requires Walked(tcx, items, x, Some(Pair(info))) && LeadsTo(tcx, info, next)
    ensures Walked(tcx, items + [info], x, next)
  {
    var longer := items + [info];
    forall k | 0 <= k < |longer|
      ensures LeadsTo(tcx, longer[k], if k + 1 < |longer| then Some(Pair(longer[k + 1])) else next)
    {
      if k < |items| {
        assert LeadsTo(tcx, items[k], if k + 1 < |items| then Some(Pair(items[k + 1])) else Some(Pair(info)));
      }
    }
  }

  lemma WalkedToWalk(tcx: Tcx, items: seq<CoerceUnsizedInfo>, x: TyPair)
    requires FiniteLayout(tcx) && Walked(tcx, items, x, None)
    ensures items != [] && Walk(tcx, x.0, x.1) == Some(Pair(items[|items| - 1]))
  {
    WalkedIsPath(tcx, items, x);
    WalkExact(tcx, x);
  }

  /** The pairs of a finished walk are the coercion path. */
  lemma WalkedIsPath(tcx: Tcx, items: seq<CoerceUnsizedInfo>, x: TyPair)
    requires Walked(tcx, items, x, None)
    ensures CoercionPath(tcx, Pairs(items), x)
  {
    var p := Pairs(items);
    forall k | 0 <= k < |p| - 1 ensures Descends(tcx, p[k], p[k + 1]) {
      assert LeadsTo(tcx, items[k], Some(Pair(items[k + 1])));
    }
    assert LeadsTo(tcx, items[|items| - 1], None);
  }

  class CoerceUnsizedIterator {
    const tcx: Tcx
    var srcTy: Option<Ty>
    var dstTy: Option<Ty>

    constructor (tcx: Tcx, srcTy: Ty, dstTy: Ty)
      ensures this.tcx == tcx && this.srcTy == Some(srcTy) && this.dstTy == Some(dstTy)
    {
      this.tcx := tcx;
      this.srcTy, this.dstTy := Some(srcTy), Some(dstTy);
    }

    /** The two sides move in lockstep. */
    ghost predicate Valid() reads this {
      srcTy.Some? <==> dstTy.Some?
    }

    ghost function Current(): TyPair
      requires Valid() && srcTy.Some?
      reads this
    {
      (srcTy.value, dstTy.value)
    }

    method Next() returns (r: Result<Option<CoerceUnsizedInfo>, Panic>)
      requires Valid()
      modifies this
      // The first item is the pair the iterator stands at, and the iterator moves along the
      // coerced field, or ends.
      ensures old(srcTy).None? ==> r == Ok(None) && srcTy == dstTy == None
      ensures old(srcTy).Some? && r.Ok? ==>
                && Valid()
                && r.value.Some?
                && Pair(r.value.value) == old(Current())
                && LeadsTo(tcx, r.value.value, if srcTy.Some? then Some(Current()) else None)
      // It stops with a panic exactly where there is neither a next pair nor a base.
      ensures r.Err? <==> old(srcTy).Some? && !IsBase(tcx, old(Current()))
                          && forall y :: !Descends(tcx, old(Current()), y)
      ensures r.Err? ==> (r.error == ExpectedPointer <==> !old(Current().0.Adt? && Current().1.Adt?))
      ensures r.Err? ==> (r.error == DifferentAdts <==>
                            old(Current().0.Adt? && Current().1.Adt? && Current().0.adt != Current().1.adt))
      ensures r.Err? ==> r.error != ExpectedDestinationPointer
    {
      if srcTy.None? {
        return Ok(None);
      }
      var src, dst := srcTy.value, dstTy.value;
      srcTy, dstTy := None, None;
      var field: Option<Symbol>;
      match (src, dst) {
        case (Adt(srcDef, srcArgs), Adt(dstDef, dstArgs)) =>
          if srcDef != dstDef { return Err(DifferentAdts); }
          if tcx.fieldNames(srcDef) == [] { return Err(NoVariants); }
          var names := tcx.fieldNames(srcDef)[0];
          var info := tcx.coerceUnsizedIndex(src, dst);
          if info.None? { return Err(InvalidCoerceUnsizedImpl); }
          var index := info.value;
          if index >= |names| { return Err(CoerceIndexOutOfRange); }
          srcTy := Some(tcx.fieldTy(srcDef, index, srcArgs));
          dstTy := Some(tcx.fieldTy(dstDef, index, dstArgs));
          field := Some(names[index]);
          assert Descends(tcx, (src, dst), Current());
        case (Pat(srcBase, _), Pat(dstBase, _)) =>
          srcTy, dstTy := Some(srcBase), Some(dstBase);
          field := None;
          assert Descends(tcx, (src, dst), Current());
        case _ =>
          IsPointerExactly(tcx, src);
          if ExtractPointee(tcx, src).None? { return Err(ExpectedPointer); }
          field := None;
      }
      return Ok(Some(CoerceUnsizedInfo(field, src, dst)));
    }

    /** Lists the remaining items. Their pairs are the coercion path from the first one, and there is
        a panic exactly if there is no such path. */
    method Drain() returns (r: Result<seq<CoerceUnsizedInfo>, Panic>)
      requires Valid() && FiniteLayout(tcx)
      modifies this
      ensures old(srcTy).None? ==> r == Ok([])
      ensures old(srcTy).Some? ==> (r.Ok? <==> HasCoercionPath(tcx, old(Current())))
      ensures old(srcTy).Some? && r.Ok? ==>
                Walked(tcx, r.value, old(Current()), None) && CoercionPath(tcx, Pairs(r.value), old(Current()))
      ensures r.Ok? ==> srcTy == dstTy == None
      ensures r.Err? ==> r.error != ExpectedDestinationPointer
    {
      if srcTy.None? {
        return Ok([]);
      }
      ghost var start := Current();
      WalkEndsOnPath(tcx, start);
      var items: seq<CoerceUnsizedInfo> := [];
      while true
        invariant Valid() && start == old(Current())
        invariant Walked(tcx, items, start, if srcTy.Some? then Some(Current()) else None)
        invariant srcTy.Some? ==> Walk(tcx, start.0, start.1) == Walk(tcx, srcTy.value, dstTy.value)
        invariant srcTy.None? ==> Walk(tcx, start.0, start.1).Some?
        decreases if srcTy.Some? then tcx.layoutDepth(srcTy.value) + 1 else 0
      {
        ghost var before := if srcTy.Some? then Current() else start;
        var next := Next();
        if next.Err? {
          if Walk(tcx, before.0, before.1).Some? { WalkStuck(tcx, before); }
          return Err(next.error);
        }
        if next.value.None? {
          WalkedIsPath(tcx, items, start);
          return Ok(items);
        }
        WalkedSnoc(tcx, items, start, next.value.value, if srcTy.Some? then Some(Current()) else None);
        items := items + [next.value.value];
      }
    }
  }

  // ----- The base of a coercion

  /** The base of the coercion, or `None` where the extraction panics. */
  function ExtractBase(tcx: Tcx, src: Ty, dst: Ty): Option<CoercionBase>
    requires FiniteLayout(tcx)
  {
    var pointers := Walk(tcx, src, dst);
    if pointers.None? then None else
      var srcPointee, dstPointee := ExtractPointee(tcx, pointers.value.0), ExtractPointee(tcx, pointers.value.1);
      if srcPointee.None? || dstPointee.None? then None else
        var (srcBase, dstBase) := tcx.lockstepTails(srcPointee.value, dstPointee.value);
        if dstBase.IsTrait() || dstBase.Slice? then Some(CoercionBase(srcBase, dstBase)) else None
  }

  /** The extraction succeeds exactly on the pairs that coerce, with the base they coerce to. */
  lemma ExtractBaseExact(tcx: Tcx, x: TyPair, base: CoercionBase)
    requires FiniteLayout(tcx)
    ensures ExtractBase(tcx, x.0, x.1) == Some(base) <==> Coerces(tcx, x, base)
  {
    WalkExact(tcx, x);
    if ExtractBase(tcx, x.0, x.1) == Some(base) {
      var p :| CoercionPath(tcx, p, x) && p[|p| - 1] == Walk(tcx, x.0, x.1).value;
      assert CoercesVia(tcx, p, x, base);
    }
    if Coerces(tcx, x, base) {
      var p :| CoercesVia(tcx, p, x, base);
    }
  }

  /** Any depth of smart-pointer and pattern wrapping leaves the base unchanged. */
  lemma {:induction false} WrapperInvariance(tcx: Tcx, path: seq<TyPair>)
    requires FiniteLayout(tcx) && IsPath(DescendsRel(tcx), path)
    ensures var (src, dst) := path[0];
            var (innerSrc, innerDst) := path[|path| - 1];
            ExtractBase(tcx, src, dst) == ExtractBase(tcx, innerSrc, innerDst)
    decreases |path|
  {
    if |path| > 1 {
      assert DescendsRel(tcx)(path[0], path[0 + 1]);
      forall i | 0 <= i < |path[1..]| - 1 ensures Descends(tcx, path[1..][i], path[1..][i + 1]) {
        assert DescendsRel(tcx)(path[i + 1], path[i + 1 + 1]);
      }
      WrapperInvariance(tcx, path[1..]);
    }
  }

  /** Whatever pointers a path of coerced fields ends at, mutable or not, references or raw: the
      extraction gives the tails of their targets, and fails exactly if the second of these is neither
      a trait object nor a slice. */
  lemma PointersCoerceExactly(tcx: Tcx, path: seq<TyPair>, src: Ty, dst: Ty, srcRaw: bool, dstRaw: bool)
    requires FiniteLayout(tcx) && IsPath(DescendsRel(tcx), path)
    requires path[|path| - 1] == (Pointer(src, srcRaw), Pointer(dst, dstRaw))
    ensures var tails := tcx.lockstepTails(src, dst);
            ExtractBase(tcx, path[0].0, path[0].1) ==
            if tails.1.Dynamic? || tails.1.Slice? then Some(CoercionBase(tails.0, tails.1)) else None
  {
    WrapperInvariance(tcx, path);
  }

  /** The name of an item is that of the field whose types make the next pair; patterns have none. */
  lemma NamedFieldLeads(tcx: Tcx, info: CoerceUnsizedInfo, next: TyPair)
    requires LeadsTo(tcx, info, Some(next))
    ensures info.srcTy.Pat? ==> info.field == None && next == (info.srcTy.base, info.dstTy.base)
    ensures info.srcTy.Adt? ==>
              exists i: nat ::
                && tcx.coerceUnsizedIndex(info.srcTy, info.dstTy) == Some(i)
                && i < |tcx.fieldNames(info.srcTy.adt)[0]|
                && info.field == Some(tcx.fieldNames(info.srcTy.adt)[0][i])
                && next == (tcx.fieldTy(info.srcTy.adt, i, info.srcTy.adtArgs),
                            tcx.fieldTy(info.dstTy.adt, i, info.dstTy.adtArgs))
  {
    assert info.srcTy.Adt? ==> tcx.coerceUnsizedIndex(info.srcTy, info.dstTy).Some?;
  }

  method ExtractUnsizeCasting(tcx: Tcx, srcTy: Ty, dstTy: Ty) returns (r: Result<CoercionBase, Panic>)
    requires FiniteLayout(tcx)
    ensures r.Ok? <==> ExtractBase(tcx, srcTy, dstTy).Some?
    ensures r.Ok? ==> ExtractBase(tcx, srcTy, dstTy) == Some(r.value) && Coerces(tcx, (srcTy, dstTy), r.value)
    // Once the walk has reached its last pair, only the destination can still be wrong. It is no
    // pointer exactly where this is what the extraction says.
    ensures r.Err? && Walk(tcx, srcTy, dstTy).Some? ==> r.error in {ExpectedDestinationPointer, ExpectedTraitOrSlice}
    ensures r == Err(ExpectedDestinationPointer) <==>
            Walk(tcx, srcTy, dstTy).Some? && ExtractPointee(tcx, Walk(tcx, srcTy, dstTy).value.1).None?
  {
    var it := new CoerceUnsizedIterator(tcx, srcTy, dstTy);
    var items := it.Drain();
    WalkEndsOnPath(tcx, (srcTy, dstTy));
    if items.Err? { return Err(items.error); }
    WalkedToWalk(tcx, items.value, (srcTy, dstTy));
    // The walk has an end, and its last source is a pointer: neither of the two can fail.
    var info := items.value[|items.value| - 1];
    var src, dst := ExtractPointee(tcx, info.srcTy), ExtractPointee(tcx, info.dstTy);
    assert src.Some?;
    if dst.None? { return Err(ExpectedDestinationPointer); }
    var (srcBase, dstBase) := tcx.lockstepTails(src.value, dst.value);
    if !(dstBase.IsTrait() || dstBase.Slice?) { return Err(ExpectedTraitOrSlice); }
    ExtractBaseExact(tcx, (srcTy, dstTy), CoercionBase(srcBase, dstBase));
    return Ok(CoercionBase(srcBase, dstBase));
  }

  /** The last pair need not be pointers on both sides: the walk checks the source only, and the
      extraction then fails. */
  lemma LastDestinationCanBeNoPointer(tcx: Tcx, pointee: Ty)
    requires FiniteLayout(tcx)
    ensures var x := (Pointer(pointee, false), OtherTy(0));
            && CoercionPath(tcx, [x], x)
            && IsPointer(tcx, x.0) && !IsPointer(tcx, x.1)
            && ExtractBase(tcx, x.0, x.1).None?
  {
    var x := (Pointer(pointee, false), OtherTy(0));
    assert IsPath(DescendsRel(tcx), [x]);
    assert IsPointerTo(tcx, x.0, pointee);
  }
}
