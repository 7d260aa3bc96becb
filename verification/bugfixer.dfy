/** The bug fixer: classifies each bug event of a trace by scanning backwards
    from it, accumulates the resulting fixes in the fix map, and applies them
    through a fix-generation capability (`BugFixer` in the tool).

    Collaborators that the model does not look into are parameters:
    - `mapper` maps a source location to the instructions at that location;
    - `flow` stands for the flow analysis run between the original and the
      redundant flush, giving `alwaysRedundant()` and `redundantPaths()`;
    - a `FixGenerator` inserts flushes and fences and removes flushes. */
module BugFixer {
  import opened Wrappers
  import opened Addresses
  import opened Locations
  import opened Trace
  import opened FixMap

  /** The fatal outcomes of repairing; each stands for an aborting assertion
      (or the process exit) of the tool. */
  datatype RepairError =
    | NotABug
    | WrongAddressCount
    | MissingAddress
    | CrossesCacheLine
    | TooManyAddresses(index: nat)
    | MultiLineOperation(index: nat)
    | FlushAfterFence(index: nat)
    | NoPriorAssignment
    | PartialFlushOverlap(index: nat)
    | NoRedundantFlush
    | NoOriginalFlush
    | UnmappedLocation
    | ChainNotAdded
    | MergeFailed(cause: MergeError)
    | GeneratorFailed
    | UnsupportedFix(kind: FixType)
    | UnsupportedSource

  datatype FlowResult<I> = FlowResult(alwaysRedundant: bool, redundantPaths: seq<I>)

  /** `addFixToMapping` with its fatal outcomes lifted into `RepairError`. */
  function Merge<I(==)>(m: FixMapping<I>, i: I, desc: FixDesc<I>): Result<Merged<I>, RepairError> {
    match AddFixToMapping(m, i, desc)
    case Success(v) => Success(v)
    case Failure(e) => Failure(MergeFailed(e))
  }

  /** The instructions listed in `s`, as a set. */
  function Elements<T>(s: seq<T>): set<T> {
    set x | x in s
  }

  // ---------------------------------------------------------------------
  // Shapes of the events met during a backward scan

  /** An operation carries at most one address range, and that range lies in
      one cache line; anything else aborts the scan. */
  predicate ShapeOk(e: TraceEvent, cl: LineSize) {
    !IsOperation(e) || (|e.addresses| <= 1 && (|e.addresses| == 1 ==> IsSingleCacheLine(e.addresses[0], cl)))
  }

  /** A store to exactly the asserted range. */
  predicate AssignsTarget(e: TraceEvent, target: AddressInfo) {
    IsOperation(e) && |e.addresses| == 1 && e.kind == Store && e.addresses[0] == target
  }

  /** A flush whose range overlaps the asserted range. */
  predicate FlushesTarget(e: TraceEvent, target: AddressInfo) {
    IsOperation(e) && |e.addresses| == 1 && e.kind == Flush && Overlaps(e.addresses[0], target)
  }

  /** A fence, which carries no address. */
  predicate BareFence(e: TraceEvent) {
    e.kind == Fence && |e.addresses| == 0
  }

  /** The persisted-assertion scan steps over this event. */
  predicate PersistPassable(e: TraceEvent, target: AddressInfo, cl: LineSize) {
    ShapeOk(e, cl) && !AssignsTarget(e, target) && !FlushesTarget(e, target)
  }

  /** The persisted-assertion scan steps over every event in `[lo, hi)`. */
  predicate AllPersistPassable(trace: seq<TraceEvent>, target: AddressInfo, cl: LineSize, lo: int, hi: int)
    requires 0 <= lo <= hi <= |trace|
    decreases hi - lo
  {
    lo == hi || (PersistPassable(trace[hi - 1], target, cl) && AllPersistPassable(trace, target, cl, lo, hi - 1))
  }

  /** Some event in `[lo, hi)` is a fence. */
  predicate FenceBetween(trace: seq<TraceEvent>, lo: int, hi: int)
    requires 0 <= lo <= hi <= |trace|
    decreases hi - lo
  {
    lo < hi && (BareFence(trace[hi - 1]) || FenceBetween(trace, lo, hi - 1))
  }

  // ---------------------------------------------------------------------
  // ASSERT_PERSISTED: missing flush and/or fence

  /** The event that last touched the asserted range, and the two flags of
      the scan when it stopped there. */
  datatype PersistAnchor = PersistAnchor(index: nat, missingFlush: bool, missingFence: bool)

  /** What the loop of `handleAssertPersisted` does at an event it cannot
      step over: a malformed operation aborts; a store to exactly the
      asserted range is the anchor and means a flush is missing; a flush over
      the range is the anchor, which is contradictory when a fence was
      already seen. */
  function PersistStop(e: TraceEvent, i: nat, target: AddressInfo, cl: LineSize,
                       missingFlush: bool, missingFence: bool): (r: Result<PersistAnchor, RepairError>)
    requires !PersistPassable(e, target, cl)
    ensures r.Success? ==>
              && r.value.index == i && ShapeOk(e, cl)
              && (AssignsTarget(e, target) || FlushesTarget(e, target))
              && r.value.missingFence == missingFence
              && r.value.missingFlush == (missingFlush || AssignsTarget(e, target))
              && (FlushesTarget(e, target) ==> missingFence)
    ensures r.Failure? ==>
              || (r.error == TooManyAddresses(i) && IsOperation(e) && |e.addresses| > 1)
              || (r.error == MultiLineOperation(i) && !ShapeOk(e, cl) && |e.addresses| == 1)
              || (r.error == FlushAfterFence(i) && ShapeOk(e, cl) && FlushesTarget(e, target) && !missingFence)
  {
    if |e.addresses| > 1 then Failure(TooManyAddresses(i))
    else if !IsSingleCacheLine(e.addresses[0], cl) then Failure(MultiLineOperation(i))
    else if e.kind == Store && e.addresses[0] == target then Success(PersistAnchor(i, true, missingFence))
    else if !missingFence then Failure(FlushAfterFence(i))
    else Success(PersistAnchor(i, missingFlush, missingFence))
  }

  /** The loop of `handleAssertPersisted`, from position `i` down to 0, with
      the flags as they are before position `i` is looked at. An event the
      scan steps over changes the flags only when it is a fence. */
  function ScanPersisted(trace: seq<TraceEvent>, target: AddressInfo, cl: LineSize, i: int,
                         missingFlush: bool, missingFence: bool): (r: Result<PersistAnchor, RepairError>)
    requires -1 <= i < |trace|
    ensures r.Success? ==>
              var j := r.value.index;
              && j <= i && ShapeOk(trace[j], cl)
              && (AssignsTarget(trace[j], target) || FlushesTarget(trace[j], target))
              && AllPersistPassable(trace, target, cl, j + 1, i + 1)
              && r.value.missingFence == (missingFence && !FenceBetween(trace, j + 1, i + 1))
              && r.value.missingFlush == (missingFlush || FenceBetween(trace, j + 1, i + 1) || AssignsTarget(trace[j], target))
              && (FlushesTarget(trace[j], target) ==> r.value.missingFence)
    ensures r == Failure(NoPriorAssignment) <==> AllPersistPassable(trace, target, cl, 0, i + 1)
    ensures r.Failure? ==>
              r.error.NoPriorAssignment? || r.error.TooManyAddresses? || r.error.MultiLineOperation? || r.error.FlushAfterFence?
    ensures r.Failure? && (r.error.TooManyAddresses? || r.error.MultiLineOperation?) ==>
              var j := r.error.index;
              j <= i && !ShapeOk(trace[j], cl) && AllPersistPassable(trace, target, cl, j + 1, i + 1)
              && (r.error.TooManyAddresses? <==> |trace[j].addresses| > 1)
    ensures r.Failure? && r.error.FlushAfterFence? ==>
              var j := r.error.index;
              && j <= i && ShapeOk(trace[j], cl) && FlushesTarget(trace[j], target)
              && AllPersistPassable(trace, target, cl, j + 1, i + 1)
              && !(missingFence && !FenceBetween(trace, j + 1, i + 1))
    decreases i + 1
  {
    if i < 0 then Failure(NoPriorAssignment)
    else if !PersistPassable(trace[i], target, cl) then
      PersistStop(trace[i], i, target, cl, missingFlush, missingFence)
    else
      var fence := BareFence(trace[i]);
      ScanPersisted(trace, target, cl, i - 1, missingFlush || fence, missingFence && !fence)
  }

  /** Every event of a passable range is passable. */
  lemma {:induction false} PersistPassableAt(trace: seq<TraceEvent>, target: AddressInfo, cl: LineSize, lo: int, hi: int, k: int)
    requires 0 <= lo <= k < hi <= |trace| && AllPersistPassable(trace, target, cl, lo, hi)
    ensures PersistPassable(trace[k], target, cl)
    decreases hi - lo
  {
    if k < hi - 1 {
      PersistPassableAt(trace, target, cl, lo, hi - 1, k);
    }
  }

  /** Position `j` is where a scan of `[0, hi)` with the fence flag
      `missingFence` stops with an anchor: a well-shaped store to exactly,
      or flush over, the asserted range, with only passable events after it,
      and for a flush no fence after it and none seen before. */
  predicate PersistAnchorAt(trace: seq<TraceEvent>, target: AddressInfo, cl: LineSize, j: int, hi: int, missingFence: bool)
    requires 0 <= j < hi <= |trace|
  {
    && ShapeOk(trace[j], cl)
    && AllPersistPassable(trace, target, cl, j + 1, hi)
    && (AssignsTarget(trace[j], target)
        || (FlushesTarget(trace[j], target) && missingFence && !FenceBetween(trace, j + 1, hi)))
  }

  /** An anchor present before the scan's start is the one it finds. */
  lemma ScanPersistedFinds(trace: seq<TraceEvent>, target: AddressInfo, cl: LineSize, i: int,
                           missingFlush: bool, missingFence: bool, j: int)
    requires 0 <= j <= i < |trace| && PersistAnchorAt(trace, target, cl, j, i + 1, missingFence)
    ensures var r := ScanPersisted(trace, target, cl, i, missingFlush, missingFence);
            r.Success? && r.value.index == j
  {
    var r := ScanPersisted(trace, target, cl, i, missingFlush, missingFence);
    assert !PersistPassable(trace[j], target, cl);
    if r.Success? {
      var a := r.value.index;
      if a < j {
        PersistPassableAt(trace, target, cl, a + 1, i + 1, j);
      } else if a > j {
        PersistPassableAt(trace, target, cl, j + 1, i + 1, a);
      }
    } else if r.error.NoPriorAssignment? {
      PersistPassableAt(trace, target, cl, 0, i + 1, j);
    } else {
      var a := r.error.index;
      if a < j {
        PersistPassableAt(trace, target, cl, a + 1, i + 1, j);
      } else if a > j {
        PersistPassableAt(trace, target, cl, j + 1, i + 1, a);
      }
    }
  }

  /** The fix kinds that insert a flush, and those that insert a fence. */
  predicate InsertsFlush(t: FixType) {
    t == AddFlushOnly || t == AddFlushAndFence
  }

  predicate InsertsFence(t: FixType) {
    t == AddFenceOnly || t == AddFlushAndFence
  }

  /** The fix the flags call for; the tool adds nothing when neither flag is
      set, which the scan never produces. */
  function ClassifyPersisted(missingFlush: bool, missingFence: bool): (r: Option<FixType>)
    ensures r.None? <==> !missingFlush && !missingFence
    ensures r.Some? ==> (InsertsFlush(r.value) <==> missingFlush) && (InsertsFence(r.value) <==> missingFence)
    ensures r.Some? ==> r.value in {AddFlushOnly, AddFenceOnly, AddFlushAndFence}
  {
    if missingFlush && missingFence then Some(AddFlushAndFence)
    else if missingFlush then Some(AddFlushOnly)
    else if missingFence then Some(AddFenceOnly)
    else None
  }

  datatype PersistFix = PersistFix(index: nat, kind: FixType)

  /** The classification step of `handleAssertPersisted`: the nearest event
      before the bug that stores exactly to, or flushes over, the asserted
      range, and the fix it calls for. */
  function PersistedFixKind(trace: seq<TraceEvent>, target: AddressInfo, cl: LineSize, bug: nat): (r: Result<PersistFix, RepairError>)
    requires bug <= |trace|
    ensures r.Success? ==>
              var j := r.value.index;
              && j < bug && ShapeOk(trace[j], cl)
              && AllPersistPassable(trace, target, cl, j + 1, bug)
              && (r.value.kind == AddFlushAndFence <==> AssignsTarget(trace[j], target) && !FenceBetween(trace, j + 1, bug))
              && (r.value.kind == AddFlushOnly <==> AssignsTarget(trace[j], target) && FenceBetween(trace, j + 1, bug))
              && (r.value.kind == AddFenceOnly <==> FlushesTarget(trace[j], target) && !FenceBetween(trace, j + 1, bug))
    ensures r.Success? ==> r.value.kind in {AddFlushAndFence, AddFlushOnly, AddFenceOnly}
    ensures r == Failure(NoPriorAssignment) <==> AllPersistPassable(trace, target, cl, 0, bug)
    ensures r.Failure? && r.error.FlushAfterFence? ==>
              var j := r.error.index;
              && j < bug && FlushesTarget(trace[j], target) && FenceBetween(trace, j + 1, bug)
              && AllPersistPassable(trace, target, cl, j + 1, bug)
    ensures r.Failure? && (r.error.TooManyAddresses? || r.error.MultiLineOperation?) ==>
              var j := r.error.index;
              && j < bug && !ShapeOk(trace[j], cl) && AllPersistPassable(trace, target, cl, j + 1, bug)
              && (r.error.TooManyAddresses? <==> |trace[j].addresses| > 1)
    ensures forall j :: 0 <= j < bug && PersistAnchorAt(trace, target, cl, j, bug, true) ==>
              r.Success? && r.value.index == j
  {
    forall j | 0 <= j < bug && PersistAnchorAt(trace, target, cl, j, bug, true)
      ensures var s := ScanPersisted(trace, target, cl, bug - 1, false, true); s.Success? && s.value.index == j
    {
      ScanPersistedFinds(trace, target, cl, bug - 1, false, true, j);
    }
    var a :- ScanPersisted(trace, target, cl, bug - 1, false, true);
    match ClassifyPersisted(a.missingFlush, a.missingFence)
    case Some(kind) => Success(PersistFix(a.index, kind))
    // Unreachable: the scan never stops with both flags clear.
    case None => assert false; Failure(NoPriorAssignment)
  }

  /** Merging `desc` into every instruction of `insts` is accepted: each
      instruction that already holds a fix holds `desc`, or a fix that
      `desc` completes to a flush and a fence and that the list names only
      once (the combined fix refuses the same part a second time). */
  predicate MergeAccepts<I(==)>(m: FixMapping<I>, insts: seq<I>, desc: FixDesc<I>) {
    forall x :: x in m && x in insts ==>
      m[x] == desc || (Complementary(m[x].kind, desc.kind) && multiset(insts)[x] == 1)
  }

  /** Merges the same descriptor for every instruction in turn; the result
      reports a change when any merge did. */
  function MergeEach<I(==)>(m: FixMapping<I>, insts: seq<I>, desc: FixDesc<I>): (r: Result<Merged<I>, RepairError>)
    ensures r.Success? <==> MergeAccepts(m, insts, desc)
    ensures r.Success? ==> r.value.fixes.Keys == m.Keys + Elements(insts)
    ensures r.Success? ==> forall x :: x in m && x !in insts ==> r.value.fixes[x] == m[x]
    ensures r.Success? ==> forall x :: x in insts ==>
              r.value.fixes[x] == desc || (r.value.fixes[x].kind == AddFlushAndFence && desc.kind in {AddFlushOnly, AddFenceOnly})
    ensures r.Success? ==> (r.value.added <==> exists x :: x in insts && (x !in m || m[x] != desc))
    ensures r.Success? ==> forall x :: x in insts && (x !in m || m[x] == desc) ==> r.value.fixes[x] == desc
    ensures r.Success? ==> forall x :: x in insts && x in m && m[x] != desc ==>
              r.value.fixes[x] == FixDesc(AddFlushAndFence, m[x].dependent)
    decreases |insts|
  {
    if |insts| == 0 then Success(Merged(false, m))
    else
      match Merge(m, insts[0], desc)
      case Failure(e) =>
        assert insts[0] in insts;
        Failure(e)
      case Success(first) =>
        MergeAcceptsStep(m, insts, desc, first);
        var rest :- MergeEach(first.fixes, insts[1..], desc);
        MergeEachStep(m, insts, desc, first, rest);
        MergeEachValuesStep(m, insts, desc, first, rest);
        Success(Merged(rest.added || first.added, rest.fixes))
  }

  /** One successful merge moves acceptance of the list onto its tail. */
  lemma MergeAcceptsStep<I>(m: FixMapping<I>, insts: seq<I>, desc: FixDesc<I>, first: Merged<I>)
    requires |insts| > 0 && Merge(m, insts[0], desc) == Success(first)
    ensures MergeAccepts(m, insts, desc) <==> MergeAccepts(first.fixes, insts[1..], desc)
  {
    var x0, tail := insts[0], insts[1..];
    assert insts == [x0] + tail;
    assert forall x :: x in insts <==> x == x0 || x in tail;
    assert forall x :: multiset(insts)[x] == (if x == x0 then 1 else 0) + multiset(tail)[x];
    if x0 in m && m[x0] != desc {
      // the two parts were combined
      assert first.fixes[x0].kind == AddFlushAndFence;
      if x0 in tail {
        assert !MergeAccepts(first.fixes, tail, desc);
        assert multiset(tail)[x0] > 0;
      } else {
        assert multiset(tail)[x0] == 0;
      }
    }
  }

  lemma MergeEachStep<I>(m: FixMapping<I>, insts: seq<I>, desc: FixDesc<I>, first: Merged<I>, rest: Merged<I>)
    requires |insts| > 0
    requires Merge(m, insts[0], desc) == Success(first)
    requires rest.fixes.Keys == first.fixes.Keys + Elements(insts[1..])
    requires forall x :: x in first.fixes && x !in insts[1..] ==> rest.fixes[x] == first.fixes[x]
    requires forall x :: x in insts[1..] ==>
               rest.fixes[x] == desc || (rest.fixes[x].kind == AddFlushAndFence && desc.kind in {AddFlushOnly, AddFenceOnly})
    requires rest.added <==> exists x :: x in insts[1..] && (x !in first.fixes || first.fixes[x] != desc)
    ensures rest.fixes.Keys == m.Keys + Elements(insts)
    ensures forall x :: x in m && x !in insts ==> rest.fixes[x] == m[x]
    ensures forall x :: x in insts ==>
              rest.fixes[x] == desc || (rest.fixes[x].kind == AddFlushAndFence && desc.kind in {AddFlushOnly, AddFenceOnly})
    ensures (rest.added || first.added) <==> exists x :: x in insts && (x !in m || m[x] != desc)
  {
    var i0 := insts[0];
    assert forall x :: x in insts <==> x == i0 || x in insts[1..];
    MergeResultCovers(m, i0, desc);
    if exists x :: x in insts && (x !in m || m[x] != desc) {
      var x :| x in insts && (x !in m || m[x] != desc);
      if x != i0 {
        assert x in insts[1..];
        assert x !in first.fixes || first.fixes[x] != desc;
      }
    }
  }

  /** After the whole list is merged, a fresh instruction or one already
      holding `desc` holds `desc`, and one holding the complementary part
      holds the combined fix with the dependent it had. */
  lemma MergeEachValuesStep<I>(m: FixMapping<I>, insts: seq<I>, desc: FixDesc<I>, first: Merged<I>, rest: Merged<I>)
    requires |insts| > 0 && MergeAccepts(m, insts, desc)
    requires Merge(m, insts[0], desc) == Success(first) && first.fixes.Keys == m.Keys + {insts[0]}
    requires rest.fixes.Keys == first.fixes.Keys + Elements(insts[1..])
    requires forall x :: x in first.fixes && x !in insts[1..] ==> rest.fixes[x] == first.fixes[x]
    requires forall x :: x in insts[1..] && (x !in first.fixes || first.fixes[x] == desc) ==> rest.fixes[x] == desc
    requires forall x :: x in insts[1..] && x in first.fixes && first.fixes[x] != desc ==>
               rest.fixes[x] == FixDesc(AddFlushAndFence, first.fixes[x].dependent)
    ensures forall x :: x in insts && (x !in m || m[x] == desc) ==> rest.fixes[x] == desc
    ensures forall x :: x in insts && x in m && m[x] != desc ==>
              rest.fixes[x] == FixDesc(AddFlushAndFence, m[x].dependent)
  {
    var i0, tail := insts[0], insts[1..];
    assert insts == [i0] + tail;
    forall x | x in insts
      ensures (x !in m || m[x] == desc) ==> rest.fixes[x] == desc
      ensures x in m && m[x] != desc ==> rest.fixes[x] == FixDesc(AddFlushAndFence, m[x].dependent)
    {
      if x == i0 && x in m && m[x] != desc {
        assert multiset(insts)[x] == 1;
        assert multiset(insts)[x] == 1 + multiset(tail)[x];
        assert x !in tail;
      } else if x != i0 {
        assert x in tail;
      }
    }
  }

  /** `handleAssertPersisted`: every instruction at the anchor's location
      receives the classified fix. */
  function HandleAssertPersisted<I(==)>(trace: seq<TraceEvent>, target: AddressInfo, cl: LineSize, bug: nat,
                                        mapper: LocationInfo -> seq<I>, m: FixMapping<I>): (r: Result<Merged<I>, RepairError>)
    requires bug <= |trace|
    ensures r.Success? ==>
              var f := PersistedFixKind(trace, target, cl, bug);
              && f.Success?
              && var insts := mapper(trace[f.value.index].location);
              && |insts| > 0
              && r.value.fixes.Keys == m.Keys + Elements(insts)
              && (forall x :: x in insts ==> x in r.value.fixes)
              && (forall x :: x in m ==> x in r.value.fixes)
              && (forall x :: x in insts ==> r.value.fixes[x].kind in {f.value.kind, AddFlushAndFence})
              && (forall x :: x in m && x !in insts ==> r.value.fixes[x] == m[x])
    ensures var f := PersistedFixKind(trace, target, cl, bug);
            r.Success? <==>
              && f.Success?
              && var insts := mapper(trace[f.value.index].location);
              && |insts| > 0
              && MergeAccepts(m, insts, FixDesc(f.value.kind, None))
    ensures r.Success? ==>
              var f := PersistedFixKind(trace, target, cl, bug).value;
              var insts := mapper(trace[f.index].location);
              r.value.added <==> exists x :: x in insts && (x !in m || m[x] != FixDesc(f.kind, None))
    ensures r.Success? ==>
              var f := PersistedFixKind(trace, target, cl, bug).value;
              var insts := mapper(trace[f.index].location);
              && (forall x :: x in insts && (x !in m || m[x] == FixDesc(f.kind, None)) ==>
                    r.value.fixes[x] == FixDesc(f.kind, None))
              && (forall x :: x in insts && x in m && m[x] != FixDesc(f.kind, None) ==>
                    r.value.fixes[x] == FixDesc(AddFlushAndFence, m[x].dependent))
  {
    var f :- PersistedFixKind(trace, target, cl, bug);
    var insts := mapper(trace[f.index].location);
    if |insts| == 0 then Failure(UnmappedLocation)
    else MergeEach(m, insts, FixDesc(f.kind, None))
  }

  // ---------------------------------------------------------------------
  // REQUIRED_FLUSH: redundant flush

  /** A flush of exactly the asserted range. */
  predicate ExactFlush(e: TraceEvent, target: AddressInfo) {
    IsOperation(e) && |e.addresses| == 1 && e.kind == Flush && e.addresses[0] == target
  }

  /** A flush that overlaps the asserted range without being equal to it. */
  predicate PartialFlush(e: TraceEvent, target: AddressInfo) {
    IsOperation(e) && |e.addresses| == 1 && e.kind == Flush
    && e.addresses[0] != target && Overlaps(e.addresses[0], target)
  }

  /** The redundant-flush scan steps over this event. */
  predicate FlushPassable(e: TraceEvent, target: AddressInfo, cl: LineSize) {
    ShapeOk(e, cl) && !ExactFlush(e, target) && !PartialFlush(e, target)
  }

  /** The redundant-flush scan steps over every event in `[lo, hi)`. */
  predicate AllFlushPassable(trace: seq<TraceEvent>, target: AddressInfo, cl: LineSize, lo: int, hi: int)
    requires 0 <= lo <= hi <= |trace|
    decreases hi - lo
  {
    lo == hi || (FlushPassable(trace[hi - 1], target, cl) && AllFlushPassable(trace, target, cl, lo, hi - 1))
  }

  datatype FlushPair = FlushPair(original: nat, redundant: nat)

  /** The loop of `handleRequiredFlush` from position `i` down to 0, with the
      redundant flush already found, if any. What it computes is stated by
      the lemmas that follow. */
  function ScanFlushes(trace: seq<TraceEvent>, target: AddressInfo, cl: LineSize, i: int,
                       redundant: Option<nat>): (r: Result<FlushPair, RepairError>)
    requires -1 <= i < |trace|
    requires redundant.Some? ==> i < redundant.value < |trace|
    ensures r.Success? ==> r.value.original <= i
    ensures r.Success? ==> ExactFlush(trace[r.value.original], target)
    ensures r.Success? && redundant.Some? ==> r.value.redundant == redundant.value
    ensures r.Success? && redundant.None? ==>
              r.value.original < r.value.redundant <= i && ExactFlush(trace[r.value.redundant], target)
    decreases i + 1
  {
    if i < 0 then
      if redundant.None? then Failure(NoRedundantFlush) else Failure(NoOriginalFlush)
    else if FlushPassable(trace[i], target, cl) then ScanFlushes(trace, target, cl, i - 1, redundant)
    else if ShapeOk(trace[i], cl) && ExactFlush(trace[i], target) then
      if redundant.None? then ScanFlushes(trace, target, cl, i - 1, Some(i))
      else Success(FlushPair(i, redundant.value))
    else FlushStop(trace[i], i, target, cl)
  }

  /** A successful scan found the two nearest exact flushes, with only
      passable events after each. */
  lemma {:induction false} ScanFlushesFound(trace: seq<TraceEvent>, target: AddressInfo, cl: LineSize, i: int,
                                            redundant: Option<nat>)
    requires -1 <= i < |trace|
    requires redundant.Some? ==> i < redundant.value < |trace|
    requires ScanFlushes(trace, target, cl, i, redundant).Success?
    ensures var p := ScanFlushes(trace, target, cl, i, redundant).value;
            && p.original <= i && ExactFlush(trace[p.original], target) && ShapeOk(trace[p.original], cl)
            && (redundant.Some? ==> p.redundant == redundant.value && AllFlushPassable(trace, target, cl, p.original + 1, i + 1))
            && (redundant.None? ==>
                  && p.original < p.redundant <= i
                  && ExactFlush(trace[p.redundant], target) && ShapeOk(trace[p.redundant], cl)
                  && AllFlushPassable(trace, target, cl, p.redundant + 1, i + 1)
                  && AllFlushPassable(trace, target, cl, p.original + 1, p.redundant))
    decreases i + 1
  {
    if i >= 0 {
      if FlushPassable(trace[i], target, cl) {
        ScanFlushesFound(trace, target, cl, i - 1, redundant);
      } else if ShapeOk(trace[i], cl) && ExactFlush(trace[i], target) && redundant.None? {
        ScanFlushesFound(trace, target, cl, i - 1, Some(i));
      }
    }
  }

  /** The scan misses the redundant flush exactly when it steps over every
      event; it misses the original one only after stepping over every
      event before the redundant one. */
  lemma {:induction false} ScanFlushesMissing(trace: seq<TraceEvent>, target: AddressInfo, cl: LineSize, i: int,
                                              redundant: Option<nat>)
    requires -1 <= i < |trace|
    requires redundant.Some? ==> i < redundant.value < |trace|
    ensures var r := ScanFlushes(trace, target, cl, i, redundant);
            && (r == Failure(NoRedundantFlush) <==> redundant.None? && AllFlushPassable(trace, target, cl, 0, i + 1))
            && (r == Failure(NoOriginalFlush) && redundant.Some? ==> AllFlushPassable(trace, target, cl, 0, i + 1))
    decreases i + 1
  {
    if i >= 0 {
      if FlushPassable(trace[i], target, cl) {
        ScanFlushesMissing(trace, target, cl, i - 1, redundant);
      } else if ShapeOk(trace[i], cl) && ExactFlush(trace[i], target) && redundant.None? {
        ScanFlushesMissing(trace, target, cl, i - 1, Some(i));
      }
    }
  }

  /** With the redundant flush found, an exact flush at `o` with only
      passable events after it is the original one the scan returns. */
  lemma {:induction false} ScanFlushesFindsOriginal(trace: seq<TraceEvent>, target: AddressInfo, cl: LineSize, i: int,
                                                    redundant: nat, o: nat)
    requires o <= i < redundant < |trace|
    requires ExactFlush(trace[o], target) && ShapeOk(trace[o], cl)
    requires AllFlushPassable(trace, target, cl, o + 1, i + 1)
    ensures ScanFlushes(trace, target, cl, i, Some(redundant)) == Success(FlushPair(o, redundant))
    decreases i
  {
    if i > o {
      ScanFlushesFindsOriginal(trace, target, cl, i - 1, redundant, o);
    }
  }

  /** The pair of flushes the scan looks for, in `[0, hi)`: two well-shaped
      exact flushes, each followed only by passable events. */
  predicate FlushPairAt(trace: seq<TraceEvent>, target: AddressInfo, cl: LineSize, hi: int, p: FlushPair)
    requires 0 <= hi <= |trace|
  {
    && p.original < p.redundant < hi
    && ExactFlush(trace[p.original], target) && ShapeOk(trace[p.original], cl)
    && ExactFlush(trace[p.redundant], target) && ShapeOk(trace[p.redundant], cl)
    && AllFlushPassable(trace, target, cl, p.redundant + 1, hi)
    && AllFlushPassable(trace, target, cl, p.original + 1, p.redundant)
  }

  /** A pair present before the scan's start is the pair it returns. */
  lemma {:induction false} ScanFlushesFindsPair(trace: seq<TraceEvent>, target: AddressInfo, cl: LineSize, i: int, p: FlushPair)
    requires -1 <= i < |trace| && FlushPairAt(trace, target, cl, i + 1, p)
    ensures ScanFlushes(trace, target, cl, i, None) == Success(p)
    decreases i
  {
    if i > p.redundant {
      ScanFlushesFindsPair(trace, target, cl, i - 1, p);
    } else {
      ScanFlushesFindsOriginal(trace, target, cl, i - 1, i, p.original);
    }
  }

  /** A scan that fails on a partially overlapping flush names a position
      at or before its start that holds such a flush. */
  lemma {:induction false} ScanFlushesPartial(trace: seq<TraceEvent>, target: AddressInfo, cl: LineSize, i: int,
                                              redundant: Option<nat>, j: nat)
    requires -1 <= i < |trace|
    requires redundant.Some? ==> i < redundant.value < |trace|
    requires ScanFlushes(trace, target, cl, i, redundant) == Failure(PartialFlushOverlap(j))
    ensures j <= i && ShapeOk(trace[j], cl) && PartialFlush(trace[j], target)
    decreases i + 1
  {
    if i >= 0 {
      if FlushPassable(trace[i], target, cl) {
        ScanFlushesPartial(trace, target, cl, i - 1, redundant, j);
      } else if ShapeOk(trace[i], cl) && ExactFlush(trace[i], target) && redundant.None? {
        ScanFlushesPartial(trace, target, cl, i - 1, Some(i), j);
      }
    }
  }

  /** What the loop of `handleRequiredFlush` does at an event it can neither
      step over nor take as one of the two flushes: a malformed operation
      or a partially overlapping flush aborts. */
  function FlushStop(e: TraceEvent, i: nat, target: AddressInfo, cl: LineSize): (r: Result<FlushPair, RepairError>)
    requires !FlushPassable(e, target, cl) && !(ShapeOk(e, cl) && ExactFlush(e, target))
    ensures r.Failure?
    ensures r.error == TooManyAddresses(i) <==> IsOperation(e) && |e.addresses| > 1
    ensures r.error == MultiLineOperation(i) <==> !ShapeOk(e, cl) && |e.addresses| == 1
    ensures r.error == PartialFlushOverlap(i) <==> ShapeOk(e, cl) && PartialFlush(e, target)
  {
    if |e.addresses| > 1 then Failure(TooManyAddresses(i))
    else if !IsSingleCacheLine(e.addresses[0], cl) then Failure(MultiLineOperation(i))
    else Failure(PartialFlushOverlap(i))
  }

  /** Step 1 of `handleRequiredFlush`: the nearest flush of exactly the
      asserted range before the bug is the redundant one, the next one back
      is the original; a partially overlapping flush before both are found,
      or a missing one, is fatal. */
  function FindFlushPair(trace: seq<TraceEvent>, target: AddressInfo, cl: LineSize, bug: nat): (r: Result<FlushPair, RepairError>)
    requires bug <= |trace|
    ensures r.Success? ==> FlushPairAt(trace, target, cl, bug, r.value)
    ensures forall p :: FlushPairAt(trace, target, cl, bug, p) ==> r == Success(p)
    ensures r == Failure(NoRedundantFlush) <==> AllFlushPassable(trace, target, cl, 0, bug)
    ensures r.Failure? && r.error.PartialFlushOverlap? ==> r.error.index < bug && PartialFlush(trace[r.error.index], target)
  {
    forall p | FlushPairAt(trace, target, cl, bug, p)
      ensures ScanFlushes(trace, target, cl, bug - 1, None) == Success(p)
    {
      ScanFlushesFindsPair(trace, target, cl, bug - 1, p);
    }
    var r := ScanFlushes(trace, target, cl, bug - 1, None);
    ScanFlushesMissing(trace, target, cl, bug - 1, None);
    if r.Success? then
      ScanFlushesFound(trace, target, cl, bug - 1, None);
      r
    else if r.error.PartialFlushOverlap? then
      ScanFlushesPartial(trace, target, cl, bug - 1, None, r.error.index);
      r
    else r
  }

  /** No two positions of `s` hold the same element. */
  predicate Distinct<T(==)>(s: seq<T>) {
    forall k, l :: 0 <= k < l < |s| ==> s[k] != s[l]
  }

  /** The fix the chain gives boundary point `k`: a conditional flush that
      depends on the previous point, or on `head` for the first one. */
  function ChainLink<I>(paths: seq<I>, head: I, k: nat): FixDesc<I>
    requires k < |paths|
  {
    FixDesc(AddFlushCondition, Some(if k == 0 then head else paths[k - 1]))
  }

  datatype Chain<I> = Chain(fixes: FixMapping<I>, last: I)

  /** The inner loop of the conditional branch of `handleRequiredFlush`:
      every boundary point, in order, receives a conditional flush depending
      on its predecessor, starting from `prev`; each merge must report a
      change. */
  function AddChain<I(==)>(m: FixMapping<I>, paths: seq<I>, prev: I): (r: Result<Chain<I>, RepairError>)
    ensures r.Success? <==> (forall k :: 0 <= k < |paths| ==> paths[k] !in m) && Distinct(paths)
    ensures r.Success? ==> r.value.fixes.Keys == m.Keys + Elements(paths)
    ensures r.Success? ==> forall x :: x in m ==> r.value.fixes[x] == m[x]
    ensures r.Success? ==> forall k :: 0 <= k < |paths| ==> r.value.fixes[paths[k]] == ChainLink(paths, prev, k)
    ensures r.Success? ==> r.value.last == if |paths| == 0 then prev else paths[|paths| - 1]
    decreases |paths|
  {
    if |paths| == 0 then Success(Chain(m, prev))
    else
      var step :- Merge(m, paths[0], FixDesc(AddFlushCondition, Some(prev)));
      if !step.added then Failure(ChainNotAdded)
      else
        var rest := AddChain(step.fixes, paths[1..], paths[0]);
        AddChainStepSucceeds(m, paths, prev, step, rest.Success?);
        if rest.Success? then
          AddChainStepMap(m, paths, prev, step, rest.value);
          AddChainStepLinks(m, paths, prev, step, rest.value);
          rest
        else rest
  }

  /** A merge that adds a conditional flush and reports a change inserted a
      fresh key: a conditional flush is never combined with anything. */
  lemma ChainMergeFresh<I>(m: FixMapping<I>, x: I, prev: I, step: Merged<I>)
    requires Merge(m, x, FixDesc(AddFlushCondition, Some(prev))) == Success(step) && step.added
    ensures x !in m && step.fixes == m[x := FixDesc(AddFlushCondition, Some(prev))]
  {
  }

  lemma AddChainStepSucceeds<I>(m: FixMapping<I>, paths: seq<I>, prev: I, step: Merged<I>, ok: bool)
    requires |paths| > 0
    requires Merge(m, paths[0], FixDesc(AddFlushCondition, Some(prev))) == Success(step) && step.added
    requires ok <==> (forall k :: 0 <= k < |paths[1..]| ==> paths[1..][k] !in step.fixes) && Distinct(paths[1..])
    ensures ok <==> (forall k :: 0 <= k < |paths| ==> paths[k] !in m) && Distinct(paths)
  {
    ChainMergeFresh(m, paths[0], prev, step);
    forall k | 0 < k < |paths|
      ensures paths[k] == paths[1..][k - 1]
    {
    }
  }

  lemma AddChainStepMap<I>(m: FixMapping<I>, paths: seq<I>, prev: I, step: Merged<I>, chain: Chain<I>)
    requires |paths| > 0
    requires Merge(m, paths[0], FixDesc(AddFlushCondition, Some(prev))) == Success(step) && step.added
    requires chain.fixes.Keys == step.fixes.Keys + Elements(paths[1..])
    requires forall x :: x in step.fixes ==> chain.fixes[x] == step.fixes[x]
    ensures chain.fixes.Keys == m.Keys + Elements(paths)
    ensures forall x :: x in m ==> chain.fixes[x] == m[x]
  {
    ChainMergeFresh(m, paths[0], prev, step);
    assert Elements(paths) == {paths[0]} + Elements(paths[1..]) by {
      assert forall x :: x in paths <==> x == paths[0] || x in paths[1..];
    }
  }

  lemma AddChainStepLinks<I>(m: FixMapping<I>, paths: seq<I>, prev: I, step: Merged<I>, chain: Chain<I>)
    requires |paths| > 0
    requires Merge(m, paths[0], FixDesc(AddFlushCondition, Some(prev))) == Success(step) && step.added
    requires chain.fixes.Keys == step.fixes.Keys + Elements(paths[1..])
    requires forall x :: x in step.fixes ==> chain.fixes[x] == step.fixes[x]
    requires forall k :: 0 <= k < |paths| - 1 ==> chain.fixes[paths[1..][k]] == ChainLink(paths[1..], paths[0], k)
    ensures forall k :: 0 <= k < |paths| ==> paths[k] in chain.fixes && chain.fixes[paths[k]] == ChainLink(paths, prev, k)
  {
    ChainMergeFresh(m, paths[0], prev, step);
    forall k | 0 < k < |paths|
      ensures chain.fixes[paths[k]] == ChainLink(paths, prev, k)
    {
      assert paths[k] == paths[1..][k - 1];
    }
  }

  /** The fix map `f` holds the chain for instruction `i` over `paths` on
      top of `m`: the boundary points are new and distinct, each holds a
      conditional flush depending on its predecessor (the first one on `i`),
      `i` holds the conditional removal depending on the last point, and no
      other entry changed. */
  ghost predicate ChainInstalled<I>(m: FixMapping<I>, i: I, paths: seq<I>, f: FixMapping<I>) {
    && |paths| > 0
    && (forall k :: 0 <= k < |paths| ==> paths[k] !in m && paths[k] != i)
    && Distinct(paths)
    && f.Keys == m.Keys + {i} + Elements(paths)
    && (forall x :: x in m && x != i ==> x in f && f[x] == m[x])
    && (forall k :: 0 <= k < |paths| ==> paths[k] in f && f[paths[k]] == ChainLink(paths, i, k))
    && i in f && f[i] == FixDesc(RemoveFlushConditional, Some(paths[|paths| - 1]))
  }

  /** The chain for `i` over `paths` can be installed on top of `m`: the
      boundary points are new, distinct and other than `i`, and `i` holds
      nothing yet or already the very removal the chain ends in. */
  predicate ChainFits<I(==)>(m: FixMapping<I>, i: I, paths: seq<I>) {
    && |paths| > 0
    && (forall k :: 0 <= k < |paths| ==> paths[k] !in m && paths[k] != i)
    && Distinct(paths)
    && (i in m ==> m[i] == FixDesc(RemoveFlushConditional, Some(paths[|paths| - 1])))
  }

  /** The conditional branch of `handleRequiredFlush` for one instruction
      `i` of the redundant flush: the chain over the boundary points, then a
      conditional removal of `i` depending on the last point. */
  function ChainFor<I(==)>(m: FixMapping<I>, i: I, paths: seq<I>): (r: Result<Merged<I>, RepairError>)
    ensures |paths| == 0 ==> r == Success(Merged(false, m))
    ensures |paths| > 0 ==> (r.Success? <==> ChainFits(m, i, paths))
    ensures r.Success? && |paths| > 0 ==> ChainInstalled(m, i, paths, r.value.fixes) && (r.value.added <==> i !in m)
    ensures (exists k :: 0 <= k < |paths| && paths[k] in m) ==> r.Failure?
  {
    if |paths| == 0 then Success(Merged(false, m))
    else
      var chain :- AddChain(m, paths, i);
      var r := Merge(chain.fixes, i, FixDesc(RemoveFlushConditional, Some(chain.last)));
      RemovalFits(m, i, paths, chain);
      if r.Success? then
        RemovalNotOnChain(m, i, paths, chain);
        RemovalKeys(m, i, paths, chain);
        RemovalAdded(m, i, paths, chain);
        RemovalValues(m, i, paths, chain);
        r
      else r
  }

  /** The closing removal is accepted exactly when `i` is not on the chain
      and holds nothing yet or that same removal. */
  lemma RemovalFits<I>(m: FixMapping<I>, i: I, paths: seq<I>, chain: Chain<I>)
    requires |paths| > 0 && (forall k :: 0 <= k < |paths| ==> paths[k] !in m) && Distinct(paths)
    requires chain.fixes.Keys == m.Keys + Elements(paths)
    requires forall x :: x in m ==> chain.fixes[x] == m[x]
    requires forall k :: 0 <= k < |paths| ==> chain.fixes[paths[k]] == ChainLink(paths, i, k)
    requires chain.last == paths[|paths| - 1]
    ensures Merge(chain.fixes, i, FixDesc(RemoveFlushConditional, Some(chain.last))).Success? <==> ChainFits(m, i, paths)
  {
    var desc := FixDesc(RemoveFlushConditional, Some(chain.last));
    RemovalMergeOk(chain.fixes, i, desc);
    if exists k :: 0 <= k < |paths| && paths[k] == i {
      var k :| 0 <= k < |paths| && paths[k] == i;
      assert chain.fixes[i].kind == AddFlushCondition;
      assert !ChainFits(m, i, paths);
    } else {
      assert i !in Elements(paths);
      if i in m {
        assert chain.fixes[i] == m[i];
      }
    }
  }

  /** A conditional removal merges only onto nothing or onto itself. */
  lemma RemovalMergeOk<I>(c: FixMapping<I>, i: I, desc: FixDesc<I>)
    requires desc.kind == RemoveFlushConditional
    ensures Merge(c, i, desc).Success? <==> i !in c || c[i] == desc
  {
  }

  lemma RemovalNotOnChain<I>(m: FixMapping<I>, i: I, paths: seq<I>, chain: Chain<I>)
    requires |paths| > 0 && AddChain(m, paths, i) == Success(chain)
    requires Merge(chain.fixes, i, FixDesc(RemoveFlushConditional, Some(chain.last))).Success?
    ensures forall k :: 0 <= k < |paths| ==> paths[k] != i
  {
  }

  lemma RemovalKeys<I>(m: FixMapping<I>, i: I, paths: seq<I>, chain: Chain<I>)
    requires |paths| > 0 && AddChain(m, paths, i) == Success(chain)
    requires Merge(chain.fixes, i, FixDesc(RemoveFlushConditional, Some(chain.last))).Success?
    ensures var r := Merge(chain.fixes, i, FixDesc(RemoveFlushConditional, Some(chain.last)));
            r.value.fixes.Keys == m.Keys + {i} + Elements(paths)
  {
    var ps := Elements(paths);
    assert chain.fixes.Keys == m.Keys + ps;
  }

  lemma RemovalAdded<I>(m: FixMapping<I>, i: I, paths: seq<I>, chain: Chain<I>)
    requires |paths| > 0 && AddChain(m, paths, i) == Success(chain)
    requires Merge(chain.fixes, i, FixDesc(RemoveFlushConditional, Some(chain.last))).Success?
    requires forall k :: 0 <= k < |paths| ==> paths[k] != i
    ensures Merge(chain.fixes, i, FixDesc(RemoveFlushConditional, Some(chain.last))).value.added <==> i !in m
  {
    var c := chain.fixes;
    if i in c {
      assert i in m;
    }
  }

  lemma RemovalValues<I>(m: FixMapping<I>, i: I, paths: seq<I>, chain: Chain<I>)
    requires |paths| > 0 && AddChain(m, paths, i) == Success(chain)
    requires Merge(chain.fixes, i, FixDesc(RemoveFlushConditional, Some(chain.last))).Success?
    requires forall k :: 0 <= k < |paths| ==> paths[k] != i
    ensures var f := Merge(chain.fixes, i, FixDesc(RemoveFlushConditional, Some(chain.last))).value.fixes;
            && (forall x :: x in m && x != i ==> x in f && f[x] == m[x])
            && (forall k :: 0 <= k < |paths| ==> paths[k] in f && f[paths[k]] == ChainLink(paths, i, k))
            && i in f && f[i] == FixDesc(RemoveFlushConditional, Some(paths[|paths| - 1]))
  {
  }

  /** The conditional branch over all instructions of the redundant flush;
      the result reports a change when any removal was new. */
  function ChainEach<I(==)>(m: FixMapping<I>, insts: seq<I>, paths: seq<I>): (r: Result<Merged<I>, RepairError>)
    ensures r.Success? ==> m.Keys <= r.value.fixes.Keys
    ensures |paths| == 0 || |insts| == 0 ==> r == Success(Merged(false, m))
    ensures |insts| == 1 ==> r == ChainFor(m, insts[0], paths)
    decreases |insts|
  {
    if |insts| == 0 then Success(Merged(false, m))
    else
      var first :- ChainFor(m, insts[0], paths);
      var rest :- ChainEach(first.fixes, insts[1..], paths);
      Success(Merged(first.added || rest.added, rest.fixes))
  }

  /** A conditional chain can be synthesized for one instruction only: the
      second instruction's chain finds the first boundary point already
      holding a link, which is fatal. */
  lemma ChainNeedsSingleInstruction<I>(m: FixMapping<I>, insts: seq<I>, paths: seq<I>)
    ensures |insts| >= 2 && |paths| > 0 ==> ChainEach(m, insts, paths).Failure?
  {
    if |insts| >= 2 && |paths| > 0 {
      var first := ChainFor(m, insts[0], paths);
      if first.Success? {
        assert paths[0] in first.value.fixes;
        var second := ChainFor(first.value.fixes, insts[1..][0], paths);
        assert second.Failure?;
      }
    }
  }

  /** The unconditional branch, as written: every instruction of the
      redundant flush receives an unconditional removal, but the reported
      change is that of the LAST merge only. */
  function RemoveEachAsWritten<I(==)>(m: FixMapping<I>, insts: seq<I>): (r: Result<Merged<I>, RepairError>)
    ensures r.Success? <==> forall x :: x in insts && x in m ==> m[x] == FixDesc(RemoveFlushOnly, None)
    ensures r.Success? ==> r.value.fixes.Keys == m.Keys + Elements(insts)
    ensures r.Success? ==> forall x :: x in m && x !in insts ==> r.value.fixes[x] == m[x]
    ensures r.Success? ==> forall x :: x in insts ==> r.value.fixes[x] == FixDesc(RemoveFlushOnly, None)
    decreases |insts|
  {
    var remove := FixDesc(RemoveFlushOnly, None);
    if |insts| == 0 then Success(Merged(false, m))
    else
      match Merge(m, insts[0], remove)
      case Failure(e) =>
        assert insts[0] in insts;
        Failure(e)
      case Success(first) =>
        if |insts| == 1 then Success(first)
        else
          assert Elements(insts) == {insts[0]} + Elements(insts[1..]);
          assert forall x :: x in insts ==> x == insts[0] || x in insts[1..];
          RemoveEachAsWritten(first.fixes, insts[1..])
  }

  /** What the as-written branch reports: a change exactly when the last
      instruction had no fix before the loop and does not occur earlier in
      the list. */
  lemma {:induction false} RemoveEachAsWrittenReports<I>(m: FixMapping<I>, insts: seq<I>)
    requires |insts| > 0 && RemoveEachAsWritten(m, insts).Success?
    ensures RemoveEachAsWritten(m, insts).value.added <==>
              insts[|insts| - 1] !in m && insts[|insts| - 1] !in insts[..|insts| - 1]
    decreases |insts|
  {
    if |insts| > 1 {
      var first := Merge(m, insts[0], FixDesc(RemoveFlushOnly, None)).value;
      RemoveEachAsWrittenReports(first.fixes, insts[1..]);
      assert insts[1..][..|insts[1..]| - 1] == insts[1..|insts| - 1];
      assert insts[..|insts| - 1] == [insts[0]] + insts[1..|insts| - 1];
    }
  }

  /** The reported change of the as-written branch can be false although a
      removal was newly added: the first instruction is new, the last one
      already held the removal. */
  lemma RemoveEachAsWrittenLosesChange()
    ensures var remove := FixDesc(RemoveFlushOnly, None);
            var m := map[2 := remove];
            && RemoveEachAsWritten(m, [1, 2]) == Success(Merged(false, map[1 := remove, 2 := remove]))
            && 1 !in m
  {
    var remove := FixDesc(RemoveFlushOnly, None);
    var m := map[2 := remove];
    assert m[1 := remove] == map[1 := remove, 2 := remove];
    assert RemoveEachAsWritten(m[1 := remove], [2]) == Success(Merged(false, m[1 := remove]));
  }

  /** The unconditional branch with the change reported as in every other
      branch: true when any instruction's removal was new. */
  function RemoveEach<I(==)>(m: FixMapping<I>, insts: seq<I>): (r: Result<Merged<I>, RepairError>)
    ensures r.Success? ==> r.value.fixes.Keys == m.Keys + Elements(insts)
    ensures r.Success? ==> forall x :: x in m && x !in insts ==> r.value.fixes[x] == m[x]
    ensures r.Success? ==> forall x :: x in insts ==> r.value.fixes[x] == FixDesc(RemoveFlushOnly, None)
    ensures r.Success? ==> (r.value.added <==> exists x :: x in insts && x !in m)
    ensures r.Success? <==> forall x :: x in insts && x in m ==> m[x] == FixDesc(RemoveFlushOnly, None)
  {
    MergeEach(m, insts, FixDesc(RemoveFlushOnly, None))
  }

  /** The as-written branch and the corrected one build the same fix map
      and succeed on the same inputs; only the reported change differs. */
  lemma RemoveEachFlagOnly<I>(m: FixMapping<I>, insts: seq<I>)
    ensures RemoveEachAsWritten(m, insts).Success? <==> RemoveEach(m, insts).Success?
    ensures RemoveEach(m, insts).Success? ==> RemoveEachAsWritten(m, insts).value.fixes == RemoveEach(m, insts).value.fixes
  {
    var a, b := RemoveEachAsWritten(m, insts), RemoveEach(m, insts);
    if b.Success? {
      assert a.value.fixes.Keys == b.value.fixes.Keys;
      assert forall x :: x in a.value.fixes ==> a.value.fixes[x] == b.value.fixes[x] by {
        forall x | x in a.value.fixes
          ensures a.value.fixes[x] == b.value.fixes[x]
        {
          assert x in m || x in Elements(insts);
        }
      }
    }
  }

  /** `handleRequiredFlush`. */
  function HandleRequiredFlush<I(==)>(trace: seq<TraceEvent>, target: AddressInfo, cl: LineSize, bug: nat,
                                      mapper: LocationInfo -> seq<I>,
                                      flow: (TraceEvent, TraceEvent) -> FlowResult<I>,
                                      m: FixMapping<I>): (r: Result<Merged<I>, RepairError>)
    requires bug <= |trace|
    ensures FindFlushPair(trace, target, cl, bug).Failure? ==> r.Failure?
    ensures FindFlushPair(trace, target, cl, bug).Success? ==>
              var p := FindFlushPair(trace, target, cl, bug).value;
              var analysis := flow(trace[p.original], trace[p.redundant]);
              var insts := mapper(trace[p.redundant].location);
              var paths := analysis.redundantPaths;
              && (analysis.alwaysRedundant ==>
                    && (r.Success? <==> forall x :: x in insts && x in m ==> m[x] == FixDesc(RemoveFlushOnly, None))
                    && (r.Success? ==> (r.value.added <==> exists x :: x in insts && x !in m)))
              && (!analysis.alwaysRedundant && (|paths| == 0 || |insts| == 0) ==> r == Success(Merged(false, m)))
              && (!analysis.alwaysRedundant && |paths| > 0 && |insts| == 1 ==>
                    && (r.Success? <==> ChainFits(m, insts[0], paths))
                    && (r.Success? ==> (r.value.added <==> insts[0] !in m)))
              && (!analysis.alwaysRedundant && |paths| > 0 && |insts| >= 2 ==> r.Failure?)
    ensures r.Success? ==>
              var p := FindFlushPair(trace, target, cl, bug).value;
              var analysis := flow(trace[p.original], trace[p.redundant]);
              var insts := mapper(trace[p.redundant].location);
              && m.Keys <= r.value.fixes.Keys
              && (analysis.alwaysRedundant ==>
                    && r.value.fixes.Keys == m.Keys + Elements(insts)
                    && (forall x :: x in m && x !in insts ==> r.value.fixes[x] == m[x])
                    && (forall x :: x in insts ==> x in r.value.fixes && r.value.fixes[x] == FixDesc(RemoveFlushOnly, None)))
              && (!analysis.alwaysRedundant && |analysis.redundantPaths| == 0 ==> r.value == Merged(false, m))
              && (!analysis.alwaysRedundant && |analysis.redundantPaths| > 0 ==>
                    |insts| <= 1 && (|insts| == 1 ==> ChainInstalled(m, insts[0], analysis.redundantPaths, r.value.fixes)))
  {
    var p :- FindFlushPair(trace, target, cl, bug);
    var orig := trace[p.original];
    var redt := trace[p.redundant];
    var analysis := flow(orig, redt);
    var insts := mapper(redt.location);
    if analysis.alwaysRedundant then RemoveEach(m, insts)
    else
      ChainNeedsSingleInstruction(m, insts, analysis.redundantPaths);
      ChainEach(m, insts, analysis.redundantPaths)
  }

  // ---------------------------------------------------------------------
  // Dispatch

  /** The bug kinds the fixer handles. */
  predicate Fixable(t: EventType) {
    t == AssertPersisted || t == RequiredFlush
  }

  /** `computeAndAddFix`: the event must be a bug; persisted assertions and
      required flushes must carry exactly one single-line range; every other
      kind is left unfixed without touching the map. */
  function ComputeAndAddFix<I(==)>(trace: seq<TraceEvent>, te: TraceEvent, bug: nat, cl: LineSize,
                                   mapper: LocationInfo -> seq<I>,
                                   flow: (TraceEvent, TraceEvent) -> FlowResult<I>,
                                   m: FixMapping<I>): (r: Result<Merged<I>, RepairError>)
    requires bug <= |trace|
    ensures !te.isBug ==> r == Failure(NotABug)
    ensures te.isBug && !Fixable(te.kind) ==> r == Success(Merged(false, m))
    ensures r.Success? && Fixable(te.kind) ==> |te.addresses| == 1 && IsSingleCacheLine(te.addresses[0], cl)
    ensures te.isBug && Fixable(te.kind) && |te.addresses| != 1 ==> r.Failure?
    ensures r.Success? ==> m.Keys <= r.value.fixes.Keys
    ensures te.isBug && Fixable(te.kind) && |te.addresses| == 1 && !IsSingleCacheLine(te.addresses[0], cl) ==>
              r == Failure(CrossesCacheLine)
    ensures te.isBug && te.kind == AssertPersisted && |te.addresses| == 1 && IsSingleCacheLine(te.addresses[0], cl) ==>
              r == HandleAssertPersisted(trace, te.addresses[0], cl, bug, mapper, m)
    ensures te.isBug && te.kind == RequiredFlush && |te.addresses| == 1 && IsSingleCacheLine(te.addresses[0], cl) ==>
              r == HandleRequiredFlush(trace, te.addresses[0], cl, bug, mapper, flow, m)
  {
    if !te.isBug then Failure(NotABug)
    else
      match te.kind
      case AssertPersisted =>
        if |te.addresses| != 1 then Failure(WrongAddressCount)
        else if !IsSingleCacheLine(te.addresses[0], cl) then Failure(CrossesCacheLine)
        else HandleAssertPersisted(trace, te.addresses[0], cl, bug, mapper, m)
      case RequiredFlush =>
        if |te.addresses| == 0 then Failure(MissingAddress)
        else if |te.addresses| != 1 then Failure(WrongAddressCount)
        else if !IsSingleCacheLine(te.addresses[0], cl) then Failure(CrossesCacheLine)
        else HandleRequiredFlush(trace, te.addresses[0], cl, bug, mapper, flow, m)
      case _ => Success(Merged(false, m))
  }

  // ---------------------------------------------------------------------
  // Applying fixes

  /** One edit made to the program: an insertion after `at` that created
      `made`, or the removal of the flush `at`. */
  datatype Edit<I> = FlushInserted(at: I, made: I) | FenceInserted(at: I, made: I) | FlushRemoved(at: I)

  /** The fix-generation capability; the tool has one per trace source. */
  datatype FixGenerator<!I> = FixGenerator(
    insertFlush: I -> Option<I>,
    insertFence: I -> Option<I>,
    removeFlush: I -> bool)

  predicate IsConditional(t: FixType) {
    t == AddFlushCondition || t == RemoveFlushConditional
  }

  /** The edits that carry out a fix of kind `t` at `i`. */
  predicate Realizes<I(==)>(t: FixType, i: I, edits: seq<Edit<I>>) {
    match t
    case AddFlushOnly => |edits| == 1 && edits[0].FlushInserted? && edits[0].at == i
    case AddFenceOnly => |edits| == 1 && edits[0].FenceInserted? && edits[0].at == i
    case AddFlushAndFence =>
      && |edits| == 2 && edits[0].FlushInserted? && edits[0].at == i
      && edits[1].FenceInserted? && edits[1].at == edits[0].made
    case RemoveFlushOnly => edits == [FlushRemoved(i)]
    case _ => false
  }

  /** Every edit is what the capability answered for it. */
  predicate MadeBy<I(==)>(gen: FixGenerator<I>, edits: seq<Edit<I>>) {
    forall k :: 0 <= k < |edits| ==>
      match edits[k]
      case FlushInserted(at, made) => gen.insertFlush(at) == Some(made)
      case FenceInserted(at, made) => gen.insertFence(at) == Some(made)
      case FlushRemoved(at) => gen.removeFlush(at)
  }

  /** `fixBug`: one or two capability calls per fix; a failing call or a
      conditional fix is fatal. */
  function FixBug<I(==)>(gen: FixGenerator<I>, i: I, desc: FixDesc<I>): (r: Result<seq<Edit<I>>, RepairError>)
    ensures IsConditional(desc.kind) ==> r == Failure(UnsupportedFix(desc.kind))
    ensures r.Success? ==> Realizes(desc.kind, i, r.value) && MadeBy(gen, r.value)
    ensures r.Failure? && !IsConditional(desc.kind) ==> r.error == GeneratorFailed
    ensures desc.kind == RemoveFlushOnly ==> (r.Success? <==> gen.removeFlush(i))
    ensures desc.kind == AddFlushOnly ==> (r.Success? <==> gen.insertFlush(i).Some?)
    ensures desc.kind == AddFenceOnly ==> (r.Success? <==> gen.insertFence(i).Some?)
    ensures desc.kind == AddFlushAndFence ==>
              (r.Success? <==> gen.insertFlush(i).Some? && gen.insertFence(gen.insertFlush(i).value).Some?)
  {
    match desc.kind
    case AddFlushOnly =>
      (match gen.insertFlush(i)
       case None => Failure(GeneratorFailed)
       case Some(n) => Success([FlushInserted(i, n)]))
    case AddFenceOnly =>
      (match gen.insertFence(i)
       case None => Failure(GeneratorFailed)
       case Some(n) => Success([FenceInserted(i, n)]))
    case AddFlushAndFence =>
      (match gen.insertFlush(i)
       case None => Failure(GeneratorFailed)
       case Some(n) =>
         match gen.insertFence(n)
         case None => Failure(GeneratorFailed)
         case Some(f) => Success([FlushInserted(i, n), FenceInserted(n, f)]))
    case RemoveFlushOnly =>
      if gen.removeFlush(i) then Success([FlushRemoved(i)]) else Failure(GeneratorFailed)
    case _ => Failure(UnsupportedFix(desc.kind))
  }

  datatype Applied<I> = Applied(modified: bool, edits: seq<Edit<I>>)

  /** The concatenation of a sequence of edit lists. */
  function Flatten<T>(parts: seq<seq<T>>): seq<T> {
    if |parts| == 0 then [] else parts[0] + Flatten(parts[1..])
  }

  /** The edits the fix stored for `x` consists of, or none when `x` holds
      no fix or its fix cannot be carried out. */
  function EntryEdits<I(==)>(gen: FixGenerator<I>, m: FixMapping<I>, x: I): seq<Edit<I>> {
    if x in m && FixBug(gen, x, m[x]).Success? then FixBug(gen, x, m[x]).value else []
  }

  /** The edits of every entry named by `order`, one list per position. */
  function EditsAlong<I(==)>(gen: FixGenerator<I>, m: FixMapping<I>, order: seq<I>): (r: seq<seq<Edit<I>>>)
    ensures |r| == |order| && forall k :: 0 <= k < |order| ==> r[k] == EntryEdits(gen, m, order[k])
  {
    seq(|order|, k requires 0 <= k < |order| => EntryEdits(gen, m, order[k]))
  }

  /** The application loop of `doRepair`: each entry of the fix map, in the
      map's iteration order `order`, is applied. */
  function ApplyFixes<I(==)>(gen: FixGenerator<I>, m: FixMapping<I>, order: seq<I>): (r: Result<Applied<I>, RepairError>)
    ensures r.Failure? <==> exists k :: 0 <= k < |order| && order[k] in m && FixBug(gen, order[k], m[order[k]]).Failure?
    ensures r.Success? ==> r.value.edits == Flatten(EditsAlong(gen, m, order))
    ensures r.Success? ==> (r.value.modified <==> exists k :: 0 <= k < |order| && order[k] in m)
    ensures r.Success? ==> forall k :: 0 <= k < |order| && order[k] in m ==> !IsConditional(m[order[k]].kind)
    ensures r.Success? ==> MadeBy(gen, r.value.edits)
    decreases |order|
  {
    if |order| == 0 then Success(Applied(false, []))
    else
      assert forall k :: 1 <= k < |order| ==> order[k] == order[1..][k - 1];
      assert EditsAlong(gen, m, order)[1..] == EditsAlong(gen, m, order[1..]);
      if order[0] !in m then
        var rest :- ApplyFixes(gen, m, order[1..]);
        Success(rest)
      else
        match FixBug(gen, order[0], m[order[0]])
        case Failure(e) => Failure(e)
        case Success(edits) =>
          var rest :- ApplyFixes(gen, m, order[1..]);
          Success(Applied(true, edits + rest.edits))
  }

  /** `runFixMapOptimization`: a declared extension point that performs no
      optimization. */
  function RunFixMapOptimization<I>(m: FixMapping<I>): (r: Merged<I>)
    ensures !r.added && r.fixes == m
  {
    Merged(false, m)
  }

  /** The generator chosen by the trace's source tag; any other tag ends the
      run. */
  function SelectGenerator<I>(source: Source, pmtest: FixGenerator<I>, generic: FixGenerator<I>): (r: Result<FixGenerator<I>, RepairError>)
    ensures r.Failure? <==> source == Unsupported
    ensures source == PmTest ==> r == Success(pmtest)
    ensures source == Generic ==> r == Success(generic)
  {
    match source
    case PmTest => Success(pmtest)
    case Generic => Success(generic)
    case Unsupported => Failure(UnsupportedSource)
  }

  /** The bug loop of `doRepair`: every bug index in order, threading the
      fix map; the first fatal outcome ends the run. */
  function CollectFixes<I(==)>(trace: seq<TraceEvent>, bugs: seq<nat>, cl: LineSize,
                               mapper: LocationInfo -> seq<I>,
                               flow: (TraceEvent, TraceEvent) -> FlowResult<I>,
                               m: FixMapping<I>): (r: Result<FixMapping<I>, RepairError>)
    requires forall k :: 0 <= k < |bugs| ==> bugs[k] < |trace|
    ensures r.Success? ==> m.Keys <= r.value.Keys
    ensures (forall k :: 0 <= k < |bugs| ==> trace[bugs[k]].isBug && !Fixable(trace[bugs[k]].kind)) ==> r == Success(m)
    ensures (exists k :: 0 <= k < |bugs| && !trace[bugs[k]].isBug) ==> r.Failure?
    decreases |bugs|
  {
    if |bugs| == 0 then Success(m)
    else
      var b := bugs[0];
      var step :- ComputeAndAddFix(trace, trace[b], b, cl, mapper, flow, m);
      assert forall k :: 1 <= k < |bugs| ==> bugs[k] == bugs[1..][k - 1];
      CollectFixes(trace, bugs[1..], cl, mapper, flow, step.fixes)
  }

  /** `order` lists every key of `m` exactly once, as iterating over the
      fix map does. */
  predicate EnumeratesKeys<I(==)>(m: FixMapping<I>, order: seq<I>) {
    Distinct(order) && Elements(order) == m.Keys
  }

  /** A duplicate-free sequence has as many positions as elements. */
  lemma {:induction false} DistinctSize<T>(s: seq<T>)
    requires Distinct(s)
    ensures |Elements(s)| == |s|
    decreases |s|
  {
    if |s| > 0 {
      var t := s[1..];
      assert Distinct(t) by {
        forall k, l | 0 <= k < l < |t|
          ensures t[k] != t[l]
        {
          assert t[k] == s[k + 1] && t[l] == s[l + 1];
        }
      }
      DistinctSize(t);
      assert Elements(s) == {s[0]} + Elements(t) by {
        assert forall x :: x in s <==> x == s[0] || x in t;
      }
      assert s[0] !in Elements(t) by {
        forall j | 0 <= j < |t|
          ensures t[j] != s[0]
        {
          assert t[j] == s[j + 1];
        }
      }
    }
  }

  /** Iterating over the fix map visits one position per entry. */
  lemma EnumerationLength<I>(m: FixMapping<I>, order: seq<I>)
    requires EnumeratesKeys(m, order)
    ensures |order| == |m|
  {
    DistinctSize(order);
  }

  /** `doRepair`: select the generator, collect the fixes of every bug, run
      the (empty) optimization, and apply the fix map in the order
      `enumerate` gives for it. */
  function DoRepair<I(==)>(ti: TraceInfo, cl: LineSize,
                           mapper: LocationInfo -> seq<I>,
                           flow: (TraceEvent, TraceEvent) -> FlowResult<I>,
                           pmtest: FixGenerator<I>, generic: FixGenerator<I>,
                           enumerate: FixMapping<I> -> seq<I>): (r: Result<Applied<I>, RepairError>)
    requires forall k :: 0 <= k < |ti.bugs| ==> ti.bugs[k] < |ti.events|
    requires var fixes := CollectFixes(ti.events, ti.bugs, cl, mapper, flow, map[]);
             fixes.Success? ==> EnumeratesKeys(fixes.value, enumerate(fixes.value))
    ensures ti.source == Unsupported ==> r == Failure(UnsupportedSource)
    ensures ti.source != Unsupported ==>
              var gen := if ti.source == PmTest then pmtest else generic;
              var fixes := CollectFixes(ti.events, ti.bugs, cl, mapper, flow, map[]);
              && (fixes.Failure? ==> r == Failure(fixes.error))
              && (fixes.Success? ==>
                    && (r.Failure? <==> exists x :: x in fixes.value && FixBug(gen, x, fixes.value[x]).Failure?)
                    && (r.Success? ==>
                          && (forall x :: x in fixes.value ==> !IsConditional(fixes.value[x].kind))
                          && (r.value.modified <==> exists x :: x in fixes.value)
                          && r.value.edits == Flatten(EditsAlong(gen, fixes.value, enumerate(fixes.value)))
                          && MadeBy(gen, r.value.edits)))
  {
    var gen :- SelectGenerator(ti.source, pmtest, generic);
    var fixes :- CollectFixes(ti.events, ti.bugs, cl, mapper, flow, map[]);
    var optimized := RunFixMapOptimization(fixes);
    var order := enumerate(optimized.fixes);
    assert forall k :: 0 <= k < |order| ==> order[k] in Elements(order);
    assert forall x :: x in fixes ==> exists k :: 0 <= k < |order| && order[k] == x by {
      assert forall x :: x in fixes ==> x in Elements(order);
    }
    ApplyFixes(gen, optimized.fixes, order)
  }
}
