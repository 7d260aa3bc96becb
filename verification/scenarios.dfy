/** Small concrete traces run through the fixer, with instructions
    identified by the line of their source location. */
module Scenarios {
  import opened Wrappers
  import opened Addresses
  import opened Locations
  import opened Trace
  import opened FixMap
  import opened BugFixer

  const CacheLine: LineSize := 64

  function At(line: int): LocationInfo {
    LocationInfo("update", "src/pm.c", line)
  }

  function Event(kind: EventType, addresses: seq<AddressInfo>, line: int, isBug: bool): TraceEvent {
    TraceEvent(kind, "", 0, At(line), addresses, [], isBug)
  }

  /** Each location maps to one instruction, named by its line. */
  function LineMapper(loc: LocationInfo): seq<int> {
    [loc.line]
  }

  function AlwaysRedundant(orig: TraceEvent, redt: TraceEvent): FlowResult<int> {
    FlowResult(true, [])
  }

  function RedundantOnPaths(orig: TraceEvent, redt: TraceEvent): FlowResult<int> {
    FlowResult(false, [50, 51])
  }

  /** A stored word and a 32-byte block around it; a 16-byte record in
      another cache line and the first half of that record. */
  const Word := AddressInfo(0x1000, 8)
  const Block := AddressInfo(0x1000, 32)
  const Record := AddressInfo(0x2008, 16)
  const RecordHead := AddressInfo(0x2008, 8)

  lemma RangesFitLine()
    ensures IsSingleCacheLine(Word, CacheLine) && IsSingleCacheLine(Block, CacheLine)
    ensures IsSingleCacheLine(Record, CacheLine) && IsSingleCacheLine(RecordHead, CacheLine)
  {
  }

  // ---------------------------------------------------------------------
  // Persistence assertions

  function BareStore(): seq<TraceEvent> {
    [Event(Store, [Word], 10, false), Event(AssertPersisted, [Word], 20, true)]
  }

  function FencedStore(): seq<TraceEvent> {
    [Event(Store, [Word], 10, false), Event(Fence, [], 11, false), Event(AssertPersisted, [Word], 20, true)]
  }

  function FlushedStore(): seq<TraceEvent> {
    [Event(Store, [Word], 10, false), Event(Flush, [Block], 12, false), Event(AssertPersisted, [Word], 20, true)]
  }

  function FlushedAndFenced(): seq<TraceEvent> {
    [Event(Store, [Word], 10, false), Event(Flush, [Block], 12, false),
     Event(Fence, [], 13, false), Event(AssertPersisted, [Word], 20, true)]
  }

  function FenceOnly(): seq<TraceEvent> {
    [Event(Fence, [], 11, false), Event(AssertPersisted, [Word], 20, true)]
  }

  function RepeatedAssertion(): seq<TraceEvent> {
    [Event(Store, [Word], 10, false), Event(AssertPersisted, [Word], 20, true),
     Event(Fence, [], 21, false), Event(AssertPersisted, [Word], 30, true)]
  }

  lemma BareStoreScan()
    ensures PersistedFixKind(BareStore(), Word, CacheLine, 1) == Success(PersistFix(0, AddFlushAndFence))
  {
    RangesFitLine();
    assert ScanPersisted(BareStore(), Word, CacheLine, 0, false, true) == Success(PersistAnchor(0, true, true));
  }

  /** A store with neither a flush nor a fence before the assertion needs
      both at the store. */
  lemma StoreNeedsFlushAndFence()
    ensures ComputeAndAddFix(BareStore(), BareStore()[1], 1, CacheLine, LineMapper, AlwaysRedundant, map[])
              == Success(Merged(true, map[10 := FixDesc(AddFlushAndFence, None)]))
  {
    RangesFitLine();
    BareStoreScan();
  }

  lemma FencedStoreScan()
    ensures PersistedFixKind(FencedStore(), Word, CacheLine, 2) == Success(PersistFix(0, AddFlushOnly))
  {
    RangesFitLine();
    var t := FencedStore();
    assert ScanPersisted(t, Word, CacheLine, 0, true, false) == Success(PersistAnchor(0, true, false));
    assert ScanPersisted(t, Word, CacheLine, 1, false, true) == Success(PersistAnchor(0, true, false));
  }

  /** A fence between the store and the assertion leaves only the flush
      missing. */
  lemma FencedStoreNeedsFlush()
    ensures ComputeAndAddFix(FencedStore(), FencedStore()[2], 2, CacheLine, LineMapper, AlwaysRedundant, map[])
              == Success(Merged(true, map[10 := FixDesc(AddFlushOnly, None)]))
  {
    RangesFitLine();
    FencedStoreScan();
  }

  lemma FlushedStoreScan()
    ensures PersistedFixKind(FlushedStore(), Word, CacheLine, 2) == Success(PersistFix(1, AddFenceOnly))
  {
    RangesFitLine();
    var t := FlushedStore();
    assert ScanPersisted(t, Word, CacheLine, 1, false, true) == Success(PersistAnchor(1, false, true));
  }

  /** A flush over the stored word without a later fence leaves only the
      fence missing, at the flush. */
  lemma FlushedStoreNeedsFence()
    ensures ComputeAndAddFix(FlushedStore(), FlushedStore()[2], 2, CacheLine, LineMapper, AlwaysRedundant, map[])
              == Success(Merged(true, map[12 := FixDesc(AddFenceOnly, None)]))
  {
    RangesFitLine();
    FlushedStoreScan();
  }

  lemma FlushedAndFencedScan()
    ensures PersistedFixKind(FlushedAndFenced(), Word, CacheLine, 3) == Failure(FlushAfterFence(1))
  {
    RangesFitLine();
    var t := FlushedAndFenced();
    assert ScanPersisted(t, Word, CacheLine, 1, true, false) == Failure(FlushAfterFence(1));
    assert ScanPersisted(t, Word, CacheLine, 2, false, true) == Failure(FlushAfterFence(1));
  }

  /** A flush followed by a fence before a failed persistence assertion is
      a contradiction the fixer refuses. */
  lemma FlushAndFenceContradiction()
    ensures ComputeAndAddFix(FlushedAndFenced(), FlushedAndFenced()[3], 3, CacheLine, LineMapper, AlwaysRedundant, map[])
              == Failure(FlushAfterFence(1))
  {
    RangesFitLine();
    FlushedAndFencedScan();
  }

  /** A trace with no store or flush to the asserted word is refused. */
  lemma NoStoreIsFatal()
    ensures ComputeAndAddFix(FenceOnly(), FenceOnly()[1], 1, CacheLine, LineMapper, AlwaysRedundant, map[])
              == Failure(NoPriorAssignment)
  {
    RangesFitLine();
    assert PersistedFixKind(FenceOnly(), Word, CacheLine, 1) == Failure(NoPriorAssignment);
  }

  lemma RepeatedAssertionScans()
    ensures PersistedFixKind(RepeatedAssertion(), Word, CacheLine, 1) == Success(PersistFix(0, AddFlushAndFence))
    ensures PersistedFixKind(RepeatedAssertion(), Word, CacheLine, 3) == Success(PersistFix(0, AddFlushOnly))
  {
    RangesFitLine();
    var t := RepeatedAssertion();
    assert ScanPersisted(t, Word, CacheLine, 0, false, true) == Success(PersistAnchor(0, true, true));
    assert ScanPersisted(t, Word, CacheLine, 0, true, false) == Success(PersistAnchor(0, true, false));
    assert ScanPersisted(t, Word, CacheLine, 1, true, false) == Success(PersistAnchor(0, true, false));
    assert ScanPersisted(t, Word, CacheLine, 2, false, true) == Success(PersistAnchor(0, true, false));
  }

  lemma RepeatedAssertionSteps()
    ensures var t := RepeatedAssertion();
            var m := map[10 := FixDesc(AddFlushAndFence, None)];
            && ComputeAndAddFix(t, t[1], 1, CacheLine, LineMapper, AlwaysRedundant, map[]) == Success(Merged(true, m))
            && ComputeAndAddFix(t, t[3], 3, CacheLine, LineMapper, AlwaysRedundant, m)
                 == Failure(MergeFailed(UnhandledCombination))
  {
    RangesFitLine();
    RepeatedAssertionScans();
  }

  /** Two persistence assertions on the same store, a fence between them:
      the first asks for a flush and a fence at the store, the second for a
      flush only, and the merge refuses the pair, ending the run. */
  lemma RepeatedAssertionAborts()
    ensures CollectFixes(RepeatedAssertion(), [1, 3], CacheLine, LineMapper, AlwaysRedundant, map[])
              == Failure(MergeFailed(UnhandledCombination))
  {
    RepeatedAssertionSteps();
    assert [1, 3][1..] == [3];
  }

  /** An ordering assertion is reported but not fixed. */
  lemma OrderingAssertionNotFixed(m: FixMapping<int>)
    ensures var trace := [Event(AssertOrdered, [Word, Record], 20, true)];
            ComputeAndAddFix(trace, trace[0], 0, CacheLine, LineMapper, AlwaysRedundant, m)
              == Success(Merged(false, m))
  {
  }

  // ---------------------------------------------------------------------
  // Required flushes

  function TwoFlushes(): seq<TraceEvent> {
    [Event(Flush, [Record], 30, false), Event(Flush, [Record], 31, false), Event(RequiredFlush, [Record], 40, true)]
  }

  function PartialBetween(): seq<TraceEvent> {
    [Event(Flush, [Record], 30, false), Event(Flush, [RecordHead], 31, false), Event(RequiredFlush, [Record], 40, true)]
  }

  lemma TwoFlushesScan()
    ensures FindFlushPair(TwoFlushes(), Record, CacheLine, 2) == Success(FlushPair(0, 1))
  {
    RangesFitLine();
    var t := TwoFlushes();
    assert ScanFlushes(t, Record, CacheLine, 0, Some(1)) == Success(FlushPair(0, 1));
  }

  /** Two flushes of the same line, the second always redundant: the nearer
      flush is removed. */
  lemma RedundantFlushRemoved()
    ensures ComputeAndAddFix(TwoFlushes(), TwoFlushes()[2], 2, CacheLine, LineMapper, AlwaysRedundant, map[])
              == Success(Merged(true, map[31 := FixDesc(RemoveFlushOnly, None)]))
  {
    RangesFitLine();
    TwoFlushesScan();
  }

  function GuardedFixes(): FixMapping<int> {
    map[50 := FixDesc(AddFlushCondition, Some(31)),
        51 := FixDesc(AddFlushCondition, Some(50)),
        31 := FixDesc(RemoveFlushConditional, Some(51))]
  }

  lemma GuardedChain()
    ensures ChainFor(map[], 31, [50, 51]) == Success(Merged(true, GuardedFixes()))
  {
    var m1 := map[50 := FixDesc(AddFlushCondition, Some(31))];
    var m2 := m1[51 := FixDesc(AddFlushCondition, Some(50))];
    assert AddChain(m1, [51], 50) == Success(Chain(m2, 51));
    assert AddChain(map[], [50, 51], 31) == Success(Chain(m2, 51));
    assert m2[31 := FixDesc(RemoveFlushConditional, Some(51))] == GuardedFixes();
  }

  lemma GuardedHandled()
    ensures HandleRequiredFlush(TwoFlushes(), Record, CacheLine, 2, LineMapper, RedundantOnPaths, map[])
              == Success(Merged(true, GuardedFixes()))
  {
    TwoFlushesScan();
    GuardedChain();
    assert LineMapper(TwoFlushes()[1].location) == [31];
    assert ChainEach(map[], [31], [50, 51]) == Success(Merged(true, GuardedFixes()));
  }

  /** When the flush is redundant only on some paths, the boundary points
      form a chain that guards the removal of the nearer flush. */
  lemma RedundantFlushGuarded()
    ensures ComputeAndAddFix(TwoFlushes(), TwoFlushes()[2], 2, CacheLine, LineMapper, RedundantOnPaths, map[])
              == Success(Merged(true, GuardedFixes()))
  {
    RangesFitLine();
    GuardedHandled();
  }

  /** A partially overlapping flush between the two flushes is refused. */
  lemma PartialFlushIsFatal()
    ensures ComputeAndAddFix(PartialBetween(), PartialBetween()[2], 2, CacheLine, LineMapper, AlwaysRedundant, map[])
              == Failure(PartialFlushOverlap(1))
  {
    RangesFitLine();
    assert FindFlushPair(PartialBetween(), Record, CacheLine, 2) == Failure(PartialFlushOverlap(1));
  }

  // ---------------------------------------------------------------------
  // Whole repairs

  function Succeeds(i: int): Option<int> {
    Some(i + 1000)
  }

  function Removes(i: int): bool {
    true
  }

  const Tool := FixGenerator(Succeeds, Succeeds, Removes)

  /** The only enumeration of a one-entry fix map is its key. */
  lemma SingleKeyOrder(fixes: FixMapping<int>, x: int, order: seq<int>)
    requires fixes.Keys == {x} && EnumeratesKeys(fixes, order)
    ensures order == [x]
  {
    forall k | 0 <= k < |order|
      ensures order[k] == x
    {
      assert order[k] in Elements(order);
    }
    EnumerationLength(fixes, order);
  }

  lemma BareStoreApplied()
    ensures ApplyFixes(Tool, map[10 := FixDesc(AddFlushAndFence, None)], [10])
              == Success(Applied(true, [FlushInserted(10, 1010), FenceInserted(1010, 2010)]))
  {
    var fixes := map[10 := FixDesc(AddFlushAndFence, None)];
    var edits := [FlushInserted(10, 1010), FenceInserted(1010, 2010)];
    assert FixBug(Tool, 10, fixes[10]) == Success(edits);
    assert [10][1..] == [];
    assert edits + [] == edits;
  }

  lemma BareStoreCollected()
    ensures CollectFixes(BareStore(), [1], CacheLine, LineMapper, AlwaysRedundant, map[])
              == Success(map[10 := FixDesc(AddFlushAndFence, None)])
  {
    StoreNeedsFlushAndFence();
  }

  /** End to end: the missing flush and fence are inserted at the store, the
      fence after the new flush. */
  lemma RepairInsertsFlushThenFence(enumerate: FixMapping<int> -> seq<int>)
    requires forall fixes :: EnumeratesKeys(fixes, enumerate(fixes))
    ensures DoRepair(TraceInfo(PmTest, BareStore(), [1]), CacheLine, LineMapper, AlwaysRedundant, Tool, Tool, enumerate)
              == Success(Applied(true, [FlushInserted(10, 1010), FenceInserted(1010, 2010)]))
  {
    var fixes := map[10 := FixDesc(AddFlushAndFence, None)];
    BareStoreCollected();
    SingleKeyOrder(fixes, 10, enumerate(fixes));
    BareStoreApplied();
  }

  lemma GuardedCollected()
    ensures CollectFixes(TwoFlushes(), [2], CacheLine, LineMapper, RedundantOnPaths, map[]) == Success(GuardedFixes())
  {
    RedundantFlushGuarded();
  }

  /** End to end: a guarded removal cannot be applied, so the repair of a
      flush that is redundant only on some paths aborts, whatever order the
      fix map is visited in. */
  lemma RepairRefusesConditionalFix(enumerate: FixMapping<int> -> seq<int>)
    requires forall fixes :: EnumeratesKeys(fixes, enumerate(fixes))
    ensures DoRepair(TraceInfo(Generic, TwoFlushes(), [2]), CacheLine, LineMapper, RedundantOnPaths, Tool, Tool, enumerate).Failure?
  {
    GuardedCollected();
    assert 31 in GuardedFixes() && FixBug(Tool, 31, GuardedFixes()[31]).Failure?;
  }
}
