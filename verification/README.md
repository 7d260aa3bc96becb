# hippocrates fix engine, modelled in Dafny

hippocrates repairs persistent-memory bugs in LLVM programs. It reads a trace
of events from a bug finder, such as PMTest or a generic tool. The trace
holds stores, flushes, fences and assertion events, and each bug is flagged.
The tool classifies every bug by scanning the trace backwards from it and
records a fix per instruction in a fix map. It then applies the fixes through
a fix generator, which inserts flushes and fences and removes flushes.

This project models that core as pure functions over immutable data:

- `Addresses`: address ranges (`AddressInfo`) in unsigned 64-bit arithmetic,
  their overlap test, and the single-cache-line test.
- `Locations`: source locations (`LocationInfo`), the file-name extraction,
  and the fuzzy location equality that accepts one file path as a substring
  of the other.
- `Trace`: event types and their case-insensitive parsing, call-stack
  comparison, the bug-index bookkeeping of `TraceInfo`, and the address shape
  each event kind receives when a trace is built.
- `FixMap`: fix descriptors and the conflict-aware merge `addFixToMapping`.
- `BugFixer`:
  - the persisted-assertion scan (missing flush and/or fence);
  - the redundant-flush scan and the conditional dependency chain;
  - dispatch on the bug type;
  - fix application through a generator capability;
  - the repair driver.
- `Scenarios`: small concrete traces pushed through the fixer end to end.

Instructions are an opaque type parameter `I`. Three collaborators become
function parameters:

- the location-to-instructions mapper;
- the flow analysis between the original and the redundant flush, giving
  `alwaysRedundant` and `redundantPaths`;
- the fix generator.

Every aborting `assert` on the fixer's repair path (src/BugFixer.cpp), and
its `exit` on an unknown trace source, becomes a `Failure` value of
`RepairError`. The one exception is the null check on each mapped
instruction, which has no counterpart because a mapped instruction is
always a value of `I`. An unknown event type in the trace becomes a
`Failure` value of `TraceError` instead.

Four facts are not visible in the modelled files, so the model states an
assumption for each:

- `AddressInfo::end()` is taken as `address + length`, wrapping modulo 2^64,
  so a range is the half-open interval `[start, end)`. Under this reading,
  `isSingleCacheLine` as written (`start/CL == end/CL`) rejects a range that
  ends exactly on a line boundary, such as a whole aligned line
  (`FullLineNotSingleCacheLine`). The inclusive test `(addr+len-1)/CL` would
  accept such a range. The model follows the code.
- `TraceEvent::isOperation()` is taken to admit stores, flushes and fences.
  The fence branch of the persisted-assertion scan is reachable only under
  this assumption.
- `FixDesc` equality compares both the fix type and the dependent
  instruction.
- A default-constructed `FixDesc`, whose type is then set, has no dependent
  instruction (`None`). The persisted-assertion fixes and the unconditional
  removal are built this way, and the identical-descriptor case of the merge
  compares that field.

One behaviour of the code as written is shown concretely. Suppose two
persistence assertions cover the same store, with a fence between them. The
first asks for a flush and a fence, the second for a flush only. The merge
refuses that pair and the run aborts (`Scenarios.RepeatedAssertionAborts`).

## Model

| member | source | states |
|---|---|---|
| Addresses.OverlapsSymmetric | src/BugReports.cpp:29-31 | overlap does not depend on the order of the two ranges |
| Addresses.OverlapsIffSharedByte | src/BugReports.cpp:29-31 | for non-empty ranges that do not wrap, overlap holds exactly when some byte lies in both ranges |
| Addresses.EqualRangesOverlap | src/BugReports.cpp:29-35 | equal non-empty, non-wrapping ranges overlap |
| Addresses.OverlapWeakerThanEquality | src/BugReports.cpp:29-35 | two ranges can overlap without being equal, so an exact match is strictly stronger than overlap |
| Addresses.EmptyRangeInsideOverlaps | src/BugReports.cpp:29-31 | an empty range strictly inside another still counts as overlapping it, although it holds no byte |
| Addresses.WrappingRangeOverlapsNothing | src/BugReports.cpp:29-31 | a range that wraps past the top of the address space does not even overlap itself |
| Addresses.SingleCacheLineCharacterized | src/BugReports.cpp:22-27 | for a non-wrapping range, the single-line test holds exactly when the offset in the line plus the length stays below the line size |
| Addresses.SingleCacheLineBytesShareLine | src/BugReports.cpp:22-27 | every byte of a range that passes the single-line test lies in the line of its first byte |
| Addresses.FullLineNotSingleCacheLine | src/BugReports.cpp:22-27 | a whole aligned cache line fails the test as written |
| Locations.Find | src/BugReports.cpp:53-58 | `find` gives the first position where the needle occurs, and nothing exactly when the needle is not a substring |
| Locations.LastSlash | src/BugReports.cpp:41-42 | the position found holds '/' and no '/' follows it; nothing is found exactly when the path has no '/' |
| Locations.GetFilename | src/BugReports.cpp:41-45 | the result is the suffix after the last '/', or the whole path when it has no '/' |
| Locations.LocationEq | src/BugReports.cpp:47-65 | locations are equal iff function and line agree and one file path is a substring of the other |
| Locations.LocationEqReflexive | src/BugReports.cpp:47-65 | every location equals itself |
| Locations.LocationEqSymmetric | src/BugReports.cpp:47-65 | location equality does not depend on argument order, although the code searches in the longer path |
| Locations.LocationEqNotTransitive | src/BugReports.cpp:47-65 | "src/a.c" matches "a.c" and "a.c" matches "lib/a.c", but "src/a.c" does not match "lib/a.c" |
| Locations.LocationEqAcceptsPathSuffix | src/BugReports.cpp:51-58 | a path prefixed by a directory still matches the bare file name |
| Trace.GetType | src/BugReports.cpp:135-146 | a valid result is the type whose name equals the lower-cased input; INVALID exactly when no name matches |
| Trace.GetTypeOfName | src/BugReports.cpp:135-146 | each of the six names parses back to its type |
| Trace.GetTypeCaseInsensitive | src/BugReports.cpp:136-137 | inputs that agree after lower-casing parse to the same type |
| Trace.GetTypeUpperCase | src/BugReports.cpp:135-146 | "STORE" and "Assert_Persisted" parse, "storee" is INVALID |
| Trace.CallStacksEqual | src/BugReports.cpp:181-196 | true iff the stacks have the same depth and every frame matches in function and file, and in line for every frame except the innermost |
| Trace.AddEvent | src/BugReports.cpp:202-208 | appends the event and keeps the bug list equal to the increasing positions of exactly the bug events |
| Trace.FromEvents | src/BugReports.cpp:202-208 | adding events one after another to an empty trace keeps exactly those events, in order, and the source tag |
| Trace.FromEventsIndexesBugs | src/BugReports.cpp:202-208 | after adding any sequence of events to an empty trace, the bug list indexes exactly the bug events, in increasing order |
| Trace.ProcessEvent | src/BugReports.cpp:224-273 | an unknown name is fatal; stores, flushes, persisted assertions and required flushes get one range, ordering assertions get two, fences get none |
| Trace.ParseEvents | src/BugReports.cpp:275-285 | each parsed event is what its record alone parses to; a failure is the error of the first record that fails, all records before it parsing |
| Trace.BuildTrace | src/BugReports.cpp:275-285 | a built trace keeps the source tag, has one event per record, each the record's own parse with its kind's address shape, and indexes its bugs; building fails iff some record names an unknown type, and the error names the first such record |
| FixMap.AddFixToMapping | src/BugFixer.cpp:13-47 | the merge table: an absent key is inserted with a change; the same descriptor is a no-op; flush plus fence combine in either order; every other pair is fatal, and removing a flush that is to be added is the conflict case; no other key changes |
| FixMap.MergeResultCovers | src/BugFixer.cpp:13-30 | after a successful merge the stored fix is the incoming one or the combined flush-and-fence |
| FixMap.MergeIdempotent | src/BugFixer.cpp:18-21 | merging the stored descriptor again reports no change and leaves the map alone |
| FixMap.FlushThenFenceCommute | src/BugFixer.cpp:24-30 | adding a flush and adding a fence give the same map in either order |
| FixMap.FlushFenceThenRemove | src/BugFixer.cpp:13-35 | flush then fence gives both; repeating both is a no-op; a removal afterwards is a conflict |
| FixMap.CombinedDoesNotAbsorbPart | src/BugFixer.cpp:24-46 | a flush-only or fence-only request onto a stored flush-and-fence is fatal |
| FixMap.DifferentDependentUnhandled | src/BugFixer.cpp:18-46 | the same conditional kind with a different dependent is fatal |
| BugFixer.PersistStop | src/BugFixer.cpp:73-92 | at an event it cannot step over, the scan stops with the exact-store or overlapping-flush anchor and its flags, or fails on a malformed operation or on a flush after a fence |
| BugFixer.ScanPersisted | src/BugFixer.cpp:69-97 | the anchor is the nearest exact store or overlapping flush, everything after it is passable, and the flags record whether a fence lies between; failing with no anchor happens iff the whole prefix is passable |
| BugFixer.ScanPersistedFinds | src/BugFixer.cpp:69-97 | an anchor before the scan's start (an exact store, or an overlapping flush with no fence after it), followed only by passable events, is the anchor the scan stops at |
| BugFixer.ClassifyPersisted | src/BugFixer.cpp:115-125 | nothing is chosen iff neither flag is set; otherwise the chosen fix inserts a flush exactly when the flush is missing and a fence exactly when the fence is missing |
| BugFixer.PersistedFixKind | src/BugFixer.cpp:62-125 | exact store without a fence gives flush-and-fence; with a fence, flush only; overlapping flush without a fence, fence only; every such anchor before the bug is found; a flush with a fence after it, a malformed operation, or no anchor at all is fatal, each at the position named |
| BugFixer.MergeEach | src/BugFixer.cpp:110-129 | the merges all succeed iff every instruction already holding a fix holds the descriptor, or a complementary part named only once; then a fresh instruction or one already holding the descriptor holds the descriptor, one holding the complementary part holds flush-and-fence with its stored dependent, other keys are untouched, and a change is reported iff some instruction was absent or held a different fix |
| BugFixer.MergeEachValuesStep | src/BugFixer.cpp:110-129 | once the first merge and the rest of the list are done, each fresh or equal instruction holds the descriptor and each complementary one holds flush-and-fence with the dependent it had |
| BugFixer.MergeAcceptsStep | src/BugFixer.cpp:110-129 | after one successful merge, the rest of the list is accepted by the new map exactly when the whole list was accepted by the old one |
| BugFixer.HandleAssertPersisted | src/BugFixer.cpp:62-132 | succeeds iff the anchor is classified, its location maps to at least one instruction, and the merges of the classified fix are all accepted; then a fresh instruction or one already holding that fix holds it, one holding the complementary part holds flush-and-fence with its stored dependent, other entries are unchanged, and a change is reported iff some instruction was absent or held a different fix |
| BugFixer.FlushStop | src/BugFixer.cpp:152-171 | an event the redundant-flush scan can neither step over nor take is fatal: more than one range, a range crossing a line, or a partially overlapping flush, each named exactly |
| BugFixer.ScanFlushes | src/BugFixer.cpp:147-173 | a found original is an exact flush at or before the scan's start; a redundant flush already found is kept; otherwise the redundant one is an exact flush after the original and at or before the start |
| BugFixer.ScanFlushesFound | src/BugFixer.cpp:147-173 | a successful scan found the nearest exact flush and then the next exact flush back, with only passable events after each |
| BugFixer.ScanFlushesMissing | src/BugFixer.cpp:147-179 | the redundant flush is missing exactly when every event is passable; the original is missing only when every event before the redundant one is passable |
| BugFixer.ScanFlushesPartial | src/BugFixer.cpp:167-171 | a scan that fails on a partial overlap names a position holding a partially overlapping flush |
| BugFixer.ScanFlushesFindsOriginal | src/BugFixer.cpp:147-166 | once the redundant flush is found, an exact flush followed only by passable events is the original one returned |
| BugFixer.ScanFlushesFindsPair | src/BugFixer.cpp:147-173 | two exact, well-shaped flushes, each followed only by passable events, are the pair the scan returns |
| BugFixer.FindFlushPair | src/BugFixer.cpp:144-179 | the result is a pair of exact flushes before the bug, each followed only by passable events, and every such pair is the one returned; missing the redundant flush happens iff the prefix is passable; a partial overlap names a partially overlapping flush |
| BugFixer.AddChain | src/BugFixer.cpp:226-232 | the chain succeeds iff the boundary points are new and distinct; each point then depends on its predecessor, the first on the redundant flush |
| BugFixer.ChainFor | src/BugFixer.cpp:223-237 | succeeds iff the boundary points are new, distinct and not the instruction, and the instruction holds nothing or that same removal; then the points hold conditional flushes in a chain, the instruction holds the conditional removal depending on the last point, nothing else changes, and a change is reported iff the instruction was new |
| BugFixer.RemovalFits | src/BugFixer.cpp:234-236 | over an installed chain, the closing conditional removal merges iff the instruction is not a boundary point and holds nothing or that same removal |
| BugFixer.ChainEach | src/BugFixer.cpp:217-239 | with no boundary points the map is unchanged; with one instruction the chain is installed for it |
| BugFixer.ChainNeedsSingleInstruction | src/BugFixer.cpp:217-239 | when the redundant flush maps to two or more instructions and there are boundary points, the chain always fails |
| BugFixer.RemoveEachAsWritten | src/BugFixer.cpp:216-221 | succeeds iff every instruction already holding a fix holds the unconditional removal; then every instruction holds it and no other entry changes |
| BugFixer.RemoveEachAsWrittenReports | src/BugFixer.cpp:216-221 | the as-written branch reports a change exactly when the last instruction had no fix and does not occur earlier in the list, whatever happened to the others |
| BugFixer.RemoveEachAsWrittenLosesChange | src/BugFixer.cpp:216-221 | a new removal at the first instruction is reported as no change when the last already held one |
| BugFixer.RemoveEach | src/BugFixer.cpp:216-221 | succeeds iff every instruction already holding a fix holds the unconditional removal; then every instruction holds it, no other entry changes, and a change is reported iff some instruction had no fix |
| BugFixer.RemoveEachFlagOnly | src/BugFixer.cpp:216-221 | the as-written and the corrected branch succeed on the same inputs and build the same fix map; only the reported change differs |
| BugFixer.HandleRequiredFlush | src/BugFixer.cpp:139-242 | without the flush pair it fails; always-redundant succeeds iff no instruction holds another fix, then puts removals at the redundant flush's instructions and changes no other entry; no boundary points or no instruction leaves the map alone; one instruction succeeds iff the chain fits, and installs it; two or more instructions with boundary points fail |
| BugFixer.ComputeAndAddFix | src/BugFixer.cpp:244-271 | a non-bug is fatal; persisted assertions and required flushes need exactly one range, which must lie in one line, and then are exactly their handler's result; other bug types leave the map unchanged |
| BugFixer.FixBug | src/BugFixer.cpp:273-304 | each fix type calls its capability and fails iff the call fails; flush-and-fence puts the fence after the new flush; conditional types are unsupported |
| BugFixer.ApplyFixes | src/BugFixer.cpp:364-367 | fails iff some visited entry's fix fails; otherwise the edits are the concatenation, in visiting order, of each entry's fix, no entry was conditional, and the program counts as modified iff some entry was visited |
| BugFixer.RunFixMapOptimization | src/BugFixer.cpp:306-309 | the optimization reports no change and leaves the fix map as it was |
| BugFixer.SelectGenerator | src/BugFixer.cpp:319-335 | PMTest and generic traces select their generator; any other source is fatal |
| BugFixer.CollectFixes | src/BugFixer.cpp:342-350 | the fix map only grows; traces whose bugs are all unfixable leave it unchanged; a listed non-bug is fatal |
| BugFixer.EnumerationLength | src/BugFixer.cpp:364-367 | an iteration order that lists each key once has exactly one position per fix-map entry |
| BugFixer.DoRepair | src/BugFixer.cpp:311-370 | an unsupported source is fatal and a failed collection is passed on; otherwise the repair fails iff some collected fix fails, and on success no fix was conditional, the program counts as modified iff some fix was collected, and the edits are every collected fix's edits in iteration order |
| Scenarios.StoreNeedsFlushAndFence | src/BugFixer.cpp:62-132 | a bare store before a persisted assertion gets flush-and-fence |
| Scenarios.FencedStoreNeedsFlush | src/BugFixer.cpp:62-132 | a store followed by a fence gets flush only |
| Scenarios.FlushedStoreNeedsFence | src/BugFixer.cpp:62-132 | a store followed by an overlapping flush gets fence only, at the flush |
| Scenarios.FlushAndFenceContradiction | src/BugFixer.cpp:86-92 | a flush followed by a fence before a failed assertion is fatal |
| Scenarios.NoStoreIsFatal | src/BugFixer.cpp:103 | with no store or flush of the range, the persisted assertion is fatal |
| Scenarios.RedundantFlushRemoved | src/BugFixer.cpp:139-242 | two exact flushes, always redundant: the nearer flush is removed |
| Scenarios.RedundantFlushGuarded | src/BugFixer.cpp:217-239 | redundant on two paths: both boundary points get chained conditional flushes and the nearer flush gets the conditional removal |
| Scenarios.PartialFlushIsFatal | src/BugFixer.cpp:167-171 | a partially overlapping flush before the pair is found is fatal |
| Scenarios.OrderingAssertionNotFixed | src/BugFixer.cpp:266-269 | an ordering assertion leaves any fix map unchanged |
| Scenarios.RepeatedAssertionAborts | src/BugFixer.cpp:24-46 | two persisted assertions on one store, with a fence between, make the merge fail |
| Scenarios.RepairInsertsFlushThenFence | src/BugFixer.cpp:311-370 | end to end, for any iteration order of the fix map, a bare store gets a flush and then a fence after the new flush |
| Scenarios.RepairRefusesConditionalFix | src/BugFixer.cpp:311-370 | end to end, for any iteration order of the fix map, a flush redundant only on some paths yields conditional fixes, which cannot be applied |

## Left out

- The flow analysis (`FlowAnalyzer`): its two results, `alwaysRedundant` and `redundantPaths`, are a function parameter.
- The location mapper's construction from LLVM debug metadata (`insertMapping`, `createMappings`): the mapper is a function parameter from location to instructions.
- YAML reading, the trace metadata, every `str()` formatter, `int_to_hex`, and the `errs()` logging: they are input and output only. `Trace.ProcessEvent` starts from a record whose fields have already been read.
- The `sysconf` query for the cache-line size: the line size is a positive parameter.
- The concrete PMTest and generic fix generators: a generator is a record of three functions, with no state of its own between calls.
- The iteration order of the fix map when fixes are applied: it is a function parameter `enumerate`, and `BugFixer.DoRepair` requires it to list each collected key exactly once. The declaration of `fixMap_` is not part of this model; if it is a `std::map` keyed by instruction pointer, it iterates in address order, which the model does not fix.
- `exit(-1)` on an unsupported trace source: it becomes the `UnsupportedSource` failure.
- `doRepair` keeps a pointer to a generator object whose scope has ended. The model treats the selected generator as still valid.
- `handleAssertOrdered` only logs; ordering assertions go to the default branch of the dispatch, which changes nothing.
- `Trace.CallStacksEqual`: the repair's outcome does not depend on it, because `handleRequiredFlush` only logs its result, so `BugFixer.HandleRequiredFlush` does not call it.
- Integer indices are unbounded. The `int` bug index and the `int` loop counters are not limited to 32 bits.
- `BugFixer.HandleRequiredFlush`: the always-redundant branch uses the corrected `BugFixer.RemoveEach`, so it reports a change when any removal was new, not the last merge's flag as the code does. `BugFixer.RemoveEachFlagOnly` shows that the fix map and the failure cases are the same either way; only this flag, which the tool only logs, differs.
- `BugFixer.ChainEach`: for two or more instructions it states only that the map grows; `BugFixer.ChainNeedsSingleInstruction` shows that this case always fails when there are boundary points.
- `BugFixer.CollectFixes`: it does not state each bug's fix separately; `BugFixer.ComputeAndAddFix` states that per bug.

## Findings

| source | as written | input that shows it | evidently intended | confidence | as-written member | corrected member |
|---|---|---|---|---|---|---|
| src/BugFixer.cpp:217-222 | the unconditional-removal branch assigns `res = addFixToMapping(...)`, so only the last instruction's merge decides whether a change is reported | redundant flush mapping to instructions [1, 2], where 2 already holds the removal and 1 holds nothing: 1 receives a new removal, but no change is reported | accumulate as the other loops do (`res = res \|\| ...`, as in src/BugFixer.cpp:128 and 236), so a change is reported iff some instruction received a new removal | medium, not executed; the flag only feeds a log message | BugFixer.RemoveEachAsWritten (shown by BugFixer.RemoveEachAsWrittenLosesChange and BugFixer.RemoveEachAsWrittenReports) | BugFixer.RemoveEach |
