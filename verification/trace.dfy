/** The trace data model: typed events, their parsing from event names, call
    stack comparison, and the bug-index bookkeeping of `TraceInfo`. */
module Trace {
  import opened Wrappers
  import opened Addresses
  import opened Locations

  datatype EventType =
    | Store | Flush | Fence | AssertPersisted | AssertOrdered | RequiredFlush | Invalid

  /** The tool that produced the trace, which selects the fix generator. Any
      tag other than the two supported ones is rejected when repairing. */
  datatype Source = PmTest | Generic | Unsupported

  datatype TraceEvent = TraceEvent(
    kind: EventType,
    typeString: string,
    timestamp: u64,
    location: LocationInfo,
    addresses: seq<AddressInfo>,
    callstack: seq<LocationInfo>,
    isBug: bool)

  /** Events that take part in the backward scans. The predicate is declared
      outside the modelled files; the model takes it to admit stores, flushes
      and fences. */
  predicate IsOperation(e: TraceEvent) {
    e.kind == Store || e.kind == Flush || e.kind == Fence
  }

  // ---------------------------------------------------------------------
  // Event names

  /** `std::tolower` in the "C" locale: only 'A'..'Z' change. */
  function LowerChar(c: char): char {
    if 'A' <= c <= 'Z' then (c as int - 'A' as int + 'a' as int) as char else c
  }

  function ToLower(s: string): string {
    seq(|s|, i requires 0 <= i < |s| => LowerChar(s[i]))
  }

  /** The lower-case name under which each valid event type is written. */
  function EventName(t: EventType): string
    requires t != Invalid
  {
    match t
    case Store => "store"
    case Flush => "flush"
    case Fence => "fence"
    case AssertPersisted => "assert_persisted"
    case AssertOrdered => "assert_ordered"
    case RequiredFlush => "required_flush"
  }

  /** `TraceEvent::getType`: parses an event name ignoring case. */
  function GetType(s: string): (r: EventType)
    ensures r != Invalid ==> ToLower(s) == EventName(r)
    ensures r == Invalid <==> forall t: EventType :: t != Invalid ==> ToLower(s) != EventName(t)
  {
    var l := ToLower(s);
    if l == "store" then Store
    else if l == "flush" then Flush
    else if l == "fence" then Fence
    else if l == "assert_persisted" then AssertPersisted
    else if l == "assert_ordered" then AssertOrdered
    else if l == "required_flush" then RequiredFlush
    else Invalid
  }

  /** Every valid event type is parsed back from its name. */
  lemma GetTypeOfName(t: EventType)
    requires t != Invalid
    ensures GetType(EventName(t)) == t
  {
    var n := EventName(t);
    assert ToLower(n) == n;
  }

  /** Parsing depends only on the lower-cased name: two strings that agree
      up to case parse to the same type. */
  lemma GetTypeCaseInsensitive(s: string, u: string)
    requires ToLower(s) == ToLower(u)
    ensures GetType(s) == GetType(u)
  {
  }

  /** Upper-case spellings are accepted too. */
  lemma GetTypeUpperCase()
    ensures GetType("STORE") == Store
    ensures GetType("Assert_Persisted") == AssertPersisted
    ensures GetType("storee") == Invalid
  {
    assert ToLower("STORE") == "store";
    assert ToLower("Assert_Persisted") == "assert_persisted";
    var l := ToLower("storee");
    assert |l| == 6 && l[..5] == "store";
  }

  // ---------------------------------------------------------------------
  // Call stacks

  /** Frame `i` of two stacks agrees: same function and same file, and the
      same line except in the innermost frame (index 0). */
  predicate FramesMatch(i: nat, a: LocationInfo, b: LocationInfo) {
    a.functionName == b.functionName && a.file == b.file && (i > 0 ==> a.line == b.line)
  }

  /** `TraceEvent::callStacksEqual`. File paths are compared exactly here,
      unlike in location equality. */
  method CallStacksEqual(a: TraceEvent, b: TraceEvent) returns (r: bool)
    ensures r <==> |a.callstack| == |b.callstack|
                   && forall i :: 0 <= i < |a.callstack| ==> FramesMatch(i, a.callstack[i], b.callstack[i])
  {
    if |a.callstack| != |b.callstack| {
      return false;
    }
    var i := 0;
    while i < |a.callstack|
      invariant 0 <= i <= |a.callstack|
      invariant forall k :: 0 <= k < i ==> FramesMatch(k, a.callstack[k], b.callstack[k])
    {
      var la := a.callstack[i];
      var lb := b.callstack[i];
      if la.functionName != lb.functionName {
        return false;
      }
      if la.file != lb.file {
        return false;
      }
      if i > 0 && la.line != lb.line {
        return false;
      }
      i := i + 1;
    }
    return true;
  }

  // ---------------------------------------------------------------------
  // TraceInfo

  datatype TraceInfo = TraceInfo(source: Source, events: seq<TraceEvent>, bugs: seq<nat>)

  /** The bug list is exactly the strictly increasing sequence of positions
      of events flagged as bugs. */
  ghost predicate BugsIndexed(ti: TraceInfo) {
    && (forall k :: 0 <= k < |ti.bugs| ==> ti.bugs[k] < |ti.events| && ti.events[ti.bugs[k]].isBug)
    && (forall k, l :: 0 <= k < l < |ti.bugs| ==> ti.bugs[k] < ti.bugs[l])
    && (forall p :: 0 <= p < |ti.events| && ti.events[p].isBug ==> p in ti.bugs)
  }

  /** `TraceInfo::addEvent`: appends the event and, when it is a bug, its
      position. */
  function AddEvent(ti: TraceInfo, e: TraceEvent): (r: TraceInfo)
    ensures r.source == ti.source && r.events == ti.events + [e]
    ensures BugsIndexed(ti) ==> BugsIndexed(r)
  {
    var bugs := if e.isBug then ti.bugs + [|ti.events|] else ti.bugs;
    TraceInfo(ti.source, ti.events + [e], bugs)
  }

  /** Adds the events one after another to an empty trace. */
  function FromEvents(source: Source, es: seq<TraceEvent>): (r: TraceInfo)
    ensures r.source == source && r.events == es
    decreases |es|
  {
    if |es| == 0 then TraceInfo(source, [], [])
    else
      var init, last := es[..|es| - 1], es[|es| - 1];
      assert init + [last] == es;
      AddEvent(FromEvents(source, init), last)
  }

  /** After any sequence of `addEvent` calls on an empty trace, the bug list
      indexes exactly the bugs. */
  lemma {:induction false} FromEventsIndexesBugs(source: Source, es: seq<TraceEvent>)
    ensures BugsIndexed(FromEvents(source, es))
    decreases |es|
  {
    if |es| > 0 {
      FromEventsIndexesBugs(source, es[..|es| - 1]);
    }
  }

  // ---------------------------------------------------------------------
  // Building events from records

  /** One record of the trace document, after its fields have been read.
      Address fields that the record's kind does not use are ignored. */
  datatype RawEvent = RawEvent(
    event: string,
    timestamp: u64,
    location: LocationInfo,
    isBug: bool,
    stack: seq<LocationInfo>,
    address: u64, length: u64,
    addressA: u64, lengthA: u64,
    addressB: u64, lengthB: u64)

  datatype TraceError = InvalidEventType(name: string)

  /** How many address ranges an event of each kind carries. */
  function AddressCount(t: EventType): nat {
    match t
    case Store | Flush | AssertPersisted | RequiredFlush => 1
    case AssertOrdered => 2
    case Fence | Invalid => 0
  }

  /** `TraceInfoBuilder::processEvent` without the document reading: an
      unknown event name is fatal; otherwise the address ranges follow the
      kind. */
  function ProcessEvent(raw: RawEvent): (r: Result<TraceEvent, TraceError>)
    ensures r.Failure? <==> GetType(raw.event) == Invalid
    ensures r.Success? ==> r.value.kind == GetType(raw.event)
                           && |r.value.addresses| == AddressCount(r.value.kind)
                           && r.value.location == raw.location
                           && r.value.callstack == raw.stack
                           && r.value.isBug == raw.isBug
                           && r.value.typeString == raw.event
                           && r.value.timestamp == raw.timestamp
    ensures r.Success? && AddressCount(r.value.kind) == 1 ==>
              r.value.addresses[0] == AddressInfo(raw.address, raw.length)
    ensures r.Success? && r.value.kind == AssertOrdered ==>
              r.value.addresses == [AddressInfo(raw.addressA, raw.lengthA), AddressInfo(raw.addressB, raw.lengthB)]
  {
    var t := GetType(raw.event);
    if t == Invalid then Failure(InvalidEventType(raw.event))
    else
      var addresses :=
        match t
        case Store | Flush | AssertPersisted | RequiredFlush => [AddressInfo(raw.address, raw.length)]
        case AssertOrdered => [AddressInfo(raw.addressA, raw.lengthA), AddressInfo(raw.addressB, raw.lengthB)]
        case _ => [];
      Success(TraceEvent(t, raw.event, raw.timestamp, raw.location, addresses, raw.stack, raw.isBug))
  }

  /** The address shape every parsed event has. */
  predicate WellShaped(e: TraceEvent) {
    e.kind != Invalid && |e.addresses| == AddressCount(e.kind)
  }

  /** The values of a sequence of results when all succeed, otherwise the
      first failure. */
  function AllValues<T, E>(rs: seq<Result<T, E>>): (r: Result<seq<T>, E>)
    ensures r.Success? ==> |r.value| == |rs| && forall k :: 0 <= k < |rs| ==> rs[k] == Success(r.value[k])
    ensures r.Failure? ==> exists k :: 0 <= k < |rs| && rs[k] == Failure(r.error)
                                       && forall j :: 0 <= j < k ==> rs[j].Success?
    decreases |rs|
  {
    if |rs| == 0 then Success([])
    else
      match rs[0]
      case Failure(err) => Failure(err)
      case Success(v) =>
        match AllValues(rs[1..])
        case Failure(err) =>
          assert forall k :: 0 <= k < |rs| - 1 ==> rs[1..][k] == rs[k + 1];
          Failure(err)
        case Success(rest) =>
          assert forall k :: 1 <= k < |rs| ==> rs[k] == rs[1..][k - 1];
          Success([v] + rest)
  }

  /** Parses every record in order, stopping at the first invalid one. */
  function ParseEvents(raws: seq<RawEvent>): (r: Result<seq<TraceEvent>, TraceError>)
    ensures r.Success? ==> |r.value| == |raws|
                           && forall k :: 0 <= k < |raws| ==> ProcessEvent(raws[k]) == Success(r.value[k])
    ensures r.Failure? ==> exists k :: 0 <= k < |raws| && ProcessEvent(raws[k]) == Failure(r.error)
                                       && forall j :: 0 <= j < k ==> ProcessEvent(raws[j]).Success?
  {
    var rs := seq(|raws|, k requires 0 <= k < |raws| => ProcessEvent(raws[k]));
    var r := AllValues(rs);
    if r.Failure? then FirstFailureParsed(raws, rs, r.error); r else r
  }

  /** The first failing result of the parsed records is the first record
      that fails to parse. */
  lemma FirstFailureParsed(raws: seq<RawEvent>, rs: seq<Result<TraceEvent, TraceError>>, err: TraceError)
    requires |rs| == |raws| && forall k :: 0 <= k < |raws| ==> rs[k] == ProcessEvent(raws[k])
    requires exists k :: 0 <= k < |rs| && rs[k] == Failure(err) && forall j :: 0 <= j < k ==> rs[j].Success?
    ensures exists k :: 0 <= k < |raws| && ProcessEvent(raws[k]) == Failure(err)
                        && forall j :: 0 <= j < k ==> ProcessEvent(raws[j]).Success?
  {
    var k :| 0 <= k < |rs| && rs[k] == Failure(err) && forall j :: 0 <= j < k ==> rs[j].Success?;
    assert ProcessEvent(raws[k]) == Failure(err);
  }

  /** `TraceInfoBuilder::build`: parses every record and adds it. */
  function BuildTrace(source: Source, raws: seq<RawEvent>): (r: Result<TraceInfo, TraceError>)
    ensures r.Success? ==> BugsIndexed(r.value) && |r.value.events| == |raws| && r.value.source == source
    ensures r.Success? ==> forall k :: 0 <= k < |raws| ==> ProcessEvent(raws[k]) == Success(r.value.events[k])
    ensures r.Success? ==> forall k :: 0 <= k < |raws| ==> WellShaped(r.value.events[k])
    ensures r.Failure? <==> exists k :: 0 <= k < |raws| && GetType(raws[k].event) == Invalid
    ensures r.Failure? ==> exists k :: 0 <= k < |raws| && r.error == InvalidEventType(raws[k].event)
                                       && forall j :: 0 <= j < k ==> GetType(raws[j].event) != Invalid
  {
    match ParseEvents(raws)
    case Failure(err) => Failure(err)
    case Success(es) =>
      FromEventsIndexesBugs(source, es);
      Success(FromEvents(source, es))
  }
}
