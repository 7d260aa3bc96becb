/** Fix descriptors and the conflict-aware merge that accumulates them into
    the fix map (`BugFixer::addFixToMapping`). Instructions are an abstract
    type `I`; only their identity matters. */
module FixMap {
  import opened Wrappers

  datatype FixType =
    | AddFlushOnly | AddFenceOnly | AddFlushAndFence | RemoveFlushOnly
    | AddFlushCondition | RemoveFlushConditional

  /** A fix and, for the conditional kinds, the instruction it depends on. */
  datatype FixDesc<I> = FixDesc(kind: FixType, dependent: Option<I>)

  type FixMapping<I> = map<I, FixDesc<I>>

  datatype MergeError = ConflictingFixes | UnhandledCombination

  /** The map after a merge, and whether the merge reported a change. */
  datatype Merged<I> = Merged(added: bool, fixes: FixMapping<I>)

  /** An `existing` fix and an `incoming` one that together amount to adding
      a flush and a fence. */
  predicate Complementary(existing: FixType, incoming: FixType) {
    (existing == AddFlushOnly && incoming == AddFenceOnly)
    || (existing == AddFenceOnly && incoming == AddFlushOnly)
  }

  /** Removing a flush that an earlier fix wants to add. */
  predicate Conflicting(existing: FixType, incoming: FixType) {
    (existing == AddFlushOnly || existing == AddFlushAndFence) && incoming == RemoveFlushOnly
  }

  /** `BugFixer::addFixToMapping`. */
  function AddFixToMapping<I(==)>(m: FixMapping<I>, i: I, desc: FixDesc<I>): (r: Result<Merged<I>, MergeError>)
    // Only the entry for `i` can change, and it is always present afterwards.
    ensures r.Success? ==> r.value.fixes.Keys == m.Keys + {i}
    ensures r.Success? ==> forall j :: j in m && j != i ==> r.value.fixes[j] == m[j]
    // An absent key receives the descriptor.
    ensures i !in m ==> r == Success(Merged(true, m[i := desc]))
    // The same descriptor again changes nothing and reports no change.
    ensures i in m && m[i] == desc ==> r == Success(Merged(false, m))
    // A flush and a fence, in either order, become both, keeping the stored dependent.
    ensures i in m && m[i] != desc && Complementary(m[i].kind, desc.kind) ==>
              r == Success(Merged(true, m[i := FixDesc(AddFlushAndFence, m[i].dependent)]))
    // Every other pair is fatal.
    ensures r.Failure? <==> i in m && m[i] != desc && !Complementary(m[i].kind, desc.kind)
    ensures r.Failure? ==> (r.error == ConflictingFixes <==> Conflicting(m[i].kind, desc.kind))
  {
    if i !in m then Success(Merged(true, m[i := desc]))
    else if m[i] == desc then Success(Merged(false, m))
    else if m[i].kind == AddFlushOnly && desc.kind == AddFenceOnly then
      Success(Merged(true, m[i := m[i].(kind := AddFlushAndFence)]))
    else if m[i].kind == AddFenceOnly && desc.kind == AddFlushOnly then
      Success(Merged(true, m[i := m[i].(kind := AddFlushAndFence)]))
    else if (m[i].kind == AddFlushOnly || m[i].kind == AddFlushAndFence) && desc.kind == RemoveFlushOnly then
      Failure(ConflictingFixes)
    else
      Failure(UnhandledCombination)
  }

  /** After a successful merge the stored fix is the incoming one, or the
      combined flush-and-fence. */
  lemma MergeResultCovers<I>(m: FixMapping<I>, i: I, desc: FixDesc<I>)
    requires AddFixToMapping(m, i, desc).Success?
    ensures var f := AddFixToMapping(m, i, desc).value.fixes[i];
            f == desc || (f.kind == AddFlushAndFence && Complementary(m[i].kind, desc.kind))
  {
  }

  /** Merging is idempotent: merging a descriptor a second time reports no
      change and leaves the map as the first merge left it. */
  lemma {:induction false} MergeIdempotent<I>(m: FixMapping<I>, i: I, desc: FixDesc<I>)
    requires AddFixToMapping(m, i, desc).Success?
    requires AddFixToMapping(m, i, desc).value.fixes[i] == desc
    ensures var m1 := AddFixToMapping(m, i, desc).value.fixes;
            AddFixToMapping(m1, i, desc) == Success(Merged(false, m1))
  {
  }

  /** Adding a flush and adding a fence commute: on an absent key, either
      order ends with one flush-and-fence entry and reports a change each
      time. */
  lemma FlushThenFenceCommute<I>(m: FixMapping<I>, i: I, d: Option<I>)
    requires i !in m
    ensures var flush := FixDesc(AddFlushOnly, d);
            var fence := FixDesc(AddFenceOnly, d);
            var a := AddFixToMapping(m, i, flush).value.fixes;
            var b := AddFixToMapping(m, i, fence).value.fixes;
            && AddFixToMapping(a, i, fence) == Success(Merged(true, m[i := FixDesc(AddFlushAndFence, d)]))
            && AddFixToMapping(b, i, flush) == Success(Merged(true, m[i := FixDesc(AddFlushAndFence, d)]))
  {
    var both := FixDesc(AddFlushAndFence, d);
    assert m[i := FixDesc(AddFlushOnly, d)][i := both] == m[i := both];
    assert m[i := FixDesc(AddFenceOnly, d)][i := both] == m[i := both];
  }

  /** The documented sequence: a flush, then a fence, gives both; merging
      the combined descriptor again is a no-op; asking to remove the flush
      afterwards is a conflict. */
  lemma FlushFenceThenRemove<I>(m: FixMapping<I>, i: I)
    requires i !in m
    ensures var m1 := AddFixToMapping(m, i, FixDesc(AddFlushOnly, None)).value.fixes;
            var m2 := AddFixToMapping(m1, i, FixDesc(AddFenceOnly, None)).value.fixes;
            && m2[i] == FixDesc(AddFlushAndFence, None)
            && AddFixToMapping(m2, i, FixDesc(AddFlushAndFence, None)) == Success(Merged(false, m2))
            && AddFixToMapping(m2, i, FixDesc(RemoveFlushOnly, None)) == Failure(ConflictingFixes)
  {
  }

  /** A combined flush-and-fence does not absorb a later flush-only or
      fence-only request for the same instruction: the pair is unhandled. */
  lemma CombinedDoesNotAbsorbPart<I>(m: FixMapping<I>, i: I, part: FixType)
    requires i in m && m[i].kind == AddFlushAndFence
    requires part == AddFlushOnly || part == AddFenceOnly
    ensures AddFixToMapping(m, i, FixDesc(part, m[i].dependent)) == Failure(UnhandledCombination)
  {
  }

  /** The same conditional kind with a different dependent is unhandled. */
  lemma DifferentDependentUnhandled<I>(m: FixMapping<I>, i: I, d: I)
    requires i in m && m[i].kind == AddFlushCondition && m[i].dependent != Some(d)
    ensures AddFixToMapping(m, i, FixDesc(AddFlushCondition, Some(d))) == Failure(UnhandledCombination)
  {
  }
}
