/**
 Counters in shared memory: the slot allocator with its free list (CountersManager.h), the scans of readers
 (CountersReader.h) and the heartbeat search (HeartbeatTimestamp.h). A record of the metadata buffer is one element of
 an array, as is a counter of the values buffer; the clock is a parameter.
 */
module Counters {

  const MAX_LABEL_LENGTH := 380
  const MAX_KEY_LENGTH := 112
  const NOT_FREE_TO_REUSE := 0x7FFF_FFFF_FFFF_FFFF
  const NULL_COUNTER_ID := -1

  datatype RecordState = UNUSED | ALLOCATED | RECLAIMED

  datatype Record = Record(state: RecordState, typeId: int, deadline: int, key: seq<int>, labelText: seq<int>)

  datatype Value = Value(value: int, registrationId: int, ownerId: int)

  /** Both buffers, the ids waiting for reuse in the order they were freed, and the highest id ever handed out. */
  datatype State = State(records: seq<Record>, values: seq<Value>, freeList: seq<int>, highWaterMark: int)
  {
    function MaxCounterId(): int { |values| - 1 }

    predicate Allocated(id: int) { 0 <= id < |records| && records[id].state.ALLOCATED? }
  }

  datatype Outcome = Id(id: int) | LabelTooLong | Full | OutOfRange | Done

  function Zeros(n: nat): seq<int> { seq(n, _ => 0) }

  const UnusedRecord := Record(UNUSED, 0, 0, Zeros(MAX_KEY_LENGTH), [])

  function Start(records: nat, values: nat): State {
    State(seq(records, _ => UnusedRecord), seq(values, _ => Value(0, 0, 0)), [], -1)
  }

  /** The first entry of the free list whose deadline has passed, or the length of the list. */
  function FirstReusable(s: State, now: int, from: nat): (k: nat)
    requires from <= |s.freeList|
    ensures from <= k <= |s.freeList|
    ensures k < |s.freeList| ==> Reusable(s, now, s.freeList[k])
    ensures forall i :: from <= i < k ==> !Reusable(s, now, s.freeList[i])
    decreases |s.freeList| - from
  {
    if from == |s.freeList| || Reusable(s, now, s.freeList[from]) then from else FirstReusable(s, now, from + 1)
  }

  predicate Reusable(s: State, now: int, id: int) { 0 <= id < |s.records| && now >= s.records[id].deadline }

  /** nextCounterId. */
  function Next(s: State, now: int): (State, Outcome) {
    var k := FirstReusable(s, now, 0);
    if k < |s.freeList| then
      var id := s.freeList[k];
      (s.(freeList := s.freeList[..k] + s.freeList[k + 1..],
          values := if 0 <= id < |s.values| then s.values[id := Value(0, 0, 0)] else s.values),
       Id(id))
    else if s.highWaterMark + 1 > s.MaxCounterId() then (s, Full)
    else (s.(highWaterMark := s.highWaterMark + 1), Id(s.highWaterMark + 1))
  }

  /** A key written over the front of what the record holds. */
  function KeyOver(held: seq<int>, key: seq<int>): seq<int> {
    var n := if |key| <= MAX_KEY_LENGTH then |key| else MAX_KEY_LENGTH;
    if n <= |held| then key[..n] + held[n..] else held
  }

  /** allocate with a key of bytes. */
  function Allocation(s: State, typeId: int, key: seq<int>, labelText: seq<int>, now: int): (State, Outcome) {
    if |labelText| > MAX_LABEL_LENGTH then (s, LabelTooLong)
    else
      var (next, outcome) := Next(s, now);
      if outcome.Id? && 0 <= outcome.id < |next.records| then
        var record := Record(ALLOCATED, typeId, NOT_FREE_TO_REUSE, KeyOver(next.records[outcome.id].key, key),
                             labelText);
        (next.(records := next.records[outcome.id := record]), outcome)
      else (next, outcome)
  }

  /** free: the id is not checked to be allocated. */
  function Free(s: State, id: int, now: int, timeout: int): (State, Outcome) {
    if id < 0 || id > s.MaxCounterId() then (s, OutOfRange)
    else if id < |s.records| then
      var record := s.records[id].(state := RECLAIMED, deadline := now + timeout, key := Zeros(MAX_KEY_LENGTH));
      (s.(records := s.records[id := record], freeList := s.freeList + [id]), Done)
    else (s, OutOfRange)
  }

  /** setCounterRegistrationId. */
  function SetRegistrationId(s: State, id: int, registrationId: int): (State, Outcome) {
    if id < 0 || id > s.MaxCounterId() then (s, OutOfRange)
    else (s.(values := s.values[id := s.values[id].(registrationId := registrationId)]), Done)
  }

  /** Every id up to the high-water mark is either allocated or waiting in the free list, exactly once; beyond it
      nothing has been touched. */
  ghost predicate Inv(s: State) {
    && |s.values| <= |s.records| && -1 <= s.highWaterMark <= s.MaxCounterId()
    && (forall id :: 0 <= id < |s.records| ==> |s.records[id].key| == MAX_KEY_LENGTH)
    && (forall id :: 0 <= id < |s.records| ==> (s.records[id].state.UNUSED? <==> id > s.highWaterMark))
    && (forall id :: 0 <= id < |s.records| && !s.Allocated(id) ==> s.records[id].key == Zeros(MAX_KEY_LENGTH))
    && (forall k :: 0 <= k < |s.freeList| ==>
        0 <= s.freeList[k] < |s.records| && s.records[s.freeList[k]].state.RECLAIMED?)
    && (forall id :: 0 <= id < |s.records| && s.records[id].state.RECLAIMED? ==> id in s.freeList)
    && Distinct(s.freeList)
  }

  predicate Distinct(ids: seq<int>) {
    forall k, l :: 0 <= k < l < |ids| ==> ids[k] != ids[l]
  }

  lemma StartInv(records: nat, values: nat)
    requires values <= records
    ensures Inv(Start(records, values))
  {
  }

  lemma WithoutOne(ids: seq<int>, k: nat)
    requires k < |ids| && Distinct(ids)
    ensures var rest := ids[..k] + ids[k + 1..];
            Distinct(rest) && (forall id :: id in rest <==> id in ids && id != ids[k])
  {
    var rest := ids[..k] + ids[k + 1..];
    forall id | id in ids && id != ids[k]
      ensures id in rest
    {
      var l :| 0 <= l < |ids| && ids[l] == id;
      assert if l < k then rest[l] == id else rest[l - 1] == id;
    }
  }

  /** The id freed longest ago among those in the list whose deadline has passed. */
  predicate LongestFree(s: State, now: int, k: nat) {
    && k < |s.freeList| && 0 <= s.freeList[k] < |s.records| && now >= s.records[s.freeList[k]].deadline
    && forall i :: 0 <= i < k ==> 0 <= s.freeList[i] < |s.records| && now < s.records[s.freeList[i]].deadline
  }

  /** It is that one that is handed out and leaves the list, in which the others keep their order; and only if there is
      none, the next id never used. */
  lemma LongestFreeIsNext(s: State, now: int)
    requires Inv(s)
    ensures var (next, outcome) := Next(s, now);
            && (forall k: nat :: LongestFree(s, now, k) ==>
                  outcome == Id(s.freeList[k]) && next.freeList == s.freeList[..k] + s.freeList[k + 1..])
            && ((forall k :: 0 <= k < |s.freeList| ==> now < s.records[s.freeList[k]].deadline) ==>
                  next.freeList == s.freeList
                  && outcome == if s.highWaterMark < s.MaxCounterId() then Id(s.highWaterMark + 1) else Full)
  {
    var first := FirstReusable(s, now, 0);
    forall k: nat | LongestFree(s, now, k)
      ensures k == first
    {
      assert Reusable(s, now, s.freeList[k]);
    }
  }

  /** The next id is not allocated: a reclaimed one whose deadline has passed, or else the next id never used. There is
      none only with all ids in use or waiting. */
  lemma NextIsFree(s: State, now: int)
    requires Inv(s)
    ensures var (next, outcome) := Next(s, now);
            && next.records == s.records && |next.values| == |s.values|
            && if outcome == Full then
                 next == s && forall id :: 0 <= id <= s.MaxCounterId() ==>
                   s.Allocated(id) || (s.records[id].state.RECLAIMED? && s.records[id].deadline > now)
               else
                 && outcome.Id? && 0 <= outcome.id <= s.MaxCounterId() && !s.Allocated(outcome.id)
                 && (forall id :: 0 <= id < |s.values| && id != outcome.id ==> next.values[id] == s.values[id])
                 && Distinct(next.freeList)
                 && (forall id :: id in next.freeList <==> id in s.freeList && id != outcome.id)
                 && (if s.records[outcome.id].state.RECLAIMED? then
                       next.highWaterMark == s.highWaterMark && now >= s.records[outcome.id].deadline
                       && next.values[outcome.id] == Value(0, 0, 0)
                     else
                       && outcome.id == s.highWaterMark + 1 == next.highWaterMark
                       && next.values[outcome.id] == s.values[outcome.id])
  {
    var k := FirstReusable(s, now, 0);
    if k < |s.freeList| {
      WithoutOne(s.freeList, k);
    } else {
      forall id | 0 <= id <= s.highWaterMark && !s.Allocated(id)
        ensures s.records[id].deadline > now
      {
        var l :| 0 <= l < |s.freeList| && s.freeList[l] == id;
        assert !Reusable(s, now, s.freeList[l]);
      }
    }
  }

  /** An allocation that succeeds hands out an id that was not allocated, with a record of its own. */
  lemma AllocateIsFresh(s: State, typeId: int, key: seq<int>, labelText: seq<int>, now: int)
    requires Inv(s)
    ensures var (s', outcome) := Allocation(s, typeId, key, labelText, now);
            && Inv(s')
            && (!outcome.Id? ==> s' == s)
            && (outcome == LabelTooLong <==> |labelText| > MAX_LABEL_LENGTH)
            && (outcome == Full ==>
                  forall id :: 0 <= id <= s.MaxCounterId() ==>
                    s.Allocated(id) || (s.records[id].state.RECLAIMED? && s.records[id].deadline > now))
            && (outcome.Id? ==>
                  && 0 <= outcome.id <= s.MaxCounterId() && !s.Allocated(outcome.id)
                  && (s.records[outcome.id].state.RECLAIMED? ==> now >= s.records[outcome.id].deadline)
                  && (forall id :: s'.Allocated(id) <==> s.Allocated(id) || id == outcome.id)
                  && (forall id :: 0 <= id < |s.records| && id != outcome.id ==> s'.records[id] == s.records[id])
                  && s'.records[outcome.id].typeId == typeId && s'.records[outcome.id].labelText == labelText
                  && s'.records[outcome.id].key == PaddedKey(key)
                  && |s'.values| == |s.values|
                  && (forall id :: 0 <= id < |s.values| && id != outcome.id ==> s'.values[id] == s.values[id])
                  && s'.values[outcome.id]
                     == if s.records[outcome.id].state.RECLAIMED? then Value(0, 0, 0) else s.values[outcome.id])
  {
    hide Next, Distinct, KeyOver, PaddedKey;
    NextIsFree(s, now);
    KeyOverZeros(key);
    PaddedLength(key);
    var s' := Allocation(s, typeId, key, labelText, now).0;
    forall k | 0 <= k < |s'.freeList|
      ensures 0 <= s'.freeList[k] < |s'.records| && s'.records[s'.freeList[k]].state.RECLAIMED?
    {
      assert s'.freeList[k] in s'.freeList;
    }
  }

  lemma PaddedLength(key: seq<int>)
    ensures |PaddedKey(key)| == MAX_KEY_LENGTH
  {
  }

  /** The key, cut to the room there is and padded with zeros. */
  function PaddedKey(key: seq<int>): seq<int> {
    if |key| <= MAX_KEY_LENGTH then key + Zeros(MAX_KEY_LENGTH - |key|) else key[..MAX_KEY_LENGTH]
  }

  lemma KeyOverZeros(key: seq<int>)
    ensures KeyOver(Zeros(MAX_KEY_LENGTH), key) == PaddedKey(key)
  {
  }

  /** An id that is no counter is refused, and nothing changes; any other is freed. */
  lemma FreeRefusedIff(s: State, id: int, now: int, timeout: int)
    requires |s.values| <= |s.records|
    ensures var (s', outcome) := Free(s, id, now, timeout);
            && (outcome == OutOfRange <==> id < 0 || id >= |s.values|) && (outcome == OutOfRange ==> s' == s)
            && (outcome != OutOfRange ==>
                  outcome == Done && s'.records[id].state == RECLAIMED && s'.records[id].typeId == s.records[id].typeId)
  {
  }

  /** Freeing keeps the invariant exactly when the counter was allocated: a second free, or the free of an id never
      handed out, puts an id in the list that must not be there. */
  lemma FreeKeepsIffAllocated(s: State, id: int, now: int, timeout: int)
    requires Inv(s) && 0 <= id <= s.MaxCounterId()
    ensures Inv(Free(s, id, now, timeout).0) <==> s.Allocated(id)
    ensures var s' := Free(s, id, now, timeout).0;
            && !s'.Allocated(id) && s'.records[id].deadline == now + timeout && s'.freeList == s.freeList + [id]
            && s'.values == s.values && s'.highWaterMark == s.highWaterMark
            && forall other :: 0 <= other < |s.records| && other != id ==> s'.records[other] == s.records[other]
  {
    var s' := Free(s, id, now, timeout).0;
    if s.Allocated(id) {
      FreeKeeps(s, id, now, timeout);
    } else if s.records[id].state.RECLAIMED? {
      var k :| 0 <= k < |s.freeList| && s.freeList[k] == id;
      assert s'.freeList[k] == s'.freeList[|s.freeList|] == id;
      assert !Distinct(s'.freeList);
    } else {
      assert s'.records[id].state.RECLAIMED? && id > s'.highWaterMark;
    }
  }

  lemma FreeKeeps(s: State, id: int, now: int, timeout: int)
    requires Inv(s) && s.Allocated(id)
    ensures Inv(Free(s, id, now, timeout).0)
  {
    var s' := Free(s, id, now, timeout).0;
    assert id <= s.MaxCounterId();
    forall other | 0 <= other < |s.records| && s'.records[other].state.RECLAIMED?
      ensures other in s'.freeList
    {
      if other == id {
        assert s'.freeList[|s.freeList|] == id;
      } else {
        var k :| 0 <= k < |s.freeList| && s.freeList[k] == other;
        assert s'.freeList[k] == other;
      }
    }
  }

  datatype Op =
    | AllocateOp(typeId: int, key: seq<int>, labelText: seq<int>, now: int)
    | FreeOp(id: int, now: int)
    | RegisterOp(id: int, registrationId: int)

  function Apply(s: State, op: Op, timeout: int): (State, Outcome) {
    match op
    case AllocateOp(typeId, key, labelText, now) => Allocation(s, typeId, key, labelText, now)
    case FreeOp(id, now) => Free(s, id, now, timeout)
    case RegisterOp(id, registrationId) => SetRegistrationId(s, id, registrationId)
  }

  function Run(s: State, ops: seq<Op>, timeout: int): State {
    if ops == [] then s else Apply(Run(s, ops[..|ops| - 1], timeout), ops[|ops| - 1], timeout).0
  }

  /** Callers free only what is allocated (or an id that is refused). */
  predicate Proper(s: State, op: Op) {
    op.FreeOp? && 0 <= op.id <= s.MaxCounterId() ==> s.Allocated(op.id)
  }

  ghost predicate ProperRun(s: State, ops: seq<Op>, timeout: int) {
    forall i, j :: 0 <= i < |ops| && j == i ==> Proper(Run(s, ops[..i], timeout), ops[j])
  }

  lemma ApplyKeeps(s: State, op: Op, timeout: int)
    requires Inv(s) && Proper(s, op)
    ensures Inv(Apply(s, op, timeout).0)
  {
    match op
    case AllocateOp(typeId, key, labelText, now) => AllocateIsFresh(s, typeId, key, labelText, now);
    case FreeOp(id, now) => if 0 <= id <= s.MaxCounterId() { FreeKeeps(s, id, now, timeout); }
    case RegisterOp(_, _) =>
  }

  lemma ProperPrefix(s: State, ops: seq<Op>, timeout: int)
    requires ops != [] && ProperRun(s, ops, timeout)
    ensures ProperRun(s, ops[..|ops| - 1], timeout) && Proper(Run(s, ops[..|ops| - 1], timeout), ops[|ops| - 1])
  {
    var before := ops[..|ops| - 1];
    forall i, j | 0 <= i < |before| && j == i
      ensures Proper(Run(s, before[..i], timeout), before[j])
    {
      assert before[..i] == ops[..i];
    }
  }

  lemma {:induction false} RunKeeps(s: State, ops: seq<Op>, timeout: int)
    requires Inv(s) && ProperRun(s, ops, timeout)
    ensures Inv(Run(s, ops, timeout))
    decreases |ops|
  {
    if ops != [] {
      hide Inv, Apply;
      ProperPrefix(s, ops, timeout);
      RunKeeps(s, ops[..|ops| - 1], timeout);
      ApplyKeeps(Run(s, ops[..|ops| - 1], timeout), ops[|ops| - 1], timeout);
    }
  }

  /** So in every proper run from an empty table each id up to the high-water mark is allocated or waiting, once. */
  lemma ProperFromStart(records: nat, values: nat, ops: seq<Op>, timeout: int)
    requires values <= records && ProperRun(Start(records, values), ops, timeout)
    ensures Inv(Run(Start(records, values), ops, timeout))
  {
    StartInv(records, values);
    RunKeeps(Start(records, values), ops, timeout);
  }

  /** No step of the run allocates this id. */
  ghost predicate NotReused(s: State, ops: seq<Op>, timeout: int, id: int) {
    forall i, j :: 0 <= i < |ops| && j == i && ops[j].AllocateOp? ==>
      Apply(Run(s, ops[..i], timeout), ops[j], timeout).1 != Id(id)
  }

  lemma NotReusedPrefix(s: State, ops: seq<Op>, timeout: int, id: int)
    requires ops != [] && NotReused(s, ops, timeout, id)
    ensures NotReused(s, ops[..|ops| - 1], timeout, id)
    ensures ops[|ops| - 1].AllocateOp? ==> Apply(Run(s, ops[..|ops| - 1], timeout), ops[|ops| - 1], timeout).1 != Id(id)
  {
    var before := ops[..|ops| - 1];
    forall i, j | 0 <= i < |before| && j == i && before[j].AllocateOp?
      ensures Apply(Run(s, before[..i], timeout), before[j], timeout).1 != Id(id)
    {
      assert before[..i] == ops[..i];
    }
  }

  /** The record of a freed id stays as it is until the id is handed out again. */
  lemma {:induction false} ReclaimedStays(s: State, ops: seq<Op>, timeout: int, id: int)
    requires Inv(s) && ProperRun(s, ops, timeout) && NotReused(s, ops, timeout, id)
    requires 0 <= id <= s.highWaterMark && s.records[id].state.RECLAIMED?
    ensures var s' := Run(s, ops, timeout);
            id < |s'.records| && s'.records[id] == s.records[id] && |s'.values| == |s.values|
    decreases |ops|
  {
    if ops != [] {
      hide Inv, Apply;
      ProperPrefix(s, ops, timeout);
      NotReusedPrefix(s, ops, timeout, id);
      RunKeeps(s, ops[..|ops| - 1], timeout);
      ReclaimedStays(s, ops[..|ops| - 1], timeout, id);
      ReclaimedKept(Run(s, ops[..|ops| - 1], timeout), ops[|ops| - 1], timeout, id);
    }
  }

  lemma ReclaimedKept(s: State, op: Op, timeout: int, id: int)
    requires Inv(s) && Proper(s, op) && 0 <= id < |s.records| && s.records[id].state.RECLAIMED?
    requires op.AllocateOp? ==> Apply(s, op, timeout).1 != Id(id)
    ensures var s' := Apply(s, op, timeout).0;
            id < |s'.records| && s'.records[id] == s.records[id] && |s'.values| == |s.values|
  {
    if op.AllocateOp? {
      AllocateIsFresh(s, op.typeId, op.key, op.labelText, op.now);
    }
  }

  /** In every proper run: an id that was freed at time `freed` is not handed out again before `freed` + timeout. */
  lemma ReuseWaits(s: State, id: int, freed: int, ops: seq<Op>, timeout: int, again: Op)
    requires Inv(s) && s.Allocated(id) && again.AllocateOp?
    requires var s1 := Free(s, id, freed, timeout).0;
             ProperRun(s1, ops, timeout) && NotReused(s1, ops, timeout, id)
    ensures var s2 := Run(Free(s, id, freed, timeout).0, ops, timeout);
            Apply(s2, again, timeout).1 == Id(id) ==> again.now >= freed + timeout
  {
    FreeKeepsIffAllocated(s, id, freed, timeout);
    var s1 := Free(s, id, freed, timeout).0;
    ReclaimedStays(s1, ops, timeout, id);
    RunKeeps(s1, ops, timeout);
    AllocateIsFresh(Run(s1, ops, timeout), again.typeId, again.key, again.labelText, again.now);
  }

  /** What is left of the invariant when ids may be freed twice: allocated ids and those in the free list have been
      handed out before, and the record of an allocated id never falls due. */
  ghost predicate Tidy(s: State) {
    && |s.values| <= |s.records| && -1 <= s.highWaterMark <= s.MaxCounterId()
    && (forall id :: s.Allocated(id) ==> id <= s.highWaterMark && s.records[id].deadline == NOT_FREE_TO_REUSE)
    && forall k :: 0 <= k < |s.freeList| ==> 0 <= s.freeList[k] <= s.highWaterMark
  }

  /** Callers free only ids that have been handed out at some time (or are refused), and clocks stay below 2^63 - 1. */
  predicate Careful(s: State, op: Op) {
    && (op.FreeOp? && 0 <= op.id <= s.MaxCounterId() ==> op.id <= s.highWaterMark)
    && (op.AllocateOp? ==> op.now < NOT_FREE_TO_REUSE)
  }

  ghost predicate CarefulRun(s: State, ops: seq<Op>, timeout: int) {
    forall i :: 0 <= i < |ops| ==> Careful(Run(s, ops[..i], timeout), ops[i])
  }

  /** An allocation hands out an id that is still in use. */
  predicate Shares(s: State, op: Op, timeout: int) {
    op.AllocateOp? && match Apply(s, op, timeout).1 case Id(id) => s.Allocated(id) case _ => false
  }

  lemma CarefulKeeps(s: State, op: Op, timeout: int)
    requires Tidy(s) && Careful(s, op)
    ensures Tidy(Apply(s, op, timeout).0) && !Shares(s, op, timeout)
  {
    if op.AllocateOp? {
      var k := FirstReusable(s, op.now, 0);
      if k < |s.freeList| {
        assert !s.Allocated(s.freeList[k]);
      }
    }
  }

  lemma CarefulPrefix(s: State, ops: seq<Op>, timeout: int)
    requires ops != [] && CarefulRun(s, ops, timeout)
    ensures CarefulRun(s, ops[..|ops| - 1], timeout)
    ensures Careful(Run(s, ops[..|ops| - 1], timeout), ops[|ops| - 1])
  {
    hide Careful, Run;
    var before := ops[..|ops| - 1];
    forall i | 0 <= i < |before|
      ensures Careful(Run(s, before[..i], timeout), before[i])
    {
      assert before[..i] == ops[..i];
    }
  }

  /** No run that is careful ever shares a counter, however often it frees one. */
  lemma {:induction false} CarefulRunKeeps(s: State, ops: seq<Op>, timeout: int)
    requires Tidy(s) && CarefulRun(s, ops, timeout)
    ensures Tidy(Run(s, ops, timeout))
    ensures ops != [] ==> !Shares(Run(s, ops[..|ops| - 1], timeout), ops[|ops| - 1], timeout)
    decreases |ops|
  {
    if ops != [] {
      hide Tidy, Apply, Careful, CarefulRun, Shares;
      var before := ops[..|ops| - 1];
      CarefulPrefix(s, ops, timeout);
      CarefulRunKeeps(s, before, timeout);
      CarefulKeeps(Run(s, before, timeout), ops[|ops| - 1], timeout);
    }
  }

  lemma {:induction false} RunFirst(s: State, op: Op, rest: seq<Op>, timeout: int)
    ensures Run(s, [op] + rest, timeout) == Run(Apply(s, op, timeout).0, rest, timeout)
    decreases |rest|
  {
    var ops := [op] + rest;
    if rest == [] {
      assert ops[..0] == [];
    } else {
      assert ops[..|ops| - 1] == [op] + rest[..|rest| - 1];
      RunFirst(s, op, rest[..|rest| - 1], timeout);
    }
  }

  lemma CarefulFirst(s: State, op: Op, rest: seq<Op>, timeout: int)
    requires Careful(s, op) && CarefulRun(Apply(s, op, timeout).0, rest, timeout)
    ensures CarefulRun(s, [op] + rest, timeout)
  {
    hide Careful, Apply;
    var ops := [op] + rest;
    forall i | 0 <= i < |ops|
      ensures Careful(Run(s, ops[..i], timeout), ops[i])
    {
      if i == 0 {
        assert ops[..0] == [];
      } else {
        assert ops[..i] == [op] + rest[..i - 1];
        RunFirst(s, op, rest[..i - 1], timeout);
      }
    }
  }

  /** An allocation that shares nothing leaves an id freed too early waiting, or allocates it. */
  lemma EarlyFreeWaits(s: State, id: int, op: Op, timeout: int)
    requires |s.values| <= |s.records| && -1 <= s.highWaterMark < id <= s.MaxCounterId()
    requires s.Allocated(id) || (id in s.freeList && op.AllocateOp? && op.now >= s.records[id].deadline)
    requires op.AllocateOp? && |op.labelText| <= MAX_LABEL_LENGTH && !Shares(s, op, timeout)
    ensures var s' := Apply(s, op, timeout).0;
            && |s'.values| == |s.values| && |s'.records| == |s.records| && s.highWaterMark <= s'.highWaterMark < id
            && (s'.Allocated(id) || (id in s'.freeList && op.now >= s'.records[id].deadline))
            && |s'.freeList| - s'.highWaterMark == |s.freeList| - s.highWaterMark - 1
  {
    var k, s' := FirstReusable(s, op.now, 0), Apply(s, op, timeout).0;
    if k < |s.freeList| {
      if !s'.Allocated(id) {
        var l :| 0 <= l < |s.freeList| && s.freeList[l] == id;
        assert l != k;
        assert s'.freeList[if l < k then l else l - 1] == id;
      }
    }
  }

  /** The run of allocations at one time by which the id freed too early comes to be shared. */
  lemma {:induction false} EarlyFreeShares(s: State, id: int, now: int, timeout: int) returns (ops: seq<Op>)
    requires |s.values| <= |s.records| && -1 <= s.highWaterMark < id <= s.MaxCounterId() && now < NOT_FREE_TO_REUSE
    requires s.Allocated(id) || (id in s.freeList && now >= s.records[id].deadline)
    ensures CarefulRun(s, ops, timeout) && ops != []
    ensures Shares(Run(s, ops[..|ops| - 1], timeout), ops[|ops| - 1], timeout)
    decreases |s.freeList| + id - s.highWaterMark
  {
    var op := AllocateOp(0, [], [], now);
    if Shares(s, op, timeout) {
      ops := [op];
    } else {
      var s' := Apply(s, op, timeout).0;
      EarlyFreeWaits(s, id, op, timeout);
      var rest := EarlyFreeShares(s', id, now, timeout);
      ops := [op] + rest;
      RunFirst(s, op, rest[..|rest| - 1], timeout);
      CarefulFirst(s, op, rest, timeout);
      assert ops[..|ops| - 1] == [op] + rest[..|rest| - 1];
    }
  }

  ghost predicate NeverShares(s: State, timeout: int) {
    forall ops: seq<Op> :: ops != [] && CarefulRun(s, ops, timeout) ==>
      !Shares(Run(s, ops[..|ops| - 1], timeout), ops[|ops| - 1], timeout)
  }

  /** A free, of whatever state the counter is in, is harmless exactly when the id has been handed out before: then no
      careful run shares a counter; otherwise there is one that does. */
  lemma FreeIsHarmlessIff(s: State, id: int, now: int, timeout: int)
    requires Tidy(s) && 0 <= id <= s.MaxCounterId() && now + timeout < NOT_FREE_TO_REUSE
    ensures NeverShares(Free(s, id, now, timeout).0, timeout) <==> id <= s.highWaterMark
  {
    var s' := Free(s, id, now, timeout).0;
    if id <= s.highWaterMark {
      assert Tidy(s');
      hide Tidy, CarefulRun, Shares;
      forall ops: seq<Op> | ops != [] && CarefulRun(s', ops, timeout)
        ensures !Shares(Run(s', ops[..|ops| - 1], timeout), ops[|ops| - 1], timeout)
      {
        CarefulRunKeeps(s', ops, timeout);
      }
    } else {
      assert s'.freeList[|s.freeList|] == id;
      hide CarefulRun, Shares;
      var ops := EarlyFreeShares(s', id, now + timeout, timeout);
    }
  }

  /** So from an empty table no careful run ever shares a counter. */
  lemma CarefulFromStart(records: nat, values: nat, timeout: int)
    requires values <= records
    ensures NeverShares(Start(records, values), timeout)
  {
    var s := Start(records, values);
    assert Tidy(s);
    hide Tidy, CarefulRun, Shares;
    forall ops: seq<Op> | ops != [] && CarefulRun(s, ops, timeout)
      ensures !Shares(Run(s, ops[..|ops| - 1], timeout), ops[|ops| - 1], timeout)
    {
      CarefulRunKeeps(s, ops, timeout);
    }
  }

  /** The shortest such run: free the second counter before anything is allocated. */
  lemma EarlyFreeSharesCounter()
    ensures var s1 := Free(Start(2, 2), 1, 0, 0).0;
            var (s2, first) := Allocation(s1, 7, [], [], 0);
            var (s3, second) := Allocation(s2, 8, [], [], 0);
            var (s4, third) := Allocation(s3, 9, [], [], 0);
            first == Id(1) && second == Id(0) && third == Id(1) && s3.Allocated(1)
  {
    var s1 := Free(Start(2, 2), 1, 0, 0).0;
    assert s1.freeList == [1] && s1.records[1].deadline == 0 && |s1.records| == 2 && |s1.values| == 2;
    assert FirstReusable(s1, 0, 0) == 0;
    var s2 := Allocation(s1, 7, [], [], 0).0;
    assert s2.freeList == [] && s2.highWaterMark == -1 && |s2.records| == 2 && |s2.values| == 2 && s2.Allocated(1);
    var s3 := Allocation(s2, 8, [], [], 0).0;
    assert s3.freeList == [] && s3.highWaterMark == 0 && |s3.values| == 2 && s3.Allocated(1);
  }

  /** setCounterRegistrationId changes that one field of that one counter, or nothing. */
  lemma RegistrationIdSet(s: State, id: int, registrationId: int)
    ensures var (s', outcome) := SetRegistrationId(s, id, registrationId);
            if id < 0 || id >= |s.values| then s' == s && outcome == OutOfRange
            else
              && outcome == Done && s'.records == s.records && s'.freeList == s.freeList
              && s'.highWaterMark == s.highWaterMark && |s'.values| == |s.values|
              && s'.values[id].registrationId == registrationId && s'.values[id].value == s.values[id].value
              && s'.values[id].ownerId == s.values[id].ownerId
              && forall other :: 0 <= other < |s.values| && other != id ==> s'.values[other] == s.values[other]
  {
  }

  /** An operation on the counter itself. */
  predicate Concerns(op: Op, id: int) {
    (op.FreeOp? && op.id == id) || (op.RegisterOp? && op.id == id)
  }

  lemma ValueStaysStep(s: State, op: Op, timeout: int, id: int)
    requires Inv(s) && Proper(s, op) && s.Allocated(id) && !Concerns(op, id)
    ensures var s' := Apply(s, op, timeout).0;
            && s'.Allocated(id) && s'.records[id] == s.records[id] && |s'.values| == |s.values| && id < |s.values|
            && s'.values[id] == s.values[id]
  {
    match op
    case AllocateOp(typeId, key, labelText, now) => AllocateIsFresh(s, typeId, key, labelText, now);
    case FreeOp(_, _) =>
    case RegisterOp(other, registrationId) => RegistrationIdSet(s, other, registrationId);
  }

  /** In every proper run: a live counter keeps its record and its values until an operation on its own id. */
  lemma {:induction false} LiveCounterStays(s: State, ops: seq<Op>, timeout: int, id: int)
    requires Inv(s) && ProperRun(s, ops, timeout) && s.Allocated(id)
    requires forall i :: 0 <= i < |ops| ==> !Concerns(ops[i], id)
    ensures var s' := Run(s, ops, timeout);
            && s'.Allocated(id) && s'.records[id] == s.records[id] && |s'.values| == |s.values| && id < |s.values|
            && s'.values[id] == s.values[id]
    decreases |ops|
  {
    if ops != [] {
      hide Inv, Apply;
      ProperPrefix(s, ops, timeout);
      RunKeeps(s, ops[..|ops| - 1], timeout);
      LiveCounterStays(s, ops[..|ops| - 1], timeout, id);
      ValueStaysStep(Run(s, ops[..|ops| - 1], timeout), ops[|ops| - 1], timeout, id);
    } else {
      assert id <= s.highWaterMark;
    }
  }

  /** What forEach reports of a counter. */
  datatype Entry = Entry(id: int, typeId: int, key: seq<int>, labelText: seq<int>)

  /** The scan of forEach: until the first unused record. */
  function Scan(records: seq<Record>, from: nat): seq<Entry>
    requires from <= |records|
    decreases |records| - from
  {
    if from == |records| || records[from].state.UNUSED? then []
    else (if records[from].state.ALLOCATED? then [EntryOf(records, from)] else []) + Scan(records, from + 1)
  }

  function EntryOf(records: seq<Record>, id: nat): Entry
    requires id < |records|
  {
    Entry(id, records[id].typeId, records[id].key, records[id].labelText)
  }

  predicate Reported(records: seq<Record>, e: Entry) {
    && 0 <= e.id < |records| && records[e.id].state.ALLOCATED? && e.typeId == records[e.id].typeId
    && e.key == records[e.id].key && e.labelText == records[e.id].labelText
  }

  /** Entries of allocated counters from an id on, each once, in the order of their ids. */
  ghost predicate InOrder(records: seq<Record>, from: nat, entries: seq<Entry>) {
    && (forall k :: 0 <= k < |entries| ==> from <= entries[k].id && Reported(records, entries[k]))
    && (forall k, l :: 0 <= k < l < |entries| ==> entries[k].id < entries[l].id)
  }

  lemma InOrderFrom(records: seq<Record>, from: nat, more: seq<Entry>)
    requires from < |records| && records[from].state.ALLOCATED? && InOrder(records, from + 1, more)
    ensures InOrder(records, from, [EntryOf(records, from)] + more)
  {
  }

  lemma {:induction false} ScanInOrder(records: seq<Record>, from: nat)
    requires from <= |records|
    ensures InOrder(records, from, Scan(records, from))
    decreases |records| - from
  {
    if from < |records| && !records[from].state.UNUSED? {
      ScanInOrder(records, from + 1);
      if records[from].state.ALLOCATED? {
        InOrderFrom(records, from, Scan(records, from + 1));
      }
    }
  }

  /** Although it stops early, the scan reports exactly the allocated counters, each once, in the order of their ids. */
  lemma {:induction false} ScanIsComplete(s: State, from: nat)
    requires Inv(s) && from <= |s.records|
    ensures var entries := Scan(s.records, from);
            && InOrder(s.records, from, entries)
            && forall id :: from <= id && s.Allocated(id) ==> exists k :: 0 <= k < |entries| && entries[k].id == id
    decreases |s.records| - from
  {
    ScanInOrder(s.records, from);
    if from < |s.records| && !s.records[from].state.UNUSED? {
      ScanIsComplete(s, from + 1);
      var entries, more := Scan(s.records, from), Scan(s.records, from + 1);
      assert entries == (if s.Allocated(from) then [EntryOf(s.records, from)] else []) + more;
      hide Reported, Inv, Scan;
      forall id | from <= id && s.Allocated(id)
        ensures exists k :: 0 <= k < |entries| && entries[k].id == id
      {
        if id == from {
          assert entries[0].id == from;
        } else {
          var k :| 0 <= k < |more| && more[k].id == id;
          assert entries[|entries| - |more| + k] == more[k];
        }
      }
    }
  }

  /** A counter that a search looks for. */
  predicate Matches(s: State, id: int, wanted: (Record, Value) -> bool) {
    s.Allocated(id) && id < |s.values| && wanted(s.records[id], s.values[id])
  }

  /** What the heartbeat search returns: the least match below the last id, or nothing. */
  ghost predicate FoundHeartbeat(s: State, wanted: (Record, Value) -> bool, id: int) {
    && (id != NULL_COUNTER_ID ==> id < s.MaxCounterId() && Matches(s, id, wanted))
    && forall other :: other < s.MaxCounterId() && Matches(s, other, wanted) ==> id != NULL_COUNTER_ID && id <= other
  }

  /** The search finds nothing although there is a match exactly when the last counter is the only one. */
  lemma HeartbeatMissedIff(s: State, wanted: (Record, Value) -> bool, id: int)
    requires FoundHeartbeat(s, wanted, id)
    ensures (id == NULL_COUNTER_ID && exists m :: Matches(s, m, wanted))
            <==> Matches(s, s.MaxCounterId(), wanted)
                 && forall other :: other < s.MaxCounterId() ==> !Matches(s, other, wanted)
  {
    if id == NULL_COUNTER_ID && exists m :: Matches(s, m, wanted) {
      var m :| Matches(s, m, wanted);
      assert m == s.MaxCounterId();
    } else if id != NULL_COUNTER_ID {
      assert Matches(s, id, wanted);
    }
  }

  /** Nothing but allocations. */
  predicate Allocations(ops: seq<Op>) {
    forall i :: 0 <= i < |ops| ==> ops[i].AllocateOp? && |ops[i].labelText| <= MAX_LABEL_LENGTH
  }

  /** Allocations from the start fill the counters one after the other. */
  lemma {:induction false} AllocatedInTurn(records: nat, values: nat, ops: seq<Op>, timeout: int)
    requires |ops| <= values <= records && Allocations(ops)
    ensures var s := Run(Start(records, values), ops, timeout);
            && |s.records| == records && |s.values| == values && s.highWaterMark == |ops| - 1 && s.freeList == []
            && (forall i :: |ops| <= i < records ==> s.records[i] == UnusedRecord)
            && forall i :: 0 <= i < |ops| ==>
                 s.Allocated(i) && s.records[i].typeId == ops[i].typeId && s.records[i].key == PaddedKey(ops[i].key)
    decreases |ops|
  {
    if ops != [] {
      hide PaddedKey, KeyOver;
      AllocatedInTurn(records, values, ops[..|ops| - 1], timeout);
      KeyOverZeros(ops[|ops| - 1].key);
    }
  }

  /** With every counter allocated and the key looked for in the last one only, the search returns nothing. */
  lemma LastHeartbeatIsMissed(records: nat, ops: seq<Op>, timeout: int, registrationOf: seq<int> -> int, id: int)
    requires 0 < |ops| <= records && Allocations(ops)
    requires forall i :: 0 <= i < |ops| - 1 ==>
               registrationOf(PaddedKey(ops[i].key)) != registrationOf(PaddedKey(ops[|ops| - 1].key))
    ensures var s, last := Run(Start(records, |ops|), ops, timeout), ops[|ops| - 1];
            var wanted := Heartbeat(last.typeId, registrationOf(PaddedKey(last.key)), registrationOf);
            && s.Allocated(|ops| - 1) && Matches(s, |ops| - 1, wanted)
            && (FoundHeartbeat(s, wanted, id) ==> id == NULL_COUNTER_ID)
  {
    hide Run, PaddedKey;
    AllocatedInTurn(records, |ops|, ops, timeout);
  }

  class CountersManager {
    const records: array<Record>
    const values: array<Value>
    const timeout: int
    var freeList: seq<int>
    var highWaterMark: int

    ghost function View(): State
      reads this, records, values
    {
      State(records[..], values[..], freeList, highWaterMark)
    }

    /** Ids that reach the buffers are ids of records. */
    ghost predicate Shape()
      reads this, records, values
    {
      values.Length <= records.Length && forall k :: 0 <= k < |freeList| ==> 0 <= freeList[k] < values.Length
    }

    constructor (recordCount: nat, counterCount: nat, timeout: int)
      requires counterCount <= recordCount
      ensures Shape() && View() == Start(recordCount, counterCount) && fresh(records) && fresh(values)
              && this.timeout == timeout
    {
      records := new Record[recordCount](_ => UnusedRecord);
      values := new Value[counterCount](_ => Value(0, 0, 0));
      this.timeout, freeList, highWaterMark := timeout, [], -1;
    }

    method NextCounterId(now: int) returns (outcome: Outcome)
      requires Shape()
      modifies this, values
      ensures Shape() && (View(), outcome) == Next(old(View()), now)
      ensures outcome.Id? ==> 0 <= outcome.id < values.Length || outcome.id == highWaterMark
      ensures outcome.Id? && old(highWaterMark) >= -1 ==> 0 <= outcome.id < values.Length
    {
      ghost var s := View();
      if freeList != [] {
        var k := 0;
        while k < |freeList| && !(now >= records[freeList[k]].deadline)
          invariant 0 <= k <= |freeList| && FirstReusable(s, now, k) == FirstReusable(s, now, 0)
        {
          k := k + 1;
        }
        if k < |freeList| {
          var id := freeList[k];
          freeList := freeList[..k] + freeList[k + 1..];
          values[id] := Value(0, 0, 0);
          return Id(id);
        }
      }
      if highWaterMark + 1 > values.Length - 1 {
        return Full;
      }
      highWaterMark := highWaterMark + 1;
      return Id(highWaterMark);
    }

    method Allocate(typeId: int, key: seq<int>, labelText: seq<int>, now: int) returns (outcome: Outcome)
      requires Shape() && highWaterMark >= -1
      modifies this, values, records
      ensures Shape() && highWaterMark >= -1
      ensures (View(), outcome) == Allocation(old(View()), typeId, key, labelText, now)
    {
      if |labelText| > MAX_LABEL_LENGTH {
        return LabelTooLong;
      }
      outcome := NextCounterId(now);
      if outcome.Id? {
        records[outcome.id] :=
          Record(ALLOCATED, typeId, NOT_FREE_TO_REUSE, KeyOver(records[outcome.id].key, key), labelText);
      }
    }

    /** free, named Release here. */
    method Release(id: int, now: int) returns (outcome: Outcome)
      requires Shape()
      modifies this`freeList, records
      ensures Shape() && (View(), outcome) == Free(old(View()), id, now, timeout)
    {
      if id < 0 || id > values.Length - 1 {
        return OutOfRange;
      }
      records[id] := records[id].(state := RECLAIMED, deadline := now + timeout, key := Zeros(MAX_KEY_LENGTH));
      freeList := freeList + [id];
      return Done;
    }

    method ForEach() returns (entries: seq<Entry>)
      ensures entries == Scan(records[..], 0)
    {
      entries := [];
      var id := 0;
      while id < records.Length
        invariant 0 <= id <= records.Length && Scan(records[..], 0) == entries + Scan(records[..], id)
      {
        if records[id].state.ALLOCATED? {
          entries := entries + [Entry(id, records[id].typeId, records[id].key, records[id].labelText)];
        } else if records[id].state.UNUSED? {
          break;
        }
        id := id + 1;
      }
    }

    /** findByRegistrationId and findByTypeIdAndRegistrationId (any type if `typeId` is None): the first allocated
        counter that matches, in spite of the early stop. */
    method Find(typeId: TypeFilter, registrationId: int) returns (id: int)
      requires Inv(View())
      ensures id != NULL_COUNTER_ID ==>
                && 0 <= id < values.Length <= records.Length && records[id].state.ALLOCATED?
                && (typeId.AnyType? || records[id].typeId == typeId.typeId)
                && values[id].registrationId == registrationId
      ensures forall other ::
                && 0 <= other < values.Length <= records.Length && records[other].state.ALLOCATED?
                && (typeId.AnyType? || records[other].typeId == typeId.typeId)
                && values[other].registrationId == registrationId ==>
                id != NULL_COUNTER_ID && id <= other
    {
      id := 0;
      while id < records.Length
        invariant 0 <= id <= records.Length
        invariant forall other ::
                    && 0 <= other < id && other < values.Length && records[other].state.ALLOCATED?
                    && (typeId.AnyType? || records[other].typeId == typeId.typeId) ==>
                    values[other].registrationId != registrationId
      {
        if records[id].state.ALLOCATED? {
          assert id <= View().MaxCounterId();
          if (typeId.AnyType? || records[id].typeId == typeId.typeId) && values[id].registrationId == registrationId {
            return id;
          }
        } else if records[id].state.UNUSED? {
          assert forall other :: other >= id ==> !View().Allocated(other);
          return NULL_COUNTER_ID;
        }
        id := id + 1;
      }
      id := NULL_COUNTER_ID;
    }

    /** The heartbeat search: it looks at every id but the last. `registrationOf` reads the id at the front of a key. */
    method FindHeartbeat(typeId: int, registrationId: int, registrationOf: seq<int> -> int) returns (id: int)
      requires Shape()
      ensures FoundHeartbeat(View(), Heartbeat(typeId, registrationId, registrationOf), id)
      ensures id != NULL_COUNTER_ID ==>
                && 0 <= id < values.Length - 1 && id < records.Length && records[id].state.ALLOCATED?
                && records[id].typeId == typeId && registrationOf(records[id].key) == registrationId
      ensures forall other ::
                && 0 <= other < values.Length - 1 && other < records.Length
                && records[other].state.ALLOCATED? && records[other].typeId == typeId
                && registrationOf(records[other].key) == registrationId ==>
                id != NULL_COUNTER_ID && id <= other
    {
      for i := 0 to if values.Length == 0 then 0 else values.Length - 1
        invariant forall other :: 0 <= other < i && records[other].state.ALLOCATED? ==>
                    records[other].typeId != typeId || registrationOf(records[other].key) != registrationId
      {
        if records[i].state.ALLOCATED? {
          if registrationId == registrationOf(records[i].key) && records[i].typeId == typeId {
            return i;
          }
        }
      }
      return NULL_COUNTER_ID;
    }
  }

  datatype TypeFilter = AnyType | Only(typeId: int)


  function Heartbeat(typeId: int, registrationId: int, registrationOf: seq<int> -> int): (Record, Value) -> bool {
    (record: Record, value: Value) => registrationOf(record.key) == registrationId && record.typeId == typeId
  }
}
