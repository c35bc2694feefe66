/**
 Lock-free latency statistics (performance_stats.c): record_latency as a state machine over its atomic steps, for any
 number of calls in any interleaving.
 */
module Stats {

  const UINT64_MAX := 0xFFFF_FFFF_FFFF_FFFF
  const TWO_64 := 0x1_0000_0000_0000_0000
  const DETAILED_RECORD_COUNT := 1000
  const BUCKETS := 10

  /** Upper limits of the buckets in microseconds (create_performance_stats). */
  const LIMITS: seq<nat> := [1, 5, 10, 50, 100, 500, 1000, 5000, 10000, UINT64_MAX]

  /** Where a call stands. */
  datatype Pc =
    | Begin
    | Counted
    | Totalled
    | AtMin(seen: nat)
    | MinDone
    | AtMax(seen: nat)
    | MaxDone
    | Bucketed
    | AtRecord(seen: nat)
    | Claimed(slot: nat)
    | Returned

  function Stage(pc: Pc): nat {
    match pc
    case Begin => 0
    case Counted => 1
    case Totalled => 2
    case AtMin(_) => 3
    case MinDone => 4
    case AtMax(_) => 5
    case MaxDone => 6
    case Bucketed => 7
    case AtRecord(_) => 8
    case Claimed(_) => 9
    case Returned => 10
  }

  /** A call of record_latency; `missed` is set when it leaves without a detail slot. */
  datatype Call = Call(latency: nat, pc: Pc, missed: bool)

  /** The shared counters; `owners` says which call took each detail slot. */
  datatype Shared = Shared(count: nat, total: nat, min: nat, max: nat, buckets: seq<nat>, recorded: nat,
                           latencies: seq<nat>, owners: seq<nat>, calls: seq<Call>)

  function Start(latencies: seq<nat>): Shared {
    Shared(0, 0, UINT64_MAX, 0, seq(BUCKETS, _ => 0), 0, seq(DETAILED_RECORD_COUNT, _ => 0), [],
           seq(|latencies|, i requires 0 <= i < |latencies| => Call(latencies[i], Begin, false)))
  }

  /** The bucket loop: the first limit that exceeds the latency. */
  method FindBucket(latency: nat) returns (i: nat)
    requires latency <= UINT64_MAX
    ensures i < BUCKETS && latency / 1000 < LIMITS[i] && forall k :: 0 <= k < i ==> latency / 1000 >= LIMITS[k]
    ensures i == BucketOf(latency)
  {
    i := 0;
    while i < BUCKETS && !(latency / 1000 < LIMITS[i])
      invariant 0 <= i <= BUCKETS && forall k :: 0 <= k < i ==> latency / 1000 >= LIMITS[k]
      invariant FirstAbove(latency / 1000, i) == FirstAbove(latency / 1000, 0)
    {
      i := i + 1;
    }
    BucketExists(latency);
  }

  function FirstAbove(micros: nat, from: nat): (i: nat)
    requires from <= BUCKETS
    ensures from <= i <= BUCKETS
    decreases BUCKETS - from
  {
    if from == BUCKETS || micros < LIMITS[from] then from else FirstAbove(micros, from + 1)
  }

  function BucketOf(latency: nat): nat { FirstAbove(latency / 1000, 0) }

  lemma BucketExists(latency: nat)
    requires latency <= UINT64_MAX
    ensures BucketOf(latency) < BUCKETS
  {
    FirstAboveStops(latency / 1000, 0);
  }

  lemma {:induction false} FirstAboveStops(micros: nat, from: nat)
    requires from < BUCKETS && micros < LIMITS[9]
    ensures FirstAbove(micros, from) < BUCKETS
    decreases BUCKETS - from
  {
    if !(micros < LIMITS[from]) {
      FirstAboveStops(micros, from + 1);
    }
  }

  predicate Shaped(s: Shared) {
    |s.buckets| == BUCKETS && |s.latencies| == DETAILED_RECORD_COUNT
    && forall i :: 0 <= i < |s.calls| ==> s.calls[i].latency <= UINT64_MAX
  }

  /** The next atomic step of call `i`. */
  function After(s: Shared, i: nat): (s': Shared)
    requires Shaped(s) && i < |s.calls|
  {
    var c := s.calls[i];
    match c.pc
    case Begin => s.(count := (s.count + 1) % TWO_64, calls := s.calls[i := c.(pc := Counted)])
    case Counted => s.(total := (s.total + c.latency) % TWO_64, calls := s.calls[i := c.(pc := Totalled)])
    case Totalled => s.(calls := s.calls[i := c.(pc := AtMin(s.min))])
    case AtMin(seen) =>
      if c.latency < seen then
        if s.min == seen then s.(min := c.latency, calls := s.calls[i := c.(pc := MinDone)])
        else s.(calls := s.calls[i := c.(pc := AtMin(s.min))])
      else s.(calls := s.calls[i := c.(pc := MinDone)])
    case MinDone => s.(calls := s.calls[i := c.(pc := AtMax(s.max))])
    case AtMax(seen) =>
      if c.latency > seen then
        if s.max == seen then s.(max := c.latency, calls := s.calls[i := c.(pc := MaxDone)])
        else s.(calls := s.calls[i := c.(pc := AtMax(s.max))])
      else s.(calls := s.calls[i := c.(pc := MaxDone)])
    case MaxDone =>
      BucketExists(c.latency);
      var b := BucketOf(c.latency);
      s.(buckets := s.buckets[b := s.buckets[b] + 1], calls := s.calls[i := c.(pc := Bucketed)])
    case Bucketed => s.(calls := s.calls[i := c.(pc := AtRecord(s.recorded))])
    case AtRecord(seen) =>
      if seen < DETAILED_RECORD_COUNT && s.recorded == seen then
        s.(recorded := seen + 1, owners := s.owners + [i], calls := s.calls[i := c.(pc := Claimed(seen))])
      else s.(calls := s.calls[i := c.(pc := Returned, missed := true)])
    case Claimed(slot) =>
      s.(latencies := if slot < DETAILED_RECORD_COUNT then s.latencies[slot := c.latency] else s.latencies,
         calls := s.calls[i := c.(pc := Returned)])
    case Returned => s
  }

  /** The sum of a measure over the calls. */
  function Tally(calls: seq<Call>, measure: Call -> nat): nat {
    if calls == [] then 0 else measure(calls[0]) + Tally(calls[1..], measure)
  }

  lemma {:induction false} TallyUpdate(calls: seq<Call>, i: nat, c: Call, measure: Call -> nat)
    requires i < |calls|
    ensures Tally(calls[i := c], measure) + measure(calls[i]) == Tally(calls, measure) + measure(c)
    decreases |calls|
  {
    if i == 0 {
      assert calls[i := c][1..] == calls[1..];
    } else {
      assert calls[i := c][1..] == calls[1..][i - 1 := c];
      TallyUpdate(calls[1..], i - 1, c, measure);
    }
  }

  function IsPast(stage: nat): Call -> nat { (c: Call) => if Stage(c.pc) >= stage then 1 else 0 }

  function LatencyPast(stage: nat): Call -> nat { (c: Call) => if Stage(c.pc) >= stage then c.latency else 0 }

  function InBucket(b: nat): Call -> nat { (c: Call) => if Stage(c.pc) >= 7 && BucketOf(c.latency) == b then 1 else 0 }

  function Missed(): Call -> nat { (c: Call) => if c.missed then 1 else 0 }

  function HasSlot(): Call -> nat { (c: Call) => if Stage(c.pc) >= 9 && !c.missed then 1 else 0 }

  /** The counters are the tallies of the calls that have passed them. */
  ghost predicate Counts(s: Shared) {
    && Shaped(s)
    && s.count == Tally(s.calls, IsPast(1)) % TWO_64
    && s.total == Tally(s.calls, LatencyPast(2)) % TWO_64
    && (forall b :: 0 <= b < BUCKETS ==> s.buckets[b] == Tally(s.calls, InBucket(b)))
    && s.recorded == Tally(s.calls, HasSlot())
  }

  /** min and max bound the calls that are done with them, and are the latency of one of those, or the initial value. */
  ghost predicate Extremes(s: Shared) {
    && (forall i :: 0 <= i < |s.calls| ==> Bounded(s, s.calls[i]))
    && (s.min == UINT64_MAX
        || exists i :: 0 <= i < |s.calls| && Stage(s.calls[i].pc) >= 4 && s.calls[i].latency == s.min)
    && (s.max == 0 || exists i :: 0 <= i < |s.calls| && Stage(s.calls[i].pc) >= 6 && s.calls[i].latency == s.max)
  }

  predicate Bounded(s: Shared, c: Call) {
    && (Stage(c.pc) >= 4 ==> s.min <= c.latency) && (c.pc.AtMin? ==> s.min <= c.pc.seen)
    && (Stage(c.pc) >= 6 ==> s.max >= c.latency) && (c.pc.AtMax? ==> s.max >= c.pc.seen)
  }

  /** Every filled slot belongs to a call of its own, which has written it or is about to. */
  ghost predicate Slots(s: Shared) {
    && Shaped(s) && |s.owners| == s.recorded <= DETAILED_RECORD_COUNT
    && (forall k :: 0 <= k < |s.owners| ==> OwnsSlot(s, k))
    && (forall i :: 0 <= i < |s.calls| ==> SlotKnown(s, i))
  }

  predicate OwnsSlot(s: Shared, k: nat)
    requires k < |s.owners| && Shaped(s)
  {
    s.owners[k] < |s.calls| &&
    var c := s.calls[s.owners[k]];
    !c.missed && (c.pc == Claimed(k) || (c.pc == Returned && k < DETAILED_RECORD_COUNT && s.latencies[k] == c.latency))
  }

  /** A call owns its slot, and no other; before that it owns none. */
  predicate SlotKnown(s: Shared, i: nat)
    requires i < |s.calls|
  {
    var c := s.calls[i];
    && (c.pc.Claimed? ==> !c.missed && c.pc.slot < |s.owners| && s.owners[c.pc.slot] == i)
    && (Stage(c.pc) < 9 ==> !c.missed && i !in s.owners)
    && (c.missed ==> i !in s.owners)
    && (forall k, l :: 0 <= k < l < |s.owners| && s.owners[k] == i ==> s.owners[l] != i)
    && (c.pc.AtRecord? ==> c.pc.seen <= s.recorded)
  }

  lemma BucketStep(s: Shared, i: nat, b: nat)
    requires Shaped(s) && i < |s.calls| && b < BUCKETS
    ensures var s' := After(s, i);
            s'.buckets[b] + InBucket(b)(s.calls[i]) == s.buckets[b] + InBucket(b)(s'.calls[i])
  {
    hide BucketOf;
    BucketExists(s.calls[i].latency);
  }

  lemma CountStep(s: Shared, i: nat)
    requires Shaped(s) && i < |s.calls|
    ensures var s' := After(s, i);
            s'.count == (if IsPast(1)(s'.calls[i]) > IsPast(1)(s.calls[i]) then (s.count + 1) % TWO_64 else s.count)
            && IsPast(1)(s.calls[i]) <= IsPast(1)(s'.calls[i]) <= 1
  {
    hide BucketOf;
  }

  lemma TotalStep(s: Shared, i: nat)
    requires Shaped(s) && i < |s.calls|
    ensures var s' := After(s, i);
            && LatencyPast(2)(s.calls[i]) <= LatencyPast(2)(s'.calls[i])
            && s'.total == (if s.calls[i].pc.Counted? then
                              (s.total + (LatencyPast(2)(s'.calls[i]) - LatencyPast(2)(s.calls[i]))) % TWO_64
                            else s.total)
            && (!s.calls[i].pc.Counted? ==> LatencyPast(2)(s'.calls[i]) == LatencyPast(2)(s.calls[i]))
  {
    hide BucketOf;
  }

  lemma RecordedStep(s: Shared, i: nat)
    requires Shaped(s) && i < |s.calls| && (Stage(s.calls[i].pc) < 9 ==> !s.calls[i].missed)
    ensures var s' := After(s, i);
            s'.recorded + HasSlot()(s.calls[i]) == s.recorded + HasSlot()(s'.calls[i])
  {
    hide BucketOf;
  }

  lemma CallsStep(s: Shared, i: nat)
    requires Shaped(s) && i < |s.calls|
    ensures After(s, i).calls == s.calls[i := After(s, i).calls[i]] && Shaped(After(s, i))
    ensures After(s, i).calls[i].latency == s.calls[i].latency
  {
    hide BucketOf;
    BucketExists(s.calls[i].latency);
  }

  lemma ModAdd(a: nat, x: nat)
    ensures (a % TWO_64 + x) % TWO_64 == (a + x) % TWO_64
  {
  }

  lemma StepCounts(s: Shared, i: nat)
    requires Counts(s) && i < |s.calls| && (Stage(s.calls[i].pc) < 9 ==> !s.calls[i].missed)
    ensures Counts(After(s, i))
  {
    hide After, Tally, IsPast, LatencyPast, HasSlot, InBucket, BucketOf, Stage;
    var s' := After(s, i);
    CallsStep(s, i);
    forall b | 0 <= b < BUCKETS
      ensures s'.buckets[b] == Tally(s'.calls, InBucket(b))
    {
      BucketStep(s, i, b);
      TallyUpdate(s.calls, i, s'.calls[i], InBucket(b));
    }
    CountStep(s, i);
    TallyUpdate(s.calls, i, s'.calls[i], IsPast(1));
    ModAdd(Tally(s.calls, IsPast(1)), 1);
    TotalStep(s, i);
    TallyUpdate(s.calls, i, s'.calls[i], LatencyPast(2));
    ModAdd(Tally(s.calls, LatencyPast(2)), LatencyPast(2)(s'.calls[i]) - LatencyPast(2)(s.calls[i]));
    RecordedStep(s, i);
    TallyUpdate(s.calls, i, s'.calls[i], HasSlot());
  }

  lemma BoundsKept(s: Shared, i: nat)
    requires Shaped(s) && Extremes(s) && i < |s.calls|
    ensures forall j :: 0 <= j < |s.calls| ==> Bounded(After(s, i), After(s, i).calls[j])
  {
    hide BucketOf;
    forall j | 0 <= j < |s.calls|
      ensures Bounded(After(s, i), After(s, i).calls[j])
    {
      assert Bounded(s, s.calls[j]) && Bounded(s, s.calls[i]);
    }
  }

  lemma MinAttained(s: Shared, i: nat)
    requires Shaped(s) && Extremes(s) && i < |s.calls|
    ensures var s' := After(s, i);
            || s'.min == UINT64_MAX
            || exists k :: 0 <= k < |s'.calls| && Stage(s'.calls[k].pc) >= 4 && s'.calls[k].latency == s'.min
  {
    hide BucketOf, Bounded;
    var s' := After(s, i);
    if s'.min != s.min {
      assert Stage(s'.calls[i].pc) >= 4 && s'.calls[i].latency == s'.min;
    } else if s.min != UINT64_MAX {
      var k :| 0 <= k < |s.calls| && Stage(s.calls[k].pc) >= 4 && s.calls[k].latency == s.min;
      assert Stage(s'.calls[k].pc) >= 4 && s'.calls[k].latency == s.min;
    }
  }

  lemma MaxAttained(s: Shared, i: nat)
    requires Shaped(s) && Extremes(s) && i < |s.calls|
    ensures var s' := After(s, i);
            || s'.max == 0
            || exists k :: 0 <= k < |s'.calls| && Stage(s'.calls[k].pc) >= 6 && s'.calls[k].latency == s'.max
  {
    hide BucketOf, Bounded;
    var s' := After(s, i);
    if s'.max != s.max {
      assert Stage(s'.calls[i].pc) >= 6 && s'.calls[i].latency == s'.max;
    } else if s.max != 0 {
      var k :| 0 <= k < |s.calls| && Stage(s.calls[k].pc) >= 6 && s.calls[k].latency == s.max;
      assert Stage(s'.calls[k].pc) >= 6 && s'.calls[k].latency == s.max;
    }
  }

  lemma StepExtremes(s: Shared, i: nat)
    requires Shaped(s) && Extremes(s) && i < |s.calls|
    ensures Extremes(After(s, i))
  {
    hide After, Bounded;
    CallsStep(s, i);
    BoundsKept(s, i);
    MinAttained(s, i);
    MaxAttained(s, i);
  }

  lemma OwnersKept(s: Shared, i: nat, k: nat)
    requires Slots(s) && i < |s.calls| && Shaped(After(s, i)) && k < |After(s, i).owners|
    ensures OwnsSlot(After(s, i), k)
  {
    hide BucketOf;
    assert SlotKnown(s, i);
    if k < |s.owners| {
      assert OwnsSlot(s, k);
      assert SlotKnown(s, s.owners[k]);
    }
  }

  lemma KnownKept(s: Shared, i: nat, j: nat)
    requires Slots(s) && i < |s.calls| && j < |s.calls|
    ensures j < |After(s, i).calls| && SlotKnown(After(s, i), j)
  {
    hide BucketOf, OwnsSlot;
    assert SlotKnown(s, i) && SlotKnown(s, j);
  }

  lemma StepSlots(s: Shared, i: nat)
    requires Slots(s) && i < |s.calls|
    ensures Slots(After(s, i))
  {
    CallsStep(s, i);
    forall k | 0 <= k < |After(s, i).owners|
      ensures OwnsSlot(After(s, i), k)
    {
      OwnersKept(s, i, k);
    }
    forall j | 0 <= j < |s.calls|
      ensures SlotKnown(After(s, i), j)
    {
      KnownKept(s, i, j);
    }
    hide OwnsSlot, SlotKnown, BucketOf;
  }

  ghost predicate Inv(s: Shared) { Counts(s) && Extremes(s) && Slots(s) }

  /** Steps of any calls in any order. */
  function Run(latencies: seq<nat>, schedule: seq<nat>): (s: Shared)
    requires forall i :: 0 <= i < |latencies| ==> latencies[i] <= UINT64_MAX
    ensures Shaped(s) && |s.calls| == |latencies| && forall i :: 0 <= i < |latencies| ==>
            s.calls[i].latency == latencies[i]
  {
    if schedule == [] then Start(latencies)
    else
      var before, i := Run(latencies, schedule[..|schedule| - 1]), schedule[|schedule| - 1];
      if i < |latencies| then
        hide After;
        CallsStep(before, i);
        After(before, i)
      else before
  }

  lemma {:induction false} NothingTallied(calls: seq<Call>, measure: Call -> nat)
    requires forall i :: 0 <= i < |calls| ==> measure(calls[i]) == 0
    ensures Tally(calls, measure) == 0
  {
    if calls != [] {
      NothingTallied(calls[1..], measure);
    }
  }

  lemma StartInv(latencies: seq<nat>)
    requires forall i :: 0 <= i < |latencies| ==> latencies[i] <= UINT64_MAX
    ensures Inv(Start(latencies))
  {
    var s := Start(latencies);
    NothingTallied(s.calls, IsPast(1));
    NothingTallied(s.calls, LatencyPast(2));
    NothingTallied(s.calls, HasSlot());
    forall b | 0 <= b < BUCKETS
      ensures Tally(s.calls, InBucket(b)) == 0
    {
      NothingTallied(s.calls, InBucket(b));
    }
  }

  lemma {:induction false} RunKeeps(latencies: seq<nat>, schedule: seq<nat>)
    requires forall i :: 0 <= i < |latencies| ==> latencies[i] <= UINT64_MAX
    ensures Inv(Run(latencies, schedule))
    decreases |schedule|
  {
    if schedule == [] {
      StartInv(latencies);
    } else {
      hide Inv, After, Start;
      var before, i := Run(latencies, schedule[..|schedule| - 1]), schedule[|schedule| - 1];
      RunKeeps(latencies, schedule[..|schedule| - 1]);
      if i < |latencies| {
        StepKeeps(before, i);
      }
    }
  }

  lemma StepKeeps(s: Shared, i: nat)
    requires Inv(s) && i < |s.calls|
    ensures Inv(After(s, i))
  {
    assert SlotKnown(s, i);
    StepCounts(s, i);
    StepExtremes(s, i);
    StepSlots(s, i);
    hide After, Counts, Extremes, Slots;
  }

  function Sum(latencies: seq<nat>): nat {
    if latencies == [] then 0 else latencies[0] + Sum(latencies[1..])
  }

  function Number(latencies: seq<nat>, b: nat): nat {
    if latencies == [] then 0 else (if BucketOf(latencies[0]) == b then 1 else 0) + Number(latencies[1..], b)
  }

  lemma {:induction false} AllTallied(calls: seq<Call>, latencies: seq<nat>)
    requires |calls| == |latencies| && forall i :: 0 <= i < |calls| ==>
             calls[i].latency == latencies[i] && calls[i].pc == Returned
    ensures Tally(calls, IsPast(1)) == |latencies| && Tally(calls, LatencyPast(2)) == Sum(latencies)
    ensures forall b :: 0 <= b < BUCKETS ==> Tally(calls, InBucket(b)) == Number(latencies, b)
    ensures Tally(calls, HasSlot()) + Tally(calls, Missed()) == |latencies|
    decreases |calls|
  {
    if calls != [] {
      AllTallied(calls[1..], latencies[1..]);
    }
  }

  /** Once all calls have returned, whatever the interleaving: the count and the sum (modulo 2^64), the true extremes,
      each latency in the first bucket whose limit exceeds it; every filled detail slot holds the latency of a call of
      its own, and each call has a slot or missed one. */
  lemma FinalStatistics(latencies: seq<nat>, schedule: seq<nat>)
    requires forall i :: 0 <= i < |latencies| ==> latencies[i] <= UINT64_MAX
    requires forall i :: 0 <= i < |latencies| ==> Run(latencies, schedule).calls[i].pc == Returned
    ensures var s := Run(latencies, schedule);
            && s.count == |latencies| % TWO_64 && s.total == Sum(latencies) % TWO_64
            && (forall i :: 0 <= i < |latencies| ==> s.min <= latencies[i] <= s.max)
            && (latencies != [] ==> s.min in latencies && s.max in latencies)
            && (forall b :: 0 <= b < BUCKETS ==> s.buckets[b] == Number(latencies, b))
            && s.recorded <= DETAILED_RECORD_COUNT && |s.owners| == s.recorded
            && (forall k :: 0 <= k < s.recorded ==>
                s.owners[k] < |latencies| && s.latencies[k] == latencies[s.owners[k]])
            && (forall k, l :: 0 <= k < l < s.recorded ==> s.owners[k] != s.owners[l])
            && s.recorded + Tally(s.calls, Missed()) == |latencies|
  {
    RunKeeps(latencies, schedule);
    var s := Run(latencies, schedule);
    AllTallied(s.calls, latencies);
    FinalExtremes(s, latencies);
    FinalSlots(s, latencies);
    hide Inv, Run, Tally, Counts;
    FinalCounts(s);
  }

  lemma FinalCounts(s: Shared)
    requires Inv(s)
    ensures s.count == Tally(s.calls, IsPast(1)) % TWO_64 && s.total == Tally(s.calls, LatencyPast(2)) % TWO_64
    ensures forall b :: 0 <= b < BUCKETS ==> s.buckets[b] == Tally(s.calls, InBucket(b))
    ensures s.recorded == Tally(s.calls, HasSlot())
  {
  }

  lemma FinalExtremes(s: Shared, latencies: seq<nat>)
    requires Inv(s) && |s.calls| == |latencies|
    requires forall i :: 0 <= i < |latencies| ==> s.calls[i].pc == Returned && s.calls[i].latency == latencies[i]
    ensures forall i :: 0 <= i < |latencies| ==> s.min <= latencies[i] <= s.max
    ensures latencies != [] ==> s.min in latencies && s.max in latencies
  {
    forall i | 0 <= i < |latencies|
      ensures s.min <= latencies[i] <= s.max
    {
      assert Bounded(s, s.calls[i]);
    }
    if latencies != [] {
      assert latencies[0] <= UINT64_MAX && latencies[0] in latencies;
    }
  }

  lemma FinalSlots(s: Shared, latencies: seq<nat>)
    requires Inv(s) && |s.calls| == |latencies|
    requires forall i :: 0 <= i < |latencies| ==> s.calls[i].pc == Returned && s.calls[i].latency == latencies[i]
    ensures s.recorded <= DETAILED_RECORD_COUNT && |s.owners| == s.recorded
    ensures forall k :: 0 <= k < s.recorded ==> s.owners[k] < |latencies| && s.latencies[k] == latencies[s.owners[k]]
    ensures forall k, l :: 0 <= k < l < s.recorded ==> s.owners[k] != s.owners[l]
  {
    forall k | 0 <= k < s.recorded
      ensures s.owners[k] < |latencies| && s.latencies[k] == latencies[s.owners[k]]
      ensures forall l :: k < l < s.recorded ==> s.owners[k] != s.owners[l]
    {
      assert OwnsSlot(s, k);
      assert SlotKnown(s, s.owners[k]);
    }
  }

  /** The bucket counts add up to the number of calls. */
  lemma {:induction false} BucketsAddUp(latencies: seq<nat>)
    requires forall i :: 0 <= i < |latencies| ==> latencies[i] <= UINT64_MAX
    ensures Number(latencies, 0) + Number(latencies, 1) + Number(latencies, 2) + Number(latencies, 3)
            + Number(latencies, 4)
          + Number(latencies, 5) + Number(latencies, 6) + Number(latencies, 7) + Number(latencies, 8)
            + Number(latencies, 9)
            == |latencies|
    decreases |latencies|
  {
    if latencies != [] {
      hide BucketOf;
      BucketExists(latencies[0]);
      BucketsAddUp(latencies[1..]);
    }
  }

  /** A compare-and-swap fails only because another call has brought in a strictly better value, which the loop goes on
      with: each loop ends after at most as many turns as there are better values. */
  lemma FailedSwapSeesBetter(s: Shared, i: nat)
    requires Inv(s) && i < |s.calls|
    ensures var before, after := s.calls[i].pc, After(s, i).calls[i].pc;
            && (before.AtMin? && after.AtMin? ==> after.seen < before.seen && after.seen == s.min)
            && (before.AtMax? && after.AtMax? ==> after.seen > before.seen && after.seen == s.max)
            && (!before.AtMin? && !before.AtMax? && before != Returned ==> Stage(after) > Stage(before))
  {
    hide BucketOf, Counts, Slots;
    assert Bounded(s, s.calls[i]);
  }

  /** A call misses a slot exactly when it found all of them taken or another call got in between its read
      and its swap. */
  lemma MissedSlot(s: Shared, i: nat)
    requires Inv(s) && i < |s.calls| && s.calls[i].pc.AtRecord?
    ensures After(s, i).calls[i].missed <==>
            s.calls[i].pc.seen >= DETAILED_RECORD_COUNT || s.recorded > s.calls[i].pc.seen
  {
    assert SlotKnown(s, i);
  }

  /** Another call has got in between the read and the swap of a call. */
  predicate Overtaken(s: Shared, i: nat)
    requires i < |s.calls|
  {
    s.calls[i].pc.AtRecord? && s.recorded > s.calls[i].pc.seen
  }

  ghost predicate SomeOvertaken(latencies: seq<nat>, schedule: seq<nat>)
    requires forall i :: 0 <= i < |latencies| ==> latencies[i] <= UINT64_MAX
  {
    exists k: nat :: OvertakenAt(latencies, schedule, k)
  }

  ghost predicate OvertakenAt(latencies: seq<nat>, schedule: seq<nat>, k: nat)
    requires forall i :: 0 <= i < |latencies| ==> latencies[i] <= UINT64_MAX
  {
    k < |schedule| && schedule[k] < |latencies| && Overtaken(Run(latencies, schedule[..k]), schedule[k])
  }

  ghost predicate SomeMissed(calls: seq<Call>) {
    exists i :: 0 <= i < |calls| && calls[i].missed
  }

  lemma {:induction false} TallyBounded(calls: seq<Call>, i: nat)
    requires i < |calls| && HasSlot()(calls[i]) == 0
    ensures Tally(calls, HasSlot()) < |calls|
    decreases |calls|
  {
    if i > 0 {
      TallyBounded(calls[1..], i - 1);
    } else {
      TallyAtMost(calls[1..]);
    }
  }

  lemma {:induction false} TallyAtMost(calls: seq<Call>)
    ensures Tally(calls, HasSlot()) <= |calls|
    decreases |calls|
  {
    if calls != [] {
      TallyAtMost(calls[1..]);
    }
  }

  lemma {:induction false} NoneMissed(calls: seq<Call>)
    ensures Tally(calls, Missed()) == 0 <==> !SomeMissed(calls)
    decreases |calls|
  {
    if calls != [] {
      NoneMissed(calls[1..]);
      if SomeMissed(calls) {
        var i :| 0 <= i < |calls| && calls[i].missed;
        assert i > 0 ==> calls[1..][i - 1].missed;
      }
      if SomeMissed(calls[1..]) {
        var i :| 0 <= i < |calls[1..]| && calls[1..][i].missed;
        assert calls[i + 1].missed;
      }
      if calls[0].missed {
        assert SomeMissed(calls);
      }
    }
  }

  /** With a slot for every call, one more is missed exactly when a call has been overtaken. */
  lemma MissesIfOvertaken(s: Shared, i: nat)
    requires Inv(s) && i < |s.calls| <= DETAILED_RECORD_COUNT
    ensures SomeMissed(After(s, i).calls) <==> SomeMissed(s.calls) || Overtaken(s, i)
  {
    assert SlotKnown(s, i);
    CallsStep(s, i);
    var s' := After(s, i);
    if s.calls[i].pc.AtRecord? {
      TallyBounded(s.calls, i);
      MissedSlot(s, i);
    } else {
      StaysMissed(s, i);
    }
    hide After, Inv, SlotKnown;
    if SomeMissed(s.calls) {
      var j :| 0 <= j < |s.calls| && s.calls[j].missed;
      assert s'.calls[j].missed;
    }
    if SomeMissed(s'.calls) {
      var j :| 0 <= j < |s'.calls| && s'.calls[j].missed;
      assert j != i ==> s.calls[j].missed;
    }
  }

  lemma StaysMissed(s: Shared, i: nat)
    requires Shaped(s) && i < |s.calls| && !s.calls[i].pc.AtRecord?
    ensures After(s, i).calls[i].missed == s.calls[i].missed
  {
    hide BucketOf;
  }

  lemma {:induction false} MissedIffOvertaken(latencies: seq<nat>, schedule: seq<nat>)
    requires |latencies| <= DETAILED_RECORD_COUNT
    requires forall i :: 0 <= i < |latencies| ==> latencies[i] <= UINT64_MAX
    ensures SomeMissed(Run(latencies, schedule).calls) <==> SomeOvertaken(latencies, schedule)
    decreases |schedule|
  {
    if schedule != [] {
      hide Inv, After, Overtaken, SomeMissed;
      var front, i := schedule[..|schedule| - 1], schedule[|schedule| - 1];
      MissedIffOvertaken(latencies, front);
      RunKeeps(latencies, front);
      if i < |latencies| {
        MissesIfOvertaken(Run(latencies, front), i);
      }
      OvertakenLater(latencies, schedule);
    }
  }

  lemma OvertakenLater(latencies: seq<nat>, schedule: seq<nat>)
    requires schedule != [] && forall i :: 0 <= i < |latencies| ==> latencies[i] <= UINT64_MAX
    ensures var front, i := schedule[..|schedule| - 1], schedule[|schedule| - 1];
            SomeOvertaken(latencies, schedule)
            <==> SomeOvertaken(latencies, front) || (i < |latencies| && Overtaken(Run(latencies, front), i))
  {
    hide Run, Overtaken, OvertakenAt;
    var front, last: nat := schedule[..|schedule| - 1], |schedule| - 1;
    AtLast(latencies, schedule);
    if SomeOvertaken(latencies, front) {
      var k: nat :| OvertakenAt(latencies, front, k);
      AtFront(latencies, schedule, k);
      assert OvertakenAt(latencies, schedule, k);
    }
    if SomeOvertaken(latencies, schedule) {
      var k: nat :| OvertakenAt(latencies, schedule, k);
      AtFront(latencies, schedule, k);
      assert k != last ==> OvertakenAt(latencies, front, k);
    }
  }

  lemma AtLast(latencies: seq<nat>, schedule: seq<nat>)
    requires schedule != [] && forall i :: 0 <= i < |latencies| ==> latencies[i] <= UINT64_MAX
    ensures var front, last := schedule[..|schedule| - 1], |schedule| - 1;
            OvertakenAt(latencies, schedule, last)
            <==> schedule[last] < |latencies| && Overtaken(Run(latencies, front), schedule[last])
  {
    hide Run, Overtaken;
  }

  lemma AtFront(latencies: seq<nat>, schedule: seq<nat>, k: nat)
    requires schedule != [] && forall i :: 0 <= i < |latencies| ==> latencies[i] <= UINT64_MAX
    ensures OvertakenAt(latencies, schedule[..|schedule| - 1], k)
            <==> OvertakenAt(latencies, schedule, k) && k != |schedule| - 1
  {
    hide Run, Overtaken;
    if k < |schedule| - 1 {
      assert schedule[..|schedule| - 1][..k] == schedule[..k];
    }
  }

  /** With a slot for every call, the details of all of them are kept exactly when no call is overtaken by another one
      between its read of the count and its swap. */
  lemma DetailsKeptIff(latencies: seq<nat>, schedule: seq<nat>)
    requires |latencies| <= DETAILED_RECORD_COUNT
    requires forall i :: 0 <= i < |latencies| ==> latencies[i] <= UINT64_MAX
    requires forall i :: 0 <= i < |latencies| ==> Run(latencies, schedule).calls[i].pc == Returned
    ensures Run(latencies, schedule).recorded == |latencies| <==> !SomeOvertaken(latencies, schedule)
  {
    hide Run, SomeOvertaken, SomeMissed;
    FinalStatistics(latencies, schedule);
    NoneMissed(Run(latencies, schedule).calls);
    MissedIffOvertaken(latencies, schedule);
  }

  predicate Active(pc: Pc) { pc != Begin && pc != Returned }

  /** Calls that do not overlap: whenever one takes a step the others have not begun or have returned. */
  ghost predicate Apart(latencies: seq<nat>, schedule: seq<nat>)
    requires forall i :: 0 <= i < |latencies| ==> latencies[i] <= UINT64_MAX
  {
    forall k, j :: 0 <= k < |schedule| && 0 <= j < |latencies| && j != schedule[k] ==>
      !Active(Run(latencies, schedule[..k]).calls[j].pc)
  }

  function Least(a: nat, b: nat): nat { if a <= b then a else b }

  /** The count is that of the calls past their swap, and a call about to swap has read it. */
  ghost predicate Orderly(s: Shared) {
    && s.recorded == Least(Tally(s.calls, IsPast(9)), DETAILED_RECORD_COUNT)
    && forall i :: 0 <= i < |s.calls| && s.calls[i].pc.AtRecord? ==> s.calls[i].pc.seen == s.recorded
  }

  lemma OrderlyStep(s: Shared, i: nat)
    requires Shaped(s) && Orderly(s) && i < |s.calls|
    requires forall j :: 0 <= j < |s.calls| && j != i ==> !Active(s.calls[j].pc)
    ensures Orderly(After(s, i))
  {
    var s' := After(s, i);
    CallsStep(s, i);
    TallyUpdate(s.calls, i, s'.calls[i], IsPast(9));
    hide Tally, BucketOf;
    assert forall j :: 0 <= j < |s'.calls| && j != i ==> s'.calls[j] == s.calls[j];
  }

  lemma {:induction false} ApartIsOrderly(latencies: seq<nat>, schedule: seq<nat>)
    requires forall i :: 0 <= i < |latencies| ==> latencies[i] <= UINT64_MAX
    requires Apart(latencies, schedule)
    ensures Orderly(Run(latencies, schedule))
    decreases |schedule|
  {
    if schedule == [] {
      NothingTallied(Start(latencies).calls, IsPast(9));
    } else {
      hide Orderly, After;
      var front, i := schedule[..|schedule| - 1], schedule[|schedule| - 1];
      assert Apart(latencies, front) by {
        assert forall k :: 0 <= k < |front| ==> front[..k] == schedule[..k] && front[k] == schedule[k];
      }
      ApartIsOrderly(latencies, front);
      if i < |latencies| {
        assert schedule[..|schedule| - 1] == front;
        OrderlyStep(Run(latencies, front), i);
      }
    }
  }

  lemma {:induction false} AllPast(calls: seq<Call>)
    requires forall i :: 0 <= i < |calls| ==> calls[i].pc == Returned
    ensures Tally(calls, IsPast(9)) == |calls|
    decreases |calls|
  {
    if calls != [] {
      AllPast(calls[1..]);
    }
  }

  /** Calls that do not overlap fill a slot each, as long as there are slots. */
  lemma ApartKeepsDetails(latencies: seq<nat>, schedule: seq<nat>)
    requires forall i :: 0 <= i < |latencies| ==> latencies[i] <= UINT64_MAX
    requires Apart(latencies, schedule)
    requires forall i :: 0 <= i < |latencies| ==> Run(latencies, schedule).calls[i].pc == Returned
    ensures Run(latencies, schedule).recorded == Least(|latencies|, DETAILED_RECORD_COUNT)
  {
    hide Run;
    ApartIsOrderly(latencies, schedule);
    AllPast(Run(latencies, schedule).calls);
  }

  lemma RunMore(latencies: seq<nat>, schedule: seq<nat>, i: nat)
    requires i < |latencies| && forall i :: 0 <= i < |latencies| ==> latencies[i] <= UINT64_MAX
    ensures Run(latencies, schedule + [i]) == After(Run(latencies, schedule), i)
  {
    assert (schedule + [i])[..|schedule|] == schedule;
  }

  /** Some steps of one call. */
  function Steps(i: nat, n: nat): seq<nat> { seq(n, _ => i) }

  lemma {:induction false} StepsMore(latencies: seq<nat>, schedule: seq<nat>, i: nat, n: nat)
    requires i < |latencies| && forall i :: 0 <= i < |latencies| ==> latencies[i] <= UINT64_MAX
    ensures Run(latencies, schedule + Steps(i, n + 1)) == After(Run(latencies, schedule + Steps(i, n)), i)
  {
    assert schedule + Steps(i, n + 1) == (schedule + Steps(i, n)) + [i];
    RunMore(latencies, schedule + Steps(i, n), i);
  }

  /** A call that has been on its own since it began: each of its loops has read the present value. */
  predicate Alone(s: Shared, i: nat, n: nat)
    requires i < |s.calls|
  {
    var c := s.calls[i];
    Stage(c.pc) == n && !c.missed && (c.pc.AtMin? ==> c.pc.seen == s.min) && (c.pc.AtMax? ==> c.pc.seen == s.max)
  }

  lemma AloneStep(s: Shared, i: nat, n: nat)
    requires Shaped(s) && i < |s.calls| && Alone(s, i, n) && n < 7
    ensures var s' := After(s, i);
            && s'.calls == s.calls[i := s.calls[i].(pc := s'.calls[i].pc)] && Alone(s', i, n + 1)
            && s'.recorded == s.recorded && s'.owners == s.owners
  {
    hide BucketOf;
  }

  /** A call on its own gets on by one stage with each step, up to the record. */
  lemma {:induction false} AloneToRecord(latencies: seq<nat>, schedule: seq<nat>, i: nat, n: nat)
    requires i < |latencies| && forall i :: 0 <= i < |latencies| ==> latencies[i] <= UINT64_MAX
    requires Alone(Run(latencies, schedule), i, 0) && n <= 7
    ensures var s, s' := Run(latencies, schedule), Run(latencies, schedule + Steps(i, n));
            && s'.calls == s.calls[i := s.calls[i].(pc := s'.calls[i].pc)] && Alone(s', i, n)
            && s'.recorded == s.recorded && s'.owners == s.owners
    decreases n
  {
    hide Run, After, Alone;
    if n == 0 {
      assert schedule + Steps(i, 0) == schedule;
    } else {
      AloneToRecord(latencies, schedule, i, n - 1);
      StepsMore(latencies, schedule, i, n - 1);
      AloneStep(Run(latencies, schedule + Steps(i, n - 1)), i, n - 1);
    }
  }

  /** The last steps of two calls that both read the count before either swaps. */
  lemma BothRead(s: Shared, a: Call, b: Call)
    requires Shaped(s) && s.calls == [a, b] && s.recorded == 0 && s.owners == []
    requires a.pc == Bucketed && b.pc == Bucketed && !a.missed && !b.missed
    ensures var s1 := After(s, 0);
            var s2 := After(s1, 1);
            s2.calls == [a.(pc := AtRecord(0)), b.(pc := AtRecord(0))] && s2.recorded == 0 && s2.owners == []
  {
    hide BucketOf;
  }

  lemma OneSwaps(s: Shared, a: Call, b: Call)
    requires Shaped(s) && s.calls == [a, b] && s.recorded == 0 && s.owners == []
    requires a.pc == AtRecord(0) && b.pc == AtRecord(0) && !a.missed && !b.missed
    ensures var s1 := After(s, 0);
            var s2 := After(s1, 1);
            var s3 := After(s2, 0);
            && s3.calls == [a.(pc := Returned), b.(pc := Returned, missed := true)]
            && s3.recorded == 1 && s3.owners == [0]
  {
    hide BucketOf;
  }

  lemma BothAtRecord(a: nat, b: nat)
    requires a <= UINT64_MAX && b <= UINT64_MAX
    ensures var s := Run([a, b], Steps(0, 7) + Steps(1, 7));
            && s.calls == [Call(a, Bucketed, false), Call(b, Bucketed, false)] && s.recorded == 0 && s.owners == []
  {
    var both, s0 := [a, b], Run([a, b], []);
    assert s0.calls == [Call(a, Begin, false), Call(b, Begin, false)] && s0.recorded == 0 && s0.owners == [];
    hide Run;
    AloneToRecord(both, [], 0, 7);
    assert [] + Steps(0, 7) == Steps(0, 7);
    AloneToRecord(both, Steps(0, 7), 1, 7);
  }

  /** For any two latencies: two calls that both read the count before either swaps. Of the only two calls one has its
      details lost, with 999 slots free. */
  lemma DetailsCanBeLost(a: nat, b: nat)
    requires a <= UINT64_MAX && b <= UINT64_MAX
    ensures var s := Run([a, b], Steps(0, 7) + Steps(1, 7) + [0, 1, 0, 1, 0]);
            && s.calls == [Call(a, Returned, false), Call(b, Returned, true)] && s.recorded == 1 && s.owners == [0]
  {
    hide Run, After;
    var both, x := [a, b], Steps(0, 7) + Steps(1, 7);
    BothAtRecord(a, b);
    BothRead(Run(both, x), Call(a, Bucketed, false), Call(b, Bucketed, false));
    RunMore(both, x, 0);
    RunMore(both, x + [0], 1);
    OneSwaps(Run(both, x + [0] + [1]), Call(a, AtRecord(0), false), Call(b, AtRecord(0), false));
    RunMore(both, x + [0] + [1], 0);
    RunMore(both, x + [0] + [1] + [0], 1);
    RunMore(both, x + [0] + [1] + [0] + [1], 0);
    assert x + [0] + [1] + [0] + [1] + [0] == x + [0, 1, 0, 1, 0];
  }
}
