/**
 record_message_latency (performance_stats.c): every call takes its message index by a fetch-and-add; around the atomic
 minimum there are plain stores that other calls can overtake. A state machine over the steps of any number of calls.
 */
module MessageStats {
  import opened Sequences
  import opened Stats

  /** When a message was sent and received; the latency is the difference of 64-bit numbers. */
  datatype Timing = Timing(send: nat, receive: nat)
  {
    function Latency(): nat { (receive - send) % TWO_64 }
  }

  /** Where a call stands: index taken, in the loop for the minimum, having won it with the index, the send time and the
      receive time still to be stored, past the minimum, its detail slot stored with the count still to be stored, or
      out. */
  datatype Where = Entering | Indexed | Trying(seen: nat) | Won | WonIndexed | WonSent | PastMin | Stored | Left

  datatype MessageCall = MessageCall(time: Timing, at: Where, index: nat)
  {
    function Latency(): nat { time.Latency() }
  }

  /** `owners` lists the calls in the order of their indexes. */
  datatype Messages = Messages(count: nat, min: nat, minIndex: nat, minSend: nat, minReceive: nat, recorded: nat,
                               slots: seq<Timing>, owners: seq<nat>, calls: seq<MessageCall>)

  function Empty(times: seq<Timing>): Messages {
    Messages(0, UINT64_MAX, 0, 0, 0, 0, seq(DETAILED_RECORD_COUNT, _ => Timing(0, 0)), [],
             seq(|times|, i requires 0 <= i < |times| => MessageCall(times[i], Entering, 0)))
  }

  /** The next step of call `i`; an index is the 64-bit count, which does not wrap in fewer than 2^64 calls. */
  function Next(s: Messages, i: nat): (s': Messages)
    requires i < |s.calls|
    ensures |s'.calls| == |s.calls|
  {
    var c := s.calls[i];
    match c.at
    case Entering =>
      s.(count := s.count + 1, owners := s.owners + [i], calls := s.calls[i := c.(at := Indexed, index := s.count)])
    case Indexed => s.(calls := s.calls[i := c.(at := Trying(s.min))])
    case Trying(seen) =>
      if c.Latency() < seen then
        if s.min == seen then s.(min := c.Latency(), calls := s.calls[i := c.(at := Won)])
        else s.(calls := s.calls[i := c.(at := Trying(s.min))])
      else s.(calls := s.calls[i := c.(at := PastMin)])
    case Won => s.(minIndex := c.index + 1, calls := s.calls[i := c.(at := WonIndexed)])
    case WonIndexed => s.(minSend := c.time.send, calls := s.calls[i := c.(at := WonSent)])
    case WonSent => s.(minReceive := c.time.receive, calls := s.calls[i := c.(at := PastMin)])
    case PastMin =>
      if c.index < DETAILED_RECORD_COUNT && c.index < |s.slots| then
        s.(slots := s.slots[c.index := c.time], calls := s.calls[i := c.(at := Stored)])
      else s.(calls := s.calls[i := c.(at := Left)])
    case Stored => s.(recorded := c.index + 1, calls := s.calls[i := c.(at := Left)])
    case Left => s
  }

  /** Indexes and calls determine each other, and a slot that has been stored holds the latency of its index. */
  ghost predicate Consistent(s: Messages) {
    && |s.slots| == DETAILED_RECORD_COUNT && |s.owners| == s.count
    && s.recorded <= |s.owners| && s.recorded <= DETAILED_RECORD_COUNT
    && (forall k :: 0 <= k < |s.owners| ==> OwnerOk(s, k))
    && (forall i :: 0 <= i < |s.calls| ==> CallOk(s, i))
  }

  predicate OwnerOk(s: Messages, k: nat)
    requires k < |s.owners|
  {
    s.owners[k] < |s.calls| && s.calls[s.owners[k]].index == k && !s.calls[s.owners[k]].at.Entering?
  }

  predicate CallOk(s: Messages, i: nat)
    requires i < |s.calls|
  {
    var c := s.calls[i];
    && (!c.at.Entering? ==> c.index < |s.owners| && s.owners[c.index] == i)
    && (c.at.Stored? || c.at.Left? ==> c.index < |s.slots| ==> s.slots[c.index] == c.time)
    && (c.at.Stored? ==> c.index < DETAILED_RECORD_COUNT)
    && (c.at.Left? ==> c.index < DETAILED_RECORD_COUNT ==> s.recorded > 0)
  }

  lemma NextKeeps(s: Messages, i: nat)
    requires Consistent(s) && i < |s.calls|
    ensures Consistent(Next(s, i))
  {
    var s' := Next(s, i);
    assert CallOk(s, i);
    forall k | 0 <= k < |s'.owners|
      ensures OwnerOk(s', k)
    {
      if k < |s.owners| {
        assert OwnerOk(s, k);
      }
    }
    forall j | 0 <= j < |s'.calls|
      ensures CallOk(s', j)
    {
      assert CallOk(s, j);
    }
  }

  function Rounds(times: seq<Timing>, schedule: seq<nat>): (s: Messages)
    ensures |s.calls| == |times| && forall i :: 0 <= i < |times| ==> s.calls[i].time == times[i]
  {
    if schedule == [] then Empty(times)
    else
      var before, i := Rounds(times, schedule[..|schedule| - 1]), schedule[|schedule| - 1];
      if i < |times| then Next(before, i) else before
  }

  lemma {:induction false} RoundsKeep(times: seq<Timing>, schedule: seq<nat>)
    ensures Consistent(Rounds(times, schedule))
    decreases |schedule|
  {
    if schedule != [] {
      hide Consistent, Next;
      RoundsKeep(times, schedule[..|schedule| - 1]);
      var before, i := Rounds(times, schedule[..|schedule| - 1]), schedule[|schedule| - 1];
      if i < |times| {
        NextKeeps(before, i);
      }
    }
  }

  /** Different numbers below |s| that fill |s| places leave none out. */
  lemma AllIndexed(s: Messages)
    requires Consistent(s) && forall i :: 0 <= i < |s.calls| ==> !s.calls[i].at.Entering?
    ensures s.count == |s.calls|
  {
    var indexes := seq(|s.calls|, i requires 0 <= i < |s.calls| => s.calls[i].index);
    forall i, j | 0 <= i < j < |indexes|
      ensures indexes[i] != indexes[j]
    {
      assert CallOk(s, i) && CallOk(s, j);
    }
    forall i | 0 <= i < |indexes|
      ensures indexes[i] < s.count
    {
      assert CallOk(s, i);
    }
    forall k, l | 0 <= k < l < |s.owners|
      ensures s.owners[k] != s.owners[l]
    {
      assert OwnerOk(s, k) && OwnerOk(s, l);
    }
    forall k | 0 <= k < |s.owners|
      ensures s.owners[k] < |s.calls|
    {
      assert OwnerOk(s, k);
    }
    Pigeonhole(indexes, s.count);
    Pigeonhole(s.owners, |s.calls|);
  }

  /** Once all calls have returned, whatever the interleaving: every one of the first 1000 indexes has its slot,
      holding the times of the call with that index, and no two calls share an index; the stored count is that of
      some call. */
  lemma DetailsComplete(times: seq<Timing>, schedule: seq<nat>)
    requires forall i :: 0 <= i < |times| ==> Rounds(times, schedule).calls[i].at.Left?
    ensures var s := Rounds(times, schedule);
            && s.count == |times| == |s.owners|
            && (forall k, l :: 0 <= k < l < |s.owners| ==> s.owners[k] != s.owners[l])
            && (forall k :: 0 <= k < |s.owners| && k < DETAILED_RECORD_COUNT ==>
                  s.owners[k] < |times| && k < |s.slots| && s.slots[k] == times[s.owners[k]])
            && (times != [] ==> 0 < s.recorded <= |times|) && s.recorded <= DETAILED_RECORD_COUNT
  {
    hide Rounds;
    RoundsKeep(times, schedule);
    var s := Rounds(times, schedule);
    AllIndexed(s);
    forall k | 0 <= k < |s.owners|
      ensures s.owners[k] < |times| && (k < DETAILED_RECORD_COUNT ==> s.slots[k] == times[s.owners[k]])
      ensures forall l :: k < l < |s.owners| ==> s.owners[k] != s.owners[l]
    {
      assert OwnerOk(s, k) && CallOk(s, s.owners[k]);
      forall l | k < l < |s.owners|
        ensures s.owners[k] != s.owners[l]
      {
        assert OwnerOk(s, l);
      }
    }
    if times != [] {
      assert OwnerOk(s, 0) && CallOk(s, s.owners[0]) && s.calls[s.owners[0]].at.Left?;
    }
  }

  /** The call that made the last step from `at`, or -1. */
  function LastAt(times: seq<Timing>, schedule: seq<nat>, at: Where): (i: int)
    ensures -1 <= i < |times|
  {
    if schedule == [] then -1
    else
      var before, i := schedule[..|schedule| - 1], schedule[|schedule| - 1];
      if i < |times| && Rounds(times, before).calls[i].at == at then i else LastAt(times, before, at)
  }

  /** The calls that stored the plain fields last, each -1 as long as there is none. */
  datatype Storers = Storers(counted: int, indexed: int, sent: int, received: int)

  function LastStorers(times: seq<Timing>, schedule: seq<nat>): Storers {
    Storers(LastAt(times, schedule, Stored), LastAt(times, schedule, Won), LastAt(times, schedule, WonIndexed),
            LastAt(times, schedule, WonSent))
  }

  function StorersAfter(s: Messages, st: Storers, i: nat): Storers
    requires i < |s.calls|
  {
    var at := s.calls[i].at;
    Storers(if at == Stored then i else st.counted, if at == Won then i else st.indexed,
            if at == WonIndexed then i else st.sent, if at == WonSent then i else st.received)
  }

  predicate PastLoop(at: Where) { Storing(at) || at.PastMin? || at.Stored? || at.Left? }

  /** A winner that has not stored all its details. */
  predicate Storing(at: Where) { at.Won? || at.WonIndexed? || at.WonSent? }

  predicate MinOf(s: Messages, i: nat) { i < |s.calls| && PastLoop(s.calls[i].at) && s.calls[i].Latency() == s.min }

  /** The plain fields are those of the calls that stored them last. */
  ghost predicate StoredBy(s: Messages, st: Storers) {
    && -1 <= st.counted < |s.calls| && -1 <= st.indexed < |s.calls|
    && -1 <= st.sent < |s.calls| && -1 <= st.received < |s.calls|
    && s.recorded == (if st.counted < 0 then 0 else s.calls[st.counted].index + 1)
    && (st.counted >= 0 ==> s.calls[st.counted].at.Left?)
    && s.minIndex == (if st.indexed < 0 then 0 else s.calls[st.indexed].index + 1)
    && (st.indexed >= 0 ==> PastLoop(s.calls[st.indexed].at))
    && s.minSend == (if st.sent < 0 then 0 else s.calls[st.sent].time.send)
    && s.minReceive == (if st.received < 0 then 0 else s.calls[st.received].time.receive)
  }

  /** The minimum is that of the calls past its loop; once a winner has stored its details all fields have
      been stored. */
  ghost predicate Minimum(s: Messages, st: Storers) {
    && s.min <= UINT64_MAX && (forall i :: 0 <= i < |s.calls| ==> AboveMin(s, i))
    && (s.min < UINT64_MAX ==>
          exists i: nat ::
            MinOf(s, i) && (Storing(s.calls[i].at) || (st.indexed >= 0 && st.sent >= 0 && st.received >= 0)))
    && (forall i :: 0 <= i < |s.calls| ==>
          && (s.calls[i].at.WonIndexed? ==> st.indexed >= 0)
          && (s.calls[i].at.WonSent? ==> st.indexed >= 0 && st.sent >= 0))
  }

  predicate AboveMin(s: Messages, i: nat)
    requires i < |s.calls|
  {
    var c := s.calls[i];
    (PastLoop(c.at) ==> s.min <= c.Latency()) && (c.at.Trying? ==> s.min <= c.at.seen)
  }

  lemma AboveKept(s: Messages, i: nat, j: nat)
    requires i < |s.calls| && j < |s.calls| && AboveMin(s, i) && AboveMin(s, j)
    ensures AboveMin(Next(s, i), j)
  {
    hide Timing.Latency;
  }

  lemma NextStoredBy(s: Messages, st: Storers, i: nat)
    requires StoredBy(s, st) && i < |s.calls|
    ensures StoredBy(Next(s, i), StorersAfter(s, st, i))
  {
    hide Timing.Latency;
    match s.calls[i].at
    case Won =>
    case Stored =>
    case _ =>
  }

  lemma NextMinimum(s: Messages, st: Storers, i: nat)
    requires Minimum(s, st) && i < |s.calls|
    ensures Minimum(Next(s, i), StorersAfter(s, st, i))
  {
    hide Timing.Latency;
    var s' := Next(s, i);
    forall j | 0 <= j < |s'.calls|
      ensures AboveMin(s', j)
    {
      AboveKept(s, i, j);
    }
    hide AboveMin;
    if s'.min < s.min {
      assert MinOf(s', i);
    } else if s.min < UINT64_MAX {
      var j: nat :| MinOf(s, j) && (Storing(s.calls[j].at) || (st.indexed >= 0 && st.sent >= 0 && st.received >= 0));
      assert MinOf(s', j);
    }
  }

  lemma {:induction false} RoundsStore(times: seq<Timing>, schedule: seq<nat>)
    ensures StoredBy(Rounds(times, schedule), LastStorers(times, schedule))
    ensures Minimum(Rounds(times, schedule), LastStorers(times, schedule))
    decreases |schedule|
  {
    if schedule != [] {
      hide StoredBy, Minimum, Next;
      var before, i := schedule[..|schedule| - 1], schedule[|schedule| - 1];
      RoundsStore(times, before);
      if i < |times| {
        NextStoredBy(Rounds(times, before), LastStorers(times, before), i);
        NextMinimum(Rounds(times, before), LastStorers(times, before), i);
      }
    } else {
      assert StoredBy(Empty(times), Storers(-1, -1, -1, -1)) && Minimum(Empty(times), Storers(-1, -1, -1, -1));
    }
  }

  /** The details kept with the minimum are those of a call that had it: its index and both its times. */
  ghost predicate DetailsOfMin(s: Messages) {
    exists i: nat :: HasDetails(s, i)
  }

  predicate HasDetails(s: Messages, i: nat) {
    && MinOf(s, i) && s.calls[i].index + 1 == s.minIndex
    && s.calls[i].time.send == s.minSend && s.calls[i].time.receive == s.minReceive
  }

  function Slots(count: nat): nat { if count < DETAILED_RECORD_COUNT then count else DETAILED_RECORD_COUNT }

  /** Once all calls have returned the minimum is true, and each plain field is that of the call that stored it
      last: the count is right exactly when that was the last call with a slot; the details of the minimum are
      those of one call that had it exactly when the index was stored last by such a call, and the times by
      calls with the same times. */
  lemma PlainFieldsRightIff(times: seq<Timing>, schedule: seq<nat>)
    requires forall i :: 0 <= i < |times| ==> Rounds(times, schedule).calls[i].at.Left?
    ensures var s, st := Rounds(times, schedule), LastStorers(times, schedule);
            && (forall i :: 0 <= i < |times| ==>
                  s.min <= times[i].Latency() == (times[i].receive - times[i].send) % 0x1_0000_0000_0000_0000)
            && (times != [] ==>
                  && 0 <= st.counted < |times|
                  && (s.recorded == Slots(|times|) <==> s.calls[st.counted].index + 1 == Slots(|times|)))
            && (s.min < UINT64_MAX ==>
                  && 0 <= st.indexed < |times| && 0 <= st.sent < |times| && 0 <= st.received < |times|
                  && s.minIndex == s.calls[st.indexed].index + 1
                  && s.minSend == times[st.sent].send && s.minReceive == times[st.received].receive
                  && (DetailsOfMin(s) <==>
                        && times[st.indexed].Latency() == s.min && times[st.sent].send == times[st.indexed].send
                        && times[st.received].receive == times[st.indexed].receive))
            && (s.min < UINT64_MAX ==> exists i :: 0 <= i < |times| && times[i].Latency() == s.min)
  {
    assert forall i :: 0 <= i < |times| ==>
                         times[i].Latency() == (times[i].receive - times[i].send) % 0x1_0000_0000_0000_0000;
    hide Rounds, LastAt, Timing.Latency;
    RoundsKeep(times, schedule);
    RoundsStore(times, schedule);
    var s, st := Rounds(times, schedule), LastStorers(times, schedule);
    AllIndexed(s);
    if times != [] {
      assert OwnerOk(s, 0) && CallOk(s, s.owners[0]) && s.calls[s.owners[0]].at.Left?;
    }
    forall i | 0 <= i < |times|
      ensures s.min <= times[i].Latency()
    {
      assert AboveMin(s, i);
    }
    if s.min < UINT64_MAX {
      var i: nat :| MinOf(s, i) && (Storing(s.calls[i].at) || (st.indexed >= 0 && st.sent >= 0 && st.received >= 0));
      assert times[i].Latency() == s.min;
      WhoseDetails(s, st);
    }
  }

  lemma WhoseDetails(s: Messages, st: Storers)
    requires Consistent(s) && StoredBy(s, st) && forall i :: 0 <= i < |s.calls| ==> s.calls[i].at.Left?
    requires st.indexed >= 0 && st.sent >= 0 && st.received >= 0
    ensures DetailsOfMin(s) <==>
              && s.calls[st.indexed].Latency() == s.min && s.calls[st.sent].time.send == s.calls[st.indexed].time.send
              && s.calls[st.received].time.receive == s.calls[st.indexed].time.receive
  {
    hide Timing.Latency;
    assert CallOk(s, st.indexed);
    if DetailsOfMin(s) {
      var j: nat :| HasDetails(s, j);
      assert CallOk(s, j);
    }
    if s.calls[st.indexed].Latency() == s.min && s.calls[st.sent].time.send == s.calls[st.indexed].time.send
       && s.calls[st.received].time.receive == s.calls[st.indexed].time.receive {
      assert HasDetails(s, st.indexed);
    }
  }

  predicate Active(c: MessageCall) { !c.at.Entering? && !c.at.Left? }

  /** Calls that do not overlap: whenever one takes a step the others have not begun or have returned. */
  ghost predicate Apart(times: seq<Timing>, schedule: seq<nat>) {
    forall k, j :: 0 <= k < |schedule| && 0 <= j < |times| && j != schedule[k] ==>
      !Active(Rounds(times, schedule[..k]).calls[j])
  }

  /** Between calls the plain fields are right; during a call they still are those of the calls before it. */
  ghost predicate Orderly(s: Messages) {
    && (forall i :: 0 <= i < |s.calls| && Active(s.calls[i]) ==> OrderlyCall(s, s.calls[i]))
    && ((forall i :: 0 <= i < |s.calls| ==> !Active(s.calls[i])) ==>
          s.recorded == Slots(s.count) && (s.min < UINT64_MAX ==> DetailsOfMin(s)))
  }

  ghost predicate OrderlyCall(s: Messages, c: MessageCall) {
    && c.index + 1 == s.count && s.recorded == Slots(c.index)
    && (c.at.Trying? ==> c.at.seen == s.min)
    && (Storing(c.at) ==> s.min == c.Latency())
    && (c.at.WonIndexed? || c.at.WonSent? ==> s.minIndex == c.index + 1)
    && (c.at.WonSent? ==> s.minSend == c.time.send)
    && (!Storing(c.at) ==> s.min < UINT64_MAX ==> DetailsOfMin(s))
  }

  lemma NextOrderly(s: Messages, i: nat)
    requires Consistent(s) && Orderly(s) && i < |s.calls|
    requires forall j :: 0 <= j < |s.calls| && j != i ==> !Active(s.calls[j])
    ensures Orderly(Next(s, i))
  {
    hide Timing.Latency;
    var s' := Next(s, i);
    assert CallOk(s, i);
    assert forall j :: 0 <= j < |s'.calls| && j != i ==> s'.calls[j] == s.calls[j];
    if Active(s.calls[i]) {
      assert OrderlyCall(s, s.calls[i]);
    } else {
      assert forall j :: 0 <= j < |s.calls| ==> !Active(s.calls[j]);
    }
    if s.calls[i].at.WonSent? {
      assert HasDetails(s', i);
    } else if !Storing(s.calls[i].at) && s'.min == s.min && DetailsOfMin(s) {
      DetailsKept(s, i);
    }
    hide DetailsOfMin, Consistent;
    if Active(s'.calls[i]) {
      assert OrderlyCall(s', s'.calls[i]);
    } else {
      assert s'.recorded == Slots(s'.count);
      assert s'.min < UINT64_MAX ==> DetailsOfMin(s');
    }
  }

  lemma DetailsKept(s: Messages, i: nat)
    requires Consistent(s) && DetailsOfMin(s) && i < |s.calls| && !Storing(s.calls[i].at) && Next(s, i).min == s.min
    ensures DetailsOfMin(Next(s, i))
  {
    hide Timing.Latency;
    var j: nat :| HasDetails(s, j);
    assert CallOk(s, j) && HasDetails(Next(s, i), j);
  }

  /** Calls that do not overlap leave the right count and the right details. */
  lemma {:induction false} ApartIsRight(times: seq<Timing>, schedule: seq<nat>)
    requires Apart(times, schedule)
    ensures Orderly(Rounds(times, schedule))
    decreases |schedule|
  {
    if schedule != [] {
      hide Orderly, Next;
      var before, i := schedule[..|schedule| - 1], schedule[|schedule| - 1];
      assert Apart(times, before) by {
        assert forall k :: 0 <= k < |before| ==> before[..k] == schedule[..k] && before[k] == schedule[k];
      }
      ApartIsRight(times, before);
      RoundsKeep(times, before);
      if i < |times| {
        assert schedule[..|schedule| - 1] == before;
        NextOrderly(Rounds(times, before), i);
      }
    } else {
      assert Orderly(Empty(times));
    }
  }

  const RACE: seq<nat> := [0, 1, 0, 0, 1, 1, 0, 1, 1, 1, 0, 0, 1, 0, 1, 0]

  function Pair(slow: Timing, fast: Timing, at: Where, at': Where): seq<MessageCall> {
    [MessageCall(slow, at, 0), MessageCall(fast, at', 1)]
  }

  /** Both take an index, and the slow one comes to the minimum first. */
  lemma SlowWins(s: Messages, slow: Timing, fast: Timing)
    requires s == Empty([slow, fast]) && fast.Latency() < slow.Latency() < UINT64_MAX
    ensures Next(Next(Next(Next(s, 0), 1), 0), 0)
            == s.(count := 2, min := slow.Latency(), owners := [0, 1], calls := Pair(slow, fast, Won, Indexed))
  {
    hide Timing.Latency;
    assert Next(Next(s, 0), 1) == s.(count := 2, owners := [0, 1], calls := Pair(slow, fast, Indexed, Indexed));
    assert Next(Next(Next(s, 0), 1), 0).calls == Pair(slow, fast, Trying(UINT64_MAX), Indexed);
  }

  /** The fast one wins too, and both store their index. */
  lemma FastWins(s: Messages, slow: Timing, fast: Timing)
    requires s.calls == Pair(slow, fast, Won, Indexed) && fast.Latency() < slow.Latency() == s.min
    ensures Next(Next(Next(Next(s, 1), 1), 0), 1)
            == s.(min := fast.Latency(), minIndex := 2, calls := Pair(slow, fast, WonIndexed, WonIndexed))
  {
    hide Timing.Latency;
    assert Next(Next(s, 1), 1) == s.(min := fast.Latency(), calls := Pair(slow, fast, Won, Won));
    assert Next(Next(Next(s, 1), 1), 0).calls == Pair(slow, fast, WonIndexed, Won);
  }

  /** The slow one stores its times last. */
  lemma SlowStoresTimes(s: Messages, slow: Timing, fast: Timing)
    requires s.calls == Pair(slow, fast, WonIndexed, WonIndexed)
    ensures Next(Next(Next(Next(s, 1), 1), 0), 0)
            == s.(minSend := slow.send, minReceive := slow.receive, calls := Pair(slow, fast, PastMin, PastMin))
  {
    hide Timing.Latency;
    assert Next(Next(s, 1), 1).calls == Pair(slow, fast, WonIndexed, PastMin);
    assert Next(Next(Next(s, 1), 1), 0).calls == Pair(slow, fast, WonSent, PastMin);
  }

  /** The slow one stores the count last. */
  lemma SlowStoresCount(s: Messages, slow: Timing, fast: Timing)
    requires s.calls == Pair(slow, fast, PastMin, PastMin) && |s.slots| > 1
    ensures Next(Next(Next(Next(s, 1), 0), 1), 0)
            == s.(slots := s.slots[1 := fast][0 := slow], recorded := 1, calls := Pair(slow, fast, Left, Left))
  {
    hide Timing.Latency;
    assert Next(Next(s, 1), 0).calls == Pair(slow, fast, Stored, Stored);
    assert Next(Next(Next(s, 1), 0), 1).calls == Pair(slow, fast, Stored, Left);
  }

  lemma RoundsNext(times: seq<Timing>, schedule: seq<nat>, i: nat)
    requires i < |times|
    ensures Rounds(times, schedule + [i]) == Next(Rounds(times, schedule), i)
  {
    assert (schedule + [i])[..|schedule|] == schedule;
  }

  /** Four steps of two calls. */
  lemma RoundsOn(times: seq<Timing>, schedule: seq<nat>, i: nat, j: nat, k: nat, l: nat)
    requires |times| == 2 && i < 2 && j < 2 && k < 2 && l < 2
    ensures Rounds(times, schedule + [i, j, k, l]) == Next(Next(Next(Next(Rounds(times, schedule), i), j), k), l)
  {
    hide Rounds, Next;
    RoundsNext(times, schedule, i);
    RoundsNext(times, schedule + [i], j);
    RoundsNext(times, schedule + [i] + [j], k);
    RoundsNext(times, schedule + [i] + [j] + [k], l);
    assert schedule + [i] + [j] + [k] + [l] == schedule + [i, j, k, l];
  }

  /** Two calls that overlap, the second of them the faster message: the count ends at 1 although two slots are filled,
      and the details of the minimum are the index of one call with the times of the other. */
  lemma PlainStoresRace(slow: Timing, fast: Timing)
    requires fast.Latency() < slow.Latency() < UINT64_MAX
    ensures var s := Rounds([slow, fast], RACE);
            && s.calls == Pair(slow, fast, Left, Left) && |s.slots| > 1 && s.slots[0] == slow && s.slots[1] == fast
            && s.recorded == 1 && s.min == fast.Latency() && s.minIndex == 2
            && s.minSend == slow.send && s.minReceive == slow.receive && !DetailsOfMin(s)
  {
    var times := [slow, fast];
    var s := Empty(times);
    assert Rounds(times, []) == s && s.slots[0] == Timing(0, 0) && |s.slots| > 1;
    var a, b := [0, 1, 0, 0], [0, 1, 0, 0] + [1, 1, 0, 1];
    assert [] + a == a && b + [1, 1, 0, 0] + [1, 0, 1, 0] == RACE;
    hide Rounds, Next, Timing.Latency;
    RoundsOn(times, [], 0, 1, 0, 0);
    RoundsOn(times, a, 1, 1, 0, 1);
    RoundsOn(times, b, 1, 1, 0, 0);
    RoundsOn(times, b + [1, 1, 0, 0], 1, 0, 1, 0);
    SlowWins(s, slow, fast);
    FastWins(Rounds(times, a), slow, fast);
    SlowStoresTimes(Rounds(times, b), slow, fast);
    SlowStoresCount(Rounds(times, b + [1, 1, 0, 0]), slow, fast);
  }
}
