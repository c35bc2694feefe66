/**
 What the fragment assemblers do, on values. An assembler state is the term offset the next fragment must have and
 the bytes put together so far; `answer` is what the delegate answers if it is called with a message.
 */
module Assembly {
  import opened Framing
  import opened BufferBuilders
  import opened Images

  datatype Option<+T> = None | Some(value: T)

  datatype Asm = Asm(next: int, bytes: seq<int>)

  const IDLE := Asm(NULL_VALUE, [])

  /** The new state, the message handed to the delegate if any, and the action returned to the poll. */
  datatype StepResult = StepResult(asm: Asm, message: Option<seq<int>>, action: Action)

  /** The message a fragment makes the assembler hand over. */
  function Message(a: Asm, f: Frame): Option<seq<int>> {
    if f.Unfragmented() then Some(f.payload)
    else if !f.begin && f.offset == a.next && f.end && |a.bytes| + |f.payload| <= MAX_CAPACITY then
      Some(a.bytes + f.payload)
    else None
  }

  /** onFragment with handleFragment. An append over the maximum capacity throws; so does a delegate that answers
      THROW, which leaves the last fragment appended. */
  function Step(a: Asm, f: Frame, answer: Action): StepResult {
    if f.Unfragmented() then StepResult(a, Message(a, f), answer)
    else if f.begin then StepResult(Asm(f.NextOffset(), f.payload), None, CONTINUE)
    else if f.offset != a.next then StepResult(IDLE, None, CONTINUE)
    else if |a.bytes| + |f.payload| > MAX_CAPACITY then StepResult(a, None, THROW)
    else if !f.end then StepResult(Asm(f.NextOffset(), a.bytes + f.payload), None, CONTINUE)
    else
      StepResult(match answer
                 case ABORT => a
                 case THROW => Asm(a.next, a.bytes + f.payload)
                 case _ => IDLE,
                 Message(a, f), answer)
  }

  /** The header captured by the builder. */
  datatype Captured = Captured(length: int, begin: bool, end: bool)

  /** Each BEGIN fragment is captured; completing a message writes the length of the whole message and the flags of both
      ends over what was captured. */
  function CapturedAfter(a: Asm, c: Captured, f: Frame): Captured {
    if f.Unfragmented() then c
    else if f.begin then Captured(f.length, f.begin, f.end)
    else match Message(a, f)
      case Some(m) => Captured(HEADER_LENGTH + |m|, c.begin || f.begin, c.end || f.end)
      case None => c
  }

  /** The header handed over with an assembled message. */
  function HeaderOf(c: Captured, m: seq<int>, last: Frame): Completed
    requires c.length > HEADER_LENGTH
  {
    Completed(HEADER_LENGTH + |m|, c.begin || last.begin, c.end || last.end,
              FramedLength(|m|, c.length - HEADER_LENGTH))
  }

  /** A fragment as it arrives, with the delegate's answer if it comes to a call. */
  datatype Event = Event(frame: Frame, answer: Action)

  /** A call of the delegate. */
  datatype Delivery = Delivery(message: seq<int>, answer: Action)

  datatype RunResult = RunResult(asm: Asm, deliveries: seq<Delivery>, kept: seq<Frame>, spoilt: bool)

  /** The state after a list of events, the calls made, the fragments that went into it (those that neither were
      answered ABORT nor threw, unfragmented ones aside), and whether the last of them ended in the delegate throwing,
      which leaves its bytes in the buffer. */
  function Run(events: seq<Event>): RunResult {
    if events == [] then RunResult(IDLE, [], [], false)
    else
      var before, e := Run(events[..|events| - 1]), events[|events| - 1];
      var r := Step(before.asm, e.frame, e.answer);
      RunResult(r.asm,
                before.deliveries + (if r.message.Some? then [Delivery(r.message.value, e.answer)] else []),
                before.kept + (if Keeps(e.frame, r.action) then [e.frame] else []),
                if e.frame.Unfragmented() then before.spoilt else r.message.Some? && r.action == THROW)
  }

  predicate Keeps(f: Frame, action: Action) { !f.Unfragmented() && action != ABORT && action != THROW }

  function Payloads(frames: seq<Frame>): seq<int> {
    if frames == [] then [] else Payloads(frames[..|frames| - 1]) + frames[|frames| - 1].payload
  }

  /** Fragments of a message in progress: BEGIN on the first only, END on none, offsets that chain. */
  predicate OpenRun(frames: seq<Frame>) {
    && frames != [] && frames[0].begin
    && (forall i :: 0 <= i < |frames| ==> !frames[i].end && (i > 0 ==> !frames[i].begin))
    && forall i, j :: 0 <= i && j == i + 1 < |frames| ==> frames[j].offset == frames[i].NextOffset()
  }

  /** A run closed by a fragment with END. */
  predicate CompleteRun(frames: seq<Frame>) {
    && |frames| > 1 && OpenRun(frames[..|frames| - 1])
    && var last := frames[|frames| - 1];
       !last.begin && last.end && last.offset == frames[|frames| - 2].NextOffset()
  }

  /** Streams in which every term offset is one, fragment payloads fit a frame, and the fragment after one on which the
      delegate threw is another one. */
  predicate Sane(events: seq<Event>) {
    events == [] ||
    (Sane(events[..|events| - 1]) && SaneFrame(Run(events[..|events| - 1]), events[|events| - 1].frame))
  }

  predicate SaneFrame(r: RunResult, f: Frame) {
    && f.offset >= 0 && f.length >= 0 && |f.payload| <= MAX_CAPACITY
    && (r.spoilt ==> f.begin || f.offset != r.asm.next)
  }

  /** Where the run in progress starts among the kept fragments. */
  ghost predicate RunFrom(r: RunResult, j: nat) {
    && j < |r.kept| && OpenRun(r.kept[j..]) && r.asm.next == r.kept[|r.kept| - 1].NextOffset()
    && (!r.spoilt ==> r.asm.bytes == Payloads(r.kept[j..]))
  }

  lemma OpenRunGrows(kept: seq<Frame>, j: nat, f: Frame)
    requires j < |kept| && OpenRun(kept[j..]) && !f.begin && f.offset == kept[|kept| - 1].NextOffset()
    ensures (kept + [f])[j..] == kept[j..] + [f]
    ensures Payloads((kept + [f])[j..]) == Payloads(kept[j..]) + f.payload
    ensures if f.end then CompleteRun((kept + [f])[j..]) else OpenRun((kept + [f])[j..])
  {
    var run := kept[j..] + [f];
    assert (kept + [f])[j..] == run;
    assert run[..|run| - 1] == kept[j..];
  }

  lemma OpenRunShrinks(kept: seq<Frame>, f: Frame, j: nat)
    requires j <= |kept| && (OpenRun((kept + [f])[j..]) || CompleteRun((kept + [f])[j..]))
    ensures j == |kept| ==> f.begin && !f.end
    ensures j < |kept| ==> OpenRun(kept[j..]) && !f.begin && f.offset == kept[|kept| - 1].NextOffset()
    ensures j < |kept| ==> (f.end <==> CompleteRun((kept + [f])[j..])) && (!f.end <==> OpenRun((kept + [f])[j..]))
    ensures (kept + [f])[j..] == kept[j..] + [f]
  {
    var run := kept[j..] + [f];
    assert (kept + [f])[j..] == run;
    assert run[..|run| - 1] == kept[j..];
    assert run[|run| - 1] == f;
    if j < |kept| {
      assert run[|run| - 2] == kept[|kept| - 1];
      assert forall i :: 0 <= i < |kept| - j ==> kept[j..][i] == run[i];
    }
  }

  lemma SingleRun(kept: seq<Frame>, f: Frame)
    ensures (kept + [f])[|kept|..] == [f] && Payloads([f]) == f.payload
    ensures OpenRun([f]) <==> f.begin && !f.end
  {
    assert [f][..0] == [];
  }

  /** The assembler holds something exactly when the kept fragments end in an open run, and then it holds that run;
      there is at most one. */
  ghost predicate HoldsRun(r: RunResult) {
    && (r.asm.next == NULL_VALUE ==> r.asm == IDLE && !r.spoilt)
    && (r.asm.next != NULL_VALUE ==> r.asm.next >= 0 && exists j: nat :: RunFrom(r, j))
    && forall j: nat :: j < |r.kept| && OpenRun(r.kept[j..]) ==> RunFrom(r, j)
  }

  lemma {:induction false} StateIsRun(events: seq<Event>)
    requires Sane(events)
    ensures HoldsRun(Run(events))
    decreases |events|
  {
    if events != [] {
      hide HoldsRun, SaneFrame, Step;
      var before, e := Run(events[..|events| - 1]), events[|events| - 1];
      StateIsRun(events[..|events| - 1]);
      if Keeps(e.frame, Step(before.asm, e.frame, e.answer).action) {
        KeptStep(before, e, Run(events));
      } else {
        UnkeptStep(before, e, Run(events));
      }
    } else {
      assert HoldsRun(Run([]));
    }
  }

  lemma UnkeptStep(before: RunResult, e: Event, after: RunResult)
    requires SaneFrame(before, e.frame) && HoldsRun(before)
             && !Keeps(e.frame, Step(before.asm, e.frame, e.answer).action)
    requires var r := Step(before.asm, e.frame, e.answer);
             && after.asm == r.asm && after.kept == before.kept
             && after.spoilt == if e.frame.Unfragmented() then before.spoilt else r.message.Some? && r.action == THROW
    ensures HoldsRun(after)
  {
    assert after.asm.next == before.asm.next;
    forall j: nat | RunFrom(before, j)
      ensures RunFrom(after, j)
    {
    }
  }

  lemma KeptStep(before: RunResult, e: Event, after: RunResult)
    requires SaneFrame(before, e.frame) && HoldsRun(before)
             && Keeps(e.frame, Step(before.asm, e.frame, e.answer).action)
    requires after.asm == Step(before.asm, e.frame, e.answer).asm && after.kept == before.kept + [e.frame]
             && !after.spoilt
    ensures HoldsRun(after)
  {
    hide OpenRun, CompleteRun, Payloads;
    var kept, f := before.kept, e.frame;
    SingleRun(kept, f);
    forall j: nat | j < |after.kept| && OpenRun(after.kept[j..])
      ensures RunFrom(after, j)
    {
      OpenRunShrinks(kept, f, j);
      if j < |kept| {
        RunExtended(before, j, f, after);
      }
    }
    if f.begin {
      assert RunFrom(after, |kept|);
    } else if after.asm.next != NULL_VALUE {
      var j: nat :| RunFrom(before, j);
      RunExtended(before, j, f, after);
    }
  }

  lemma RunExtended(before: RunResult, j: nat, f: Frame, after: RunResult)
    requires RunFrom(before, j) && !before.spoilt && !f.begin && !f.end && f.offset == before.asm.next
    requires after.asm == Asm(f.NextOffset(), before.asm.bytes + f.payload) && after.kept == before.kept + [f]
    ensures RunFrom(after, j)
  {
    hide OpenRun, CompleteRun, Payloads;
    OpenRunGrows(before.kept, j, f);
  }

  /** Loss safety, both ways: a fragment makes the assembler hand over a message exactly when it closes a run of kept
      fragments that starts with BEGIN and whose offsets chain (and fits the maximum capacity), and the message is
      then the payload of that run, delegates that abort or throw on the way included. */
  lemma AssembledIsCompleteRun(events: seq<Event>, f: Frame)
    requires Sane(events) && SaneFrame(Run(events), f) && !f.Unfragmented()
    ensures var r := Run(events);
            && (Message(r.asm, f).Some? <==>
                  exists j: nat :: j < |r.kept| && CompleteRun((r.kept + [f])[j..])
                                   && |Payloads((r.kept + [f])[j..])| <= MAX_CAPACITY)
            && forall j: nat :: j < |r.kept| && CompleteRun((r.kept + [f])[j..]) && Message(r.asm, f).Some? ==>
                 Message(r.asm, f).value == Payloads((r.kept + [f])[j..])
  {
    hide OpenRun, CompleteRun, Payloads, Run;
    StateIsRun(events);
    var r := Run(events);
    forall j: nat | j < |r.kept| && CompleteRun((r.kept + [f])[j..])
      ensures Payloads((r.kept + [f])[j..]) == r.asm.bytes + f.payload
      ensures !f.begin && f.end && f.offset == r.asm.next
    {
      OpenRunShrinks(r.kept, f, j);
      assert RunFrom(r, j);
      OpenRunGrows(r.kept, j, f);
    }
    if Message(r.asm, f).Some? {
      var j: nat :| RunFrom(r, j);
      OpenRunGrows(r.kept, j, f);
    }
  }

  /** After a break nothing is assembled until the next BEGIN fragment. */
  lemma {:induction false} NothingUntilBegin(a: Asm, events: seq<Event>, f: Frame)
    requires a == IDLE && f.offset >= 0 && !f.Unfragmented() && !f.begin
    requires forall i :: 0 <= i < |events| ==>
             events[i].frame.offset >= 0 && (events[i].frame.begin ==> events[i].frame.end)
    ensures Message(RunFromState(a, events), f) == None && RunFromState(a, events) == IDLE
    decreases |events|
  {
    if events != [] {
      NothingUntilBegin(a, events[..|events| - 1], f);
    }
  }

  function RunFromState(a: Asm, events: seq<Event>): Asm {
    if events == [] then a
    else Step(RunFromState(a, events[..|events| - 1]), events[|events| - 1].frame, events[|events| - 1].answer).asm
  }

  /** Only offsets are compared, so fragments of different messages can still be put together: two terms in which
      everything between was lost. */
  lemma TermIdIsNotCompared()
    ensures var first := Frame(0, 64, true, false, false, 1, 1, 7, seq(32, i => 1));
            var last := Frame(64, 64, false, true, false, 1, 1, 8, seq(32, i => 2));
            Run([Event(first, CONTINUE), Event(last, CONTINUE)]).deliveries
              == [Delivery(first.payload + last.payload, CONTINUE)]
  {
    var first := Frame(0, 64, true, false, false, 1, 1, 7, seq(32, i => 1));
    var last := Frame(64, 64, false, true, false, 1, 1, 8, seq(32, i => 2));
    var events := [Event(first, CONTINUE), Event(last, CONTINUE)];
    assert events[..1] == [events[0]] && [events[0]][..0] == [];
    assert Run(events[..1]) == RunResult(Asm(64, first.payload), [], [first], false);
  }
}
