/**
 From published frames to delivered messages: what an assembler makes of a stream of frames, and what a reader that
 may abort, break, commit, continue or throw has handed over after consuming part of it.
 */
module Deliveries {
  import opened Framing
  import opened Sequences
  import opened BufferBuilders
  import opened Images
  import opened Assembly

  /** The assembler on a stream that is never aborted: its state and the messages it delivers; padding is skipped. */
  function Deliver(a: Asm, frames: seq<Frame>): (Asm, seq<seq<int>>)
    decreases |frames|
  {
    if frames == [] then (a, [])
    else
      var (before, messages) := Deliver(a, frames[..|frames| - 1]);
      var f := frames[|frames| - 1];
      if f.pad then (before, messages)
      else
        var r := Step(before, f, CONTINUE);
        (r.asm, if r.message.Some? then messages + [r.message.value] else messages)
  }

  lemma DeliverOne(a: Asm, frames: seq<Frame>, f: Frame)
    ensures Deliver(a, frames + [f]) ==
              var (before, messages) := Deliver(a, frames);
              if f.pad then (before, messages)
              else
                var r := Step(before, f, CONTINUE);
                (r.asm, if r.message.Some? then messages + [r.message.value] else messages)
  {
    assert (frames + [f])[..|frames + [f]| - 1] == frames;
  }

  lemma {:induction false} DeliverAppend(a: Asm, x: seq<Frame>, y: seq<Frame>)
    ensures Deliver(a, x + y).0 == Deliver(Deliver(a, x).0, y).0
    ensures Deliver(a, x + y).1 == Deliver(a, x).1 + Deliver(Deliver(a, x).0, y).1
    decreases |y|
  {
    if y == [] {
      assert x + y == x;
    } else {
      var y', f := y[..|y| - 1], y[|y| - 1];
      DeliverAppend(a, x, y');
      Associate(x, y', [f]);
      assert y == y' + [f];
      DeliverOne(a, x + y', f);
      DeliverOne(Deliver(a, x).0, y', f);
    }
  }

  /** What was delivered from the front of a stream is a prefix of what the whole stream delivers. */
  lemma DeliveredPrefix(a: Asm, frames: seq<Frame>, k: nat)
    requires k <= |frames|
    ensures Deliver(a, frames[..k]).1 <= Deliver(a, frames).1
  {
    DeliverAppend(a, frames[..k], frames[k..]);
    assert frames == frames[..k] + frames[k..];
  }

  lemma LastFragmentDelivers(a: Asm, from: Origin, offset: nat, data: seq<int>, first: bool, sofar: seq<int>)
    requires |sofar| + |data| <= MAX_CAPACITY && if first then sofar == [] else a == Asm(offset, sofar)
    ensures var fs := [DataFrame(from, offset, data, first, true)];
            Deliver(a, fs).1 == [sofar + data] && Legal(fs, !first) && !EndsOpen(fs, !first)
  {
    var f := DataFrame(from, offset, data, first, true);
    DeliverOne(a, [], f);
    DeliverNothing(a);
    assert [] + [f] == [f] && [f][1..] == [];
    assert first ==> sofar + data == data;
  }

  /** The fragments of one message, read from any assembler state, deliver that message and nothing else. */
  lemma {:induction false} FragmentsDeliver(a: Asm, maxPayload: nat, from: Origin, offset: nat, data: seq<int>,
                                            first: bool, sofar: seq<int>)
    requires 0 < maxPayload && offset % FRAME_ALIGNMENT == 0 && |sofar| + |data| <= MAX_CAPACITY
    requires first ==> sofar == []
    requires !first ==> a == Asm(offset, sofar)
    ensures var fs := Fragments(maxPayload, from, offset, data, first);
            && Deliver(a, fs).1 == [sofar + data]
            && Legal(fs, !first) && !EndsOpen(fs, !first)
    decreases |data|
  {
    if |data| <= maxPayload {
      assert Fragments(maxPayload, from, offset, data, first) == [DataFrame(from, offset, data, first, true)];
      LastFragmentDelivers(a, from, offset, data, first, sofar);
    } else {
      hide Fragments, Deliver;
      var f, next := DataFrame(from, offset, data[..maxPayload], first, false),
          offset + Align(maxPayload + HEADER_LENGTH);
      var more := Fragments(maxPayload, from, next, data[maxPayload..], false);
      FirstFragment(maxPayload, from, offset, data, first);
      DeliverOne(a, [], f);
      DeliverNothing(a);
      assert [] + [f] == [f];
      assert (sofar + data[..maxPayload]) + data[maxPayload..] == sofar + data;
      FragmentsDeliver(Asm(next, sofar + data[..maxPayload]), maxPayload, from, next, data[maxPayload..], false,
                       sofar + data[..maxPayload]);
      DeliverAppend(a, [f], more);
      assert ([f] + more)[1..] == more;
      FullFragmentStep(a, f, next, sofar, first);
    }
  }

  lemma DeliverNothing(a: Asm)
    ensures Deliver(a, []) == (a, [])
  {
  }

  lemma FullFragmentStep(a: Asm, f: Frame, next: int, sofar: seq<int>, first: bool)
    requires !f.pad && f.begin == first && !f.end && f.offset >= 0 && f.NextOffset() == next
    requires |sofar| + |f.payload| <= MAX_CAPACITY
    requires if first then sofar == [] else a == Asm(f.offset, sofar)
    ensures Step(a, f, CONTINUE) == StepResult(Asm(next, sofar + f.payload), None, CONTINUE)
  {
  }

  lemma FirstFragment(maxPayload: nat, from: Origin, offset: nat, data: seq<int>, first: bool)
    requires 0 < maxPayload < |data|
    requires offset % FRAME_ALIGNMENT == 0
    ensures var f, next := DataFrame(from, offset, data[..maxPayload], first, false),
            offset + Align(maxPayload + HEADER_LENGTH);
            && Fragments(maxPayload, from, offset, data, first)
               == [f] + Fragments(maxPayload, from, next, data[maxPayload..], false)
            && f.NextOffset() == next && next % FRAME_ALIGNMENT == 0
  {
  }

  /** Legal streams put one behind the other. */
  lemma {:induction false} LegalAppend(x: seq<Frame>, y: seq<Frame>, open: bool)
    requires Legal(x, open) && Legal(y, EndsOpen(x, open))
    ensures Legal(x + y, open) && EndsOpen(x + y, open) == EndsOpen(y, EndsOpen(x, open))
  {
    if x == [] {
      assert x + y == y;
    } else {
      LegalAppend(x[1..], y, !x[0].pad && !x[0].end);
      assert (x + y)[1..] == x[1..] + y;
    }
  }

  lemma {:induction false} LegalSplit(frames: seq<Frame>, k: nat, open: bool)
    requires Legal(frames, open) && k <= |frames|
    ensures Legal(frames[..k], open) && Legal(frames[k..], EndsOpen(frames[..k], open))
    ensures EndsOpen(frames, open) == EndsOpen(frames[k..], EndsOpen(frames[..k], open))
  {
    if k > 0 {
      LegalSplit(frames[1..], k - 1, !frames[0].pad && !frames[0].end);
      assert frames[..k][1..] == frames[1..][..k - 1];
      assert frames[1..][k - 1..] == frames[k..];
    }
  }

  /** A legal stream that starts between messages delivers the same whatever the assembler held before. */
  lemma {:induction false} LegalDelivers(a: Asm, b: Asm, frames: seq<Frame>)
    requires Legal(frames, false)
    ensures Deliver(a, frames).1 == Deliver(b, frames).1
    ensures EndsOpen(frames, false) ==> Deliver(a, frames).0 == Deliver(b, frames).0
    decreases |frames|
  {
    if frames != [] {
      hide Deliver, EndsOpen;
      var front, f := frames[..|frames| - 1], frames[|frames| - 1];
      LegalSplit(frames, |frames| - 1, false);
      assert frames[|frames| - 1..] == [f] && frames == front + [f];
      LegalDelivers(a, b, front);
      DeliverOne(a, front, f);
      DeliverOne(b, front, f);
      EndsOpenOne(front, f, false);
    } else {
      EmptyEndsClosed();
    }
  }

  lemma EmptyEndsClosed()
    ensures !EndsOpen([], false)
  {
  }

  /** A subscriber: its assembler and the calls of its delegate so far. */
  datatype Reader = Reader(asm: Asm, calls: seq<Delivery>)

  /** What a delegate answers to its n-th call with a message. */
  type Delegate = (nat, seq<int>) -> Action

  /** The assembler as a poll handler. */
  function ReaderStep(delegate: Delegate, r: Reader, f: Frame): (Reader, Action) {
    var m := Message(r.asm, f);
    var answer := if m.Some? then delegate(|r.calls|, m.value) else CONTINUE;
    var step := Step(r.asm, f, answer);
    (Reader(step.asm, if m.Some? then r.calls + [Delivery(m.value, answer)] else r.calls), step.action)
  }

  function HandlerOf(delegate: Delegate): Handler<Reader> {
    (r: Reader, f: Frame) => ReaderStep(delegate, r, f)
  }

  /** The messages whose call was not answered ABORT. */
  function Settled(calls: seq<Delivery>): seq<seq<int>> {
    if calls == [] then []
    else Settled(calls[..|calls| - 1]) + if calls[|calls| - 1].answer == ABORT then [] else [calls[|calls| - 1].message]
  }

  /** A reader that has consumed the frames: what it settled is what they deliver, and inside a message it holds the
      part it has read. Between messages its assembler may hold anything. */
  ghost predicate CaughtUp(r: Reader, consumed: seq<Frame>) {
    && Settled(r.calls) == Deliver(IDLE, consumed).1
    && (EndsOpen(consumed, false) ==> r.asm == Deliver(IDLE, consumed).0)
  }

  /** One call of the handler: an answer other than ABORT settles the frame, ABORT leaves everything to be redone. */
  lemma ReaderStepCatchesUp(delegate: Delegate, r: Reader, consumed: seq<Frame>, f: Frame)
    requires CaughtUp(r, consumed) && !f.pad && f.begin == !EndsOpen(consumed, false)
    ensures var (r', action) := ReaderStep(delegate, r, f);
            CaughtUp(r', if action == ABORT then consumed else consumed + [f])
  {
    hide Deliver;
    var (r', action) := ReaderStep(delegate, r, f);
    var m := Message(r.asm, f);
    if m.Some? {
      var answer := delegate(|r.calls|, m.value);
      assert (r.calls + [Delivery(m.value, answer)])[..|r.calls|] == r.calls;
    }
    DeliverOne(IDLE, consumed, f);
    EndsOpenOne(consumed, f, false);
  }

  lemma {:induction false} EndsOpenOne(frames: seq<Frame>, f: Frame, open: bool)
    ensures EndsOpen(frames + [f], open) == (!f.pad && !f.end)
  {
    if frames == [] {
      assert frames + [f] == [f] && [f][1..] == [];
    } else {
      EndsOpenOne(frames[1..], f, !frames[0].pad && !frames[0].end);
      assert (frames + [f])[1..] == frames[1..] + [f];
    }
  }

  /** A whole poll, under every schedule of answers and limits, leaves the reader caught up with what it consumed. */
  lemma {:induction false} PollCatchesUp(delegate: Delegate, r: Reader, consumed: seq<Frame>, frames: seq<Frame>,
                                         limitOffset: int, limit: int)
    requires CaughtUp(r, consumed) && Legal(frames, EndsOpen(consumed, false))
    ensures var scan := Poll(HandlerOf(delegate), r, frames, limitOffset, limit);
            CaughtUp(scan.state, consumed + frames[..scan.consumed])
    decreases |frames|
  {
    hide CaughtUp, Deliver;
    var h := HandlerOf(delegate);
    var scan := Poll(h, r, frames, limitOffset, limit);
    if frames == [] || limit <= 0 || frames[0].offset >= limitOffset {
      assert consumed + frames[..0] == consumed;
    } else {
      var f := frames[0];
      EndsOpenOne(consumed, f, false);
      assert scan.consumed > 0 ==>
             (consumed + [f]) + frames[1..][..scan.consumed - 1] == consumed + frames[..scan.consumed];
      if f.pad {
        PaddingCatchesUp(r, consumed, f);
        PollCatchesUp(delegate, r, consumed + [f], frames[1..], limitOffset, limit);
      } else {
        ReaderStepCatchesUp(delegate, r, consumed, f);
        var (r', action) := h(r, f);
        if Continues(action) {
          PollCatchesUp(delegate, r', consumed + [f], frames[1..], limitOffset, limit - 1);
        } else if action == ABORT {
          assert consumed + frames[..0] == consumed;
        } else {
          assert (consumed + [f]) + frames[1..][..0] == consumed + [f];
        }
      }
    }
  }

  lemma PaddingCatchesUp(r: Reader, consumed: seq<Frame>, f: Frame)
    requires CaughtUp(r, consumed) && f.pad
    ensures CaughtUp(r, consumed + [f])
  {
    DeliverOne(IDLE, consumed, f);
    EndsOpenOne(consumed, f, false);
  }

  /** Every call, aborted or not, carried the first message not yet settled. */
  predicate Faithful(calls: seq<Delivery>, messages: seq<seq<int>>) {
    forall i :: 0 <= i < |calls| ==> Settled(calls[..i]) + [calls[i].message] <= messages
  }

  lemma FaithfulToMore(calls: seq<Delivery>, messages: seq<seq<int>>, more: seq<seq<int>>)
    requires Faithful(calls, messages) && messages <= more
    ensures Faithful(calls, more)
  {
    hide Settled;
  }

  lemma FaithfulOne(calls: seq<Delivery>, d: Delivery, messages: seq<seq<int>>)
    requires Faithful(calls, messages) && Settled(calls) + [d.message] <= messages
    ensures Faithful(calls + [d], messages)
  {
    hide Settled;
    forall i | 0 <= i < |calls + [d]|
      ensures Settled((calls + [d])[..i]) + [(calls + [d])[i].message] <= messages
    {
      if i == |calls| {
        assert (calls + [d])[..i] == calls;
      } else {
        assert (calls + [d])[..i] == calls[..i];
      }
    }
  }

  lemma ReaderStepFaithful(delegate: Delegate, r: Reader, consumed: seq<Frame>, f: Frame, messages: seq<seq<int>>)
    requires CaughtUp(r, consumed) && !f.pad && f.begin == !EndsOpen(consumed, false)
    requires Faithful(r.calls, messages) && Deliver(IDLE, consumed + [f]).1 <= messages
    ensures Faithful(ReaderStep(delegate, r, f).0.calls, messages)
  {
    hide Deliver, Settled, Faithful;
    var m := Message(r.asm, f);
    if m.Some? {
      DeliverOne(IDLE, consumed, f);
      FaithfulOne(r.calls, Delivery(m.value, delegate(|r.calls|, m.value)), messages);
    }
  }

  lemma {:induction false} PollFaithful(delegate: Delegate, r: Reader, consumed: seq<Frame>, frames: seq<Frame>,
                                        limitOffset: int, limit: int, messages: seq<seq<int>>)
    requires CaughtUp(r, consumed) && Legal(frames, EndsOpen(consumed, false))
    requires Faithful(r.calls, messages) && Deliver(IDLE, consumed + frames).1 <= messages
    ensures Faithful(Poll(HandlerOf(delegate), r, frames, limitOffset, limit).state.calls, messages)
    decreases |frames|
  {
    hide CaughtUp, Deliver, Faithful;
    if frames != [] && limit > 0 && frames[0].offset < limitOffset {
      var f := frames[0];
      EndsOpenOne(consumed, f, false);
      assert consumed + frames == (consumed + [f]) + frames[1..];
      if f.pad {
        PaddingCatchesUp(r, consumed, f);
        PollFaithful(delegate, r, consumed + [f], frames[1..], limitOffset, limit, messages);
      } else {
        DeliveredPrefix(IDLE, consumed + frames, |consumed| + 1);
        assert (consumed + frames)[..|consumed| + 1] == consumed + [f];
        ReaderStepFaithful(delegate, r, consumed, f, messages);
        ReaderStepCatchesUp(delegate, r, consumed, f);
        var (r', action) := HandlerOf(delegate)(r, f);
        if Continues(action) {
          PollFaithful(delegate, r', consumed + [f], frames[1..], limitOffset, limit - 1, messages);
        }
      }
    }
  }
}
