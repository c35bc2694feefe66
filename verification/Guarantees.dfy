/**
 What every run of the publication and its subscriber guarantees: in order, once, nothing lost up to the last term,
 and progress; and exactly when a message accepted after MAX_POSITION_EXCEEDED is lost.
 */
module Guarantees {
  import opened Framing
  import opened TermBuffer
  import opened Images
  import opened Assembly
  import opened Deliveries
  import opened ExclusivePublications
  import opened EndToEnd

  /** A run: the states one step after the other, from the start. */
  ghost predicate IsRun(cfg: Settings, states: seq<System>, steps: seq<Step>) {
    && cfg.Valid() && |states| == |steps| + 1 && states[0] == Start()
    && forall i, j :: 0 <= i < |steps| && j == i + 1 ==> Goes(cfg, states[i], steps[i], states[j])
  }

  ghost predicate Goes(cfg: Settings, s: System, step: Step, s': System)
    requires cfg.Valid()
  {
    s.pub.Valid() && s.terms != [] && Enabled(cfg, s, step) && s' == After(cfg, s, step)
  }

  lemma {:induction false} RunKeeps(cfg: Settings, states: seq<System>, steps: seq<Step>, k: nat)
    requires IsRun(cfg, states, steps) && k < |states|
    ensures Inv(cfg, states[k])
  {
    hide Inv, After, Enabled;
    if k == 0 {
      StartInv(cfg);
    } else {
      RunKeeps(cfg, states, steps, k - 1);
      assert Goes(cfg, states[k - 1], steps[k - 1], states[k]);
      StepKeeps(cfg, states[k - 1], steps[k - 1]);
    }
  }

  /** In every run, whatever the limits and the answers: the messages settled are a prefix of those accepted, each
      call carried the first one not yet settled, and a subscriber that has reached the publication has them all. */
  lemma DeliveredInOrderOnce(cfg: Settings, states: seq<System>, steps: seq<Step>, k: nat)
    requires IsRun(cfg, states, steps) && k < |states|
    ensures var s := states[k];
            && Settled(s.reader.calls) <= s.accepted
            && Faithful(s.reader.calls, s.accepted)
            && (s.position >= s.pub.Position(cfg) ==> Settled(s.reader.calls) == s.accepted)
  {
    RunKeeps(cfg, states, steps, k);
    SettledPrefix(cfg, states[k]);
    if states[k].position >= states[k].pub.Position(cfg) {
      AtTheEnd(cfg, states[k]);
    }
  }

  lemma SettledPrefix(cfg: Settings, s: System)
    requires Inv(cfg, s)
    ensures Settled(s.reader.calls) <= s.accepted
  {
    hide Deliver, Settled, Legal, EndsOpen, Flatten, Published, Consumed;
    ConsumedIsPrefix(s);
    DeliveredPrefix(IDLE, Published(s), |Consumed(s)|);
    assert Published(s)[..|Consumed(s)|] == Consumed(s);
  }

  /** At the position of the publication or beyond there is nothing left to read but padding. */
  lemma AtTheEnd(cfg: Settings, s: System)
    requires Inv(cfg, s) && s.position >= s.pub.Position(cfg)
    ensures Settled(s.reader.calls) == s.accepted
  {
    hide Deliver, Settled, Legal, EndsOpen, Flatten, Published, Consumed, BufferInv, Faithful;
    ConsumedIsPrefix(s);
    TermOfPosition(cfg, s);
    if s.term == |s.terms| {
      assert Published(s) == Consumed(s);
    } else {
      var rest := s.terms[s.term][s.index..];
      assert s.term == s.pub.count;
      assert s.terms[s.term + 1..] == [];
      FlattenNothing();
      assert Published(s) == Consumed(s) + rest;
      DeliverAppend(IDLE, Consumed(s), rest);
      LastIsPadding(cfg, s);
      PaddingDelivers(Deliver(IDLE, Consumed(s)).0, rest);
    }
  }

  lemma FlattenNothing()
    ensures Flatten([]) == []
  {
  }

  lemma PaddingDelivers(a: Asm, rest: seq<Frame>)
    requires rest == [] || (|rest| == 1 && rest[0].pad)
    ensures Deliver(a, rest).1 == []
  {
    if rest != [] {
      assert rest[..0] == [];
    }
  }

  lemma LastIsPadding(cfg: Settings, s: System)
    requires Inv(cfg, s) && s.term == s.pub.count && ReadOffset(s) >= s.pub.offset
    ensures var rest := s.terms[s.term][s.index..];
            rest == [] || (|rest| == 1 && rest[0].pad)
  {
    hide Deliver, Settled, Legal, EndsOpen, Flatten, Published, Consumed, BufferInv, Faithful, Tiles, EndOf;
    var frames := s.terms[s.term];
    TermEnds(cfg, s, s.term);
    if !s.pub.sealed {
      EndIsEnd(frames, s.index, 0);
    } else {
      assert frames[..|frames| - 1] == s.pub.Committed();
      if s.index < |frames| - 1 {
        TilesSplit(frames, |frames| - 1, 0);
        assert frames[..|frames| - 1][..s.index] == frames[..s.index];
        EndIsEnd(frames[..|frames| - 1], s.index, 0);
      }
    }
  }

  /** An offer of the run that was accepted, with the position it returned. */
  ghost predicate AcceptedAt(cfg: Settings, s: System, step: Step, position: int)
    requires cfg.Valid() && s.pub.Valid()
  {
    step.OfferStep? &&
    Offered(cfg, s.pub, step.closed, step.limit, step.connected, step.message).1
      == ExclusivePublications.Accepted(position)
  }

  /** No offer takes the publication back, and an accepted one returns the position after it, further on. */
  lemma OfferedAdvances(cfg: Settings, pub: State, closed: bool, limit: int, connected: bool, message: seq<int>)
    requires cfg.Valid() && pub.Valid() && pub.offset <= cfg.termLength
    ensures var (after, outcome) := Offered(cfg, pub, closed, limit, connected, message);
            && after.Position(cfg) >= pub.Position(cfg)
            && (outcome.Accepted? ==> outcome.position == after.Position(cfg) > pub.Position(cfg))
  {
    hide Required, FramesOf, State.Committed, PadFrame;
    RequiredIsSpan(cfg, pub.count, pub.offset, message);
    MulStep(pub.count, cfg.termLength);
  }

  lemma StepAdvances(cfg: Settings, s: System, step: Step)
    requires Inv(cfg, s) && s.pub.Valid() && s.terms != [] && Enabled(cfg, s, step)
    ensures After(cfg, s, step).pub.Position(cfg) >= s.pub.Position(cfg)
    ensures forall position :: AcceptedAt(cfg, s, step, position) ==>
              position == After(cfg, s, step).pub.Position(cfg) > s.pub.Position(cfg)
  {
    PublisherFacts(cfg, s);
    hide Inv, Offered, Poll;
    if step.OfferStep? {
      OfferedAdvances(cfg, s.pub, step.closed, step.limit, step.connected, step.message);
    }
  }

  lemma {:induction false} PositionNeverFalls(cfg: Settings, states: seq<System>, steps: seq<Step>, i: nat, j: nat)
    requires IsRun(cfg, states, steps) && i <= j < |states|
    ensures states[i].pub.Position(cfg) <= states[j].pub.Position(cfg)
    decreases j - i
  {
    hide Inv, After, Enabled, AcceptedAt, State.Position;
    if i < j {
      PositionNeverFalls(cfg, states, steps, i, j - 1);
      RunKeeps(cfg, states, steps, j - 1);
      assert Goes(cfg, states[j - 1], steps[j - 1], states[j]);
      StepAdvances(cfg, states[j - 1], steps[j - 1]);
    }
  }

  /** The positions returned by successful offers strictly increase along every run. */
  lemma PositionsIncrease(cfg: Settings, states: seq<System>, steps: seq<Step>, i: nat, j: nat, p: int, q: int)
    requires IsRun(cfg, states, steps) && i < j < |steps|
    requires Goes(cfg, states[i], steps[i], states[i + 1]) && Goes(cfg, states[j], steps[j], states[j + 1])
    requires AcceptedAt(cfg, states[i], steps[i], p) && AcceptedAt(cfg, states[j], steps[j], q)
    ensures p < q
  {
    hide Inv, After, Enabled, AcceptedAt, State.Position;
    RunKeeps(cfg, states, steps, i);
    RunKeeps(cfg, states, steps, j);
    StepAdvances(cfg, states[i], steps[i]);
    StepAdvances(cfg, states[j], steps[j]);
    PositionNeverFalls(cfg, states, steps, i + 1, j);
  }

  /** A delegate that never aborts. */
  ghost predicate Patient(delegate: Delegate) {
    forall n, m :: delegate(n, m) != ABORT
  }

  /** There is something to see while the subscriber is behind. */
  lemma BehindSeesFrames(cfg: Settings, s: System)
    requires Inv(cfg, s) && s.position < s.pub.Position(cfg)
    ensures s.term < |s.terms| && s.index < |s.terms[s.term]|
            && s.terms[s.term][s.index].offset == ReadOffset(s) < cfg.termLength
    ensures Visible(cfg, s.pub.parts, s.position) == s.terms[s.term][s.index..]
    ensures s.position >= 0 && s.position % cfg.termLength == ReadOffset(s)
  {
    hide Faithful, Deliver, Legal, EndsOpen, Flatten, Published, Consumed, BufferInv, CaughtUp, EndOf, From;
    VisibleFrames(cfg, s);
    TermOfPosition(cfg, s);
    if s.term == |s.terms| {
      MulStep(s.pub.count, cfg.termLength);
    } else {
      var frames := s.terms[s.term];
      TermEnds(cfg, s, s.term);
      TilesSplit(frames, s.index, 0);
      if s.index == |frames| {
        assert frames[..s.index] == frames;
        if s.term == s.pub.count && s.pub.sealed {
          SealedEnd(cfg, s);
        }
      }
    }
  }

  /** A poll with room for a frame gets the first one settled unless the delegate aborts. */
  lemma PollConsumes(delegate: Delegate, r: Reader, frames: seq<Frame>, limitOffset: int, limit: int)
    requires Patient(delegate) && frames != [] && frames[0].offset < limitOffset && limit > 0
    ensures Poll(HandlerOf(delegate), r, frames, limitOffset, limit).consumed > 0
  {
    var (r', action) := HandlerOf(delegate)(r, frames[0]);
    assert action != ABORT;
  }

  /** Where a poll ends. */
  lemma PollEndsAt(cfg: Settings, s: System, delegate: Delegate, limitPosition: int, fragmentLimit: int)
    requires cfg.Valid() && s.pub.Valid() && s.position < limitPosition
    ensures var frames, offset := Visible(cfg, s.pub.parts, s.position), s.position % cfg.termLength;
            var limitOffset := LimitOffset(cfg.termLength, s.position, limitPosition);
            var consumed := Poll(HandlerOf(delegate), s.reader, frames, limitOffset, fragmentLimit).consumed;
            AfterPoll(cfg, s, delegate, limitPosition, fragmentLimit).position
            == s.position - offset + TilesEnd(frames[..consumed], offset)
  {
    hide Poll, TilesEnd, Visible, LimitOffset;
  }

  /** A subscriber that is behind moves at every poll its delegate does not abort. */
  lemma PollMakesProgress(cfg: Settings, s: System, delegate: Delegate, limitPosition: int, fragmentLimit: int)
    requires Inv(cfg, s) && s.pub.Valid() && s.position < s.pub.Position(cfg)
    requires Patient(delegate) && s.position < limitPosition && fragmentLimit > 0
    ensures AfterPoll(cfg, s, delegate, limitPosition, fragmentLimit).position > s.position
  {
    BehindSeesFrames(cfg, s);
    TermTail(cfg, s);
    PollEndsAt(cfg, s, delegate, limitPosition, fragmentLimit);
    PollMovesOn(cfg, s.terms[s.term][s.index..], s.position, delegate, s.reader, limitPosition, fragmentLimit);
    hide Inv, Patient, Poll, EndOf, Tiles, TilesEnd, Visible, AfterPoll, LimitOffset;
  }

  lemma PollMovesOn(cfg: Settings, frames: seq<Frame>, position: int, delegate: Delegate, r: Reader,
                    limitPosition: int, fragmentLimit: int)
    requires cfg.Valid() && position < limitPosition && fragmentLimit > 0 && Patient(delegate)
    requires frames != [] && Tiles(frames, position % cfg.termLength)
    ensures var offset := position % cfg.termLength;
            var limitOffset := LimitOffset(cfg.termLength, position, limitPosition);
            TilesEnd(frames[..Poll(HandlerOf(delegate), r, frames, limitOffset, fragmentLimit).consumed],
                     offset) > offset
  {
    hide Poll, TilesEnd, Patient;
    var limitOffset := LimitOffset(cfg.termLength, position, limitPosition);
    PollConsumes(delegate, r, frames, limitOffset, fragmentLimit);
    SomethingTiled(frames, position % cfg.termLength,
                   Poll(HandlerOf(delegate), r, frames, limitOffset, fragmentLimit).consumed);
  }

  lemma TermTail(cfg: Settings, s: System)
    requires Inv(cfg, s) && s.term < |s.terms|
    ensures Tiles(s.terms[s.term][s.index..], ReadOffset(s))
  {
    hide Faithful, Deliver, Legal, EndsOpen, Flatten, Published, Consumed, BufferInv, CaughtUp, EndOf;
    TermEnds(cfg, s, s.term);
    TilesSplit(s.terms[s.term], s.index, 0);
  }

  lemma SomethingTiled(frames: seq<Frame>, offset: int, n: nat)
    requires Tiles(frames, offset) && 0 < n <= |frames|
    ensures TilesEnd(frames[..n], offset) > offset
  {
    TilesOrdered(frames, offset, 0, n - 1);
  }

  /** From a frame boundary on, a term that shows frames is read as the rest of them. */
  lemma ShowsFrom(cells: seq<int>, frames: seq<Frame>, k: nat)
    requires Shows(cells, frames) && k <= |frames|
    ensures Readable(cells, TilesEnd(frames[..k], 0), frames[k..])
  {
    hide Decode, FrameAt;
    TilesSplit(frames, k, 0);
    if frames != [] {
      TilesWithin(frames, 0, 0);
    }
  }

  /** The two halves meet in memory: where the publication object shows its frames, an image at the subscriber
      position sees exactly what the poll of the system is given. */
  lemma MemoryIsVisible(cfg: Settings, s: System, cells: seq<int>)
    requires Inv(cfg, s) && |cells| == cfg.termLength && Shows(cells, s.pub.parts[s.term % 3])
    ensures Readable(cells, s.position % cfg.termLength, Visible(cfg, s.pub.parts, s.position))
  {
    VisibleFrames(cfg, s);
    ReadsItsTerm(cfg, s);
    hide Shows, Readable, PublisherInv, BufferInv, CaughtUp, Visible, TilesEnd;
    if s.term < |s.terms| {
      ShowsFrom(cells, s.terms[s.term], s.index);
    } else {
      NothingTiled(0);
      var nothing: seq<Frame> := [];
      assert nothing[..0] == [] && nothing[0..] == [];
      ShowsFrom(cells, [], 0);
    }
  }

  /** A subscriber at the end of the last term there can be. */
  ghost predicate BeyondLastTerm(cfg: Settings, s: System) {
    && cfg.Valid() && s.pub.Valid() && s.terms != [] && !Rotates(cfg, s.pub)
    && s.position == (s.pub.count + 1) * cfg.termLength && s.pub.parts[s.pub.Next()] == []
  }

  /** It never hears of anything again, whatever happens. */
  lemma NothingBeyondLastTerm(cfg: Settings, s: System, step: Step)
    requires BeyondLastTerm(cfg, s)
    ensures BeyondLastTerm(cfg, After(cfg, s, step)) && After(cfg, s, step).reader == s.reader
  {
    NextIndex(s.pub.count);
    DivUnique(s.position, cfg.termLength, s.pub.count + 1, 0);
    assert Visible(cfg, s.pub.parts, s.position) == [];
    hide Required, FramesOf, Align, Visible;
  }

  /** States one step after the other, from anywhere, whether the driver keeps its part or not. */
  ghost predicate Follows(cfg: Settings, states: seq<System>, steps: seq<Step>)
    requires cfg.Valid()
  {
    && |states| == |steps| + 1
    && forall i, j :: 0 <= i < |steps| && j == i + 1 ==>
         states[i].pub.Valid() && states[i].terms != [] && states[j] == After(cfg, states[i], steps[i])
  }

  lemma {:induction false} NeverHeard(cfg: Settings, states: seq<System>, steps: seq<Step>, k: nat)
    requires cfg.Valid() && Follows(cfg, states, steps) && k < |states| && BeyondLastTerm(cfg, states[0])
    ensures BeyondLastTerm(cfg, states[k]) && states[k].reader == states[0].reader
  {
    hide BeyondLastTerm, After;
    if k > 0 {
      NeverHeard(cfg, states, steps, k - 1);
      NothingBeyondLastTerm(cfg, states[k - 1], steps[k - 1]);
    }
  }

  /** Inside a sealed term a subscriber stands before the padding or at the end of the term. */
  lemma InsideSealed(cfg: Settings, s: System)
    requires cfg.Valid() && PublisherInv(cfg, s) && s.pub.Valid() && s.pub.sealed
    requires s.term == s.pub.count < |s.terms| && s.index <= |s.terms[s.term]|
    ensures ReadOffset(s) <= s.pub.offset || ReadOffset(s) == cfg.termLength
  {
    hide Deliver, Legal, EndsOpen, Published, EndOf, PadFrame;
    var last := s.terms[s.term];
    SealedEnd(cfg, s);
    if s.index < |last| {
      TilesSplit(last, |last| - 1, 0);
      NeverBack(s.pub.Committed(), s.index, 0);
      assert s.pub.Committed()[..s.index] == last[..s.index];
    } else {
      assert last[..s.index] == last;
    }
  }

  /** A subscriber that has passed the padding of a sealed term is beyond the last term. */
  lemma PastPadding(cfg: Settings, s: System)
    requires Inv(cfg, s) && s.pub.Valid() && s.terms != [] && s.pub.sealed && s.pub.parts[s.pub.Next()] == []
    requires s.position > s.pub.Position(cfg)
    ensures BeyondLastTerm(cfg, s)
  {
    RotatesUntilLast(cfg, s.pub);
    if s.term == s.pub.count {
      InsideSealed(cfg, s);
    }
    hide Faithful, Deliver, Legal, EndsOpen, Tiles, CaughtUp, Published, Consumed, BufferInv, EndOf, State.Committed,
         PadFrame, TilesEnd;
    MulStep(s.pub.count, cfg.termLength);
    TermOfPosition(cfg, s);
    assert s.term >= s.pub.count;
  }

  /** After MAX_POSITION_EXCEEDED behind padding, a message that is short enough is still accepted. It is written over
      the padding: a subscriber that has not passed the padding receives it like any other, one that has passed it
      never receives it, in any continuation of the run. */
  lemma SealedOfferLost(cfg: Settings, s: System, offer: Step, states: seq<System>, steps: seq<Step>, k: nat)
    requires Inv(cfg, s) && s.pub.Valid() && s.terms != [] && s.pub.sealed && s.pub.parts[s.pub.Next()] == []
    requires exists position :: AcceptedAt(cfg, s, offer, position)
    requires Follows(cfg, states, steps) && k < |states| && states[0] == After(cfg, s, offer)
    ensures s.position <= s.pub.Position(cfg) ==> Inv(cfg, states[0])
    ensures s.position > s.pub.Position(cfg) ==>
              && states[0].accepted == s.accepted + [offer.message]
              && Settled(states[k].reader.calls) == s.accepted
  {
    assert cfg.Valid();
    if s.position <= s.pub.Position(cfg) {
      hide Inv, After, Settled, Offered, Follows;
      StepKeeps(cfg, s, offer);
    } else {
      hide Inv, Settled, Offered, BeyondLastTerm, Follows;
      PastPadding(cfg, s);
      NothingBeyondLastTerm(cfg, s, offer);
      NeverHeard(cfg, states, steps, k);
      AtTheEnd(cfg, s);
    }
  }
}
