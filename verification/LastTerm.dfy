/**
 The state in which a message is accepted and lost is really reached: a run of the publication and its subscriber that
 fills term after term, up to the last one there can be.
 */
module LastTerm {
  import opened Framing
  import opened Images
  import opened Deliveries
  import opened ExclusivePublications
  import opened EndToEnd
  import opened Guarantees

  /** Enabled steps lead from one state to another. */
  ghost predicate Leads(cfg: Settings, s: System, steps: seq<Step>, last: System)
    requires cfg.Valid()
    decreases |steps|
  {
    if steps == [] then s == last
    else
      && s.pub.Valid() && s.terms != [] && Enabled(cfg, s, steps[0])
      && Leads(cfg, After(cfg, s, steps[0]), steps[1..], last)
  }

  ghost predicate Reaches(cfg: Settings, s: System, last: System)
    requires cfg.Valid()
  {
    exists steps :: Leads(cfg, s, steps, last)
  }

  lemma {:induction false} LeadsOn(cfg: Settings, s: System, a: seq<Step>, middle: System, b: seq<Step>, last: System)
    requires cfg.Valid() && Leads(cfg, s, a, middle) && Leads(cfg, middle, b, last)
    ensures Leads(cfg, s, a + b, last)
    decreases |a|
  {
    hide After, Enabled;
    if a == [] {
      assert a + b == b;
    } else {
      assert (a + b)[0] == a[0] && (a + b)[1..] == a[1..] + b;
      LeadsOn(cfg, After(cfg, s, a[0]), a[1..], middle, b, last);
    }
  }

  lemma ReachesOn(cfg: Settings, s: System, middle: System, last: System)
    requires cfg.Valid() && Reaches(cfg, s, middle) && Reaches(cfg, middle, last)
    ensures Reaches(cfg, s, last)
  {
    hide Leads;
    var a :| Leads(cfg, s, a, middle);
    var b :| Leads(cfg, middle, b, last);
    LeadsOn(cfg, s, a, middle, b, last);
  }

  lemma ReachesSelf(cfg: Settings, s: System)
    requires cfg.Valid()
    ensures Reaches(cfg, s, s)
  {
    assert Leads(cfg, s, [], s);
  }

  /** One step, which keeps the invariant. */
  lemma ReachesStep(cfg: Settings, s: System, step: Step)
    requires Inv(cfg, s) && s.pub.Valid() && s.terms != [] && Enabled(cfg, s, step)
    ensures Inv(cfg, After(cfg, s, step)) && cfg.Valid() && Reaches(cfg, s, After(cfg, s, step))
  {
    hide After, Inv;
    assert cfg.Valid() by { InvFacts(cfg, s); }
    StepKeeps(cfg, s, step);
    var last := After(cfg, s, step);
    assert [step][1..] == [];
    assert Leads(cfg, last, [], last);
    assert Leads(cfg, s, [step], last);
  }

  lemma InvFacts(cfg: Settings, s: System)
    requires Inv(cfg, s)
    ensures cfg.Valid() && s.pub.Valid() && s.terms != [] && s.pub.offset <= cfg.termLength
            && s.pub.offset % FRAME_ALIGNMENT == 0
    ensures s.pub.count < TERMS_IN_STREAM && (s.pub.sealed ==> s.pub.count + 1 == TERMS_IN_STREAM)
  {
  }

  /** A delegate that takes everything. */
  function Willing(): Delegate { (n: nat, m: seq<int>) => CONTINUE }

  /** The subscriber catches up with the publication. */
  lemma {:induction false} CatchUp(cfg: Settings, s: System) returns (last: System)
    requires Inv(cfg, s)
    ensures Inv(cfg, last) && cfg.Valid() && Reaches(cfg, s, last) && s.pub.Valid()
    ensures last.pub == s.pub && last.position >= s.pub.Position(cfg)
    decreases if s.position < s.pub.Position(cfg) then s.pub.Position(cfg) - s.position else 0
  {
    InvFacts(cfg, s);
    if s.position >= s.pub.Position(cfg) {
      last := s;
      ReachesSelf(cfg, s);
    } else {
      hide Inv, State.Position, Patient, Reaches;
      var step := PollStep(Willing(), s.pub.Position(cfg), 1);
      var next := After(cfg, s, step);
      assert Patient(Willing()) by { WillingIsPatient(); }
      PollMakesProgress(cfg, s, Willing(), s.pub.Position(cfg), 1);
      ReachesStep(cfg, s, step);
      PollKeepsPublication(cfg, s, step);
      last := CatchUp(cfg, next);
      ReachesOn(cfg, s, next, last);
    }
  }

  lemma WillingIsPatient()
    ensures Patient(Willing())
  {
  }

  lemma PollKeepsPublication(cfg: Settings, s: System, step: Step)
    requires cfg.Valid() && s.pub.Valid() && s.terms != [] && step.PollStep?
    ensures After(cfg, s, step).pub == s.pub
  {
    hide Poll, Visible;
  }

  /** With the subscriber at the position the next buffer can be cleaned. */
  lemma Clean(cfg: Settings, s: System) returns (last: System)
    requires Inv(cfg, s)
    ensures Inv(cfg, last) && cfg.Valid() && Reaches(cfg, s, last) && s.pub.Valid() && last.pub.Valid()
    ensures last.pub.count == s.pub.count && last.pub.offset == s.pub.offset && last.pub.sealed == s.pub.sealed
    ensures last.pub.parts[last.pub.Next()] == []
  {
    InvFacts(cfg, s);
    var caught := CatchUp(cfg, s);
    InvFacts(cfg, caught);
    CleanApplies(cfg, caught);
    hide Inv, Reaches, After, Enabled;
    ReachesStep(cfg, caught, CleanStep);
    last := After(cfg, caught, CleanStep);
    InvFacts(cfg, last);
    ReachesOn(cfg, s, caught, last);
  }

  lemma CleanApplies(cfg: Settings, s: System)
    requires cfg.Valid() && s.pub.Valid() && s.terms != [] && s.position >= s.pub.Position(cfg)
    requires s.pub.offset <= cfg.termLength
    ensures Enabled(cfg, s, CleanStep)
    ensures var next := After(cfg, s, CleanStep);
            && next.pub.count == s.pub.count && next.pub.offset == s.pub.offset && next.pub.sealed == s.pub.sealed
            && |next.pub.parts| == 3 && next.pub.parts[next.pub.Next()] == []
  {
    MulStep(s.pub.count, cfg.termLength);
    BehindOneTerm(cfg, s.pub, s.position);
  }

  lemma BehindOneTerm(cfg: Settings, pub: State, position: int)
    requires cfg.Valid() && position >= pub.Position(cfg)
    ensures position >= (pub.count - 1) * cfg.termLength
  {
    assert (pub.count - 1) * cfg.termLength == pub.count * cfg.termLength - cfg.termLength;
  }

  /** An offer under the greatest limit the driver sets. */
  function Offering(cfg: Settings, message: seq<int>): Step
    requires cfg.Valid()
  {
    OfferStep(false, cfg.MaxPossiblePosition(), true, message)
  }

  /** Empty messages fill the term up to its last 32 bytes. */
  lemma {:induction false} FillTerm(cfg: Settings, s: System) returns (last: System)
    requires Inv(cfg, s) && s.pub.Valid() && !s.pub.sealed && s.pub.offset < cfg.termLength
             && s.pub.parts[s.pub.Next()] == []
    ensures Inv(cfg, last) && cfg.Valid() && Reaches(cfg, s, last) && last.pub.Valid()
    ensures last.pub.count == s.pub.count && !last.pub.sealed && last.pub.offset == cfg.termLength - 32
    ensures last.pub.parts[last.pub.Next()] == []
    decreases cfg.termLength - s.pub.offset
  {
    InvFacts(cfg, s);
    hide Inv, Reaches, After, Enabled, Offering;
    if s.pub.offset == cfg.termLength - 32 {
      last := s;
      ReachesSelf(cfg, s);
    } else {
      RoomForOne(s.pub.offset, cfg.termLength);
      var step := Offering(cfg, []);
      EmptyFits(cfg, s);
      hide Settings.Valid;
      ReachesStep(cfg, s, step);
      var next := After(cfg, s, step);
      InvFacts(cfg, next);
      last := FillTerm(cfg, next);
      ReachesOn(cfg, s, next, last);
    }
  }

  lemma RoomForOne(offset: int, length: int)
    requires offset % 32 == 0 && length % 32 == 0 && offset < length
    ensures offset + 32 <= length
  {
  }

  lemma BelowMax(cfg: Settings, pub: State)
    requires cfg.Valid() && pub.count < TERMS_IN_STREAM && pub.offset < cfg.termLength
    ensures pub.Position(cfg) < cfg.MaxPossiblePosition()
  {
    MulStep(pub.count, cfg.termLength);
    if pub.count + 1 < TERMS_IN_STREAM {
      MultipleGap(TERMS_IN_STREAM, pub.count + 1, cfg.termLength);
    }
  }

  lemma EmptyFits(cfg: Settings, s: System)
    requires cfg.Valid() && s.pub.Valid() && s.terms != [] && !s.pub.sealed && s.pub.parts[s.pub.Next()] == []
    requires s.pub.count < TERMS_IN_STREAM && s.pub.offset + 32 <= cfg.termLength
    ensures Enabled(cfg, s, Offering(cfg, []))
    ensures var next := After(cfg, s, Offering(cfg, []));
            && next.pub.Valid() && next.pub.count == s.pub.count && !next.pub.sealed
            && next.pub.offset == s.pub.offset + 32
            && next.pub.parts[next.pub.Next()] == []
  {
    BelowMax(cfg, s.pub);
    NextIndex(s.pub.count);
    assert Required(cfg, 0) == 32;
    AppendedFits(cfg, s.pub, []);
    hide Required, FramesOf, State.Position, Settings.MaxPossiblePosition, State.Committed;
  }

  /** A message of one byte does not fit the last 32 bytes: they become padding. */
  lemma TripTerm(cfg: Settings, s: System) returns (last: System)
    requires Inv(cfg, s) && s.pub.Valid() && !s.pub.sealed && s.pub.offset == cfg.termLength - 32
             && s.pub.parts[s.pub.Next()] == []
    ensures Inv(cfg, last) && cfg.Valid() && Reaches(cfg, s, last) && last.pub.Valid()
    ensures if s.pub.count + 1 < TERMS_IN_STREAM then
              last.pub.count == s.pub.count + 1 && last.pub.offset == 0 && !last.pub.sealed
            else
              last.pub.count == s.pub.count && last.pub.offset == s.pub.offset && last.pub.sealed
              && last.pub.parts[last.pub.Next()] == []
  {
    InvFacts(cfg, s);
    hide Inv, Reaches;
    var step := Offering(cfg, [0]);
    OneByteTrips(cfg, s);
    ReachesStep(cfg, s, step);
    last := After(cfg, s, step);
    InvFacts(cfg, last);
  }

  lemma OneByteTrips(cfg: Settings, s: System)
    requires cfg.Valid() && s.pub.Valid() && s.terms != [] && !s.pub.sealed && s.pub.parts[s.pub.Next()] == []
    requires s.pub.count < TERMS_IN_STREAM && s.pub.offset == cfg.termLength - 32
    ensures Enabled(cfg, s, Offering(cfg, [0]))
    ensures var next := After(cfg, s, Offering(cfg, [0]));
            if s.pub.count + 1 < TERMS_IN_STREAM then
              next.pub.count == s.pub.count + 1 && next.pub.offset == 0 && !next.pub.sealed
            else
              next.pub.count == s.pub.count && next.pub.offset == s.pub.offset && next.pub.sealed
              && |next.pub.parts| == 3 && next.pub.parts[next.pub.Next()] == []
  {
    BelowMax(cfg, s.pub);
    NextIndex(s.pub.count);
    RotatesUntilLast(cfg, s.pub);
    assert Required(cfg, 1) == 64;
    var padded := s.pub.parts[s.pub.Active() := s.pub.Committed() +
                              [PadFrame(OriginOf(cfg, s.pub.count), s.pub.offset, cfg.termLength - s.pub.offset)]];
    TripsOutcome(cfg, s.pub, [0], padded);
    hide Required, FramesOf, State.Position, Settings.MaxPossiblePosition, State.Committed, PadFrame, Appended, Rotates;
  }

  /** Term after term. */
  lemma {:induction false} ReachTerm(cfg: Settings, count: nat) returns (last: System)
    requires cfg.Valid() && count < TERMS_IN_STREAM
    ensures Inv(cfg, last) && Reaches(cfg, EndToEnd.Start(), last) && last.pub.Valid()
    ensures last.pub.count == count && last.pub.offset == 0 && !last.pub.sealed && last.pub.parts[last.pub.Next()] == []
    decreases count
  {
    hide Inv, Reaches;
    if count == 0 {
      last := EndToEnd.Start();
      StartInv(cfg);
      ReachesSelf(cfg, last);
    } else {
      var before := ReachTerm(cfg, count - 1);
      var full := FillTerm(cfg, before);
      var tripped := TripTerm(cfg, full);
      last := Clean(cfg, tripped);
      ReachesOn(cfg, EndToEnd.Start(), before, full);
      ReachesOn(cfg, EndToEnd.Start(), full, tripped);
      ReachesOn(cfg, EndToEnd.Start(), tripped, last);
    }
  }

  /** The subscriber passes the padding that closes the last term. */
  lemma PassPadding(cfg: Settings, s: System) returns (last: System)
    requires Inv(cfg, s) && s.pub.Valid() && s.pub.sealed
    ensures Inv(cfg, last) && cfg.Valid() && Reaches(cfg, s, last) && last.pub == s.pub
            && last.position > s.pub.Position(cfg)
  {
    InvFacts(cfg, s);
    hide Inv, Reaches, State.Position;
    var caught := CatchUp(cfg, s);
    if caught.position > s.pub.Position(cfg) {
      last := caught;
    } else {
      InvFacts(cfg, caught);
      var step := PollStep(Willing(), caught.position + 1, 1);
      PaddingIsPolled(cfg, caught);
      ReachesStep(cfg, caught, step);
      PollKeepsPublication(cfg, caught, step);
      last := After(cfg, caught, step);
      ReachesOn(cfg, s, caught, last);
    }
  }

  lemma PaddingIsPolled(cfg: Settings, s: System)
    requires Inv(cfg, s) && s.pub.Valid() && s.pub.sealed && s.position == s.pub.Position(cfg)
    ensures cfg.Valid() && AfterPoll(cfg, s, Willing(), s.position + 1, 1).position > s.position
  {
    InvFacts(cfg, s);
    PaddingIsNext(cfg, s);
    TermTail(cfg, s);
    VisibleFrames(cfg, s);
    WillingIsPatient();
    hide Inv, Patient, Poll, EndOf, Tiles, TilesEnd, Visible, AfterPoll, LimitOffset;
    PollEndsAt(cfg, s, Willing(), s.position + 1, 1);
    PollMovesOn(cfg, s.terms[s.term][s.index..], s.position, Willing(), s.reader, s.position + 1, 1);
  }

  lemma PaddingIsNext(cfg: Settings, s: System)
    requires Inv(cfg, s) && s.pub.sealed && s.position == s.pub.Position(cfg)
    ensures s.term < |s.terms| && s.index < |s.terms[s.term]|
  {
    hide Faithful, Deliver, Legal, EndsOpen, Published, Consumed, BufferInv, CaughtUp, EndOf, State.Committed, PadFrame;
    TermOfPosition(cfg, s);
    PositionSplits(s.position, cfg.termLength, s.pub.count, s.pub.offset);
    SealedEnd(cfg, s);
  }

  /** From the start a run reaches a state in which the next message is accepted, and then never delivered: in no
      continuation does the subscriber settle more than was accepted before it. */
  lemma LostMessageIsReached(cfg: Settings) returns (s: System, offer: Step)
    requires cfg.Valid()
    ensures Reaches(cfg, EndToEnd.Start(), s) && s.pub.Valid() && s.terms != []
    ensures exists position :: AcceptedAt(cfg, s, offer, position)
    ensures After(cfg, s, offer).accepted == s.accepted + [offer.message]
    ensures forall states: seq<System>, steps: seq<Step>, k: nat ::
              Follows(cfg, states, steps) && k < |states| && states[0] == After(cfg, s, offer)
              ==> Settled(states[k].reader.calls) == s.accepted
  {
    hide Inv, Reaches, State.Position;
    s := SealedIsReached(cfg);
    offer := Offering(cfg, []);
    InvFacts(cfg, s);
    EmptyAccepted(cfg, s);
    hide *;
    var next := After(cfg, s, offer);
    SealedOfferLost(cfg, s, offer, [next], [], 0);
    forall states: seq<System>, steps: seq<Step>, k: nat |
        Follows(cfg, states, steps) && k < |states| && states[0] == next
      ensures Settled(states[k].reader.calls) == s.accepted
    {
      SealedOfferLost(cfg, s, offer, states, steps, k);
    }
  }

  /** The last term is closed by padding, and the subscriber has passed it. */
  lemma SealedIsReached(cfg: Settings) returns (s: System)
    requires cfg.Valid()
    ensures Reaches(cfg, EndToEnd.Start(), s) && Inv(cfg, s) && s.pub.Valid() && s.pub.sealed
    ensures s.position > s.pub.Position(cfg) && s.pub.parts[s.pub.Next()] == [] && s.pub.offset + 32 == cfg.termLength
  {
    hide Inv, Reaches, State.Position;
    var begun := ReachTerm(cfg, TERMS_IN_STREAM - 1);
    var full := FillTerm(cfg, begun);
    var tripped := TripTerm(cfg, full);
    s := PassPadding(cfg, tripped);
    ReachesOn(cfg, EndToEnd.Start(), begun, full);
    ReachesOn(cfg, EndToEnd.Start(), full, tripped);
    ReachesOn(cfg, EndToEnd.Start(), tripped, s);
  }

  lemma EmptyAccepted(cfg: Settings, s: System)
    requires cfg.Valid() && s.pub.Valid() && s.pub.count < TERMS_IN_STREAM && s.pub.offset + 32 <= cfg.termLength
    ensures exists position :: AcceptedAt(cfg, s, Offering(cfg, []), position)
  {
    BelowMax(cfg, s.pub);
    assert Required(cfg, 0) == 32;
    AppendedFits(cfg, s.pub, []);
    hide Required, FramesOf, State.Position, Settings.MaxPossiblePosition, State.Committed;
    assert AcceptedAt(cfg, s, Offering(cfg, []), s.pub.count * cfg.termLength + (s.pub.offset + 32));
  }
}
