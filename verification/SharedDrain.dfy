/**
 Nothing that was claimed on a shared publication can get stuck: writers can always finish their frames, and a
 subscriber that does not refuse them gets them all.
 */
module SharedDrains {
  import opened Framing
  import opened Images
  import opened Deliveries
  import opened ExclusivePublications
  import opened TermBuffer
  import opened TermClaims
  import opened SharedStreams
  import opened Guarantees

  /** The writing steps that are left in a term. */
  function Unwritten(frames: seq<Frame>, stage: seq<nat>): int
    requires |frames| == |stage|
  {
    if frames == [] then 0 else Complete(frames[0]) - stage[0] + Unwritten(frames[1..], stage[1..])
  }

  lemma {:induction false} UnwrittenNothing(frames: seq<Frame>, stage: seq<nat>)
    requires |frames| == |stage| && forall j :: 0 <= j < |frames| ==> stage[j] <= Complete(frames[j])
    ensures Unwritten(frames, stage) >= 0
    ensures Unwritten(frames, stage) == 0 <==> Front(frames, stage) == |frames|
    decreases |frames|
  {
    if frames != [] {
      UnwrittenNothing(frames[1..], stage[1..]);
    }
  }

  lemma {:induction false} UnwrittenOne(frames: seq<Frame>, stage: seq<nat>, j: nat)
    requires j < |frames| == |stage|
    ensures Unwritten(frames, stage[j := stage[j] + 1]) == Unwritten(frames, stage) - 1
    decreases |frames|
  {
    if j == 0 {
      assert stage[j := stage[j] + 1][1..] == stage[1..];
    } else {
      assert stage[j := stage[j] + 1][1..] == stage[1..][j - 1 := stage[1..][j - 1] + 1];
      UnwrittenOne(frames[1..], stage[1..], j - 1);
    }
  }

  /** Every step of a writer brings its term one step nearer to being complete; the frames stay what they are. */
  lemma WriteMakesProgress(cfg: Settings, t: nat, s: Term, j: nat)
    requires cfg.Valid() && CanWrite(s, j)
    ensures var s' := TermAfter(cfg, t, s, WriteMore(j));
            && |s'.stage| == |s.stage| && Unwritten(s'.frames, s'.stage) == Unwritten(s.frames, s.stage) - 1
            && s'.frames == s.frames && s'.messages == s.messages && s'.tail == s.tail
  {
    hide WriteNext;
    UnwrittenOne(s.frames, s.stage, j);
  }

  /** The thread that the readers of a term are waiting for can write. */
  lemma FirstCanWrite(cfg: Settings, t: nat, s: Term)
    requires TermInv(cfg, t, s)
    ensures FrontOf(s) < |s.frames| ==> CanWrite(s, FrontOf(s))
    ensures Unwritten(s.frames, s.stage) >= 0
    ensures Unwritten(s.frames, s.stage) == 0 <==> FrontOf(s) == |s.frames|
  {
    hide Deliver, Legal, EndsOpen, Tiles, TilesEnd, Genuine, Front, Unwritten, Complete, Partial, Decode, FrameAt;
    forall j | 0 <= j < |s.frames|
      ensures s.stage[j] <= Complete(s.frames[j]) && Room(s.cells, s.frames[j])
    {
      assert Status(s.cells, s.frames[j], s.stage[j]);
    }
    UnwrittenNothing(s.frames, s.stage);
  }

  /** The writing steps that are left in all terms. */
  function UnwrittenIn(terms: seq<Term>): int
    requires forall t :: 0 <= t < |terms| ==> |terms[t].frames| == |terms[t].stage|
  {
    if terms == [] then 0
    else Unwritten(terms[0].frames, terms[0].stage) + UnwrittenIn(terms[1..])
  }

  lemma {:induction false} UnwrittenInOne(terms: seq<Term>, t: nat, moved: Term)
    requires t < |terms| && forall u :: 0 <= u < |terms| ==> |terms[u].frames| == |terms[u].stage|
    requires |moved.frames| == |moved.stage|
    ensures UnwrittenIn(terms[t := moved])
            == UnwrittenIn(terms) - Unwritten(terms[t].frames, terms[t].stage) + Unwritten(moved.frames, moved.stage)
    decreases |terms|
  {
    hide Unwritten;
    if t == 0 {
      assert terms[t := moved][1..] == terms[1..];
    } else {
      assert terms[t := moved][1..] == terms[1..][t - 1 := moved];
      UnwrittenInOne(terms[1..], t - 1, moved);
    }
  }

  lemma {:induction false} UnwrittenInNat(terms: seq<Term>)
    requires forall u :: 0 <= u < |terms| ==> |terms[u].frames| == |terms[u].stage|
    requires forall u :: 0 <= u < |terms| ==> Unwritten(terms[u].frames, terms[u].stage) >= 0
    ensures UnwrittenIn(terms) >= 0
    decreases |terms|
  {
    hide Unwritten;
    if terms != [] {
      UnwrittenInNat(terms[1..]);
    }
  }

  /** What a poll of a shared publication does: it consumes what the scan consumed, and goes on to the next term when
      that was the end of this one. */
  lemma ReadConsumes(cfg: Settings, s: Joint, delegate: Delegate, limitOffset: int, fragmentLimit: int)
    requires JointInv(cfg, s) && s.term < |s.terms|
    requires cfg.Valid() && Shape(s)
    ensures Shape(AfterRead(cfg, s, delegate, limitOffset, fragmentLimit))
    ensures var scan := Poll(HandlerOf(delegate), s.reader, Ahead(s), limitOffset, fragmentLimit);
            var s' := AfterRead(cfg, s, delegate, limitOffset, fragmentLimit);
            && s' == s.(reader := scan.state, term := s'.term, index := s'.index)
            && ConsumedOf(s') == ConsumedOf(s) + Ahead(s)[..scan.consumed]
            && (if TilesEnd(s.terms[s.term].frames[..s.index + scan.consumed], 0) == cfg.termLength
                then s'.term == s.term + 1 else s'.term == s.term)
  {
    hide JointInv, Poll, HandlerOf, FramesIn, FrontOf, TermInv, ConsumedOf;
    JointFacts(cfg, s);
    AllTermsHold(cfg, s);
    var scan := Poll(HandlerOf(delegate), s.reader, Ahead(s), limitOffset, fragmentLimit);
    AdvancedConsumes(cfg, s, scan.consumed);
    OtherReader(Advanced(cfg, s, scan.consumed), scan.state);
  }

  /** A delegate that never refuses a frame that is there makes the subscriber move. */
  lemma ReadMakesProgress(cfg: Settings, s: Joint, delegate: Delegate, limitOffset: int, fragmentLimit: int)
    requires JointInv(cfg, s) && s.term < |s.terms| && Patient(delegate) && fragmentLimit > 0
    requires cfg.Valid() && Shape(s) && limitOffset >= cfg.termLength && Ahead(s) != []
    ensures var s' := AfterRead(cfg, s, delegate, limitOffset, fragmentLimit);
            Shape(s') && ConsumedOf(s) < ConsumedOf(s') <= ConsumedOf(s) + Ahead(s)
  {
    AheadStarts(cfg, s);
    hide JointInv, Poll, HandlerOf, Patient, ConsumedOf, Ahead, AfterRead, TilesEnd, Shape, FrontOf;
    PollConsumes(delegate, s.reader, Ahead(s), limitOffset, fragmentLimit);
    ReadConsumes(cfg, s, delegate, limitOffset, fragmentLimit);
    var n := Poll(HandlerOf(delegate), s.reader, Ahead(s), limitOffset, fragmentLimit).consumed;
    assert Ahead(s)[..n] <= Ahead(s);
  }

  lemma AheadStarts(cfg: Settings, s: Joint)
    requires JointInv(cfg, s) && s.term < |s.terms| && Shape(s) && Ahead(s) != []
    ensures Ahead(s)[0].offset < cfg.termLength
  {
    AllTermsHold(cfg, s);
    hide JointInv, Front, Deliver, Legal, EndsOpen, Status, Genuine, Tiles, TilesEnd;
    var frames := s.terms[s.term].frames;
    TilesWithin(frames, 0, s.index);
  }

  /** Steps that lead from one state to another. */
  ghost predicate Leads(cfg: Settings, s: Joint, steps: seq<JointStep>, s': Joint)
    requires cfg.Valid()
    decreases |steps|
  {
    if steps == [] then s' == s
    else Shape(s) && May(cfg, s, steps[0]) && Leads(cfg, JointAfter(cfg, s, steps[0]), steps[1..], s')
  }

  predicate WritesAndReads(steps: seq<JointStep>) {
    forall i :: 0 <= i < |steps| ==> steps[i].Write? || steps[i].Read?
  }

  function FramesLeft(s: Joint): int
    requires Shape(s)
  {
    if s.term == |s.terms| then 0 else |s.terms[s.term].frames| - s.index
  }

  /** The writing steps that are left. */
  function Debt(s: Joint): int
    requires Shape(s)
  {
    UnwrittenIn(s.terms)
  }

  /** A step that brings writers or subscriber nearer to their end and leaves claims and messages alone. */
  ghost predicate Useful(cfg: Settings, s: Joint, step: JointStep, s1: Joint) {
    && cfg.Valid() && Shape(s) && Shape(s1) && May(cfg, s, step) && s1 == JointAfter(cfg, s, step)
    && (step.Write? || step.Read?) && s1.log == s.log && s1.sent == s.sent
    && Nearer(s, s1)
  }

  predicate Nearer(s: Joint, s1: Joint)
    requires Shape(s) && Shape(s1)
  {
    && |s1.terms| == |s.terms|
    && (Debt(s1) < Debt(s)
        || (Debt(s1) == Debt(s) && (s1.term > s.term || (s1.term == s.term && FramesLeft(s1) < FramesLeft(s)))))
  }

  lemma UsefulWrite(cfg: Settings, s: Joint, t: nat) returns (step: JointStep, s1: Joint)
    requires JointInv(cfg, s) && t < |s.terms| && FrontOf(s.terms[t]) < |s.terms[t].frames|
    ensures Useful(cfg, s, step, s1) && JointInv(cfg, s1)
  {
    hide JointInv, Shape, TermAfter, Debt, FrontOf, Settings.Valid, FramesLeft;
    JointFacts(cfg, s);
    step := Write(t, FrontOf(s.terms[t]));
    s1 := JointAfter(cfg, s, step);
    JointStepKeeps(cfg, s, step);
    JointFacts(cfg, s1);
    DebtFalls(cfg, s, t);
  }

  lemma DebtFalls(cfg: Settings, s: Joint, t: nat)
    requires JointInv(cfg, s) && t < |s.terms| && FrontOf(s.terms[t]) < |s.terms[t].frames| && cfg.Valid() && Shape(s)
    requires Shape(s.(terms := s.terms[t := TermAfter(cfg, t, s.terms[t], WriteMore(FrontOf(s.terms[t])))]))
    ensures Debt(s.(terms := s.terms[t := TermAfter(cfg, t, s.terms[t], WriteMore(FrontOf(s.terms[t])))])) < Debt(s)
  {
    AllTermsHold(cfg, s);
    ShapeSizes(s);
    hide JointInv, Shape, TermAfter, Unwritten, UnwrittenIn, FrontOf, CanWrite, TermInv, Settings.Valid;
    var j := FrontOf(s.terms[t]);
    FirstCanWrite(cfg, t, s.terms[t]);
    WriteMakesProgress(cfg, t, s.terms[t], j);
    UnwrittenInOne(s.terms, t, TermAfter(cfg, t, s.terms[t], WriteMore(j)));
  }

  lemma UsefulRead(cfg: Settings, s: Joint, delegate: Delegate) returns (step: JointStep, s1: Joint)
    requires JointInv(cfg, s) && Patient(delegate) && s.term < |s.terms|
    requires FrontOf(s.terms[s.term]) == |s.terms[s.term].frames|
    requires s.index < |s.terms[s.term].frames| || s.term + 1 < |s.terms|
    ensures Useful(cfg, s, step, s1) && JointInv(cfg, s1)
  {
    hide JointInv, Shape, UnwrittenIn, FrontOf, Patient, Settings.Valid, AfterRead;
    JointFacts(cfg, s);
    step := Read(delegate, cfg.termLength, 1);
    s1 := AfterRead(cfg, s, delegate, cfg.termLength, 1);
    JointStepKeeps(cfg, s, step);
    JointFacts(cfg, s1);
    MovesAlong(cfg, s, delegate);
  }

  lemma MovesAlong(cfg: Settings, s: Joint, delegate: Delegate)
    requires JointInv(cfg, s) && Patient(delegate) && s.term < |s.terms| && cfg.Valid() && Shape(s)
    requires FrontOf(s.terms[s.term]) == |s.terms[s.term].frames|
    requires s.index < |s.terms[s.term].frames| || s.term + 1 < |s.terms|
    ensures var s1 := AfterRead(cfg, s, delegate, cfg.termLength, 1);
            && s1 == s.(reader := s1.reader, term := s1.term, index := s1.index)
            && (s1.term > s.term || (s1.term == s.term && s1.index > s.index))
  {
    hide JointInv, FrontOf, Patient, Settings.Valid, AfterRead, Shape;
    if Ahead(s) != [] {
      ReadsOn(cfg, s, delegate);
    } else {
      FrontReached(s);
      MovesOn(cfg, s, delegate);
    }
  }

  lemma FrontReached(s: Joint)
    requires Shape(s) && s.term < |s.terms| && Ahead(s) == []
    requires FrontOf(s.terms[s.term]) == |s.terms[s.term].frames|
    ensures s.index == |s.terms[s.term].frames|
  {
    hide FrontOf;
  }

  lemma ReadsOn(cfg: Settings, s: Joint, delegate: Delegate)
    requires JointInv(cfg, s) && Patient(delegate) && s.term < |s.terms| && cfg.Valid() && Shape(s) && Ahead(s) != []
    ensures var s1 := AfterRead(cfg, s, delegate, cfg.termLength, 1);
            && s1 == s.(reader := s1.reader, term := s1.term, index := s1.index)
            && (s1.term > s.term || (s1.term == s.term && s1.index > s.index))
  {
    AheadStarts(cfg, s);
    hide JointInv, Shape, Poll, HandlerOf, Patient, TilesEnd, FrontOf, Settings.Valid, AfterRead, Ahead, ConsumedOf;
    PollConsumes(delegate, s.reader, Ahead(s), cfg.termLength, 1);
    ReadConsumes(cfg, s, delegate, cfg.termLength, 1);
    ReadIndex(cfg, s, delegate, cfg.termLength, 1);
  }

  lemma ReadIndex(cfg: Settings, s: Joint, delegate: Delegate, limitOffset: int, fragmentLimit: int)
    requires cfg.Valid() && Shape(s) && s.term < |s.terms|
    ensures var s1 := AfterRead(cfg, s, delegate, limitOffset, fragmentLimit);
            s1.term == s.term ==>
              s1.index == s.index + Poll(HandlerOf(delegate), s.reader, Ahead(s), limitOffset, fragmentLimit).consumed
  {
    hide Shape, Poll, HandlerOf, TilesEnd, Settings.Valid, Ahead;
  }

  /** A term that is not the newest ends at the end of its buffer. */
  lemma MovesOn(cfg: Settings, s: Joint, delegate: Delegate)
    requires JointInv(cfg, s) && cfg.Valid() && Shape(s) && s.term + 1 < |s.terms| && Ahead(s) == []
    requires s.index == |s.terms[s.term].frames|
    ensures var s1 := AfterRead(cfg, s, delegate, cfg.termLength, 1);
            s1 == s.(reader := s1.reader, term := s.term + 1, index := s1.index)
  {
    TermIsFull(cfg, s);
    hide JointInv, Shape, Poll, HandlerOf, TilesEnd, FrontOf, Settings.Valid, AfterRead, ConsumedOf, Ahead;
    ReadConsumes(cfg, s, delegate, cfg.termLength, 1);
    assert s.terms[s.term].frames[..s.index + 0] == s.terms[s.term].frames;
  }

  lemma TermIsFull(cfg: Settings, s: Joint)
    requires JointInv(cfg, s) && s.term + 1 < |s.terms|
    ensures TilesEnd(s.terms[s.term].frames, 0) == cfg.termLength
  {
    AllTermsHold(cfg, s);
    TailsAreClaims(cfg, s, s.term);
    hide JointInv, Joined, TermInv, TilesEnd;
    SameLengths(cfg, s.term, s.terms[s.term]);
  }

  lemma DebtNat(cfg: Settings, s: Joint)
    requires JointInv(cfg, s) && Shape(s)
    ensures Debt(s) >= 0
  {
    AllTermsHold(cfg, s);
    hide JointInv, TermInv, Unwritten, Front;
    forall u | 0 <= u < |s.terms|
      ensures Unwritten(s.terms[u].frames, s.terms[u].stage) >= 0
    {
      FirstCanWrite(cfg, u, s.terms[u]);
    }
    UnwrittenInNat(s.terms);
  }

  lemma FullyConsumed(s: Joint)
    requires Shape(s) && (s.term < |s.terms| ==> s.term + 1 == |s.terms| && s.index == |s.terms[s.term].frames|)
    ensures ConsumedOf(s) == FramesIn(s.terms)
  {
    if s.term == |s.terms| {
      assert s.terms[..s.term] == s.terms;
    } else {
      assert s.terms[s.term].frames[..s.index] == s.terms[s.term].frames;
    }
  }

  lemma FramesLeftNat(s: Joint)
    requires Shape(s)
    ensures FramesLeft(s) >= 0 && s.term <= |s.terms|
  {
    hide FrontOf;
    assert s.term < |s.terms| ==> s.index <= FrontOf(s.terms[s.term]);
  }

  /** From every state some writing steps and polls are enough to have the subscriber consume all there is. */
  lemma {:induction false} Drain(cfg: Settings, s: Joint, delegate: Delegate)
    returns (steps: seq<JointStep>, s': Joint)
    requires JointInv(cfg, s) && Patient(delegate) && Shape(s)
    ensures cfg.Valid() && Leads(cfg, s, steps, s') && WritesAndReads(steps) && JointInv(cfg, s') && Shape(s')
    ensures s'.log == s.log && s'.sent == s.sent && ConsumedOf(s') == FramesIn(s'.terms)
    decreases Debt(s), |s.terms| - s.term, FramesLeft(s)
  {
    hide JointInv, Patient, Shape, Debt, FrontOf, ConsumedOf, FramesIn, JointAfter, May;
    JointFacts(cfg, s);
    ShapeSizes(s);
    var step, s1;
    if t: nat :| t < |s.terms| && FrontOf(s.terms[t]) < |s.terms[t].frames| {
      step, s1 := UsefulWrite(cfg, s, t);
    } else if s.term < |s.terms| && (s.index < |s.terms[s.term].frames| || s.term + 1 < |s.terms|) {
      step, s1 := UsefulRead(cfg, s, delegate);
    } else {
      FullyConsumed(s);
      return [], s;
    }
    DebtNat(cfg, s);
    JointFacts(cfg, s1);
    FramesLeftNat(s);
    FramesLeftNat(s1);
    var rest;
    rest, s' := Drain(cfg, s1, delegate);
    steps := [step] + rest;
    assert steps[1..] == rest;
  }

  /** Whatever has been claimed: from every state that a run can reach, its writers and a subscriber that does not
      refuse can go on, with no further claim, until the subscriber has settled every message whose claim succeeded,
      in order and once each. */
  lemma EverythingArrives(cfg: Settings, threads: nat, states: seq<Joint>, steps: seq<JointStep>, k: nat,
                          delegate: Delegate)
    returns (more: seq<JointStep>, s': Joint)
    requires JointRun(cfg, threads, states, steps) && k < |states| && Patient(delegate)
    ensures cfg.Valid() && Leads(cfg, states[k], more, s') && WritesAndReads(more)
    ensures s'.log == states[k].log && s'.sent == states[k].sent
    ensures |s'.log.claims| == |s'.sent| && forall t :: 0 <= t < |s'.sent| ==> |s'.log.claims[t]| == |s'.sent[t]|
    ensures Settled(s'.reader.calls) == AllSuccessful(cfg, states[k].log.claims, states[k].sent)
  {
    hide JointInv, Leads, Patient, ConsumedOf, FramesIn, AllSuccessful, Settled, Faithful;
    JointRunKeeps(cfg, threads, states, steps, k);
    JointFacts(cfg, states[k]);
    more, s' := Drain(cfg, states[k], delegate);
    JointDelivers(cfg, s');
  }
}
