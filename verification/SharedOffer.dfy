/**
 What one offer of a shared publication does, thread by thread: when it makes a claim, when its message is among those
 that succeed, and how a claim over the end of a term moves the log on.
 */
module SharedOffers {
  import opened ExclusivePublications
  import opened TermClaims
  import opened SharedStreams
  import opened RotationGuarantees
  import Rotation

  /** The log with thread `i` elsewhere. */
  function At(s: Joint, i: nat, pc: Rotation.Pc): Joint
    requires i < |s.log.threads|
  {
    s.(log := s.log.(threads := s.log.threads[i := pc]))
  }

  /** The position an offer reads in the active term: of the tail, or the end of the term if the tail has passed it. */
  predicate BelowLimit(cfg: Settings, s: Joint, limit: int)
    requires Shape(s)
  {
    var tail := s.log.tails[s.log.active % 3];
    s.log.active * cfg.termLength + (if tail.offset <= cfg.termLength then tail.offset else cfg.termLength) < limit
  }

  /** An offer reads the active count, then the tail. It goes on to claim exactly when the tail is that of the active
      term, the length is allowed and the position is below the limit; otherwise nothing at all has changed. */
  lemma OfferPlans(cfg: Settings, s: Joint, i: nat, length: nat, limit: int)
    requires cfg.Valid() && Shape(s) && i < |s.log.threads| && s.log.threads[i].Idle?
    ensures var t := s.log.active;
            var goesOn := && s.log.tails[t % 3].term == t && (length <= cfg.maxPayload || length <= cfg.maxMessage)
                          && BelowLimit(cfg, s, limit);
            && AfterTurn(cfg, s, i, Rotation.ReadCount) == At(s, i, Rotation.Planned(t))
            && Shape(At(s, i, Rotation.Planned(t)))
            && AfterTurn(cfg, At(s, i, Rotation.Planned(t)), i, Rotation.ReadTail(length, limit))
               == if goesOn then At(s, i, Rotation.Ready(t, length)) else s
  {
    hide Front, FrontOf, Settings.Valid;
    assert s.log.threads[i := Rotation.Planned(s.log.active)][i := Rotation.Idle] == s.log.threads;
  }

  /** A thread that goes on makes one claim at the tail, of the space its message needs. Its message is among those that
      succeed exactly when it fits the rest of the term. */
  lemma OfferClaims(cfg: Settings, s: Joint, i: nat, message: seq<int>)
    requires JointInv(cfg, s) && i < |s.log.threads| && s.log.threads[i] == Rotation.Ready(s.log.active, |message|)
    requires Shape(s) && s.log.tails[s.log.active % 3].term == s.log.active
    ensures cfg.Valid() && May(cfg, s, Offer(i, message))
    ensures var s', t := AfterOffer(cfg, s, i, message), s.log.active;
            var offset, space := s.log.tails[t % 3].offset, Required(cfg, |message|);
            var fits := offset + space <= cfg.termLength;
            && JointInv(cfg, s') && t < |s.log.claims|
            && s'.log.claims == s.log.claims[t := s.log.claims[t] + [Rotation.Claim(i, offset, space, t)]]
            && s'.sent == s.sent[t := s.sent[t] + [message]]
            && s'.log.tails == s.log.tails[t % 3 := Rotation.Tail(t, offset + space)] && s'.log.active == t
            && s'.log.threads
               == s.log.threads[i := if fits then Rotation.Idle else Rotation.Closing(t, offset, space)]
            && MessagesIn(s'.terms) == MessagesIn(s.terms) + if fits then [message] else []
  {
    hide JointInv, MessagesIn, Required, TermAfter, Settings.Valid, Rotation.Inv;
    JointFacts(cfg, s);
    ReadyMayOffer(cfg, s, i, message);
    OfferKeeps(cfg, s, i, message);
    OfferAdds(cfg, s, i, message);
  }

  lemma SuccessfulInMemory(cfg: Settings, s: Joint)
    requires JointInv(cfg, s)
    ensures |s.log.claims| == |s.sent| && forall t :: 0 <= t < |s.log.claims| ==> |s.log.claims[t]| == |s.sent[t]|
    ensures AllSuccessful(cfg, s.log.claims, s.sent) == MessagesIn(s.terms)
  {
    hide Joined, MessagesIn, AllSuccessful;
    MessagesAreSuccessful(cfg, s.terms, s.log.claims, s.sent);
  }

  /** An offer by an idle thread that nobody gets in between. With the tail of the active term there, a length that is
      allowed and the position below the limit, it adds exactly one claim, and its message to those that succeed exactly
      when it fits the rest of the term. From the limit on, or with a length that is not allowed, it changes nothing. */
  lemma OfferGoesThrough(cfg: Settings, s: Joint, i: nat, message: seq<int>, limit: int)
    requires JointInv(cfg, s) && i < |s.log.threads| && s.log.threads[i].Idle? && limit <= cfg.termLength * 0x8000_0000
    ensures cfg.Valid() && Shape(s) && Shape(At(s, i, Rotation.Planned(s.log.active)))
    ensures var t := s.log.active;
            var planned := JointAfter(cfg, s, Turn(i, Rotation.ReadCount));
            var ready := JointAfter(cfg, planned, Turn(i, Rotation.ReadTail(|message|, limit)));
            var offset, space := s.log.tails[t % 3].offset, Required(cfg, |message|);
            if s.log.tails[t % 3].term == t && (|message| <= cfg.maxPayload || |message| <= cfg.maxMessage)
               && BelowLimit(cfg, s, limit) then
              && Shape(ready) && May(cfg, ready, Offer(i, message))
              && var s' := JointAfter(cfg, ready, Offer(i, message));
                 && t < |s.log.claims| && |s'.log.claims| == |s'.sent|
                 && s'.log.claims == s.log.claims[t := s.log.claims[t] + [Rotation.Claim(i, offset, space, t)]]
                 && (forall u :: 0 <= u < |s.sent| ==>
                       |s.log.claims[u]| == |s.sent[u]| && |s'.log.claims[u]| == |s'.sent[u]|)
                 && AllSuccessful(cfg, s'.log.claims, s'.sent)
                    == AllSuccessful(cfg, s.log.claims, s.sent)
                       + if offset + space <= cfg.termLength then [message] else []
            else ready == s
  {
    hide JointInv, MessagesIn, AllSuccessful, Required, AfterTurn, AfterOffer, Settings.Valid, BelowLimit, Shape;
    JointFacts(cfg, s);
    OfferPlans(cfg, s, i, |message|, limit);
    var ready := At(s, i, Rotation.Ready(s.log.active, |message|));
    if s.log.tails[s.log.active % 3].term == s.log.active
      && (|message| <= cfg.maxPayload || |message| <= cfg.maxMessage)
       && BelowLimit(cfg, s, limit) {
      OfferReady(cfg, s, i, |message|, limit);
      JointFacts(cfg, ready);
      OfferClaims(cfg, ready, i, message);
      SuccessfulInMemory(cfg, s);
      SuccessfulInMemory(cfg, AfterOffer(cfg, ready, i, message));
    }
  }

  lemma OfferReady(cfg: Settings, s: Joint, i: nat, length: nat, limit: int)
    requires JointInv(cfg, s) && i < |s.log.threads| && s.log.threads[i].Idle? && limit <= cfg.termLength * 0x8000_0000
    requires cfg.Valid() && Shape(s) && Shape(At(s, i, Rotation.Planned(s.log.active)))
    ensures JointInv(cfg, AfterTurn(cfg, At(s, i, Rotation.Planned(s.log.active)), i, Rotation.ReadTail(length, limit)))
  {
    hide JointInv, AfterTurn, Settings.Valid;
    OfferPlans(cfg, s, i, length, limit);
    TurnKeeps(cfg, s, i, Rotation.ReadCount);
    TurnKeeps(cfg, At(s, i, Rotation.Planned(s.log.active)), i, Rotation.ReadTail(length, limit));
  }

  /** A thread whose claim has run over the end of the active term, and that nobody gets in between, moves the log on by
      one term; in the last term it only gives up. */
  lemma TripMovesOn(cfg: Settings, log: Rotation.Log, i: nat)
    requires Rotation.Inv(cfg, log) && i < |log.threads| && log.threads[i].Closing? && log.threads[i].term == log.active
    ensures cfg.Valid() && |log.tails| == 3
    ensures var t := log.active;
            var closed := Rotation.After(cfg, log, i, Rotation.Close);
            if t == 0x7FFF_FFFF then closed == log.(threads := log.threads[i := Rotation.Idle])
            else
              && |closed.tails| == 3
              && var next := Rotation.After(cfg, closed, i, Rotation.ReadNext);
                 && |next.tails| == 3
                 && var swapped := Rotation.After(cfg, next, i, Rotation.Swap);
                    && |swapped.tails| == 3
                    && var done := Rotation.After(cfg, swapped, i, Rotation.Advance);
                       && done.active == t + 1 && done.threads == log.threads[i := Rotation.Idle]
                       && t + 1 < |done.claims| && log.claims <= done.claims
  {
    hide Rotation.LaidOut, Rotation.ClaimsEnd, Settings.Valid, Rotation.ResultingPosition;
    assert Rotation.Pending(cfg, log, log.threads[i]);
    var pc := log.threads[i];
    ClosesBeforeLast(cfg, pc.term, pc.offset, pc.required);
    Rotation.NextTail(cfg, log, pc.term);
  }

  /** What an offer answers that nobody gets in between, from the tail it reads: ADMIN_ACTION for one of another term;
      then the limit, or else the append, of which a claim over the end answers by the position it would have
      come to. */
  function Answer(cfg: Settings, tail: Rotation.Tail, t: nat, limit: int, connected: bool, length: nat): Outcome
    requires cfg.Valid()
  {
    var position := Rotation.TailPosition(cfg, t, tail.offset);
    if tail.term != t then AdminAction
    else if position < limit then
      if !Rotation.Offerable(cfg, length) then MessageTooLong
      else if tail.offset + Required(cfg, length) <= cfg.termLength then Accepted(position + Required(cfg, length))
      else if Rotation.ResultingPosition(cfg, t, tail.offset, Required(cfg, length)) >= cfg.MaxPossiblePosition() then
        MaxPositionExceeded
      else AdminAction
    else if position + length >= cfg.MaxPossiblePosition() then MaxPositionExceeded
    else if connected then BackPressured
    else NotConnected
  }

  /** Left alone, a shared publication answers what an exclusive one does at the same place in the stream, however far
      the claims of others have run its tail over the end of the term. */
  lemma AnswersAsExclusive(cfg: Settings, tail: Rotation.Tail, s: State, limit: int, connected: bool,
                           message: seq<int>)
    requires cfg.Valid() && s.Valid() && s.count < 0x8000_0000 && tail.term == s.count
    requires s.offset == if tail.offset <= cfg.termLength then tail.offset else cfg.termLength
    ensures Answer(cfg, tail, s.count, limit, connected, |message|)
            == Offered(cfg, s, false, limit, connected, message).1
  {
    hide Required, Offered;
    OfferedOutcomes(cfg, s, false, limit, connected, message);
    if Rotation.Offerable(cfg, |message|) {
      Rotation.RequiredBounds(cfg, |message|);
      if s.offset + Required(cfg, |message|) > cfg.termLength {
        ClosesBeforeLast(cfg, s.count, s.offset, Required(cfg, |message|));
      }
    }
  }

  /** The answer goes with what the offer does: a position for a claim that fits, the end of the claim in the stream;
      ADMIN_ACTION or the greatest position for a claim that does not, which its thread is left to close; and no claim
      for anything else. */
  lemma AnswerOfOffer(cfg: Settings, s: Joint, i: nat, message: seq<int>, limit: int, connected: bool)
    requires JointInv(cfg, s) && i < |s.log.threads| && s.log.threads[i].Idle? && limit <= cfg.termLength * 0x8000_0000
    ensures cfg.Valid() && Shape(s)
    ensures var t, tail := s.log.active, s.log.tails[s.log.active % 3];
            var answer, ready := Answer(cfg, tail, t, limit, connected, |message|),
                                 At(s, i, Rotation.Ready(t, |message|));
            if tail.term == t && (|message| <= cfg.maxPayload || |message| <= cfg.maxMessage)
               && BelowLimit(cfg, s, limit) then
              && Shape(ready) && May(cfg, ready, Offer(i, message))
              && var s' := JointAfter(cfg, ready, Offer(i, message));
                 && |s'.log.threads| == |s.log.threads|
                 && if s'.log.threads[i].Idle?
                    then answer == Accepted(t * cfg.termLength + tail.offset + Required(cfg, |message|))
                    else answer == if t == 0x7FFF_FFFF then MaxPositionExceeded else AdminAction
            else !answer.Accepted?
  {
    hide JointInv, MessagesIn, Required, AfterTurn, AfterOffer, Settings.Valid, Shape;
    JointFacts(cfg, s);
    OfferPlans(cfg, s, i, |message|, limit);
    OfferReady(cfg, s, i, |message|, limit);
    var tail, ready := s.log.tails[s.log.active % 3], At(s, i, Rotation.Ready(s.log.active, |message|));
    if tail.term == s.log.active && Rotation.Offerable(cfg, |message|) && BelowLimit(cfg, s, limit) {
      JointFacts(cfg, ready);
      OfferClaims(cfg, ready, i, message);
      Rotation.RequiredBounds(cfg, |message|);
      TermsCounted(cfg, s);
      if tail.offset + Required(cfg, |message|) > cfg.termLength {
        ClosesBeforeLast(cfg, s.log.active, tail.offset, Required(cfg, |message|));
      }
    }
  }

  lemma TermsCounted(cfg: Settings, s: Joint)
    requires JointInv(cfg, s)
    ensures s.log.active <= 0x7FFF_FFFF
  {
  }
}
