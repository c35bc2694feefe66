/**
 A publication with any number of writers and a subscriber, together: the threads claim, close and rotate terms
 (Rotation), write their frames byte by byte (TermClaims), and the subscriber polls what is complete, all interleaved.
 Each term is taken to have its own memory: the driver zeroes a buffer only for a term that is new to writers and
 subscriber.
 */
module SharedStreams {
  import opened Framing
  import opened Images
  import opened Assembly
  import opened Deliveries
  import opened ExclusivePublications
  import opened TermClaims
  import Rotation

  /** The tails and threads, the terms so far, the messages sent with the claims of each term, and the subscriber: the
      term it reads, how many frames of it it has consumed, and its assembler with the calls made. */
  datatype Joint = Joint(log: Rotation.Log, terms: seq<Term>, sent: seq<seq<seq<int>>>, term: nat, index: nat,
                         reader: Reader)

  /** A step of a thread other than a claim; the fetch-and-add of an offer; one more byte of a frame; a poll. */
  datatype JointStep =
    | Turn(thread: nat, action: Rotation.Action)
    | Offer(thread: nat, message: seq<int>)
    | Write(term: nat, frame: nat)
    | Read(delegate: Delegate, limitOffset: int, fragmentLimit: int)

  function Beginning(cfg: Settings, threads: nat): Joint
    requires cfg.Valid()
  {
    Joint(Rotation.Start(threads), [Fresh(cfg.termLength)], [[]], 0, 0, Reader(IDLE, []))
  }

  /** The parts belong together. */
  predicate Shape(s: Joint) {
    && |s.terms| == |s.sent| == |s.log.claims| && |s.log.tails| == 3
    && (forall t :: 0 <= t < |s.terms| ==> |s.terms[t].frames| == |s.terms[t].stage|)
    && s.term <= |s.terms| && if s.term == |s.terms| then s.index == 0 else s.index <= FrontOf(s.terms[s.term])
  }

  function FrontOf(t: Term): (n: nat)
    requires |t.frames| == |t.stage|
    ensures n <= |t.frames|
  {
    Front(t.frames, t.stage)
  }

  /** The frames a poll finds: complete, from where the subscriber is. */
  function Ahead(s: Joint): seq<Frame>
    requires Shape(s)
  {
    if s.term == |s.terms| then [] else s.terms[s.term].frames[s.index..FrontOf(s.terms[s.term])]
  }

  /** The log with one more term. */
  function Opened(cfg: Settings, s: Joint, log: Rotation.Log): Joint
    requires cfg.Valid()
  {
    s.(log := log, terms := s.terms + [Fresh(cfg.termLength)], sent := s.sent + [[]])
  }

  function AfterTurn(cfg: Settings, s: Joint, i: nat, action: Rotation.Action): Joint
    requires cfg.Valid() && Shape(s) && i < |s.log.threads|
  {
    var log := Rotation.After(cfg, s.log, i, action);
    if |log.claims| > |s.log.claims| then Opened(cfg, s, log) else s.(log := log)
  }

  /** The term that thread `i` claims from. */
  function ClaimsFrom(s: Joint, i: nat): int
    requires Shape(s) && i < |s.log.threads| && s.log.threads[i].Ready?
  {
    s.log.tails[s.log.threads[i].term % 3].term
  }

  function AfterOffer(cfg: Settings, s: Joint, i: nat, message: seq<int>): Joint
    requires cfg.Valid() && Shape(s) && i < |s.log.threads| && s.log.threads[i].Ready?
    requires 0 <= ClaimsFrom(s, i) < |s.terms|
  {
    var t := ClaimsFrom(s, i);
    s.(log := Rotation.After(cfg, s.log, i, Rotation.FetchAdd),
       terms := s.terms[t := TermAfter(cfg, t, s.terms[t], ClaimRange(message))],
       sent := s.sent[t := s.sent[t] + [message]])
  }

  function AfterRead(cfg: Settings, s: Joint, delegate: Delegate, limitOffset: int, fragmentLimit: int): Joint
    requires cfg.Valid() && Shape(s)
  {
    if s.term == |s.terms| then s
    else
      var scan := Poll(HandlerOf(delegate), s.reader, Ahead(s), limitOffset, fragmentLimit);
      Advanced(cfg, s, scan.consumed).(reader := scan.state)
  }

  /** The subscriber has consumed more frames, perhaps all of the term. */
  function Advanced(cfg: Settings, s: Joint, consumed: nat): Joint
    requires Shape(s) && s.term < |s.terms| && consumed <= |Ahead(s)|
  {
    var index := s.index + consumed;
    if TilesEnd(s.terms[s.term].frames[..index], 0) == cfg.termLength then s.(term := s.term + 1, index := 0)
    else s.(index := index)
  }

  /** A thread that is ready has planned an offer of the length of its message; limits stay below the greatest
      position. */
  predicate May(cfg: Settings, s: Joint, step: JointStep)
    requires Shape(s)
  {
    match step
    case Turn(i, action) => !action.FetchAdd? && Rotation.Enabled(cfg, s.log, i, action)
    case Offer(i, message) =>
      && i < |s.log.threads| && s.log.threads[i].Ready? && s.log.threads[i].length == |message|
      && 0 <= ClaimsFrom(s, i) < |s.terms|
    case Write(t, j) => t < |s.terms|
    case Read(_, _, _) => true
  }

  function JointAfter(cfg: Settings, s: Joint, step: JointStep): Joint
    requires cfg.Valid() && Shape(s) && May(cfg, s, step)
  {
    match step
    case Turn(i, action) => AfterTurn(cfg, s, i, action)
    case Offer(i, message) => AfterOffer(cfg, s, i, message)
    case Write(t, j) => s.(terms := s.terms[t := TermAfter(cfg, t, s.terms[t], WriteMore(j))])
    case Read(delegate, limitOffset, fragmentLimit) => AfterRead(cfg, s, delegate, limitOffset, fragmentLimit)
  }

  /** The messages whose claims did not run over the end of their term, in the order of the claims. */
  function Successful(cfg: Settings, claims: seq<Rotation.Claim>, sent: seq<seq<int>>): seq<seq<int>>
    requires |claims| == |sent|
  {
    if claims == [] then []
    else
      var last := |claims| - 1;
      Successful(cfg, claims[..last], sent[..last]) + if Rotation.Trips(cfg, claims[last]) then [] else [sent[last]]
  }

  /** Those of all terms, one term after the other. */
  function AllSuccessful(cfg: Settings, claims: seq<seq<Rotation.Claim>>, sent: seq<seq<seq<int>>>): seq<seq<int>>
    requires |claims| == |sent| && forall t :: 0 <= t < |claims| ==> |claims[t]| == |sent[t]|
  {
    if claims == [] then []
    else
      var last := |claims| - 1;
      AllSuccessful(cfg, claims[..last], sent[..last]) + Successful(cfg, claims[last], sent[last])
  }

  function FramesIn(terms: seq<Term>): seq<Frame> {
    if terms == [] then [] else FramesIn(terms[..|terms| - 1]) + terms[|terms| - 1].frames
  }

  function MessagesIn(terms: seq<Term>): seq<seq<int>> {
    if terms == [] then [] else MessagesIn(terms[..|terms| - 1]) + terms[|terms| - 1].messages
  }

  function ConsumedOf(s: Joint): seq<Frame>
    requires Shape(s)
  {
    FramesIn(s.terms[..s.term]) + if s.term == |s.terms| then [] else s.terms[s.term].frames[..s.index]
  }

  /** A term in memory is the one its claims describe. */
  ghost predicate Joined(cfg: Settings, t: nat, term: Term, claims: seq<Rotation.Claim>, sent: seq<seq<int>>) {
    && TermInv(cfg, t, term) && term.tail == Rotation.ClaimsEnd(claims)
    && |claims| == |sent| && (forall k :: 0 <= k < |claims| ==> claims[k].required == Required(cfg, |sent[k]|))
    && term.messages == Successful(cfg, claims, sent)
  }

  ghost predicate JointInv(cfg: Settings, s: Joint) {
    && Rotation.Inv(cfg, s.log) && Shape(s)
    && (forall t :: 0 <= t < |s.terms| ==> Joined(cfg, t, s.terms[t], s.log.claims[t], s.sent[t]))
    && (forall t :: 0 <= t < s.term ==> s.terms[t].tail >= cfg.termLength)
    && CaughtUp(s.reader, ConsumedOf(s)) && Faithful(s.reader.calls, MessagesIn(s.terms))
  }

  lemma {:induction false} SameFrames(x: seq<Term>, y: seq<Term>)
    requires |x| == |y| && forall t :: 0 <= t < |x| ==> x[t].frames == y[t].frames
    ensures FramesIn(x) == FramesIn(y)
    decreases |x|
  {
    if x != [] {
      SameFrames(x[..|x| - 1], y[..|y| - 1]);
    }
  }

  lemma {:induction false} SameMessages(x: seq<Term>, y: seq<Term>)
    requires |x| == |y| && forall t :: 0 <= t < |x| ==> x[t].messages == y[t].messages
    ensures MessagesIn(x) == MessagesIn(y)
    decreases |x|
  {
    if x != [] {
      SameMessages(x[..|x| - 1], y[..|y| - 1]);
    }
  }

  lemma OneTermMore(terms: seq<Term>, t: Term)
    ensures FramesIn(terms + [t]) == FramesIn(terms) + t.frames
    ensures MessagesIn(terms + [t]) == MessagesIn(terms) + t.messages
  {
    assert (terms + [t])[..|terms|] == terms;
  }

  lemma {:induction false} FramesInFront(terms: seq<Term>, k: nat)
    requires k <= |terms|
    ensures FramesIn(terms[..k]) <= FramesIn(terms)
    decreases |terms|
  {
    if k == |terms| {
      assert terms[..k] == terms;
    } else {
      FramesInFront(terms[..|terms| - 1], k);
      assert terms[..|terms| - 1][..k] == terms[..k];
    }
  }

  /** All terms together are a legal stream, and deliver their messages. */
  lemma {:induction false} TermsDeliver(cfg: Settings, terms: seq<Term>)
    requires forall t :: 0 <= t < |terms| ==> TermInv(cfg, t, terms[t])
    ensures Legal(FramesIn(terms), false) && !EndsOpen(FramesIn(terms), false)
    ensures Deliver(IDLE, FramesIn(terms)).1 == MessagesIn(terms)
    decreases |terms|
  {
    hide TermInv, Legal, EndsOpen, Deliver;
    if terms == [] {
      EmptyDelivers();
    } else {
      var front, last := terms[..|terms| - 1], terms[|terms| - 1];
      TermsDeliver(cfg, front);
      SameLengths(cfg, |front|, last);
      LegalAppend(FramesIn(front), last.frames, false);
      DeliverAppend(IDLE, FramesIn(front), last.frames);
      LegalDelivers(Deliver(IDLE, FramesIn(front)).0, IDLE, last.frames);
    }
  }

  lemma EmptyDelivers()
    ensures Legal([], false) && !EndsOpen([], false) && Deliver(IDLE, []).1 == []
  {
  }

  /** The messages in memory are those of the successful claims. */
  lemma {:induction false} MessagesAreSuccessful(cfg: Settings, terms: seq<Term>, claims: seq<seq<Rotation.Claim>>,
                                                 sent: seq<seq<seq<int>>>)
    requires |terms| == |claims| == |sent|
    requires forall t :: 0 <= t < |terms| ==> Joined(cfg, t, terms[t], claims[t], sent[t])
    ensures forall t :: 0 <= t < |claims| ==> |claims[t]| == |sent[t]|
    ensures MessagesIn(terms) == AllSuccessful(cfg, claims, sent)
    decreases |terms|
  {
    if terms != [] {
      hide TermInv, Successful;
      var last := |terms| - 1;
      MessagesAreSuccessful(cfg, terms[..last], claims[..last], sent[..last]);
    }
  }

  lemma JoinedFresh(cfg: Settings, t: nat)
    requires cfg.Valid()
    ensures Joined(cfg, t, Fresh(cfg.termLength), [], [])
    ensures var t := Fresh(cfg.termLength); t.frames == [] && t.stage == [] && t.messages == []
  {
    FreshTerm(cfg, t);
  }

  lemma BeginningInv(cfg: Settings, threads: nat)
    requires cfg.Valid()
    ensures JointInv(cfg, Beginning(cfg, threads))
  {
    Rotation.StartInv(cfg, threads);
    JoinedFresh(cfg, 0);
  }

  /** A step other than a claim leaves the claims, or opens a new term. */
  lemma TurnClaims(cfg: Settings, log: Rotation.Log, i: nat, action: Rotation.Action)
    requires cfg.Valid() && i < |log.threads| && |log.tails| == 3 && !action.FetchAdd?
    ensures var log' := Rotation.After(cfg, log, i, action);
            |log'.tails| == 3 && (log'.claims == log.claims || log'.claims == log.claims + [[]])
  {
  }

  lemma OpenedShape(cfg: Settings, s: Joint, log: Rotation.Log)
    requires cfg.Valid() && Shape(s) && |log.tails| == 3 && log.claims == s.log.claims + [[]]
    ensures var s' := Opened(cfg, s, log);
            Shape(s') && ConsumedOf(s') == ConsumedOf(s) && MessagesIn(s'.terms) == MessagesIn(s.terms)
  {
    hide FramesIn, MessagesIn, Fresh;
    JoinedFresh(cfg, |s.terms|);
    OneTermMore(s.terms, Fresh(cfg.termLength));
    assert Opened(cfg, s, log).terms[..s.term] == s.terms[..s.term];
  }

  lemma TermOpened(cfg: Settings, s: Joint, log: Rotation.Log)
    requires JointInv(cfg, s) && Rotation.Inv(cfg, log) && |log.tails| == 3 && log.claims == s.log.claims + [[]]
    ensures cfg.Valid() && JointInv(cfg, Opened(cfg, s, log))
  {
    hide JointInv, Joined, Rotation.Inv, CaughtUp, Faithful, Fresh, ConsumedOf, Shape, Settings.Valid;
    JointFacts(cfg, s);
    JointParts(cfg, s);
    ShapeSizes(s);
    OpenedShape(cfg, s, log);
    JoinedFresh(cfg, |s.terms|);
    var s' := Opened(cfg, s, log);
    forall t | 0 <= t < |s'.terms|
      ensures Joined(cfg, t, s'.terms[t], s'.log.claims[t], s'.sent[t])
    {
      assert t < |s.terms| ==> Joined(cfg, t, s.terms[t], s.log.claims[t], s.sent[t]);
    }
    JointFromParts(cfg, s');
  }

  lemma JointParts(cfg: Settings, s: Joint)
    requires JointInv(cfg, s)
    ensures |s.terms| == |s.sent| == |s.log.claims| && s.term <= |s.terms| && Shape(s)
    ensures forall t :: 0 <= t < |s.terms| ==> Joined(cfg, t, s.terms[t], s.log.claims[t], s.sent[t])
    ensures forall t :: 0 <= t < s.term ==> s.terms[t].tail >= cfg.termLength
    ensures CaughtUp(s.reader, ConsumedOf(s)) && Faithful(s.reader.calls, MessagesIn(s.terms))
  {
  }

  lemma JointFromParts(cfg: Settings, s: Joint)
    requires Rotation.Inv(cfg, s.log) && Shape(s)
    requires forall t :: 0 <= t < |s.terms| ==> Joined(cfg, t, s.terms[t], s.log.claims[t], s.sent[t])
    requires forall t :: 0 <= t < s.term ==> s.terms[t].tail >= cfg.termLength
    requires CaughtUp(s.reader, ConsumedOf(s)) && Faithful(s.reader.calls, MessagesIn(s.terms))
    ensures JointInv(cfg, s)
  {
  }

  lemma LogMoved(cfg: Settings, s: Joint, log: Rotation.Log)
    requires JointInv(cfg, s) && Rotation.Inv(cfg, log) && |log.tails| == 3 && log.claims == s.log.claims
    ensures JointInv(cfg, s.(log := log))
  {
    hide Joined, Rotation.Inv, CaughtUp, Faithful, FramesIn, MessagesIn;
    assert ConsumedOf(s.(log := log)) == ConsumedOf(s);
  }

  lemma TurnKeeps(cfg: Settings, s: Joint, i: nat, action: Rotation.Action)
    requires JointInv(cfg, s) && May(cfg, s, Turn(i, action))
    ensures JointInv(cfg, AfterTurn(cfg, s, i, action))
  {
    hide JointInv, Rotation.Inv, Rotation.After, Settings.Valid;
    JointFacts(cfg, s);
    TurnClaims(cfg, s.log, i, action);
    Rotation.StepKeeps(cfg, s.log, i, action);
    var log := Rotation.After(cfg, s.log, i, action);
    if log.claims == s.log.claims {
      LogMoved(cfg, s, log);
    } else {
      TermOpened(cfg, s, log);
    }
  }

  lemma RotationFacts(cfg: Settings, log: Rotation.Log)
    requires Rotation.Inv(cfg, log)
    ensures cfg.Valid()
    ensures forall t :: 0 <= t < |log.claims| - 1 ==> Rotation.ClaimsEnd(log.claims[t]) > cfg.termLength
  {
  }

  /** One term has moved on: its frames are those it had and perhaps more behind them, none if the
      subscriber is past. */
  ghost predicate MovedOn(cfg: Settings, s: Joint, t: nat, moved: Term)
    requires Shape(s) && t < |s.terms|
  {
    && |moved.frames| == |moved.stage| && s.terms[t].frames <= moved.frames && s.terms[t].tail <= moved.tail
    && FrontOf(s.terms[t]) <= FrontOf(moved) && (t < s.term ==> moved.frames == s.terms[t].frames)
  }

  lemma ConsumedStays(cfg: Settings, s: Joint, s': Joint, t: nat)
    requires Shape(s) && t < |s.terms| == |s'.terms| && MovedOn(cfg, s, t, s'.terms[t])
             && s'.terms == s.terms[t := s'.terms[t]]
    requires |s'.sent| == |s.sent| && |s'.log.claims| == |s.log.claims| && |s'.log.tails| == 3
    requires s'.term == s.term && s'.index == s.index
    ensures Shape(s') && ConsumedOf(s') == ConsumedOf(s)
  {
    SameFrames(s.terms[..s.term], s'.terms[..s.term]);
    hide Front;
    if s.term < |s.terms| {
      assert s'.terms[s.term].frames[..s.index] == s.terms[s.term].frames[..s.index];
    }
  }

  lemma TermMovesOn(cfg: Settings, s: Joint, s': Joint, t: nat)
    requires JointInv(cfg, s) && t < |s.terms| && |s'.terms| == |s.terms| && MovedOn(cfg, s, t, s'.terms[t])
    requires s'.terms == s.terms[t := s'.terms[t]] && Rotation.Inv(cfg, s'.log) && |s'.log.tails| == 3
    requires |s'.log.claims| == |s.log.claims| && |s'.sent| == |s.sent|
    requires forall u :: 0 <= u < |s.terms| && u != t ==> s'.log.claims[u] == s.log.claims[u] && s'.sent[u] == s.sent[u]
    requires Joined(cfg, t, s'.terms[t], s'.log.claims[t], s'.sent[t]) && MessagesIn(s.terms) <= MessagesIn(s'.terms)
    requires s'.term == s.term && s'.index == s.index && s'.reader == s.reader
    ensures JointInv(cfg, s')
  {
    hide Joined, Rotation.Inv, CaughtUp, Faithful, ConsumedOf, Shape, FrontOf;
    ShapeSizes(s);
    ConsumedStays(cfg, s, s', t);
    FaithfulToMore(s.reader.calls, MessagesIn(s.terms), MessagesIn(s'.terms));
    forall u | 0 <= u < |s'.terms|
      ensures Joined(cfg, u, s'.terms[u], s'.log.claims[u], s'.sent[u])
    {
      assert u != t ==> Joined(cfg, u, s.terms[u], s.log.claims[u], s.sent[u]);
    }
  }

  lemma ShapeSizes(s: Joint)
    requires Shape(s)
    ensures |s.terms| == |s.sent| == |s.log.claims| && |s.log.tails| == 3 && s.term <= |s.terms|
    ensures forall t :: 0 <= t < |s.terms| ==> |s.terms[t].frames| == |s.terms[t].stage|
  {
  }

  lemma WriteKeepsJoint(cfg: Settings, s: Joint, t: nat, j: nat)
    requires JointInv(cfg, s) && t < |s.terms|
    ensures cfg.Valid() && JointInv(cfg, s.(terms := s.terms[t := TermAfter(cfg, t, s.terms[t], WriteMore(j))]))
  {
    hide JointInv, Joined, ConsumedOf, FrontOf, Rotation.Inv, TermAfter, MovedOn, Settings.Valid;
    JointFacts(cfg, s);
    var moved := TermAfter(cfg, t, s.terms[t], WriteMore(j));
    var s' := s.(terms := s.terms[t := moved]);
    TailsAreClaims(cfg, s, t);
    JoinedWritten(cfg, t, s.terms[t], s.log.claims[t], s.sent[t], j);
    Moves(cfg, s, t, moved);
    SameMessages(s.terms, s'.terms);
    TermMovesOn(cfg, s, s', t);
  }

  lemma JoinedWritten(cfg: Settings, t: nat, term: Term, claims: seq<Rotation.Claim>, sent: seq<seq<int>>, j: nat)
    requires Joined(cfg, t, term, claims, sent) && cfg.Valid()
    ensures var moved := TermAfter(cfg, t, term, WriteMore(j));
            && Joined(cfg, t, moved, claims, sent)
            && |term.frames| == |term.stage| && |moved.frames| == |moved.stage|
            && moved.frames == term.frames && moved.tail == term.tail && moved.messages == term.messages
            && FrontOf(term) <= FrontOf(moved)
  {
    hide TermInv, Front, CanWrite, WriteNext, Successful;
    SameLengths(cfg, t, term);
    if CanWrite(term, j) {
      WriteKeeps(cfg, t, term, j);
    } else {
      NothingWritten(cfg, t, term, j);
    }
    FrontGrows(cfg, t, term, WriteMore(j));
  }

  /** A claim at the end of those made so far. */
  lemma SuccessfulMore(cfg: Settings, claims: seq<Rotation.Claim>, sent: seq<seq<int>>, c: Rotation.Claim, m: seq<int>)
    requires |claims| == |sent|
    ensures Successful(cfg, claims + [c], sent + [m])
            == Successful(cfg, claims, sent) + if Rotation.Trips(cfg, c) then [] else [m]
    ensures Rotation.ClaimsEnd(claims + [c]) == c.offset + c.required
  {
    assert (claims + [c])[..|claims|] == claims && (sent + [m])[..|sent|] == sent;
  }

  /** A message claimed at the tail of a term. */
  lemma JoinedMore(cfg: Settings, t: nat, term: Term, claims: seq<Rotation.Claim>, sent: seq<seq<int>>,
                   c: Rotation.Claim, message: seq<int>)
    requires Joined(cfg, t, term, claims, sent) && cfg.Valid() && Rotation.Offerable(cfg, |message|)
    requires c.offset == Rotation.ClaimsEnd(claims) && c.required == Required(cfg, |message|)
    ensures var moved := TermAfter(cfg, t, term, ClaimRange(message));
            && Joined(cfg, t, moved, claims + [c], sent + [message])
            && |term.frames| == |term.stage| && |moved.frames| == |moved.stage|
            && term.frames <= moved.frames && term.tail < moved.tail && FrontOf(term) <= FrontOf(moved)
            && moved.messages == term.messages + (if Rotation.Trips(cfg, c) then [] else [message])
            && (term.tail >= cfg.termLength ==> moved.frames == term.frames)
  {
    hide TermInv, Front, Successful, Rotation.ClaimsEnd, FramesOf, Required, Complete;
    Rotation.RequiredBounds(cfg, |message|);
    SameLengths(cfg, t, term);
    ClaimKeeps(cfg, t, term, message);
    FrontGrows(cfg, t, term, ClaimRange(message));
    SuccessfulMore(cfg, claims, sent, c, message);
  }

  /** Only the newest term can still take messages, so they join the others at the end. */
  lemma {:induction false} MessagesGrow(x: seq<Term>, y: seq<Term>, t: nat, more: seq<seq<int>>)
    requires t < |x| == |y| && y == x[t := y[t]] && y[t].messages == x[t].messages + more
    requires more == [] || t == |x| - 1
    ensures MessagesIn(y) == MessagesIn(x) + more
  {
    if more == [] {
      SameMessages(x, y);
    } else {
      assert y[..|y| - 1] == x[..|x| - 1];
    }
  }

  lemma JointFacts(cfg: Settings, s: Joint)
    requires JointInv(cfg, s)
    ensures cfg.Valid() && Rotation.Inv(cfg, s.log) && Shape(s)
  {
  }

  lemma Moves(cfg: Settings, s: Joint, t: nat, moved: Term)
    requires Shape(s) && t < |s.terms| && |moved.frames| == |moved.stage|
    requires s.terms[t].frames <= moved.frames && s.terms[t].tail <= moved.tail && FrontOf(s.terms[t]) <= FrontOf(moved)
    requires t < s.term ==> moved.frames == s.terms[t].frames
    ensures MovedOn(cfg, s, t, moved)
  {
  }

  lemma OfferKeeps(cfg: Settings, s: Joint, i: nat, message: seq<int>)
    requires JointInv(cfg, s) && May(cfg, s, Offer(i, message))
    ensures cfg.Valid() && JointInv(cfg, AfterOffer(cfg, s, i, message))
  {
    hide JointInv, Joined, ConsumedOf, FrontOf, Rotation.Inv, Rotation.ClaimsEnd, TermAfter, MovedOn, Settings.Valid;
    JointFacts(cfg, s);
    var t, planned := ClaimsFrom(s, i), s.log.threads[i].term;
    ClaimFacts(cfg, s.log, i);
    Rotation.FetchAddKeeps(cfg, s.log, i);
    var tail := s.log.tails[planned % 3];
    var claim := Rotation.Claim(i, tail.offset, Required(cfg, |message|), planned);
    var s' := AfterOffer(cfg, s, i, message);
    assert s'.log.claims == s.log.claims[t := s.log.claims[t] + [claim]] && |s'.log.tails| == 3;
    TailsAreClaims(cfg, s, t);
    JoinedMore(cfg, t, s.terms[t], s.log.claims[t], s.sent[t], claim, message);
    hide Rotation.After, Rotation.Trips;
    assert MovedOn(cfg, s, t, s'.terms[t]) by { Moves(cfg, s, t, s'.terms[t]); }
    MessagesGrow(s.terms, s'.terms, t, if Rotation.Trips(cfg, claim) then [] else [message]);
    TermMovesOn(cfg, s, s', t);
  }

  /** A claim only adds frames to its term, and none to a term the subscriber has left. */
  lemma OfferMoves(cfg: Settings, s: Joint, i: nat, message: seq<int>)
    requires JointInv(cfg, s) && May(cfg, s, Offer(i, message))
    ensures var t := ClaimsFrom(s, i);
            && cfg.Valid()
            && var moved := TermAfter(cfg, t, s.terms[t], ClaimRange(message));
               MovedOn(cfg, s, t, moved) && moved.cells == s.terms[t].cells
  {
    hide JointInv, Joined, FrontOf, Rotation.Inv, Rotation.ClaimsEnd, MovedOn, Settings.Valid, FramesClaimed;
    JointFacts(cfg, s);
    var t, planned := ClaimsFrom(s, i), s.log.threads[i].term;
    ClaimFacts(cfg, s.log, i);
    TailsAreClaims(cfg, s, t);
    var claim := Rotation.Claim(i, s.log.tails[planned % 3].offset, Required(cfg, |message|), planned);
    JoinedMore(cfg, t, s.terms[t], s.log.claims[t], s.sent[t], claim, message);
    var moved := TermAfter(cfg, t, s.terms[t], ClaimRange(message));
    assert moved.cells == s.terms[t].cells;
    hide TermAfter;
    Moves(cfg, s, t, moved);
  }

  /** A claim that fits the rest of its term adds its message to those in memory, any other adds none. */
  lemma OfferAdds(cfg: Settings, s: Joint, i: nat, message: seq<int>)
    requires JointInv(cfg, s) && May(cfg, s, Offer(i, message))
    ensures cfg.Valid()
    ensures var offset := s.log.tails[s.log.threads[i].term % 3].offset;
            MessagesIn(AfterOffer(cfg, s, i, message).terms)
            == MessagesIn(s.terms) + if offset + Required(cfg, |message|) <= cfg.termLength then [message] else []
  {
    hide JointInv, Joined, FrontOf, Rotation.Inv, Rotation.ClaimsEnd, TermAfter, Settings.Valid, MessagesIn;
    JointFacts(cfg, s);
    var t, planned := ClaimsFrom(s, i), s.log.threads[i].term;
    ClaimFacts(cfg, s.log, i);
    TailsAreClaims(cfg, s, t);
    var claim := Rotation.Claim(i, s.log.tails[planned % 3].offset, Required(cfg, |message|), planned);
    JoinedMore(cfg, t, s.terms[t], s.log.claims[t], s.sent[t], claim, message);
    hide Rotation.After;
    MessagesGrow(s.terms, AfterOffer(cfg, s, i, message).terms, t,
                 if Rotation.Trips(cfg, claim) then [] else [message]);
  }

  /** Writing a byte changes neither frames nor tail. */
  lemma WriteMoves(cfg: Settings, s: Joint, t: nat, j: nat)
    requires JointInv(cfg, s) && t < |s.terms|
    ensures cfg.Valid() && MovedOn(cfg, s, t, TermAfter(cfg, t, s.terms[t], WriteMore(j)))
  {
    hide JointInv, Joined, FrontOf, Rotation.Inv, TermAfter, MovedOn, Settings.Valid;
    JointFacts(cfg, s);
    TailsAreClaims(cfg, s, t);
    JoinedWritten(cfg, t, s.terms[t], s.log.claims[t], s.sent[t], j);
    Moves(cfg, s, t, TermAfter(cfg, t, s.terms[t], WriteMore(j)));
  }

  lemma TailsAreClaims(cfg: Settings, s: Joint, t: nat)
    requires JointInv(cfg, s) && t < |s.terms|
    ensures s.terms[t].tail == Rotation.ClaimsEnd(s.log.claims[t])
    ensures t < |s.terms| - 1 ==> s.terms[t].tail > cfg.termLength
    ensures t < s.term ==> s.terms[t].tail >= cfg.termLength
    ensures Joined(cfg, t, s.terms[t], s.log.claims[t], s.sent[t])
  {
    RotationFacts(cfg, s.log);
    assert Joined(cfg, t, s.terms[t], s.log.claims[t], s.sent[t]);
  }

  lemma ClaimFacts(cfg: Settings, log: Rotation.Log, i: nat)
    requires Rotation.Inv(cfg, log) && i < |log.threads| && log.threads[i].Ready?
    ensures |log.tails| == 3 && Rotation.Offerable(cfg, log.threads[i].length)
    ensures var tail := log.tails[log.threads[i].term % 3];
            0 <= tail.term < |log.claims| && tail.offset == Rotation.ClaimsEnd(log.claims[tail.term])
  {
    assert Rotation.Pending(cfg, log, log.threads[i]);
    Rotation.ClaimedTerm(cfg, log, log.threads[i].term);
  }

  /** A reader that has come to the end of a term has had all its frames, and no message will be added to it. */
  lemma TermFinished(cfg: Settings, t: nat, term: Term, k: nat)
    requires TermInv(cfg, t, term) && k <= |term.frames| && TilesEnd(term.frames[..k], 0) == cfg.termLength
    ensures k == |term.frames| && term.tail >= cfg.termLength
  {
    hide Deliver, Legal, EndsOpen, Status, Genuine;
    var frames := term.frames;
    if k < |frames| {
      TilesWithin(frames, 0, k);
      assert false;
    }
    assert frames[..k] == frames;
  }

  lemma AllTermsHold(cfg: Settings, s: Joint)
    requires JointInv(cfg, s)
    ensures forall t :: 0 <= t < |s.terms| ==> TermInv(cfg, t, s.terms[t])
  {
    hide Rotation.Inv, TermInv, CaughtUp, Faithful;
    forall t | 0 <= t < |s.terms|
      ensures TermInv(cfg, t, s.terms[t])
    {
      assert Joined(cfg, t, s.terms[t], s.log.claims[t], s.sent[t]);
    }
  }

  /** Where the subscriber stands in the stream of all frames. */
  lemma Standing(s: Joint)
    requires Shape(s) && s.term < |s.terms|
    ensures forall c :: 0 <= c <= |Ahead(s)| ==>
              ConsumedOf(s) + Ahead(s)[..c] == FramesIn(s.terms[..s.term]) + s.terms[s.term].frames[..s.index + c]
    ensures ConsumedOf(s) + Ahead(s) == FramesIn(s.terms[..s.term]) + s.terms[s.term].frames[..FrontOf(s.terms[s.term])]
    ensures ConsumedOf(s) + Ahead(s) <= FramesIn(s.terms)
  {
    hide FramesIn, FrontOf;
    var frames, front, before := s.terms[s.term].frames, FrontOf(s.terms[s.term]), FramesIn(s.terms[..s.term]);
    forall c | 0 <= c <= |Ahead(s)|
      ensures ConsumedOf(s) + Ahead(s)[..c] == before + frames[..s.index + c]
    {
      assert frames[..s.index] + Ahead(s)[..c] == frames[..s.index + c];
    }
    assert Ahead(s)[..|Ahead(s)|] == Ahead(s);
    OneTermMore(s.terms[..s.term], s.terms[s.term]);
    assert s.terms[..s.term] + [s.terms[s.term]] == s.terms[..s.term + 1];
    FramesInFront(s.terms, s.term + 1);
    assert frames == frames[..front] + frames[front..];
  }

  lemma AheadLegal(before: seq<Frame>, frames: seq<Frame>, i: nat, front: nat)
    requires Legal(before, false) && !EndsOpen(before, false) && Legal(frames, false) && i <= front <= |frames|
    ensures Legal(frames[i..front], EndsOpen(before + frames[..i], false))
  {
    hide Legal, EndsOpen;
    LegalSplit(frames, front, false);
    LegalSplit(frames[..front], i, false);
    assert frames[..front][..i] == frames[..i] && frames[..front][i..] == frames[i..front];
    LegalAppend(before, frames[..i], false);
  }

  lemma Parts(s: Joint)
    requires Shape(s) && s.term < |s.terms|
    ensures var frames := s.terms[s.term].frames;
            && |frames| == |s.terms[s.term].stage| && s.index <= FrontOf(s.terms[s.term])
            && Ahead(s) == frames[s.index..FrontOf(s.terms[s.term])]
            && ConsumedOf(s) == FramesIn(s.terms[..s.term]) + frames[..s.index]
  {
  }

  lemma StandingDelivers(cfg: Settings, s: Joint)
    requires JointInv(cfg, s) && s.term < |s.terms|
    ensures TermInv(cfg, s.term, s.terms[s.term])
    ensures Legal(Ahead(s), EndsOpen(ConsumedOf(s), false))
    ensures Deliver(IDLE, ConsumedOf(s) + Ahead(s)).1 <= MessagesIn(s.terms)
  {
    hide JointInv, TermInv, Legal, EndsOpen, Deliver, FramesIn, MessagesIn, FrontOf, Shape, ConsumedOf, Ahead, Tiles,
         TilesEnd;
    JointFacts(cfg, s);
    AllTermsHold(cfg, s);
    Standing(s);
    Parts(s);
    var frames, front, all := s.terms[s.term].frames, FrontOf(s.terms[s.term]), ConsumedOf(s) + Ahead(s);
    TermsDeliver(cfg, s.terms);
    TermsDeliver(cfg, s.terms[..s.term]);
    SameLengths(cfg, s.term, s.terms[s.term]);
    AheadLegal(FramesIn(s.terms[..s.term]), frames, s.index, front);
    DeliveredPrefix(IDLE, FramesIn(s.terms), |all|);
    assert FramesIn(s.terms)[..|all|] == all;
  }

  /** A poll changes only where the subscriber is and what it holds. */
  lemma ReadOnly(cfg: Settings, s: Joint, s': Joint)
    requires JointInv(cfg, s) && s' == s.(reader := s'.reader, term := s'.term, index := s'.index) && Shape(s')
    requires CaughtUp(s'.reader, ConsumedOf(s')) && Faithful(s'.reader.calls, MessagesIn(s.terms))
    requires s'.term == s.term || (s'.term == s.term + 1 && s.terms[s.term].tail >= cfg.termLength)
    ensures JointInv(cfg, s')
  {
    hide Rotation.Inv, CaughtUp, Faithful, ConsumedOf, MessagesIn, Shape, Joined;
  }

  lemma ReadKeeps(cfg: Settings, s: Joint, delegate: Delegate, limitOffset: int, fragmentLimit: int)
    requires JointInv(cfg, s)
    ensures cfg.Valid() && JointInv(cfg, AfterRead(cfg, s, delegate, limitOffset, fragmentLimit))
  {
    JointFacts(cfg, s);
    if s.term < |s.terms| {
      StandingDelivers(cfg, s);
      ReaderFacts(cfg, s);
      hide JointInv, CaughtUp, Faithful, TermInv, Legal, EndsOpen, Deliver, FramesIn, MessagesIn, FrontOf, Poll,
           HandlerOf;
      var scan := Poll(HandlerOf(delegate), s.reader, Ahead(s), limitOffset, fragmentLimit);
      PollCatchesUp(delegate, s.reader, ConsumedOf(s), Ahead(s), limitOffset, fragmentLimit);
      PollFaithful(delegate, s.reader, ConsumedOf(s), Ahead(s), limitOffset, fragmentLimit, MessagesIn(s.terms));
      AdvancedConsumes(cfg, s, scan.consumed);
      OtherReader(Advanced(cfg, s, scan.consumed), scan.state);
      hide ConsumedOf, Ahead, Shape, Advanced;
      ReadOnly(cfg, s, AfterRead(cfg, s, delegate, limitOffset, fragmentLimit));
    }
  }

  lemma AdvancedConsumes(cfg: Settings, s: Joint, consumed: nat)
    requires Shape(s) && s.term < |s.terms| && consumed <= |Ahead(s)| && TermInv(cfg, s.term, s.terms[s.term])
    ensures var s' := Advanced(cfg, s, consumed);
            && Shape(s') && s' == s.(term := s'.term, index := s'.index)
            && ConsumedOf(s') == ConsumedOf(s) + Ahead(s)[..consumed]
            && (s'.term == s.term || (s'.term == s.term + 1 && s.terms[s.term].tail >= cfg.termLength))
            && (s'.term > s.term ==> FrontOf(s.terms[s.term]) == |s.terms[s.term].frames|)
  {
    hide TermInv, FramesIn, FrontOf;
    Standing(s);
    var index, frames := s.index + consumed, s.terms[s.term].frames;
    if TilesEnd(frames[..index], 0) == cfg.termLength {
      TermFinished(cfg, s.term, s.terms[s.term], index);
      OneTermMore(s.terms[..s.term], s.terms[s.term]);
      assert s.terms[..s.term] + [s.terms[s.term]] == s.terms[..s.term + 1];
      assert frames[..index] == frames;
    }
  }

  /** Shape and consumed frames do not depend on the assembler. */
  lemma OtherReader(s: Joint, reader: Reader)
    requires Shape(s)
    ensures Shape(s.(reader := reader)) && ConsumedOf(s.(reader := reader)) == ConsumedOf(s)
  {
  }

  lemma ReaderFacts(cfg: Settings, s: Joint)
    requires JointInv(cfg, s)
    ensures CaughtUp(s.reader, ConsumedOf(s)) && Faithful(s.reader.calls, MessagesIn(s.terms))
  {
  }

  lemma JointStepKeeps(cfg: Settings, s: Joint, step: JointStep)
    requires JointInv(cfg, s) && May(cfg, s, step)
    ensures cfg.Valid() && JointInv(cfg, JointAfter(cfg, s, step))
  {
    JointFacts(cfg, s);
    hide JointInv, AfterTurn, AfterOffer, AfterRead, TermAfter;
    match step
    case Turn(i, action) => TurnKeeps(cfg, s, i, action);
    case Offer(i, message) => OfferKeeps(cfg, s, i, message);
    case Write(t, j) => WriteKeepsJoint(cfg, s, t, j);
    case Read(delegate, limitOffset, fragmentLimit) => ReadKeeps(cfg, s, delegate, limitOffset, fragmentLimit);
  }

  /** A run of writers, driver and subscriber. */
  ghost predicate JointRun(cfg: Settings, threads: nat, states: seq<Joint>, steps: seq<JointStep>) {
    && cfg.Valid() && |states| == |steps| + 1 && states[0] == Beginning(cfg, threads)
    && forall i, j :: 0 <= i < |steps| && j == i + 1 ==> JointGoes(cfg, states[i], steps[i], states[j])
  }

  ghost predicate JointGoes(cfg: Settings, s: Joint, step: JointStep, s': Joint)
    requires cfg.Valid()
  {
    Shape(s) && May(cfg, s, step) && s' == JointAfter(cfg, s, step)
  }

  lemma {:induction false} JointRunKeeps(cfg: Settings, threads: nat, states: seq<Joint>, steps: seq<JointStep>, k: nat)
    requires JointRun(cfg, threads, states, steps) && k < |states|
    ensures JointInv(cfg, states[k])
  {
    hide JointInv, JointAfter, May, Shape;
    if k == 0 {
      BeginningInv(cfg, threads);
    } else {
      JointRunKeeps(cfg, threads, states, steps, k - 1);
      assert JointGoes(cfg, states[k - 1], steps[k - 1], states[k]);
      JointStepKeeps(cfg, states[k - 1], steps[k - 1]);
    }
  }

  /** A thread that is ready can always make its claim. */
  lemma ReadyMayOffer(cfg: Settings, s: Joint, i: nat, message: seq<int>)
    requires JointInv(cfg, s) && i < |s.log.threads| && s.log.threads[i].Ready? && s.log.threads[i].length == |message|
    ensures May(cfg, s, Offer(i, message))
  {
    ClaimFacts(cfg, s.log, i);
  }

  /** What memory shows the subscriber is what the poll is taken to find. */
  lemma MemoryShowsAhead(cfg: Settings, s: Joint)
    requires JointInv(cfg, s) && s.term < |s.terms|
    ensures var term := s.terms[s.term]; Readable(term.cells, TilesEnd(term.frames[..s.index], 0), Ahead(s))
  {
    hide Rotation.Inv, CaughtUp, Faithful, Readable, ConsumedOf, Status, Deliver;
    var term := s.terms[s.term];
    assert Joined(cfg, s.term, term, s.log.claims[s.term], s.sent[s.term]);
    FrontReadable(cfg, s.term, term, s.index, FrontOf(term));
  }

  /** What the subscriber of a state that keeps the invariant has settled. */
  lemma JointDelivers(cfg: Settings, s: Joint)
    requires JointInv(cfg, s)
    ensures Shape(s) && (forall t :: 0 <= t < |s.log.claims| ==> |s.log.claims[t]| == |s.sent[t]|)
    ensures var messages := AllSuccessful(cfg, s.log.claims, s.sent);
            && Settled(s.reader.calls) <= messages && Faithful(s.reader.calls, messages)
            && (ConsumedOf(s) == FramesIn(s.terms) ==> Settled(s.reader.calls) == messages)
  {
    hide Rotation.Inv, Faithful, Successful, AllSuccessful, Legal, EndsOpen, Deliver, FramesIn, MessagesIn, TermInv,
         Settled;
    MessagesAreSuccessful(cfg, s.terms, s.log.claims, s.sent);
    forall t | 0 <= t < |s.terms|
      ensures TermInv(cfg, t, s.terms[t])
    {
      assert Joined(cfg, t, s.terms[t], s.log.claims[t], s.sent[t]);
    }
    TermsDeliver(cfg, s.terms);
    ConsumedIsFront(s);
    DeliveredPrefix(IDLE, FramesIn(s.terms), |ConsumedOf(s)|);
    assert FramesIn(s.terms)[..|ConsumedOf(s)|] == ConsumedOf(s);
  }

  /** Any number of writers, any number of terms, any schedule of bytes, polls and answers: the messages a subscriber
      has settled are a prefix of those whose claims succeeded, in the order of the claims, once each; every call
      carried the first one not yet settled; and with all frames consumed it has them all. */
  lemma SharedDelivery(cfg: Settings, threads: nat, states: seq<Joint>, steps: seq<JointStep>, k: nat)
    requires JointRun(cfg, threads, states, steps) && k < |states|
    ensures var s := states[k];
            && Shape(s) && (forall t :: 0 <= t < |s.log.claims| ==> |s.log.claims[t]| == |s.sent[t]|)
            && var messages := AllSuccessful(cfg, s.log.claims, s.sent);
               && Settled(s.reader.calls) <= messages && Faithful(s.reader.calls, messages)
               && (ConsumedOf(s) == FramesIn(s.terms) ==> Settled(s.reader.calls) == messages)
  {
    hide JointInv;
    JointRunKeeps(cfg, threads, states, steps, k);
    JointDelivers(cfg, states[k]);
  }

  lemma ConsumedIsFront(s: Joint)
    requires Shape(s)
    ensures ConsumedOf(s) <= FramesIn(s.terms)
  {
    hide FramesIn, FrontOf;
    if s.term < |s.terms| {
      OneTermMore(s.terms[..s.term], s.terms[s.term]);
      assert s.terms[..s.term] + [s.terms[s.term]] == s.terms[..s.term + 1];
      FramesInFront(s.terms, s.term + 1);
    } else {
      assert s.terms[..s.term] == s.terms;
    }
  }
}
