/**
 The three buffers behind the terms of a shared publication. Each buffer serves one term after the other; the driver
 zeroes it in between. With two rules for the driver, and claims over the end of a term made only by threads that had
 planned that term, no frame that is being written or is still to be read is ever zeroed or overwritten.
 */
module ReusedBuffers {
  import opened Framing
  import opened Images
  import opened Deliveries
  import opened ExclusivePublications
  import opened TermClaims
  import opened SharedStreams
  import Rotation

  /** Writers and subscriber, the term each buffer was last zeroed for, and the cells of the buffers. */
  datatype Memory = Memory(joint: Joint, owner: seq<int>, buffers: seq<seq<int>>)

  datatype MemoryStep = Working(step: JointStep) | Zeroing(p: nat)

  function Zeroes(cfg: Settings): seq<int> { Fresh(cfg.termLength).cells }

  function MemoryBeginning(cfg: Settings, threads: nat): Memory
    requires cfg.Valid()
  {
    Memory(Beginning(cfg, threads), [0, 1, 2], [Zeroes(cfg), Zeroes(cfg), Zeroes(cfg)])
  }

  predicate MemoryShape(m: Memory) { Shape(m.joint) && |m.owner| == 3 && |m.buffers| == 3 }

  /** The next step of a writer goes into the buffer that is that of its term. */
  function Written(m: Memory, t: nat, j: nat): seq<seq<int>>
    requires MemoryShape(m) && t < |m.joint.terms|
  {
    var term, p := m.joint.terms[t], t % 3;
    if CanWrite(term, j) && Room(m.buffers[p], term.frames[j]) then
      m.buffers[p := WriteNext(m.buffers[p], term.frames[j], term.stage[j])]
    else m.buffers
  }

  function MemoryAfter(cfg: Settings, m: Memory, step: MemoryStep): Memory
    requires cfg.Valid() && MemoryShape(m) && Ruled(cfg, m, step)
  {
    match step
    case Working(work) =>
      var buffers := if work.Write? then Written(m, work.term, work.frame) else m.buffers;
      m.(joint := JointAfter(cfg, m.joint, work), buffers := buffers)
    case Zeroing(p) => m.(owner := m.owner[p := m.owner[p] + 3], buffers := m.buffers[p := Zeroes(cfg)])
  }

  /** The buffer of the term after `t` has been zeroed for it, or there is none. */
  predicate NextReady(m: Memory, t: int)
    requires |m.owner| == 3
  {
    t < Rotation.LAST_TERM ==> m.owner[(t + 1) % 3] >= t + 1
  }

  /** A thread that passes the limit in its term. */
  predicate PassesLimit(cfg: Settings, log: Rotation.Log, i: nat, action: Rotation.Action) {
    && i < |log.threads| && |log.tails| == 3 && log.threads[i].Planned? && action.ReadTail?
    && Rotation.TailPosition(cfg, log.threads[i].term, log.tails[log.threads[i].term % 3].offset) < action.limit
  }

  /** A fetch-and-add that runs over the end of the term it comes to. */
  predicate TripsOver(cfg: Settings, s: Joint, i: nat)
    requires cfg.Valid() && Shape(s) && i < |s.log.threads| && s.log.threads[i].Ready?
  {
    s.log.tails[s.log.threads[i].term % 3].offset + Required(cfg, s.log.threads[i].length) > cfg.termLength
  }

  /** The rules: the driver zeroes a buffer only when the subscriber has left the term in it, and sets a limit
      beyond the position only once the buffer after the term has been zeroed; a claim over the end of a term
      was planned for it. */
  predicate Ruled(cfg: Settings, m: Memory, step: MemoryStep)
    requires cfg.Valid() && MemoryShape(m)
  {
    match step
    case Working(work) =>
      && May(cfg, m.joint, work)
      && (match work
          case Turn(i, action) => PassesLimit(cfg, m.joint.log, i, action) ==> NextReady(m, m.joint.log.threads[i].term)
          case Offer(i, _) => TripsOver(cfg, m.joint, i) ==> ClaimsFrom(m.joint, i) == m.joint.log.threads[i].term
          case _ => true)
    case Zeroing(p) => p < 3 && m.joint.term > m.owner[p]
  }

  /** The buffers are those of the terms they have been zeroed for: never ahead of the subscriber by more than the next
      two terms, never behind a term that there is. */
  ghost predicate Held(cfg: Settings, m: Memory)
    requires MemoryShape(m)
  {
    && (forall p :: 0 <= p < 3 ==> HeldIn(cfg, m, p))
    && forall t :: 0 <= t < |m.joint.terms| ==> m.owner[t % 3] >= t
  }

  ghost predicate HeldIn(cfg: Settings, m: Memory, p: nat)
    requires MemoryShape(m) && p < 3
  {
    && 0 <= m.owner[p] <= m.joint.term + 2 && m.owner[p] % 3 == p
    && m.buffers[p] == if m.owner[p] < |m.joint.terms| then m.joint.terms[m.owner[p]].cells else Zeroes(cfg)
  }

  /** Threads in an offer or behind a claim over the end: the next buffer has been zeroed. */
  ghost predicate Prepared(m: Memory, pc: Rotation.Pc)
    requires |m.owner| == 3
  {
    match pc
    case Ready(t, _) => NextReady(m, t)
    case Closing(t, _, _) => NextReady(m, t)
    case Rotating(t) => NextReady(m, t)
    case Swapping(t, _) => NextReady(m, t)
    case _ => true
  }

  /** Terms that the subscriber has left have been written to the end. */
  ghost predicate LeftComplete(s: Joint)
    requires Shape(s)
  {
    forall t :: 0 <= t < s.term ==> FrontOf(s.terms[t]) == |s.terms[t].frames|
  }

  ghost predicate MemoryInv(cfg: Settings, m: Memory) {
    && JointInv(cfg, m.joint) && MemoryShape(m) && Held(cfg, m) && LeftComplete(m.joint)
    && forall i :: 0 <= i < |m.joint.log.threads| ==> Prepared(m, m.joint.log.threads[i])
  }

  /** The buffer of a term that has not been left is still its own. */
  lemma StillItsOwn(cfg: Settings, m: Memory, t: nat)
    requires MemoryShape(m) && Held(cfg, m) && m.joint.term <= t < |m.joint.terms|
    ensures m.owner[t % 3] == t && m.buffers[t % 3] == m.joint.terms[t].cells
  {
    assert HeldIn(cfg, m, t % 3);
  }

  lemma BeginningHeld(cfg: Settings, threads: nat)
    requires cfg.Valid()
    ensures MemoryInv(cfg, MemoryBeginning(cfg, threads))
  {
    hide JointInv, Fresh, Settings.Valid, Shape;
    BeginningInv(cfg, threads);
    JointFacts(cfg, Beginning(cfg, threads));
    var m := MemoryBeginning(cfg, threads);
    forall p | 0 <= p < 3
      ensures HeldIn(cfg, m, p)
    {
    }
    assert forall i :: 0 <= i < threads ==> m.joint.log.threads[i] == Rotation.Idle;
  }

  lemma ZeroingKeeps(cfg: Settings, m: Memory, p: nat)
    requires MemoryInv(cfg, m) && cfg.Valid() && Ruled(cfg, m, Zeroing(p))
    ensures MemoryInv(cfg, MemoryAfter(cfg, m, Zeroing(p)))
  {
    hide JointInv, Shape, Fresh;
    var m' := MemoryAfter(cfg, m, Zeroing(p));
    assert HeldIn(cfg, m, p);
    forall q | 0 <= q < 3
      ensures HeldIn(cfg, m', q)
    {
      assert HeldIn(cfg, m, q);
    }
    forall i | 0 <= i < |m.joint.log.threads|
      ensures Prepared(m', m.joint.log.threads[i])
    {
      assert Prepared(m, m.joint.log.threads[i]);
    }
  }

  /** The rules make nobody wait but for the subscriber: where the buffer after a term has not been zeroed, the
      driver may zero it exactly when the subscriber has come to the term before that one, and one zeroing is enough. */
  lemma ZeroingReadies(cfg: Settings, m: Memory, t: nat)
    requires MemoryInv(cfg, m) && t < |m.joint.terms| && !NextReady(m, t)
    ensures cfg.Valid() && MemoryShape(m)
    ensures var p := (t + 1) % 3;
            && (Ruled(cfg, m, Zeroing(p)) <==> m.joint.term >= t - 1)
            && (Ruled(cfg, m, Zeroing(p)) ==> NextReady(MemoryAfter(cfg, m, Zeroing(p)), t))
  {
    hide JointInv, LeftComplete, Prepared, Settings.Valid;
    JointFacts(cfg, m.joint);
    assert HeldIn(cfg, m, (t + 1) % 3);
    if t >= 2 {
      assert m.owner[(t - 2) % 3] >= t - 2;
    }
  }

  lemma LeftStays(cfg: Settings, s: Joint, s': Joint, t: nat)
    requires Shape(s) && Shape(s') && LeftComplete(s) && t < |s.terms| == |s'.terms| && s'.term == s.term
    requires MovedOn(cfg, s, t, s'.terms[t]) && s'.terms == s.terms[t := s'.terms[t]]
    ensures LeftComplete(s')
  {
    hide Front;
  }

  /** The terms are the same ones with the same cells. */
  lemma HeldStays(cfg: Settings, m: Memory, s': Joint)
    requires MemoryShape(m) && Held(cfg, m) && Shape(s') && |s'.terms| == |m.joint.terms| && s'.term >= m.joint.term
    requires forall t :: 0 <= t < |s'.terms| ==> s'.terms[t].cells == m.joint.terms[t].cells
    ensures Held(cfg, m.(joint := s'))
  {
    hide Shape;
    forall p | 0 <= p < 3
      ensures HeldIn(cfg, m.(joint := s'), p)
    {
      assert HeldIn(cfg, m, p);
    }
  }

  lemma MemoryFacts(cfg: Settings, m: Memory)
    requires MemoryInv(cfg, m)
    ensures JointInv(cfg, m.joint) && MemoryShape(m) && Held(cfg, m) && LeftComplete(m.joint) && cfg.Valid()
    ensures forall i :: 0 <= i < |m.joint.log.threads| ==> Prepared(m, m.joint.log.threads[i])
  {
    JointFacts(cfg, m.joint);
  }

  lemma MemoryFromFacts(cfg: Settings, m: Memory)
    requires JointInv(cfg, m.joint) && MemoryShape(m) && Held(cfg, m) && LeftComplete(m.joint)
    requires forall i :: 0 <= i < |m.joint.log.threads| ==> Prepared(m, m.joint.log.threads[i])
    ensures MemoryInv(cfg, m)
  {
  }

  lemma OfferingKeeps(cfg: Settings, m: Memory, i: nat, message: seq<int>)
    requires MemoryInv(cfg, m) && cfg.Valid() && Ruled(cfg, m, Working(Offer(i, message)))
    ensures MemoryInv(cfg, MemoryAfter(cfg, m, Working(Offer(i, message))))
  {
    hide MemoryInv, JointInv, Held, LeftComplete, Shape, MovedOn, TermAfter, Settings.Valid, Required;
    MemoryFacts(cfg, m);
    JointFacts(cfg, m.joint);
    var s, s' := m.joint, AfterOffer(cfg, m.joint, i, message);
    ShapeSizes(s);
    OfferMoves(cfg, s, i, message);
    OfferKeeps(cfg, s, i, message);
    JointFacts(cfg, s');
    LeftStays(cfg, s, s', ClaimsFrom(s, i));
    HeldStays(cfg, m, s');
    OfferPrepared(cfg, m, i, message);
    hide AfterOffer;
    MemoryFromFacts(cfg, MemoryAfter(cfg, m, Working(Offer(i, message))));
  }

  lemma OfferPrepared(cfg: Settings, m: Memory, i: nat, message: seq<int>)
    requires cfg.Valid() && MemoryShape(m) && Ruled(cfg, m, Working(Offer(i, message)))
    requires forall k :: 0 <= k < |m.joint.log.threads| ==> Prepared(m, m.joint.log.threads[k])
    ensures var m' := MemoryAfter(cfg, m, Working(Offer(i, message)));
            forall k :: 0 <= k < |m'.joint.log.threads| ==> |m'.owner| == 3 && Prepared(m', m'.joint.log.threads[k])
  {
    assert cfg.maxPayload > 0;
    hide Shape, TermAfter, Settings.Valid, Required;
    var m' := MemoryAfter(cfg, m, Working(Offer(i, message)));
    forall k | 0 <= k < |m'.joint.log.threads|
      ensures Prepared(m', m'.joint.log.threads[k])
    {
      assert Prepared(m, m.joint.log.threads[k]) && Prepared(m, m.joint.log.threads[i]);
    }
  }

  lemma ReadingKeeps(cfg: Settings, m: Memory, work: JointStep)
    requires MemoryInv(cfg, m) && cfg.Valid() && Ruled(cfg, m, Working(work)) && work.Read?
    ensures MemoryInv(cfg, MemoryAfter(cfg, m, Working(work)))
  {
    hide MemoryInv, JointInv, Held, LeftComplete, Shape, Settings.Valid;
    MemoryFacts(cfg, m);
    var s' := AfterRead(cfg, m.joint, work.delegate, work.limitOffset, work.fragmentLimit);
    ReadKeeps(cfg, m.joint, work.delegate, work.limitOffset, work.fragmentLimit);
    JointFacts(cfg, s');
    ReadLeaves(cfg, m.joint, work.delegate, work.limitOffset, work.fragmentLimit);
    HeldStays(cfg, m, s');
    var m' := MemoryAfter(cfg, m, Working(work));
    assert m' == m.(joint := s') && s'.log == m.joint.log;
    assert forall i :: 0 <= i < |s'.log.threads| ==> Prepared(m, s'.log.threads[i]) ==> Prepared(m', s'.log.threads[i]);
    MemoryFromFacts(cfg, m');
  }

  lemma ReadLeaves(cfg: Settings, s: Joint, delegate: Delegate, limitOffset: int, fragmentLimit: int)
    requires JointInv(cfg, s) && Shape(s) && LeftComplete(s) && cfg.Valid()
    requires Shape(AfterRead(cfg, s, delegate, limitOffset, fragmentLimit))
    ensures var s' := AfterRead(cfg, s, delegate, limitOffset, fragmentLimit);
            s'.terms == s.terms && s'.log == s.log && s.term <= s'.term && LeftComplete(s')
  {
    hide JointInv, TermInv, Poll, FrontOf, Ahead, ConsumedOf, Settings.Valid;
    if s.term < |s.terms| {
      AllTermsHold(cfg, s);
      var scan := Poll(HandlerOf(delegate), s.reader, Ahead(s), limitOffset, fragmentLimit);
      AdvancedConsumes(cfg, s, scan.consumed);
    }
  }

  lemma WritingKeeps(cfg: Settings, m: Memory, t: nat, j: nat)
    requires MemoryInv(cfg, m) && cfg.Valid() && Ruled(cfg, m, Working(Write(t, j)))
    ensures MemoryInv(cfg, MemoryAfter(cfg, m, Working(Write(t, j))))
  {
    hide MemoryInv, JointInv, Held, LeftComplete, Shape, MovedOn, WriteNext, CanWrite, Room, Settings.Valid;
    MemoryFacts(cfg, m);
    var s, s' := m.joint, JointAfter(cfg, m.joint, Write(t, j));
    ShapeSizes(s);
    WriteMoves(cfg, s, t, j);
    WriteKeepsJoint(cfg, s, t, j);
    JointFacts(cfg, s');
    LeftStays(cfg, s, s', t);
    var m' := MemoryAfter(cfg, m, Working(Write(t, j)));
    WrittenHeld(cfg, m, t, j, m');
    assert forall i :: 0 <= i < |s'.log.threads| ==> Prepared(m, s'.log.threads[i]) ==> Prepared(m', s'.log.threads[i]);
    MemoryFromFacts(cfg, m');
  }

  /** A frame that can still be written lies in a term that has not been left. */
  lemma WritableNotLeft(s: Joint, t: nat, j: nat)
    requires Shape(s) && LeftComplete(s) && t < |s.terms| && CanWrite(s.terms[t], j)
    ensures t >= s.term
  {
    hide Front;
  }

  lemma WrittenHeld(cfg: Settings, m: Memory, t: nat, j: nat, m': Memory)
    requires MemoryShape(m) && Held(cfg, m) && LeftComplete(m.joint) && t < |m.joint.terms| && cfg.Valid()
    requires m'.owner == m.owner && m'.buffers == Written(m, t, j) && MemoryShape(m')
    requires m'.joint == m.joint.(terms := m.joint.terms[t := TermAfter(cfg, t, m.joint.terms[t], WriteMore(j))])
    ensures Held(cfg, m')
  {
    hide Shape, LeftComplete, WriteNext, Room;
    if CanWrite(m.joint.terms[t], j) {
      WritableNotLeft(m.joint, t, j);
      StillItsOwn(cfg, m, t);
    }
    forall p | 0 <= p < 3
      ensures HeldIn(cfg, m', p)
    {
      assert HeldIn(cfg, m, p);
    }
  }

  /** The steps of a thread between its claims keep the next buffer of its term zeroed. */
  lemma TurnPrepared(cfg: Settings, m: Memory, i: nat, action: Rotation.Action)
    requires cfg.Valid() && MemoryShape(m) && Ruled(cfg, m, Working(Turn(i, action)))
    requires forall k :: 0 <= k < |m.joint.log.threads| ==> Prepared(m, m.joint.log.threads[k])
    ensures var log := Rotation.After(cfg, m.joint.log, i, action);
            forall k :: 0 <= k < |log.threads| ==> Prepared(m, log.threads[k])
  {
    assert cfg.maxPayload > 0;
    hide Shape, Settings.Valid, Rotation.ResultingPosition, Rotation.TailPosition;
    var log := Rotation.After(cfg, m.joint.log, i, action);
    forall k | 0 <= k < |log.threads|
      ensures Prepared(m, log.threads[k])
    {
      assert Prepared(m, m.joint.log.threads[k]) && Prepared(m, m.joint.log.threads[i]);
    }
  }

  /** A step that opens a term is a swap in the newest one. */
  lemma OpensNext(cfg: Settings, log: Rotation.Log, i: nat, action: Rotation.Action)
    requires Rotation.Inv(cfg, log) && cfg.Valid() && i < |log.threads| && |log.tails| == 3 && !action.FetchAdd?
    requires |Rotation.After(cfg, log, i, action).claims| > |log.claims|
    ensures log.threads[i].Swapping? && log.threads[i].term == |log.claims| - 1 < Rotation.LAST_TERM
  {
    assert Rotation.Pending(cfg, log, log.threads[i]);
    Rotation.NextTail(cfg, log, log.threads[i].term);
  }

  /** The buffers stay right when a new term is opened exactly when its buffer has been zeroed for it: which is why a
      claim over the end of a term must be one whose thread has seen the limit of that term. */
  lemma OpenedHeldIff(cfg: Settings, m: Memory, log: Rotation.Log)
    requires cfg.Valid() && MemoryShape(m) && Held(cfg, m) && m.joint.terms != []
    requires |log.claims| == |m.joint.terms| + 1 && |log.tails| == 3
    requires |m.joint.terms| - 1 < Rotation.LAST_TERM && Shape(Opened(cfg, m.joint, log))
    ensures Held(cfg, m.(joint := Opened(cfg, m.joint, log))) <==> NextReady(m, |m.joint.terms| - 1)
  {
    hide Fresh, FrontOf;
    var m', n := m.(joint := Opened(cfg, m.joint, log)), |m.joint.terms|;
    assert HeldIn(cfg, m, n % 3);
    if NextReady(m, n - 1) {
      assert m.owner[n % 3] == n;
      forall p | 0 <= p < 3
        ensures HeldIn(cfg, m', p)
      {
        assert HeldIn(cfg, m, p);
      }
    } else {
      assert m'.owner[n % 3] < n < |m'.joint.terms|;
    }
  }

  lemma LeftOpened(cfg: Settings, s: Joint, log: Rotation.Log)
    requires cfg.Valid() && Shape(s) && LeftComplete(s) && Shape(Opened(cfg, s, log))
    ensures LeftComplete(Opened(cfg, s, log))
  {
    hide Fresh, FrontOf;
  }

  lemma TurningKeeps(cfg: Settings, m: Memory, i: nat, action: Rotation.Action)
    requires MemoryInv(cfg, m) && cfg.Valid() && Ruled(cfg, m, Working(Turn(i, action)))
    ensures MemoryInv(cfg, MemoryAfter(cfg, m, Working(Turn(i, action))))
  {
    hide MemoryInv, JointInv, Held, LeftComplete, Shape, Settings.Valid, Rotation.Inv, Rotation.After, Prepared,
         NextReady;
    MemoryFacts(cfg, m);
    JointFacts(cfg, m.joint);
    ShapeSizes(m.joint);
    var s, s' := m.joint, AfterTurn(cfg, m.joint, i, action);
    var log := Rotation.After(cfg, s.log, i, action);
    TurnKeeps(cfg, s, i, action);
    JointFacts(cfg, s');
    TurnPrepared(cfg, m, i, action);
    TurnClaims(cfg, s.log, i, action);
    var m' := MemoryAfter(cfg, m, Working(Turn(i, action)));
    if |log.claims| > |s.log.claims| {
      OpensNext(cfg, s.log, i, action);
      SwapIsReady(m, s.log.threads[i]);
      OpenedHeldIff(cfg, m, log);
      LeftOpened(cfg, s, log);
    } else {
      HeldStays(cfg, m, s');
      LeftSame(s, s');
    }
    SamePrepared(m, m');
    MemoryFromFacts(cfg, m');
  }

  lemma SwapIsReady(m: Memory, pc: Rotation.Pc)
    requires |m.owner| == 3 && Prepared(m, pc) && pc.Swapping?
    ensures NextReady(m, pc.term)
  {
  }

  lemma LeftSame(s: Joint, s': Joint)
    requires Shape(s) && Shape(s') && LeftComplete(s) && s'.terms == s.terms && s'.term == s.term
    ensures LeftComplete(s')
  {
  }

  lemma SamePrepared(m: Memory, m': Memory)
    requires |m.owner| == 3 && m'.owner == m.owner
    ensures forall pc: Rotation.Pc :: Prepared(m, pc) <==> Prepared(m', pc)
  {
  }

  /** Every step under the rules keeps the buffers right. */
  lemma MemoryStepKeeps(cfg: Settings, m: Memory, step: MemoryStep)
    requires MemoryInv(cfg, m) && cfg.Valid() && Ruled(cfg, m, step)
    ensures MemoryInv(cfg, MemoryAfter(cfg, m, step))
  {
    hide MemoryInv, MemoryAfter, Ruled;
    match step
    case Zeroing(p) => ZeroingKeeps(cfg, m, p);
    case Working(work) =>
      match work
      case Turn(i, action) => TurningKeeps(cfg, m, i, action);
      case Offer(i, message) => OfferingKeeps(cfg, m, i, message);
      case Write(t, j) => WritingKeeps(cfg, m, t, j);
      case Read(_, _, _) => ReadingKeeps(cfg, m, work);
  }

  ghost predicate MemoryRun(cfg: Settings, threads: nat, states: seq<Memory>, steps: seq<MemoryStep>) {
    && cfg.Valid() && |states| == |steps| + 1 && states[0] == MemoryBeginning(cfg, threads)
    && forall i, j :: 0 <= i < |steps| && j == i + 1 ==> MemoryGoes(cfg, states[i], steps[i], states[j])
  }

  ghost predicate MemoryGoes(cfg: Settings, m: Memory, step: MemoryStep, m': Memory)
    requires cfg.Valid()
  {
    MemoryShape(m) && Ruled(cfg, m, step) && m' == MemoryAfter(cfg, m, step)
  }

  lemma {:induction false} MemoryRunKeeps(cfg: Settings, threads: nat, states: seq<Memory>, steps: seq<MemoryStep>,
                                          k: nat)
    requires MemoryRun(cfg, threads, states, steps) && k < |states|
    ensures MemoryInv(cfg, states[k])
  {
    hide MemoryInv, MemoryAfter, Ruled;
    if k == 0 {
      BeginningHeld(cfg, threads);
    } else {
      MemoryRunKeeps(cfg, threads, states, steps, k - 1);
      assert MemoryGoes(cfg, states[k - 1], steps[k - 1], states[k]);
      MemoryStepKeeps(cfg, states[k - 1], steps[k - 1]);
    }
  }

  /** A term that the subscriber has not left, or in which a frame can still be written. */
  ghost predicate Needed(s: Joint, t: nat)
    requires t < |s.terms|
  {
    s.term <= t || exists j: nat :: CanWrite(s.terms[t], j)
  }

  /** In every run under the rules, three buffers are enough. Every term in which a frame can still be written, and
      every term the subscriber has not left, has its cells in its buffer: they have not been zeroed and no other term
      has written there. So what the subscriber reads there are the complete frames ahead of it, and it settles the
      messages of the successful claims, in order, once each. */
  lemma ThreeBuffersSuffice(cfg: Settings, threads: nat, states: seq<Memory>, steps: seq<MemoryStep>, k: nat, t: nat)
    requires MemoryRun(cfg, threads, states, steps) && k < |states|
    ensures var m := states[k];
            && MemoryShape(m)
            && (t < |m.joint.terms| && Needed(m.joint, t) ==>
                  m.owner[t % 3] == t && m.buffers[t % 3] == m.joint.terms[t].cells)
            && (m.joint.term < |m.joint.terms| ==>
                  Readable(m.buffers[m.joint.term % 3],
                           TilesEnd(m.joint.terms[m.joint.term].frames[..m.joint.index], 0), Ahead(m.joint)))
            && (forall u :: 0 <= u < |m.joint.log.claims| ==> |m.joint.log.claims[u]| == |m.joint.sent[u]|)
            && var messages := AllSuccessful(cfg, m.joint.log.claims, m.joint.sent);
               Settled(m.joint.reader.calls) <= messages && Faithful(m.joint.reader.calls, messages)
  {
    hide MemoryInv, JointInv, Held, LeftComplete, Readable, Shape, CanWrite, Settled, Faithful, AllSuccessful;
    MemoryRunKeeps(cfg, threads, states, steps, k);
    var m := states[k];
    MemoryFacts(cfg, m);
    JointDelivers(cfg, m.joint);
    if t < |m.joint.terms| && Needed(m.joint, t) {
      if t < m.joint.term {
        var j: nat :| CanWrite(m.joint.terms[t], j);
        WritableNotLeft(m.joint, t, j);
      }
      StillItsOwn(cfg, m, t);
    }
    if m.joint.term < |m.joint.terms| {
      MemoryShowsAhead(cfg, m.joint);
      StillItsOwn(cfg, m, m.joint.term);
    }
  }
}
