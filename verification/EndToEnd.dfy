/**
 One exclusive publication and one subscriber on the three shared term buffers, in any interleaving of offers, polls
 and the driver's cleaning of buffers. The driver is assumed to let an offer through (raise the limit over the
 position) only once the buffer after the active one has been zeroed, and to zero a buffer only when the subscriber
 has left the term in it.
 */
module EndToEnd {
  import opened Framing
  import opened Sequences
  import opened Images
  import opened Assembly
  import opened Deliveries
  import opened ExclusivePublications

  /** `terms` is the history of all terms, the active one last; `accepted` the messages offered with success;
      the subscriber has consumed `term` whole terms and `index` frames of the next. */
  datatype System = System(pub: State, position: int, reader: Reader,
                           accepted: seq<seq<int>>, terms: seq<seq<Frame>>, term: nat, index: nat)

  datatype Step =
    | OfferStep(closed: bool, limit: int, connected: bool, message: seq<int>)
    | CleanStep
    | PollStep(delegate: Delegate, limitPosition: int, fragmentLimit: int)

  function Start(): System {
    System(State(0, 0, false, [[], [], []]), 0, Reader(IDLE, []), [], [[]], 0, 0)
  }

  /** The frames of a term from an offset on. */
  function From(frames: seq<Frame>, offset: int): seq<Frame> {
    if frames == [] || frames[0].offset >= offset then frames else From(frames[1..], offset)
  }

  /** What a poll finds at the subscriber position. */
  function Visible(cfg: Settings, parts: seq<seq<Frame>>, position: int): seq<Frame>
    requires cfg.termLength > 0 && |parts| == 3
  {
    From(parts[position / cfg.termLength % 3], position % cfg.termLength)
  }

  /** When a step may happen: the driver's part of the bargain; and once an offer has ended in MAX_POSITION_EXCEEDED
      and left padding behind, a shorter message is let through only while the subscriber has not passed that padding
      (Guarantees.SealedOfferLost says what happens otherwise). */
  predicate Enabled(cfg: Settings, s: System, step: Step)
    requires cfg.Valid() && s.pub.Valid()
  {
    match step
    case OfferStep(closed, limit, connected, message) =>
      && (s.pub.Position(cfg) < limit ==> s.pub.parts[s.pub.Next()] == [])
      && (s.pub.sealed && Offered(cfg, s.pub, closed, limit, connected, message).1.Accepted? ==>
            s.position <= s.pub.Position(cfg))
    case CleanStep => s.position >= (s.pub.count - 1) * cfg.termLength
    case PollStep(_, _, _) => true
  }

  function AfterOffer(cfg: Settings, s: System, closed: bool, limit: int, connected: bool, message: seq<int>): System
    requires cfg.Valid() && s.pub.Valid() && s.terms != []
  {
    var (pub, outcome) := Offered(cfg, s.pub, closed, limit, connected, message);
    var terms := s.terms[|s.terms| - 1 := if |pub.parts| == 3 then pub.parts[s.pub.Active()] else []];
    s.(pub := pub, accepted := if outcome.Accepted? then s.accepted + [message] else s.accepted,
       terms := if pub.count > s.pub.count then terms + [[]] else terms)
  }

  function AfterPoll(cfg: Settings, s: System, delegate: Delegate, limitPosition: int, fragmentLimit: int): System
    requires cfg.Valid() && s.pub.Valid()
  {
    if s.position >= limitPosition then s
    else
      var frames, offset := Visible(cfg, s.pub.parts, s.position), s.position % cfg.termLength;
      var scan := Poll(HandlerOf(delegate), s.reader, frames, LimitOffset(cfg.termLength, s.position, limitPosition),
                       fragmentLimit);
      var after := TilesEnd(frames[..scan.consumed], offset);
      var moved := s.(position := s.position - offset + after, reader := scan.state);
      if after == cfg.termLength then moved.(term := s.term + 1, index := 0)
      else moved.(index := s.index + scan.consumed)
  }

  function After(cfg: Settings, s: System, step: Step): System
    requires cfg.Valid() && s.pub.Valid() && s.terms != []
  {
    match step
    case OfferStep(closed, limit, connected, message) => AfterOffer(cfg, s, closed, limit, connected, message)
    case CleanStep => s.(pub := s.pub.(parts := s.pub.parts[s.pub.Next() := []]))
    case PollStep(delegate, limitPosition, fragmentLimit) => AfterPoll(cfg, s, delegate, limitPosition, fragmentLimit)
  }

  function Flatten(terms: seq<seq<Frame>>): seq<Frame> {
    if terms == [] then [] else Flatten(terms[..|terms| - 1]) + terms[|terms| - 1]
  }

  /** All frames published, and those of them the subscriber has consumed. */
  function Published(s: System): seq<Frame> { Flatten(s.terms) }

  function Consumed(s: System): seq<Frame>
    requires s.term < |s.terms| ==> s.index <= |s.terms[s.term]|
    requires s.term <= |s.terms|
  {
    Flatten(s.terms[..s.term]) + if s.term < |s.terms| then s.terms[s.term][..s.index] else []
  }

  /** The publication's side: history and buffers agree. */
  ghost predicate PublisherInv(cfg: Settings, s: System) {
    var pub, last := s.pub, |s.terms| - 1;
    && pub.Valid() && |s.terms| == pub.count + 1 && pub.count < TERMS_IN_STREAM
    && pub.offset <= cfg.termLength && pub.offset % FRAME_ALIGNMENT == 0 && (pub.sealed ==> pub.offset < cfg.termLength)
    && (forall t :: 0 <= t <= last ==> Tiles(s.terms[t], 0))
    && (forall t :: 0 <= t < last ==> TilesEnd(s.terms[t], 0) == cfg.termLength)
    && TilesEnd(pub.Committed(), 0) == pub.offset
    && (pub.sealed ==> pub.count + 1 == TERMS_IN_STREAM)
    && (pub.sealed ==>
          s.terms[last]
          == pub.Committed() + [PadFrame(OriginOf(cfg, pub.count), pub.offset, cfg.termLength - pub.offset)])
    && pub.parts[pub.Active()] == s.terms[last]
    && Legal(Published(s), false) && !EndsOpen(Published(s), false)
    && Deliver(IDLE, Published(s)).1 == s.accepted
  }

  /** The subscriber's side. */
  ghost predicate ReaderInv(cfg: Settings, s: System) {
    && s.term <= |s.terms| && (s.term < |s.terms| ==> s.index <= |s.terms[s.term]|)
    && (s.term == |s.terms| ==> s.term > 0 && s.index == 0 && TilesEnd(s.terms[s.term - 1], 0) == cfg.termLength)
    && ReadOffset(s) < cfg.termLength && s.position == s.term * cfg.termLength + ReadOffset(s)
    && CaughtUp(s.reader, Consumed(s))
  }

  function ReadOffset(s: System): int
    requires s.term < |s.terms| ==> s.index <= |s.terms[s.term]|
  {
    if s.term < |s.terms| then TilesEnd(s.terms[s.term][..s.index], 0) else 0
  }

  /** The buffers: a term that the subscriber has not left is still there; the next buffer is empty once the active
      term has been written to. */
  ghost predicate BufferInv(s: System)
    requires s.pub.Valid() && |s.terms| == s.pub.count + 1
  {
    var count := s.pub.count;
    && (count > 0 ==> s.pub.parts[(count - 1) % 3] == s.terms[count - 1])
    && (count > 1 ==>
          s.pub.parts[(count - 2) % 3] == s.terms[count - 2]
          || (s.term > count - 2 && s.pub.parts[(count - 2) % 3] == []))
    && (count <= 1 ==> s.pub.parts[2] == []) && (count == 0 ==> s.pub.parts[1] == [])
    && s.term >= count - 2
    && (s.pub.offset > 0 || s.pub.sealed ==> s.pub.parts[s.pub.Next()] == [])
  }

  ghost predicate Inv(cfg: Settings, s: System) {
    cfg.Valid() && PublisherInv(cfg, s) && ReaderInv(cfg, s) && BufferInv(s) && Faithful(s.reader.calls, s.accepted)
  }

  lemma StartInv(cfg: Settings)
    requires cfg.Valid()
    ensures Inv(cfg, Start())
  {
    var none: seq<seq<Frame>> := [[]];
    assert none[..0] == [] && Start().terms[..0] == [] && Start().terms[0][..0] == [];
  }

  lemma FlattenUpdate(terms: seq<seq<Frame>>, x: seq<Frame>)
    requires terms != []
    ensures Flatten(terms[|terms| - 1 := terms[|terms| - 1] + x]) == Flatten(terms) + x
  {
    var updated := terms[|terms| - 1 := terms[|terms| - 1] + x];
    assert updated[..|updated| - 1] == terms[..|terms| - 1];
    Associate(Flatten(terms[..|terms| - 1]), terms[|terms| - 1], x);
  }

  lemma FlattenRotate(terms: seq<seq<Frame>>)
    ensures Flatten(terms + [[]]) == Flatten(terms)
  {
    assert (terms + [[]])[..|terms + [[]]| - 1] == terms;
  }

  /** The history after frames `x` were added to the active term, with a new term behind it if `rotate`. */
  function Grown(terms: seq<seq<Frame>>, x: seq<Frame>, rotate: bool): (r: seq<seq<Frame>>)
    requires terms != []
    ensures |r| == |terms| + if rotate then 1 else 0
  {
    var updated := terms[|terms| - 1 := terms[|terms| - 1] + x];
    if rotate then updated + [[]] else updated
  }

  lemma GrownFlattens(terms: seq<seq<Frame>>, x: seq<Frame>, rotate: bool)
    requires terms != []
    ensures Flatten(Grown(terms, x, rotate)) == Flatten(terms) + x
  {
    FlattenUpdate(terms, x);
    if rotate {
      FlattenRotate(terms[|terms| - 1 := terms[|terms| - 1] + x]);
    }
  }

  /** The subscriber does not notice that the history grows behind what it has consumed. */
  lemma ReaderUnmoved(cfg: Settings, s: System, x: seq<Frame>, rotate: bool, s': System)
    requires cfg.Valid() && s.terms != [] && ReaderInv(cfg, s)
    requires s.term == |s.terms| ==> x == []
    requires s' == s.(pub := s'.pub, accepted := s'.accepted, terms := Grown(s.terms, x, rotate))
    ensures ReaderInv(cfg, s')
  {
    hide CaughtUp, Tiles, EndOf;
    assert s'.terms[..s.term] == s.terms[..s.term] || s.term == |s.terms|;
    if s.term < |s.terms| {
      assert s'.terms[s.term][..s.index] == s.terms[s.term][..s.index];
    } else {
      assert s.terms[|s.terms| - 1] + x == s.terms[|s.terms| - 1];
      assert s'.terms[..s.term] == s.terms;
      assert s.terms[..s.term] == s.terms;
    }
  }

  /** The publisher's side after frames `x` that deliver `messages`. */
  lemma PublisherGrows(cfg: Settings, s: System, x: seq<Frame>, messages: seq<seq<int>>, rotate: bool, s': System)
    requires cfg.Valid() && PublisherInv(cfg, s)
    requires Tiles(x, TilesEnd(s.terms[|s.terms| - 1], 0)) && Legal(x, false) && !EndsOpen(x, false)
    requires Deliver(Deliver(IDLE, Published(s)).0, x).1 == messages
    requires s'.terms == Grown(s.terms, x, rotate) && s'.accepted == s.accepted + messages
    requires s'.pub.Valid() && s'.pub.count == s.pub.count + (if rotate then 1 else 0) < TERMS_IN_STREAM
    requires s'.pub.offset <= cfg.termLength && s'.pub.offset % FRAME_ALIGNMENT == 0
    requires s'.pub.sealed ==> s'.pub.offset < cfg.termLength && s'.pub.count + 1 == TERMS_IN_STREAM
    requires s'.pub.sealed ==>
               s'.terms[|s'.terms| - 1] == s'.pub.Committed() +
                 [PadFrame(OriginOf(cfg, s'.pub.count), s'.pub.offset, cfg.termLength - s'.pub.offset)]
    requires TilesEnd(s'.pub.Committed(), 0) == s'.pub.offset
    requires s'.pub.parts[s'.pub.Active()] == s'.terms[|s'.terms| - 1]
    requires rotate ==> TilesEnd(s.terms[|s.terms| - 1] + x, 0) == cfg.termLength
    ensures PublisherInv(cfg, s')
  {
    hide Deliver, Legal, EndsOpen, Tiles, TilesEnd, PadFrame, State.Committed;
    GrownFlattens(s.terms, x, rotate);
    DeliverAppend(IDLE, Published(s), x);
    LegalAppend(Published(s), x, false);
    TilesAppend(s.terms[|s.terms| - 1], x, 0);
    NoFrames();
  }

  lemma NoFrames()
    ensures Tiles([], 0) && TilesEnd([], 0) == 0
  {
  }

  /** The frames of a message, behind anything. */
  lemma MessageFrames(cfg: Settings, count: nat, offset: nat, message: seq<int>, a: Asm)
    requires cfg.Valid() && offset % FRAME_ALIGNMENT == 0
    requires |message| <= cfg.maxPayload || |message| <= cfg.maxMessage
    ensures var x := FramesOf(cfg, count, offset, message);
            && Tiles(x, offset) && TilesEnd(x, offset) == offset + Required(cfg, |message|)
            && Legal(x, false) && !EndsOpen(x, false) && Deliver(a, x).1 == [message]
    ensures Required(cfg, |message|) % FRAME_ALIGNMENT == 0
  {
    hide Deliver, Legal, EndsOpen, Tiles, TilesEnd, Fragments, Required, Align;
    FragmentsTile(cfg.maxPayload, OriginOf(cfg, count), offset, message, true);
    RequiredIsSpan(cfg, count, offset, message);
    FragmentsDeliver(a, cfg.maxPayload, OriginOf(cfg, count), offset, message, true, []);
    assert [] + message == message;
  }

  lemma PublisherFacts(cfg: Settings, s: System)
    requires PublisherInv(cfg, s)
    ensures s.pub.Valid() && |s.terms| == s.pub.count + 1 && s.pub.count < TERMS_IN_STREAM
    ensures s.pub.parts[s.pub.Active()] == s.terms[|s.terms| - 1] && Tiles(s.terms[|s.terms| - 1], 0)
    ensures s.pub.offset <= cfg.termLength && s.pub.offset % FRAME_ALIGNMENT == 0
    ensures !s.pub.sealed ==> TilesEnd(s.terms[|s.terms| - 1], 0) == s.pub.offset
  {
  }

  /** The publisher's side after frames that fit the active term. */
  lemma FittingPublisher(cfg: Settings, s: System, x: seq<Frame>, message: seq<int>, s': System)
    requires cfg.Valid() && PublisherInv(cfg, s) && !s.pub.sealed && s.terms != []
    requires Tiles(x, s.pub.offset) && TilesEnd(x, s.pub.offset) == s'.pub.offset <= cfg.termLength
    requires s'.pub.offset % FRAME_ALIGNMENT == 0
    requires Legal(x, false) && !EndsOpen(x, false) && Deliver(Deliver(IDLE, Published(s)).0, x).1 == [message]
    requires s.pub.Valid()
    requires s'.pub == s.pub.(offset := s'.pub.offset, sealed := false,
                              parts := s.pub.parts[s.pub.Active() := s.pub.Committed() + x])
    requires s'.accepted == s.accepted + [message] && s'.terms == Grown(s.terms, x, false)
    ensures PublisherInv(cfg, s')
  {
    PublisherFacts(cfg, s);
    hide PublisherInv, Deliver, Legal, EndsOpen, Tiles, TilesEnd, Published;
    TilesAppend(s.terms[|s.terms| - 1], x, 0);
    PublisherGrows(cfg, s, x, [message], false, s');
  }

  /** An offer that fits: its frames go behind those of the active term and deliver the message. */
  lemma FittingOffer(cfg: Settings, s: System, message: seq<int>, s': System)
    requires Inv(cfg, s) && s.pub.Valid() && !s.pub.sealed && s.terms != [] && s.pub.parts[s.pub.Next()] == []
    requires |message| <= cfg.maxPayload || |message| <= cfg.maxMessage
    requires s.pub.offset + Required(cfg, |message|) <= cfg.termLength
    requires s' == s.(pub := Appended(cfg, s.pub, message).0, accepted := s.accepted + [message],
                      terms := Grown(s.terms, FramesOf(cfg, s.pub.count, s.pub.offset, message), false))
    ensures Inv(cfg, s')
  {
    hide Faithful, PublisherInv, CaughtUp, Required, FramesOf, Align, ReaderInv, Appended, TilesEnd, Deliver, Legal,
         EndsOpen, Tiles, Published, BufferInv, Grown;
    PublisherFacts(cfg, s);
    var x := FramesOf(cfg, s.pub.count, s.pub.offset, message);
    AppendedFits(cfg, s.pub, message);
    MessageFrames(cfg, s.pub.count, s.pub.offset, message, Deliver(IDLE, Published(s)).0);
    FittingPublisher(cfg, s, x, message, s');
    NotBeyondEnd(cfg, s);
    RequiredIsSpan(cfg, s.pub.count, s.pub.offset, message);
    ReaderUnmoved(cfg, s, x, false, s');
    FittingBuffers(s, s.pub.Committed() + x, x, s');
    FaithfulToMore(s.reader.calls, s.accepted, s'.accepted);
  }

  lemma FittingBuffers(s: System, shown: seq<Frame>, x: seq<Frame>, s': System)
    requires s.pub.Valid() && s.terms != [] && |s.terms| == s.pub.count + 1 && BufferInv(s)
    requires s.pub.parts[s.pub.Next()] == [] && s'.terms == Grown(s.terms, x, false) && s'.term == s.term
    requires s'.pub.Valid() && s'.pub.count == s.pub.count && s'.pub.parts == s.pub.parts[s.pub.Active() := shown]
    ensures BufferInv(s')
  {
    hide BufferInv;
    NextIndex(s.pub.count);
    BuffersKept(s, s');
  }

  /** A subscriber at the very end of the history has met a full active term. */
  lemma NotBeyondEnd(cfg: Settings, s: System)
    requires Inv(cfg, s) && !s.pub.sealed
    ensures s.term == |s.terms| ==> s.pub.offset == cfg.termLength
  {
  }

  /** The other two buffers while the active term is written to. */
  lemma BuffersKept(s: System, s': System)
    requires s.pub.Valid() && |s.terms| == s.pub.count + 1 && BufferInv(s)
    requires s'.pub.Valid() && |s'.terms| == |s.terms| && s'.pub.count == s.pub.count && s'.term == s.term
    requires forall t :: 0 <= t < s.pub.count ==> s'.terms[t] == s.terms[t]
    requires forall p :: 0 <= p < 3 && p != s.pub.Active() ==> s'.pub.parts[p] == s.pub.parts[p]
    requires s'.pub.parts[s'.pub.Next()] == []
    ensures BufferInv(s')
  {
  }

  /** The padding an offer that does not fit puts behind the frames of the active term, unless it is there already. */
  function Padding(cfg: Settings, pub: State): seq<Frame> {
    if pub.offset < cfg.termLength && !pub.sealed then
      [PadFrame(OriginOf(cfg, pub.count), pub.offset, cfg.termLength - pub.offset)]
    else []
  }

  predicate Rotates(cfg: Settings, pub: State) {
    (pub.count + 1) * cfg.termLength < cfg.MaxPossiblePosition()
  }

  lemma RotatesUntilLast(cfg: Settings, pub: State)
    requires cfg.Valid()
    ensures Rotates(cfg, pub) <==> pub.count + 1 < TERMS_IN_STREAM
  {
    if pub.count + 1 < TERMS_IN_STREAM {
      MultipleGap(TERMS_IN_STREAM, pub.count + 1, cfg.termLength);
    } else if pub.count + 1 > TERMS_IN_STREAM {
      MultipleGap(pub.count + 1, TERMS_IN_STREAM, cfg.termLength);
    }
  }

  lemma PaddingFrames(cfg: Settings, pub: State, a: Asm)
    requires cfg.Valid() && pub.offset <= cfg.termLength && pub.offset % FRAME_ALIGNMENT == 0
    ensures var x := Padding(cfg, pub);
            && Tiles(x, pub.offset) && (!pub.sealed ==> TilesEnd(x, pub.offset) == cfg.termLength)
            && Legal(x, false) && !EndsOpen(x, false) && Deliver(a, x).1 == []
  {
    var x := Padding(cfg, pub);
    if x != [] {
      assert x[..0] == [] && x[1..] == [];
    }
  }

  /** The active term with the padding of an offer that trips. */
  lemma PaddedTerm(cfg: Settings, s: System)
    requires PublisherInv(cfg, s) && s.pub.Valid() && s.terms != []
    ensures var last := s.terms[|s.terms| - 1] + Padding(cfg, s.pub);
            && (s.pub.offset < cfg.termLength ==>
                  last == s.pub.Committed()
                    + [PadFrame(OriginOf(cfg, s.pub.count), s.pub.offset, cfg.termLength - s.pub.offset)])
            && (s.pub.offset >= cfg.termLength ==> last == s.pub.Committed())
    ensures TilesEnd(s.pub.Committed(), 0) == s.pub.offset
  {
    hide Tiles, Deliver, Legal, EndsOpen, Published, TilesEnd;
    assert s.terms[|s.terms| - 1] + [] == s.terms[|s.terms| - 1];
  }

  /** What an offer that trips makes of the publication. */
  lemma TrippedState(cfg: Settings, s: System, message: seq<int>)
    requires cfg.Valid() && PublisherInv(cfg, s) && s.pub.Valid()
             && s.pub.offset + Required(cfg, |message|) > cfg.termLength
    requires s.terms != []
    ensures var last := s.terms[|s.terms| - 1] + Padding(cfg, s.pub);
            var padded := s.pub.parts[s.pub.Active() := last];
            Appended(cfg, s.pub, message).0 ==
              if Rotates(cfg, s.pub) then State(s.pub.count + 1, 0, false, padded)
              else s.pub.(sealed := s.pub.offset < cfg.termLength, parts := padded)
    ensures !Appended(cfg, s.pub, message).1.Accepted?
    ensures var last := s.terms[|s.terms| - 1] + Padding(cfg, s.pub);
            && (s.pub.offset < cfg.termLength ==>
                  last == s.pub.Committed()
                    + [PadFrame(OriginOf(cfg, s.pub.count), s.pub.offset, cfg.termLength - s.pub.offset)])
            && (s.pub.offset >= cfg.termLength ==> last == s.pub.Committed())
    ensures TilesEnd(s.pub.Committed(), 0) == s.pub.offset
  {
    assert cfg.maxPayload > 0;
    PaddedTerm(cfg, s);
    PublisherFacts(cfg, s);
    hide PublisherInv, Required, Appended, Padding, PadFrame, TilesEnd, State.Committed, Rotates, Settings.Valid;
    var last := s.terms[|s.terms| - 1] + Padding(cfg, s.pub);
    if s.pub.offset >= cfg.termLength {
      NoPaddingNeeded(cfg, s.pub);
      assert last == s.terms[|s.terms| - 1];
      assert s.pub.parts[s.pub.Active() := last] == s.pub.parts;
    }
    TripsOutcome(cfg, s.pub, message,
                 if s.pub.offset < cfg.termLength then s.pub.parts[s.pub.Active() := last] else s.pub.parts);
  }

  lemma TripsOutcome(cfg: Settings, pub: State, message: seq<int>, padded: seq<seq<Frame>>)
    requires cfg.maxPayload > 0 && pub.Valid() && pub.offset + Required(cfg, |message|) > cfg.termLength
    requires padded == if pub.offset < cfg.termLength then
                         pub.parts[pub.Active() := pub.Committed() +
                                   [PadFrame(OriginOf(cfg, pub.count), pub.offset, cfg.termLength - pub.offset)]]
                       else pub.parts
    ensures Appended(cfg, pub, message) ==
              if Rotates(cfg, pub) then (State(pub.count + 1, 0, false, padded), AdminAction)
              else (pub.(sealed := pub.offset < cfg.termLength, parts := padded), MaxPositionExceeded)
  {
    hide Appended, Required, State.Committed, PadFrame, Settings.MaxPossiblePosition;
    AppendedTrips(cfg, pub, message, padded);
  }

  lemma NoPaddingNeeded(cfg: Settings, pub: State)
    requires pub.offset >= cfg.termLength
    ensures Padding(cfg, pub) == []
  {
  }

  lemma TrippingPublisher(cfg: Settings, s: System, x: seq<Frame>, rotate: bool, s': System)
    requires cfg.Valid() && PublisherInv(cfg, s) && s.pub.Valid() && s.terms != []
    requires x == Padding(cfg, s.pub) && rotate == Rotates(cfg, s.pub)
    requires s'.accepted == s.accepted && s'.terms == Grown(s.terms, x, rotate)
    requires var last := s.terms[|s.terms| - 1] + x;
             var padded := s.pub.parts[s.pub.Active() := last];
             && (s.pub.offset < cfg.termLength ==>
                   last == s.pub.Committed()
                     + [PadFrame(OriginOf(cfg, s.pub.count), s.pub.offset, cfg.termLength - s.pub.offset)])
             && (s.pub.offset >= cfg.termLength ==> last == s.pub.Committed())
             && s'.pub == if rotate then State(s.pub.count + 1, 0, false, padded)
                          else s.pub.(sealed := s.pub.offset < cfg.termLength, parts := padded)
    requires rotate ==> s.pub.parts[s.pub.Next()] == []
    requires TilesEnd(s.pub.Committed(), 0) == s.pub.offset
    ensures PublisherInv(cfg, s')
  {
    PublisherFacts(cfg, s);
    SealedEnd(cfg, s);
    RotatesUntilLast(cfg, s.pub);
    hide PublisherInv, Tiles, TilesEnd, Rotates, Padding, PadFrame, Settings.Valid;
    var last := s.terms[|s.terms| - 1] + x;
    if rotate {
      NextIndex(s.pub.count);
      assert s'.pub.Committed() == [];
      NoFrames();
      PaddedPublisher(cfg, s, x, rotate, s');
    } else {
      if s.pub.offset < cfg.termLength {
        assert last[..|last| - 1] == s.pub.Committed();
      }
      assert s'.pub.Committed() == s.pub.Committed();
      PaddedPublisher(cfg, s, x, rotate, s');
    }
  }

  lemma PaddedPublisher(cfg: Settings, s: System, x: seq<Frame>, rotate: bool, s': System)
    requires cfg.Valid() && PublisherInv(cfg, s) && x == Padding(cfg, s.pub) && s.terms != []
    requires s'.accepted == s.accepted && s'.terms == Grown(s.terms, x, rotate)
    requires s'.pub.Valid() && s'.pub.count == s.pub.count + (if rotate then 1 else 0) < TERMS_IN_STREAM
    requires s'.pub.offset <= cfg.termLength && s'.pub.offset % FRAME_ALIGNMENT == 0
    requires s'.pub.sealed ==> s'.pub.offset < cfg.termLength && s'.pub.count + 1 == TERMS_IN_STREAM
    requires s'.pub.sealed ==>
               s'.terms[|s'.terms| - 1] == s'.pub.Committed() +
                 [PadFrame(OriginOf(cfg, s'.pub.count), s'.pub.offset, cfg.termLength - s'.pub.offset)]
    requires TilesEnd(s'.pub.Committed(), 0) == s'.pub.offset
    requires s'.pub.parts[s'.pub.Active()] == s'.terms[|s'.terms| - 1]
    ensures PublisherInv(cfg, s')
  {
    PublisherFacts(cfg, s);
    PaddingOnTerm(cfg, s, Deliver(IDLE, Published(s)).0);
    hide PublisherInv, Deliver, Legal, EndsOpen, Tiles, Published, TilesEnd, State.Committed, PadFrame, Padding, Grown,
         Settings.Valid;
    assert s.accepted + [] == s.accepted;
    PublisherGrows(cfg, s, x, [], rotate, s');
  }

  /** The padding lies behind the frames of the active term and completes it. */
  lemma PaddingOnTerm(cfg: Settings, s: System, a: Asm)
    requires cfg.Valid() && PublisherInv(cfg, s) && s.pub.Valid() && s.terms != []
    ensures var x, last := Padding(cfg, s.pub), s.terms[|s.terms| - 1];
            && Tiles(x, TilesEnd(last, 0)) && TilesEnd(last + x, 0) == cfg.termLength
            && Legal(x, false) && !EndsOpen(x, false) && Deliver(a, x).1 == []
  {
    PublisherFacts(cfg, s);
    SealedEnd(cfg, s);
    hide PublisherInv, Deliver, Legal, EndsOpen, PadFrame;
    PaddingFrames(cfg, s.pub, a);
    var x, last := Padding(cfg, s.pub), s.terms[|s.terms| - 1];
    if x == [] {
      assert last + x == last;
    } else {
      TilesAppend(last, x, 0);
    }
  }

  lemma SealedEnd(cfg: Settings, s: System)
    requires cfg.Valid() && PublisherInv(cfg, s)
    ensures s.pub.sealed ==> TilesEnd(s.terms[|s.terms| - 1], 0) == cfg.termLength
    ensures s.pub.sealed ==> s.pub.offset < cfg.termLength
  {
  }

  /** Moving on to the next buffer. */
  lemma RotationKeepsBuffers(cfg: Settings, s: System, s': System)
    requires Inv(cfg, s) && s.pub.Valid() && s'.pub.Valid() && |s.terms| == s.pub.count + 1
             && |s'.terms| == |s.terms| + 1
    requires s.pub.parts[s.pub.Next()] == [] && s'.pub.count == s.pub.count + 1 && s'.pub.offset == 0 && !s'.pub.sealed
    requires forall t :: 0 <= t < s.pub.count ==> s'.terms[t] == s.terms[t]
    requires s'.pub.parts == s.pub.parts[s.pub.Active() := s'.terms[s.pub.count]] && s'.term == s.term
    ensures BufferInv(s')
  {
    hide Legal, EndsOpen, Deliver, Tiles, CaughtUp, Published, Consumed, State.Committed;
    var count := s.pub.count;
    if count >= 2 {
      assert TilesEnd(s.terms[count - 2], 0) == cfg.termLength;
      assert s.pub.Next() == (count - 2) % 3;
    }
  }

  /** An offer that does not fit: padding, and the next term unless there is none left. */
  lemma TrippingOffer(cfg: Settings, s: System, message: seq<int>, s': System)
    requires Inv(cfg, s) && s.pub.Valid() && s.terms != [] && s.pub.parts[s.pub.Next()] == []
    requires s.pub.offset + Required(cfg, |message|) > cfg.termLength
    requires s' == s.(pub := Appended(cfg, s.pub, message).0,
                      terms := Grown(s.terms, Padding(cfg, s.pub), Rotates(cfg, s.pub)))
    ensures Inv(cfg, s')
  {
    hide Faithful, PublisherInv, CaughtUp, Required, Align, ReaderInv, Appended, TilesEnd, Deliver, Legal, EndsOpen,
         Tiles, Published, State.Committed, BufferInv, Grown, Padding;
    var x, rotate := Padding(cfg, s.pub), Rotates(cfg, s.pub);
    PublisherFacts(cfg, s);
    TrippedState(cfg, s, message);
    TrippingPublisher(cfg, s, x, rotate, s');
    AtEndNoPadding(cfg, s);
    ReaderUnmoved(cfg, s, x, rotate, s');
    TrippingBuffers(cfg, s, x, rotate, s');
  }

  lemma TrippingBuffers(cfg: Settings, s: System, x: seq<Frame>, rotate: bool, s': System)
    requires Inv(cfg, s) && s.pub.Valid() && s.terms != [] && |s.terms| == s.pub.count + 1
    requires s.pub.parts[s.pub.Next()] == [] && s'.terms == Grown(s.terms, x, rotate) && s'.term == s.term
    requires var padded := s.pub.parts[s.pub.Active() := s.terms[|s.terms| - 1] + x];
             s'.pub == if rotate then State(s.pub.count + 1, 0, false, padded)
                       else s.pub.(sealed := s.pub.offset < cfg.termLength, parts := padded)
    requires s'.pub.Valid()
    ensures BufferInv(s')
  {
    hide PublisherInv, ReaderInv, Faithful, BufferInv, Settings.Valid;
    if rotate {
      RotationKeepsBuffers(cfg, s, s');
    } else {
      FittingBuffers(s, s.terms[|s.terms| - 1] + x, x, s');
    }
  }

  lemma AtEndNoPadding(cfg: Settings, s: System)
    requires Inv(cfg, s)
    ensures s.term == |s.terms| ==> Padding(cfg, s.pub) == []
  {
    if !s.pub.sealed {
      NotBeyondEnd(cfg, s);
    }
  }

  /** The same system with the padding of a sealed term taken back: what a message that still fits is written over. */
  function Unsealed(s: System): System
    requires s.pub.Valid() && s.terms != []
  {
    if s.pub.sealed then
      s.(pub := s.pub.(sealed := false, parts := s.pub.parts[s.pub.Active() := s.pub.Committed()]),
         terms := s.terms[|s.terms| - 1 := s.pub.Committed()])
    else s
  }

  lemma UnsealedHistory(s: System)
    requires s.pub.Valid() && s.terms != [] && s.pub.sealed && s.pub.parts[s.pub.Active()] == s.terms[|s.terms| - 1]
    requires s.terms[|s.terms| - 1][|s.terms[|s.terms| - 1]| - 1].pad
    requires Legal(Published(s), false) && !EndsOpen(Published(s), false)
    ensures Legal(Published(Unsealed(s)), false) && !EndsOpen(Published(Unsealed(s)), false)
    ensures Deliver(IDLE, Published(Unsealed(s))).1 == Deliver(IDLE, Published(s)).1
  {
    hide Legal, EndsOpen, Deliver;
    var terms, all := s.terms[|s.terms| - 1], Published(s);
    var pad := terms[|terms| - 1];
    var kept := Published(Unsealed(s));
    assert s.terms[|s.terms| - 1 := s.pub.Committed()][..|s.terms| - 1] == s.terms[..|s.terms| - 1];
    assert all == kept + [pad] by {
      Associate(Flatten(s.terms[..|s.terms| - 1]), s.pub.Committed(), [pad]);
      assert terms == s.pub.Committed() + [pad];
    }
    LegalSplit(all, |kept|, false);
    assert all[..|kept|] == kept && all[|kept|..] == [pad];
    PadMeansClosed(pad, EndsOpen(kept, false));
    DeliverOne(IDLE, kept, pad);
  }

  lemma PadMeansClosed(pad: Frame, open: bool)
    requires pad.pad && Legal([pad], open)
    ensures !open
  {
  }

  lemma SealedLast(cfg: Settings, s: System)
    requires PublisherInv(cfg, s) && s.pub.Valid() && s.terms != [] && s.pub.sealed
    ensures var last := s.terms[|s.terms| - 1];
            && last != [] && last[|last| - 1].pad && s.pub.Committed() == last[..|last| - 1]
            && Tiles(s.pub.Committed(), 0) && TilesEnd(s.pub.Committed(), 0) == s.pub.offset
            && s.pub.parts[s.pub.Active()] == last && |s.terms| == s.pub.count + 1
  {
    hide Legal, EndsOpen, Deliver, Published, EndOf;
    TilesSplit(s.terms[|s.terms| - 1], |s.terms[|s.terms| - 1]| - 1, 0);
  }

  lemma UnsealedPublisher(cfg: Settings, s: System)
    requires cfg.Valid() && PublisherInv(cfg, s) && s.pub.Valid() && s.terms != [] && s.pub.sealed
    ensures PublisherInv(cfg, Unsealed(s))
  {
    hide Legal, EndsOpen, Deliver, Tiles, TilesEnd, Published, PadFrame;
    SealedLast(cfg, s);
    UnsealedHistory(s);
    hide CommittedOf, State.Committed;
    UnsealedCommitted(s);
  }

  lemma UnsealedCommitted(s: System)
    requires s.pub.Valid() && s.terms != [] && s.pub.sealed
    ensures Unsealed(s).pub.Valid() && Unsealed(s).pub.Committed() == s.pub.Committed()
  {
  }

  /** A subscriber that is not behind the padding does not notice that it is taken back. */
  lemma UnsealedReader(cfg: Settings, s: System)
    requires cfg.Valid() && PublisherInv(cfg, s) && ReaderInv(cfg, s) && s.pub.Valid() && s.terms != [] && s.pub.sealed
    requires s.position <= s.pub.Position(cfg)
    ensures s.term <= s.pub.count && (s.term == s.pub.count ==> s.index <= |s.pub.Committed()|)
    ensures ReaderInv(cfg, Unsealed(s))
  {
    hide Legal, EndsOpen, Deliver, Tiles, CaughtUp, Published, EndOf;
    var last, u := s.terms[|s.terms| - 1], Unsealed(s);
    MulStep(s.pub.count, cfg.termLength);
    if s.term == s.pub.count {
      if s.index == |last| {
        assert last[..s.index] == last;
        SealedEnd(cfg, s);
      }
      assert u.terms[s.term][..s.index] == s.terms[s.term][..s.index];
    }
    assert u.terms[..s.term] == s.terms[..s.term];
  }

  lemma UnsealedKeeps(cfg: Settings, s: System)
    requires Inv(cfg, s) && s.pub.Valid() && s.terms != [] && s.position <= s.pub.Position(cfg) && s.pub.sealed
    ensures Inv(cfg, Unsealed(s))
  {
    UnsealedPublisher(cfg, s);
    UnsealedReader(cfg, s);
    hide PublisherInv, ReaderInv, Faithful;
    PublisherFacts(cfg, s);
    NextIndex(s.pub.count);
    BuffersKept(s, Unsealed(s));
  }

  /** The three things an offer can do to the system. */
  lemma OfferCases(cfg: Settings, s: System, closed: bool, limit: int, connected: bool, message: seq<int>)
    requires Inv(cfg, s) && s.pub.Valid() && s.terms != []
    ensures var s', u := AfterOffer(cfg, s, closed, limit, connected, message), Unsealed(s);
            if closed || s.pub.Position(cfg) >= limit || (|message| > cfg.maxPayload && |message| > cfg.maxMessage) then
              s' == s
            else if s.pub.offset + Required(cfg, |message|) <= cfg.termLength then
              u.terms != [] && u.pub.Valid() && !u.pub.sealed &&
              Offered(cfg, s.pub, closed, limit, connected, message).1.Accepted? &&
              s' == u.(pub := Appended(cfg, u.pub, message).0, accepted := s.accepted + [message],
                       terms := Grown(u.terms, FramesOf(cfg, s.pub.count, s.pub.offset, message), false))
            else
              s' == s.(pub := Appended(cfg, s.pub, message).0,
                       terms := Grown(s.terms, Padding(cfg, s.pub), Rotates(cfg, s.pub)))
  {
    hide PublisherInv, ReaderInv, BufferInv, Required, FramesOf, Align, TilesEnd, Tiles;
    PublisherFacts(cfg, s);
    if closed || s.pub.Position(cfg) >= limit || (|message| > cfg.maxPayload && |message| > cfg.maxMessage) {
      assert s.terms[|s.terms| - 1 := s.pub.parts[s.pub.Active()]] == s.terms;
    } else if s.pub.offset + Required(cfg, |message|) <= cfg.termLength {
      var u := Unsealed(s);
      AppendedFits(cfg, s.pub, message);
      AppendedFits(cfg, u.pub, message);
      var shown := s.pub.Committed() + FramesOf(cfg, s.pub.count, s.pub.offset, message);
      assert u.pub.parts[s.pub.Active() := shown] == s.pub.parts[s.pub.Active() := shown];
      assert u.terms[|s.terms| - 1 := shown] == s.terms[|s.terms| - 1 := shown];
    } else {
      TrippedState(cfg, s, message);
    }
  }

  /** An offer that fits, over padding or not. */
  lemma OfferFits(cfg: Settings, s: System, message: seq<int>, s': System)
    requires Inv(cfg, s) && s.pub.Valid() && s.terms != [] && s.pub.parts[s.pub.Next()] == []
    requires s.pub.sealed ==> s.position <= s.pub.Position(cfg)
    requires |message| <= cfg.maxPayload || |message| <= cfg.maxMessage
    requires s.pub.offset + Required(cfg, |message|) <= cfg.termLength
    requires var u := Unsealed(s);
             u.terms != [] && u.pub.Valid() && !u.pub.sealed &&
             s' == u.(pub := Appended(cfg, u.pub, message).0, accepted := s.accepted + [message],
                      terms := Grown(u.terms, FramesOf(cfg, s.pub.count, s.pub.offset, message), false))
    ensures Inv(cfg, s')
  {
    hide Inv, Required, FramesOf, Align, Appended, Grown, Settings.Valid, State.Position, State.Committed;
    if s.pub.sealed {
      UnsealedKeeps(cfg, s);
      NextIndex(s.pub.count);
    }
    FittingOffer(cfg, Unsealed(s), message, s');
  }

  lemma OfferKeeps(cfg: Settings, s: System, closed: bool, limit: int, connected: bool, message: seq<int>)
    requires Inv(cfg, s) && s.pub.Valid() && s.terms != []
    requires Enabled(cfg, s, OfferStep(closed, limit, connected, message))
    ensures Inv(cfg, AfterOffer(cfg, s, closed, limit, connected, message))
  {
    assert cfg.Valid();
    hide Inv, AfterOffer, Required, FramesOf, Align, Offered, Appended, Grown, Padding, Rotates, Settings.Valid,
         State.Position, Unsealed;
    var s' := AfterOffer(cfg, s, closed, limit, connected, message);
    OfferCases(cfg, s, closed, limit, connected, message);
    if closed || s.pub.Position(cfg) >= limit || (|message| > cfg.maxPayload && |message| > cfg.maxMessage) {
    } else if s.pub.offset + Required(cfg, |message|) <= cfg.termLength {
      OfferFits(cfg, s, message, s');
    } else {
      TrippingOffer(cfg, s, message, s');
    }
  }

  lemma CleanKeeps(cfg: Settings, s: System)
    requires Inv(cfg, s) && s.pub.Valid() && s.terms != [] && Enabled(cfg, s, CleanStep)
    ensures Inv(cfg, After(cfg, s, CleanStep))
  {
    hide Faithful, Deliver, Legal, EndsOpen, Tiles, TilesEnd, CaughtUp, Flatten, BufferInv, State.Committed;
    NextIndex(s.pub.count);
    assert After(cfg, s, CleanStep).pub.Committed() == s.pub.Committed() by {
      ActiveKept(s.pub);
    }
    TermOfPosition(cfg, s);
    CleanKeepsBuffers(s);
  }

  lemma ActiveKept(pub: State)
    requires pub.Valid()
    ensures pub.(parts := pub.parts[pub.Next() := []]).Valid()
    ensures pub.(parts := pub.parts[pub.Next() := []]).Committed() == pub.Committed()
  {
    NextIndex(pub.count);
  }

  lemma CleanKeepsBuffers(s: System)
    requires s.pub.Valid() && |s.terms| == s.pub.count + 1 && BufferInv(s) && s.term + 1 >= s.pub.count
    ensures s.pub.(parts := s.pub.parts[s.pub.Next() := []]).Valid()
    ensures BufferInv(s.(pub := s.pub.(parts := s.pub.parts[s.pub.Next() := []])))
  {
    NextIndex(s.pub.count);
  }

  /** The term the subscriber is in, from its position. */
  lemma TermOfPosition(cfg: Settings, s: System)
    requires cfg.Valid() && PublisherInv(cfg, s) && ReaderInv(cfg, s)
    ensures s.position >= 0 && s.position / cfg.termLength == s.term && s.position % cfg.termLength == ReadOffset(s)
    ensures forall k: nat :: s.position >= k * cfg.termLength ==> s.term >= k
  {
    hide CaughtUp, EndOf;
    if s.term < |s.terms| {
      NeverBack(s.terms[s.term], s.index, 0);
    }
    hide PublisherInv, Tiles, TilesEnd;
    PositionSplits(s.position, cfg.termLength, s.term, ReadOffset(s));
  }

  lemma PositionSplits(position: int, termLength: nat, term: nat, offset: nat)
    requires offset < termLength && position == term * termLength + offset
    ensures position >= 0 && position / termLength == term && position % termLength == offset
    ensures forall k: nat :: position >= k * termLength ==> term >= k
  {
    DivUnique(position, termLength, term, offset);
    forall k: nat | position >= k * termLength
      ensures term >= k
    {
      if k > term {
        MultipleGap(k, term, termLength);
      }
    }
  }

  /** From a frame boundary on there are the frames behind it. */
  lemma {:induction false} FromBoundary(frames: seq<Frame>, index: nat, start: int)
    requires Tiles(frames, start) && index <= |frames|
    ensures From(frames, TilesEnd(frames[..index], start)) == frames[index..]
  {
    if index > 0 {
      hide EndOf, Tiles;
      FirstIsBelow(frames, index, start);
      assert frames[1..][..index - 1] == frames[..index][1..];
      FromBoundary(frames[1..], index - 1, EndOf(frames[0]));
      DropTwice(frames, 1, index - 1);
    }
  }

  lemma FirstIsBelow(frames: seq<Frame>, index: nat, start: int)
    requires Tiles(frames, start) && 0 < index <= |frames|
    ensures frames[0].offset < TilesEnd(frames[..index], start)
    ensures Tiles(frames[1..], EndOf(frames[0]))
    ensures TilesEnd(frames[..index], start) == TilesEnd(frames[1..][..index - 1], EndOf(frames[0]))
  {
    TilesOrdered(frames, start, 0, index - 1);
  }

  /** Only the whole of a tiling reaches its end. */
  lemma EndIsEnd(frames: seq<Frame>, k: nat, start: int)
    requires Tiles(frames, start) && k <= |frames| && TilesEnd(frames[..k], start) >= TilesEnd(frames, start)
    ensures k == |frames|
  {
    if k < |frames| {
      TilesSplit(frames, k, start);
      TilesWithin(frames[k..], TilesEnd(frames[..k], start), 0);
    }
  }

  lemma {:induction false} FlattenAppend(a: seq<seq<Frame>>, b: seq<seq<Frame>>)
    ensures Flatten(a + b) == Flatten(a) + Flatten(b)
    decreases |b|
  {
    if b == [] {
      assert a + b == a;
    } else {
      FlattenAppend(a, b[..|b| - 1]);
      assert (a + b)[..|a + b| - 1] == a + b[..|b| - 1];
      Associate(Flatten(a), Flatten(b[..|b| - 1]), b[|b| - 1]);
    }
  }

  lemma FlattenOneMore(terms: seq<seq<Frame>>, k: nat)
    requires k < |terms|
    ensures Flatten(terms[..k + 1]) == Flatten(terms[..k]) + terms[k]
  {
    assert terms[..k + 1][..k] == terms[..k];
  }

  /** What is published is what was consumed and the rest. */
  lemma ConsumedIsPrefix(s: System)
    requires s.term <= |s.terms| && (s.term < |s.terms| ==> s.index <= |s.terms[s.term]|)
    ensures var rest := if s.term < |s.terms| then s.terms[s.term][s.index..] + Flatten(s.terms[s.term + 1..]) else [];
            Published(s) == Consumed(s) + rest
  {
    if s.term < |s.terms| {
      var before, frames, after := s.terms[..s.term], s.terms[s.term], s.terms[s.term + 1..];
      assert s.terms == s.terms[..s.term + 1] + after;
      FlattenAppend(s.terms[..s.term + 1], after);
      FlattenOneMore(s.terms, s.term);
      assert frames == frames[..s.index] + frames[s.index..];
      Associate(Flatten(before), frames[..s.index], frames[s.index..]);
      Associate(Consumed(s), frames[s.index..], Flatten(after));
    } else {
      assert s.terms[..s.term] == s.terms;
    }
  }

  /** The frames still to be read in the term are a legal continuation of those consumed. */
  lemma RestIsLegal(s: System)
    requires s.term < |s.terms| && s.index <= |s.terms[s.term]| && Legal(Published(s), false)
    ensures Legal(s.terms[s.term][s.index..], EndsOpen(Consumed(s), false))
  {
    hide Legal, EndsOpen, Flatten, Published, Consumed;
    var all, k, rest, after := Published(s), |Consumed(s)|, s.terms[s.term][s.index..], Flatten(s.terms[s.term + 1..]);
    ConsumedIsPrefix(s);
    assert all[..k] == Consumed(s) && all[k..] == rest + after;
    LegalSplit(all, k, false);
    LegalSplit(rest + after, |rest|, EndsOpen(Consumed(s), false));
    assert (rest + after)[..|rest|] == rest;
  }

  /** The buffer the subscriber reads holds the term it has reached. */
  lemma ReadsItsTerm(cfg: Settings, s: System)
    requires Inv(cfg, s)
    ensures s.pub.parts[s.term % 3] == if s.term < |s.terms| then s.terms[s.term] else []
  {
    hide Legal, EndsOpen, Deliver, Tiles, CaughtUp, Published, Consumed;
    if s.term == |s.terms| {
      if !s.pub.sealed {
        NotBeyondEnd(cfg, s);
      }
    }
  }

  /** A term never reaches beyond its end. */
  lemma TermEnds(cfg: Settings, s: System, t: nat)
    requires cfg.Valid() && PublisherInv(cfg, s) && t < |s.terms|
    ensures Tiles(s.terms[t], 0) && TilesEnd(s.terms[t], 0) <= cfg.termLength
  {
    if t == |s.terms| - 1 && s.pub.sealed {
      SealedEnd(cfg, s);
    }
  }

  lemma VisibleFrames(cfg: Settings, s: System)
    requires Inv(cfg, s)
    ensures s.position >= 0 && s.position % cfg.termLength == ReadOffset(s)
    ensures s.position - ReadOffset(s) == s.term * cfg.termLength
    ensures Visible(cfg, s.pub.parts, s.position) == if s.term < |s.terms| then s.terms[s.term][s.index..] else []
  {
    hide PublisherInv, BufferInv, CaughtUp, From;
    TermOfPosition(cfg, s);
    ReadsItsTerm(cfg, s);
    if s.term < |s.terms| {
      TermEnds(cfg, s, s.term);
      FromBoundary(s.terms[s.term], s.index, 0);
    } else {
      FromNothing(ReadOffset(s));
    }
  }

  lemma FromNothing(offset: int)
    ensures From([], offset) == []
  {
  }

  lemma ReaderWithin(cfg: Settings, s: System, k: nat, reader: Reader, s': System)
    requires cfg.Valid() && s.term < |s.terms| && k <= |s.terms[s.term]| && CaughtUp(reader, Consumed(s.(index := k)))
    requires TilesEnd(s.terms[s.term][..k], 0) < cfg.termLength
    requires s' == s.(position := s.term * cfg.termLength + TilesEnd(s.terms[s.term][..k], 0), reader := reader,
                      index := k)
    ensures ReaderInv(cfg, s')
  {
    hide CaughtUp, TilesEnd, Consumed;
    ConsumedIgnores(s', s.(index := k));
  }

  lemma ReaderAtEnd(cfg: Settings, s: System, reader: Reader, s': System)
    requires cfg.Valid() && s.term < |s.terms| && CaughtUp(reader, Consumed(s.(term := s.term + 1, index := 0)))
    requires TilesEnd(s.terms[s.term], 0) == cfg.termLength
    requires s' == s.(position := s.term * cfg.termLength + cfg.termLength, reader := reader, term := s.term + 1,
                      index := 0)
    ensures ReaderInv(cfg, s')
  {
    hide CaughtUp, TilesEnd, Consumed;
    MulStep(s.term, cfg.termLength);
    NothingConsumedOf(s');
    ConsumedIgnores(s', s.(term := s.term + 1, index := 0));
  }

  /** Consuming `n` more frames of the term the subscriber is in. */
  lemma ReaderAdvances(cfg: Settings, s: System, n: nat, reader: Reader, s': System)
    requires cfg.Valid() && PublisherInv(cfg, s) && s.term < |s.terms| && s.index + n <= |s.terms[s.term]|
    requires CaughtUp(reader, Consumed(s) + s.terms[s.term][s.index..][..n])
    requires var after := TilesEnd(s.terms[s.term][s.index..][..n], ReadOffset(s));
             var moved := s.(position := s.term * cfg.termLength + after, reader := reader);
             s' == if after == cfg.termLength then moved.(term := s.term + 1, index := 0)
               else moved.(index := s.index + n)
    ensures ReaderInv(cfg, s')
  {
    hide PublisherInv, CaughtUp, Tiles, TilesEnd, Consumed, ReaderInv;
    TermEnds(cfg, s, s.term);
    var frames, k := s.terms[s.term], s.index + n;
    ConsumedGrows(s, n);
    EndAfter(frames, s.index, n);
    NeverBack(frames, k, 0);
    if TilesEnd(frames[..k], 0) == cfg.termLength {
      EndIsEnd(frames, k, 0);
      assert frames[..k] == frames;
      ReaderAtEnd(cfg, s, reader, s');
    } else {
      ReaderWithin(cfg, s, k, reader, s');
    }
  }

  lemma EndAfter(frames: seq<Frame>, index: nat, n: nat)
    requires index + n <= |frames|
    ensures TilesEnd(frames[index..][..n], TilesEnd(frames[..index], 0)) == TilesEnd(frames[..index + n], 0)
  {
  }

  lemma NothingConsumedOf(s: System)
    requires s.index == 0
    ensures ReadOffset(s) == 0
  {
  }

  lemma ConsumedIgnores(s: System, s': System)
    requires s.term <= |s.terms| && (s.term < |s.terms| ==> s.index <= |s.terms[s.term]|)
    requires s'.term <= |s'.terms| && (s'.term < |s'.terms| ==> s'.index <= |s'.terms[s'.term]|)
    ensures s.term == s'.term && s.terms == s'.terms && s.index == s'.index ==> Consumed(s) == Consumed(s')
  {
  }

  lemma ConsumedGrows(s: System, n: nat)
    requires s.term < |s.terms| && s.index + n <= |s.terms[s.term]|
    ensures Consumed(s) + s.terms[s.term][s.index..][..n] == Consumed(s.(index := s.index + n))
    ensures s.index + n == |s.terms[s.term]| ==>
              Consumed(s) + s.terms[s.term][s.index..][..n] == Consumed(s.(term := s.term + 1, index := 0))
  {
    hide Flatten;
    var frames, k := s.terms[s.term], s.index + n;
    assert frames[..k] == frames[..s.index] + frames[s.index..][..n];
    Associate(Flatten(s.terms[..s.term]), frames[..s.index], frames[s.index..][..n]);
    FlattenOneMore(s.terms, s.term);
    assert k == |frames| ==> frames[..k] == frames;
    assert forall t: seq<Frame> :: Flatten(s.terms[..s.term + 1]) + t[..0] == Flatten(s.terms[..s.term + 1]);
  }

  /** Nothing else changes when the subscriber moves. */
  lemma OthersKept(cfg: Settings, s: System, s': System)
    requires cfg.Valid() && PublisherInv(cfg, s) && BufferInv(s) && s'.term >= s.term
    requires s' == s.(position := s'.position, reader := s'.reader, term := s'.term, index := s'.index)
    ensures PublisherInv(cfg, s') && BufferInv(s')
  {
    hide Legal, EndsOpen, Deliver, Tiles, Flatten, TilesEnd;
  }

  lemma PollKeeps(cfg: Settings, s: System, delegate: Delegate, limitPosition: int, fragmentLimit: int)
    requires Inv(cfg, s) && s.pub.Valid()
    ensures Inv(cfg, AfterPoll(cfg, s, delegate, limitPosition, fragmentLimit))
  {
    hide Faithful, PublisherInv, BufferInv, CaughtUp, From, TilesEnd, Poll, Consumed;
    if s.position < limitPosition {
      VisibleFrames(cfg, s);
      var frames, offset := Visible(cfg, s.pub.parts, s.position), ReadOffset(s);
      var limitOffset := LimitOffset(cfg.termLength, s.position, limitPosition);
      var scan := Poll(HandlerOf(delegate), s.reader, frames, limitOffset, fragmentLimit);
      PollCatchesUpHere(cfg, s, delegate, limitOffset, fragmentLimit);
      if s.term < |s.terms| {
        var s' := AfterPoll(cfg, s, delegate, limitPosition, fragmentLimit);
        ReaderAdvances(cfg, s, scan.consumed, scan.state, s');
        OthersKept(cfg, s, s');
      } else {
        assert frames[..0] == [];
        NothingTiled(offset);
      }
    }
  }

  /** What the frames up to the end of the term in reading deliver comes first among the accepted messages. */
  lemma TermPrefix(cfg: Settings, s: System)
    requires PublisherInv(cfg, s) && s.term < |s.terms| && s.index <= |s.terms[s.term]|
    ensures Deliver(IDLE, Consumed(s) + s.terms[s.term][s.index..]).1 <= s.accepted
  {
    hide Deliver, Legal, EndsOpen, Flatten, Published, Consumed;
    var seen, after := Consumed(s) + s.terms[s.term][s.index..], Flatten(s.terms[s.term + 1..]);
    ConsumedIsPrefix(s);
    Associate(Consumed(s), s.terms[s.term][s.index..], after);
    assert (seen + after)[..|seen|] == seen;
    DeliveredPrefix(IDLE, seen + after, |seen|);
  }

  lemma PollCatchesUpHere(cfg: Settings, s: System, delegate: Delegate, limitOffset: int, fragmentLimit: int)
    requires Inv(cfg, s)
    ensures var frames := if s.term < |s.terms| then s.terms[s.term][s.index..] else [];
            var scan := Poll(HandlerOf(delegate), s.reader, frames, limitOffset, fragmentLimit);
            && Faithful(scan.state.calls, s.accepted)
            && if s.term < |s.terms| then CaughtUp(scan.state, Consumed(s) + frames[..scan.consumed])
               else scan == Scan(s.reader, 0, [])
  {
    hide Faithful, Deliver, CaughtUp, Consumed, HandlerOf, TilesEnd;
    if s.term < |s.terms| {
      RestIsLegal(s);
      TermPrefix(cfg, s);
      PollFaithful(delegate, s.reader, Consumed(s), s.terms[s.term][s.index..], limitOffset, fragmentLimit, s.accepted);
      PollCatchesUp(delegate, s.reader, Consumed(s), s.terms[s.term][s.index..], limitOffset, fragmentLimit);
    }
  }

  /** One step keeps the invariant. */
  lemma StepKeeps(cfg: Settings, s: System, step: Step)
    requires Inv(cfg, s) && s.pub.Valid() && s.terms != [] && Enabled(cfg, s, step)
    ensures Inv(cfg, After(cfg, s, step))
  {
    hide Inv, AfterOffer, AfterPoll;
    match step
    case OfferStep(closed, limit, connected, message) => OfferKeeps(cfg, s, closed, limit, connected, message);
    case CleanStep => CleanKeeps(cfg, s);
    case PollStep(delegate, limitPosition, fragmentLimit) => PollKeeps(cfg, s, delegate, limitPosition, fragmentLimit);
  }
}
