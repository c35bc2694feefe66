/**
 The single-writer publication (ExclusivePublication.h): an offer appends frames to the active one of three term
 buffers, closes a full term with padding and moves on to the next. `Appended` and `Offered` say on frames what the
 class below does in memory.
 */
module ExclusivePublications {
  import opened Framing
  import opened TermBuffer
  import opened GatheredWrites

  const PARTITION_COUNT := 3
  const TWO_32 := 0x1_0000_0000
  const TERMS_IN_STREAM := 0x8000_0000

  /** What is fixed when the publication is created. */
  datatype Settings = Settings(termLength: nat, maxPayload: nat, maxMessage: nat, initialTermId: int, session: int,
                               stream: int)
  {
    /** checkTermLength, checkMaxFrameLength and computeMaxMessageLength; frames of at most 65504 bytes. */
    predicate Valid() {
      && 0x1_0000 <= termLength <= 0x4000_0000 && termLength % FRAME_ALIGNMENT == 0
      && 32 <= maxPayload <= 0xFFC0 && maxPayload % FRAME_ALIGNMENT == 0
      && maxMessage <= termLength / 8 && maxMessage <= 0x100_0000
      && IsInt32(initialTermId)
    }

    /** The greatest position a stream can reach: 2^31 terms. */
    function MaxPossiblePosition(): int { termLength * TERMS_IN_STREAM }
  }

  predicate IsInt32(x: int) { -TERMS_IN_STREAM <= x < TERMS_IN_STREAM }

  /** Conversion to a signed 32-bit integer. */
  function Wrap32(x: int): (r: int)
    ensures IsInt32(r) && (x - r) % TWO_32 == 0
  {
    (x + TERMS_IN_STREAM) % TWO_32 - TERMS_IN_STREAM
  }

  function PackTail(termId: int, termOffset: nat): int
    requires termOffset < TWO_32
  {
    termId * TWO_32 + termOffset
  }

  /** LogBufferDescriptor::termId and ::termOffset of a packed tail; the shift rounds down for negative term ids too. */
  function TailTermId(rawTail: int): int { rawTail / TWO_32 }

  function TailTermOffset(rawTail: int, termLength: nat): int {
    var tail := rawTail % TWO_32;
    if tail <= termLength then tail else termLength
  }

  lemma TailUnpacks(termId: int, termOffset: nat, termLength: nat)
    requires termOffset < TWO_32
    ensures TailTermId(PackTail(termId, termOffset)) == termId
    ensures TailTermOffset(PackTail(termId, termOffset), termLength) == if termOffset <= termLength then termOffset
            else termLength
  {
  }

  /** The difference of term ids gives the term count back although the ids wrap. */
  lemma TermCountSurvivesWrap(initialTermId: int, count: nat)
    requires IsInt32(initialTermId) && count < TERMS_IN_STREAM
    ensures Wrap32(Wrap32(initialTermId + count) - initialTermId) == count
  {
  }

  /** What a term shows without the padding frame of a sealed term. */
  function CommittedOf(shown: seq<Frame>, sealed: bool): seq<Frame> {
    if sealed && shown != [] then shown[..|shown| - 1] else shown
  }

  /** A stream as the publication leaves it: the term count, the offset in the active term, whether that term was
      padded without moving on, and the frames each of the three buffers shows. */
  datatype State = State(count: nat, offset: nat, sealed: bool, parts: seq<seq<Frame>>)
  {
    predicate Valid() { |parts| == PARTITION_COUNT && (sealed ==> parts[Active()] != []) }

    function Active(): nat { count % PARTITION_COUNT }

    function Next(): nat { (count + 1) % PARTITION_COUNT }

    function Position(cfg: Settings): int { count * cfg.termLength + offset }

    /** The frames of the active term below `offset`. */
    function Committed(): seq<Frame>
      requires Valid()
    {
      CommittedOf(parts[Active()], sealed)
    }
  }

  datatype Outcome =
    | Accepted(position: int)
    | AdminAction
    | BackPressured
    | NotConnected
    | MaxPositionExceeded
    | Closed
    | MessageTooLong
    | LengthOverflow

  function OriginOf(cfg: Settings, count: nat): Origin {
    Origin(cfg.session, cfg.stream, Wrap32(cfg.initialTermId + count))
  }

  /** How much of the term an offer reserves. */
  function Required(cfg: Settings, length: nat): nat
    requires cfg.maxPayload > 0
  {
    if length <= cfg.maxPayload then Align(length + HEADER_LENGTH) else FramedLength(length, cfg.maxPayload)
  }

  function FramesOf(cfg: Settings, count: nat, offset: nat, message: seq<int>): seq<Frame>
    requires cfg.maxPayload > 0
  {
    Fragments(cfg.maxPayload, OriginOf(cfg, count), offset, message, true)
  }

  /** An offer that found the position below the limit. */
  function Appended(cfg: Settings, s: State, message: seq<int>): (State, Outcome)
    requires cfg.maxPayload > 0 && s.Valid()
  {
    var resulting := s.offset + Required(cfg, |message|);
    var a := s.Active();
    if resulting <= cfg.termLength then
      (s.(offset := resulting, sealed := false,
          parts := s.parts[a := s.Committed() + FramesOf(cfg, s.count, s.offset, message)]),
       Accepted(s.count * cfg.termLength + resulting))
    else
      var padded := if s.offset < cfg.termLength then
                      s.parts[a := s.Committed()
                              + [PadFrame(OriginOf(cfg, s.count), s.offset, cfg.termLength - s.offset)]]
                    else s.parts;
      if (s.count + 1) * cfg.termLength >= cfg.MaxPossiblePosition() then
        (s.(sealed := s.offset < cfg.termLength, parts := padded), MaxPositionExceeded)
      else
        (State(s.count + 1, 0, false, padded), AdminAction)
  }

  lemma AppendedFits(cfg: Settings, s: State, message: seq<int>)
    requires cfg.maxPayload > 0 && s.Valid() && s.offset + Required(cfg, |message|) <= cfg.termLength
    ensures var resulting := s.offset + Required(cfg, |message|);
            Appended(cfg, s, message) ==
              (s.(offset := resulting, sealed := false,
                  parts := s.parts[s.Active() := s.Committed() + FramesOf(cfg, s.count, s.offset, message)]),
               Accepted(s.count * cfg.termLength + resulting))
  {
  }

  lemma AppendedTrips(cfg: Settings, s: State, message: seq<int>, padded: seq<seq<Frame>>)
    requires cfg.maxPayload > 0 && s.Valid() && s.offset + Required(cfg, |message|) > cfg.termLength
    requires padded == if s.offset < cfg.termLength then
                         s.parts[s.Active() := s.Committed() +
                                 [PadFrame(OriginOf(cfg, s.count), s.offset, cfg.termLength - s.offset)]]
                       else s.parts
    ensures Appended(cfg, s, message) ==
              if (s.count + 1) * cfg.termLength >= cfg.MaxPossiblePosition() then
                (s.(sealed := s.offset < cfg.termLength, parts := padded), MaxPositionExceeded)
              else (State(s.count + 1, 0, false, padded), AdminAction)
  {
  }

  /** ExclusivePublication::offer with the limit and the connection status it reads. */
  function Offered(cfg: Settings, s: State, closed: bool, limit: int, connected: bool, message: seq<int>)
    : (State, Outcome)
    requires cfg.maxPayload > 0 && s.Valid()
  {
    if closed then (s, Closed)
    else if s.Position(cfg) < limit then
      if |message| > cfg.maxPayload && |message| > cfg.maxMessage then (s, MessageTooLong)
      else Appended(cfg, s, message)
    else if s.Position(cfg) + |message| >= cfg.MaxPossiblePosition() then (s, MaxPositionExceeded)
    else if connected then (s, BackPressured)
    else (s, NotConnected)
  }

  /** The offers that get as far as the tail counter. */
  predicate Appends(cfg: Settings, s: State, closed: bool, limit: int, length: nat) {
    !closed && s.count * cfg.termLength + s.offset < limit && (length <= cfg.maxPayload || length <= cfg.maxMessage)
  }

  /** What an offer answers, by what its caller knows: whether the publication is closed and connected, the limit, the
      length, the position and the room left in the term. A refusal changes nothing, except that a message too long for
      the rest of the last term leaves padding there. */
  lemma OfferedOutcomes(cfg: Settings, s: State, closed: bool, limit: int, connected: bool, message: seq<int>)
    requires cfg.Valid() && s.Valid() && s.count < 0x8000_0000 && s.offset <= cfg.termLength
    ensures var (s', outcome) := Offered(cfg, s, closed, limit, connected, message);
            var position, space := s.count * cfg.termLength + s.offset, Required(cfg, |message|);
            var below, allowed := position < limit, |message| <= cfg.maxPayload || |message| <= cfg.maxMessage;
            var fits, last := s.offset + space <= cfg.termLength, s.count == 0x7FFF_FFFF;
            var over := position + |message| >= cfg.termLength * 0x8000_0000;
            && (outcome == Closed <==> closed)
            && (outcome == MessageTooLong <==> !closed && below && !allowed)
            && (outcome.Accepted? <==> !closed && below && allowed && fits)
            && (outcome.Accepted? ==> outcome.position == position + space)
            && (outcome == AdminAction <==> !closed && below && allowed && !fits && !last)
            && (outcome == MaxPositionExceeded
                <==> !closed && if below then allowed && !fits && last else over)
            && (outcome == BackPressured <==> !closed && !below && !over && connected)
            && (outcome == NotConnected <==> !closed && !below && !over && !connected)
            && (closed || !below || !allowed ==> s' == s)
            && (outcome == AdminAction ==> s'.count == s.count + 1 && s'.offset == 0)
            && (outcome == MaxPositionExceeded ==> s'.count == s.count && s'.offset == s.offset)
            && (outcome.Accepted? ==> s'.count == s.count && s'.offset == s.offset + space)
  {
    hide Required, FramesOf, State.Committed, PadFrame;
    assert (s.count + 1) * cfg.termLength >= cfg.MaxPossiblePosition() <==> s.count == 0x7FFF_FFFF by {
      LastTermOnly(s.count, cfg.termLength);
    }
  }

  lemma LastTermOnly(count: nat, termLength: nat)
    requires termLength > 0 && count < 0x8000_0000
    ensures (count + 1) * termLength >= termLength * TERMS_IN_STREAM <==> count == 0x7FFF_FFFF
  {
    if count < 0x7FFF_FFFF {
      MultipleGap(TERMS_IN_STREAM, count + 1, termLength);
    }
  }

  /** Once the limit is raised over the position an offer that was refused for it goes through, or moves the publication
      on to the next term. */
  lemma RaisedLimitLetsThrough(cfg: Settings, s: State, limit: int, connected: bool, raised: int, message: seq<int>)
    requires cfg.Valid() && s.Valid() && s.count < 0x7FFF_FFFF && s.offset <= cfg.termLength
    requires Offered(cfg, s, false, limit, connected, message).1 in {BackPressured, NotConnected}
    requires s.count * cfg.termLength + s.offset < raised
             && (|message| <= cfg.maxPayload || |message| <= cfg.maxMessage)
    ensures var outcome := Offered(cfg, s, false, raised, connected, message).1;
            outcome.Accepted? || outcome == AdminAction
  {
    hide Offered, Required;
    OfferedOutcomes(cfg, s, false, raised, connected, message);
  }

  /** Memory of the active term: the frames below `offset`, then nothing; a sealed term shows one padding frame more. */
  ghost predicate ActiveTerm(cells: seq<int>, shown: seq<Frame>, offset: nat, sealed: bool) {
    && (sealed ==> shown != [] && TilesEnd(shown, 0) == |cells| && offset < |cells|)
    && var committed := CommittedOf(shown, sealed);
       && Tiles(shown, 0) && TilesEnd(committed, 0) == offset <= |cells|
       && Holds(cells, shown)
       && forall i :: (if sealed then offset + HEADER_LENGTH else offset) <= i < |cells| ==> cells[i] == 0
  }

  lemma ActiveTermShows(cells: seq<int>, shown: seq<Frame>, offset: nat, sealed: bool)
    requires ActiveTerm(cells, shown, offset, sealed)
    ensures Shows(cells, shown)
  {
  }

  lemma EmptyTermIsActive(cells: seq<int>)
    requires forall i :: 0 <= i < |cells| ==> cells[i] == 0
    ensures ActiveTerm(cells, [], 0, false)
  {
  }

  lemma EmptyTermShows(cells: seq<int>)
    requires forall i :: 0 <= i < |cells| ==> cells[i] == 0
    ensures Shows(cells, [])
  {
  }

  lemma CommittedKept(before: seq<int>, after: seq<int>, shown: seq<Frame>, committed: seq<Frame>, offset: nat,
                      sealed: bool)
    requires |before| == |after| && ActiveTerm(before, shown, offset, sealed)
    requires committed == CommittedOf(shown, sealed)
    requires forall i :: 0 <= i < offset ==> after[i] == before[i]
    ensures Holds(after, committed) && Tiles(committed, 0) && TilesEnd(committed, 0) == offset
  {
    hide Decode, FrameAt;
    assert Holds(before, committed);
    HoldsKept(before, after, committed, 0);
  }

  lemma AppendInMemory(before: seq<int>, after: seq<int>, shown: seq<Frame>, committed: seq<Frame>, offset: nat,
                       sealed: bool, frames: seq<Frame>, end: nat)
    requires |before| == |after| && ActiveTerm(before, shown, offset, sealed)
    requires committed == CommittedOf(shown, sealed)
    requires forall i :: 0 <= i < offset ==> after[i] == before[i]
    requires frames != [] && Written(after, frames, offset, end) && end <= |after|
    ensures ActiveTerm(after, committed + frames, end, false)
  {
    CommittedKept(before, after, shown, committed, offset, sealed);
    TilesAppend(committed, frames, 0);
  }

  lemma PadInMemory(before: seq<int>, after: seq<int>, shown: seq<Frame>, committed: seq<Frame>, offset: nat,
                    sealed: bool, pad: Frame)
    requires |before| == |after| && ActiveTerm(before, shown, offset, sealed)
    requires committed == CommittedOf(shown, sealed)
    requires forall i :: 0 <= i < |after| && !(offset <= i < offset + HEADER_LENGTH) ==> after[i] == before[i]
    requires FrameAt(after, offset) && Decode(after, offset) == pad && pad.offset == offset < |after|
    requires pad.length == |after| - offset && pad.length % FRAME_ALIGNMENT == 0
    ensures ActiveTerm(after, committed + [pad], offset, true)
  {
    CommittedKept(before, after, shown, committed, offset, sealed);
    TilesAppend(committed, [pad], 0);
    assert (committed + [pad])[..|committed + [pad]| - 1] == committed;
  }

  lemma RequiredIsSpan(cfg: Settings, count: nat, offset: nat, message: seq<int>)
    requires cfg.Valid()
    ensures TilesEnd(FramesOf(cfg, count, offset, message), offset) == offset + Required(cfg, |message|)
    ensures Required(cfg, |message|) >= HEADER_LENGTH && Required(cfg, |message|) % FRAME_ALIGNMENT == 0
    ensures |message| <= cfg.maxMessage || |message| <= cfg.maxPayload ==> offset <= cfg.termLength ==>
              offset + Required(cfg, |message|) < TERMS_IN_STREAM
  {
    hide Fragments, Tiles, TilesEnd;
    var from := OriginOf(cfg, count);
    ReservedLengthBounds(|message|, cfg.maxPayload);
    if |message| > cfg.maxPayload {
      ReservedLengthIsExact(cfg.maxPayload, from, offset, message);
      FramedLengthCountsFragments(|message|, cfg.maxPayload);
      ReservedLengthAligned(|message|, cfg.maxPayload);
    } else {
      SingleFrameEnd(cfg.maxPayload, from, offset, message);
    }
  }

  lemma {:induction false} ReservedLengthAligned(length: nat, maxPayload: nat)
    requires maxPayload > 0 && maxPayload % FRAME_ALIGNMENT == 0
    ensures ReservedLength(length, maxPayload) % FRAME_ALIGNMENT == 0
    decreases length
  {
    if length >= maxPayload {
      ReservedLengthAligned(length - maxPayload, maxPayload);
      SumAligned(maxPayload, HEADER_LENGTH);
      SumAligned(maxPayload + HEADER_LENGTH, ReservedLength(length - maxPayload, maxPayload));
    }
  }

  lemma SumAligned(a: nat, b: nat)
    requires a % FRAME_ALIGNMENT == 0 && b % FRAME_ALIGNMENT == 0
    ensures (a + b) % FRAME_ALIGNMENT == 0
  {
  }

  lemma SingleFrameEnd(maxPayload: nat, from: Origin, offset: nat, message: seq<int>)
    requires |message| <= maxPayload && maxPayload > 0
    ensures Fragments(maxPayload, from, offset, message, true) == [DataFrame(from, offset, message, true, true)]
    ensures TilesEnd(Fragments(maxPayload, from, offset, message, true), offset) == offset
            + Align(|message| + HEADER_LENGTH)
  {
  }

  /** Padding one term in memory (handleEndOfLogCondition). */
  method PadTerm(term: array<int>, from: Origin, offset: nat, ghost shown: seq<Frame>, ghost sealed: bool)
    requires ActiveTerm(term[..], shown, offset, sealed) && offset < term.Length
    requires offset % FRAME_ALIGNMENT == 0 && term.Length % FRAME_ALIGNMENT == 0
    modifies term
    ensures var committed := CommittedOf(shown, sealed);
            ActiveTerm(term[..], committed + [PadFrame(from, offset, term.Length - offset)], offset, true)
  {
    hide ActiveTerm, Decode;
    ghost var before := term[..];
    WritePadding(term, from, offset);
    PadInMemory(before, term[..], shown, CommittedOf(shown, sealed), offset, sealed,
                PadFrame(from, offset, term.Length - offset));
  }

  /** Appending a message to one term in memory, from one buffer or from several. */
  method AppendToTerm(cfg: Settings, term: array<int>, ghost count: nat, from: Origin, offset: nat,
                      buffers: seq<seq<int>>, length: nat, gathered: bool,
                      ghost shown: seq<Frame>, ghost sealed: bool)
    requires cfg.Valid() && from == OriginOf(cfg, count) && ActiveTerm(term[..], shown, offset, sealed)
    requires length == |Flatten(buffers)| && (!gathered ==> |buffers| == 1 && buffers[0] == Flatten(buffers))
    requires offset + Required(cfg, length) <= term.Length
    modifies term
    ensures var committed := CommittedOf(shown, sealed);
            ActiveTerm(term[..], committed + FramesOf(cfg, count, offset, Flatten(buffers)),
                       offset + Required(cfg, length), false)
  {
    hide ActiveTerm, Decode, Written, Fragments, Tiles, TilesEnd, Required;
    ghost var before, message := term[..], Flatten(buffers);
    ghost var frames := FramesOf(cfg, count, offset, message);
    RequiredIsSpan(cfg, count, offset, message);
    ActiveTermRoom(before, shown, offset, sealed);
    if length <= cfg.maxPayload {
      SingleFrameEnd(cfg.maxPayload, from, offset, message);
      if gathered {
        WriteGatheredWhole(term, from, offset, buffers);
      } else {
        WriteFrame(term, from, offset, buffers[0], true, true);
      }
      SingleWritten(term[..], before, frames, offset, from, message);
    } else if gathered {
      WriteGatheredFragments(term, from, offset, buffers, cfg.maxPayload);
    } else {
      WriteFragments(term, from, offset, buffers[0], cfg.maxPayload);
    }
    AppendInMemory(before, term[..], shown, CommittedOf(shown, sealed), offset, sealed,
                   frames, offset + Required(cfg, length));
  }

  lemma ActiveTermRoom(cells: seq<int>, shown: seq<Frame>, offset: nat, sealed: bool)
    requires ActiveTerm(cells, shown, offset, sealed)
    ensures forall i :: offset + HEADER_LENGTH <= i < |cells| ==> cells[i] == 0
  {
  }

  lemma SingleWritten(cells: seq<int>, before: seq<int>, frames: seq<Frame>, offset: nat, from: Origin,
                      message: seq<int>)
    requires |cells| == |before| && frames == [DataFrame(from, offset, message, true, true)]
    requires forall i :: offset + HEADER_LENGTH <= i < |before| ==> before[i] == 0
    requires forall i :: 0 <= i < |cells| && !(offset <= i < offset + HEADER_LENGTH + |message|) ==>
             cells[i] == before[i]
    requires FrameAt(cells, offset) && Decode(cells, offset) == DataFrame(from, offset, message, true, true)
    ensures Written(cells, frames, offset, offset + Align(|message| + HEADER_LENGTH))
  {
  }

  method ZeroTerm(term: array<int>)
    modifies term
    ensures forall i :: 0 <= i < term.Length ==> term[i] == 0
  {
    forall i | 0 <= i < term.Length {
      term[i] := 0;
    }
  }

  class ExclusivePublication {
    const cfg: Settings
    const terms: seq<array<int>>
    const tails: array<int>
    var termOffset: int
    var termId: int
    var activePartitionIndex: int
    var termBeginPosition: int
    var activeTermCount: int
    var isClosed: bool
    /** The same state on frames. */
    ghost var view: State

    ghost predicate Shape() {
      && cfg.Valid() && tails.Length == PARTITION_COUNT && |terms| == PARTITION_COUNT
      && (forall p :: 0 <= p < PARTITION_COUNT ==> terms[p].Length == cfg.termLength && terms[p] != tails)
      && (forall p, q :: 0 <= p < q < PARTITION_COUNT ==> terms[p] != terms[q])
    }

    ghost predicate Fields()
      requires Shape()
      reads this
    {
      && view.Valid()
      && view.count < TERMS_IN_STREAM && activeTermCount == view.count
      && activePartitionIndex == view.Active()
      && (view.sealed ==> view.offset < cfg.termLength)
      && termOffset == view.offset <= cfg.termLength && termOffset % FRAME_ALIGNMENT == 0
      && termId == Wrap32(cfg.initialTermId + view.count)
      && termBeginPosition == view.count * cfg.termLength
    }

    ghost predicate Memory()
      requires Shape() && Fields()
      reads this, terms
    {
      && ActiveTerm(terms[activePartitionIndex][..], view.parts[activePartitionIndex], view.offset, view.sealed)
      && forall p :: 0 <= p < PARTITION_COUNT && p != activePartitionIndex ==> Shows(terms[p][..], view.parts[p])
    }

    ghost predicate Valid()
      reads this, terms
    {
      Shape() && Fields() && Memory()
    }

    /** The buffer the next term goes to has been zeroed. */
    ghost predicate NextClean()
      requires Valid()
      reads this, terms
    {
      view.parts[view.Next()] == [] && forall i :: 0 <= i < cfg.termLength ==> terms[view.Next()][i] == 0
    }

    constructor (cfg: Settings)
      requires cfg.Valid()
      ensures Valid() && fresh(terms) && fresh(tails) && this.cfg == cfg && !isClosed
      ensures view == State(0, 0, false, [[], [], []]) && NextClean()
    {
      this.cfg := cfg;
      var t0 := new int[cfg.termLength](_ => 0);
      var t1 := new int[cfg.termLength](_ => 0);
      var t2 := new int[cfg.termLength](_ => 0);
      terms := [t0, t1, t2];
      tails := new int[PARTITION_COUNT](_ => 0);
      termOffset, termId, activePartitionIndex, termBeginPosition, activeTermCount, isClosed := 0, cfg.initialTermId, 0,
        0, 0, false;
      view := State(0, 0, false, [[], [], []]);
      new;
      hide ActiveTerm, Shows;
      EmptyTermIsActive(terms[0][..]);
      EmptyTermShows(terms[1][..]);
      EmptyTermShows(terms[2][..]);
    }

    /** handleEndOfLogCondition: the rest of the term becomes padding. */
    method HandleEndOfLogCondition() returns (result: int)
      requires Valid()
      modifies terms[activePartitionIndex], this`view
      ensures Valid() && result == -2
      ensures view == if termOffset < cfg.termLength then
                        old(view).(sealed := true,
                                   parts := old(view).parts[activePartitionIndex := old(view).Committed() +
                                     [PadFrame(OriginOf(cfg, view.count), view.offset, cfg.termLength - view.offset)]])
                      else old(view)
    {
      hide ActiveTerm, Shows;
      var term := terms[activePartitionIndex];
      if termOffset < term.Length {
        var from := Origin(cfg.session, cfg.stream, termId);
        PadTerm(term, from, termOffset, view.parts[activePartitionIndex], view.sealed);
        view := view.(sealed := true, parts := view.parts[activePartitionIndex :=
          view.Committed() + [PadFrame(from, termOffset, cfg.termLength - termOffset)]]);
      }
      result := -2;
    }

    /** newPosition: take over the offset an append returned, or go on to the next term after a trip. */
    method NewPosition(resultingOffset: int, ghost shown: seq<Frame>) returns (outcome: Outcome)
      requires Shape() && Fields() && resultingOffset <= cfg.termLength
      requires forall p :: 0 <= p < PARTITION_COUNT && p != activePartitionIndex ==> Shows(terms[p][..], view.parts[p])
      requires resultingOffset > 0 ==>
                 resultingOffset % FRAME_ALIGNMENT == 0
                 && ActiveTerm(terms[activePartitionIndex][..], shown, resultingOffset, false)
      requires resultingOffset <= 0 ==> Valid() && NextClean()
      modifies this`termOffset, this`termId, this`activePartitionIndex, this`termBeginPosition, this`activeTermCount,
               this`view, tails
      ensures Valid()
      ensures resultingOffset > 0 ==>
                view == old(view).(offset := resultingOffset, sealed := false,
                                   parts := old(view).parts[old(view).Active() := shown])
                && outcome == Accepted(old(view).count * cfg.termLength + resultingOffset)
      ensures resultingOffset <= 0 && (old(view).count + 1) * cfg.termLength >= cfg.MaxPossiblePosition() ==>
                view == old(view) && outcome == MaxPositionExceeded
      ensures resultingOffset <= 0 && (old(view).count + 1) * cfg.termLength < cfg.MaxPossiblePosition() ==>
                view == State(old(view).count + 1, 0, false, old(view).parts) && outcome == AdminAction
                && tails[activePartitionIndex] == PackTail(termId, 0)
      ensures forall p :: 0 <= p < PARTITION_COUNT && (p == old(activePartitionIndex) || outcome != AdminAction) ==>
                tails[p] == old(tails[p])
    {
      hide ActiveTerm, Shows;
      if resultingOffset > 0 {
        termOffset := resultingOffset;
        view := view.(offset := resultingOffset, sealed := false, parts := view.parts[view.Active() := shown]);
        return Accepted(termBeginPosition + resultingOffset);
      }
      MulStep(view.count, cfg.termLength);
      if termBeginPosition + cfg.termLength >= cfg.MaxPossiblePosition() {
        return MaxPositionExceeded;
      }
      TermsLeft(cfg, view.count);
      GoToNextTerm();
      return AdminAction;
    }

    /** The part of newPosition that moves on to the next buffer. */
    method GoToNextTerm()
      requires Valid() && NextClean() && view.count + 1 < TERMS_IN_STREAM
      modifies this`termOffset, this`termId, this`activePartitionIndex, this`termBeginPosition, this`activeTermCount,
               this`view, tails
      ensures Valid() && view == State(old(view).count + 1, 0, false, old(view).parts)
      ensures tails[activePartitionIndex] == PackTail(termId, 0)
      ensures tails[old(activePartitionIndex)] == old(tails[activePartitionIndex])
    {
      hide ActiveTerm, Shows, Wrap32, PackTail, State.Active, State.Next, Fields, Settings.Valid;
      ViewInRange();
      ghost var contents := [terms[0][..], terms[1][..], terms[2][..]];
      NextTermMemory(contents, view.parts, activePartitionIndex, view.Next(), view.offset, view.sealed);
      BeginTerm();
      assert forall p :: 0 <= p < PARTITION_COUNT ==> terms[p][..] == contents[p];
    }

    lemma ViewInRange()
      requires Shape() && Fields()
      ensures view.Active() == activePartitionIndex < PARTITION_COUNT && view.Next() < PARTITION_COUNT
      ensures view.Next() != activePartitionIndex && |view.parts| == PARTITION_COUNT
    {
      NextIndex(view.count);
    }

    /** The fields of the next term. */
    method BeginTerm()
      requires Shape() && Fields() && view.count + 1 < TERMS_IN_STREAM
      modifies this`termOffset, this`termId, this`activePartitionIndex, this`termBeginPosition, this`activeTermCount,
               this`view, tails
      ensures Fields() && view == State(old(view).count + 1, 0, false, old(view).parts)
      ensures activePartitionIndex == old(view).Next() != old(activePartitionIndex)
              && 0 <= old(activePartitionIndex) < PARTITION_COUNT
      ensures tails[activePartitionIndex] == PackTail(termId, 0)
      ensures tails[old(activePartitionIndex)] == old(tails[activePartitionIndex])
    {
      hide Wrap32, PackTail, State.Active, State.Next;
      NextIsActive(view, State(view.count + 1, 0, false, view.parts));
      NextTermId(cfg.initialTermId, view.count);
      MulStep(view.count, cfg.termLength);
      var nextIndex, nextTermId := (activePartitionIndex + 1) % PARTITION_COUNT, Wrap32(termId + 1);
      activePartitionIndex, termOffset, termId := nextIndex, 0, nextTermId;
      termBeginPosition := termBeginPosition + cfg.termLength;
      tails[nextIndex] := PackTail(nextTermId, 0);
      activeTermCount := Wrap32(nextTermId - cfg.initialTermId);
      view := State(view.count + 1, 0, false, view.parts);
    }

    /** The frames of a message behind those of the active term. */
    method WriteMessage(buffers: seq<seq<int>>, length: nat, gathered: bool, ghost message: seq<int>)
        returns (ghost shown: seq<Frame>)
      requires Valid() && message == Flatten(buffers) && length == |message|
      requires !gathered ==> |buffers| == 1 && buffers[0] == message
      requires view.offset + Required(cfg, length) <= cfg.termLength
      modifies terms[activePartitionIndex]
      ensures forall p :: 0 <= p < PARTITION_COUNT && p != activePartitionIndex ==> Shows(terms[p][..], view.parts[p])
      ensures shown == view.Committed() + FramesOf(cfg, view.count, view.offset, message)
      ensures ActiveTerm(terms[activePartitionIndex][..], shown, view.offset + Required(cfg, length), false)
    {
      hide ActiveTerm, Shows, FramesOf, Required;
      shown := view.Committed() + FramesOf(cfg, view.count, view.offset, message);
      AppendToTerm(cfg, terms[activePartitionIndex], view.count, Origin(cfg.session, cfg.stream, termId), termOffset,
                   buffers, length, gathered, view.parts[activePartitionIndex], view.sealed);
    }

    /** The append functions with newPosition behind them, when the message fits the rest of the term. */
    method AppendFitting(buffers: seq<seq<int>>, length: nat, gathered: bool, resulting: int) returns (outcome: Outcome)
      requires Valid() && length == |Flatten(buffers)|
      requires !gathered ==> |buffers| == 1 && buffers[0] == Flatten(buffers)
      requires resulting == termOffset + Required(cfg, length) <= cfg.termLength
      modifies this, tails, terms[activePartitionIndex]
      ensures Valid() && isClosed == old(isClosed)
      ensures (view, outcome) == Appended(cfg, old(view), Flatten(buffers))
      ensures forall p :: 0 <= p < PARTITION_COUNT && (p == old(activePartitionIndex) || outcome != AdminAction) ==>
                tails[p] == old(tails[p])
      ensures outcome == AdminAction ==> tails[activePartitionIndex] == PackTail(termId, 0)
    {
      hide ActiveTerm, Shows, FramesOf, Required, Appended;
      RequiredIsSpan(cfg, view.count, view.offset, Flatten(buffers));
      AppendedFits(cfg, view, Flatten(buffers));
      ghost var shown := WriteMessage(buffers, length, gathered, Flatten(buffers));
      outcome := NewPosition(resulting, shown);
    }

    /** The same when it does not: padding, then the next term. */
    method AppendTripping(ghost message: seq<int>) returns (outcome: Outcome)
      requires Valid() && NextClean() && termOffset + Required(cfg, |message|) > cfg.termLength
      modifies this, tails, terms[activePartitionIndex]
      ensures Valid() && isClosed == old(isClosed)
      ensures (view, outcome) == Appended(cfg, old(view), message)
      ensures forall p :: 0 <= p < PARTITION_COUNT && (p == old(activePartitionIndex) || outcome != AdminAction) ==>
                tails[p] == old(tails[p])
      ensures outcome == AdminAction ==> tails[activePartitionIndex] == PackTail(termId, 0)
    {
      hide ActiveTerm, Shows, FramesOf, Required, Appended;
      ghost var was := view;
      var result := HandleEndOfLogCondition();
      AppendedTrips(cfg, was, message, view.parts);
      outcome := NewPosition(result, []);
    }

    method AppendMessage(buffers: seq<seq<int>>, length: nat, gathered: bool) returns (outcome: Outcome)
      requires Valid() && NextClean() && length == |Flatten(buffers)|
      requires !gathered ==> |buffers| == 1 && buffers[0] == Flatten(buffers)
      requires length <= cfg.maxPayload || length <= cfg.maxMessage
      modifies this, tails, terms[activePartitionIndex]
      ensures Valid() && isClosed == old(isClosed)
      ensures (view, outcome) == Appended(cfg, old(view), Flatten(buffers))
      ensures old(termOffset) + Required(cfg, length) < TWO_32
      ensures tails[old(activePartitionIndex)] == PackTail(old(termId), old(termOffset) + Required(cfg, length))
      ensures outcome == AdminAction ==> tails[activePartitionIndex] == PackTail(termId, 0)
    {
      hide ActiveTerm, Shows, Required, Appended;
      RequiredIsSpan(cfg, view.count, view.offset, Flatten(buffers));
      var resulting := termOffset + Required(cfg, length);
      assert IsInt32(resulting);
      tails[activePartitionIndex] := PackTail(termId, resulting);
      if resulting > cfg.termLength {
        outcome := AppendTripping(Flatten(buffers));
      } else {
        outcome := AppendFitting(buffers, length, gathered, resulting);
      }
    }

    /** What the driver does between offers: zero the buffer that comes next. */
    method CleanNext()
      requires Valid()
      modifies terms[view.Next()], this`view
      ensures Valid() && NextClean() && view == old(view).(parts := old(view).parts[view.Next() := []])
    {
      hide ActiveTerm, Shows;
      NextIndex(view.count);
      var next := (activePartitionIndex + 1) % PARTITION_COUNT;
      ZeroTerm(terms[next]);
      EmptyTermShows(terms[next][..]);
      view := view.(parts := view.parts[next := []]);
      assert terms[activePartitionIndex][..] == old(terms[activePartitionIndex][..]);
      assert forall p :: 0 <= p < PARTITION_COUNT && p != next ==> terms[p][..] == old(terms[p][..]);
    }

    /** offer of one buffer. */
    method Offer(message: seq<int>, limit: int, connected: bool) returns (outcome: Outcome)
      requires Valid() && (view.Position(cfg) < limit ==> NextClean())
      modifies this, tails, terms[activePartitionIndex]
      ensures Valid() && isClosed == old(isClosed)
      ensures (view, outcome) == Offered(cfg, old(view), isClosed, limit, connected, message)
      ensures !Appends(cfg, old(view), isClosed, limit, |message|) ==> tails[..] == old(tails[..])
      ensures Appends(cfg, old(view), isClosed, limit, |message|) ==>
                && old(termOffset) + Required(cfg, |message|) < TWO_32
                && tails[old(activePartitionIndex)] == PackTail(old(termId), old(termOffset) + Required(cfg, |message|))
      ensures outcome == AdminAction ==> tails[activePartitionIndex] == PackTail(termId, 0)
    {
      assert Flatten([message]) == message;
      hide ActiveTerm, Shows, Appends, Offered, Required, PackTail, State.Position, Fields, Memory, Flatten;
      outcome := OfferBuffers([message], |message|, false, limit, connected);
    }

    /** offer of a list of buffers: the same as offering their concatenation, unless its length is not an int. */
    method OfferGathered(buffers: seq<seq<int>>, limit: int, connected: bool) returns (outcome: Outcome)
      requires Valid() && (view.Position(cfg) < limit ==> NextClean())
      modifies this, tails, terms[activePartitionIndex]
      ensures Valid() && isClosed == old(isClosed)
      ensures |Flatten(buffers)| >= TERMS_IN_STREAM ==> view == old(view) && outcome == LengthOverflow
      ensures |Flatten(buffers)| < TERMS_IN_STREAM ==>
                (view, outcome) == Offered(cfg, old(view), isClosed, limit, connected, Flatten(buffers))
      ensures |Flatten(buffers)| >= TERMS_IN_STREAM || !Appends(cfg, old(view), isClosed, limit, |Flatten(buffers)|) ==>
                tails[..] == old(tails[..])
      ensures |Flatten(buffers)| < TERMS_IN_STREAM && Appends(cfg, old(view), isClosed, limit, |Flatten(buffers)|) ==>
                && old(termOffset) + Required(cfg, |Flatten(buffers)|) < TWO_32
                && tails[old(activePartitionIndex)]
                   == PackTail(old(termId), old(termOffset) + Required(cfg, |Flatten(buffers)|))
      ensures outcome == AdminAction ==> tails[activePartitionIndex] == PackTail(termId, 0)
    {
      hide ActiveTerm, Shows, Appends, Offered, Required, PackTail, State.Position, Fields, Memory, Flatten;
      var length := TotalLength(buffers);
      if length >= TERMS_IN_STREAM {
        return LengthOverflow;
      }
      outcome := OfferBuffers(buffers, length, true, limit, connected);
    }

    method OfferBuffers(buffers: seq<seq<int>>, length: nat, gathered: bool, limit: int, connected: bool)
        returns (outcome: Outcome)
      requires Valid() && (view.Position(cfg) < limit ==> NextClean()) && length == |Flatten(buffers)|
      requires !gathered ==> |buffers| == 1 && buffers[0] == Flatten(buffers)
      modifies this, tails, terms[activePartitionIndex]
      ensures Valid() && isClosed == old(isClosed)
      ensures (view, outcome) == Offered(cfg, old(view), isClosed, limit, connected, Flatten(buffers))
      ensures !Appends(cfg, old(view), isClosed, limit, length) ==> tails[..] == old(tails[..])
      ensures Appends(cfg, old(view), isClosed, limit, length) ==>
                && old(termOffset) + Required(cfg, length) < TWO_32
                && tails[old(activePartitionIndex)] == PackTail(old(termId), old(termOffset) + Required(cfg, length))
      ensures outcome == AdminAction ==> tails[activePartitionIndex] == PackTail(termId, 0)
    {
      hide ActiveTerm, Shows;
      if isClosed {
        return Closed;
      }
      var position := termBeginPosition + termOffset;
      if position < limit {
        if length > cfg.maxPayload && length > cfg.maxMessage {
          return MessageTooLong;
        }
        outcome := AppendMessage(buffers, length, gathered);
      } else if position + length >= cfg.MaxPossiblePosition() {
        outcome := MaxPositionExceeded;
      } else {
        outcome := if connected then BackPressured else NotConnected;
      }
    }
  }

  /** The three buffers are used in turn. */
  lemma NextIndex(count: nat)
    ensures (count % PARTITION_COUNT + 1) % PARTITION_COUNT == (count + 1) % PARTITION_COUNT
    ensures (count + 1) % PARTITION_COUNT != count % PARTITION_COUNT
  {
  }

  /** The buffers when the next one, still empty, becomes the active one. */
  lemma NextTermMemory(contents: seq<seq<int>>, parts: seq<seq<Frame>>, active: nat, next: nat, offset: nat,
                       sealed: bool)
    requires |contents| == |parts| == PARTITION_COUNT && active < PARTITION_COUNT && next < PARTITION_COUNT
             && active != next
    requires ActiveTerm(contents[active], parts[active], offset, sealed)
    requires forall p :: 0 <= p < PARTITION_COUNT && p != active ==> Shows(contents[p], parts[p])
    requires parts[next] == [] && forall i :: 0 <= i < |contents[next]| ==> contents[next][i] == 0
    ensures ActiveTerm(contents[next], parts[next], 0, false)
    ensures forall p :: 0 <= p < PARTITION_COUNT && p != next ==> Shows(contents[p], parts[p])
  {
    hide ActiveTerm, Shows;
    ActiveTermShows(contents[active], parts[active], offset, sealed);
    EmptyTermIsActive(contents[next]);
  }

  lemma NextIsActive(before: State, after: State)
    requires after.count == before.count + 1
    ensures after.Active() == before.Next() == (before.Active() + 1) % PARTITION_COUNT != before.Active()
    ensures before.Active() < PARTITION_COUNT && before.Next() < PARTITION_COUNT
  {
    NextIndex(before.count);
  }

  lemma TermsLeft(cfg: Settings, count: nat)
    requires cfg.Valid() && (count + 1) * cfg.termLength < cfg.MaxPossiblePosition()
    ensures count + 1 < TERMS_IN_STREAM
  {
    if count + 1 > TERMS_IN_STREAM {
      MultipleGap(count + 1, TERMS_IN_STREAM, cfg.termLength);
    }
  }

  lemma NextTermId(initialTermId: int, count: nat)
    requires IsInt32(initialTermId) && count + 1 < TERMS_IN_STREAM
    ensures Wrap32(Wrap32(initialTermId + count) + 1) == Wrap32(initialTermId + (count + 1))
    ensures Wrap32(Wrap32(initialTermId + (count + 1)) - initialTermId) == count + 1
  {
    TermCountSurvivesWrap(initialTermId, count + 1);
  }
}
