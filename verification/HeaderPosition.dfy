/**
 What the headers of an offered message say (HeaderWriter.h), and the stream position a reader works out from them
 (Header.h, LogBufferDescriptor.h).
 */
module HeaderPositions {
  import opened Framing
  import opened ExclusivePublications
  import opened BufferBuilders
  import opened Assembly
  import opened MessageHeaders

  /** Header::position of a header that takes up `occupied` bytes: those of its frame or, on a message that was
      assembled, the fragmented frame length. */
  function PositionOf(f: Frame, occupied: int, initialTermId: int, termLength: nat): int {
    Wrap32(f.termId - initialTermId) * termLength + AlignInt(f.offset + occupied)
  }

  /** A header of this stream, with the flags of the i-th of n fragments. */
  predicate Carries(f: Frame, from: Origin, first: bool, last: bool) {
    && f.session == from.session && f.stream == from.stream && f.termId == from.termId
    && f.length == |f.payload| + 32 && !f.pad && f.begin == first && f.end == last
  }

  /** All fragments carry the ids they are published under; only the first has BEGIN and only the last END, and all but
      the last are full. */
  ghost predicate AllCarry(fs: seq<Frame>, maxPayload: nat, from: Origin, first: bool) {
    forall i :: 0 <= i < |fs| ==>
      && Carries(fs[i], from, i == 0 && first, i == |fs| - 1)
      && (if i < |fs| - 1 then |fs[i].payload| == maxPayload else |fs[i].payload| <= maxPayload)
  }

  lemma {:induction false} FragmentsCarry(maxPayload: nat, from: Origin, offset: nat, data: seq<int>, first: bool)
    requires maxPayload > 0
    ensures AllCarry(Fragments(maxPayload, from, offset, data, first), maxPayload, from, first)
    decreases |data|
  {
    if |data| > maxPayload {
      var next := offset + Align(maxPayload + HEADER_LENGTH);
      FragmentsCarry(maxPayload, from, next, data[maxPayload..], false);
      OneMoreCarries(DataFrame(from, offset, data[..maxPayload], first, false),
                     Fragments(maxPayload, from, next, data[maxPayload..], false), maxPayload, from, first);
    }
  }

  lemma OneMoreCarries(f: Frame, rest: seq<Frame>, maxPayload: nat, from: Origin, first: bool)
    requires AllCarry(rest, maxPayload, from, false) && rest != []
    requires Carries(f, from, first, false) && |f.payload| == maxPayload
    ensures AllCarry([f] + rest, maxPayload, from, first)
  {
    forall i | 0 <= i < |rest| + 1
      ensures var g := ([f] + rest)[i];
              && Carries(g, from, i == 0 && first, i == |rest|)
              && if i < |rest| then |g.payload| == maxPayload else |g.payload| <= maxPayload
    {
      if i > 0 {
        assert Carries(rest[i - 1], from, false, i - 1 == |rest| - 1);
      }
    }
  }

  lemma AlignedSum(offset: nat, length: nat)
    requires offset % 32 == 0
    ensures AlignInt(offset + length) == offset + Align(length)
  {
    assert (offset + length) % 32 == length % 32;
  }

  /** Frames laid from an aligned offset on start aligned. */
  lemma {:induction false} TilesAligned(frames: seq<Frame>, offset: nat, i: nat)
    requires Tiles(frames, offset) && offset % FRAME_ALIGNMENT == 0 && i < |frames|
    ensures frames[i].offset >= 0 && frames[i].offset % FRAME_ALIGNMENT == 0
  {
    if i > 0 {
      TilesAligned(frames, offset, i - 1);
      assert frames[i].offset == frames[i - 1].offset + Align(frames[i - 1].length);
      AlignKeeps(frames[i - 1].offset, frames[i - 1].length);
    }
  }

  lemma AlignKeeps(offset: nat, length: nat)
    requires offset % FRAME_ALIGNMENT == 0
    ensures (offset + Align(length)) % FRAME_ALIGNMENT == 0
  {
    assert Align(length) % FRAME_ALIGNMENT == 0;
  }

  /** Up to 2^31 terms a reader of a header finds the position where that frame ends in the stream; from the last
      fragment of a message it is the position that the offer returned. */
  lemma PositionsAgree(cfg: Settings, count: nat, offset: nat, message: seq<int>)
    requires cfg.Valid() && count < 0x8000_0000 && offset % 32 == 0
    ensures var fs := FramesOf(cfg, count, offset, message);
            && (forall i :: 0 <= i < |fs| ==>
                  PositionOf(fs[i], fs[i].length, cfg.initialTermId, cfg.termLength)
                  == count * cfg.termLength + EndOf(fs[i]))
            && PositionOf(fs[|fs| - 1], fs[|fs| - 1].length, cfg.initialTermId, cfg.termLength)
               == count * cfg.termLength + offset + Required(cfg, |message|)
  {
    var from := OriginOf(cfg, count);
    var fs := FramesOf(cfg, count, offset, message);
    assert TilesEnd(fs, offset) == EndOf(fs[|fs| - 1]);
    hide Fragments, Required, Align, Wrap32, TilesEnd, EndOf, PositionOf, Tiles;
    FragmentsTile(cfg.maxPayload, from, offset, message, true);
    FragmentsCarry(cfg.maxPayload, from, offset, message, true);
    RequiredIsSpan(cfg, count, offset, message);
    forall i | 0 <= i < |fs|
      ensures PositionOf(fs[i], fs[i].length, cfg.initialTermId, cfg.termLength)
              == count * cfg.termLength + EndOf(fs[i])
    {
      TilesAligned(fs, offset, i);
      assert Carries(fs[i], from, i == 0, i == |fs| - 1);
      FrameEnds(cfg, count, fs[i]);
    }
  }

  lemma FrameEnds(cfg: Settings, count: nat, f: Frame)
    requires cfg.Valid() && count < 0x8000_0000 && f.termId == OriginOf(cfg, count).termId
    requires f.offset >= 0 && f.offset % 32 == 0 && f.length >= 0
    ensures PositionOf(f, f.length, cfg.initialTermId, cfg.termLength) == count * cfg.termLength + EndOf(f)
  {
    hide Align, Wrap32;
    TermCountSurvivesWrap(cfg.initialTermId, count);
    AlignedSum(f.offset, f.length);
  }

  /** The padding that closes a term ends where the next one begins. */
  lemma PaddingPosition(cfg: Settings, count: nat, offset: nat)
    requires cfg.Valid() && count < 0x8000_0000 && offset % 32 == 0 && offset < cfg.termLength
    ensures var pad := PadFrame(OriginOf(cfg, count), offset, cfg.termLength - offset);
            PositionOf(pad, pad.length, cfg.initialTermId, cfg.termLength) == (count + 1) * cfg.termLength
  {
    hide Wrap32;
    TermCountSurvivesWrap(cfg.initialTermId, count);
  }

  /** A fragmented message that was refused any number of times: the header handed over with it is that of the first
      fragment with the fragmented length filled in. A reader works out from it the position that the offer returned
      exactly when the message was never refused; otherwise the position it finds lies inside the message. */
  lemma AssembledPosition(h: Held, cfg: Settings, count: nat, offset: nat, data: seq<int>, refused: nat)
    requires cfg.Valid() && cfg.maxPayload < |data| <= MAX_CAPACITY && count < 0x8000_0000 && offset % 32 == 0
    ensures var fs := FramesOf(cfg, count, offset, data);
            var h' := Feed(h, Arriving(fs[..|fs| - 1]) + Refused(fs[|fs| - 1], refused));
            && Message(h'.asm, fs[|fs| - 1]) == Some(data) && h'.captured.length > HEADER_LENGTH
            && var header := HeaderOf(h'.captured, data, fs[|fs| - 1]);
               var found := PositionOf(fs[0], header.fragmentedFrameLength, cfg.initialTermId, cfg.termLength);
               var returned := count * cfg.termLength + offset + Required(cfg, |data|);
               count * cfg.termLength + offset < found <= returned && (found == returned <==> refused == 0)
  {
    HeldHeader(h, cfg, count, offset, data, refused);
    HeaderEnds(cfg, count, offset, data, refused);
  }

  lemma HeldHeader(h: Held, cfg: Settings, count: nat, offset: nat, data: seq<int>, refused: nat)
    requires cfg.Valid() && cfg.maxPayload < |data| <= MAX_CAPACITY && offset % 32 == 0
    ensures var fs := FramesOf(cfg, count, offset, data);
            var h' := Feed(h, Arriving(fs[..|fs| - 1]) + Refused(fs[|fs| - 1], refused));
            && Message(h'.asm, fs[|fs| - 1]) == Some(data) && h'.captured.length > HEADER_LENGTH
            && HeaderOf(h'.captured, data, fs[|fs| - 1]).fragmentedFrameLength == Occupied(cfg, |data|, refused)
  {
    hide Feed, Fragments, FramedLength, HeaderOf, Message, Arriving, Refused, TilesEnd, Tiles;
    FragmentedLengthExact(h, cfg.maxPayload, OriginOf(cfg, count), offset, data, refused);
  }

  function Occupied(cfg: Settings, length: nat, refused: nat): nat
    requires cfg.maxPayload > 0
  {
    if refused == 0 then FramedLength(length, cfg.maxPayload) else length + HEADER_LENGTH
  }

  lemma HeaderEnds(cfg: Settings, count: nat, offset: nat, data: seq<int>, refused: nat)
    requires cfg.Valid() && cfg.maxPayload < |data| && count < 0x8000_0000 && offset % 32 == 0
    ensures var f := FramesOf(cfg, count, offset, data)[0];
            var found := PositionOf(f, Occupied(cfg, |data|, refused), cfg.initialTermId, cfg.termLength);
            var returned := count * cfg.termLength + offset + Required(cfg, |data|);
            count * cfg.termLength + offset < found <= returned && (found == returned <==> refused == 0)
  {
    hide Fragments, Wrap32, Align, AlignInt, Occupied, Required;
    var from := OriginOf(cfg, count);
    FragmentsCarry(cfg.maxPayload, from, offset, data, true);
    TermCountSurvivesWrap(cfg.initialTermId, count);
    var fs := FramesOf(cfg, count, offset, data);
    assert Carries(fs[0], from, true, 0 == |fs| - 1);
    AlignedSum(offset, Occupied(cfg, |data|, refused));
    OccupiedEnds(cfg, |data|, refused);
  }

  lemma OccupiedEnds(cfg: Settings, length: nat, refused: nat)
    requires cfg.Valid() && cfg.maxPayload < length
    ensures var occupied := Align(Occupied(cfg, length, refused));
            0 < occupied <= Required(cfg, length) && (occupied == Required(cfg, length) <==> refused == 0)
  {
    hide FramedLength;
    FramedLengthCountsFragments(length, cfg.maxPayload);
    ReservedLengthAligned(length, cfg.maxPayload);
    RefusedFallsShort(length, cfg.maxPayload);
  }

  /** By more than the alignment makes up for. */
  lemma RefusedFallsShort(length: nat, maxPayload: nat)
    requires 0 < maxPayload < length && maxPayload % 32 == 0
    ensures Align(length + 32) < ReservedLength(length, maxPayload)
  {
    if length - maxPayload > maxPayload {
      RefusedFallsShort(length - maxPayload, maxPayload);
    }
  }
}
