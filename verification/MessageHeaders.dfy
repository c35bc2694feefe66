/**
 The header handed over with an assembled message, on every stream of fragments: when its length is the one the
 publication reserved.
 */
module MessageHeaders {
  import opened Framing
  import opened BufferBuilders
  import opened Images
  import opened Assembly
  import opened Deliveries
  import opened ExclusivePublications

  /** An assembler with the header its builder has captured. */
  datatype Held = Held(asm: Asm, captured: Captured)

  function Feed(h: Held, events: seq<Event>): Held
    decreases |events|
  {
    if events == [] then h
    else
      var e := events[0];
      Feed(Held(Step(h.asm, e.frame, e.answer).asm, CapturedAfter(h.asm, h.captured, e.frame)), events[1..])
  }

  lemma {:induction false} FeedAppend(h: Held, x: seq<Event>, y: seq<Event>)
    ensures Feed(h, x + y) == Feed(Feed(h, x), y)
    decreases |x|
  {
    if x == [] {
      assert x + y == y;
    } else {
      var e := x[0];
      assert (x + y)[1..] == x[1..] + y;
      FeedAppend(Held(Step(h.asm, e.frame, e.answer).asm, CapturedAfter(h.asm, h.captured, e.frame)), x[1..], y);
    }
  }

  /** Frames that arrive with no call being answered ABORT. */
  function Arriving(frames: seq<Frame>): (events: seq<Event>)
    ensures |events| == |frames|
  {
    seq(|frames|, i requires 0 <= i < |frames| => Event(frames[i], CONTINUE))
  }

  /** The same fragment, again and again, with the message being refused each time. */
  function Refused(f: Frame, times: nat): seq<Event> {
    seq(times, _ => Event(f, ABORT))
  }

  /** All fragments but the last: the assembler holds everything else, and the header of the first one. */
  lemma {:induction false} AllButLast(h: Held, maxPayload: nat, from: Origin, offset: nat, data: seq<int>, first: bool,
                                      sofar: seq<int>)
    requires 0 < maxPayload && offset % FRAME_ALIGNMENT == 0 && |sofar| + |data| <= MAX_CAPACITY
    requires if first then sofar == [] && |data| > maxPayload
             else h == Held(Asm(offset, sofar), Captured(maxPayload + HEADER_LENGTH, true, false))
    ensures var fs := Fragments(maxPayload, from, offset, data, first);
            var h', last := Feed(h, Arriving(fs[..|fs| - 1])), fs[|fs| - 1];
            && h'.captured == Captured(maxPayload + HEADER_LENGTH, true, false)
            && !last.begin && last.end && last.offset >= 0 && Message(h'.asm, last) == Some(sofar + data)
    decreases |data|
  {
    if |data| <= maxPayload {
      assert Fragments(maxPayload, from, offset, data, first) == [DataFrame(from, offset, data, false, true)];
    } else {
      hide Fragments;
      var f, next := DataFrame(from, offset, data[..maxPayload], first, false),
          offset + Align(maxPayload + HEADER_LENGTH);
      var more := Fragments(maxPayload, from, next, data[maxPayload..], false);
      FirstFragment(maxPayload, from, offset, data, first);
      FullFragmentStep(h.asm, f, next, sofar, first);
      assert (sofar + data[..maxPayload]) + data[maxPayload..] == sofar + data;
      var h' := Held(Asm(next, sofar + data[..maxPayload]), Captured(maxPayload + HEADER_LENGTH, true, false));
      AllButLast(h', maxPayload, from, next, data[maxPayload..], false, sofar + data[..maxPayload]);
      var fs := [f] + more;
      assert fs[..|fs| - 1] == [f] + more[..|more| - 1];
      assert Arriving(fs[..|fs| - 1])[1..] == Arriving(more[..|more| - 1]);
      assert CapturedAfter(h.asm, h.captured, f) == Captured(maxPayload + HEADER_LENGTH, true, false);
    }
  }

  /** A refused message can be put together again, but its length now stands in the captured header. */
  lemma {:induction false} RefusedAgain(h: Held, f: Frame, times: nat)
    requires !f.begin && f.end && Message(h.asm, f).Some? && h.captured.begin
    ensures var h' := Feed(h, Refused(f, times));
            && h'.asm == h.asm
            && h'.captured == if times == 0 then h.captured
                              else Captured(HEADER_LENGTH + |Message(h.asm, f).value|, true, true)
    decreases times
  {
    if times > 0 {
      var c := CapturedAfter(h.asm, h.captured, f);
      assert Refused(f, times)[1..] == Refused(f, times - 1);
      RefusedAgain(Held(h.asm, c), f, times - 1);
    }
  }

  /** A fragmented message, read from any assembler state and refused any number of times: the header handed over with
      it has the length of the message and both flags, and its fragmented length is the reserved one exactly as long as
      nothing was refused; afterwards it is that of one unfragmented frame. */
  lemma FragmentedLengthExact(h: Held, maxPayload: nat, from: Origin, offset: nat, data: seq<int>, refused: nat)
    requires 0 < maxPayload < |data| <= MAX_CAPACITY && offset % FRAME_ALIGNMENT == 0
    ensures var fs := Fragments(maxPayload, from, offset, data, true);
            var last := fs[|fs| - 1];
            var h' := Feed(h, Arriving(fs[..|fs| - 1]) + Refused(last, refused));
            && Message(h'.asm, last) == Some(data) && h'.captured.length > HEADER_LENGTH
            && var header := HeaderOf(h'.captured, data, last);
               && header.frameLength == HEADER_LENGTH + |data| && header.begin && header.end
               && header.fragmentedFrameLength
                  == (if refused == 0 then FramedLength(|data|, maxPayload) else HEADER_LENGTH + |data|)
               && (header.fragmentedFrameLength == FramedLength(|data|, maxPayload) <==> refused == 0)
               && (maxPayload % FRAME_ALIGNMENT == 0 ==>
                     (header.fragmentedFrameLength == TilesEnd(fs, offset) - offset <==> refused == 0))
  {
    hide Fragments, Feed, TilesEnd, Tiles;
    var fs := Fragments(maxPayload, from, offset, data, true);
    var last := fs[|fs| - 1];
    AllButLast(h, maxPayload, from, offset, data, true, []);
    assert [] + data == data;
    FeedAppend(h, Arriving(fs[..|fs| - 1]), Refused(last, refused));
    RefusedAgain(Feed(h, Arriving(fs[..|fs| - 1])), last, refused);
    RecomputedLengthFallsShort(|data|, maxPayload);
    ReservedLengthIsExact(maxPayload, from, offset, data);
  }

  /** So the first completion recovers what ExclusivePublication added to its term offset for the message. */
  lemma FirstCompletionRecoversRequired(h: Held, cfg: Settings, count: nat, offset: nat, data: seq<int>, refused: nat)
    requires cfg.Valid() && cfg.maxPayload < |data| <= MAX_CAPACITY && offset % FRAME_ALIGNMENT == 0
    ensures var fs := FramesOf(cfg, count, offset, data);
            var h' := Feed(h, Arriving(fs[..|fs| - 1]) + Refused(fs[|fs| - 1], refused));
            && Message(h'.asm, fs[|fs| - 1]) == Some(data) && h'.captured.length > HEADER_LENGTH
            && (HeaderOf(h'.captured, data, fs[|fs| - 1]).fragmentedFrameLength == Required(cfg, |data|) <==>
                refused == 0)
  {
    hide Feed, TilesEnd, Tiles, Fragments, FramedLength;
    FragmentedLengthExact(h, cfg.maxPayload, OriginOf(cfg, count), offset, data, refused);
  }
}
