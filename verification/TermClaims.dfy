/**
 One term of a publication with any number of writers, in memory: each claims a range by a fetch-and-add on the tail
 and then writes its frames, all writers interleaved byte by byte, while readers look at the term at any moment
 (Publication.h). The driver is assumed to leave the buffer to this term while claims of it are being written.
 */
module TermClaims {
  import opened Framing
  import opened TermBuffer
  import opened Images
  import opened Assembly
  import opened Deliveries
  import opened ExclusivePublications
  import opened EndToEnd

  /** The cells, the raw tail, the frames claimed so far in the order of their claims, how far each has been written,
      which claim each belongs to, and the messages whose claims fitted. */
  datatype Term = Term(cells: seq<int>, tail: nat, frames: seq<Frame>, stage: seq<nat>, claim: seq<nat>,
                       claims: nat, messages: seq<seq<int>>)

  datatype TermStep = ClaimRange(message: seq<int>) | WriteMore(j: nat)

  function Fresh(termLength: nat): Term {
    Term(seq(termLength, _ => 0), 0, [], [], [], 0, [])
  }

  /** The writing of a frame: header with negative length, payload byte by byte, flags or type, and the length. */
  function Complete(f: Frame): nat { |f.payload| + 3 }

  function Flags(f: Frame): int { (if f.begin then BEGIN_FRAG else 0) + if f.end then END_FRAG else 0 }

  /** Room for a frame in the term. */
  predicate Room(cells: seq<int>, f: Frame) {
    0 <= f.offset && f.offset + HEADER_LENGTH + |f.payload| <= |cells|
  }

  /** One step of writing a frame. */
  function WriteNext(cells: seq<int>, f: Frame, stage: nat): (after: seq<int>)
    requires Room(cells, f)
    ensures |after| == |cells|
  {
    var o := f.offset;
    if stage == 0 then
      cells[o := -f.length][o + 4 := 0][o + FLAGS := BEGIN_FRAG + END_FRAG][o + TYPE := TYPE_DATA][o + TERM_OFFSET := o]
           [o + SESSION_ID := f.session][o + STREAM_ID := f.stream][o + TERM_ID := f.termId]
    else if stage <= |f.payload| then cells[o + HEADER_LENGTH + (stage - 1) := f.payload[stage - 1]]
    else if stage == |f.payload| + 1 then
      if f.pad then cells[o + TYPE := TYPE_PAD] else cells[o + FLAGS := Flags(f)][o + RESERVED_VALUE := 0]
    else cells[o := f.length]
  }

  /** What a fetch-and-add at raw offset `tail` gives its thread to write: its frames, the padding, or nothing. */
  function FramesClaimed(cfg: Settings, count: nat, tail: nat, message: seq<int>): seq<Frame>
    requires cfg.Valid()
  {
    if tail + Required(cfg, |message|) <= cfg.termLength then FramesOf(cfg, count, tail, message)
    else if tail < cfg.termLength then [PadFrame(OriginOf(cfg, count), tail, cfg.termLength - tail)]
    else []
  }

  /** A thread writes its frames one after the other. */
  predicate CanWrite(s: Term, j: nat) {
    && j < |s.frames| == |s.stage| == |s.claim| && s.stage[j] < Complete(s.frames[j]) && Room(s.cells, s.frames[j])
    && (j > 0 && s.claim[j - 1] == s.claim[j] ==> s.stage[j - 1] == Complete(s.frames[j - 1]))
  }

  function TermAfter(cfg: Settings, count: nat, s: Term, step: TermStep): Term
    requires cfg.Valid()
  {
    match step
    case ClaimRange(message) =>
      if |message| > cfg.maxPayload && |message| > cfg.maxMessage then s
      else
        var fs := FramesClaimed(cfg, count, s.tail, message);
        Term(s.cells, s.tail + Required(cfg, |message|), s.frames + fs, s.stage + seq(|fs|, _ => 0),
             s.claim + seq(|fs|, _ => s.claims), s.claims + 1,
             if s.tail + Required(cfg, |message|) <= cfg.termLength then s.messages + [message] else s.messages)
    case WriteMore(j) =>
      if CanWrite(s, j) then s.(cells := WriteNext(s.cells, s.frames[j], s.stage[j]),
                                stage := s.stage[j := s.stage[j] + 1])
      else s
  }

  /** What is in memory of a frame that has been written up to a stage. */
  ghost predicate Status(cells: seq<int>, f: Frame, stage: nat) {
    && Room(cells, f) && stage <= Complete(f)
    && (stage == 0 ==> cells[f.offset] <= 0)
    && (0 < stage < Complete(f) ==> Partial(cells, f, stage))
    && (stage == Complete(f) ==> FrameAt(cells, f.offset) && Decode(cells, f.offset) == f)
  }

  ghost predicate Partial(cells: seq<int>, f: Frame, stage: nat)
    requires Room(cells, f)
  {
    var o, finished := f.offset, stage == |f.payload| + 2;
    && cells[o] == -f.length && cells[o + TERM_OFFSET] == o
    && cells[o + SESSION_ID] == f.session && cells[o + STREAM_ID] == f.stream && cells[o + TERM_ID] == f.termId
    && cells[o + TYPE] == (if finished && f.pad then TYPE_PAD else TYPE_DATA)
    && cells[o + FLAGS] == (if finished && !f.pad then Flags(f) else BEGIN_FRAG + END_FRAG)
    && forall b :: 0 <= b < |f.payload| && b < stage - 1 ==> cells[o + HEADER_LENGTH + b] == f.payload[b]
  }

  /** Frames as the claims make them. */
  predicate Genuine(cfg: Settings, count: nat, f: Frame) {
    var from := OriginOf(cfg, count);
    && f.offset >= 0
    && (f == DataFrame(from, f.offset, f.payload, f.begin, f.end)
        || (f == PadFrame(from, f.offset, cfg.termLength - f.offset) && f.length >= HEADER_LENGTH))
  }

  /** A frame moves on by one stage. */
  lemma WriteAdvances(cfg: Settings, count: nat, cells: seq<int>, f: Frame, stage: nat)
    requires |cells| == cfg.termLength && Genuine(cfg, count, f) && Status(cells, f, stage) && stage < Complete(f)
    ensures Status(WriteNext(cells, f, stage), f, stage + 1)
  {
    if stage == |f.payload| + 2 {
      LengthWritten(cfg, count, cells, f);
    } else if stage == 0 {
      HeaderWritten(cells, f);
    } else if stage == |f.payload| + 1 {
      FlagsWritten(cells, f);
    } else {
      ByteWritten(cells, f, stage);
    }
  }

  lemma HeaderWritten(cells: seq<int>, f: Frame)
    requires Room(cells, f)
    ensures Partial(WriteNext(cells, f, 0), f, 1)
  {
  }

  lemma ByteWritten(cells: seq<int>, f: Frame, stage: nat)
    requires Room(cells, f) && 0 < stage <= |f.payload| && Partial(cells, f, stage)
    ensures Partial(WriteNext(cells, f, stage), f, stage + 1)
  {
  }

  lemma FlagsWritten(cells: seq<int>, f: Frame)
    requires Room(cells, f) && Partial(cells, f, |f.payload| + 1)
    ensures Partial(WriteNext(cells, f, |f.payload| + 1), f, |f.payload| + 2)
  {
  }

  lemma LengthWritten(cfg: Settings, count: nat, cells: seq<int>, f: Frame)
    requires |cells| == cfg.termLength && Genuine(cfg, count, f) && Room(cells, f) && Partial(cells, f, |f.payload| + 2)
    ensures var after := WriteNext(cells, f, |f.payload| + 2);
            FrameAt(after, f.offset) && Decode(after, f.offset) == f
  {
    if !f.pad {
      DecodeData(WriteNext(cells, f, |f.payload| + 2), OriginOf(cfg, count), f.offset, f.payload, f.begin, f.end);
    }
  }

  lemma OnlyOwnCells(cells: seq<int>, f: Frame, stage: nat)
    requires Room(cells, f) && stage < Complete(f)
    ensures forall i :: 0 <= i < |cells| && !(f.offset <= i < f.offset + HEADER_LENGTH + |f.payload|) ==>
              WriteNext(cells, f, stage)[i] == cells[i]
  {
  }

  lemma StatusKept(cells: seq<int>, after: seq<int>, f: Frame, stage: nat)
    requires |after| == |cells| && Status(cells, f, stage)
    requires f.length >= HEADER_LENGTH + |f.payload|
    requires forall i :: f.offset <= i < f.offset + f.length && i < |cells| ==> after[i] == cells[i]
    ensures Status(after, f, stage)
  {
    if stage == Complete(f) {
      DecodeKept(cells, after, f.offset);
    }
  }

  /** Frames end to end below the clipped tail, each in memory as far as it has been written, nothing behind them; at
      most one is padding, and then it is the last and reaches the end of the term. */
  ghost predicate TermInv(cfg: Settings, count: nat, s: Term) {
    && cfg.Valid() && |s.cells| == cfg.termLength && |s.frames| == |s.stage| == |s.claim|
    && s.tail % FRAME_ALIGNMENT == 0
    && Tiles(s.frames, 0) && TilesEnd(s.frames, 0) == (if s.tail <= cfg.termLength then s.tail else cfg.termLength)
    && (forall j :: 0 <= j < |s.frames| ==>
        Genuine(cfg, count, s.frames[j]) && Status(s.cells, s.frames[j], s.stage[j]))
    && (forall i :: TilesEnd(s.frames, 0) <= i < |s.cells| ==> s.cells[i] == 0)
    && (forall j :: 0 <= j < |s.frames| && s.frames[j].pad ==> j == |s.frames| - 1 && s.tail > cfg.termLength)
    && Legal(s.frames, false) && !EndsOpen(s.frames, false) && Deliver(IDLE, s.frames).1 == s.messages
  }

  lemma FreshTerm(cfg: Settings, count: nat)
    requires cfg.Valid()
    ensures TermInv(cfg, count, Fresh(cfg.termLength))
  {
  }

  lemma {:induction false} FragmentsGenuine(cfg: Settings, count: nat, offset: nat, data: seq<int>, first: bool)
    requires cfg.Valid()
    ensures forall j :: 0 <= j < |Fragments(cfg.maxPayload, OriginOf(cfg, count), offset, data, first)| ==>
              var f := Fragments(cfg.maxPayload, OriginOf(cfg, count), offset, data, first)[j];
              Genuine(cfg, count, f) && !f.pad
    decreases |data|
  {
    if |data| > cfg.maxPayload {
      FragmentsGenuine(cfg, count, offset + Align(cfg.maxPayload + HEADER_LENGTH), data[cfg.maxPayload..], false);
    }
  }

  /** What a claim adds: frames that tile from the clipped tail on, and that deliver the message if it fits. */
  lemma ClaimedFrames(cfg: Settings, count: nat, tail: nat, message: seq<int>, a: Asm)
    requires cfg.Valid() && tail % FRAME_ALIGNMENT == 0 && (|message| <= cfg.maxPayload || |message| <= cfg.maxMessage)
    ensures var fs, after := FramesClaimed(cfg, count, tail, message), tail + Required(cfg, |message|);
            var clipped := if tail <= cfg.termLength then tail else cfg.termLength;
            && after % FRAME_ALIGNMENT == 0
            && Tiles(fs, clipped)
            && TilesEnd(fs, clipped) == (if after <= cfg.termLength then after else cfg.termLength)
            && Legal(fs, false) && !EndsOpen(fs, false)
            && Deliver(a, fs).1 == (if after <= cfg.termLength then [message] else [])
            && (forall j :: 0 <= j < |fs| ==> Genuine(cfg, count, fs[j]))
            && (forall j :: 0 <= j < |fs| && fs[j].pad ==> j == |fs| - 1 && after > cfg.termLength)
            && (tail > cfg.termLength ==> fs == [])
  {
    hide Fragments, Required, Deliver, Legal, EndsOpen, Tiles, TilesEnd, Genuine;
    MessageFrames(cfg, count, tail, message, a);
    FragmentsGenuine(cfg, count, tail, message, true);
    if tail + Required(cfg, |message|) > cfg.termLength {
      PadClaim(cfg, count, tail, a);
    }
  }

  lemma PadClaim(cfg: Settings, count: nat, tail: nat, a: Asm)
    requires cfg.Valid() && tail % FRAME_ALIGNMENT == 0
    ensures var pad := PadFrame(OriginOf(cfg, count), tail, cfg.termLength - tail);
            tail < cfg.termLength ==>
              && Tiles([pad], tail) && TilesEnd([pad], tail) == cfg.termLength && Genuine(cfg, count, pad)
              && Legal([pad], false) && !EndsOpen([pad], false) && Deliver(a, [pad]).1 == []
    ensures Tiles([], cfg.termLength) && TilesEnd([], cfg.termLength) == cfg.termLength
    ensures Legal([], false) && !EndsOpen([], false) && Deliver(a, []).1 == []
  {
    var pad := PadFrame(OriginOf(cfg, count), tail, cfg.termLength - tail);
    assert [pad][..0] == [] && [pad][1..] == [];
  }

  lemma ClaimKeeps(cfg: Settings, count: nat, s: Term, message: seq<int>)
    requires TermInv(cfg, count, s)
    ensures TermInv(cfg, count, TermAfter(cfg, count, s, ClaimRange(message)))
  {
    hide TermInv, FramesClaimed, Required, Deliver, Legal, EndsOpen, Tiles, TilesEnd, Genuine, Status, Settings.Valid;
    SameLengths(cfg, count, s);
    if |message| <= cfg.maxPayload || |message| <= cfg.maxMessage {
      var fs := FramesClaimed(cfg, count, s.tail, message);
      var s' := TermAfter(cfg, count, s, ClaimRange(message));
      ClaimedFrames(cfg, count, s.tail, message, Deliver(IDLE, s.frames).0);
      ClaimedStream(s.frames, fs, s.messages, s'.messages);
      ClaimedUntouched(cfg, count, s, fs);
      TermGrows(cfg, count, s, fs, s');
    }
  }

  lemma ClaimedStream(frames: seq<Frame>, fs: seq<Frame>, messages: seq<seq<int>>, after: seq<seq<int>>)
    requires Legal(frames, false) && !EndsOpen(frames, false) && Legal(fs, false) && !EndsOpen(fs, false)
    requires Deliver(IDLE, frames).1 == messages && after == messages + Deliver(Deliver(IDLE, frames).0, fs).1
    ensures Legal(frames + fs, false) && !EndsOpen(frames + fs, false) && Deliver(IDLE, frames + fs).1 == after
  {
    hide Legal, EndsOpen, Deliver;
    DeliverAppend(IDLE, frames, fs);
    LegalAppend(frames, fs, false);
  }

  /** The invariant with frames `fs` added behind the others. */
  lemma TermGrows(cfg: Settings, count: nat, s: Term, fs: seq<Frame>, s': Term)
    requires TermInv(cfg, count, s) && s'.cells == s.cells && s'.frames == s.frames + fs && |s'.claim| == |s'.frames|
    requires s'.stage == s.stage + seq(|fs|, _ => 0) && s'.tail >= s.tail && s'.tail % FRAME_ALIGNMENT == 0
    requires var end := TilesEnd(s.frames, 0);
             Tiles(fs, end) && TilesEnd(fs, end) == if s'.tail <= cfg.termLength then s'.tail else cfg.termLength
    requires forall j :: 0 <= j < |fs| ==> Genuine(cfg, count, fs[j]) && Status(s.cells, fs[j], 0)
    requires forall j :: 0 <= j < |fs| && fs[j].pad ==> j == |fs| - 1 && s'.tail > cfg.termLength
    requires s.tail > cfg.termLength ==> fs == []
    requires Legal(s'.frames, false) && !EndsOpen(s'.frames, false) && Deliver(IDLE, s'.frames).1 == s'.messages
    ensures TermInv(cfg, count, s')
  {
    hide Deliver, Legal, EndsOpen, Tiles, TilesEnd, Genuine, Status, Settings.Valid;
    TilesAppend(s.frames, fs, 0);
    forall j | 0 <= j < |s'.frames|
      ensures Genuine(cfg, count, s'.frames[j]) && Status(s'.cells, s'.frames[j], s'.stage[j])
      ensures s'.frames[j].pad ==> j == |s'.frames| - 1 && s'.tail > cfg.termLength
    {
      if j < |s.frames| {
        assert s'.frames[j] == s.frames[j] && s'.stage[j] == s.stage[j];
      } else {
        assert s'.frames[j] == fs[j - |s.frames|] && s'.stage[j] == 0;
      }
    }
  }

  lemma ClaimedUntouched(cfg: Settings, count: nat, s: Term, fs: seq<Frame>)
    requires TermInv(cfg, count, s) && Tiles(fs, TilesEnd(s.frames, 0))
    requires TilesEnd(fs, TilesEnd(s.frames, 0)) <= cfg.termLength
    requires forall j :: 0 <= j < |fs| ==> Genuine(cfg, count, fs[j])
    ensures forall j :: 0 <= j < |fs| ==> Status(s.cells, fs[j], 0)
  {
    hide Deliver, Legal, EndsOpen, Tiles, TilesEnd, Status, EndOf;
    forall j | 0 <= j < |fs|
      ensures Status(s.cells, fs[j], 0)
    {
      TilesWithin(fs, TilesEnd(s.frames, 0), j);
      OwnRange(cfg, count, fs[j]);
      UntouchedStatus(cfg, count, s.cells, fs[j]);
    }
  }

  lemma UntouchedStatus(cfg: Settings, count: nat, cells: seq<int>, f: Frame)
    requires cfg.Valid() && |cells| == cfg.termLength && Genuine(cfg, count, f)
    requires EndOf(f) <= |cells| && cells[f.offset] == 0
    ensures Status(cells, f, 0)
  {
  }

  lemma WriteKeeps(cfg: Settings, count: nat, s: Term, j: nat)
    requires TermInv(cfg, count, s) && CanWrite(s, j)
    ensures TermInv(cfg, count, TermAfter(cfg, count, s, WriteMore(j)))
  {
    hide Deliver, Legal, EndsOpen, Status, WriteNext, TilesEnd, Tiles;
    var s', f := TermAfter(cfg, count, s, WriteMore(j)), s.frames[j];
    WriteAdvances(cfg, count, s.cells, f, s.stage[j]);
    OnlyOwnCells(s.cells, f, s.stage[j]);
    TilesWithin(s.frames, 0, j);
    OwnRange(cfg, count, f);
    forall k | 0 <= k < |s.frames| && k != j
      ensures Status(s'.cells, s.frames[k], s.stage[k])
    {
      OwnRange(cfg, count, s.frames[k]);
      if k < j { TilesOrdered(s.frames, 0, k, j); } else { TilesOrdered(s.frames, 0, j, k); }
      StatusKept(s.cells, s'.cells, s.frames[k], s.stage[k]);
    }
  }

  lemma OwnRange(cfg: Settings, count: nat, f: Frame)
    requires Genuine(cfg, count, f)
    ensures HEADER_LENGTH + |f.payload| <= f.length && f.offset + f.length <= EndOf(f)
  {
  }

  /** Any number of steps of any number of threads. */
  function TermRun(cfg: Settings, count: nat, steps: seq<TermStep>): Term
    requires cfg.Valid()
  {
    if steps == [] then Fresh(cfg.termLength)
    else TermAfter(cfg, count, TermRun(cfg, count, steps[..|steps| - 1]), steps[|steps| - 1])
  }

  lemma {:induction false} TermRunKeeps(cfg: Settings, count: nat, steps: seq<TermStep>)
    requires cfg.Valid()
    ensures TermInv(cfg, count, TermRun(cfg, count, steps))
    decreases |steps|
  {
    if steps == [] {
      FreshTerm(cfg, count);
    } else {
      hide TermInv, TermAfter;
      var s, step := TermRun(cfg, count, steps[..|steps| - 1]), steps[|steps| - 1];
      TermRunKeeps(cfg, count, steps[..|steps| - 1]);
      if step.ClaimRange? {
        ClaimKeeps(cfg, count, s, step.message);
      } else if CanWrite(s, step.j) {
        WriteKeeps(cfg, count, s, step.j);
      } else {
        NothingWritten(cfg, count, s, step.j);
      }
    }
  }

  lemma NothingWritten(cfg: Settings, count: nat, s: Term, j: nat)
    requires cfg.Valid() && !CanWrite(s, j)
    ensures TermAfter(cfg, count, s, WriteMore(j)) == s
  {
  }

  /** Every claim of a run has a number of its own. */
  lemma {:induction false} ClaimsNumbered(cfg: Settings, count: nat, steps: seq<TermStep>)
    requires cfg.Valid()
    ensures var s := TermRun(cfg, count, steps);
            |s.claim| == |s.frames| == |s.stage| && forall j :: 0 <= j < |s.claim| ==> s.claim[j] < s.claims
    decreases |steps|
  {
    if steps != [] {
      hide FramesClaimed, Required, WriteNext;
      ClaimsNumbered(cfg, count, steps[..|steps| - 1]);
    }
  }

  /** Writers do not wait for each other: however far the frames claimed before have been written, the first frame of a
      new claim can be written at once. */
  lemma WritersIndependent(cfg: Settings, count: nat, steps: seq<TermStep>, message: seq<int>)
    requires cfg.Valid()
    ensures var s, s' := TermRun(cfg, count, steps), TermRun(cfg, count, steps + [ClaimRange(message)]);
            |s'.frames| > |s.frames| ==> CanWrite(s', |s.frames|)
  {
    assert (steps + [ClaimRange(message)])[..|steps|] == steps;
    var s, s' := TermRun(cfg, count, steps), TermRun(cfg, count, steps + [ClaimRange(message)]);
    ClaimsNumbered(cfg, count, steps);
    TermRunKeeps(cfg, count, steps + [ClaimRange(message)]);
    assert s' == TermAfter(cfg, count, s, ClaimRange(message));
    hide TermRun, Deliver, Legal, EndsOpen, Tiles, TilesEnd, Genuine, FramesClaimed, Required, Partial;
    var k := |s.frames|;
    if |s'.frames| > k {
      assert Status(s'.cells, s'.frames[k], s'.stage[k]);
      assert s'.stage[k] == 0;
    }
  }

  /** How many frames from the front are complete. */
  function Front(frames: seq<Frame>, stage: seq<nat>): (n: nat)
    requires |frames| == |stage|
    ensures n <= |frames| && forall j :: 0 <= j < n ==> stage[j] == Complete(frames[j])
    ensures n < |frames| ==> stage[n] != Complete(frames[n])
  {
    if frames == [] || stage[0] != Complete(frames[0]) then 0 else Front(frames[1..], stage[1..]) + 1
  }

  /** At every moment of every run, a reader at the boundary behind `q` frames sees, in the order of the claims, exactly
      the frames up to the first that is not complete, whatever has been written behind it; what they deliver is the
      front of the messages in the order of their claims. */
  lemma ReaderSeesCompleteFront(cfg: Settings, count: nat, steps: seq<TermStep>, q: nat)
    requires cfg.Valid()
    requires var s := TermRun(cfg, count, steps);
             |s.frames| == |s.stage| && q <= Front(s.frames, s.stage)
    ensures var s := TermRun(cfg, count, steps);
            var front := Front(s.frames, s.stage);
            && Readable(s.cells, TilesEnd(s.frames[..q], 0), s.frames[q..front])
            && Deliver(IDLE, s.frames[..front]).1 <= s.messages
  {
    hide Front, TermRun;
    TermRunKeeps(cfg, count, steps);
    var s := TermRun(cfg, count, steps);
    var front := Front(s.frames, s.stage);
    DeliveredPrefix(IDLE, s.frames, front);
    FrontReadable(cfg, count, s, q, front);
  }

  lemma FrontReadable(cfg: Settings, count: nat, s: Term, q: nat, front: nat)
    requires TermInv(cfg, count, s) && q <= front <= |s.frames|
    requires forall j :: 0 <= j < front ==> s.stage[j] == Complete(s.frames[j])
    requires front < |s.frames| ==> s.stage[front] != Complete(s.frames[front])
    ensures Readable(s.cells, TilesEnd(s.frames[..q], 0), s.frames[q..front])
  {
    FrontHeld(cfg, count, s, q, front);
    FrontTiles(s.frames, q, front);
    if front < |s.frames| {
      FirstIncomplete(cfg, count, s, front);
    } else {
      assert s.frames[..front] == s.frames;
    }
    hide Deliver, Legal, EndsOpen, Decode, Align, Status, Genuine, Tiles, TilesEnd, Holds;
  }

  lemma FrontTiles(frames: seq<Frame>, q: nat, front: nat)
    requires Tiles(frames, 0) && q <= front <= |frames|
    ensures Tiles(frames[q..front], TilesEnd(frames[..q], 0))
    ensures TilesEnd(frames[q..front], TilesEnd(frames[..q], 0)) == TilesEnd(frames[..front], 0)
  {
    TilesSplit(frames, front, 0);
    assert frames[..front][..q] == frames[..q] && frames[..front][q..] == frames[q..front];
    TilesSplit(frames[..front], q, 0);
  }

  lemma FrontHeld(cfg: Settings, count: nat, s: Term, q: nat, front: nat)
    requires TermInv(cfg, count, s) && q <= front <= |s.frames|
    requires forall j :: 0 <= j < front ==> s.stage[j] == Complete(s.frames[j])
    ensures Holds(s.cells, s.frames[q..front])
  {
    hide Deliver, Legal, EndsOpen, Decode, Align, Genuine, Tiles, TilesEnd;
    var seen := s.frames[q..front];
    forall i | 0 <= i < |seen|
      ensures FrameAt(s.cells, seen[i].offset) && Decode(s.cells, seen[i].offset) == seen[i]
    {
      assert Status(s.cells, s.frames[q + i], s.stage[q + i]);
    }
  }

  /** The first frame that is not complete shows no length. */
  lemma FirstIncomplete(cfg: Settings, count: nat, s: Term, j: nat)
    requires TermInv(cfg, count, s) && j < |s.frames| && s.stage[j] != Complete(s.frames[j])
    ensures TilesEnd(s.frames[..j], 0) == s.frames[j].offset < |s.cells| && s.cells[s.frames[j].offset] <= 0
  {
    hide Deliver, Legal, EndsOpen, Decode, Align;
    assert Genuine(cfg, count, s.frames[j]) && Status(s.cells, s.frames[j], s.stage[j]);
  }

  lemma FrontOfMore(frames: seq<Frame>, stage: seq<nat>, frames': seq<Frame>, stage': seq<nat>)
    requires |frames| == |stage| && |frames'| == |stage'| && frames <= frames'
    requires forall j :: 0 <= j < Front(frames, stage) ==> stage'[j] == Complete(frames[j])
    ensures Front(frames, stage) <= Front(frames', stage')
  {
    hide Front, Complete;
  }

  /** What readers can see only grows. */
  lemma FrontGrows(cfg: Settings, count: nat, s: Term, step: TermStep)
    requires TermInv(cfg, count, s)
    ensures var s' := TermAfter(cfg, count, s, step);
            && |s'.frames| == |s'.stage| && s.frames <= s'.frames
            && Front(s.frames, s.stage) <= Front(s'.frames, s'.stage)
  {
    hide TermInv, FramesClaimed, Required, WriteNext, Complete, Front;
    SameLengths(cfg, count, s);
    var s' := TermAfter(cfg, count, s, step);
    FrontOfMore(s.frames, s.stage, s'.frames, s'.stage);
  }

  lemma SameLengths(cfg: Settings, count: nat, s: Term)
    requires TermInv(cfg, count, s)
    ensures |s.frames| == |s.stage| == |s.claim| && cfg.Valid() && s.tail % FRAME_ALIGNMENT == 0
    ensures Tiles(s.frames, 0) && TilesEnd(s.frames, 0) == (if s.tail <= cfg.termLength then s.tail else cfg.termLength)
    ensures Legal(s.frames, false) && !EndsOpen(s.frames, false) && Deliver(IDLE, s.frames).1 == s.messages
  {
  }

  /** At most one claim of the term writes padding; it is the last frame and fills exactly the rest of the term. */
  lemma OnePadding(cfg: Settings, count: nat, steps: seq<TermStep>, j: nat, k: nat)
    requires cfg.Valid()
    requires var s := TermRun(cfg, count, steps);
             j < |s.frames| && k < |s.frames| && s.frames[j].pad && s.frames[k].pad
    ensures var s := TermRun(cfg, count, steps);
            && j == k == |s.frames| - 1 && s.tail > cfg.termLength
            && s.frames[j].offset + s.frames[j].length == cfg.termLength
            && s.frames[j].offset == TilesEnd(s.frames[..j], 0)
  {
    hide TermRun;
    TermRunKeeps(cfg, count, steps);
    var s := TermRun(cfg, count, steps);
    PaddingIsLast(cfg, count, s, j);
    PaddingIsLast(cfg, count, s, k);
  }

  lemma PaddingIsLast(cfg: Settings, count: nat, s: Term, j: nat)
    requires TermInv(cfg, count, s) && j < |s.frames| && s.frames[j].pad
    ensures j == |s.frames| - 1 && s.tail > cfg.termLength
    ensures s.frames[j].offset + s.frames[j].length == cfg.termLength
            && s.frames[j].offset == TilesEnd(s.frames[..j], 0)
  {
    hide Deliver, Legal, EndsOpen, Decode, Align, Status;
    assert Genuine(cfg, count, s.frames[j]);
  }
}
