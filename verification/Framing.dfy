/**
 Frames of a log buffer term: alignment, the frame a message fragment occupies, how a message is cut into
 fragments and how much of the term is reserved for it
 (DataFrameHeader.h, FrameDescriptor.h, BitUtil.h, LogBufferDescriptor.h).
 */
module Framing {

  const FRAME_ALIGNMENT := 32
  const HEADER_LENGTH := 32
  const NULL_VALUE := -1

  /** A frame as a reader sees it. `offset` is the term offset field of the header; of the flags byte only the
      two fragmentation bits are kept; a padding frame carries no payload. */
  datatype Frame = Frame(offset: int, length: int, begin: bool, end: bool, pad: bool,
                         session: int, stream: int, termId: int, payload: seq<int>)
  {
    predicate Unfragmented() { begin && end }

    /** Header::nextTermOffset for a header whose fragmented frame length is not set. */
    function NextOffset(): int { AlignInt(offset + length) }
  }

  /** What a publication needs to know to build the header of a frame. */
  datatype Origin = Origin(session: int, stream: int, termId: int)

  /** BitUtil::align for the frame alignment: the least multiple of 32 that is not below `value`. */
  function Align(value: nat): (r: nat)
    ensures value <= r < value + FRAME_ALIGNMENT
  {
    var over := value % 32;
    if over == 0 then value else value + 32 - over
  }

  function AlignInt(value: int): int {
    if value < 0 then value else Align(value)
  }

  /** ExclusivePublication::computeFramedLength and LogBufferDescriptor::computeFragmentedFrameLength. */
  function FramedLength(length: nat, maxPayload: nat): (r: nat)
    requires maxPayload > 0
  {
    var remaining := length % maxPayload;
    var whole: nat := length / maxPayload;
    whole * (maxPayload + HEADER_LENGTH) + if remaining > 0 then Align(remaining + HEADER_LENGTH) else 0
  }

  /** The frames a message occupies from `offset` on: full fragments, then the last one; BEGIN on the first. */
  function Fragments(maxPayload: nat, from: Origin, offset: nat, data: seq<int>, first: bool): (fs: seq<Frame>)
    requires maxPayload > 0
    ensures |fs| > 0
    ensures fs[0].offset == offset
    decreases |data|
  {
    if |data| <= maxPayload then
      [DataFrame(from, offset, data, first, true)]
    else
      [DataFrame(from, offset, data[..maxPayload], first, false)]
      + Fragments(maxPayload, from, offset + Align(maxPayload + HEADER_LENGTH), data[maxPayload..], false)
  }

  function DataFrame(from: Origin, offset: int, payload: seq<int>, begin: bool, end: bool): Frame {
    Frame(offset, |payload| + HEADER_LENGTH, begin, end, false, from.session, from.stream, from.termId, payload)
  }

  function PadFrame(from: Origin, offset: int, length: int): Frame {
    Frame(offset, length, true, true, true, from.session, from.stream, from.termId, [])
  }

  /** Where a frame ends, with its alignment. */
  function EndOf(f: Frame): int {
    f.offset + AlignInt(f.length)
  }

  /** Frames laid end to end from `offset` on, each saying where it is. */
  predicate Tiles(frames: seq<Frame>, offset: int) {
    && (|frames| > 0 ==> frames[0].offset == offset)
    && (forall i :: 0 <= i < |frames| ==> frames[i].length >= HEADER_LENGTH)
    && forall i, j :: 0 <= i && j == i + 1 < |frames| ==> frames[j].offset == EndOf(frames[i])
  }

  /** The offset just after a tiling. */
  function TilesEnd(frames: seq<Frame>, offset: int): int {
    if frames == [] then offset else EndOf(frames[|frames| - 1])
  }

  lemma TilesAppend(a: seq<Frame>, b: seq<Frame>, offset: int)
    requires Tiles(a, offset) && Tiles(b, TilesEnd(a, offset))
    ensures Tiles(a + b, offset) && TilesEnd(a + b, offset) == TilesEnd(b, TilesEnd(a, offset))
  {
  }

  lemma TilesSplit(frames: seq<Frame>, k: nat, offset: int)
    requires Tiles(frames, offset) && k <= |frames|
    ensures Tiles(frames[..k], offset) && Tiles(frames[k..], TilesEnd(frames[..k], offset))
    ensures TilesEnd(frames, offset) == TilesEnd(frames[k..], TilesEnd(frames[..k], offset))
  {
  }

  /** Frames further on start no earlier than where frames before them end. */
  lemma {:induction false} TilesOrdered(frames: seq<Frame>, offset: int, i: nat, j: nat)
    requires Tiles(frames, offset) && i <= j < |frames|
    ensures i < j ==> EndOf(frames[i]) <= frames[j].offset
    ensures EndOf(frames[i]) <= EndOf(frames[j])
    decreases j - i
  {
    if i < j {
      TilesOrdered(frames, offset, i, j - 1);
    }
  }

  /** Every frame of a tiling lies within it. */
  lemma TilesWithin(frames: seq<Frame>, offset: int, i: nat)
    requires Tiles(frames, offset) && i < |frames|
    ensures offset <= frames[i].offset && EndOf(frames[i]) <= TilesEnd(frames, offset)
  {
    TilesOrdered(frames, offset, 0, i);
    TilesOrdered(frames, offset, i, |frames| - 1);
  }

  lemma {:induction false} FragmentsTile(maxPayload: nat, from: Origin, offset: nat, data: seq<int>, first: bool)
    requires maxPayload > 0
    ensures Tiles(Fragments(maxPayload, from, offset, data, first), offset)
    decreases |data|
  {
    if |data| > maxPayload {
      FragmentsTile(maxPayload, from, offset + Align(maxPayload + HEADER_LENGTH), data[maxPayload..], false);
    }
  }

  lemma MultipleGap(q: nat, q': nat, d: nat)
    requires q > q'
    ensures q * d >= q' * d + d
  {
    assert q * d - q' * d == (q - q') * d;
    assert (q - q' - 1) * d >= 0;
  }

  lemma DivUnique(n: nat, d: nat, q: nat, r: nat)
    requires d > 0 && n == q * d + r && r < d
    ensures n / d == q && n % d == r
  {
    var q', r' := n / d, n % d;
    assert n == q' * d + r';
    if q > q' {
      MultipleGap(q, q', d);
    } else if q < q' {
      MultipleGap(q', q, d);
    }
  }

  lemma DivStep(n: nat, d: nat)
    requires n >= d > 0
    ensures n / d == (n - d) / d + 1 && n % d == (n - d) % d
  {
    var q, r := (n - d) / d, (n - d) % d;
    MulStep(q, d);
    DivUnique(n, d, q + 1, r);
  }

  lemma MulStep(q: nat, a: nat)
    ensures (q + 1) * a == q * a + a
  {
  }

  /** The same length counted fragment by fragment. */
  function ReservedLength(length: nat, maxPayload: nat): (r: nat)
    requires maxPayload > 0
    decreases length
  {
    if length == 0 then 0
    else if length < maxPayload then Align(length + HEADER_LENGTH)
    else maxPayload + HEADER_LENGTH + ReservedLength(length - maxPayload, maxPayload)
  }

  lemma {:induction false} FramedLengthCountsFragments(length: nat, maxPayload: nat)
    requires maxPayload > 0
    ensures FramedLength(length, maxPayload) == ReservedLength(length, maxPayload)
    decreases length
  {
    if length < maxPayload {
      DivUnique(length, maxPayload, 0, length);
    } else {
      DivStep(length, maxPayload);
      MulStep((length - maxPayload) / maxPayload, maxPayload + HEADER_LENGTH);
      FramedLengthCountsFragments(length - maxPayload, maxPayload);
    }
  }

  /** The space reserved for a fragmented message against the space its frames take: never more, and the same
      exactly when the maximum payload is a multiple of the alignment. */
  lemma ReservedLengthIsExact(maxPayload: nat, from: Origin, offset: nat, data: seq<int>)
    requires 0 < maxPayload < |data|
    ensures Tiles(Fragments(maxPayload, from, offset, data, true), offset)
    ensures var used := TilesEnd(Fragments(maxPayload, from, offset, data, true), offset) - offset;
            FramedLength(|data|, maxPayload) <= used &&
            (FramedLength(|data|, maxPayload) == used <==> maxPayload % FRAME_ALIGNMENT == 0)
  {
    FramedLengthCountsFragments(|data|, maxPayload);
    FragmentsTile(maxPayload, from, offset, data, true);
    FragmentsSpan(maxPayload, from, offset, data, true);
  }

  lemma {:induction false} FragmentsSpan(maxPayload: nat, from: Origin, offset: nat, data: seq<int>, first: bool)
    requires 0 < maxPayload
    ensures var used := TilesEnd(Fragments(maxPayload, from, offset, data, first), offset) - offset;
            if |data| < maxPayload then used == Align(|data| + HEADER_LENGTH)
            else ReservedLength(|data|, maxPayload) <= used &&
                 (ReservedLength(|data|, maxPayload) == used <==> maxPayload % FRAME_ALIGNMENT == 0)
    decreases |data|
  {
    if |data| > maxPayload {
      var next, rest := offset + Align(maxPayload + HEADER_LENGTH), data[maxPayload..];
      FragmentsEnd(maxPayload, from, offset, data, first);
      FragmentsSpan(maxPayload, from, next, rest, false);
      assert |rest| < maxPayload ==> ReservedLength(|rest|, maxPayload) == Align(|rest| + HEADER_LENGTH);
    }
  }

  lemma FragmentsEnd(maxPayload: nat, from: Origin, offset: nat, data: seq<int>, first: bool)
    requires 0 < maxPayload < |data|
    ensures var next := offset + Align(maxPayload + HEADER_LENGTH);
            TilesEnd(Fragments(maxPayload, from, offset, data, first), offset)
            == TilesEnd(Fragments(maxPayload, from, next, data[maxPayload..], false), next)
  {
  }

  /** A fragmented length computed from the length of the whole message instead of its first frame falls short of the
      reserved one for every fragmented message. */
  lemma RecomputedLengthFallsShort(length: nat, maxPayload: nat)
    requires 0 < maxPayload < length
    ensures FramedLength(length, length) == length + HEADER_LENGTH
    ensures FramedLength(length, length) < FramedLength(length, maxPayload)
  {
    FramedLengthCountsFragments(length, length);
    FramedLengthCountsFragments(length, maxPayload);
    ReservedLengthBounds(length - maxPayload, maxPayload);
  }

  /** Between the payload with one header, and (for payloads of at least one alignment unit) twice the payload
      with two headers. */
  lemma {:induction false} ReservedLengthBounds(length: nat, maxPayload: nat)
    requires 0 < maxPayload
    ensures length > 0 ==> ReservedLength(length, maxPayload) >= length + HEADER_LENGTH
    ensures maxPayload >= 32 ==> ReservedLength(length, maxPayload) <= 2 * length + 64
    decreases length
  {
    if length >= maxPayload {
      ReservedLengthBounds(length - maxPayload, maxPayload);
    }
  }
}
