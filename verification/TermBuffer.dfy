/**
 A term of the log buffer in memory. A term is an array of byte cells; a header field of several bytes is kept
 whole in the cell of its first byte (DataFrameHeader.h gives the offsets). Writing follows HeaderWriter.h and the
 append functions: a negative length first, then the rest of the header and the payload, and the length last.
 */
module TermBuffer {
  import opened Framing

  const FLAGS := 5
  const TYPE := 6
  const TERM_OFFSET := 8
  const SESSION_ID := 12
  const STREAM_ID := 16
  const TERM_ID := 20
  const RESERVED_VALUE := 24

  const TYPE_PAD := 0
  const TYPE_DATA := 1
  const BEGIN_FRAG := 128
  const END_FRAG := 64

  /** A complete frame starts at `o`. */
  predicate FrameAt(cells: seq<int>, o: int) {
    0 <= o && o + HEADER_LENGTH <= |cells| && HEADER_LENGTH <= cells[o] && o + cells[o] <= |cells|
  }

  /** The frame that starts at `o`; of the flags byte only the two fragmentation bits are read. */
  function Decode(cells: seq<int>, o: int): Frame
    requires FrameAt(cells, o)
  {
    var pad := cells[o + TYPE] == TYPE_PAD;
    Frame(cells[o + TERM_OFFSET], cells[o], cells[o + FLAGS] >= BEGIN_FRAG, cells[o + FLAGS] % BEGIN_FRAG >= END_FRAG,
          pad, cells[o + SESSION_ID], cells[o + STREAM_ID], cells[o + TERM_ID],
          if pad then [] else cells[o + HEADER_LENGTH..o + cells[o]])
  }

  /** Each of the frames is complete in memory at its own offset. */
  predicate Holds(cells: seq<int>, frames: seq<Frame>) {
    forall i :: 0 <= i < |frames| ==> FrameAt(cells, frames[i].offset) && Decode(cells, frames[i].offset) == frames[i]
  }

  /** What the term shows to a scan from offset 0: these frames, then the end of the term or no length yet. */
  predicate Shows(cells: seq<int>, frames: seq<Frame>) {
    && Holds(cells, frames)
    && Tiles(frames, 0)
    && var e := TilesEnd(frames, 0);
       e == |cells| || (e < |cells| && cells[e] <= 0)
  }

  /** A frame is read back the same while its own bytes do not change. */
  lemma DecodeKept(before: seq<int>, after: seq<int>, o: int)
    requires |before| == |after| && FrameAt(before, o)
    requires forall i :: o <= i < o + before[o] ==> after[i] == before[i]
    ensures FrameAt(after, o) && Decode(after, o) == Decode(before, o)
  {
    assert after[o + HEADER_LENGTH..o + before[o]] == before[o + HEADER_LENGTH..o + before[o]];
  }

  /** Writing behind the frames of a term leaves them as they were. */
  lemma HoldsKept(before: seq<int>, after: seq<int>, frames: seq<Frame>, o: nat)
    requires |before| == |after| && Holds(before, frames) && Tiles(frames, o)
    requires forall i :: o <= i < TilesEnd(frames, o) && i < |after| ==> after[i] == before[i]
    ensures Holds(after, frames)
  {
    forall i | 0 <= i < |frames|
      ensures FrameAt(after, frames[i].offset) && Decode(after, frames[i].offset) == frames[i]
    {
      TilesWithin(frames, o, i);
      DecodeKept(before, after, frames[i].offset);
    }
  }

  /** HeaderWriter::write. */
  method WriteHeader(term: array<int>, from: Origin, o: nat, length: int)
    requires o + HEADER_LENGTH <= term.Length
    modifies term
    ensures term[o] == -length && HeaderCells(term[..], from, o)
    ensures forall i :: 0 <= i < term.Length && !(o <= i < o + HEADER_LENGTH) ==> term[i] == old(term[i])
  {
    term[o] := -length;
    term[o + 4] := 0;
    term[o + FLAGS] := BEGIN_FRAG + END_FRAG;
    term[o + TYPE] := TYPE_DATA;
    term[o + TERM_OFFSET] := o;
    term[o + SESSION_ID] := from.session;
    term[o + STREAM_ID] := from.stream;
    term[o + TERM_ID] := from.termId;
  }

  /** The header fields other than length, as the header writer leaves them. */
  predicate HeaderCells(cells: seq<int>, from: Origin, o: nat) {
    && o + HEADER_LENGTH <= |cells|
    && cells[o + FLAGS] == BEGIN_FRAG + END_FRAG && cells[o + TYPE] == TYPE_DATA && cells[o + TERM_OFFSET] == o
    && cells[o + SESSION_ID] == from.session && cells[o + STREAM_ID] == from.stream && cells[o + TERM_ID] == from.termId
  }

  /** AtomicBuffer::putBytes. */
  method PutBytes(term: array<int>, o: nat, source: seq<int>)
    requires o + |source| <= term.Length
    modifies term
    ensures forall i :: 0 <= i < |source| ==> term[o + i] == source[i]
    ensures forall i :: 0 <= i < term.Length && !(o <= i < o + |source|) ==> term[i] == old(term[i])
  {
    forall i | 0 <= i < |source| {
      term[o + i] := source[i];
    }
  }

  lemma DecodeData(cells: seq<int>, from: Origin, o: nat, payload: seq<int>, begin: bool, end: bool)
    requires o + HEADER_LENGTH + |payload| <= |cells|
    requires cells[o] == |payload| + HEADER_LENGTH && cells[o + TYPE] == TYPE_DATA && cells[o + TERM_OFFSET] == o
    requires cells[o + FLAGS] == (if begin then BEGIN_FRAG else 0) + if end then END_FRAG else 0
    requires cells[o + SESSION_ID] == from.session && cells[o + STREAM_ID] == from.stream
             && cells[o + TERM_ID] == from.termId
    requires forall i :: 0 <= i < |payload| ==> cells[o + HEADER_LENGTH + i] == payload[i]
    ensures FrameAt(cells, o) && Decode(cells, o) == DataFrame(from, o, payload, begin, end)
  {
    assert cells[o + HEADER_LENGTH..o + cells[o]] == payload;
  }

  /** The last steps of a data frame: its flags and reserved value, then its length. */
  method CommitFrame(term: array<int>, from: Origin, o: nat, ghost payload: seq<int>, begin: bool, end: bool)
    requires o + HEADER_LENGTH + |payload| <= term.Length
    requires term[o] == -(|payload| + HEADER_LENGTH) && HeaderCells(term[..], from, o)
    requires forall i :: 0 <= i < |payload| ==> term[o + HEADER_LENGTH + i] == payload[i]
    modifies term
    ensures FrameAt(term[..], o) && Decode(term[..], o) == DataFrame(from, o, payload, begin, end)
    ensures forall i :: 0 <= i < term.Length && !(o <= i < o + HEADER_LENGTH) ==> term[i] == old(term[i])
  {
    term[o + FLAGS] := (if begin then BEGIN_FRAG else 0) + if end then END_FRAG else 0;
    term[o + RESERVED_VALUE] := 0;
    term[o] := -term[o];
    DecodeData(term[..], from, o, payload, begin, end);
  }

  /** One data frame: header, payload, flags, and the length last. */
  method WriteFrame(term: array<int>, from: Origin, o: nat, payload: seq<int>, begin: bool, end: bool)
    requires o + HEADER_LENGTH + |payload| <= term.Length
    modifies term
    ensures FrameAt(term[..], o) && Decode(term[..], o) == DataFrame(from, o, payload, begin, end)
    ensures forall i :: 0 <= i < term.Length && !(o <= i < o + HEADER_LENGTH + |payload|) ==> term[i] == old(term[i])
  {
    WriteHeader(term, from, o, |payload| + HEADER_LENGTH);
    PutBytes(term, o + HEADER_LENGTH, payload);
    CommitFrame(term, from, o, payload, begin, end);
  }

  /** The padding frame that closes a term. */
  method WritePadding(term: array<int>, from: Origin, o: nat)
    requires o + HEADER_LENGTH <= term.Length
    modifies term
    ensures FrameAt(term[..], o) && Decode(term[..], o) == PadFrame(from, o, term.Length - o)
    ensures forall i :: 0 <= i < term.Length && !(o <= i < o + HEADER_LENGTH) ==> term[i] == old(term[i])
  {
    WriteHeader(term, from, o, term.Length - o);
    term[o + TYPE] := TYPE_PAD;
    term[o] := term.Length - o;
  }

  /** Memory after the first `done` frames of a message were written from `o` up to `offset`, with nothing behind. */
  ghost predicate Written(cells: seq<int>, done: seq<Frame>, o: nat, offset: int) {
    && Tiles(done, o) && TilesEnd(done, o) == offset && Holds(cells, done)
    && forall i :: (if done == [] then o + HEADER_LENGTH else offset) <= i < |cells| ==> cells[i] == 0
  }

  lemma WrittenStep(before: seq<int>, after: seq<int>, done: seq<Frame>, o: nat, offset: nat, frame: Frame, next: int)
    requires |before| == |after| && Written(before, done, o, offset)
    requires FrameAt(after, offset) && Decode(after, offset) == frame && frame.offset == offset
    requires forall i :: 0 <= i < |after| && !(offset <= i < offset + frame.length) ==> after[i] == before[i]
    requires next == EndOf(frame)
    ensures Written(after, done + [frame], o, next)
  {
    HoldsKept(before, after, done, o);
  }

  /** The frames still to be written when `rest` of the data is still to be cut. */
  ghost function Uncut(maxPayload: nat, from: Origin, offset: nat, rest: seq<int>, first: bool): seq<Frame>
    requires maxPayload > 0
  {
    if !first && rest == [] then [] else Fragments(maxPayload, from, offset, rest, first)
  }

  lemma UncutStep(maxPayload: nat, from: Origin, offset: nat, rest: seq<int>, first: bool, n: nat)
    requires 0 < maxPayload && (first || rest != [])
    requires n == if |rest| <= maxPayload then |rest| else maxPayload
    ensures Uncut(maxPayload, from, offset, rest, first)
            == [DataFrame(from, offset, rest[..n], first, |rest| <= maxPayload)]
               + Uncut(maxPayload, from, offset + Align(n + HEADER_LENGTH), rest[n..], false)
    ensures EndOf(DataFrame(from, offset, rest[..n], first, |rest| <= maxPayload)) == offset + Align(n + HEADER_LENGTH)
  {
    assert |rest| <= maxPayload ==> rest[..n] == rest && rest[n..] == [];
  }

  lemma FrameFits(all: seq<Frame>, done: seq<Frame>, frame: Frame, more: seq<Frame>, o: int)
    requires all == done + ([frame] + more) && Tiles(all, o)
    ensures frame.offset == TilesEnd(done, o) && EndOf(frame) <= TilesEnd(all, o)
    ensures all == (done + [frame]) + more
  {
    assert all[|done|] == frame && (done != [] ==> all[|done| - 1] == done[|done| - 1]);
    TilesWithin(all, o, |done|);
  }

  /** Between two turns of the fragmenting loop, with `rest` of the data still to be cut. */
  ghost predicate Midway(cells: seq<int>, all: seq<Frame>, done: seq<Frame>, o: nat,
                         maxPayload: nat, from: Origin, offset: nat, rest: seq<int>, first: bool)
    requires maxPayload > 0
  {
    && all == done + Uncut(maxPayload, from, offset, rest, first)
    && Tiles(all, o) && TilesEnd(all, o) <= |cells|
    && Written(cells, done, o, offset)
  }

  lemma MidwayStart(cells: seq<int>, o: nat, maxPayload: nat, from: Origin, data: seq<int>)
    requires maxPayload > 0 && TilesEnd(Fragments(maxPayload, from, o, data, true), o) <= |cells|
    requires forall i :: o + HEADER_LENGTH <= i < |cells| ==> cells[i] == 0
    ensures Midway(cells, Fragments(maxPayload, from, o, data, true), [], o, maxPayload, from, o, data, true)
  {
    FragmentsTile(maxPayload, from, o, data, true);
  }

  lemma MidwayEnd(cells: seq<int>, all: seq<Frame>, done: seq<Frame>, o: nat, maxPayload: nat, from: Origin,
                  offset: nat)
    requires maxPayload > 0 && Midway(cells, all, done, o, maxPayload, from, offset, [], false)
    ensures Written(cells, all, o, TilesEnd(all, o))
  {
  }

  lemma MidwayFits(cells: seq<int>, all: seq<Frame>, done: seq<Frame>, o: nat,
                   maxPayload: nat, from: Origin, offset: nat, rest: seq<int>, first: bool, n: nat)
    requires maxPayload > 0 && Midway(cells, all, done, o, maxPayload, from, offset, rest, first)
    requires (first || rest != []) && n == if |rest| <= maxPayload then |rest| else maxPayload
    ensures offset + Align(n + HEADER_LENGTH) <= |cells|
  {
    UncutStep(maxPayload, from, offset, rest, first, n);
    var frame := DataFrame(from, offset, rest[..n], first, |rest| <= maxPayload);
    FrameFits(all, done, frame, Uncut(maxPayload, from, offset + Align(n + HEADER_LENGTH), rest[n..], false), o);
  }

  lemma MidwayStep(before: seq<int>, after: seq<int>, all: seq<Frame>, done: seq<Frame>, o: nat,
                   maxPayload: nat, from: Origin, offset: nat, rest: seq<int>, first: bool, n: nat)
    requires maxPayload > 0 && Midway(before, all, done, o, maxPayload, from, offset, rest, first)
    requires (first || rest != []) && n == if |rest| <= maxPayload then |rest| else maxPayload
    requires |before| == |after| && FrameAt(after, offset)
    requires Decode(after, offset) == DataFrame(from, offset, rest[..n], first, |rest| <= maxPayload)
    requires forall i :: 0 <= i < |after| && !(offset <= i < offset + HEADER_LENGTH + n) ==> after[i] == before[i]
    ensures Midway(after, all, done + [Decode(after, offset)], o,
                   maxPayload, from, offset + Align(n + HEADER_LENGTH), rest[n..], false)
  {
    UncutStep(maxPayload, from, offset, rest, first, n);
    var frame := DataFrame(from, offset, rest[..n], first, |rest| <= maxPayload);
    FrameFits(all, done, frame, Uncut(maxPayload, from, offset + Align(n + HEADER_LENGTH), rest[n..], false), o);
    WrittenStep(before, after, done, o, offset, frame, offset + Align(n + HEADER_LENGTH));
  }

  /** The fragmenting loop of appendFragmentedMessage; a message that fits one frame takes one turn. `rest` is the
      source from srcOffset + (length - remaining) on. */
  method WriteFragments(term: array<int>, from: Origin, o: nat, data: seq<int>, maxPayload: nat)
    requires 0 < maxPayload
    requires o <= term.Length && TilesEnd(Fragments(maxPayload, from, o, data, true), o) <= term.Length
    requires forall i :: o + HEADER_LENGTH <= i < term.Length ==> term[i] == 0
    modifies term
    ensures Written(term[..], Fragments(maxPayload, from, o, data, true), o,
                    TilesEnd(Fragments(maxPayload, from, o, data, true), o))
    ensures forall i :: 0 <= i < o ==> term[i] == old(term[i])
  {
    hide Midway, Written, Decode, Holds, Tiles, Fragments;
    var first, rest, offset: nat := true, data, o;
    ghost var all, done := Fragments(maxPayload, from, o, data, true), [];
    MidwayStart(term[..], o, maxPayload, from, data);
    while first || rest != []
      invariant Midway(term[..], all, done, o, maxPayload, from, offset, rest, first)
      invariant o <= offset && forall i :: 0 <= i < o ==> term[i] == old(term[i])
      decreases |rest|, first
    {
      ghost var before := term[..];
      var bytes := if |rest| <= maxPayload then |rest| else maxPayload;
      MidwayFits(before, all, done, o, maxPayload, from, offset, rest, first, bytes);
      WriteFrame(term, from, offset, rest[..bytes], first, |rest| <= maxPayload);
      MidwayStep(before, term[..], all, done, o, maxPayload, from, offset, rest, first, bytes);
      done := done + [Decode(term[..], offset)];
      offset, rest, first := offset + Align(bytes + HEADER_LENGTH), rest[bytes..], false;
    }
    MidwayEnd(term[..], all, done, o, maxPayload, from, offset);
  }
}
