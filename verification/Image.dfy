/**
 Reading a term (Image.h): polling with a handler that may answer ABORT, BREAK, COMMIT or CONTINUE or throw, and
 peeking. A handler is a function from its own state and a frame to its next state and its answer. `Poll` and
 `Peek` say on frames what the loops of the class do on the cells of a term.
 */
module Images {
  import opened Framing
  import opened Sequences
  import opened TermBuffer

  const PARTITION_COUNT := 3

  datatype Action = ABORT | BREAK | COMMIT | CONTINUE | THROW

  type Handler<!S> = (S, Frame) -> (S, Action)

  /** One call of the handler and what it answered. */
  datatype Call = Call(frame: Frame, action: Action)

  /** The handler's last state, how many frames were consumed, and the calls made. */
  datatype Scan<S> = Scan(state: S, consumed: nat, calls: seq<Call>)

  /** The scan loop of controlledPoll and boundedControlledPoll over the frames from the position on. */
  function Poll<S>(h: Handler<S>, s: S, frames: seq<Frame>, limitOffset: int, limit: int): (r: Scan<S>)
    ensures r.consumed <= |frames|
    decreases |frames|
  {
    if frames == [] || limit <= 0 || frames[0].offset >= limitOffset then Scan(s, 0, [])
    else if frames[0].pad then
      var r := Poll(h, s, frames[1..], limitOffset, limit);
      r.(consumed := r.consumed + 1)
    else
      var (s', action) := h(s, frames[0]);
      var call := [Call(frames[0], action)];
      match action
      case ABORT => Scan(s', 0, call)
      case BREAK => Scan(s', 1, call)
      case THROW => Scan(s', 1, call)
      case _ =>
        var r := Poll(h, s', frames[1..], limitOffset, limit - 1);
        Scan(r.state, r.consumed + 1, call + r.calls)
  }

  function DataOf(frames: seq<Frame>): seq<Frame> {
    if frames == [] then [] else (if frames[0].pad then [] else [frames[0]]) + DataOf(frames[1..])
  }

  /** The frames of the calls that were not answered ABORT. */
  function Accepted(calls: seq<Call>): seq<Frame> {
    if calls == [] then []
    else (if calls[0].action == ABORT then [] else [calls[0].frame]) + Accepted(calls[1..])
  }

  /** The stream positions that COMMIT stores, each the end of its own frame, in a term that begins at `termBegin`. */
  function Commits(calls: seq<Call>, termBegin: int): seq<int> {
    if calls == [] then []
    else
      (if calls[0].action == COMMIT then [termBegin + EndOf(calls[0].frame)] else []) + Commits(calls[1..], termBegin)
  }

  /** The answer to the last call stopped the scan. */
  predicate StoppedBy(calls: seq<Call>) { calls != [] && !Continues(calls[|calls| - 1].action) }

  /** The handler threw in its last call. */
  predicate Threw(calls: seq<Call>) { calls != [] && calls[|calls| - 1].action == THROW }

  lemma {:induction false} OneMoreAccepted(calls: seq<Call>, c: Call)
    ensures Accepted(calls + [c]) == Accepted(calls) + if c.action == ABORT then [] else [c.frame]
  {
    if calls == [] {
      assert calls + [c] == [c] && [c][1..] == [];
    } else {
      OneMoreAccepted(calls[1..], c);
      assert (calls + [c])[1..] == calls[1..] + [c];
    }
  }

  lemma {:induction false} OneMoreCommit(calls: seq<Call>, c: Call, termBegin: int)
    ensures Commits(calls + [c], termBegin)
            == Commits(calls, termBegin) + if c.action == COMMIT then [termBegin + EndOf(c.frame)] else []
  {
    hide EndOf;
    if calls == [] {
      assert calls + [c] == [c] && [c][1..] == [];
    } else {
      OneMoreCommit(calls[1..], c, termBegin);
      assert (calls + [c])[1..] == calls[1..] + [c];
    }
  }

  /** A scan cut in two: `done` frames and `calls` first, then the rest. */
  function Join<S>(done: nat, calls: seq<Call>, r: Scan<S>): Scan<S> {
    Scan(r.state, done + r.consumed, calls + r.calls)
  }

  /** One turn of the scan loop. */
  lemma PollStep<S>(h: Handler<S>, s: S, rest: seq<Frame>, limitOffset: int, left: int, done: nat, calls: seq<Call>)
    requires rest != [] && left > 0 && rest[0].offset < limitOffset
    ensures Join(done, calls, Poll(h, s, rest, limitOffset, left)) ==
              var next, more := h(s, rest[0]), calls + [Call(rest[0], h(s, rest[0]).1)];
              if rest[0].pad then Join(done + 1, calls, Poll(h, s, rest[1..], limitOffset, left))
              else if Continues(next.1) then Join(done + 1, more, Poll(h, next.0, rest[1..], limitOffset, left - 1))
              else Scan(next.0, if next.1 == ABORT then done else done + 1, more)
  {
    if !rest[0].pad && Continues(h(s, rest[0]).1) {
      Associate(calls, [Call(rest[0], h(s, rest[0]).1)],
                Poll(h, h(s, rest[0]).0, rest[1..], limitOffset, left - 1).calls);
    }
  }

  /** The calls are what the handler really does, one state after the other. */
  predicate Replays<S(==)>(h: Handler<S>, s: S, calls: seq<Call>, last: S) {
    if calls == [] then s == last
    else h(s, calls[0].frame).1 == calls[0].action && Replays(h, h(s, calls[0].frame).0, calls[1..], last)
  }

  predicate Continues(action: Action) { action == COMMIT || action == CONTINUE }

  /** Accounting of a poll, for every handler: the data among the consumed frames is what was accepted, at most
      `limit` of it, and every consumed frame starts below the limit offset. */
  lemma {:induction false} PollAccounts<S>(h: Handler<S>, s: S, frames: seq<Frame>, limitOffset: int, limit: int)
    ensures var r := Poll(h, s, frames, limitOffset, limit);
            && DataOf(frames[..r.consumed]) == Accepted(r.calls)
            && |Accepted(r.calls)| <= (if limit > 0 then limit else 0)
            && forall i :: 0 <= i < r.consumed ==> frames[i].offset < limitOffset
    decreases |frames|
  {
    var r := Poll(h, s, frames, limitOffset, limit);
    if r.consumed > 0 {
      assert frames[..r.consumed][1..] == frames[1..][..r.consumed - 1];
      if frames[0].pad {
        PollAccounts(h, s, frames[1..], limitOffset, limit);
      } else if Continues(h(s, frames[0]).1) {
        var more := Poll(h, h(s, frames[0]).0, frames[1..], limitOffset, limit - 1);
        assert r == Scan(more.state, more.consumed + 1, [Call(frames[0], h(s, frames[0]).1)] + more.calls);
        PollAccounts(h, h(s, frames[0]).0, frames[1..], limitOffset, limit - 1);
        hide Poll;
        assert r.calls[1..] == more.calls;
      }
    }
  }

  /** The calls are those the handler gets, in order, and only the last of them may stop the scan; a scan that no
      answer stopped went as far as the frames, the limit and the limit offset allow. */
  lemma {:induction false} PollRunsOn<S>(h: Handler<S>, s: S, frames: seq<Frame>, limitOffset: int, limit: int)
    ensures var r := Poll(h, s, frames, limitOffset, limit);
            && Replays(h, s, r.calls, r.state)
            && (forall i :: 0 <= i < |r.calls| - 1 ==> Continues(r.calls[i].action))
            && (r.calls == [] || Continues(r.calls[|r.calls| - 1].action) ==>
                  r.consumed == |frames| || |Accepted(r.calls)| >= limit || frames[r.consumed].offset >= limitOffset)
    decreases |frames|
  {
    if frames == [] || limit <= 0 || frames[0].offset >= limitOffset {
    } else if frames[0].pad {
      PollRunsOn(h, s, frames[1..], limitOffset, limit);
    } else if Continues(h(s, frames[0]).1) {
      var r, more := Poll(h, s, frames, limitOffset, limit),
          Poll(h, h(s, frames[0]).0, frames[1..], limitOffset, limit - 1);
      assert r == Scan(more.state, more.consumed + 1, [Call(frames[0], h(s, frames[0]).1)] + more.calls);
      PollRunsOn(h, h(s, frames[0]).0, frames[1..], limitOffset, limit - 1);
      hide Poll;
      assert r.calls[1..] == more.calls;
    }
  }

  /** A handler that throws is polled like one that answers BREAK in its place. */
  lemma {:induction false} ThrowActsAsBreak<S(!new)>(h: Handler<S>, quiet: Handler<S>, s: S, frames: seq<Frame>,
                                                     limitOffset: int, limit: int)
    requires forall t, f :: quiet(t, f) == (h(t, f).0, if h(t, f).1 == THROW then BREAK else h(t, f).1)
    ensures var r, q := Poll(h, s, frames, limitOffset, limit), Poll(quiet, s, frames, limitOffset, limit);
            r.state == q.state && r.consumed == q.consumed && Accepted(r.calls) == Accepted(q.calls)
    decreases |frames|
  {
    if frames == [] || limit <= 0 || frames[0].offset >= limitOffset {
    } else if frames[0].pad {
      ThrowActsAsBreak(h, quiet, s, frames[1..], limitOffset, limit);
    } else {
      assert quiet(s, frames[0])
             == (h(s, frames[0]).0, if h(s, frames[0]).1 == THROW then BREAK else h(s, frames[0]).1);
      if Continues(h(s, frames[0]).1) {
        var r := Poll(h, h(s, frames[0]).0, frames[1..], limitOffset, limit - 1);
        var q := Poll(quiet, h(s, frames[0]).0, frames[1..], limitOffset, limit - 1);
        var call := [Call(frames[0], h(s, frames[0]).1)];
        assert Poll(h, s, frames, limitOffset, limit) == Scan(r.state, r.consumed + 1, call + r.calls);
        assert Poll(quiet, s, frames, limitOffset, limit) == Scan(q.state, q.consumed + 1, call + q.calls);
        ThrowActsAsBreak(h, quiet, h(s, frames[0]).0, frames[1..], limitOffset, limit - 1);
        hide Poll;
        assert (call + r.calls)[1..] == r.calls && (call + q.calls)[1..] == q.calls;
      }
    }
  }

  /** What a peek leaves behind: the handler's state, how many frames are behind the returned position, how many the
      scan has passed, and the calls made. */
  datatype Glance<S> = Glance(state: S, upTo: nat, passed: nat, calls: seq<Call>)

  /** The scan loop of controlledPeek. */
  function Peek<S>(h: Handler<S>, s: S, frames: seq<Frame>, limitOffset: int): (r: Glance<S>)
    ensures r.upTo <= r.passed <= |frames|
    decreases |frames|
  {
    if frames == [] || frames[0].offset >= limitOffset then Glance(s, 0, 0, [])
    else if frames[0].pad then
      var r := Peek(h, s, frames[1..], limitOffset);
      r.(upTo := r.upTo + 1, passed := r.passed + 1)
    else
      var (s', action) := h(s, frames[0]);
      var here, call := if frames[0].end then 1 else 0, [Call(frames[0], action)];
      if action == ABORT || action == THROW then Glance(s', 0, 0, call)
      else if action == BREAK then Glance(s', here, 1, call)
      else
        var r := Peek(h, s', frames[1..], limitOffset);
        Glance(r.state, if r.upTo > 0 then r.upTo + 1 else here, r.passed + 1, call + r.calls)
  }

  /** A log in which messages are whole: BEGIN opens one, END closes it, padding stands between messages only. */
  predicate Legal(frames: seq<Frame>, open: bool) {
    frames == [] ||
    (if frames[0].pad then !open && Legal(frames[1..], false)
     else frames[0].begin == !open && Legal(frames[1..], !frames[0].end))
  }

  /** Whether a message is still open behind the frames. */
  predicate EndsOpen(frames: seq<Frame>, open: bool) {
    if frames == [] then open else EndsOpen(frames[1..], !frames[0].pad && !frames[0].end)
  }

  /** Peeking from a message boundary of a legal log returns a message boundary, whatever the handler answers. */
  lemma {:induction false} PeekStopsAtBoundary<S>(h: Handler<S>, s: S, frames: seq<Frame>, limitOffset: int, open: bool)
    requires Legal(frames, open)
    ensures var r := Peek(h, s, frames, limitOffset);
            && (r.upTo > 0 || !open ==> !EndsOpen(frames[..r.upTo], open))
            && Legal(frames[..r.upTo], open)
            && forall i :: 0 <= i < r.upTo ==> frames[i].offset < limitOffset
    decreases |frames|
  {
    var r := Peek(h, s, frames, limitOffset);
    if r.upTo > 0 {
      var next := !frames[0].pad && !frames[0].end;
      var s' := if frames[0].pad then s else h(s, frames[0]).0;
      assert frames[..r.upTo][1..] == frames[1..][..r.upTo - 1];
      PeekStopsAtBoundary(h, s', frames[1..], limitOffset, next);
      if r.upTo == 1 {
        assert frames[..1][1..] == [];
      }
    }
  }

  /** The frames of the calls that neither aborted nor threw. */
  function Passed(calls: seq<Call>): seq<Frame> {
    if calls == [] then []
    else (if calls[0].action == ABORT || calls[0].action == THROW then [] else [calls[0].frame]) + Passed(calls[1..])
  }

  /** A peek has passed the frames of the calls that neither aborted nor threw, and the padding among them. */
  lemma {:induction false} PeekPasses<S>(h: Handler<S>, s: S, frames: seq<Frame>, limitOffset: int)
    ensures var r := Peek(h, s, frames, limitOffset); DataOf(frames[..r.passed]) == Passed(r.calls)
    decreases |frames|
  {
    var r := Peek(h, s, frames, limitOffset);
    if r.passed > 0 {
      assert frames[..r.passed][1..] == frames[1..][..r.passed - 1];
      if frames[0].pad {
        PeekPasses(h, s, frames[1..], limitOffset);
      } else if Continues(h(s, frames[0]).1) {
        var more := Peek(h, h(s, frames[0]).0, frames[1..], limitOffset);
        assert r.calls == [Call(frames[0], h(s, frames[0]).1)] + more.calls && r.passed == more.passed + 1;
        PeekPasses(h, h(s, frames[0]).0, frames[1..], limitOffset);
        hide Peek;
        assert r.calls[1..] == more.calls;
      } else {
        assert frames[..1][1..] == [];
      }
    }
  }

  /** A scan that has passed these frames, with these calls: only the last of them may have stopped it, and one that
      none stopped went as far as the frames and the limit offset allow. */
  ghost predicate AsFarAs(frames: seq<Frame>, limitOffset: int, passed: nat, calls: seq<Call>) {
    && passed <= |frames| && (forall i :: 0 <= i < passed ==> frames[i].offset < limitOffset)
    && (forall i :: 0 <= i < |calls| - 1 ==> Continues(calls[i].action))
    && (StoppedBy(calls) || passed == |frames| || frames[passed].offset >= limitOffset)
  }

  lemma AsFarAsBefore(frames: seq<Frame>, limitOffset: int, passed: nat, calls: seq<Call>, call: seq<Call>)
    requires frames != [] && frames[0].offset < limitOffset && AsFarAs(frames[1..], limitOffset, passed, calls)
    requires call == [] || (|call| == 1 && Continues(call[0].action))
    ensures AsFarAs(frames, limitOffset, passed + 1, call + calls)
  {
    assert passed < |frames| - 1 ==> frames[1..][passed] == frames[passed + 1];
  }

  /** The calls of a peek are those the handler gets, in order, and it goes on as far as it may. */
  lemma {:induction false} PeekRunsOn<S>(h: Handler<S>, s: S, frames: seq<Frame>, limitOffset: int)
    ensures var r := Peek(h, s, frames, limitOffset);
            Replays(h, s, r.calls, r.state) && AsFarAs(frames, limitOffset, r.passed, r.calls)
    decreases |frames|
  {
    var r := Peek(h, s, frames, limitOffset);
    if frames == [] || frames[0].offset >= limitOffset {
    } else if frames[0].pad {
      var more := Peek(h, s, frames[1..], limitOffset);
      PeekRunsOn(h, s, frames[1..], limitOffset);
      AsFarAsBefore(frames, limitOffset, more.passed, more.calls, []);
    } else if Continues(h(s, frames[0]).1) {
      var more, call := Peek(h, h(s, frames[0]).0, frames[1..], limitOffset), [Call(frames[0], h(s, frames[0]).1)];
      assert r.calls == call + more.calls && r.passed == more.passed + 1 && r.state == more.state;
      PeekRunsOn(h, h(s, frames[0]).0, frames[1..], limitOffset);
      hide Peek, AsFarAs;
      AsFarAsBefore(frames, limitOffset, more.passed, more.calls, call);
      assert r.calls[1..] == more.calls;
    } else {
      assert r.calls[1..] == [];
    }
  }

  /** How many frames there are up to the last end of a message or padding. */
  function LastEnd(frames: seq<Frame>): nat {
    if frames == [] then 0
    else
      var later := LastEnd(frames[1..]);
      if later > 0 then later + 1 else if frames[0].pad || frames[0].end then 1 else 0
  }

  /** A peek returns the last end of a message or padding that it has passed. */
  lemma {:induction false} PeekReturnsLastEnd<S>(h: Handler<S>, s: S, frames: seq<Frame>, limitOffset: int)
    ensures var r := Peek(h, s, frames, limitOffset); LastEnd(frames[..r.passed]) == r.upTo
    decreases |frames|
  {
    var r := Peek(h, s, frames, limitOffset);
    if r.passed > 0 {
      assert frames[..r.passed][1..] == frames[1..][..r.passed - 1];
      if frames[0].pad {
        PeekReturnsLastEnd(h, s, frames[1..], limitOffset);
      } else if Continues(h(s, frames[0]).1) {
        PeekReturnsLastEnd(h, h(s, frames[0]).0, frames[1..], limitOffset);
      } else {
        assert frames[..1][1..] == [];
      }
    }
  }

  /** The offset in the term up to which frames may start. */
  function LimitOffset(termLength: nat, position: int, limitPosition: int): int
    requires termLength > 0
  {
    var reach := limitPosition - position + position % termLength;
    if reach < termLength then reach else termLength
  }

  /** It stands for the limit position: frames of the term start below the one exactly when they start
      below the other. */
  lemma LimitOffsetIsLimit(termLength: nat, position: int, limitPosition: int, offset: int)
    requires termLength > 0 && offset < termLength
    ensures offset < LimitOffset(termLength, position, limitPosition)
            <==> position - position % termLength + offset < limitPosition
  {
  }

  /** What a reader at `offset` of a term can see: these frames, then the end of the term or no length yet. */
  predicate Readable(cells: seq<int>, offset: int, frames: seq<Frame>) {
    && Holds(cells, frames) && Tiles(frames, offset)
    && var e := TilesEnd(frames, offset);
       e == |cells| || (0 <= e < |cells| && cells[e] <= 0)
  }

  /** One turn of a scan: the frame that stands at the front, and the rest behind it. */
  lemma ReadableStep(cells: seq<int>, offset: nat, frames: seq<Frame>)
    requires Readable(cells, offset, frames) && offset <= |cells|
    ensures offset < |cells| ==> (cells[offset] <= 0 <==> frames == [])
    ensures offset == |cells| ==> frames == []
    ensures frames != [] ==>
              && FrameAt(cells, offset) && Decode(cells, offset) == frames[0] && frames[0].offset == offset
              && cells[offset] == frames[0].length && (cells[offset + TYPE] == TYPE_PAD <==> frames[0].pad)
              && EndOf(frames[0]) == offset + Align(cells[offset]) <= |cells|
              && Readable(cells, EndOf(frames[0]), frames[1..])
  {
    if frames != [] {
      TilesWithin(frames, offset, 0);
      TilesSplit(frames, 1, offset);
      assert frames[..1] == [frames[0]];
    }
  }

  datatype PeekResult<S> = Peeked(position: int, state: S) | OutOfRange | NotAligned

  /** A subscriber's image of a publication: three term buffers and the position reached. */
  class Image {
    const termLength: nat
    const terms: seq<array<int>>
    var subscriberPosition: int
    var isClosed: bool

    ghost predicate Valid()
      reads this
    {
      && termLength > 0 && termLength % FRAME_ALIGNMENT == 0 && |terms| == PARTITION_COUNT
      && (forall p :: 0 <= p < PARTITION_COUNT ==> terms[p].Length == termLength)
      && 0 <= subscriberPosition
    }

    /** The frames a reader at `position` finds in memory. */
    ghost predicate Sees(position: int, frames: seq<Frame>)
      requires Valid()
      reads this, terms
    {
      0 <= position && Readable(terms[position / termLength % PARTITION_COUNT][..], position % termLength, frames)
    }

    constructor (terms: seq<array<int>>, termLength: nat, joinPosition: nat)
      requires termLength > 0 && termLength % FRAME_ALIGNMENT == 0 && |terms| == PARTITION_COUNT
      requires forall p :: 0 <= p < PARTITION_COUNT ==> terms[p].Length == termLength
      ensures Valid() && subscriberPosition == joinPosition && !isClosed && this.terms == terms
              && this.termLength == termLength
    {
      this.terms, this.termLength, subscriberPosition, isClosed := terms, termLength, joinPosition, false;
    }

    /** Where the term of a position begins in the stream. */
    function TermBegin(position: int): int
      requires termLength > 0
    {
      position - position % termLength
    }

    /** The loop that the polls share. `stored` lists what was written to the subscriber position, in order. If the
        handler throws and the exception handler that is called with it throws too, the poll is left at once. */
    method ScanTerm<S>(h: Handler<S>, s0: S, limitOffset: int, fragmentLimit: int, rethrows: bool,
                       ghost frames: seq<Frame>)
      returns (s: S, fragmentsRead: int, stored: seq<int>, escaped: bool, ghost scan: Scan<S>)
      requires Valid() && Sees(subscriberPosition, frames) && limitOffset <= termLength
      modifies this`subscriberPosition
      ensures scan == Poll(h, s0, frames, limitOffset, fragmentLimit) && s == scan.state
      ensures fragmentsRead == |Accepted(scan.calls)|
      ensures escaped <==> rethrows && Threw(scan.calls)
      ensures !escaped ==>
                subscriberPosition == old(TermBegin(subscriberPosition))
                                      + TilesEnd(frames[..scan.consumed], old(subscriberPosition) % termLength)
      ensures !escaped ==>
                Stored(stored, Commits(scan.calls, old(TermBegin(subscriberPosition))), old(subscriberPosition),
                       subscriberPosition)
      ensures escaped ==>
                && stored == Commits(scan.calls, old(TermBegin(subscriberPosition)))
                && old(subscriberPosition) <= subscriberPosition == LastCommit(stored, old(subscriberPosition))
                && subscriberPosition <= old(TermBegin(subscriberPosition)) + termLength
    {
      hide Poll, Readable, Accepted, Commits, Decode, FrameAt, Tiles, Holds, Join, TilesEnd, EndOf, Align;
      var initialPosition, initialOffset := subscriberPosition, subscriberPosition % termLength;
      var term := terms[subscriberPosition / termLength % PARTITION_COUNT];
      var offset: nat, stopped := initialOffset, false;
      ghost var base, done: nat, calls: seq<Call>, rest := TermBegin(subscriberPosition), 0, [], frames;
      s, fragmentsRead, stored, escaped := s0, 0, [], false;
      scan := Poll(h, s0, frames, limitOffset, fragmentLimit);
      NoCalls(base, scan, initialOffset);
      while !stopped && fragmentsRead < fragmentLimit && offset < limitOffset
        invariant offset <= termLength && initialPosition == base + initialOffset == subscriberPosition
                  && initialOffset <= offset
        invariant done <= |frames| && rest == frames[done..] && Readable(term[..], offset, rest)
        invariant offset == TilesEnd(frames[..done], old(subscriberPosition) % termLength)
        invariant !stopped ==> scan == Join(done, calls, Poll(h, s, rest, limitOffset, fragmentLimit - fragmentsRead))
        invariant stopped ==> scan == Scan(s, done, calls)
        invariant escaped <==> rethrows && Threw(calls)
        invariant Threw(calls) ==> stopped
        invariant fragmentsRead == |Accepted(calls)| && stored == Commits(calls, base)
        invariant old(subscriberPosition) <= initialPosition == LastCommit(stored, old(subscriberPosition))
        decreases termLength - offset, !stopped
      {
        ReadableStep(term[..], offset, rest);
        var length := term[offset];
        if length <= 0 {
          PollEnds(h, s, rest, limitOffset, fragmentLimit - fragmentsRead, done, calls);
          stopped := true;
        } else {
          ghost var frame := rest[0];
          var frameOffset, alignedLength := offset, Align(length);
          offset := offset + alignedLength;
          PollStep(h, s, rest, limitOffset, fragmentLimit - fragmentsRead, done, calls);
          Advance(frames, done, old(subscriberPosition) % termLength);
          if term[frameOffset + TYPE] == TYPE_PAD {
            rest, done := rest[1..], done + 1;
          } else {
            fragmentsRead := fragmentsRead + 1;
            var next := h(s, Decode(term[..], frameOffset));
            var action := next.1;
            s := next.0;
            OneMoreAccepted(calls, Call(frame, action));
            OneMoreCommit(calls, Call(frame, action), base);
            calls := calls + [Call(frame, action)];
            if action == ABORT {
              fragmentsRead, offset, stopped := fragmentsRead - 1, offset - alignedLength, true;
            } else {
              rest, done := rest[1..], done + 1;
              if action == COMMIT {
                initialPosition, initialOffset := initialPosition + (offset - initialOffset), offset;
                subscriberPosition := initialPosition;
                stored := stored + [initialPosition];
              }
              stopped, escaped := action == BREAK || action == THROW, action == THROW && rethrows;
            }
          }
        }
      }
      if !stopped {
        ReadableStep(term[..], offset, rest);
        PollEnds(h, s, rest, limitOffset, fragmentLimit - fragmentsRead, done, calls);
      }
      if escaped {
        return;
      }
      var resultingPosition := initialPosition + (offset - initialOffset);
      if resultingPosition > initialPosition {
        subscriberPosition := resultingPosition;
        stored := stored + [resultingPosition];
      }
    }

    /** controlledPoll: to the end of the term at most. */
    method ControlledPoll<S>(h: Handler<S>, s0: S, fragmentLimit: int, rethrows: bool, ghost frames: seq<Frame>)
      returns (s: S, fragmentsRead: int, stored: seq<int>, escaped: bool, ghost scan: Scan<S>)
      requires Valid() && Sees(subscriberPosition, frames)
      modifies this`subscriberPosition
      ensures Valid()
      ensures isClosed ==>
              s == s0 && fragmentsRead == 0 && stored == [] && subscriberPosition == old(subscriberPosition)
      ensures !isClosed ==>
                && scan == Poll(h, s0, frames, termLength, fragmentLimit)
                && (escaped <==> rethrows && Threw(scan.calls))
                && PollResult(old(subscriberPosition), subscriberPosition, frames, scan, s, fragmentsRead, stored,
                              escaped)
                && (StoppedBy(scan.calls) || |Accepted(scan.calls)| >= fragmentLimit || scan.consumed == |frames|)
    {
      if isClosed {
        return s0, 0, [], false, Scan(s0, 0, []);
      }
      PollUpToLimit(h, s0, frames, TermBegin(subscriberPosition) + termLength, fragmentLimit);
      FramesInTerm(terms[subscriberPosition / termLength % PARTITION_COUNT][..], subscriberPosition % termLength,
                   frames);
      s, fragmentsRead, stored, escaped, scan := ScanTerm(h, s0, termLength, fragmentLimit, rethrows, frames);
      NeverBack(frames, scan.consumed, old(subscriberPosition) % termLength);
    }

    /** boundedControlledPoll: frames that start below the limit position. */
    method BoundedControlledPoll<S>(h: Handler<S>, s0: S, limitPosition: int, fragmentLimit: int, rethrows: bool,
                                    ghost frames: seq<Frame>)
      returns (s: S, fragmentsRead: int, stored: seq<int>, escaped: bool, ghost scan: Scan<S>)
      requires Valid() && Sees(subscriberPosition, frames)
      modifies this`subscriberPosition
      ensures Valid()
      ensures isClosed || old(subscriberPosition) >= limitPosition ==>
                s == s0 && fragmentsRead == 0 && stored == [] && subscriberPosition == old(subscriberPosition)
      ensures !isClosed && old(subscriberPosition) < limitPosition ==>
                && scan == Poll(h, s0, frames, LimitOffset(termLength, old(subscriberPosition), limitPosition),
                                fragmentLimit)
                && (escaped <==> rethrows && Threw(scan.calls))
                && PollResult(old(subscriberPosition), subscriberPosition, frames, scan, s, fragmentsRead, stored,
                              escaped)
                && UpToLimit(old(subscriberPosition), limitPosition, frames, scan.consumed,
                             StoppedBy(scan.calls) || |Accepted(scan.calls)| >= fragmentLimit)
    {
      if isClosed || subscriberPosition >= limitPosition {
        return s0, 0, [], false, Scan(s0, 0, []);
      }
      PollUpToLimit(h, s0, frames, limitPosition, fragmentLimit);
      s, fragmentsRead, stored, escaped, scan :=
        ScanTerm(h, s0, LimitOffset(termLength, subscriberPosition, limitPosition), fragmentLimit, rethrows, frames);
      NeverBack(frames, scan.consumed, old(subscriberPosition) % termLength);
    }

    /** Frames that a bounded scan has gone over: all of them start below the limit position, and if nothing stopped it
        the next one does not, or there is none. */
    ghost predicate UpToLimit(position: int, limitPosition: int, frames: seq<Frame>, n: nat, stopped: bool)
      requires termLength > 0
    {
      && n <= |frames| && (forall i :: 0 <= i < n ==> TermBegin(position) + frames[i].offset < limitPosition)
      && (!stopped && n < |frames| ==> TermBegin(position) + frames[n].offset >= limitPosition)
    }

    lemma PollUpToLimit<S>(h: Handler<S>, s: S, frames: seq<Frame>, limitPosition: int, fragmentLimit: int)
      requires Valid() && Sees(subscriberPosition, frames)
      ensures var scan := Poll(h, s, frames, LimitOffset(termLength, subscriberPosition, limitPosition), fragmentLimit);
              UpToLimit(subscriberPosition, limitPosition, frames, scan.consumed,
                        StoppedBy(scan.calls) || |Accepted(scan.calls)| >= fragmentLimit)
    {
      hide Poll, Accepted, Decode, FrameAt, Holds, EndOf, LimitOffset;
      var position := subscriberPosition;
      var limitOffset := LimitOffset(termLength, position, limitPosition);
      var scan := Poll(h, s, frames, limitOffset, fragmentLimit);
      PollRunsOn(h, s, frames, limitOffset, fragmentLimit);
      PollAccounts(h, s, frames, limitOffset, fragmentLimit);
      FramesInTerm(terms[position / termLength % PARTITION_COUNT][..], position % termLength, frames);
      forall i | 0 <= i < |frames|
        ensures frames[i].offset < limitOffset <==> TermBegin(position) + frames[i].offset < limitPosition
      {
        LimitOffsetIsLimit(termLength, position, limitPosition, frames[i].offset);
      }
    }

    lemma PeekUpToLimit<S>(h: Handler<S>, s: S, frames: seq<Frame>, position: int, limitPosition: int)
      requires Valid() && Sees(position, frames)
      ensures var glance := Peek(h, s, frames, LimitOffset(termLength, position, limitPosition));
              UpToLimit(position, limitPosition, frames, glance.passed, StoppedBy(glance.calls))
    {
      hide Peek, Decode, FrameAt, Holds, EndOf, LimitOffset;
      var limitOffset := LimitOffset(termLength, position, limitPosition);
      PeekRunsOn(h, s, frames, limitOffset);
      FramesInTerm(terms[position / termLength % PARTITION_COUNT][..], position % termLength, frames);
      forall i | 0 <= i < |frames|
        ensures frames[i].offset < limitOffset <==> TermBegin(position) + frames[i].offset < limitPosition
      {
        LimitOffsetIsLimit(termLength, position, limitPosition, frames[i].offset);
      }
    }

    /** controlledPeek: scans without moving the subscriber. It may start between the subscriber position and the end of
        its term, on a frame boundary (validatePosition). */
    method ControlledPeek<S>(h: Handler<S>, s0: S, initialPosition: int, limitPosition: int, ghost frames: seq<Frame>)
      returns (result: PeekResult<S>)
      requires Valid()
      requires subscriberPosition <= initialPosition <= subscriberPosition - subscriberPosition % termLength
               + termLength
               ==> Sees(initialPosition, frames)
      ensures isClosed ==> result == Peeked(initialPosition, s0)
      ensures var termEnd := subscriberPosition - subscriberPosition % termLength + termLength;
              !isClosed ==>
                if initialPosition < subscriberPosition || initialPosition > termEnd then result == OutOfRange
                else if initialPosition % 32 != 0 then result == NotAligned
                else if initialPosition >= limitPosition then result == Peeked(initialPosition, s0)
                else
                  var glance := Peek(h, s0, frames, LimitOffset(termLength, initialPosition, limitPosition));
                  && result == Peeked(initialPosition - initialPosition % termLength
                                      + TilesEnd(frames[..glance.upTo], initialPosition % termLength), glance.state)
                  && UpToLimit(initialPosition, limitPosition, frames, glance.passed, StoppedBy(glance.calls))
    {
      if isClosed {
        return Peeked(initialPosition, s0);
      }
      var termEnd := subscriberPosition - subscriberPosition % termLength + termLength;
      if initialPosition < subscriberPosition || initialPosition > termEnd {
        return OutOfRange;
      }
      if initialPosition % FRAME_ALIGNMENT != 0 {
        return NotAligned;
      }
      if initialPosition >= limitPosition {
        return Peeked(initialPosition, s0);
      }
      PeekUpToLimit(h, s0, frames, initialPosition, limitPosition);
      var s, position := PeekTerm(h, s0, initialPosition, LimitOffset(termLength, initialPosition, limitPosition),
                                  frames);
      return Peeked(position, s);
    }

    /** The loop of controlledPeek. */
    method PeekTerm<S>(h: Handler<S>, s0: S, initialPosition: int, limitOffset: int, ghost frames: seq<Frame>)
      returns (s: S, resultingPosition: int)
      requires Valid() && Sees(initialPosition, frames) && limitOffset <= termLength
      ensures var glance := Peek(h, s0, frames, limitOffset);
              && s == glance.state
              && resultingPosition == TermBegin(initialPosition)
              + TilesEnd(frames[..glance.upTo], initialPosition % termLength)
    {
      hide Peek, Readable, Decode, FrameAt, Tiles, Holds, TilesEnd, EndOf, Align;
      var term := terms[initialPosition / termLength % PARTITION_COUNT];
      var offset: nat, initialOffset, position := initialPosition % termLength, initialPosition % termLength,
          initialPosition;
      ghost var base, done: nat, up: nat, rest := TermBegin(initialPosition), 0, 0, frames;
      ghost var calls: seq<Call> := [];
      ghost var glance := Peek(h, s0, frames, limitOffset);
      s, resultingPosition := s0, initialPosition;
      NothingTiled(initialOffset);
      var stopped := false;
      while !stopped && offset < limitOffset
        invariant offset <= termLength && (!stopped ==> initialOffset == offset && position == base + offset)
        invariant up <= done <= |frames| && rest == frames[done..] && (!stopped ==> Readable(term[..], offset, rest))
        invariant resultingPosition == base + TilesEnd(frames[..up], initialPosition % termLength)
        invariant !stopped ==>
                    glance == Behind(done, up, calls, Peek(h, s, rest, limitOffset))
        invariant stopped ==> glance == Glance(s, up, done, calls)
        decreases termLength - offset, !stopped
      {
        ReadableStep(term[..], offset, rest);
        var length := term[offset];
        if length <= 0 {
          PeekEnds(h, s, rest, limitOffset, done, up, calls);
          stopped := true;
        } else {
          var frameOffset := offset;
          offset := offset + Align(length);
          PeekStep(h, s, rest, limitOffset, done, up, calls);
          Advance(frames, done, initialPosition % termLength);
          if term[frameOffset + TYPE] == TYPE_PAD {
            position, initialOffset := position + (offset - initialOffset), offset;
            resultingPosition := position;
            rest, done, up := rest[1..], done + 1, done + 1;
          } else {
            var frame := Decode(term[..], frameOffset);
            var next := h(s, frame);
            s := next.0;
            calls := calls + [Call(frame, next.1)];
            if next.1 == ABORT || next.1 == THROW {
              stopped := true;
            } else {
              position, initialOffset := position + (offset - initialOffset), offset;
              rest, done := rest[1..], done + 1;
              if frame.end {
                resultingPosition, up := position, done;
              }
              stopped := next.1 == BREAK;
            }
          }
        }
      }
      if !stopped {
        ReadableStep(term[..], offset, rest);
        PeekEnds(h, s, rest, limitOffset, done, up, calls);
      }
    }

    /** The position is moved over exactly the consumed frames, the count is the accepted data frames, and what was
        stored are the commits and the end. */
    ghost predicate PollResult<S>(before: int, after: int, frames: seq<Frame>, scan: Scan<S>, s: S, fragmentsRead: int,
                                  stored: seq<int>, escaped: bool)
      requires termLength > 0
    {
      && s == scan.state && scan.consumed <= |frames|
      && before <= after <= TermBegin(before) + termLength
      && fragmentsRead == |Accepted(scan.calls)|
      && var commits := Commits(scan.calls, TermBegin(before));
         if escaped then stored == commits && after == LastCommit(commits, before)
         else
           && after == TermBegin(before) + TilesEnd(frames[..scan.consumed], before % termLength)
           && Stored(stored, commits, before, after)
    }
  }

  function LastCommit(commits: seq<int>, before: int): int {
    if commits == [] then before else commits[|commits| - 1]
  }

  /** What a poll stores: the committed positions, then its end if that is further on. */
  predicate Stored(stored: seq<int>, commits: seq<int>, before: int, after: int) {
    var last := LastCommit(commits, before);
    after >= last && stored == if after > last then commits + [after] else commits
  }

  /** Moving over one more of the frames. */
  lemma Advance(frames: seq<Frame>, done: nat, o: int)
    requires done < |frames|
    ensures frames[done + 1..] == frames[done..][1..] && frames[done..][0] == frames[done]
    ensures TilesEnd(frames[..done + 1], o) == EndOf(frames[done])
  {
  }

  lemma NeverBack(frames: seq<Frame>, k: nat, o: int)
    requires Tiles(frames, o) && k <= |frames|
    ensures o <= TilesEnd(frames[..k], o) <= TilesEnd(frames, o)
  {
    if k > 0 {
      TilesWithin(frames, o, k - 1);
    }
    if frames != [] {
      TilesWithin(frames, o, 0);
    }
  }

  lemma NothingTiled(o: int)
    ensures TilesEnd([], o) == o
  {
  }

  /** A peek cut in two: `done` frames passed, `up` of them behind the position, and `calls` first, then the rest. */
  function Behind<S>(done: nat, up: nat, calls: seq<Call>, r: Glance<S>): Glance<S> {
    Glance(r.state, if r.upTo > 0 then done + r.upTo else up, done + r.passed, calls + r.calls)
  }

  lemma PeekEnds<S>(h: Handler<S>, s: S, rest: seq<Frame>, limitOffset: int, done: nat, up: nat, calls: seq<Call>)
    requires rest == [] || rest[0].offset >= limitOffset
    ensures Behind(done, up, calls, Peek(h, s, rest, limitOffset)) == Glance(s, up, done, calls)
  {
  }

  /** One turn of the peek loop. */
  lemma PeekStep<S>(h: Handler<S>, s: S, rest: seq<Frame>, limitOffset: int, done: nat, up: nat, calls: seq<Call>)
    requires rest != [] && rest[0].offset < limitOffset
    ensures Behind(done, up, calls, Peek(h, s, rest, limitOffset)) ==
              var next, more := h(s, rest[0]), calls + [Call(rest[0], h(s, rest[0]).1)];
              var here := if rest[0].end then done + 1 else up;
              if rest[0].pad then Behind(done + 1, done + 1, calls, Peek(h, s, rest[1..], limitOffset))
              else if next.1 == ABORT || next.1 == THROW then Glance(next.0, up, done, more)
              else if next.1 == BREAK then Glance(next.0, here, done + 1, more)
              else Behind(done + 1, here, more, Peek(h, next.0, rest[1..], limitOffset))
  {
    if !rest[0].pad && Continues(h(s, rest[0]).1) {
      Associate(calls, [Call(rest[0], h(s, rest[0]).1)], Peek(h, h(s, rest[0]).0, rest[1..], limitOffset).calls);
    }
  }

  /** Frames that can be read start inside the term. */
  lemma FramesInTerm(cells: seq<int>, offset: int, frames: seq<Frame>)
    requires Readable(cells, offset, frames)
    ensures forall i :: 0 <= i < |frames| ==> frames[i].offset < |cells|
  {
    hide Holds;
    forall i | 0 <= i < |frames|
      ensures frames[i].offset < |cells|
    {
      TilesWithin(frames, offset, i);
    }
  }

  lemma NoCalls<S>(base: int, r: Scan<S>, o: int)
    ensures TilesEnd([], o) == o
    ensures Accepted([]) == [] && Commits([], base) == [] && Join(0, [], r) == r
  {
  }

  lemma PollEnds<S>(h: Handler<S>, s: S, rest: seq<Frame>, limitOffset: int, left: int, done: nat, calls: seq<Call>)
    requires rest == [] || left <= 0 || rest[0].offset >= limitOffset
    ensures Join(done, calls, Poll(h, s, rest, limitOffset, left)) == Scan(s, done, calls)
  {
  }
}
