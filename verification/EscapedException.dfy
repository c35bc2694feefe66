/**
 Exceptions of the delegate that also leave the exception handler: the poll is left without storing its position, so
 frames the assembler has seen come again. For any poll over a legal stream, what comes again of the message thrown
 on and of those before it.
 */
module EscapedExceptions {
  import opened Framing
  import opened BufferBuilders
  import opened Images
  import opened Assembly
  import opened Deliveries

  /** How many frames are behind the position such a poll leaves: those up to the last one answered COMMIT. */
  function Kept<S>(h: Handler<S>, s: S, frames: seq<Frame>, limitOffset: int, limit: int): nat
    decreases |frames|
  {
    if frames == [] || limit <= 0 || frames[0].offset >= limitOffset then 0
    else if frames[0].pad then OneMore(Kept(h, s, frames[1..], limitOffset, limit), false)
    else
      var (s', action) := h(s, frames[0]);
      if Continues(action) then OneMore(Kept(h, s', frames[1..], limitOffset, limit - 1), action == COMMIT) else 0
  }

  function OneMore(later: nat, committed: bool): nat {
    if later > 0 then later + 1 else if committed then 1 else 0
  }

  lemma CommitsAfter(c: Call, more: seq<Call>, termBegin: int)
    ensures Commits([c] + more, termBegin)
            == (if c.action == COMMIT then [termBegin + EndOf(c.frame)] else []) + Commits(more, termBegin)
  {
    assert ([c] + more)[1..] == more;
  }

  /** So many frames are behind the last COMMIT among the calls. */
  predicate Behind(frames: seq<Frame>, kept: nat, calls: seq<Call>, termBegin: int) {
    && kept <= |frames| && (kept == 0 <==> Commits(calls, termBegin) == [])
    && (kept > 0 ==> LastCommit(Commits(calls, termBegin), termBegin) == termBegin + EndOf(frames[kept - 1]))
  }

  lemma BehindAfter(frames: seq<Frame>, kept: nat, c: Call, more: seq<Call>, termBegin: int)
    requires frames != [] && c.frame == frames[0] && Behind(frames[1..], kept, more, termBegin)
    ensures Behind(frames, OneMore(kept, c.action == COMMIT), [c] + more, termBegin)
  {
    CommitsAfter(c, more, termBegin);
    hide Commits, EndOf;
    assert kept > 0 ==> frames[1..][kept - 1] == frames[kept];
  }

  /** It is the position that the loop on memory leaves. */
  lemma {:induction false} KeptIsLastCommit<S>(h: Handler<S>, s: S, frames: seq<Frame>, limitOffset: int, limit: int,
                                               termBegin: int)
    ensures var scan, kept := Poll(h, s, frames, limitOffset, limit), Kept(h, s, frames, limitOffset, limit);
            kept <= scan.consumed && Behind(frames, kept, scan.calls, termBegin)
    decreases |frames|
  {
    if frames == [] || limit <= 0 || frames[0].offset >= limitOffset {
    } else if frames[0].pad {
      KeptIsLastCommit(h, s, frames[1..], limitOffset, limit, termBegin);
    } else if Continues(h(s, frames[0]).1) {
      var more := Poll(h, h(s, frames[0]).0, frames[1..], limitOffset, limit - 1);
      var call := Call(frames[0], h(s, frames[0]).1);
      assert Poll(h, s, frames, limitOffset, limit) == Scan(more.state, more.consumed + 1, [call] + more.calls);
      KeptIsLastCommit(h, h(s, frames[0]).0, frames[1..], limitOffset, limit - 1, termBegin);
      hide Poll, Behind;
      BehindAfter(frames, Kept(h, h(s, frames[0]).0, frames[1..], limitOffset, limit - 1), call, more.calls, termBegin);
    } else {
      var call := Call(frames[0], h(s, frames[0]).1);
      assert Poll(h, s, frames, limitOffset, limit).calls == [call] + [];
      CommitsAfter(call, [], termBegin);
    }
  }

  /** No frame makes the assembler itself throw. */
  predicate Undisturbed(a: Asm, frames: seq<Frame>) {
    frames == [] ||
    (Undisturbed(a, frames[..|frames| - 1]) && Accepts(Deliver(a, frames[..|frames| - 1]).0, frames[|frames| - 1]))
  }

  predicate Accepts(a: Asm, f: Frame) { f.pad || Step(a, f, CONTINUE).action == CONTINUE }

  lemma {:induction false} UndisturbedFirst(a: Asm, f: Frame, more: seq<Frame>)
    requires Accepts(a, f) && Undisturbed(Deliver(a, [f]).0, more)
    ensures Undisturbed(a, [f] + more)
    decreases |more|
  {
    hide Deliver, Accepts;
    var all := [f] + more;
    if more == [] {
      DeliverNothing(a);
      assert all[..0] == [];
      assert Undisturbed(a, []);
    } else {
      var front := more[..|more| - 1];
      UndisturbedFirst(a, f, front);
      DeliverAppend(a, [f], front);
      assert all[..|all| - 1] == [f] + front;
    }
  }

  /** The delegate has been called and threw in its last call. */
  predicate DelegateThrew(before: seq<Delivery>, after: seq<Delivery>) {
    |after| > |before| && after[|after| - 1].answer == THROW
  }

  /** A poll that ends in an exception, seen from the assembler: it has read the frames before the last as if they had
      been answered CONTINUE, and the last one with THROW. */
  ghost predicate ThrewAfter(r: Reader, scan: Scan<Reader>, frames: seq<Frame>) {
    && 0 < scan.consumed <= |frames| && r.calls <= scan.state.calls
    && var read, f := frames[..scan.consumed - 1], frames[scan.consumed - 1];
       && !f.pad && Undisturbed(r.asm, read)
       && scan.state.asm == Step(Deliver(r.asm, read).0, f, THROW).asm
       && (DelegateThrew(r.calls, scan.state.calls) ==>
             Message(Deliver(r.asm, read).0, f) == Some(scan.state.calls[|scan.state.calls| - 1].message))
  }

  lemma ThrewFirst(r: Reader, delegate: Delegate, frames: seq<Frame>, scan: Scan<Reader>)
    requires frames != [] && !frames[0].pad && ReaderStep(delegate, r, frames[0]).1 == THROW
    requires scan.state == ReaderStep(delegate, r, frames[0]).0 && scan.consumed == 1
    ensures ThrewAfter(r, scan, frames)
  {
    DeliverNothing(r.asm);
    assert frames[..0] == [];
    assert Undisturbed(r.asm, []);
  }

  /** One frame before the others. */
  lemma ThrewLater(r: Reader, r': Reader, frames: seq<Frame>, later: Scan<Reader>, scan: Scan<Reader>)
    requires frames != [] && ThrewAfter(r', later, frames[1..]) && scan.state == later.state
    requires scan.consumed == later.consumed + 1
    requires Accepts(r.asm, frames[0]) && r'.asm == Deliver(r.asm, [frames[0]]).0
    requires r'.calls == r.calls || exists d: Delivery :: d.answer != THROW && r'.calls == r.calls + [d]
    ensures ThrewAfter(r, scan, frames)
  {
    hide Deliver, Step, Message, Accepts, Undisturbed;
    var read, f := frames[1..][..later.consumed - 1], frames[0];
    assert frames[..scan.consumed - 1] == [f] + read;
    UndisturbedFirst(r.asm, f, read);
    DeliverAppend(r.asm, [f], read);
    assert frames[1..][later.consumed - 1] == frames[scan.consumed - 1];
  }

  /** What the reader makes of a frame that does not stop the poll. */
  lemma ReaderGoesOn(delegate: Delegate, r: Reader, f: Frame)
    requires !f.pad && Continues(ReaderStep(delegate, r, f).1)
    ensures var (r', action) := ReaderStep(delegate, r, f);
            && Accepts(r.asm, f) && r'.asm == Deliver(r.asm, [f]).0
            && (r'.calls == r.calls || exists d: Delivery :: d.answer != THROW && r'.calls == r.calls + [d])
            && (action == COMMIT ==> f.end)
  {
    DeliverNothing(r.asm);
    assert [f][..0] == [];
    var m := Message(r.asm, f);
    if m.Some? {
      assert Delivery(m.value, delegate(|r.calls|, m.value)).answer != THROW;
    }
  }

  lemma {:induction false} PollThrew(delegate: Delegate, r: Reader, frames: seq<Frame>, limitOffset: int, limit: int)
    requires Threw(Poll(HandlerOf(delegate), r, frames, limitOffset, limit).calls)
    ensures var scan := Poll(HandlerOf(delegate), r, frames, limitOffset, limit);
            var kept := Kept(HandlerOf(delegate), r, frames, limitOffset, limit);
            && ThrewAfter(r, scan, frames) && kept < scan.consumed
            && (kept > 0 ==> !frames[kept - 1].pad && frames[kept - 1].end)
    decreases |frames|
  {
    hide ThrewAfter, Accepts, Deliver, ReaderStep;
    var h := HandlerOf(delegate);
    var scan := Poll(h, r, frames, limitOffset, limit);
    if frames[0].pad {
      PollThrew(delegate, r, frames[1..], limitOffset, limit);
      PadAccepted(r.asm, frames[0]);
      ThrewLater(r, r, frames, Poll(h, r, frames[1..], limitOffset, limit), scan);
    } else {
      var (r', action) := h(r, frames[0]);
      assert ReaderStep(delegate, r, frames[0]) == (r', action);
      if Continues(action) {
        var more := Poll(h, r', frames[1..], limitOffset, limit - 1);
        assert scan == Scan(more.state, more.consumed + 1, [Call(frames[0], action)] + more.calls);
        assert more.calls != [] && scan.calls[|scan.calls| - 1] == more.calls[|more.calls| - 1];
        PollThrew(delegate, r', frames[1..], limitOffset, limit - 1);
        ReaderGoesOn(delegate, r, frames[0]);
        ThrewLater(r, r', frames, more, scan);
      } else {
        ThrewFirst(r, delegate, frames, scan);
      }
    }
  }

  lemma PadAccepted(a: Asm, f: Frame)
    requires f.pad
    ensures Accepts(a, f) && a == Deliver(a, [f]).0
  {
    assert [f][..0] == [];
  }

  /** Where the last message of a stream begins, or -1 if it began before. */
  function LastBegin(frames: seq<Frame>): (i: int)
    ensures -1 <= i < |frames|
  {
    if frames == [] then -1
    else if !frames[|frames| - 1].pad && frames[|frames| - 1].begin then |frames| - 1
    else LastBegin(frames[..|frames| - 1])
  }

  lemma {:induction false} LastBeginLater(x: seq<Frame>, y: seq<Frame>)
    ensures LastBegin(x + y) == if LastBegin(y) >= 0 then |x| + LastBegin(y) else LastBegin(x)
    decreases |y|
  {
    if y == [] {
      assert x + y == x;
    } else {
      LastBeginLater(x, y[..|y| - 1]);
      assert (x + y)[..|x + y| - 1] == x + y[..|y| - 1];
    }
  }

  /** Inside a message that a legal stream has opened. */
  lemma {:induction false} OpenedHere(frames: seq<Frame>)
    requires Legal(frames, false) && EndsOpen(frames, false)
    ensures LastBegin(frames) >= 0
    decreases |frames|
  {
    if frames != [] {
      hide EndsOpen, Legal;
      var front, f := frames[..|frames| - 1], frames[|frames| - 1];
      LastOfLegal(frames, false);
      if EndsOpen(front, false) {
        OpenedHere(front);
      }
    } else {
      EmptyEndsClosed();
    }
  }

  lemma LastOfLegal(frames: seq<Frame>, open: bool)
    requires frames != [] && Legal(frames, open)
    ensures var front, f := frames[..|frames| - 1], frames[|frames| - 1];
            && Legal(front, open) && EndsOpen(frames, open) == (!f.pad && !f.end)
            && (if f.pad then !EndsOpen(front, open) else f.begin == !EndsOpen(front, open))
  {
    var front, f := frames[..|frames| - 1], frames[|frames| - 1];
    LegalSplit(frames, |frames| - 1, open);
    assert frames[|frames| - 1..] == [f] && frames == front + [f];
    EndsOpenOne(front, f, open);
  }

  /** Frames of one message that is not begun here. */
  predicate NoneBegins(frames: seq<Frame>) {
    forall i :: 0 <= i < |frames| ==> !frames[i].pad && !frames[i].begin && frames[i].offset >= 0
  }

  lemma {:induction false} NothingBegun(frames: seq<Frame>)
    requires NoneBegins(frames)
    ensures LastBegin(frames) == -1 && Deliver(IDLE, frames) == (IDLE, [])
    decreases |frames|
  {
    if frames != [] {
      NothingBegun(frames[..|frames| - 1]);
    }
  }

  /** They are dropped by an assembler that expects another fragment than the first of them. */
  lemma DroppedFrom(a: Asm, frames: seq<Frame>)
    requires NoneBegins(frames) && frames != [] && a.next != frames[0].offset
    ensures Deliver(a, frames) == (IDLE, [])
  {
    var first, more := [frames[0]], frames[1..];
    assert frames == first + more;
    DeliverNothing(a);
    assert first[..0] == [];
    assert Deliver(a, first) == (IDLE, []);
    DeliverAppend(a, first, more);
    NothingBegun(more);
  }

  /** The end of the message that is open at the start. */
  function FirstEnd(frames: seq<Frame>): nat {
    if frames == [] || frames[0].end then 0 else FirstEnd(frames[1..]) + 1
  }

  ghost predicate EndsAt(frames: seq<Frame>, e: nat) {
    && e < |frames| && frames[e].end && NoneBegins(frames[..e + 1]) && (forall i :: 0 <= i < e ==> !frames[i].end)
    && Legal(frames[e + 1..], false) && !EndsOpen(frames[..e + 1], true)
  }

  lemma EndsAtLater(frames: seq<Frame>, e: nat)
    requires frames != [] && EndsAt(frames[1..], e)
    requires !frames[0].pad && !frames[0].begin && !frames[0].end && frames[0].offset >= 0
    ensures EndsAt(frames, e + 1)
  {
    assert frames[1..][e + 1..] == frames[e + 2..];
    assert frames[..e + 2] == [frames[0]] + frames[1..][..e + 1];
    assert frames[..e + 2][1..] == frames[1..][..e + 1];
    assert EndsOpen(frames[..e + 2], true) == EndsOpen(frames[1..][..e + 1], true);
    hide Legal, EndsOpen;
    forall i | 0 <= i <= e
      ensures !frames[i].end
    {
      assert i > 0 ==> frames[i] == frames[1..][i - 1];
    }
  }

  lemma {:induction false} RestOfMessage(frames: seq<Frame>)
    requires Legal(frames, true) && frames != [] && frames[|frames| - 1].end
    requires forall i :: 0 <= i < |frames| ==> frames[i].offset >= 0
    ensures EndsAt(frames, FirstEnd(frames))
    decreases |frames|
  {
    if frames[0].end {
      assert frames[..1] == [frames[0]] && frames[..1][1..] == [];
      assert frames[..1][0] == frames[0];
      assert !EndsOpen(frames[..1], true) && NoneBegins(frames[..1]);
      assert EndsAt(frames, 0);
    } else {
      RestOfMessage(frames[1..]);
      hide EndsAt;
      EndsAtLater(frames, FirstEnd(frames[1..]));
    }
  }

  /** It is handed over once at most. */
  lemma {:induction false} OneMessageAtMost(a: Asm, frames: seq<Frame>)
    requires NoneBegins(frames) && forall i :: 0 <= i < |frames| - 1 ==> !frames[i].end
    ensures |Deliver(a, frames).1| <= 1
    ensures frames == [] || !frames[|frames| - 1].end ==> Deliver(a, frames).1 == []
    decreases |frames|
  {
    if frames != [] {
      OneMessageAtMost(a, frames[..|frames| - 1]);
    }
  }

  /** Behind a message that was open at the start the assembler holds nothing between messages. */
  lemma {:induction false} IdleBetween(a: Asm, frames: seq<Frame>)
    requires Legal(frames, true) && !EndsOpen(frames, true) && Undisturbed(a, frames)
    ensures Deliver(a, frames).0 == IDLE
    decreases |frames|
  {
    if frames != [] {
      hide Legal, EndsOpen;
      LastOfLegal(frames, true);
      var front := frames[..|frames| - 1];
      if !EndsOpen(front, true) {
        IdleBetween(a, front);
      }
    }
  }

  /** What the poll has read, the last frame with THROW, and what comes again of it from frame `kept` on. */
  function Again(a: Asm, frames: seq<Frame>, kept: nat): seq<seq<int>>
    requires kept <= |frames| && frames != []
  {
    Deliver(Step(Deliver(a, frames[..|frames| - 1]).0, frames[|frames| - 1], THROW).asm, frames[kept..]).1
  }

  /** A message with its last bytes doubled, if it still fits the buffer. */
  function OnceMore(message: seq<int>, last: seq<int>): seq<seq<int>> {
    if |message| + |last| <= MAX_CAPACITY then [message + last] else []
  }

  predicate ComesLast(messages: seq<seq<int>>, message: seq<int>) {
    messages != [] && messages[|messages| - 1] == message
  }

  /** Frames of a term as a poll reads them: end to end, and no fragment empty. */
  ghost predicate AsRead(frames: seq<Frame>, offset: nat) {
    && Tiles(frames, offset)
    && forall i :: 0 <= i < |frames| ==> frames[i].offset >= 0 && (frames[i].Unfragmented() || frames[i].payload != [])
  }

  /** The end of a stretch that ends in a message. */
  lemma EndsInMessage(b: Asm, frames: seq<Frame>, message: seq<int>)
    requires frames != [] && !frames[|frames| - 1].pad
    requires Message(Deliver(b, frames[..|frames| - 1]).0, frames[|frames| - 1]) == Some(message)
    ensures ComesLast(Deliver(b, frames).1, message)
  {
    DeliverOne(b, frames[..|frames| - 1], frames[|frames| - 1]);
    assert frames == frames[..|frames| - 1] + [frames[|frames| - 1]];
  }

  /** From a message boundary on everything comes again. */
  lemma AgainFromBoundary(a: Asm, a': Asm, frames: seq<Frame>, k: nat, message: seq<int>)
    requires k < |frames| && Legal(frames[k..], false) && !frames[|frames| - 1].pad && frames[|frames| - 1].end
    requires Message(Deliver(a, frames[..|frames| - 1]).0, frames[|frames| - 1]) == Some(message)
    ensures ComesLast(Deliver(a', frames[k..]).1, message) && k <= LastBegin(frames)
    ensures Deliver(a, frames).1 == Deliver(a, frames[..k]).1 + Deliver(a', frames[k..]).1
  {
    hide Deliver, Legal, Message, EndsOpen, LastBegin;
    var y, b, n := frames[k..], Deliver(a, frames[..k]).0, |frames|;
    assert frames == frames[..k] + y;
    DeliverAppend(a, frames[..k], y);
    LegalDelivers(a', b, y);
    assert frames[..n - 1] == frames[..k] + y[..|y| - 1] && y[|y| - 1] == frames[n - 1];
    DeliverAppend(a, frames[..k], y[..|y| - 1]);
    EndsInMessage(b, y, message);
    LastBeginLater(frames[..k], y);
    BegunHere(y);
  }

  lemma BegunHere(frames: seq<Frame>)
    requires frames != [] && Legal(frames, false) && !frames[|frames| - 1].pad
    ensures LastBegin(frames) >= 0
  {
    hide Legal, EndsOpen;
    LastOfLegal(frames, false);
    if !frames[|frames| - 1].begin {
      OpenedHere(frames[..|frames| - 1]);
    }
  }

  /** The assembler after a throw behind an open message does not expect the fragments of that message again. */
  lemma NotExpected(a: Asm, frames: seq<Frame>, e: nat, offset: nat)
    requires Legal(frames, true) && AsRead(frames, offset) && e < |frames| - 1 && frames[|frames| - 1].end
    requires !frames[|frames| - 1].pad && Undisturbed(a, frames[..|frames| - 1])
    requires Message(Deliver(a, frames[..|frames| - 1]).0, frames[|frames| - 1]).Some?
    ensures Step(Deliver(a, frames[..|frames| - 1]).0, frames[|frames| - 1], THROW).asm.next != frames[0].offset
  {
    hide Legal, Deliver, EndsOpen, Tiles, EndOf;
    var read, f := frames[..|frames| - 1], frames[|frames| - 1];
    LastOfLegal(frames, true);
    if f.Unfragmented() {
      IdleBetween(a, read);
    } else {
      TilesOrdered(frames, offset, 0, |frames| - 1);
      LaterStart(frames[0], offset, frames);
    }
  }

  lemma LaterStart(f: Frame, offset: nat, frames: seq<Frame>)
    requires frames != [] && f == frames[0] && Tiles(frames, offset)
    ensures EndOf(f) > f.offset
  {
  }

  /** The rest of the message that was open when the poll began is not delivered again, unless it is a
      single fragment. */
  lemma AgainFromInside(a: Asm, frames: seq<Frame>, offset: nat, message: seq<int>)
    requires frames != [] && Legal(frames, true) && AsRead(frames, offset)
    requires frames[|frames| - 1].end && !frames[|frames| - 1].pad && Undisturbed(a, frames[..|frames| - 1])
    requires Message(Deliver(a, frames[..|frames| - 1]).0, frames[|frames| - 1]) == Some(message)
    ensures var again, begun := Again(a, frames, 0), LastBegin(frames);
            && (begun >= 0 <==> ComesLast(again, message))
            && (begun >= 0 ==> exists rest: seq<seq<int>> :: |rest| <= 1 && Deliver(a, frames).1 == rest + again)
            && (begun < 0 && |frames| > 1 ==> again == [])
            && (begun < 0 && |frames| == 1 ==>
                  again == OnceMore(message, frames[0].payload))
  {
    var e := FirstEnd(frames);
    RestOfMessage(frames);
    hide Legal, Deliver, EndsOpen, Step, Message, LastBegin, AsRead, Undisturbed, Again;
    if e < |frames| - 1 {
      AgainBehind(a, frames, e, offset, message);
      var rest := Deliver(a, frames[..e + 1]).1;
      assert |rest| <= 1 && Deliver(a, frames).1 == rest + Again(a, frames, 0);
    } else {
      assert frames[..e + 1] == frames;
      NothingBegun(frames);
      ThrownInside(a, frames, offset, message);
    }
  }

  /** The message thrown on began behind the one that was open. */
  lemma AgainBehind(a: Asm, frames: seq<Frame>, e: nat, offset: nat, message: seq<int>)
    requires e < |frames| - 1 && Legal(frames, true) && AsRead(frames, offset)
    requires NoneBegins(frames[..e + 1]) && (forall i :: 0 <= i < e ==> !frames[i].end) && Legal(frames[e + 1..], false)
    requires frames[|frames| - 1].end && !frames[|frames| - 1].pad && Undisturbed(a, frames[..|frames| - 1])
    requires Message(Deliver(a, frames[..|frames| - 1]).0, frames[|frames| - 1]) == Some(message)
    ensures ComesLast(Again(a, frames, 0), message) && LastBegin(frames) >= 0
    ensures |Deliver(a, frames[..e + 1]).1| <= 1
    ensures Deliver(a, frames).1 == Deliver(a, frames[..e + 1]).1 + Again(a, frames, 0)
  {
    hide Legal, Deliver, EndsOpen, Step, Message, LastBegin, AsRead, Undisturbed;
    var a' := Step(Deliver(a, frames[..|frames| - 1]).0, frames[|frames| - 1], THROW).asm;
    NotExpected(a, frames, e, offset);
    DroppedFrom(a', frames[..e + 1]);
    assert frames[0..] == frames == frames[..e + 1] + frames[e + 1..];
    DeliverAppend(a', frames[..e + 1], frames[e + 1..]);
    AgainFromBoundary(a, IDLE, frames, e + 1, message);
    OneMessageAtMost(a, frames[..e + 1]);
  }

  lemma ThrownInside(a: Asm, frames: seq<Frame>, offset: nat, message: seq<int>)
    requires frames != [] && NoneBegins(frames) && AsRead(frames, offset) && frames[|frames| - 1].end
    requires Message(Deliver(a, frames[..|frames| - 1]).0, frames[|frames| - 1]) == Some(message)
    ensures var again := Again(a, frames, 0);
            && !ComesLast(again, message)
            && (|frames| > 1 ==> again == [])
            && (|frames| == 1 ==>
                  again == OnceMore(message, frames[0].payload))
  {
    hide Deliver, Tiles, EndOf;
    var n := |frames|;
    var b := Deliver(a, frames[..n - 1]).0;
    var a' := Step(b, frames[n - 1], THROW).asm;
    assert a' == Asm(frames[n - 1].offset, message);
    assert frames[0..] == frames;
    if n > 1 {
      TilesOrdered(frames, offset, 0, n - 1);
      LaterStart(frames[0], offset, frames);
      DroppedFrom(a', frames);
    } else {
      DeliverOne(a', [], frames[0]);
      DeliverNothing(a');
      assert [] + [frames[0]] == frames;
    }
  }

  /** What comes again of the frames read, after those consumed before. */
  ghost predicate ComesAgain(consumed: seq<Frame>, frames: seq<Frame>, kept: nat, again: seq<seq<int>>,
                             message: seq<int>)
    requires kept < |frames|
  {
    var begun, before := LastBegin(frames), Deliver(IDLE, consumed + frames[..kept]).1;
    && (kept <= begun <==> ComesLast(again, message))
    && (kept <= begun ==>
          exists rest: seq<seq<int>> ::
            && Deliver(IDLE, consumed + frames).1 == before + rest + again
            && |rest| <= if EndsOpen(consumed + frames[..kept], false) then 1 else 0)
    && (kept > begun && |frames| > 1 ==> again == [])
    && (kept > begun && |frames| == 1 ==>
          again == OnceMore(message, frames[0].payload))
  }

  /** What frames deliver behind those consumed is what they deliver to an assembler that is caught up. */
  lemma DeliverBehind(a: Asm, consumed: seq<Frame>, frames: seq<Frame>)
    requires Legal(frames, EndsOpen(consumed, false)) && (EndsOpen(consumed, false) ==> a == Deliver(IDLE, consumed).0)
    ensures Deliver(IDLE, consumed + frames).1 == Deliver(IDLE, consumed).1 + Deliver(a, frames).1
  {
    hide Deliver, Legal, EndsOpen;
    DeliverAppend(IDLE, consumed, frames);
    if !EndsOpen(consumed, false) {
      LegalDelivers(a, Deliver(IDLE, consumed).0, frames);
    }
  }

  /** A position behind a COMMIT, or at the start, in a stream that is not open there. */
  lemma FromBoundary(a: Asm, a': Asm, consumed: seq<Frame>, frames: seq<Frame>, kept: nat, message: seq<int>)
    requires kept < |frames| && Legal(frames, EndsOpen(consumed, false)) && !frames[|frames| - 1].pad
    requires EndsOpen(consumed, false) ==> a == Deliver(IDLE, consumed).0
    requires frames[|frames| - 1].end
    requires Message(Deliver(a, frames[..|frames| - 1]).0, frames[|frames| - 1]) == Some(message)
    requires if kept > 0 then !frames[kept - 1].pad && frames[kept - 1].end else !EndsOpen(consumed, false)
    ensures ComesAgain(consumed, frames, kept, Deliver(a', frames[kept..]).1, message)
  {
    hide Deliver, Legal, EndsOpen, LastBegin, Message, ComesLast;
    var open, again := EndsOpen(consumed, false), Deliver(a', frames[kept..]).1;
    LegalSplit(frames, kept, open);
    BoundaryAt(consumed, frames, kept);
    AgainFromBoundary(a, a', frames, kept, message);
    DeliverBehind(a, consumed, frames);
    DeliverBehind(a, consumed, frames[..kept]);
    var before, nothing: seq<seq<int>> := Deliver(IDLE, consumed + frames[..kept]).1, [];
    assert Deliver(IDLE, consumed + frames).1 == before + nothing + again;
  }

  lemma BoundaryAt(consumed: seq<Frame>, frames: seq<Frame>, kept: nat)
    requires kept < |frames|
    requires if kept > 0 then !frames[kept - 1].pad && frames[kept - 1].end else !EndsOpen(consumed, false)
    ensures !EndsOpen(frames[..kept], EndsOpen(consumed, false)) && !EndsOpen(consumed + frames[..kept], false)
  {
    hide EndsOpen;
    if kept > 0 {
      var front, f := frames[..kept - 1], frames[kept - 1];
      assert frames[..kept] == front + [f] && consumed + frames[..kept] == (consumed + front) + [f];
      EndsOpenOne(front, f, EndsOpen(consumed, false));
      EndsOpenOne(consumed + front, f, false);
    } else {
      assert frames[..0] == [] && consumed + [] == consumed;
      NothingOpens(EndsOpen(consumed, false));
    }
  }

  lemma NothingOpens(open: bool)
    ensures EndsOpen([], open) == open
  {
  }

  /** A position inside a message. */
  lemma FromInside(a: Asm, consumed: seq<Frame>, frames: seq<Frame>, offset: nat, message: seq<int>)
    requires frames != [] && EndsOpen(consumed, false) && Legal(frames, true) && AsRead(frames, offset)
    requires a == Deliver(IDLE, consumed).0 && Undisturbed(a, frames[..|frames| - 1])
    requires frames[|frames| - 1].end && !frames[|frames| - 1].pad
    requires Message(Deliver(a, frames[..|frames| - 1]).0, frames[|frames| - 1]) == Some(message)
    ensures ComesAgain(consumed, frames, 0, Again(a, frames, 0), message)
  {
    hide Deliver, Legal, EndsOpen, LastBegin, Message, ComesLast, Again, AsRead, Undisturbed;
    AgainFromInside(a, frames, offset, message);
    DeliverBehind(a, consumed, frames);
    assert frames[..0] == [] && consumed + [] == consumed;
    if LastBegin(frames) >= 0 {
      var again := Again(a, frames, 0);
      var rest: seq<seq<int>> :| |rest| <= 1 && Deliver(a, frames).1 == rest + again;
      assert Deliver(IDLE, consumed + frames).1 == Deliver(IDLE, consumed).1 + rest + again;
    }
  }

  /** The position such a poll leaves: at the last COMMIT, or where it began. */
  lemma PositionLeft(delegate: Delegate, r: Reader, frames: seq<Frame>, offset: nat, limitOffset: int, limit: int,
                     termBegin: int)
    ensures var scan := Poll(HandlerOf(delegate), r, frames, limitOffset, limit);
            var kept := Kept(HandlerOf(delegate), r, frames, limitOffset, limit);
            && kept <= scan.consumed
            && LastCommit(Commits(scan.calls, termBegin), termBegin + offset)
               == termBegin + TilesEnd(frames[..kept], offset)
  {
    hide Poll, Kept, HandlerOf, Commits, EndOf;
    KeptIsLastCommit(HandlerOf(delegate), r, frames, limitOffset, limit, termBegin);
  }

  /** A delegate throws and so does the exception handler, in any poll over a legal stream. The poll leaves its
      position behind `kept` of its frames, at the last COMMIT or else where it began (PositionLeft), and is read again
      from there (ComesAgain says what that delivers). The message thrown on comes again whole exactly when its first
      fragment is behind that position. With it come again, and so twice, all messages settled since that position whose
      first fragment is behind it; none do exactly when it comes alone. Otherwise it is lost, or, if its last fragment
      is all that was polled, the last bytes are doubled. */
  lemma EscapedThrow(delegate: Delegate, r: Reader, consumed: seq<Frame>, frames: seq<Frame>, offset: nat,
                     limitOffset: int, limit: int)
    requires CaughtUp(r, consumed) && Legal(frames, EndsOpen(consumed, false)) && AsRead(frames, offset)
    requires var scan := Poll(HandlerOf(delegate), r, frames, limitOffset, limit);
             Threw(scan.calls) && DelegateThrew(r.calls, scan.state.calls)
    ensures var scan := Poll(HandlerOf(delegate), r, frames, limitOffset, limit);
            var kept := Kept(HandlerOf(delegate), r, frames, limitOffset, limit);
            && kept < scan.consumed
            && Settled(scan.state.calls) == Deliver(IDLE, consumed + frames[..scan.consumed]).1
            && ComesAgain(consumed, frames[..scan.consumed], kept,
                          Deliver(scan.state.asm, frames[kept..scan.consumed]).1,
                          scan.state.calls[|scan.state.calls| - 1].message)
  {
    hide Poll, Kept, HandlerOf, Deliver, Legal, EndsOpen, Step, Message, Undisturbed, Settled, ComesAgain, Tiles,
         AsRead;
    var scan := Poll(HandlerOf(delegate), r, frames, limitOffset, limit);
    PollThrew(delegate, r, frames, limitOffset, limit);
    PollCatchesUp(delegate, r, consumed, frames, limitOffset, limit);
    LegalSplit(frames, scan.consumed, EndsOpen(consumed, false));
    ReadFront(frames, scan.consumed, offset);
    EscapedOver(r, scan, consumed, frames, Kept(HandlerOf(delegate), r, frames, limitOffset, limit), offset);
  }

  lemma EscapedOver(r: Reader, scan: Scan<Reader>, consumed: seq<Frame>, frames: seq<Frame>, kept: nat, offset: nat)
    requires ThrewAfter(r, scan, frames) && kept < scan.consumed && DelegateThrew(r.calls, scan.state.calls)
    requires kept > 0 ==> !frames[kept - 1].pad && frames[kept - 1].end
    requires EndsOpen(consumed, false) ==> r.asm == Deliver(IDLE, consumed).0
    requires Legal(frames[..scan.consumed], EndsOpen(consumed, false)) && AsRead(frames[..scan.consumed], offset)
    ensures ComesAgain(consumed, frames[..scan.consumed], kept, Deliver(scan.state.asm, frames[kept..scan.consumed]).1,
                       scan.state.calls[|scan.state.calls| - 1].message)
  {
    hide Deliver, Legal, EndsOpen, Step, Message, Undisturbed, ComesAgain, AsRead;
    var z, message := frames[..scan.consumed], scan.state.calls[|scan.state.calls| - 1].message;
    assert z[..scan.consumed - 1] == frames[..scan.consumed - 1] && z[kept..] == frames[kept..scan.consumed];
    MessageEnds(Deliver(r.asm, z[..|z| - 1]).0, z[|z| - 1]);
    if kept > 0 || !EndsOpen(consumed, false) {
      FromBoundary(r.asm, scan.state.asm, consumed, z, kept, message);
    } else {
      FromInside(r.asm, consumed, z, offset, message);
    }
  }

  lemma MessageEnds(a: Asm, f: Frame)
    ensures Message(a, f).Some? ==> f.end
  {
  }

  lemma ReadFront(frames: seq<Frame>, n: nat, offset: nat)
    requires AsRead(frames, offset) && n <= |frames|
    ensures AsRead(frames[..n], offset)
  {
  }
}
