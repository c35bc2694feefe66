/**
 Loss in a stream: the assemblers compare term offsets only, and when the fragments they put together nevertheless are
 one message of the stream.
 */
module StreamLoss {
  import opened Framing
  import opened Assembly
  import opened Deliveries
  import opened ExclusivePublications

  /** A stream: its first term id and the length of its terms. */
  datatype Stream = Stream(initialTermId: int, termLength: int)
  {
    /** LogBufferDescriptor::computePosition of the first byte of a frame. */
    function Start(f: Frame): int { Wrap32(f.termId - initialTermId) * termLength + f.offset }

    function End(f: Frame): int { Start(f) + AlignInt(f.length) }

    /** Frames as they were published, end to end. */
    ghost predicate Published(log: seq<Frame>) {
      && (forall i :: 0 <= i < |log| ==> Placed(log[i]))
      && forall i, j :: 0 <= i && j == i + 1 < |log| ==> Start(log[j]) == End(log[i])
    }

    /** Fragments of the log, in any order, with gaps and repeats. */
    ghost predicate Arrives(log: seq<Frame>, events: seq<Event>) {
      forall i :: 0 <= i < |events| ==> events[i].frame in log
    }

    /** No step from one fragment of a run to the next is as long as a term, forwards or backwards. */
    predicate NoLongGap(run: seq<Frame>) {
      forall i, j :: 0 <= i && j == i + 1 < |run| ==> Near(run[i], run[j])
    }

    predicate Near(f: Frame, g: Frame) { -termLength < Start(g) - End(f) < termLength }
  }

  predicate Placed(f: Frame) { f.length >= HEADER_LENGTH && f.offset >= 0 && f.offset % FRAME_ALIGNMENT == 0 }

  /** Fragments that stand side by side in the log. */
  ghost predicate Side(log: seq<Frame>, run: seq<Frame>, at: nat) {
    at + |run| <= |log| && log[at..at + |run|] == run
  }

  ghost predicate SideBySide(log: seq<Frame>, run: seq<Frame>) {
    exists at: nat :: Side(log, run, at)
  }

  /** Frames that went into the assembler are frames that arrived. */
  lemma {:induction false} KeptArrives(s: Stream, log: seq<Frame>, events: seq<Event>)
    requires s.Arrives(log, events)
    ensures forall k :: 0 <= k < |Run(events).kept| ==> Run(events).kept[k] in log
    decreases |events|
  {
    if events != [] {
      hide Step;
      KeptArrives(s, log, events[..|events| - 1]);
    }
  }

  lemma WholeTerms(a: int, b: int, length: int)
    requires length > 0
    ensures -length < a * length - b * length < length <==> a * length - b * length == 0
  {
    var gap := a - b;
    assert a * length - b * length == gap * length;
    if gap > 0 {
      MultipleGap(gap, 0, length);
    } else if gap < 0 {
      MultipleGap(-gap, 0, length);
      assert gap * length == -((-gap) * length);
    }
  }

  lemma NextIsEnd(f: Frame)
    requires Placed(f)
    ensures f.NextOffset() == f.offset + AlignInt(f.length)
  {
  }

  /** Offsets that chain leave a gap of a number of whole terms. */
  lemma ChainGap(s: Stream, f: Frame, g: Frame)
    requires s.termLength > 0 && Placed(f) && Placed(g) && g.offset == f.NextOffset()
    ensures s.Near(f, g) <==> s.Start(g) == s.End(f)
  {
    NextIsEnd(f);
    hide Wrap32, AlignInt, Frame.NextOffset;
    var a, b := Wrap32(g.termId - s.initialTermId), Wrap32(f.termId - s.initialTermId);
    assert s.Start(g) - s.End(f) == a * s.termLength - b * s.termLength;
    hide Stream.Start, Stream.End;
    WholeTerms(a, b, s.termLength);
  }

  lemma {:induction false} LogAscends(s: Stream, log: seq<Frame>, i: nat, j: nat)
    requires s.Published(log) && i < j < |log|
    ensures s.Start(log[i]) < s.End(log[i]) <= s.Start(log[j])
    decreases j - i
  {
    if i + 1 < j {
      LogAscends(s, log, i, j - 1);
      assert s.Start(log[j]) == s.End(log[j - 1]);
    }
  }

  /** The frame behind another one in the stream is the next one of the log. */
  lemma NextInLog(s: Stream, log: seq<Frame>, i: nat, g: Frame)
    requires s.Published(log) && i < |log| && g in log && s.Start(g) == s.End(log[i])
    ensures i + 1 < |log| && log[i + 1] == g
  {
    var j :| 0 <= j < |log| && log[j] == g;
    assert s.Start(log[i]) < s.End(log[i]);
    if j < i {
      LogAscends(s, log, j, i);
    } else if j > i + 1 {
      LogAscends(s, log, i + 1, j);
    }
  }

  lemma {:induction false} TouchingIsSide(s: Stream, log: seq<Frame>, run: seq<Frame>)
    requires s.Published(log) && run != [] && forall i :: 0 <= i < |run| ==> run[i] in log
    requires forall i, j :: 0 <= i && j == i + 1 < |run| ==> s.Start(run[j]) == s.End(run[i])
    ensures SideBySide(log, run)
    decreases |run|
  {
    if |run| == 1 {
      var at :| 0 <= at < |log| && log[at] == run[0];
      assert Side(log, run, at);
    } else {
      hide Stream.Start, Stream.End, Stream.Published;
      var front, last := run[..|run| - 1], run[|run| - 1];
      TouchingIsSide(s, log, front);
      var at: nat :| Side(log, front, at);
      assert log[at + |front| - 1] == front[|front| - 1] == run[|run| - 2];
      NextInLog(s, log, at + |front| - 1, last);
      assert log[at..at + |run|] == front + [last] == run;
      assert Side(log, run, at);
    }
  }

  lemma SideTouches(s: Stream, log: seq<Frame>, run: seq<Frame>, i: nat)
    requires s.Published(log) && SideBySide(log, run) && i + 1 < |run|
    ensures s.Start(run[i + 1]) == s.End(run[i])
  {
    var at: nat :| Side(log, run, at);
    assert log[at + i] == run[i] && log[at + (i + 1)] == run[i + 1];
  }

  lemma SideBySideIff(s: Stream, log: seq<Frame>, run: seq<Frame>)
    requires s.termLength > 0 && s.Published(log) && CompleteRun(run)
    requires forall i :: 0 <= i < |run| ==> run[i] in log
    ensures SideBySide(log, run) <==> s.NoLongGap(run)
  {
    RunChains(run);
    hide CompleteRun, Stream.Start, Stream.End, Stream.Published, Stream.Near;
    ChainGaps(s, log, run);
    if SideBySide(log, run) {
      forall i, k | 0 <= i && k == i + 1 < |run|
        ensures s.Start(run[k]) == s.End(run[i])
      {
        SideTouches(s, log, run, i);
      }
    } else if s.NoLongGap(run) {
      TouchingIsSide(s, log, run);
    }
  }

  /** Whatever arrives of a stream, in any order, with gaps and repeats: a message that is put together is one
      message of the stream, its fragments side by side from BEGIN to END, exactly when no step between them is as
      long as a term. */
  lemma OneMessageIffNoLongGap(s: Stream, log: seq<Frame>, events: seq<Event>, f: Frame, j: nat)
    requires s.termLength > 0 && s.Published(log) && s.Arrives(log, events) && f in log
    requires j < |Run(events).kept| && CompleteRun((Run(events).kept + [f])[j..])
    ensures var run := (Run(events).kept + [f])[j..]; SideBySide(log, run) <==> s.NoLongGap(run)
  {
    hide Run, CompleteRun, SideBySide, Stream.NoLongGap, Stream.Published;
    KeptArrives(s, log, events);
    SideBySideIff(s, log, (Run(events).kept + [f])[j..]);
  }

  lemma ChainGaps(s: Stream, log: seq<Frame>, run: seq<Frame>)
    requires s.termLength > 0 && s.Published(log) && forall i :: 0 <= i < |run| ==> run[i] in log
    requires forall i, k :: 0 <= i && k == i + 1 < |run| ==> run[k].offset == run[i].NextOffset()
    ensures forall i, k :: 0 <= i && k == i + 1 < |run| ==>
              (s.Near(run[i], run[k]) <==> s.Start(run[k]) == s.End(run[i]))
  {
    hide Stream.Start, Stream.End, Stream.Near, Stream.Published;
    forall i, k | 0 <= i && k == i + 1 < |run|
      ensures s.Near(run[i], run[k]) <==> s.Start(run[k]) == s.End(run[i])
    {
      PlacedInLog(s, log, run[i]);
      PlacedInLog(s, log, run[k]);
      ChainGap(s, run[i], run[k]);
    }
  }

  lemma PlacedInLog(s: Stream, log: seq<Frame>, f: Frame)
    requires s.Published(log) && f in log
    ensures Placed(f)
  {
  }

  lemma RunChains(run: seq<Frame>)
    requires CompleteRun(run)
    ensures forall i, k :: 0 <= i && k == i + 1 < |run| ==> run[k].offset == run[i].NextOffset()
  {
    var front := run[..|run| - 1];
    forall i, k | 0 <= i && k == i + 1 < |run|
      ensures run[k].offset == run[i].NextOffset()
    {
      if k < |front| {
        assert front[k].offset == front[i].NextOffset();
      }
    }
  }

  /** Fragments from some point of a message on: BEGIN on none but the very first, END on the last,
      offsets that chain. */
  predicate Remaining(run: seq<Frame>, first: bool) {
    && run != []
    && (forall i :: 0 <= i < |run| ==> Remains(run[i], first && i == 0, i == |run| - 1))
    && forall i, j :: 0 <= i && j == i + 1 < |run| ==> run[j].offset == run[i].NextOffset()
  }

  predicate Remains(f: Frame, begin: bool, end: bool) {
    f.begin == begin && f.end == end && !f.pad && f.offset >= 0 && f.length >= HEADER_LENGTH && f.payload != []
  }

  lemma {:induction false} PayloadsAfter(f: Frame, more: seq<Frame>)
    ensures Payloads([f] + more) == f.payload + Payloads(more)
    decreases |more|
  {
    var run := [f] + more;
    if more == [] {
      assert run[..0] == [];
    } else {
      assert run[..|run| - 1] == [f] + more[..|more| - 1];
      PayloadsAfter(f, more[..|more| - 1]);
    }
  }

  lemma RemainingAfter(f: Frame, more: seq<Frame>, first: bool)
    requires Remaining(more, false) && Remains(f, first, false) && more[0].offset == f.NextOffset()
    ensures Remaining([f] + more, first)
  {
    hide Remains;
    var run := [f] + more;
    forall i | 0 <= i < |run|
      ensures Remains(run[i], first && i == 0, i == |run| - 1)
    {
      if i > 0 {
        assert run[i] == more[i - 1];
      }
    }
  }

  lemma OnePiece(f: Frame, first: bool)
    requires Remains(f, first, true)
    ensures Remaining([f], first) && Payloads([f]) == f.payload
  {
    assert [f][..0] == [];
  }

  lemma {:induction false} FragmentsRemain(maxPayload: nat, from: Origin, offset: nat, data: seq<int>, first: bool)
    requires 0 < maxPayload && data != [] && offset % FRAME_ALIGNMENT == 0
    ensures var run := Fragments(maxPayload, from, offset, data, first);
            Remaining(run, first) && Payloads(run) == data && (|data| > maxPayload ==> |run| > 1)
    decreases |data|
  {
    if |data| <= maxPayload {
      OnePiece(DataFrame(from, offset, data, first, true), first);
    } else {
      var f, next := DataFrame(from, offset, data[..maxPayload], first, false),
          offset + Align(maxPayload + HEADER_LENGTH);
      var more := Fragments(maxPayload, from, next, data[maxPayload..], false);
      hide Fragments, Remaining, Payloads;
      FirstFragment(maxPayload, from, offset, data, first);
      assert more[0].offset == next && data[..maxPayload] + data[maxPayload..] == data;
      FragmentsRemain(maxPayload, from, next, data[maxPayload..], false);
      RemainingAfter(f, more, first);
      PayloadsAfter(f, more);
    }
  }

  /** The fragments of every published message are such a run, and put together they are the message. */
  lemma PublishedIsCompleteRun(maxPayload: nat, from: Origin, offset: nat, data: seq<int>)
    requires 0 < maxPayload < |data| && offset % FRAME_ALIGNMENT == 0
    ensures var run := Fragments(maxPayload, from, offset, data, true);
            && CompleteRun(run) && Payloads(run) == data
            && forall i :: 0 <= i < |run| ==> run[i].payload != []
  {
    hide Fragments, Payloads;
    FragmentsRemain(maxPayload, from, offset, data, true);
    var run := Fragments(maxPayload, from, offset, data, true);
    assert run[|run| - 1].offset == run[|run| - 2].NextOffset();
  }
}
