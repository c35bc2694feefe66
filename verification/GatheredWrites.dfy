/**
 Writing a message that is handed over as a list of source buffers (the BufferIterator overloads of
 appendUnfragmentedMessage and appendFragmentedMessage).
 */
module GatheredWrites {
  import opened Framing
  import opened Sequences
  import opened TermBuffer

  function Flatten(buffers: seq<seq<int>>): seq<int> {
    if buffers == [] then [] else buffers[0] + Flatten(buffers[1..])
  }

  /** What is left to copy when the iterator stands at buffer `it`, `off` bytes in. */
  function Left(buffers: seq<seq<int>>, it: nat, off: nat): seq<int>
    requires it <= |buffers| && (it < |buffers| ==> off <= |buffers[it]|)
  {
    if it == |buffers| then [] else buffers[it][off..] + Flatten(buffers[it + 1..])
  }

  lemma LeftAtStart(buffers: seq<seq<int>>)
    ensures Left(buffers, 0, 0) == Flatten(buffers)
  {
    if buffers != [] {
      assert buffers[0][0..] == buffers[0];
    }
  }

  /** Moving to the next buffer once this one is used up. */
  lemma LeftAtNext(buffers: seq<seq<int>>, it: nat)
    requires it < |buffers|
    ensures Left(buffers, it, |buffers[it]|) == Left(buffers, it + 1, 0)
    ensures Flatten(buffers[it + 1..]) == Left(buffers, it + 1, 0)
  {
    if it + 1 < |buffers| {
      DropOneMore(buffers, it + 1);
      assert buffers[it + 1][0..] == buffers[it + 1];
    }
  }

  lemma LeftAfter(buffers: seq<seq<int>>, it: nat, off: nat, n: nat)
    requires it < |buffers| && off + n <= |buffers[it]|
    ensures |Left(buffers, it, off)| >= n && Left(buffers, it, off)[..n] == buffers[it][off..off + n]
    ensures Left(buffers, it, off)[n..] == Left(buffers, it, off + n)
  {
    var here := buffers[it][off..];
    TakeOfDrop(buffers[it], off, n);
    DropTwice(buffers[it], off, n);
    assert Left(buffers, it, off)[n..] == here[n..] + Flatten(buffers[it + 1..]);
  }

  lemma LeftIsSomewhere(buffers: seq<seq<int>>, it: nat, off: nat, n: nat)
    requires it <= |buffers| && (it < |buffers| ==> off <= |buffers[it]|) && 0 < n <= |Left(buffers, it, off)|
    ensures it < |buffers|
  {
  }

  /** The inner copy loop: `n` bytes go to the term, from as many buffers as it takes. It ends because each turn
      copies bytes or leaves a buffer. */
  method CopyBytes(term: array<int>, target: nat, buffers: seq<seq<int>>, it0: nat, off0: nat, n: nat)
    returns (it: nat, off: nat)
    requires it0 <= |buffers| && (it0 < |buffers| ==> off0 <= |buffers[it0]|)
    requires n <= |Left(buffers, it0, off0)| && target + n <= term.Length
    modifies term
    ensures it <= |buffers| && (it < |buffers| ==> off <= |buffers[it]|)
    ensures Left(buffers, it, off) == Left(buffers, it0, off0)[n..]
    ensures forall i :: 0 <= i < n ==> term[target + i] == Left(buffers, it0, off0)[i]
    ensures forall i :: 0 <= i < term.Length && !(target <= i < target + n) ==> term[i] == old(term[i])
  {
    hide Left;
    it, off := it0, off0;
    ghost var all := Left(buffers, it0, off0);
    var written := 0;
    while written < n
      invariant 0 <= written <= n && it <= |buffers| && (it < |buffers| ==> off <= |buffers[it]|)
      invariant Left(buffers, it, off) == all[written..]
      invariant forall i :: 0 <= i < written ==> term[target + i] == all[i]
      invariant forall i :: 0 <= i < term.Length && !(target <= i < target + n) ==> term[i] == old(term[i])
      decreases n - written, |buffers| - it
    {
      LeftIsSomewhere(buffers, it, off, n - written);
      var here := |buffers[it]| - off;
      var num := if n - written <= here then n - written else here;
      LeftAfter(buffers, it, off, num);
      DropTwice(all, written, num);
      assert forall i :: written <= i < written + num ==> all[i] == Left(buffers, it, off)[..num][i - written];
      PutBytes(term, target + written, buffers[it][off..off + num]);
      assert forall i :: written <= i < written + num ==> term[target + i] == all[i];
      written, off := written + num, off + num;
      if here <= num {
        LeftAtNext(buffers, it);
        it, off := it + 1, 0;
      }
    }
  }

  /** One frame whose payload comes from several buffers. */
  method WriteGatheredFrame(term: array<int>, from: Origin, o: nat, buffers: seq<seq<int>>, it0: nat, off0: nat, n: nat,
                            begin: bool, end: bool)
    returns (it: nat, off: nat)
    requires it0 <= |buffers| && (it0 < |buffers| ==> off0 <= |buffers[it0]|)
    requires n <= |Left(buffers, it0, off0)| && o + HEADER_LENGTH + n <= term.Length
    modifies term
    ensures it <= |buffers| && (it < |buffers| ==> off <= |buffers[it]|)
    ensures Left(buffers, it, off) == Left(buffers, it0, off0)[n..]
    ensures FrameAt(term[..], o)
    ensures Decode(term[..], o) == DataFrame(from, o, Left(buffers, it0, off0)[..n], begin, end)
    ensures forall i :: 0 <= i < term.Length && !(o <= i < o + HEADER_LENGTH + n) ==> term[i] == old(term[i])
  {
    hide Left, Decode;
    WriteHeader(term, from, o, n + HEADER_LENGTH);
    it, off := CopyBytes(term, o + HEADER_LENGTH, buffers, it0, off0, n);
    CommitFrame(term, from, o, Left(buffers, it0, off0)[..n], begin, end);
  }

  /** The copy loop of the unfragmented gathered append: whole buffers, until the message is complete. */
  method WriteGatheredWhole(term: array<int>, from: Origin, o: nat, buffers: seq<seq<int>>)
    requires o + HEADER_LENGTH + |Flatten(buffers)| <= term.Length
    modifies term
    ensures FrameAt(term[..], o) && Decode(term[..], o) == DataFrame(from, o, Flatten(buffers), true, true)
    ensures forall i :: 0 <= i < term.Length && !(o <= i < o + HEADER_LENGTH + |Flatten(buffers)|) ==>
            term[i] == old(term[i])
  {
    hide Left, Decode;
    ghost var all := Flatten(buffers);
    var length := TotalLength(buffers);
    LeftAtStart(buffers);
    WriteHeader(term, from, o, length + HEADER_LENGTH);
    var offset, it := o + HEADER_LENGTH, 0;
    var ending := offset + length;
    while offset < ending
      invariant o + HEADER_LENGTH <= offset <= ending && it <= |buffers|
      invariant Left(buffers, it, 0) == all[offset - o - HEADER_LENGTH..]
      invariant forall i :: 0 <= i < offset - o - HEADER_LENGTH ==> term[o + HEADER_LENGTH + i] == all[i]
      invariant term[o] == -(length + HEADER_LENGTH) && HeaderCells(term[..], from, o)
      invariant forall i :: 0 <= i < term.Length && !(o <= i < ending) ==> term[i] == old(term[i])
      decreases |buffers| - it
    {
      LeftIsSomewhere(buffers, it, 0, ending - offset);
      ghost var done := offset - o - HEADER_LENGTH;
      LeftAfter(buffers, it, 0, |buffers[it]|);
      DropTwice(all, done, |buffers[it]|);
      assert forall i :: done <= i < done + |buffers[it]| ==> all[i] == buffers[it][0..|buffers[it]|][i - done];
      PutBytes(term, offset, buffers[it]);
      assert forall i :: done <= i < done + |buffers[it]| ==> term[o + HEADER_LENGTH + i] == all[i];
      LeftAtNext(buffers, it);
      offset, it := offset + |buffers[it]|, it + 1;
    }
    CommitFrame(term, from, o, all, true, true);
  }

  /** The length that the gathering offer computes first. */
  method TotalLength(buffers: seq<seq<int>>) returns (length: nat)
    ensures length == |Flatten(buffers)|
  {
    length := 0;
    LeftAtStart(buffers);
    for it := 0 to |buffers|
      invariant length + |Left(buffers, it, 0)| == |Flatten(buffers)|
    {
      LeftAfter(buffers, it, 0, |buffers[it]|);
      LeftAtNext(buffers, it);
      length := length + |buffers[it]|;
    }
  }

  /** The fragmenting loop over several buffers leaves the same frames as the loop over their concatenation. */
  method WriteGatheredFragments(term: array<int>, from: Origin, o: nat, buffers: seq<seq<int>>, maxPayload: nat)
    requires 0 < maxPayload
    requires o <= term.Length && TilesEnd(Fragments(maxPayload, from, o, Flatten(buffers), true), o) <= term.Length
    requires forall i :: o + HEADER_LENGTH <= i < term.Length ==> term[i] == 0
    modifies term
    ensures Written(term[..], Fragments(maxPayload, from, o, Flatten(buffers), true), o,
                    TilesEnd(Fragments(maxPayload, from, o, Flatten(buffers), true), o))
    ensures forall i :: 0 <= i < o ==> term[i] == old(term[i])
  {
    hide Midway, Written, Decode, Holds, Tiles, Fragments, Left;
    var remaining := TotalLength(buffers);
    var first, offset: nat := true, o;
    var it: nat, off: nat := 0, 0;
    LeftAtStart(buffers);
    ghost var all, done := Fragments(maxPayload, from, o, Flatten(buffers), true), [];
    ghost var rest := Flatten(buffers);
    MidwayStart(term[..], o, maxPayload, from, rest);
    while first || remaining > 0
      invariant it <= |buffers| && (it < |buffers| ==> off <= |buffers[it]|)
      invariant rest == Left(buffers, it, off) && |rest| == remaining
      invariant Midway(term[..], all, done, o, maxPayload, from, offset, rest, first)
      invariant o <= offset && forall i :: 0 <= i < o ==> term[i] == old(term[i])
      decreases remaining, first
    {
      ghost var before := term[..];
      var bytes := if remaining <= maxPayload then remaining else maxPayload;
      MidwayFits(before, all, done, o, maxPayload, from, offset, rest, first, bytes);
      it, off := WriteGatheredFrame(term, from, offset, buffers, it, off, bytes, first, remaining <= maxPayload);
      MidwayStep(before, term[..], all, done, o, maxPayload, from, offset, rest, first, bytes);
      done, rest := done + [Decode(term[..], offset)], rest[bytes..];
      offset, remaining, first := offset + Align(bytes + HEADER_LENGTH), remaining - bytes, false;
    }
    MidwayEnd(term[..], all, done, o, maxPayload, from, offset);
  }
}
