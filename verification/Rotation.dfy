/**
 The tails of a publication with any number of writers (Publication.h) and the rotation of the log
 (LogBufferDescriptor::rotateLog), as a state machine over the atomic steps of its threads. A tail is modelled as the
 pair it packs; `PairsPack` shows that this is faithful as long as the offset half stays below 2^32, and
 `OffsetsStaySmall` that it does.
 */
module Rotation {
  import opened Framing
  import opened ExclusivePublications

  /** A tail counter: the term count that its term id stands for, and the raw offset, which may pass the end. */
  datatype Tail = Tail(term: int, offset: nat)

  /** One fetch-and-add: who made it, the raw offset it got, the space it reserved, and the term it was meant for. */
  datatype Claim = Claim(thread: nat, offset: nat, required: nat, planned: nat)

  /** Where a thread stands: in an offer up to its fetch-and-add, or closing a term and rotating the log. */
  datatype Pc =
    | Idle
    | Planned(term: nat)
    | Ready(term: nat, length: nat)
    | Closing(term: nat, offset: nat, required: nat)
    | Rotating(term: nat)
    | Swapping(term: nat, seen: Tail)
    | Advancing(term: nat)

  /** The shared tails and active term count, the threads, and the claims made in each term so far. */
  datatype Log = Log(tails: seq<Tail>, active: nat, threads: seq<Pc>, claims: seq<seq<Claim>>)

  datatype Action =
    | ReadCount
    | ReadTail(length: nat, limit: int)
    | FetchAdd
    | Close
    | ReadNext
    | Swap
    | Advance

  const LAST_TERM := TERMS_IN_STREAM - 1

  function Min(a: int, b: int): int {
    if a <= b then a else b
  }

  function Start(threads: nat): Log {
    Log([Tail(0, 0), Tail(-2, 0), Tail(-1, 0)], 0, seq(threads, _ => Idle), [[]])
  }

  predicate Offerable(cfg: Settings, length: nat) {
    length <= cfg.maxPayload || length <= cfg.maxMessage
  }

  /** A claim that runs over the end of its term; the first to do so below the end writes the padding. */
  predicate Trips(cfg: Settings, c: Claim) { c.offset + c.required > cfg.termLength }

  predicate Pads(cfg: Settings, c: Claim) { Trips(cfg, c) && c.offset < cfg.termLength }

  /** The position of a tail as an offer reads it, and the one an append works with: of the clipped offset. */
  function TailPosition(cfg: Settings, term: nat, offset: nat): int {
    term * cfg.termLength + Min(offset, cfg.termLength)
  }

  function ResultingPosition(cfg: Settings, term: nat, offset: nat, required: nat): int {
    term * cfg.termLength + Min(offset, cfg.termLength) + required
  }

  /** One atomic step of thread `i`. */
  function After(cfg: Settings, s: Log, i: nat, action: Action): Log
    requires cfg.Valid() && i < |s.threads| && |s.tails| == PARTITION_COUNT
  {
    match (s.threads[i], action)
    case (Idle, ReadCount) => s.(threads := s.threads[i := Planned(s.active)])
    case (Planned(t), ReadTail(length, limit)) =>
      var tail := s.tails[t % PARTITION_COUNT];
      if tail.term != t || !Offerable(cfg, length) || TailPosition(cfg, t, tail.offset) >= limit then
        s.(threads := s.threads[i := Idle])
      else
        s.(threads := s.threads[i := Ready(t, length)])
    case (Ready(t, length), FetchAdd) =>
      var p, required := t % PARTITION_COUNT, Required(cfg, length);
      var tail := s.tails[p];
      if 0 <= tail.term < |s.claims| then
        var claim := Claim(i, tail.offset, required, t);
        s.(tails := s.tails[p := Tail(tail.term, tail.offset + required)],
           claims := s.claims[tail.term := s.claims[tail.term] + [claim]],
           threads := s.threads[i := if Trips(cfg, claim) then Closing(tail.term, tail.offset, required) else Idle])
      else s
    case (Closing(t, offset, required), Close) =>
      if ResultingPosition(cfg, t, offset, required) >= cfg.MaxPossiblePosition() then
        s.(threads := s.threads[i := Idle])
      else s.(threads := s.threads[i := Rotating(t)])
    case (Rotating(t), ReadNext) =>
      var seen := s.tails[(t + 1) % PARTITION_COUNT];
      s.(threads := s.threads[i := if seen.term == t + 1 - PARTITION_COUNT then Swapping(t, seen) else Advancing(t)])
    case (Swapping(t, seen), Swap) =>
      var p := (t + 1) % PARTITION_COUNT;
      if s.tails[p] == seen then
        s.(tails := s.tails[p := Tail(t + 1, 0)], claims := s.claims + [[]], threads := s.threads[i := Advancing(t)])
      else s.(threads := s.threads[i := Rotating(t)])
    case (Advancing(t), Advance) =>
      s.(active := if s.active == t then t + 1 else s.active, threads := s.threads[i := Idle])
    case _ => s
  }

  /** The limit a thread reads never exceeds the greatest position of a stream. */
  predicate Enabled(cfg: Settings, s: Log, i: nat, action: Action) {
    i < |s.threads| && (action.ReadTail? ==> action.limit <= cfg.MaxPossiblePosition())
  }

  /** Claims laid end to end from the start of a term, each a multiple of the alignment. */
  predicate LaidOut(cfg: Settings, claims: seq<Claim>) {
    && (claims != [] ==> claims[0].offset == 0)
    && (forall k :: 0 <= k < |claims| ==> Sound(cfg, claims[k]))
    && forall k, l :: 0 <= k && l == k + 1 < |claims| ==> claims[l].offset == claims[k].offset + claims[k].required
  }

  predicate Sound(cfg: Settings, c: Claim) {
    c.offset % FRAME_ALIGNMENT == 0 && HEADER_LENGTH <= c.required <= MaxRequired(cfg)
      && c.required % FRAME_ALIGNMENT == 0
  }

  function ClaimsEnd(claims: seq<Claim>): nat {
    if claims == [] then 0 else claims[|claims| - 1].offset + claims[|claims| - 1].required
  }

  /** The most an offer can reserve. */
  function MaxRequired(cfg: Settings): nat {
    2 * (if cfg.maxPayload > cfg.maxMessage then cfg.maxPayload else cfg.maxMessage) + 64
  }

  lemma RequiredBounds(cfg: Settings, length: nat)
    requires cfg.Valid() && Offerable(cfg, length)
    ensures HEADER_LENGTH <= Required(cfg, length) < cfg.termLength && Required(cfg, length) % FRAME_ALIGNMENT == 0
    ensures Required(cfg, length) <= MaxRequired(cfg)
  {
    hide FramedLength, ReservedLength;
    if length > cfg.maxPayload {
      FramedLengthCountsFragments(length, cfg.maxPayload);
      ReservedLengthBounds(length, cfg.maxPayload);
      ReservedLengthAligned(length, cfg.maxPayload);
    }
  }

  /** The three tails belong to the newest term and the two before it, and hold the end of their claims; every term
      before the newest has been closed; the active count is not ahead. */
  ghost predicate Shared(cfg: Settings, s: Log) {
    var m := |s.claims| - 1;
    && 0 <= m <= LAST_TERM && s.active <= m && |s.tails| == PARTITION_COUNT
    && (forall p :: 0 <= p < PARTITION_COUNT ==> TailOf(s, p, s.tails[p]))
    && (forall t :: 0 <= t <= m ==> LaidOut(cfg, s.claims[t]))
    && forall t :: 0 <= t < m ==> ClaimsEnd(s.claims[t]) > cfg.termLength
  }

  /** The tail of buffer `p` is that of one of the three newest terms. */
  ghost predicate TailOf(s: Log, p: nat, tail: Tail) {
    && |s.claims| - 3 <= tail.term < |s.claims| && tail.term % PARTITION_COUNT == p
    && (tail.term >= 0 ==> tail.offset == ClaimsEnd(s.claims[tail.term]))
  }

  /** What a thread has established so far still holds. */
  ghost predicate Pending(cfg: Settings, s: Log, pc: Pc) {
    match pc
    case Idle => true
    case Planned(t) => t <= s.active
    case Ready(t, length) => t <= s.active && Offerable(cfg, length)
    case Closing(t, offset, required) =>
      t < |s.claims| && ClaimsEnd(s.claims[t]) > cfg.termLength && offset + required > cfg.termLength
        && required < cfg.termLength
    case Rotating(t) => t < |s.claims| && ClaimsEnd(s.claims[t]) > cfg.termLength && t < LAST_TERM
    case Swapping(t, seen) =>
      t < |s.claims| && ClaimsEnd(s.claims[t]) > cfg.termLength && t < LAST_TERM && seen.term == t - 2
    case Advancing(t) => t + 1 < |s.claims|
  }

  ghost predicate Inv(cfg: Settings, s: Log) {
    cfg.Valid() && Shared(cfg, s) && forall i :: 0 <= i < |s.threads| ==> Pending(cfg, s, s.threads[i])
  }

  lemma StartInv(cfg: Settings, threads: nat)
    requires cfg.Valid()
    ensures Inv(cfg, Start(threads))
  {
  }

  lemma ClaimAdded(cfg: Settings, claims: seq<Claim>, c: Claim)
    requires LaidOut(cfg, claims) && c.offset == ClaimsEnd(claims) && Sound(cfg, c.(offset := 0))
    ensures LaidOut(cfg, claims + [c]) && ClaimsEnd(claims + [c]) == ClaimsEnd(claims) + c.required
  {
  }

  /** The term in the tail that a thread claims from: the planned one, or a later one of the same buffer. */
  lemma ClaimedTerm(cfg: Settings, s: Log, t: nat)
    requires Shared(cfg, s) && t <= s.active
    ensures var tail := s.tails[t % PARTITION_COUNT];
            && t <= tail.term < |s.claims| && tail.term >= |s.claims| - 3 && tail.term % 3 == t % 3
            && tail.offset == ClaimsEnd(s.claims[tail.term]) && LaidOut(cfg, s.claims[tail.term])
  {
    hide LaidOut;
    assert TailOf(s, t % PARTITION_COUNT, s.tails[t % PARTITION_COUNT]);
  }

  /** Claims only grow, term by term. */
  ghost predicate Grows(s: Log, s': Log) {
    && |s.claims| <= |s'.claims| && s.active <= s'.active && |s.threads| == |s'.threads|
    && forall t :: 0 <= t < |s.claims| ==> ClaimsEnd(s'.claims[t]) >= ClaimsEnd(s.claims[t])
  }

  /** The other threads keep what they have established. */
  lemma OthersKeep(cfg: Settings, s: Log, s': Log, i: nat)
    requires Inv(cfg, s) && Shared(cfg, s') && Grows(s, s') && i < |s.threads|
    requires s'.threads == s.threads[i := s'.threads[i]] && Pending(cfg, s', s'.threads[i])
    ensures Inv(cfg, s')
  {
    hide Shared, ClaimsEnd;
    forall j | 0 <= j < |s'.threads|
      ensures Pending(cfg, s', s'.threads[j])
    {
      if j != i {
        assert Pending(cfg, s, s.threads[j]);
      }
    }
  }

  lemma FetchAddKeeps(cfg: Settings, s: Log, i: nat)
    requires Inv(cfg, s) && i < |s.threads| && s.threads[i].Ready?
    ensures Inv(cfg, After(cfg, s, i, FetchAdd)) && Grows(s, After(cfg, s, i, FetchAdd))
  {
    hide LaidOut, Required, ClaimsEnd, Sound, MaxRequired, Shared;
    var t, length := s.threads[i].term, s.threads[i].length;
    assert Pending(cfg, s, s.threads[i]);
    ClaimedTerm(cfg, s, t);
    RequiredBounds(cfg, length);
    ThreeTails(cfg, s);
    FetchAddShared(cfg, s, i, t, Required(cfg, length));
    var tail, s' := s.tails[t % PARTITION_COUNT], After(cfg, s, i, FetchAdd);
    assert s'.(threads := s.threads) == Claimed(s, Claim(i, tail.offset, Required(cfg, length), t));
    SharedIgnoresThreads(cfg, s'.(threads := s.threads), s'.threads);
    OthersKeep(cfg, s, s', i);
  }

  lemma ThreeTails(cfg: Settings, s: Log)
    requires Shared(cfg, s)
    ensures |s.tails| == PARTITION_COUNT
  {
  }

  /** A claim entered in the log and added to its tail. */
  function Claimed(s: Log, c: Claim): Log
    requires |s.tails| == PARTITION_COUNT && 0 <= s.tails[c.planned % PARTITION_COUNT].term < |s.claims|
  {
    var p := c.planned % PARTITION_COUNT;
    var t := s.tails[p].term;
    s.(tails := s.tails[p := Tail(t, s.tails[p].offset + c.required)], claims := s.claims[t := s.claims[t] + [c]])
  }

  lemma SharedIgnoresThreads(cfg: Settings, s: Log, threads: seq<Pc>)
    requires Shared(cfg, s)
    ensures Shared(cfg, s.(threads := threads))
  {
    SharedAtActive(cfg, s, s.(threads := threads));
  }

  lemma FetchAddShared(cfg: Settings, s: Log, i: nat, t: nat, required: nat)
    requires cfg.Valid() && Shared(cfg, s) && t <= s.active
    requires HEADER_LENGTH <= required <= MaxRequired(cfg) && required % FRAME_ALIGNMENT == 0
    ensures var tail := s.tails[t % PARTITION_COUNT];
            && 0 <= tail.term < |s.claims|
            && var s' := Claimed(s, Claim(i, tail.offset, required, t));
               && Shared(cfg, s') && Grows(s, s')
               && ClaimsEnd(s'.claims[tail.term]) == tail.offset + required && |s'.claims| == |s.claims|
  {
    ClaimedTerm(cfg, s, t);
    var tail := s.tails[t % PARTITION_COUNT];
    var claim := Claim(i, tail.offset, required, t);
    LastAligned(cfg, s.claims[tail.term]);
    ClaimAdded(cfg, s.claims[tail.term], claim);
    hide LaidOut, ClaimsEnd, Sound, MaxRequired, Settings.Valid;
    var s' := Claimed(s, claim);
    forall p | 0 <= p < PARTITION_COUNT
      ensures TailOf(s', p, s'.tails[p])
    {
      assert TailOf(s, p, s.tails[p]);
    }
  }

  lemma LastAligned(cfg: Settings, claims: seq<Claim>)
    requires LaidOut(cfg, claims)
    ensures ClaimsEnd(claims) % FRAME_ALIGNMENT == 0
  {
  }

  lemma CloseKeeps(cfg: Settings, s: Log, i: nat)
    requires Inv(cfg, s) && i < |s.threads| && s.threads[i].Closing?
    ensures Inv(cfg, After(cfg, s, i, Close))
  {
    hide LaidOut, ClaimsEnd, Required;
    assert Pending(cfg, s, s.threads[i]);
    var t := s.threads[i].term;
    if t == LAST_TERM {
      MulStep(LAST_TERM, cfg.termLength);
    }
    OthersKeep(cfg, s, After(cfg, s, i, Close), i);
  }

  lemma SwapKeeps(cfg: Settings, s: Log, i: nat)
    requires Inv(cfg, s) && i < |s.threads| && s.threads[i].Swapping?
    ensures Inv(cfg, After(cfg, s, i, Swap)) && Grows(s, After(cfg, s, i, Swap))
  {
    hide LaidOut, ClaimsEnd, Required;
    assert Pending(cfg, s, s.threads[i]);
    var t, m := s.threads[i].term, |s.claims| - 1;
    NextTail(cfg, s, t);
    if s.tails[(t + 1) % PARTITION_COUNT] == s.threads[i].seen {
      NoClaims(cfg);
      var s' := After(cfg, s, i, Swap);
      forall p | 0 <= p < PARTITION_COUNT
        ensures TailOf(s', p, s'.tails[p])
      {
        assert TailOf(s, p, s.tails[p]);
      }
    }
    OthersKeep(cfg, s, After(cfg, s, i, Swap), i);
  }

  lemma NoClaims(cfg: Settings)
    ensures LaidOut(cfg, []) && ClaimsEnd([]) == 0
  {
  }

  /** The steps that change no tail and no claim. */
  lemma LocalStepKeeps(cfg: Settings, s: Log, i: nat, action: Action)
    requires Inv(cfg, s) && i < |s.threads|
             && (action.ReadCount? || action.ReadTail? || action.ReadNext? || action.Advance?)
    ensures Inv(cfg, After(cfg, s, i, action)) && Grows(s, After(cfg, s, i, action))
  {
    hide LaidOut, ClaimsEnd, Required, TailPosition, TailOf, Settings.Valid;
    assert Pending(cfg, s, s.threads[i]);
    var s' := After(cfg, s, i, action);
    if s.threads[i].Rotating? {
      NextTail(cfg, s, s.threads[i].term);
    }
    assert Shared(cfg, s') by {
      SharedAtActive(cfg, s, s');
    }
    OthersKeep(cfg, s, s', i);
  }

  lemma SharedAtActive(cfg: Settings, s: Log, s': Log)
    requires Shared(cfg, s) && s'.tails == s.tails && s'.claims == s.claims && s'.active < |s.claims|
    ensures Shared(cfg, s')
  {
    hide LaidOut, ClaimsEnd;
    forall p | 0 <= p < PARTITION_COUNT
      ensures TailOf(s', p, s'.tails[p])
    {
      assert TailOf(s, p, s.tails[p]);
    }
  }

  /** The tail after that of term `t`: still that of three terms before, or the next one is there already. */
  lemma NextTail(cfg: Settings, s: Log, t: nat)
    requires Shared(cfg, s) && t < |s.claims|
    ensures var tail := s.tails[(t + 1) % PARTITION_COUNT];
            tail.term == t - 2 || t + 1 < |s.claims|
    ensures s.tails[(t + 1) % PARTITION_COUNT].term == t - 2 ==> t == |s.claims| - 1
  {
    hide LaidOut, ClaimsEnd;
    assert TailOf(s, (t + 1) % PARTITION_COUNT, s.tails[(t + 1) % PARTITION_COUNT]);
  }

  /** Every step of every thread keeps the invariant. */
  lemma StepKeeps(cfg: Settings, s: Log, i: nat, action: Action)
    requires Inv(cfg, s) && i < |s.threads|
    ensures Inv(cfg, After(cfg, s, i, action)) && Grows(s, After(cfg, s, i, action))
  {
    hide Inv, ClaimsEnd, Required, TailPosition, ResultingPosition;
    match (s.threads[i], action)
    case (Ready(_, _), FetchAdd) => FetchAddKeeps(cfg, s, i);
    case (Closing(_, _, _), Close) => CloseKeeps(cfg, s, i);
    case (Swapping(_, _), Swap) => SwapKeeps(cfg, s, i);
    case (_, _) =>
      if action.ReadCount? || action.ReadTail? || action.ReadNext? || action.Advance? {
        LocalStepKeeps(cfg, s, i, action);
      }
  }
}
