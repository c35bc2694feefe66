/**
 What the claims of many writers add up to in every run: ranges laid end to end, one padding frame per term, terms in
 turn, and raw tail offsets that never leave their half of the counter.
 */
module RotationGuarantees {
  import opened Framing
  import opened Sequences
  import opened ExclusivePublications
  import opened Rotation

  /** Later claims of a term start where earlier ones end, or further on. */
  lemma {:induction false} ClaimsOrdered(cfg: Settings, claims: seq<Claim>, k: nat, l: nat)
    requires LaidOut(cfg, claims) && k <= l < |claims|
    ensures k < l ==> claims[k].offset + claims[k].required <= claims[l].offset
    ensures claims[k].offset + claims[k].required <= claims[l].offset + claims[l].required
    decreases l - k
  {
    if k < l {
      assert Sound(cfg, claims[l]);
      ClaimsOrdered(cfg, claims, k, l - 1);
    }
  }

  /** Where a term is closed: the claims before the first one over the end fill it up to where that one starts. */
  lemma FirstTrip(cfg: Settings, claims: seq<Claim>) returns (k: nat)
    requires LaidOut(cfg, claims) && ClaimsEnd(claims) > cfg.termLength
    ensures k < |claims| && Trips(cfg, claims[k]) && claims[k].offset <= cfg.termLength
    ensures claims[k].offset == ClaimsEnd(claims[..k])
    ensures forall l :: 0 <= l < |claims| ==> (Trips(cfg, claims[l]) <==> k <= l)
    ensures forall l :: 0 <= l < |claims| && Pads(cfg, claims[l]) ==> l == k
  {
    hide Sound;
    k := |claims| - 1;
    while k > 0 && Trips(cfg, claims[k - 1])
      invariant 0 <= k < |claims| && Trips(cfg, claims[k])
    {
      k := k - 1;
    }
    forall l | 0 <= l < |claims|
      ensures Trips(cfg, claims[l]) <==> k <= l
      ensures l > k ==> claims[l].offset > cfg.termLength
    {
      if l >= k {
        ClaimsOrdered(cfg, claims, k, l);
      } else {
        ClaimsOrdered(cfg, claims, l, k - 1);
      }
    }
  }

  /** In a closed term there is exactly one claim that crosses the end. It alone may pad, and it pads exactly what the
      successful claims, which lie before it end to end, leave of the term. */
  lemma ClosedTermIsFilled(cfg: Settings, s: Log, t: nat)
    requires Inv(cfg, s) && t < |s.claims| && ClaimsEnd(s.claims[t]) > cfg.termLength
    ensures exists k :: ClosesTerm(cfg, s.claims[t], k)
    ensures forall k, l :: ClosesTerm(cfg, s.claims[t], k) && ClosesTerm(cfg, s.claims[t], l) ==> k == l
  {
    hide LaidOut, ClaimsEnd;
    var claims := s.claims[t];
    assert LaidOut(cfg, claims);
    var k := FirstTrip(cfg, claims);
    assert ClosesTerm(cfg, claims, k);
  }

  ghost predicate ClosesTerm(cfg: Settings, claims: seq<Claim>, k: int) {
    && 0 <= k < |claims| && claims[k].offset == ClaimsEnd(claims[..k]) <= cfg.termLength
    && (forall l :: 0 <= l < |claims| ==> (Trips(cfg, claims[l]) <==> k <= l))
    && forall l :: 0 <= l < |claims| && Pads(cfg, claims[l]) ==> l == k
  }

  /** The stretch of the stream a successful claim covers. */
  function StreamFrom(cfg: Settings, t: nat, c: Claim): int { t * cfg.termLength + c.offset }

  function StreamTo(cfg: Settings, t: nat, c: Claim): int { t * cfg.termLength + c.offset + c.required }

  /** Successful claims of different threads, calls or terms never overlap in the stream, and each call returns the
      end of its own stretch. */
  lemma SuccessfulClaimsDisjoint(cfg: Settings, s: Log, t: nat, k: nat, u: nat, l: nat)
    requires Inv(cfg, s) && t < |s.claims| && u < |s.claims| && k < |s.claims[t]| && l < |s.claims[u]|
    requires !Trips(cfg, s.claims[t][k]) && !Trips(cfg, s.claims[u][l]) && (t, k) != (u, l)
    ensures StreamTo(cfg, t, s.claims[t][k]) <= StreamFrom(cfg, u, s.claims[u][l])
            || StreamTo(cfg, u, s.claims[u][l]) <= StreamFrom(cfg, t, s.claims[t][k])
    ensures ResultingPosition(cfg, t, s.claims[t][k].offset, s.claims[t][k].required)
            == StreamTo(cfg, t, s.claims[t][k])
  {
    hide LaidOut, Sound, ClaimsEnd;
    assert LaidOut(cfg, s.claims[t]) && LaidOut(cfg, s.claims[u]);
    if t == u {
      if k < l { ClaimsOrdered(cfg, s.claims[t], k, l); } else { ClaimsOrdered(cfg, s.claims[t], l, k); }
    } else if t < u {
      MultipleGap(u, t, cfg.termLength);
    } else {
      MultipleGap(t, u, cfg.termLength);
    }
  }

  /** The steps of a run, each by a thread. */
  datatype Move = Move(thread: nat, action: Action)

  function Run(cfg: Settings, threads: nat, moves: seq<Move>): (s: Log)
    requires cfg.Valid()
    ensures |s.tails| == PARTITION_COUNT && |s.threads| == threads
  {
    if moves == [] then Start(threads)
    else
      var before, move := Run(cfg, threads, moves[..|moves| - 1]), moves[|moves| - 1];
      if Enabled(cfg, before, move.thread, move.action) then After(cfg, before, move.thread, move.action) else before
  }

  /** A claim over the end of a term, seen from the thread that made it: a thread that had planned the term comes back
      only once the log has moved on (or never, in the last term); one that was late, having planned an earlier term
      of the same buffer, is not about to do so again. */
  ghost predicate Done(cfg: Settings, s: Log, t: nat, c: Claim) {
    c.thread < |s.threads| && c.planned <= t &&
    var pc := s.threads[c.thread];
    if c.planned < t then pc.Ready? && pc.term % PARTITION_COUNT == t % PARTITION_COUNT ==> pc.term >= t
    else
      || (s.active > t && ((pc.Planned? || pc.Ready?) ==> pc.term > t))
      || (s.active >= t && (pc.Closing? || pc.Rotating? || pc.Swapping? || pc.Advancing?) && pc.term == t)
      || (s.active >= t == LAST_TERM && !(pc.Ready? && pc.term == t))
  }

  /** Of one term and one thread there is at most one planned and one late claim over the end. */
  ghost predicate Once(cfg: Settings, s: Log) {
    && (forall t, k :: 0 <= t < |s.claims| && 0 <= k < |s.claims[t]| && Trips(cfg, s.claims[t][k]) ==>
          Done(cfg, s, t, s.claims[t][k]))
    && forall t :: 0 <= t < |s.claims| ==> Distinct(cfg, t, s.claims[t])
  }

  ghost predicate Distinct(cfg: Settings, t: nat, claims: seq<Claim>) {
    forall k, l :: 0 <= k < l < |claims| && Trips(cfg, claims[k]) && Trips(cfg, claims[l]) ==>
      Key(t, claims[k]) != Key(t, claims[l])
  }

  function Key(t: nat, c: Claim): nat { 2 * c.thread + if c.planned < t then 1 else 0 }

  lemma DoneElsewhere(cfg: Settings, s: Log, i: nat, action: Action, t: nat, c: Claim)
    requires Inv(cfg, s) && i < |s.threads| && c.thread != i && Done(cfg, s, t, c)
    ensures Done(cfg, After(cfg, s, i, action), t, c)
  {
    hide LaidOut, ClaimsEnd, Required, TailPosition, ResultingPosition, Settings.Valid, TailOf;
  }

  /** Reading the tail: a thread that has been over the end of this term is not let through again. */
  lemma DoneReadsTail(cfg: Settings, s: Log, i: nat, action: Action, t: nat, c: Claim)
    requires Inv(cfg, s) && Enabled(cfg, s, i, action) && t < |s.claims| && c.thread == i && action.ReadTail?
    requires Done(cfg, s, t, c) && ClaimsEnd(s.claims[t]) > cfg.termLength && s.threads[i].Planned?
    ensures Done(cfg, After(cfg, s, i, action), t, c)
  {
    hide LaidOut, ClaimsEnd, Required, TailPosition, Settings.Valid;
    var u := s.threads[i].term;
    assert Pending(cfg, s, s.threads[i]);
    assert TailOf(s, u % PARTITION_COUNT, s.tails[u % PARTITION_COUNT]);
    if u == t == LAST_TERM && s.tails[u % PARTITION_COUNT].term == t {
      LastTermEnd(cfg, s.tails[u % PARTITION_COUNT].offset);
    }
  }

  /** The thread of a claim over the end of a term moves on. */
  lemma DoneKept(cfg: Settings, s: Log, i: nat, action: Action, t: nat, c: Claim)
    requires Inv(cfg, s) && Enabled(cfg, s, i, action) && t < |s.claims|
    requires Done(cfg, s, t, c) && ClaimsEnd(s.claims[t]) > cfg.termLength
    ensures Done(cfg, After(cfg, s, i, action), t, c)
  {
    hide LaidOut, ClaimsEnd, Required, TailPosition, ResultingPosition, Settings.Valid, TailOf;
    var pc := s.threads[i];
    if c.thread != i {
      DoneElsewhere(cfg, s, i, action, t, c);
    } else if pc.Planned? && action.ReadTail? {
      DoneReadsTail(cfg, s, i, action, t, c);
    } else {
      assert Pending(cfg, s, pc);
      if pc.Closing? {
        ClosesBeforeLast(cfg, pc.term, pc.offset, pc.required);
      }
    }
  }

  lemma LastTermEnd(cfg: Settings, offset: nat)
    requires offset > cfg.termLength
    ensures TailPosition(cfg, LAST_TERM, offset) == cfg.MaxPossiblePosition()
  {
  }

  lemma ClosesBeforeLast(cfg: Settings, t: nat, offset: nat, required: nat)
    requires required < cfg.termLength && t <= LAST_TERM && offset + required > cfg.termLength
    ensures ResultingPosition(cfg, t, offset, required) >= cfg.MaxPossiblePosition() <==> t == LAST_TERM
  {
    MulStep(LAST_TERM, cfg.termLength);
    if t < LAST_TERM {
      MultipleGap(LAST_TERM, t, cfg.termLength);
    }
  }

  /** A thread about to claim from a term is not one that has done so before in the same way. */
  lemma NotTwice(cfg: Settings, s: Log, i: nat, term: nat, c: Claim)
    requires i < |s.threads| && s.threads[i].Ready? && Done(cfg, s, term, c)
    requires s.threads[i].term <= term && s.threads[i].term % PARTITION_COUNT == term % PARTITION_COUNT
    ensures c.thread != i || (c.planned < term) != (s.threads[i].term < term)
  {
  }

  /** A thread that makes a new claim over the end has not made one of the same kind before. */
  lemma NewTripDistinct(cfg: Settings, s: Log, i: nat, claim: Claim)
    requires Inv(cfg, s) && Once(cfg, s) && i < |s.threads| && s.threads[i].Ready?
    requires claim.thread == i && claim.planned == s.threads[i].term
    ensures var term := s.tails[claim.planned % PARTITION_COUNT].term;
            0 <= term < |s.claims| && Distinct(cfg, term, s.claims[term] + [claim])
  {
    assert Pending(cfg, s, s.threads[i]);
    ClaimedTerm(cfg, s, claim.planned);
    hide Inv, Done;
    var term := s.tails[claim.planned % PARTITION_COUNT].term;
    var before := s.claims[term];
    forall k | 0 <= k < |before| && Trips(cfg, before[k])
      ensures Key(term, before[k]) != Key(term, claim)
    {
      NotTwice(cfg, s, i, term, before[k]);
    }
    assert Distinct(cfg, term, before);
  }

  lemma TripMeansClosed(cfg: Settings, claims: seq<Claim>, k: nat)
    requires LaidOut(cfg, claims) && k < |claims| && Trips(cfg, claims[k])
    ensures ClaimsEnd(claims) > cfg.termLength
  {
    ClaimsOrdered(cfg, claims, k, |claims| - 1);
  }

  lemma FetchAddOnce(cfg: Settings, s: Log, i: nat)
    requires Inv(cfg, s) && Once(cfg, s) && i < |s.threads| && s.threads[i].Ready?
    ensures Once(cfg, After(cfg, s, i, FetchAdd))
  {
    assert cfg.maxPayload > 0;
    hide LaidOut, ClaimsEnd, Required, Settings.Valid, Distinct, Done;
    var s', t := After(cfg, s, i, FetchAdd), s.threads[i].term;
    ThreeTails(cfg, s);
    var tail := s.tails[t % PARTITION_COUNT];
    NewTripDistinct(cfg, s, i, Claim(i, tail.offset, Required(cfg, s.threads[i].length), t));
    var term := tail.term;
    assert forall u :: 0 <= u < |s.claims| && u != term ==> s'.claims[u] == s.claims[u];
    forall u, k | 0 <= u < |s'.claims| && 0 <= k < |s'.claims[u]| && Trips(cfg, s'.claims[u][k])
      ensures Done(cfg, s', u, s'.claims[u][k])
    {
      if u == term && k == |s.claims[u]| {
        NewTripDone(cfg, s, i);
      } else {
        assert s'.claims[u][k] == s.claims[u][k];
        TripMeansClosed(cfg, s.claims[u], k);
        DoneKept(cfg, s, i, FetchAdd, u, s.claims[u][k]);
      }
    }
  }

  lemma NewTripDone(cfg: Settings, s: Log, i: nat)
    requires Inv(cfg, s) && i < |s.threads| && s.threads[i].Ready?
    ensures var t := s.threads[i].term;
            var tail := s.tails[t % PARTITION_COUNT];
            var claim := Claim(i, tail.offset, Required(cfg, s.threads[i].length), t);
            tail.term >= 0 && (Trips(cfg, claim) ==> Done(cfg, After(cfg, s, i, FetchAdd), tail.term, claim))
  {
    hide LaidOut, ClaimsEnd, Required, Settings.Valid;
    assert Pending(cfg, s, s.threads[i]);
    ClaimedTerm(cfg, s, s.threads[i].term);
  }

  lemma StepKeepsOnce(cfg: Settings, s: Log, i: nat, action: Action)
    requires Inv(cfg, s) && Once(cfg, s) && Enabled(cfg, s, i, action)
    ensures Once(cfg, After(cfg, s, i, action))
  {
    hide LaidOut, ClaimsEnd, Required, Settings.Valid, Distinct, Done, TailPosition, ResultingPosition;
    var s' := After(cfg, s, i, action);
    if s.threads[i].Ready? && action.FetchAdd? {
      FetchAddOnce(cfg, s, i);
    } else {
      assert s'.claims == s.claims || s'.claims == s.claims + [[]];
      NothingClaimed(cfg, |s.claims|);
      forall u, k | 0 <= u < |s'.claims| && 0 <= k < |s'.claims[u]| && Trips(cfg, s'.claims[u][k])
        ensures Done(cfg, s', u, s'.claims[u][k])
      {
        assert s'.claims[u] == s.claims[u];
        TripMeansClosed(cfg, s.claims[u], k);
        DoneKept(cfg, s, i, action, u, s.claims[u][k]);
      }
    }
  }

  lemma NothingClaimed(cfg: Settings, t: nat)
    ensures Distinct(cfg, t, [])
  {
  }

  /** Every run keeps both invariants. */
  lemma {:induction false} RunKeeps(cfg: Settings, threads: nat, moves: seq<Move>)
    requires cfg.Valid()
    ensures Inv(cfg, Run(cfg, threads, moves)) && Once(cfg, Run(cfg, threads, moves))
    decreases |moves|
  {
    if moves == [] {
      StartInv(cfg, threads);
    } else {
      hide Inv, Once, After;
      var before, move := Run(cfg, threads, moves[..|moves| - 1]), moves[|moves| - 1];
      RunKeeps(cfg, threads, moves[..|moves| - 1]);
      if Enabled(cfg, before, move.thread, move.action) {
        StepKeeps(cfg, before, move.thread, move.action);
        StepKeepsOnce(cfg, before, move.thread, move.action);
      }
    }
  }

  /** The end of a run of claims, each of at most the greatest size. */
  lemma {:induction false} SpanBound(cfg: Settings, claims: seq<Claim>, k: nat, n: nat)
    requires LaidOut(cfg, claims) && k + n < |claims|
    ensures claims[k + n].offset <= claims[k].offset + n * MaxRequired(cfg)
    decreases n
  {
    hide MaxRequired;
    if n > 0 {
      SpanBound(cfg, claims, k, n - 1);
      assert Sound(cfg, claims[k + n - 1]);
      MulStep(n - 1, MaxRequired(cfg));
    }
  }

  /** At most two claims per thread run over the end of a term. */
  lemma OverCount(cfg: Settings, s: Log, t: nat, k: nat)
    requires Once(cfg, s) && t < |s.claims| && k <= |s.claims[t]|
    requires forall l :: k <= l < |s.claims[t]| ==> Trips(cfg, s.claims[t][l])
    ensures |s.claims[t]| - k <= 2 * |s.threads|
  {
    hide Trips;
    var claims, over := s.claims[t], |s.claims[t]| - k;
    assert Distinct(cfg, t, claims);
    var keys := seq(over, j requires 0 <= j < over => Key(t, claims[k + j]));
    forall j | 0 <= j < over
      ensures 0 <= keys[j] < 2 * |s.threads|
    {
      assert Trips(cfg, claims[k + j]) && Done(cfg, s, t, claims[k + j]);
      assert keys[j] == Key(t, claims[k + j]);
    }
    Pigeonhole(keys, 2 * |s.threads|);
  }

  /** Where a run of claims ends that starts below the end of the term. */
  lemma OverSpan(cfg: Settings, claims: seq<Claim>, k: nat, bound: nat)
    requires LaidOut(cfg, claims) && k < |claims| <= k + bound && claims[k].offset <= cfg.termLength
    ensures ClaimsEnd(claims) <= cfg.termLength + bound * MaxRequired(cfg)
  {
    var over := |claims| - k;
    SpanBound(cfg, claims, k, over - 1);
    assert Sound(cfg, claims[|claims| - 1]);
    hide MaxRequired, LaidOut;
    MulStep(over - 1, MaxRequired(cfg));
    MulMonotone(over, bound, MaxRequired(cfg));
  }

  /** No raw tail offset ever exceeds the term by more than two greatest claims per thread. */
  lemma TailOffsetBound(cfg: Settings, s: Log, t: nat)
    requires Inv(cfg, s) && Once(cfg, s) && t < |s.claims|
    ensures ClaimsEnd(s.claims[t]) <= cfg.termLength + 2 * |s.threads| * MaxRequired(cfg)
  {
    var claims := s.claims[t];
    assert LaidOut(cfg, claims);
    hide MaxRequired, LaidOut, Inv, Once, ClaimsEnd;
    if ClaimsEnd(claims) > cfg.termLength {
      var k := FirstTrip(cfg, claims);
      OverCount(cfg, s, t, k);
      OverSpan(cfg, claims, k, 2 * |s.threads|);
    } else {
      MulMonotone(0, 2 * |s.threads|, MaxRequired(cfg));
    }
  }

  lemma MulMonotone(a: nat, b: nat, d: nat)
    requires a <= b
    ensures a * d <= b * d
  {
  }

  /** As long as two greatest claims per thread fit between the term and 2^32, no fetch-and-add of any run carries
      into the term id. */
  lemma OffsetsStaySmall(cfg: Settings, threads: nat, moves: seq<Move>, p: nat)
    requires cfg.Valid() && p < PARTITION_COUNT
    requires cfg.termLength + 2 * threads * MaxRequired(cfg) < TWO_32
    ensures var tail := Run(cfg, threads, moves).tails[p];
            tail.term >= 0 ==> tail.offset < TWO_32
  {
    hide Inv, Once, MaxRequired;
    RunKeeps(cfg, threads, moves);
    var s := Run(cfg, threads, moves);
    TailIsEnd(cfg, s, p);
    if s.tails[p].term >= 0 {
      TailOffsetBound(cfg, s, s.tails[p].term);
    }
  }

  lemma TailIsEnd(cfg: Settings, s: Log, p: nat)
    requires Inv(cfg, s) && p < PARTITION_COUNT
    ensures s.tails[p].term >= 0 ==>
            s.tails[p].term < |s.claims| && s.tails[p].offset == ClaimsEnd(s.claims[s.tails[p].term])
  {
    assert TailOf(s, p, s.tails[p]);
  }

  /** The raw 64-bit value of a tail. */
  function Packed(initialTermId: int, tail: Tail): int
    requires tail.offset < TWO_32
  {
    PackTail(Wrap32(initialTermId + tail.term), tail.offset)
  }

  /** Pairs stand for raw tails: equal exactly when the raw values are (so that a compare-and-swap decides the same),
      with the term id and offset that are read from them, and adding to the raw value adds to the offset. */
  lemma PairsPack(initialTermId: int, a: Tail, b: Tail, required: nat)
    requires IsInt32(initialTermId) && a.offset + required < TWO_32 && b.offset < TWO_32
    requires -3 < a.term < TERMS_IN_STREAM && -3 < b.term < TERMS_IN_STREAM
    ensures Packed(initialTermId, a) == Packed(initialTermId, b) <==> a == b
    ensures TailTermId(Packed(initialTermId, a)) == Wrap32(initialTermId + a.term)
    ensures Packed(initialTermId, a) + required == Packed(initialTermId, a.(offset := a.offset + required))
    ensures a.term >= 0 ==> Wrap32(TailTermId(Packed(initialTermId, a)) - initialTermId) == a.term
  {
    TailUnpacks(Wrap32(initialTermId + a.term), a.offset, 0);
    TailUnpacks(Wrap32(initialTermId + b.term), b.offset, 0);
    WrapDistinct(initialTermId, a.term, b.term);
    if a.term >= 0 {
      TermCountSurvivesWrap(initialTermId, a.term);
    }
    var x, y := Wrap32(initialTermId + a.term), Wrap32(initialTermId + b.term);
    if x * TWO_32 + a.offset == y * TWO_32 + b.offset {
      assert x == y;
    }
  }

  lemma WrapDistinct(initialTermId: int, a: int, b: int)
    requires -3 < a < TERMS_IN_STREAM && -3 < b < TERMS_IN_STREAM
    ensures Wrap32(initialTermId + a) == Wrap32(initialTermId + b) <==> a == b
  {
  }

  /** Terms are taken in turn: along a run the active count and the newest term never fall and rise by at most one a
      step, and by the time a term is superseded in its buffer, it and the two terms after it have been closed. */
  lemma TermsInTurn(cfg: Settings, s: Log, i: nat, action: Action)
    requires Inv(cfg, s) && Enabled(cfg, s, i, action)
    ensures var s' := After(cfg, s, i, action);
            && s.active <= s'.active <= s.active + 1
            && |s.claims| <= |s'.claims| <= |s.claims| + 1
            && (s'.active > s.active ==> ClaimsEnd(s.claims[s.active]) > cfg.termLength)
            && (forall t :: 0 <= t < |s.claims| ==> s.claims[t] <= s'.claims[t])
            && (|s'.claims| > |s.claims| ==>
                  forall t :: 0 <= t < |s.claims| ==>
                    ClaimsEnd(s'.claims[t]) > cfg.termLength && s'.claims[t] == s.claims[t])
  {
    hide LaidOut, ClaimsEnd, Required, Settings.Valid, TailPosition, ResultingPosition;
    assert Pending(cfg, s, s.threads[i]);
    match (s.threads[i], action)
    case (Ready(t, _), FetchAdd) => ClaimedTerm(cfg, s, t);
    case (Swapping(t, _), Swap) => NextTail(cfg, s, t);
    case _ =>
  }
}
