/**
 When the active term count of a publication with many writers can fall behind for good
 (LogBufferDescriptor::rotateLog): the count is advanced only by a thread that rotates out of exactly the counted term,
 and threads that planned their offers early claim from whatever term their buffer holds by then.
 */
module RotationStalls {
  import opened Framing
  import opened ExclusivePublications
  import opened Rotation
  import opened RotationGuarantees

  /** The tail that the next offers read is that of the counted term exactly as long as no more than two terms have been
      installed after it; otherwise it is that of a later one, and they all give up. */
  lemma TailIsCurrentIff(cfg: Settings, s: Log)
    requires Inv(cfg, s)
    ensures |s.tails| == 3 && s.active < |s.claims|
    ensures s.tails[s.active % 3].term == s.active <==> |s.claims| - 1 <= s.active + 2
    ensures s.tails[s.active % 3].term >= s.active
  {
    hide LaidOut, ClaimsEnd, Pending;
    ClaimedTerm(cfg, s, s.active);
  }

  /** A thread that is going to advance the count from term `t`. */
  predicate RotatesOut(pc: Pc, t: nat) {
    match pc
    case Closing(u, _, _) => u == t
    case Rotating(u) => u == t
    case Swapping(u, _) => u == t
    case Advancing(u) => u == t
    case _ => false
  }

  /** Three terms or more have been installed after the counted one, and no thread is rotating out of that. */
  ghost predicate Stalled(s: Log) {
    |s.claims| - 1 >= s.active + 3 && forall i :: 0 <= i < |s.threads| ==> !RotatesOut(s.threads[i], s.active)
  }

  /** A stalled publication stays so whatever its threads do, and no thread can plan a claim any more. */
  lemma StalledStays(cfg: Settings, s: Log, i: nat, action: Action)
    requires Inv(cfg, s) && Stalled(s) && Enabled(cfg, s, i, action)
    ensures |s.tails| == 3
    ensures var s' := After(cfg, s, i, action);
            && Stalled(s') && s'.active == s.active && |s'.threads| == |s.threads|
            && forall j :: 0 <= j < |s.threads| && s'.threads[j].Ready? ==> s.threads[j].Ready?
  {
    hide LaidOut, ClaimsEnd, Required, Settings.Valid, ResultingPosition, TailPosition;
    assert Pending(cfg, s, s.threads[i]);
    match (s.threads[i], action)
    case (Planned(t), ReadTail(_, _)) => ClaimedTerm(cfg, s, t);
    case (Ready(t, _), FetchAdd) => ClaimedTerm(cfg, s, t);
    case _ =>
  }

  /** Moves from any state on; a move that its thread may not make is left out. */
  function Onward(cfg: Settings, s: Log, moves: seq<Move>): (s': Log)
    requires cfg.Valid() && |s.tails| == 3
    ensures |s'.tails| == 3 && |s'.threads| == |s.threads|
    decreases |moves|
  {
    if moves == [] then s
    else if Enabled(cfg, s, moves[0].thread, moves[0].action) then
      Onward(cfg, After(cfg, s, moves[0].thread, moves[0].action), moves[1..])
    else Onward(cfg, s, moves[1..])
  }

  lemma {:induction false} OnwardJoins(cfg: Settings, s: Log, a: seq<Move>, b: seq<Move>)
    requires cfg.Valid() && |s.tails| == 3
    ensures Onward(cfg, s, a + b) == Onward(cfg, Onward(cfg, s, a), b)
    decreases |a|
  {
    if a == [] {
      assert a + b == b;
    } else {
      assert (a + b)[1..] == a[1..] + b;
      OnwardJoins(cfg, if Enabled(cfg, s, a[0].thread, a[0].action) then After(cfg, s, a[0].thread, a[0].action) else s,
                  a[1..], b);
    }
  }

  lemma {:induction false} RunIsOnward(cfg: Settings, threads: nat, moves: seq<Move>)
    requires cfg.Valid()
    ensures Run(cfg, threads, moves) == Onward(cfg, Start(threads), moves)
    decreases |moves|
  {
    if moves != [] {
      var front, last := moves[..|moves| - 1], moves[|moves| - 1];
      RunIsOnward(cfg, threads, front);
      OnwardJoins(cfg, Start(threads), front, [last]);
      assert front + [last] == moves && [last][1..] == [];
    }
  }

  /** For good. */
  lemma {:induction false} StalledForever(cfg: Settings, s: Log, moves: seq<Move>)
    requires Inv(cfg, s) && Stalled(s)
    ensures cfg.Valid() && |s.tails| == 3
    ensures var s' := Onward(cfg, s, moves);
            && Inv(cfg, s') && Stalled(s') && s'.active == s.active
            && forall j :: 0 <= j < |s.threads| && s'.threads[j].Ready? ==> s.threads[j].Ready?
    decreases |moves|
  {
    hide Stalled, Shared, Pending, After;
    TailIsCurrentIff(cfg, s);
    if moves != [] {
      var i, action := moves[0].thread, moves[0].action;
      if Enabled(cfg, s, i, action) {
        StepKeeps(cfg, s, i, action);
        StalledStays(cfg, s, i, action);
        StalledForever(cfg, After(cfg, s, i, action), moves[1..]);
      } else {
        StalledForever(cfg, s, moves[1..]);
      }
    }
  }

  /** No thread is past reading the tail. */
  predicate Calm(s: Log) {
    forall i :: 0 <= i < |s.threads| ==> s.threads[i].Idle? || s.threads[i].Planned?
  }

  /** Once the threads of a stalled publication are through with what they had begun, nothing more is ever claimed. */
  lemma {:induction false} NothingMoreClaimed(cfg: Settings, s: Log, moves: seq<Move>)
    requires Inv(cfg, s) && Stalled(s) && Calm(s)
    ensures cfg.Valid() && |s.tails| == 3
    ensures var s' := Onward(cfg, s, moves);
            s'.claims == s.claims && s'.tails == s.tails && s'.active == s.active && Calm(s')
    decreases |moves|
  {
    TailIsCurrentIff(cfg, s);
    if moves != [] {
      var i, action := moves[0].thread, moves[0].action;
      if Enabled(cfg, s, i, action) {
        hide Stalled, Inv, Onward, Required, TailPosition, ResultingPosition, Settings.Valid;
        StepKeeps(cfg, s, i, action);
        StalledStays(cfg, s, i, action);
        var s' := After(cfg, s, i, action);
        assert Calm(s');
        NothingMoreClaimed(cfg, s', moves[1..]);
        OnwardFirst(cfg, s, moves);
      } else {
        NothingMoreClaimed(cfg, s, moves[1..]);
      }
    }
  }

  lemma OnwardFirst(cfg: Settings, s: Log, moves: seq<Move>)
    requires cfg.Valid() && |s.tails| == 3 && moves != [] && Enabled(cfg, s, moves[0].thread, moves[0].action)
    ensures Onward(cfg, s, moves)
            == Onward(cfg, After(cfg, s, moves[0].thread, moves[0].action), moves[1..])
  {
  }

  /** A thread rotating out of the counted term, once the next one is there, by its own steps. */
  lemma RotatesOn(cfg: Settings, s: Log, i: nat) returns (moves: seq<Move>)
    requires Inv(cfg, s) && i < |s.threads| && RotatesOut(s.threads[i], s.active) && s.active + 1 < |s.claims|
    ensures cfg.Valid() && |s.tails| == 3 && Onward(cfg, s, moves).active == s.active + 1
    decreases match s.threads[i] case Closing(_, _, _) => 3 case Swapping(_, _) => 2 case Rotating(_) => 1 case _ => 0
  {
    hide LaidOut, ClaimsEnd, Required, Settings.Valid, ResultingPosition, TailPosition, Onward;
    TailIsCurrentIff(cfg, s);
    assert Pending(cfg, s, s.threads[i]);
    NextTail(cfg, s, s.active);
    var action := match s.threads[i]
      case Closing(_, _, _) => Close
      case Swapping(_, _) => Swap
      case Rotating(_) => ReadNext
      case _ => Advance;
    var s' := After(cfg, s, i, action);
    OneMove(cfg, s, i, action);
    StepKeeps(cfg, s, i, action);
    if action.Advance? {
      moves := [Move(i, action)];
    } else {
      if action.Close? {
        ClosesBeforeLast(cfg, s.active, s.threads[i].offset, s.threads[i].required);
      }
      var rest := RotatesOn(cfg, s', i);
      OnwardJoins(cfg, s, [Move(i, action)], rest);
      moves := [Move(i, action)] + rest;
    }
  }

  lemma OneMove(cfg: Settings, s: Log, i: nat, action: Action)
    requires cfg.Valid() && |s.tails| == 3 && Enabled(cfg, s, i, action)
    ensures Onward(cfg, s, [Move(i, action)]) == After(cfg, s, i, action)
  {
    assert [Move(i, action)][1..] == [];
  }

  /** An offer on a counted term that has been closed claims beyond its end, and so comes to rotate out of it. */
  lemma OfferRotates(cfg: Settings, s: Log, i: nat) returns (moves: seq<Move>)
    requires Inv(cfg, s) && i < |s.threads| && s.threads[i].Idle? && s.active + 1 < |s.claims| <= s.active + 3
    ensures cfg.Valid() && |s.tails| == 3
    ensures var s' := Onward(cfg, s, moves);
            && Inv(cfg, s') && |s'.threads| == |s.threads| && RotatesOut(s'.threads[i], s.active)
            && s'.active == s.active && |s'.claims| == |s.claims|
  {
    hide LaidOut, Required, Settings.Valid, Onward;
    TailIsCurrentIff(cfg, s);
    ClaimedTerm(cfg, s, s.active);
    var one := After(cfg, s, i, ReadCount);
    StepKeeps(cfg, s, i, ReadCount);
    OneMove(cfg, s, i, ReadCount);
    var read := ReadTail(0, cfg.MaxPossiblePosition());
    BelowGreatest(cfg, s.active, s.tails[s.active % 3].offset);
    var two := After(cfg, one, i, read);
    StepKeeps(cfg, one, i, read);
    OneMove(cfg, one, i, read);
    StepKeeps(cfg, two, i, FetchAdd);
    OneMove(cfg, two, i, FetchAdd);
    moves := [Move(i, ReadCount)] + [Move(i, read)] + [Move(i, FetchAdd)];
    OnwardJoins(cfg, s, [Move(i, ReadCount)] + [Move(i, read)], [Move(i, FetchAdd)]);
    OnwardJoins(cfg, s, [Move(i, ReadCount)], [Move(i, read)]);
  }

  /** The position read in a term before the last is below the greatest. */
  lemma BelowGreatest(cfg: Settings, t: nat, offset: nat)
    requires cfg.Valid() && t < LAST_TERM
    ensures TailPosition(cfg, t, offset) < cfg.MaxPossiblePosition()
  {
    MultipleGap(TERMS_IN_STREAM, t + 1, cfg.termLength);
  }

  /** Of a publication whose newest term is not the counted one, some steps advance the count exactly when it is not
      stalled. */
  lemma CountAdvancesIff(cfg: Settings, s: Log, i: nat)
    requires Inv(cfg, s) && s.active + 1 < |s.claims| && i < |s.threads| && s.threads[i].Idle?
    ensures cfg.Valid() && |s.tails| == 3
    ensures (exists moves :: Onward(cfg, s, moves).active > s.active) <==> !Stalled(s)
  {
    hide Inv, Onward;
    TailIsCurrentIff(cfg, s);
    InvValid(cfg, s);
    if Stalled(s) {
      forall moves
        ensures Onward(cfg, s, moves).active == s.active
      {
        StalledForever(cfg, s, moves);
      }
    } else if j: nat :| j < |s.threads| && RotatesOut(s.threads[j], s.active) {
      var moves := RotatesOn(cfg, s, j);
    } else {
      var offer := OfferRotates(cfg, s, i);
      var rest := RotatesOn(cfg, Onward(cfg, s, offer), i);
      OnwardJoins(cfg, s, offer, rest);
    }
  }

  lemma InvValid(cfg: Settings, s: Log)
    requires Inv(cfg, s)
    ensures cfg.Valid()
  {
  }

  /** A fetch-and-add over the end of a term was planned for that term. */
  predicate OnTime(cfg: Settings, s: Log, i: nat, action: Action)
    requires cfg.Valid() && |s.tails| == 3 && i < |s.threads|
  {
    s.threads[i].Ready? && action.FetchAdd? ==>
      var tail := s.tails[s.threads[i].term % 3];
      tail.offset + Required(cfg, s.threads[i].length) > cfg.termLength ==> tail.term == s.threads[i].term
  }

  /** The count is at most one term behind, and no thread is closing a term beyond it. */
  predicate InStep(s: Log) {
    && |s.claims| - 1 <= s.active + 1
    && forall i :: 0 <= i < |s.threads| ==>
         match s.threads[i]
         case Closing(t, _, _) => t <= s.active
         case Rotating(t) => t <= s.active
         case Swapping(t, _) => t <= s.active
         case _ => true
  }

  lemma InStepKeeps(cfg: Settings, s: Log, i: nat, action: Action)
    requires Inv(cfg, s) && InStep(s) && Enabled(cfg, s, i, action)
    requires |s.tails| == 3 && cfg.Valid() && OnTime(cfg, s, i, action)
    ensures InStep(After(cfg, s, i, action))
  {
    hide LaidOut, ClaimsEnd, Required, Settings.Valid, ResultingPosition, TailPosition;
    assert Pending(cfg, s, s.threads[i]);
    if s.threads[i].Swapping? {
      NextTail(cfg, s, s.threads[i].term);
    }
  }

  /** Moves of which each is on time. */
  predicate AllOnTime(cfg: Settings, s: Log, moves: seq<Move>)
    requires cfg.Valid() && |s.tails| == 3
    decreases |moves|
  {
    moves == [] ||
    if Enabled(cfg, s, moves[0].thread, moves[0].action) then
      && OnTime(cfg, s, moves[0].thread, moves[0].action)
      && AllOnTime(cfg, After(cfg, s, moves[0].thread, moves[0].action), moves[1..])
    else AllOnTime(cfg, s, moves[1..])
  }

  /** As long as no claim over the end of a term comes late, the count keeps up: in no such run is it ever more than one
      term behind, so offers always read the tail of the counted term. */
  lemma OnTimeKeepsUp(cfg: Settings, threads: nat, moves: seq<Move>)
    requires cfg.Valid() && AllOnTime(cfg, Start(threads), moves)
    ensures var s := Run(cfg, threads, moves);
            && |s.claims| - 1 <= s.active + 1 && !Stalled(s) && s.tails[s.active % 3].term == s.active
  {
    hide Inv, AllOnTime, Onward;
    StartInv(cfg, threads);
    RunIsOnward(cfg, threads, moves);
    OnwardInStep(cfg, Start(threads), moves);
    TailIsCurrentIff(cfg, Onward(cfg, Start(threads), moves));
  }

  lemma {:induction false} OnwardInStep(cfg: Settings, s: Log, moves: seq<Move>)
    requires cfg.Valid() && Inv(cfg, s) && InStep(s) && |s.tails| == 3 && AllOnTime(cfg, s, moves)
    ensures Inv(cfg, Onward(cfg, s, moves)) && InStep(Onward(cfg, s, moves))
    decreases |moves|
  {
    hide Inv, InStep, After, OnTime;
    if moves != [] {
      var i, action := moves[0].thread, moves[0].action;
      if Enabled(cfg, s, i, action) {
        StepKeeps(cfg, s, i, action);
        InStepKeeps(cfg, s, i, action);
        TailIsCurrentIff(cfg, After(cfg, s, i, action));
        OnwardInStep(cfg, After(cfg, s, i, action), moves[1..]);
      } else {
        OnwardInStep(cfg, s, moves[1..]);
      }
    }
  }

  /** Everything that decides what happens next, but for what the claims were. */
  predicate At(s: Log, tails: seq<Tail>, active: nat, threads: seq<Pc>, terms: nat) {
    s.tails == tails && s.active == active && s.threads == threads && |s.claims| == terms
  }

  /** A frame of which one fits a term and two do not. */
  predicate HalfTerm(cfg: Settings, length: nat)
    requires cfg.Valid()
  {
    length <= cfg.maxPayload && Required(cfg, length) <= cfg.termLength < 2 * Required(cfg, length)
  }

  /** A thread plans an offer while the counted term is empty. */
  lemma GetsReady(cfg: Settings, s: Log, i: nat, length: nat) returns (moves: seq<Move>)
    requires cfg.Valid() && |s.tails| == 3 && i < |s.threads| && s.threads[i].Idle? && HalfTerm(cfg, length)
    requires s.tails[s.active % 3] == Tail(s.active, 0) && s.active < LAST_TERM
    ensures Onward(cfg, s, moves) == s.(threads := s.threads[i := Ready(s.active, length)])
  {
    hide Onward, Required;
    var one, read := After(cfg, s, i, ReadCount), ReadTail(length, cfg.MaxPossiblePosition());
    OneMove(cfg, s, i, ReadCount);
    OneMove(cfg, one, i, read);
    BelowGreatest(cfg, s.active, 0);
    moves := [Move(i, ReadCount)] + [Move(i, read)];
    OnwardJoins(cfg, s, [Move(i, ReadCount)], [Move(i, read)]);
    assert s.threads[i := Planned(s.active)][i := Ready(s.active, length)] == s.threads[i := Ready(s.active, length)];
  }

  /** Two threads that planned a term of this buffer fill the one it holds now, which is the newest, and the second
      installs the next. */
  lemma TwoFill(cfg: Settings, s: Log, i: nat, j: nat, t: nat, u: nat, length: nat) returns (moves: seq<Move>)
    requires cfg.Valid() && |s.tails| == 3 && i < |s.threads| && j < |s.threads| && i != j && HalfTerm(cfg, length)
    requires s.threads[i] == Ready(t, length) && s.threads[j] == Ready(t, length) && t % 3 == u % 3
    requires s.tails[u % 3] == Tail(u, 0) && s.tails[(u + 1) % 3].term == u - 2
    requires u == |s.claims| - 1 && u + 1 < LAST_TERM
    ensures var full := Tail(u, 2 * Required(cfg, length));
            At(Onward(cfg, s, moves), s.tails[u % 3 := full][(u + 1) % 3 := Tail(u + 1, 0)], s.active,
               s.threads[i := Idle][j := Advancing(u)], |s.claims| + 1)
  {
    hide Onward, Required;
    var space := Required(cfg, length);
    var one := After(cfg, s, i, FetchAdd);
    OneMove(cfg, s, i, FetchAdd);
    var two := After(cfg, one, j, FetchAdd);
    OneMove(cfg, one, j, FetchAdd);
    assert At(two, s.tails[u % 3 := Tail(u, 2 * space)], s.active, s.threads[i := Idle][j := Closing(u, space, space)],
              |s.claims|);
    var rest := Installs(cfg, two, j, u, space);
    moves := [Move(i, FetchAdd)] + [Move(j, FetchAdd)] + rest;
    OnwardJoins(cfg, s, [Move(i, FetchAdd)] + [Move(j, FetchAdd)], rest);
    OnwardJoins(cfg, s, [Move(i, FetchAdd)], [Move(j, FetchAdd)]);
    assert s.threads[i := Idle][j := Closing(u, space, space)][j := Advancing(u)]
        == s.threads[i := Idle][j := Advancing(u)];
  }

  lemma Installs(cfg: Settings, s: Log, j: nat, u: nat, space: nat) returns (moves: seq<Move>)
    requires cfg.Valid() && |s.tails| == 3 && j < |s.threads| && s.threads[j] == Closing(u, space, space)
    requires u + 1 < LAST_TERM && s.tails[(u + 1) % 3].term == u - 2 && space <= cfg.termLength < 2 * space
    ensures At(Onward(cfg, s, moves), s.tails[(u + 1) % 3 := Tail(u + 1, 0)], s.active, s.threads[j := Advancing(u)],
               |s.claims| + 1)
  {
    hide Onward;
    EndsBeforeLast(cfg, u, space);
    var one := After(cfg, s, j, Close);
    OneMove(cfg, s, j, Close);
    var two := After(cfg, one, j, ReadNext);
    OneMove(cfg, one, j, ReadNext);
    var three := After(cfg, two, j, Swap);
    OneMove(cfg, two, j, Swap);
    moves := [Move(j, Close)] + [Move(j, ReadNext)] + [Move(j, Swap)];
    OnwardJoins(cfg, s, [Move(j, Close)] + [Move(j, ReadNext)], [Move(j, Swap)]);
    OnwardJoins(cfg, s, [Move(j, Close)], [Move(j, ReadNext)]);
    assert three.threads == s.threads[j := Advancing(u)];
  }

  lemma EndsBeforeLast(cfg: Settings, u: nat, space: nat)
    requires cfg.Valid() && u + 1 < LAST_TERM && space <= cfg.termLength < 2 * space
    ensures ResultingPosition(cfg, u, space, space) < cfg.MaxPossiblePosition()
  {
    MultipleGap(TERMS_IN_STREAM, u + 2, cfg.termLength);
    assert (u + 2) * cfg.termLength == u * cfg.termLength + 2 * cfg.termLength;
  }

  /** A thread advances the count if it is that of the term it has rotated out of. */
  lemma Advances(cfg: Settings, s: Log, j: nat, u: nat) returns (moves: seq<Move>)
    requires cfg.Valid() && |s.tails| == 3 && j < |s.threads| && s.threads[j] == Advancing(u)
    ensures At(Onward(cfg, s, moves), s.tails, if s.active == u then u + 1 else s.active, s.threads[j := Idle],
               |s.claims|)
  {
    OneMove(cfg, s, j, Advance);
    moves := [Move(j, Advance)];
  }

  /** Two threads plan the counted term, which is empty. */
  lemma TwoReady(cfg: Settings, s: Log, i: nat, j: nat, length: nat) returns (moves: seq<Move>)
    requires cfg.Valid() && |s.tails| == 3 && i < |s.threads| && j < |s.threads| && i != j && HalfTerm(cfg, length)
    requires s.threads[i].Idle? && s.threads[j].Idle? && s.tails[s.active % 3] == Tail(s.active, 0)
    requires s.active < LAST_TERM
    ensures At(Onward(cfg, s, moves), s.tails, s.active,
               s.threads[i := Ready(s.active, length)][j := Ready(s.active, length)], |s.claims|)
  {
    hide Onward, HalfTerm;
    var first := GetsReady(cfg, s, i, length);
    var second := GetsReady(cfg, Onward(cfg, s, first), j, length);
    OnwardJoins(cfg, s, first, second);
    moves := first + second;
  }

  /** Two threads, one term: from both idle to the next term installed, with the second about to advance the count. */
  lemma OneTerm(cfg: Settings, s: Log, length: nat) returns (moves: seq<Move>)
    requires cfg.Valid() && |s.tails| == 3 && |s.threads| >= 2 && HalfTerm(cfg, length)
    requires s.threads[0].Idle? && s.threads[1].Idle? && s.active == |s.claims| - 1 && s.active + 1 < LAST_TERM
    requires s.tails[s.active % 3] == Tail(s.active, 0) && s.tails[(s.active + 1) % 3].term == s.active - 2
    ensures var full := Tail(s.active, 2 * Required(cfg, length));
            At(Onward(cfg, s, moves), s.tails[s.active % 3 := full][(s.active + 1) % 3 := Tail(s.active + 1, 0)],
               s.active, s.threads[1 := Advancing(s.active)], |s.claims| + 1)
  {
    hide Onward, HalfTerm, Required;
    var first := TwoReady(cfg, s, 0, 1, length);
    var mid := Onward(cfg, s, first);
    var second := TwoFill(cfg, mid, 0, 1, s.active, s.active, length);
    OnwardJoins(cfg, s, first, second);
    moves := first + second;
    assert mid.threads[0 := Idle][1 := Advancing(s.active)] == s.threads[1 := Advancing(s.active)];
  }

  /** Eight threads, of which two at a time have planned the terms from `from` up to `to`. */
  function Waiting(from: nat, to: nat, length: nat): (threads: seq<Pc>)
    ensures |threads| == 8
  {
    seq(8, i requires 0 <= i < 8 => if i >= 2 && from <= (i - 2) / 2 < to then Ready((i - 2) / 2, length) else Idle)
  }

  /** The tails when term `n` is the newest and empty and those before it have been filled. */
  function TailsAt(n: nat, full: nat): (tails: seq<Tail>)
    ensures |tails| == 3
  {
    seq(3, p requires 0 <= p < 3 =>
        if p == n % 3 then Tail(n, 0)
        else if p == (n + 2) % 3 then Tail(n - 1, if n >= 1 then full else 0)
        else Tail(n - 2, if n >= 2 then full else 0))
  }

  lemma NextTails(n: nat, full: nat)
    ensures TailsAt(n, full)[n % 3] == Tail(n, 0) && TailsAt(n, full)[(n + 1) % 3].term == n - 2
    ensures TailsAt(n, full)[n % 3 := Tail(n, full)][(n + 1) % 3 := Tail(n + 1, 0)] == TailsAt(n + 1, full)
  {
    assert (n + 1) % 3 == (n + 1 + 3) % 3 != n % 3;
  }

  /** While term `k` is counted, two threads plan it, and two others fill it and install the next. */
  lemma PlansAhead(cfg: Settings, s: Log, k: nat, length: nat) returns (moves: seq<Move>)
    requires cfg.Valid() && HalfTerm(cfg, length) && k < 3
    requires At(s, TailsAt(k, 2 * Required(cfg, length)), k, Waiting(0, k, length), k + 1)
    ensures At(Onward(cfg, s, moves), TailsAt(k + 1, 2 * Required(cfg, length)), k,
               Waiting(0, k + 1, length)[1 := Advancing(k)], k + 2)
  {
    hide Onward, HalfTerm, Required, TailsAt;
    NextTails(k, 2 * Required(cfg, length));
    var first := TwoReady(cfg, s, 2 + 2 * k, 3 + 2 * k, length);
    var mid := Onward(cfg, s, first);
    assert mid.threads == Waiting(0, k + 1, length);
    var second := OneTerm(cfg, mid, length);
    OnwardJoins(cfg, s, first, second);
    moves := first + second;
  }

  /** The two threads that planned term `k` fill the one that is three terms later. */
  lemma FillsLate(cfg: Settings, s: Log, k: nat, length: nat) returns (moves: seq<Move>)
    requires cfg.Valid() && HalfTerm(cfg, length) && k < 3
    requires At(s, TailsAt(k + 3, 2 * Required(cfg, length)), 2, Waiting(k, 3, length)[1 := Advancing(2)], k + 4)
    ensures At(Onward(cfg, s, moves), TailsAt(k + 4, 2 * Required(cfg, length)), 2,
               Waiting(k + 1, 3, length)[1 := Advancing(2)], k + 5)
  {
    hide Onward, HalfTerm, Required, TailsAt;
    NextTails(k + 3, 2 * Required(cfg, length));
    var first := TwoFill(cfg, s, 2 + 2 * k, 3 + 2 * k, k, k + 3, length);
    var mid := Onward(cfg, s, first);
    var second := Advances(cfg, mid, 3 + 2 * k, k + 3);
    OnwardJoins(cfg, s, first, second);
    moves := first + second;
    assert mid.threads[3 + 2 * k := Idle] == Waiting(k + 1, 3, length)[1 := Advancing(2)];
  }

  /** Eight threads can stall a publication whose frames may take more than half a term: three pairs plan terms 0, 1 and
      2, and a thread that has installed term 3 is held up before it advances the count; meanwhile the pairs fill terms
      3, 4 and 5. Then the count comes to 3 while the newest term is 6, all threads are idle, and no later offer ever
      makes a claim. */
  lemma StallReached(cfg: Settings, length: nat) returns (moves: seq<Move>)
    requires cfg.Valid() && HalfTerm(cfg, length)
    ensures var s := Run(cfg, 8, moves);
            && Inv(cfg, s) && Stalled(s) && s.active == 3 && |s.claims| == 7
            && (forall i :: 0 <= i < 8 ==> s.threads[i].Idle?)
            && forall more :: Run(cfg, 8, moves + more).claims == s.claims && Run(cfg, 8, moves + more).active == 3
  {
    hide Onward, HalfTerm, Required, Inv, TailsAt;
    var ahead := ThreeTermsOn(cfg, length);
    moves := ahead;
    for k := 0 to 3
      invariant At(Onward(cfg, Start(8), moves), TailsAt(k + 3, 2 * Required(cfg, length)), 2,
                   Waiting(k, 3, length)[1 := Advancing(2)], k + 4)
    {
      var more := FillsLate(cfg, Onward(cfg, Start(8), moves), k, length);
      OnwardJoins(cfg, Start(8), moves, more);
      moves := moves + more;
    }
    var last := Advances(cfg, Onward(cfg, Start(8), moves), 1, 2);
    OnwardJoins(cfg, Start(8), moves, last);
    moves := moves + last;
    RunIsOnward(cfg, 8, moves);
    RunKeeps(cfg, 8, moves);
    forall more
      ensures Run(cfg, 8, moves + more).claims == Run(cfg, 8, moves).claims && Run(cfg, 8, moves + more).active == 3
    {
      RunIsOnward(cfg, 8, moves + more);
      OnwardJoins(cfg, Start(8), moves, more);
      NothingMoreClaimed(cfg, Run(cfg, 8, moves), more);
    }
  }

  lemma ThreeTermsOn(cfg: Settings, length: nat) returns (moves: seq<Move>)
    requires cfg.Valid() && HalfTerm(cfg, length)
    ensures At(Onward(cfg, Start(8), moves), TailsAt(3, 2 * Required(cfg, length)), 2,
               Waiting(0, 3, length)[1 := Advancing(2)], 4)
  {
    assert At(Start(8), TailsAt(0, 2 * Required(cfg, length)), 0, Waiting(0, 0, length), 1);
    assert Onward(cfg, Start(8), []) == Start(8);
    hide Onward, HalfTerm, Required, TailsAt;
    moves := [];
    for k := 0 to 2
      invariant At(Onward(cfg, Start(8), moves), TailsAt(k, 2 * Required(cfg, length)), k, Waiting(0, k, length), k + 1)
    {
      var plan := PlansAhead(cfg, Onward(cfg, Start(8), moves), k, length);
      OnwardJoins(cfg, Start(8), moves, plan);
      moves := moves + plan;
      var advance := Advances(cfg, Onward(cfg, Start(8), moves), 1, k);
      OnwardJoins(cfg, Start(8), moves, advance);
      moves := moves + advance;
      assert Waiting(0, k + 1, length)[1 := Advancing(k)][1 := Idle] == Waiting(0, k + 1, length);
    }
    var plan := PlansAhead(cfg, Onward(cfg, Start(8), moves), 2, length);
    OnwardJoins(cfg, Start(8), moves, plan);
    moves := moves + plan;
  }

  /** Such a publication: terms of 64 KiB and frames of the greatest size. */
  lemma StallExample()
    ensures var cfg := Settings(0x1_0000, 0xFFC0, 0x2000, 0, 1, 1);
            cfg.Valid() && HalfTerm(cfg, 0xFFC0)
  {
  }
}
