/**
 Round-robin polling of the images of a subscription (Subscription.h). What polling one image with a budget does is a
 parameter: `answer(image, budget)` fragments, at most the budget.
 */
module Subscriptions {

  /** One call of an image: which, with what budget, and how many fragments it read. */
  datatype Visit = Visit(image: nat, budget: int, fragments: nat)

  /** Images polled in this order until the limit is used up. */
  function Visits(order: seq<nat>, limit: int, answer: (nat, int) -> nat): seq<Visit>
    decreases |order|
  {
    if order == [] || limit <= 0 then []
    else
      var n := answer(order[0], limit);
      [Visit(order[0], limit, n)] + Visits(order[1..], limit - n, answer)
  }

  function Total(visits: seq<Visit>): int {
    if visits == [] then 0 else Total(visits[..|visits| - 1]) + visits[|visits| - 1].fragments
  }

  /** Where a poll starts, from the stored index, and the index stored for the next one. */
  function StartingIndex(index: nat, length: nat): nat { if index >= length then 0 else index }

  function NextIndex(index: nat, length: nat): nat { if index >= length then 0 else index + 1 }

  /** All images, from the starting one around. */
  function Order(start: nat, length: nat): (order: seq<nat>)
    requires start <= length
    ensures |order| == length
  {
    seq(length, k => if start + k < length then start + k else start + k - length)
  }

  /** Image polls that read no more than they are asked for. */
  ghost predicate Bounded(answer: (nat, int) -> nat) {
    forall i, b: int :: b > 0 ==> answer(i, b) <= b
  }

  lemma {:induction false} TotalOneMore(visits: seq<Visit>, v: Visit)
    ensures Total(visits + [v]) == Total(visits) + v.fragments
  {
    assert (visits + [v])[..|visits|] == visits;
  }

  lemma {:induction false} TotalFirst(v: Visit, visits: seq<Visit>)
    ensures Total([v] + visits) == v.fragments + Total(visits)
    decreases |visits|
  {
    if visits == [] {
      assert [v] + visits == [v] && [v][..0] == [];
    } else {
      TotalFirst(v, visits[..|visits| - 1]);
      assert ([v] + visits)[..|visits|] == [v] + visits[..|visits| - 1];
    }
  }

  /** Polling images in any order never reads more than the limit, gives the first one the whole limit, and leaves one
      out only when the limit is used up. */
  lemma {:induction false} VisitsBounded(order: seq<nat>, limit: int, answer: (nat, int) -> nat)
    requires Bounded(answer)
    ensures var visits := Visits(order, limit, answer);
            && |visits| <= |order| && (forall k :: 0 <= k < |visits| ==> visits[k].image == order[k])
            && 0 <= Total(visits) <= (if limit > 0 then limit else 0)
            && (limit > 0 && order != [] ==> visits != [] && visits[0].budget == limit)
            && (|visits| < |order| ==> limit <= 0 || Total(visits) == limit)
    decreases |order|
  {
    if order != [] && limit > 0 {
      var n := answer(order[0], limit);
      VisitsBounded(order[1..], limit - n, answer);
      TotalFirst(Visit(order[0], limit, n), Visits(order[1..], limit - n, answer));
    }
  }

  ghost predicate Asked(visits: seq<Visit>, image: nat) {
    exists k :: 0 <= k < |visits| && visits[k].image == image
  }

  /** A poll asks images there are, each at most once, never reads more than its limit, gives the first image the
      whole limit, and leaves an image out only when the limit is used up. */
  lemma VisitsFair(start: nat, length: nat, limit: int, answer: (nat, int) -> nat)
    requires Bounded(answer) && start <= length
    ensures var visits := Visits(Order(start, length), limit, answer);
            && (forall k :: 0 <= k < |visits| ==> visits[k].image < length)
            && (forall k, l :: 0 <= k < l < |visits| ==> visits[k].image != visits[l].image)
            && 0 <= Total(visits) <= (if limit > 0 then limit else 0)
            && (limit > 0 && start < length ==> visits != [] && visits[0].image == start && visits[0].budget == limit)
            && (limit > 0 && Total(visits) < limit ==>
                  forall image: nat :: image < length ==> Asked(visits, image))
  {
    var order := Order(start, length);
    VisitsBounded(order, limit, answer);
    var visits := Visits(order, limit, answer);
    if limit > 0 && Total(visits) < limit {
      forall image: nat | image < length
        ensures Asked(visits, image)
      {
        var k := if image >= start then image - start else image + length - start;
        assert order[k] == image && visits[k].image == image;
      }
    }
  }

  /** The stored index after a number of polls over `length` images. */
  function IndexAfter(index: nat, length: nat, polls: nat): nat {
    if polls == 0 then index else NextIndex(IndexAfter(index, length, polls - 1), length)
  }

  /** As long as the index does not run past the end it counts up. */
  lemma {:induction false} CountsUp(index: nat, length: nat, polls: nat)
    requires index + polls <= length
    ensures IndexAfter(index, length, polls) == index + polls
  {
    if polls > 0 {
      CountsUp(index, length, polls - 1);
    }
  }

  lemma {:induction false} IndexAfterSum(index: nat, length: nat, a: nat, b: nat)
    ensures IndexAfter(index, length, a + b) == IndexAfter(IndexAfter(index, length, a), length, b)
  {
    if b > 0 {
      IndexAfterSum(index, length, a, b - 1);
    }
  }

  /** In every run of length + 1 polls, from any stored index, each image is the first to be asked at least once. */
  lemma EveryImageLeads(index: nat, length: nat, image: nat) returns (poll: nat)
    requires image < length
    ensures poll <= length && StartingIndex(IndexAfter(index, length, poll), length) == image
  {
    if index >= length {
      // the first poll wraps; after it the index counts up from 0
      if image == 0 {
        poll := 0;
      } else {
        poll := image + 1;
        IndexAfterSum(index, length, 1, image);
        assert IndexAfter(index, length, 1) == 0 by { assert IndexAfter(index, length, 0) == index; }
        CountsUp(0, length, image);
      }
    } else if image >= index {
      poll := image - index;
      CountsUp(index, length, poll);
    } else {
      var wrap := length - index;
      CountsUp(index, length, wrap);
      if image == 0 {
        poll := wrap;
      } else {
        poll := wrap + 1 + image;
        assert IndexAfter(index, length, wrap + 1) == 0;
        IndexAfterSum(index, length, wrap + 1, image);
        CountsUp(0, length, image);
      }
    }
  }

  ghost predicate Leads(index: nat, length: nat, image: nat, poll: nat) {
    StartingIndex(IndexAfter(index, length, poll), length) == image
  }

  ghost predicate LeadsWithin(index: nat, length: nat, image: nat, polls: nat) {
    exists poll: nat :: poll < polls && Leads(index, length, image, poll)
  }

  /** One poll fewer is enough exactly when the stored index is at most 1, or there is only one image: otherwise the
      polls wrap, image 0 leads twice in a row and the image before the stored index has to wait. */
  lemma LengthPollsEnough(index: nat, length: nat)
    ensures (forall image: nat :: image < length ==> LeadsWithin(index, length, image, length))
            <==> index <= 1 || length <= 1
  {
    if index <= 1 || length <= 1 {
      forall image: nat | image < length
        ensures LeadsWithin(index, length, image, length)
      {
        var poll := EarlyLead(index, length, image);
        assert Leads(index, length, image, poll);
      }
    } else {
      var image := if index >= length then length - 1 else index - 1;
      forall poll: nat | poll < length
        ensures !Leads(index, length, image, poll)
      {
        LateLead(index, length, poll);
      }
      assert !LeadsWithin(index, length, image, length);
      assert image < length;
    }
  }

  lemma EarlyLead(index: nat, length: nat, image: nat) returns (poll: nat)
    requires image < length && (index <= 1 || length <= 1)
    ensures poll < length && Leads(index, length, image, poll)
  {
    if index >= length {
      poll := 0;
    } else {
      poll := if image >= index then image - index else length - index;
      CountsUp(index, length, poll);
    }
  }

  /** With a stored index above 1 the image before it does not lead in the next `length` polls. */
  lemma LateLead(index: nat, length: nat, poll: nat)
    requires index > 1 && length > 1 && poll < length
    ensures !Leads(index, length, if index >= length then length - 1 else index - 1, poll)
  {
    var wrap := if index >= length then 0 else length - index;
    if poll <= wrap {
      if index < length {
        CountsUp(index, length, poll);
      }
    } else {
      if index < length {
        CountsUp(index, length, wrap);
      }
      assert IndexAfter(index, length, wrap + 1) == 0;
      IndexAfterSum(index, length, wrap + 1, poll - wrap - 1);
      CountsUp(0, length, poll - wrap - 1);
    }
  }

  class Subscription {
    var roundRobinIndex: nat

    constructor ()
      ensures roundRobinIndex == 0
    {
      roundRobinIndex := 0;
    }

    /** poll and controlledPoll over `length` images. */
    method Poll(length: nat, fragmentLimit: int, answer: (nat, int) -> nat)
        returns (fragmentsRead: int, visits: seq<Visit>)
      modifies this
      ensures roundRobinIndex == NextIndex(old(roundRobinIndex), length)
      ensures visits == Visits(Order(StartingIndex(old(roundRobinIndex), length), length), fragmentLimit, answer)
      ensures fragmentsRead == Total(visits)
    {
      hide Visits, Total, Order;
      fragmentsRead, visits := 0, [];
      var startingIndex := roundRobinIndex;
      roundRobinIndex := roundRobinIndex + 1;
      if startingIndex >= length {
        roundRobinIndex, startingIndex := 0, 0;
      }
      ghost var order := Order(startingIndex, length);
      ghost var all := Visits(order, fragmentLimit, answer);
      var i := startingIndex;
      NoVisits(order, all);
      while i < length && fragmentsRead < fragmentLimit
        invariant roundRobinIndex == NextIndex(old(roundRobinIndex), length)
        invariant startingIndex <= i <= length && fragmentsRead == Total(visits)
        invariant all == visits + Visits(order[i - startingIndex..], fragmentLimit - fragmentsRead, answer)
      {
        VisitStep(visits, order, i - startingIndex, fragmentLimit - fragmentsRead, answer);
        OrderAt(startingIndex, length, i - startingIndex);
        var n := answer(i, fragmentLimit - fragmentsRead);
        visits := visits + [Visit(i, fragmentLimit - fragmentsRead, n)];
        fragmentsRead, i := fragmentsRead + n, i + 1;
      }
      ghost var at := i - startingIndex;
      i := 0;
      while i < startingIndex && fragmentsRead < fragmentLimit
        invariant roundRobinIndex == NextIndex(old(roundRobinIndex), length)
        invariant 0 <= i <= startingIndex && fragmentsRead == Total(visits)
        invariant fragmentsRead < fragmentLimit ==> at == length - startingIndex + i
        invariant 0 <= at <= length
        invariant all == visits + Visits(order[at..], fragmentLimit - fragmentsRead, answer)
      {
        VisitStep(visits, order, at, fragmentLimit - fragmentsRead, answer);
        OrderAt(startingIndex, length, at);
        var n := answer(i, fragmentLimit - fragmentsRead);
        visits := visits + [Visit(i, fragmentLimit - fragmentsRead, n)];
        fragmentsRead, i, at := fragmentsRead + n, i + 1, at + 1;
      }
      VisitsEnd(visits, order[at..], fragmentLimit - fragmentsRead, answer);
    }
  }

  lemma NoVisits(order: seq<nat>, all: seq<Visit>)
    ensures order[0..] == order && [] + all == all && Total([]) == 0
  {
  }

  lemma VisitsEnd(visits: seq<Visit>, rest: seq<nat>, limit: int, answer: (nat, int) -> nat)
    requires rest == [] || limit <= 0
    ensures visits + Visits(rest, limit, answer) == visits
  {
  }

  lemma OrderAt(start: nat, length: nat, k: nat)
    requires start <= length && k < length
    ensures Order(start, length)[k] == if start + k < length then start + k else start + k - length
  {
  }

  lemma VisitStep(visits: seq<Visit>, order: seq<nat>, at: nat, limit: int, answer: (nat, int) -> nat)
    requires at < |order| && limit > 0
    ensures var visit := Visit(order[at], limit, answer(order[at], limit));
            && visits + Visits(order[at..], limit, answer)
               == (visits + [visit]) + Visits(order[at + 1..], limit - visit.fragments, answer)
            && Total(visits + [visit]) == Total(visits) + visit.fragments
  {
    assert order[at..][0] == order[at] && order[at..][1..] == order[at + 1..];
    TotalOneMore(visits, Visit(order[at], limit, answer(order[at], limit)));
  }

  /** Every image is asked with the whole limit at least once in every length + 1 polls: none can be starved. */
  lemma NoImageStarves(index: nat, length: nat, image: nat, limit: int, answer: (nat, int) -> nat)
    requires image < length && limit > 0 && Bounded(answer)
    ensures exists poll: nat ::
              poll <= length && LeadsPoll(IndexAfter(index, length, poll), length, image, limit, answer)
  {
    var poll := EveryImageLeads(index, length, image);
    VisitsBounded(Order(image, length), limit, answer);
    assert LeadsPoll(IndexAfter(index, length, poll), length, image, limit, answer);
  }

  ghost predicate LeadsPoll(index: nat, length: nat, image: nat, limit: int, answer: (nat, int) -> nat) {
    var visits := Visits(Order(StartingIndex(index, length), length), limit, answer);
    visits != [] && visits[0] == Visit(image, limit, answer(image, limit))
  }
}
