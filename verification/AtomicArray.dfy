/**
 AtomicArrayUpdater (AtomicArrayUpdater.h): an array and its length, published together by one updater to any number of
 readers. First the protocol as a state machine over atomic steps, then the updater's own operations as an object.
 */
module AtomicArrays {

  /** Where the updater stands: idle, or between the two change numbers with either of its two plain stores done. */
  datatype Updater<T> = Resting | Storing(next: seq<T>, arrayDone: bool, lengthDone: bool)

  /** Where a reader stands: outside load, in it with the change number read and perhaps one of the values, or out of
      it with a result. A pointer is the number of the update that installed its array. */
  datatype Reader =
    | Outside
    | Loading(change: nat, seenArray: Maybe, seenLength: Maybe)
    | Loaded(change: nat, pointer: nat, length: nat)

  datatype Maybe = Unread | Read(value: nat)

  /** The shared words, every array installed so far by update number (0 is the empty one at the start), the updater,
      the readers, and the results each reader has returned. */
  datatype Shared<T> = Shared(begin: nat, end: nat, pointer: nat, length: nat, history: seq<seq<T>>,
                              updater: Updater<T>, readers: seq<Reader>, results: seq<seq<Result>>)

  /** A result with the update it came from. */
  datatype Result = Result(change: nat, pointer: nat, length: nat)

  datatype Step<T> =
    | Begin(next: seq<T>)
    | StoreArray
    | StoreLength
    | End
    | ReadEnd(r: nat)
    | ReadArray(r: nat)
    | ReadLength(r: nat)
    | Check(r: nat)
    | Leave(r: nat)

  function Start<T>(readers: nat): Shared<T> {
    Shared(0, 0, 0, 0, [[]], Resting, seq(readers, _ => Outside), seq(readers, _ => []))
  }

  function After<T>(s: Shared<T>, step: Step<T>): Shared<T>
    requires |s.results| == |s.readers|
  {
    match step
    case Begin(next) =>
      if s.updater.Resting? then
        s.(begin := s.begin + 1, history := s.history + [next], updater := Storing(next, false, false))
      else s
    case StoreArray =>
      if s.updater.Storing? && !s.updater.arrayDone then
        s.(pointer := s.begin, updater := s.updater.(arrayDone := true))
      else s
    case StoreLength =>
      if s.updater.Storing? && !s.updater.lengthDone then
        s.(length := |s.updater.next|, updater := s.updater.(lengthDone := true))
      else s
    case End =>
      if s.updater.Storing? && s.updater.arrayDone && s.updater.lengthDone then s.(end := s.begin, updater := Resting)
      else s
    case ReadEnd(r) =>
      if r < |s.readers| && s.readers[r].Outside? then s.(readers := s.readers[r := Loading(s.end, Unread, Unread)])
      else s
    case ReadArray(r) =>
      if r < |s.readers| && s.readers[r].Loading? && s.readers[r].seenArray.Unread? then
        s.(readers := s.readers[r := s.readers[r].(seenArray := Read(s.pointer))])
      else s
    case ReadLength(r) =>
      if r < |s.readers| && s.readers[r].Loading? && s.readers[r].seenLength.Unread? then
        s.(readers := s.readers[r := s.readers[r].(seenLength := Read(s.length))])
      else s
    case Check(r) =>
      if r < |s.readers| && s.readers[r].Loading? && s.readers[r].seenArray.Read? && s.readers[r].seenLength.Read? then
        var Loading(change, pointer, length) := s.readers[r];
        if change == s.begin then
          s.(readers := s.readers[r := Loaded(change, pointer.value, length.value)],
             results := s.results[r := s.results[r] + [Result(change, pointer.value, length.value)]])
        else s.(readers := s.readers[r := Outside])
      else s
    case Leave(r) =>
      if r < |s.readers| && s.readers[r].Loaded? then s.(readers := s.readers[r := Outside]) else s
  }

  /** The pair an update installs. */
  predicate Installed<T>(history: seq<seq<T>>, result: Result) {
    result.change < |history| && result.pointer == result.change && result.length == |history[result.change]|
  }

  /** A reader that has not been overtaken by an update holds values of the update it started from. */
  predicate ReaderOk<T>(s: Shared<T>, reader: Reader) {
    match reader
    case Outside => true
    case Loading(change, pointer, length) =>
      && change <= s.end
      && (change == s.begin ==>
            change < |s.history| && (pointer.Read? ==> pointer.value == change)
            && (length.Read? ==> length.value == |s.history[change]|))
    case Loaded(change, pointer, length) => change <= s.end && Installed(s.history, Result(change, pointer, length))
  }

  predicate ResultsOk<T>(s: Shared<T>, r: nat)
    requires r < |s.results| == |s.readers|
  {
    && (forall i :: 0 <= i < |s.results[r]| ==>
        Installed(s.history, s.results[r][i]) && s.results[r][i].change <= s.end)
    && (forall i, j :: 0 <= i < j < |s.results[r]| ==> s.results[r][i].change <= s.results[r][j].change)
    && (s.readers[r].Loading? ==> forall i :: 0 <= i < |s.results[r]| ==> s.results[r][i].change <= s.readers[r].change)
  }

  ghost predicate Inv<T>(s: Shared<T>) {
    && |s.results| == |s.readers| && |s.history| == s.begin + 1
    && (match s.updater
        case Resting => s.end == s.begin && s.pointer == s.begin && s.length == |s.history[s.begin]|
        case Storing(next, arrayDone, lengthDone) =>
          && s.end + 1 == s.begin && next == s.history[s.begin]
          && (arrayDone ==> s.pointer == s.begin) && (lengthDone ==> s.length == |next|))
    && forall r :: 0 <= r < |s.readers| ==> ReaderOk(s, s.readers[r]) && ResultsOk(s, r)
  }

  predicate Updates<T>(step: Step<T>) { step.Begin? || step.StoreArray? || step.StoreLength? || step.End? }

  /** A step of the updater. */
  lemma UpdaterKeeps<T>(s: Shared<T>, step: Step<T>)
    requires Inv(s) && Updates(step)
    ensures Inv(After(s, step)) && s.history <= After(s, step).history
  {
    var s' := After(s, step);
    assert s'.end >= s.end && s'.begin >= s.begin && s'.results == s.results && s'.readers == s.readers;
    assert s.history <= s'.history;
    forall r | 0 <= r < |s'.readers|
      ensures ReaderOk(s', s'.readers[r]) && ResultsOk(s', r)
    {
      assert ReaderOk(s, s.readers[r]) && ResultsOk(s, r);
      ReaderUnmoved(s, s', r);
    }
  }

  lemma ReaderUnmoved<T>(s: Shared<T>, s': Shared<T>, r: nat)
    requires |s.results| == |s.readers| && r < |s.readers| && ReaderOk(s, s.readers[r]) && ResultsOk(s, r)
    requires s'.results == s.results && s'.readers == s.readers && s.history <= s'.history
    requires s.end <= s'.end && |s.history| == s.begin + 1 && (s'.begin == s.begin || s.end < s'.begin)
    ensures ReaderOk(s', s'.readers[r]) && ResultsOk(s', r)
  {
  }

  /** A step of reader `r` as it changes that reader. */
  lemma ReaderMoves<T>(s: Shared<T>, step: Step<T>, r: nat)
    requires Inv(s) && r < |s.readers|
    requires step == ReadEnd(r) || step == ReadArray(r) || step == ReadLength(r) || step == Check(r) || step == Leave(r)
    ensures ReaderOk(After(s, step), After(s, step).readers[r]) && ResultsOk(After(s, step), r)
  {
    assert ReaderOk(s, s.readers[r]) && ResultsOk(s, r);
  }

  lemma ReaderKeeps<T>(s: Shared<T>, step: Step<T>, r: nat)
    requires Inv(s) && r < |s.readers|
    requires step == ReadEnd(r) || step == ReadArray(r) || step == ReadLength(r) || step == Check(r) || step == Leave(r)
    ensures Inv(After(s, step)) && After(s, step).history == s.history
  {
    ReaderMoves(s, step, r);
    hide Installed;
    var s' := After(s, step);
    forall q | 0 <= q < |s'.readers|
      ensures ReaderOk(s', s'.readers[q]) && ResultsOk(s', q)
    {
      if q != r {
        assert ReaderOk(s, s.readers[q]) && ResultsOk(s, q);
      }
    }
  }

  /** Every step keeps the invariant, and no array ever installed is forgotten. */
  lemma StepKeeps<T>(s: Shared<T>, step: Step<T>)
    requires Inv(s)
    ensures Inv(After(s, step)) && s.history <= After(s, step).history
  {
    hide Inv;
    if Updates(step) {
      UpdaterKeeps(s, step);
    } else {
      var r := ReaderOf(step);
      if r < |s.readers| {
        ReaderKeeps(s, step, r);
      }
    }
  }

  function ReaderOf<T>(step: Step<T>): nat
    requires !Updates(step)
  {
    match step
    case ReadEnd(r) => r
    case ReadArray(r) => r
    case ReadLength(r) => r
    case Check(r) => r
    case Leave(r) => r
  }

  function Run<T>(readers: nat, steps: seq<Step<T>>): (s: Shared<T>)
    ensures |s.results| == |s.readers| == readers
  {
    if steps == [] then Start(readers) else After(Run(readers, steps[..|steps| - 1]), steps[|steps| - 1])
  }

  lemma {:induction false} RunKeeps<T>(readers: nat, steps: seq<Step<T>>)
    ensures Inv(Run(readers, steps))
    decreases |steps|
  {
    if steps != [] {
      RunKeeps(readers, steps[..|steps| - 1]);
      StepKeeps(Run(readers, steps[..|steps| - 1]), steps[|steps| - 1]);
    }
  }

  /** In every run, whatever the interleaving: every pair a load returned was installed by one update, array and
      length together, and the results of one reader never go back to an earlier update. */
  lemma LoadsAreWhole<T>(readers: nat, steps: seq<Step<T>>, r: nat)
    requires r < readers
    ensures var s := Run(readers, steps);
            && (forall i :: 0 <= i < |s.results[r]| ==> Installed(s.history, s.results[r][i]))
            && forall i, j :: 0 <= i < j < |s.results[r]| ==> s.results[r][i].change <= s.results[r][j].change
  {
    RunKeeps(readers, steps);
    assert ResultsOk(Run(readers, steps), r);
  }

  /** An update takes effect, whichever of its two stores comes first: afterwards none is under way, the change numbers
      agree and have gone up by one, and the new array is the one installed. */
  lemma UpdateTakesEffect<T>(s: Shared<T>, next: seq<T>, arrayFirst: bool)
    requires Inv(s) && s.updater.Resting?
    ensures Updated(s, next, arrayFirst)
            == s.(begin := s.begin + 1, end := s.begin + 1, pointer := s.begin + 1, length := |next|,
                  history := s.history + [next], updater := Resting)
  {
  }

  function Updated<T>(s: Shared<T>, next: seq<T>, arrayFirst: bool): Shared<T>
    requires |s.results| == |s.readers|
  {
    var first, second := if arrayFirst then StoreArray else StoreLength, if arrayFirst then StoreLength else StoreArray;
    After(After(After(After(s, Begin(next)), first), second), End)
  }

  /** A load left alone after it returns the new array, and this is its result. */
  lemma UpdateIsLoaded<T>(s: Shared<T>, next: seq<T>, storeArrayFirst: bool, r: nat, readArrayFirst: bool)
    requires Inv(s) && s.updater.Resting? && r < |s.readers| && s.readers[r].Outside?
    ensures var first := if readArrayFirst then ReadArray(r) else ReadLength(r);
            var second := if readArrayFirst then ReadLength(r) else ReadArray(r);
            var s' := After(After(After(After(Updated(s, next, storeArrayFirst), ReadEnd(r)), first), second),
                            Check(r));
            && s'.readers[r].Loaded? && s'.readers[r].pointer < |s'.history|
            && s'.history[s'.readers[r].pointer] == next && s'.readers[r].length == |next|
            && s'.results[r] == s.results[r] + [Result(s.begin + 1, s'.readers[r].pointer, |next|)]
  {
    UpdateTakesEffect(s, next, storeArrayFirst);
  }

  /** A load that succeeds returns what is installed at the moment of its last check, when no update is under
      way, and that is what was installed when it began; one that has to try again was overtaken by an update
      that began since. */
  lemma LoadIsCurrent<T>(s: Shared<T>, r: nat)
    requires Inv(s) && r < |s.readers| && s.readers[r].Loading? && s.readers[r].seenArray.Read?
             && s.readers[r].seenLength.Read?
    ensures var s' := After(s, Check(r));
            if s'.readers[r].Loaded? then
              && s.updater.Resting? && s'.readers[r] == Loaded(s.begin, s.pointer, s.length)
              && s.readers[r].change == s.begin
            else s'.readers[r].Outside? && s.begin > s.readers[r].change
  {
    assert ReaderOk(s, s.readers[r]);
  }

  /** With no update under way, a load that is left alone succeeds at its first attempt, whichever value it
      reads first. */
  lemma LoadAloneSucceeds<T>(s: Shared<T>, r: nat, arrayFirst: bool)
    requires Inv(s) && s.updater.Resting? && r < |s.readers| && s.readers[r].Outside?
    ensures var first := if arrayFirst then ReadArray(r) else ReadLength(r);
            var second := if arrayFirst then ReadLength(r) else ReadArray(r);
            var s' := After(After(After(After(s, ReadEnd(r)), first), second), Check(r));
            s'.readers[r] == Loaded(s.begin, s.begin, |s.history[s.begin]|)
  {
  }

  function RemoveAt<T>(s: seq<T>, i: nat): seq<T>
    requires i < |s|
  {
    s[..i] + s[i + 1..]
  }

  /** addToArray. */
  method AddToArray<T(0)>(oldArray: array<T>, element: T) returns (newArray: array<T>)
    ensures fresh(newArray) && newArray[..] == oldArray[..] + [element]
  {
    newArray := new T[oldArray.Length + 1];
    for i := 0 to oldArray.Length
      invariant newArray[..i] == oldArray[..i]
    {
      newArray[i] := oldArray[i];
    }
    newArray[oldArray.Length] := element;
    assert newArray[..] == newArray[..oldArray.Length] + [element];
  }

  /** removeFromArray. */
  method RemoveFromArray<T(0)>(oldArray: array<T>, index: nat) returns (newArray: array<T>)
    requires index < oldArray.Length
    ensures fresh(newArray) && newArray[..] == RemoveAt(oldArray[..], index)
  {
    newArray := new T[oldArray.Length - 1];
    var j := 0;
    for i := 0 to oldArray.Length
      invariant j == if i <= index then i else i - 1
      invariant newArray[..j] == oldArray[..i][..if i <= index then i else index]
                + (if i <= index then [] else oldArray[index + 1..i])
    {
      if i != index {
        newArray[j] := oldArray[i];
        j := j + 1;
      }
    }
    assert newArray[..] == newArray[..j] && oldArray[..] == oldArray[..oldArray.Length];
    assert oldArray[..oldArray.Length][..index] == oldArray[..][..index];
    assert oldArray[index + 1..oldArray.Length] == oldArray[..][index + 1..];
  }

  /** The updater's side. The updated words are those of the protocol above. */
  class AtomicArrayUpdater<T(0)> {
    var beginChange: nat
    var elements: array<T>
    var endChange: nat

    ghost predicate Valid()
      reads this
    {
      beginChange == endChange
    }

    constructor ()
      ensures Valid() && fresh(elements) && elements[..] == []
    {
      beginChange, endChange := 0, 0;
      elements := new T[0];
    }

    method Update(newArray: array<T>)
      requires Valid()
      modifies this
      ensures Valid() && elements == newArray && endChange == old(endChange) + 1
    {
      beginChange := beginChange + 1;
      elements := newArray;
      endChange := beginChange;
    }

    /** addElement: the array that readers may still hold is not touched. */
    method AddElement(element: T) returns (oldArray: array<T>)
      requires Valid()
      modifies this
      ensures Valid() && oldArray == old(elements) && fresh(elements) && elements[..] == old(elements[..]) + [element]
    {
      oldArray := elements;
      var newArray := AddToArray(oldArray, element);
      Update(newArray);
    }

    /** removeElement: the first element that matches goes, the old array and its index are returned; or nothing happens
        and there is no array to return. */
    method RemoveElement(matches: T -> bool) returns (removedFrom: array?<T>, index: nat)
      requires Valid()
      modifies this
      ensures Valid()
      ensures removedFrom != null <==> exists i :: 0 <= i < |old(elements[..])| && matches(old(elements[..])[i])
      ensures removedFrom == null ==> index == 0 && elements == old(elements) && endChange == old(endChange)
      ensures removedFrom != null ==>
                && removedFrom == old(elements) && removedFrom[..] == old(elements[..])
                && index < old(elements).Length && matches(old(elements[..])[index])
                && (forall i :: 0 <= i < index ==> !matches(old(elements[..])[i]))
                && fresh(elements) && elements[..] == RemoveAt(old(elements[..]), index)
    {
      var oldArray := elements;
      for i := 0 to oldArray.Length
        invariant Valid() && elements == oldArray && endChange == old(endChange)
        invariant forall k :: 0 <= k < i ==> !matches(oldArray[..][k])
      {
        if matches(oldArray[i]) {
          var newArray := RemoveFromArray(oldArray, i);
          Update(newArray);
          return oldArray, i;
        }
      }
      return null, 0;
    }
  }
}
