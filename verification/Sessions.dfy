/**
 Session-keyed reassembly on values, and why it is the single-image assembler run for each session on its own.
 */
module Sessions {
  import opened Framing
  import opened Images
  import opened Assembly

  /** The state of a session; a session without a builder is like one whose builder was just reset. */
  function Of(m: map<int, Asm>, session: int): Asm {
    if session in m then m[session] else IDLE
  }

  /** onFragment of FragmentAssembler and ControlledFragmentAssembler. */
  function SessionStep(m: map<int, Asm>, f: Frame, answer: Action): (map<int, Asm>, Option<seq<int>>, Action) {
    if f.Unfragmented() then (m, Some(f.payload), answer)
    else if f.begin || f.session in m then
      var r := Step(Of(m, f.session), f, answer);
      (m[f.session := r.asm], r.message, r.action)
    else (m, None, CONTINUE)
  }

  datatype Input = Fragment(event: Event) | Delete(session: int)

  /** A call of the delegate, with the session it came from. */
  datatype Output = Output(session: int, delivery: Delivery)

  function SessionRun(m: map<int, Asm>, inputs: seq<Input>): (map<int, Asm>, seq<Output>)
    decreases |inputs|
  {
    if inputs == [] then (m, [])
    else match inputs[0]
      case Delete(session) => SessionRun(m - {session}, inputs[1..])
      case Fragment(e) =>
        var (m', message, _) := SessionStep(m, e.frame, e.answer);
        var (last, more) := SessionRun(m', inputs[1..]);
        (last, (if message.Some? then [Output(e.frame.session, Delivery(message.value, e.answer))] else []) + more)
  }

  /** The single-image assembler on one session's inputs; a deletion counts as a reset. */
  function SingleRun(a: Asm, inputs: seq<Input>): (Asm, seq<Delivery>)
    decreases |inputs|
  {
    if inputs == [] then (a, [])
    else match inputs[0]
      case Delete(_) => SingleRun(IDLE, inputs[1..])
      case Fragment(e) =>
        var r := Step(a, e.frame, e.answer);
        var (last, more) := SingleRun(r.asm, inputs[1..]);
        (last, (if r.message.Some? then [Delivery(r.message.value, e.answer)] else []) + more)
  }

  function SessionOf(i: Input): int {
    match i
    case Fragment(e) => e.frame.session
    case Delete(session) => session
  }

  function InputsOf(inputs: seq<Input>, session: int): seq<Input> {
    if inputs == [] then []
    else (if SessionOf(inputs[0]) == session then [inputs[0]] else []) + InputsOf(inputs[1..], session)
  }

  function OutputsOf(outputs: seq<Output>, session: int): seq<Delivery> {
    if outputs == [] then []
    else (if outputs[0].session == session then [outputs[0].delivery] else []) + OutputsOf(outputs[1..], session)
  }

  /** One input moves its own session as the single-image assembler would, and no other. */
  lemma StepIsPerSession(m: map<int, Asm>, f: Frame, answer: Action, session: int)
    requires f.offset >= 0
    ensures var (m', message, action) := SessionStep(m, f, answer);
            if f.session == session then
              Step(Of(m, session), f, answer) == StepResult(Of(m', session), message, action)
            else Of(m', session) == Of(m, session)
  {
  }

  /** For every interleaving of fragments and deletions of many sessions, what one session gets is what the
      single-image assembler delivers on that session's inputs alone. */
  lemma {:induction false} Demultiplexes(m: map<int, Asm>, inputs: seq<Input>, session: int)
    requires forall i :: 0 <= i < |inputs| && inputs[i].Fragment? ==> inputs[i].event.frame.offset >= 0
    ensures var all, single := SessionRun(m, inputs), SingleRun(Of(m, session), InputsOf(inputs, session));
            Of(all.0, session) == single.0 && OutputsOf(all.1, session) == single.1
    decreases |inputs|
  {
    if inputs != [] {
      match inputs[0]
      case Delete(s) =>
        Demultiplexes(m - {s}, inputs[1..], session);
        DropDelete(inputs, session);
      case Fragment(e) =>
        var m' := SessionStep(m, e.frame, e.answer).0;
        StepIsPerSession(m, e.frame, e.answer, session);
        Demultiplexes(m', inputs[1..], session);
        DropDelete(inputs, session);
        OutputsFirst(SessionRun(m, inputs).1, SessionRun(m', inputs[1..]).1, session);
    }
  }

  lemma DropDelete(inputs: seq<Input>, session: int)
    requires inputs != []
    ensures InputsOf(inputs, session) ==
              (if SessionOf(inputs[0]) == session then [inputs[0]] else []) + InputsOf(inputs[1..], session)
    ensures SessionOf(inputs[0]) == session ==> InputsOf(inputs, session)[1..] == InputsOf(inputs[1..], session)
    ensures SessionOf(inputs[0]) != session ==> InputsOf(inputs, session) == InputsOf(inputs[1..], session)
  {
  }

  lemma OutputsFirst(outputs: seq<Output>, more: seq<Output>, session: int)
    requires outputs == more || (outputs != [] && outputs == [outputs[0]] + more)
    ensures outputs == more || OutputsOf(outputs, session) ==
              (if outputs[0].session == session then [outputs[0].delivery] else []) + OutputsOf(more, session)
  {
    if outputs != more {
      assert outputs[1..] == more;
    }
  }
}
