/**
 The fragment assemblers as objects: one builder for a single image (ImageFragmentAssembler.h,
 ImageControlledFragmentAssembler.h), or a builder per session (FragmentAssembler.h, ControlledFragmentAssembler.h).
 The uncontrolled forms are the controlled ones with delegates that never answer ABORT.
 */
module Assemblers {
  import opened Framing
  import opened BufferBuilders
  import opened Images
  import opened Assembly
  import opened Sessions

  /** A builder in use: while it holds part of a message, a frame with payload has been captured. */
  ghost predicate Ready(b: BufferBuilder)
    reads b
  {
    b.Valid() && (b.nextTermOffset != NULL_VALUE ==> b.frameLength > HEADER_LENGTH)
  }

  /** The assembler state a builder stands for. */
  ghost function StateOf(b: BufferBuilder): Asm
    requires Ready(b)
    reads b, b.buffer
  {
    Asm(b.nextTermOffset, b.Contents())
  }

  function CapturedOf(b: BufferBuilder): Captured
    reads b
  {
    Captured(b.frameLength, b.begin, b.end)
  }

  /** Frames as they can be: a fragment is never empty, since neither publication writes one. */
  predicate Whole(f: Frame) {
    f.offset >= 0 && f.length == HEADER_LENGTH + |f.payload| <= 0x7FFF_FFFF && (f.Unfragmented() || f.payload != [])
  }

  /** What the delegate answers to the message a fragment makes the assembler hand over. */
  ghost function AnswerOf(a: Asm, f: Frame, delegate: seq<int> -> Action): Action {
    var m := Message(a, f);
    if m.Some? then delegate(m.value) else CONTINUE
  }

  /** The header handed over with a message put together from fragments, and the one captured afterwards. */
  predicate Headed(a: Asm, c: Captured, f: Frame, message: Option<seq<int>>, header: Option<Completed>,
                   after: Captured) {
    && after == CapturedAfter(a, c, f)
    && (header.Some? <==> message.Some? && !f.Unfragmented())
    && (header.Some? ==> c.length > HEADER_LENGTH && header.value == HeaderOf(c, message.value, f))
  }

  lemma NothingHeaded(a: Asm, c: Captured, f: Frame)
    ensures f.Unfragmented() ==> Headed(a, c, f, Some(f.payload), None, c)
    ensures !f.begin && a == IDLE && f.offset >= 0 ==> Headed(a, c, f, None, None, c)
  {
  }

  lemma CapturedCases(a: Asm, c: Captured, f: Frame)
    requires !f.Unfragmented()
    ensures f.begin ==> CapturedAfter(a, c, f) == Captured(f.length, f.begin, f.end)
    ensures !f.begin && Message(a, f) == None ==> CapturedAfter(a, c, f) == c
    ensures Message(a, f).Some? ==>
              CapturedAfter(a, c, f)
                == Captured(HEADER_LENGTH + |Message(a, f).value|, c.begin || f.begin, c.end || f.end)
  {
  }

  /** The end of a message: the delegate gets the whole of it, with its header; ABORT takes the last fragment back. */
  method HandOver(b: BufferBuilder, f: Frame, delegate: seq<int> -> Action, limit: nat)
    returns (message: Option<seq<int>>, action: Action, header: Option<Completed>)
    requires b.Valid() && b.frameLength > HEADER_LENGTH && limit < b.limit
    modifies b
    ensures b.Valid() && b.buffer == old(b.buffer)
    ensures message == Some(old(b.Contents())) && action == delegate(message.value)
    ensures header == Some(HeaderOf(old(CapturedOf(b)), message.value, f))
    ensures CapturedOf(b) == Captured(HEADER_LENGTH + |message.value|, old(b.begin) || f.begin, old(b.end) || f.end)
    ensures StateOf(b) == match action
                          case ABORT => Asm(old(b.nextTermOffset), message.value[..limit])
                          case THROW => old(StateOf(b))
                          case _ => IDLE
  {
    message := Some(b.buffer[..b.limit]);
    var completed := b.CompleteHeader(f);
    header := Some(completed);
    action := delegate(message.value);
    if action == ABORT {
      var rolledBack := b.SetLimit(limit);
      assert rolledBack;
    } else if action != THROW {
      b.Reset();
    }
  }

  /** The body of handleFragment on the builder of the fragment's session. */
  method HandleFragment(b: BufferBuilder, f: Frame, delegate: seq<int> -> Action)
    returns (message: Option<seq<int>>, action: Action, header: Option<Completed>)
    requires Ready(b) && Whole(f) && !f.Unfragmented()
    modifies b, b.buffer
    ensures Ready(b) && (b.buffer == old(b.buffer) || fresh(b.buffer))
    ensures StepResult(StateOf(b), message, action)
            == Step(old(StateOf(b)), f, AnswerOf(old(StateOf(b)), f, delegate))
    ensures Headed(old(StateOf(b)), old(CapturedOf(b)), f, message, header, CapturedOf(b))
  {
    ghost var a, c := StateOf(b), CapturedOf(b);
    CapturedCases(a, c, f);
    hide CapturedAfter;
    message, action, header := None, CONTINUE, None;
    if f.begin {
      b.Reset();
      b.CaptureHeader(f);
      var ok := b.Append(f.payload);
      b.SetNextTermOffset(f.NextOffset());
    } else if f.offset == b.nextTermOffset {
      var limit := b.limit;
      ghost var held := b.Contents();
      var ok := b.Append(f.payload);
      if !ok {
        action := THROW;
      } else if f.end {
        assert (held + f.payload)[..limit] == held;
        message, action, header := HandOver(b, f, delegate, limit);
        assert Message(a, f) == message;
      } else {
        b.SetNextTermOffset(f.NextOffset());
      }
    } else {
      b.Reset();
    }
  }

  /** ImageControlledFragmentAssembler: one builder. */
  class ImageAssembler {
    const builder: BufferBuilder

    ghost predicate Valid()
      reads this, builder
    {
      Ready(builder)
    }

    ghost function View(): Asm
      requires Valid()
      reads this, builder, builder.buffer
    {
      StateOf(builder)
    }

    constructor (initialBufferLength: nat)
      requires initialBufferLength <= MAX_CAPACITY
      ensures Valid() && View() == IDLE && fresh(builder) && fresh(builder.buffer)
    {
      builder := new BufferBuilder(initialBufferLength);
    }

    /** `header` is the one handed over with a message put together from fragments. */
    method OnFragment(f: Frame, delegate: seq<int> -> Action)
      returns (message: Option<seq<int>>, action: Action, header: Option<Completed>)
      requires Valid() && Whole(f)
      modifies builder, builder.buffer
      ensures Valid() && (builder.buffer == old(builder.buffer) || fresh(builder.buffer))
      ensures StepResult(View(), message, action) == Step(old(View()), f, AnswerOf(old(View()), f, delegate))
      ensures Headed(old(View()), old(CapturedOf(builder)), f, message, header, CapturedOf(builder))
    {
      if f.Unfragmented() {
        message, header := Some(f.payload), None;
        action := delegate(f.payload);
      } else {
        message, action, header := HandleFragment(builder, f, delegate);
      }
    }
  }

  lemma WholeMessage(a: Asm, f: Frame)
    requires f.Unfragmented()
    ensures Message(a, f) == Some(f.payload)
  {
  }

  lemma SameAfterUpdate(m: map<int, Asm>, m': map<int, Asm>, session: int, a: Asm)
    requires m'.Keys == m.Keys + {session} && forall s :: Of(m', s) == Of(m, s)
    ensures m'[session := a] == m[session := a]
  {
    forall s | s in m && s != session
      ensures m'[s] == m[s]
    {
      assert Of(m', s) == Of(m, s);
    }
  }

  /** The header captured for a session; a new builder has captured none. */
  function HeldIn(m: map<int, Captured>, session: int): Captured {
    if session in m then m[session] else Captured(0, false, false)
  }

  /** ControlledFragmentAssembler: a builder for each session that has sent a BEGIN fragment. */
  class SessionAssembler {
    const initialBufferLength: nat
    var builders: map<int, BufferBuilder>

    ghost function Footprint(): set<object>
      reads this, builders.Values
    {
      (set s | s in builders :: builders[s] as object) + set s | s in builders :: builders[s].buffer as object
    }

    ghost predicate Valid()
      reads this, builders.Values
    {
      && initialBufferLength <= MAX_CAPACITY
      && (forall s :: s in builders ==> Ready(builders[s]))
      && forall s, t :: s in builders && t in builders && s != t ==>
           builders[s] != builders[t] && builders[s].buffer != builders[t].buffer
    }

    ghost function View(): map<int, Asm>
      requires Valid()
      reads this, builders.Values, Footprint()
    {
      map s | s in builders :: StateOf(builders[s])
    }

    ghost function Captures(): map<int, Captured>
      reads this, builders.Values
    {
      map s | s in builders :: CapturedOf(builders[s])
    }

    constructor (initialBufferLength: nat)
      requires initialBufferLength <= MAX_CAPACITY
      ensures Valid() && builders == map[] && View() == map[]
    {
      this.initialBufferLength, builders := initialBufferLength, map[];
    }

    method DeleteSessionBuffer(session: int)
      requires Valid()
      modifies this`builders
      ensures Valid() && View() == old(View()) - {session} && Footprint() <= old(Footprint())
    {
      builders := map s | s in builders && s != session :: builders[s];
    }

    /** getBuffer. */
    method GetBuffer(session: int) returns (b: BufferBuilder)
      requires Valid()
      modifies this`builders
      ensures Valid() && session in builders && b == builders[session]
      ensures fresh(Footprint() - old(Footprint()))
      ensures session in old(builders) ==> builders == old(builders)
      ensures forall s :: Of(View(), s) == Of(old(View()), s)
      ensures forall s :: HeldIn(Captures(), s) == HeldIn(old(Captures()), s)
      ensures View().Keys == old(View()).Keys + {session}
      ensures session !in old(builders) ==>
                builders == old(builders)[session := b] && fresh(b) && fresh(b.buffer) && StateOf(b) == IDLE
    {
      if session in builders {
        return builders[session];
      }
      b := new BufferBuilder(initialBufferLength);
      builders := builders[session := b];
      assert Valid();
    }

    /** A fragment of a session that has a builder; no other session is touched. */
    method HandleInSession(f: Frame, delegate: seq<int> -> Action)
      returns (message: Option<seq<int>>, action: Action, header: Option<Completed>)
      requires Valid() && Whole(f) && !f.Unfragmented() && f.session in builders
      modifies builders[f.session], builders[f.session].buffer
      ensures Valid() && builders == old(builders) && fresh(Footprint() - old(Footprint()))
      ensures StepResult(Of(View(), f.session), message, action)
              == Step(Of(old(View()), f.session), f, AnswerOf(Of(old(View()), f.session), f, delegate))
      ensures View() == old(View())[f.session := Of(View(), f.session)]
      ensures Headed(Of(old(View()), f.session), HeldIn(old(Captures()), f.session), f, message, header,
                     HeldIn(Captures(), f.session))
      ensures forall s :: s != f.session ==> HeldIn(Captures(), s) == HeldIn(old(Captures()), s)
    {
      hide Ready, Step, Message, StateOf, Headed, CapturedOf, Whole, AnswerOf;
      ghost var before := View();
      message, action, header := HandleFragment(builders[f.session], f, delegate);
      assert forall s :: s in builders && s != f.session ==> View()[s] == before[s];
    }

    method OnFragment(f: Frame, delegate: seq<int> -> Action)
      returns (message: Option<seq<int>>, action: Action, header: Option<Completed>)
      requires Valid() && Whole(f)
      modifies this`builders, Footprint()
      ensures Valid() && fresh(Footprint() - old(Footprint()))
      ensures (View(), message, action)
              == SessionStep(old(View()), f, AnswerOf(Of(old(View()), f.session), f, delegate))
      ensures Headed(Of(old(View()), f.session), HeldIn(old(Captures()), f.session), f, message, header,
                     HeldIn(Captures(), f.session))
      ensures forall s :: s != f.session ==> HeldIn(Captures(), s) == HeldIn(old(Captures()), s)
    {
      hide Ready, Step, Message, StateOf, Headed, CapturedOf;
      NothingHeaded(Of(View(), f.session), HeldIn(Captures(), f.session), f);
      if f.Unfragmented() {
        message, header := Some(f.payload), None;
        action := delegate(f.payload);
        WholeMessage(Of(View(), f.session), f);
      } else if f.begin {
        ghost var before := View();
        var _ := GetBuffer(f.session);
        ghost var withBuffer := View();
        message, action, header := HandleInSession(f, delegate);
        SameAfterUpdate(before, withBuffer, f.session, Of(View(), f.session));
      } else if f.session in builders {
        message, action, header := HandleInSession(f, delegate);
      } else {
        message, action, header := None, CONTINUE, None;
      }
    }
  }
}
