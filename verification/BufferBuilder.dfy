/**
 The growable buffer in which fragments are put together (BufferBuilder.h).
 */
module BufferBuilders {
  import opened Framing

  const MAX_CAPACITY := 0x7FFF_FFFF - 8
  const INIT_MIN_CAPACITY := 4096
  const UINT32 := 0x1_0000_0000

  /** The capacity that growing by half each time arrives at. */
  method FindSuitableCapacity(currentCapacity: nat, requiredCapacity: nat) returns (newCapacity: nat)
    requires currentCapacity <= MAX_CAPACITY && requiredCapacity <= MAX_CAPACITY
    ensures requiredCapacity <= newCapacity <= MAX_CAPACITY
    ensures currentCapacity <= newCapacity && INIT_MIN_CAPACITY <= newCapacity
    ensures requiredCapacity <= currentCapacity && INIT_MIN_CAPACITY <= currentCapacity ==>
            newCapacity == currentCapacity
    ensures newCapacity > currentCapacity && newCapacity > INIT_MIN_CAPACITY ==>
            newCapacity <= requiredCapacity + requiredCapacity / 2
  {
    newCapacity := if currentCapacity < INIT_MIN_CAPACITY then INIT_MIN_CAPACITY else currentCapacity;
    ghost var start := newCapacity;
    while newCapacity < requiredCapacity
      invariant start <= newCapacity <= MAX_CAPACITY
      invariant newCapacity == start
                || (start < requiredCapacity && newCapacity <= requiredCapacity + requiredCapacity / 2)
      decreases MAX_CAPACITY - newCapacity
    {
      assert newCapacity + newCapacity / 2 < UINT32;
      newCapacity := newCapacity + newCapacity / 2;
      if newCapacity > MAX_CAPACITY {
        newCapacity := MAX_CAPACITY;
      }
    }
  }

  /** The header handed over with an assembled message. */
  datatype Completed = Completed(frameLength: int, begin: bool, end: bool, fragmentedFrameLength: int)

  class BufferBuilder {
    var capacity: nat
    var limit: nat
    var nextTermOffset: int
    var buffer: array<int>
    /** The captured header. */
    var frameLength: int
    var begin: bool
    var end: bool
    var fragmentedFrameLength: int

    ghost predicate Valid()
      reads this
    {
      limit <= capacity == buffer.Length && capacity <= MAX_CAPACITY
    }

    ghost function Contents(): seq<int>
      requires Valid()
      reads this, buffer
    {
      buffer[..limit]
    }

    constructor (initialCapacity: nat)
      requires initialCapacity <= MAX_CAPACITY
      ensures Valid() && fresh(buffer) && Contents() == [] && capacity == initialCapacity
      ensures nextTermOffset == NULL_VALUE && frameLength == 0 && !begin && !end
    {
      capacity, limit, nextTermOffset := initialCapacity, 0, NULL_VALUE;
      buffer := new int[initialCapacity];
      frameLength, begin, end, fragmentedFrameLength := 0, false, false, NULL_VALUE;
    }

    /** limit(limit): refused unless below the capacity. */
    method SetLimit(newLimit: nat) returns (ok: bool)
      requires Valid()
      modifies this`limit
      ensures Valid() && (ok <==> newLimit < capacity)
      ensures !ok ==> limit == old(limit)
      ensures ok ==> limit == newLimit && (newLimit <= old(limit) ==> Contents() == old(Contents())[..newLimit])
    {
      if newLimit >= capacity {
        return false;
      }
      limit := newLimit;
      return true;
    }

    method Reset()
      requires Valid()
      modifies this`limit, this`nextTermOffset, this`fragmentedFrameLength
      ensures Valid() && Contents() == [] && nextTermOffset == NULL_VALUE && fragmentedFrameLength == NULL_VALUE
    {
      limit, nextTermOffset, fragmentedFrameLength := 0, NULL_VALUE, NULL_VALUE;
    }

    method Resize(newCapacity: nat)
      requires Valid() && limit <= newCapacity <= MAX_CAPACITY
      modifies this`buffer, this`capacity
      ensures Valid() && capacity == newCapacity && fresh(buffer) && Contents() == old(Contents())
    {
      var newBuffer := new int[newCapacity];
      forall i | 0 <= i < limit {
        newBuffer[i] := buffer[i];
      }
      buffer, capacity := newBuffer, newCapacity;
    }

    method Compact()
      requires Valid()
      modifies this`buffer, this`capacity
      ensures Valid() && (buffer == old(buffer) || fresh(buffer)) && Contents() == old(Contents())
      ensures capacity <= old(capacity)
              && (capacity < old(capacity) ==> capacity == limit || capacity == INIT_MIN_CAPACITY)
    {
      var newCapacity := if INIT_MIN_CAPACITY < limit then limit else INIT_MIN_CAPACITY;
      if newCapacity < capacity {
        Resize(newCapacity);
      }
    }

    /** append: fails, changing nothing, when the contents would pass the maximum capacity. */
    method Append(source: seq<int>) returns (ok: bool)
      requires Valid() && |source| <= 0x7FFF_FFFF
      modifies this`limit, this`buffer, this`capacity, buffer
      ensures Valid() && (buffer == old(buffer) || fresh(buffer)) && capacity >= old(capacity)
      ensures ok <==> old(limit) + |source| <= MAX_CAPACITY
      ensures Contents() == if ok then old(Contents()) + source else old(Contents())
    {
      var required := limit + |source|;
      assert required < UINT32;
      if required > capacity {
        if required > MAX_CAPACITY {
          return false;
        }
        var newCapacity := FindSuitableCapacity(capacity, required);
        Resize(newCapacity);
      }
      forall i | 0 <= i < |source| {
        buffer[limit + i] := source[i];
      }
      limit := limit + |source|;
      return true;
    }

    method SetNextTermOffset(offset: int)
      modifies this`nextTermOffset
      ensures nextTermOffset == offset
    {
      nextTermOffset := offset;
    }

    method CaptureHeader(frame: Frame)
      modifies this`frameLength, this`begin, this`end
      ensures frameLength == frame.length && begin == frame.begin && end == frame.end
    {
      frameLength, begin, end := frame.length, frame.begin, frame.end;
    }

    /** completeHeader: the captured header takes the length of the whole message and the flags of both ends. */
    method CompleteHeader(last: Frame) returns (header: Completed)
      requires Valid() && frameLength > HEADER_LENGTH
      modifies this`frameLength, this`begin, this`end, this`fragmentedFrameLength
      ensures header == Completed(frameLength, begin, end, fragmentedFrameLength)
      ensures header == Completed(HEADER_LENGTH + limit, old(begin) || last.begin, old(end) || last.end,
                                  FramedLength(limit, old(frameLength) - HEADER_LENGTH))
    {
      fragmentedFrameLength := FramedLength(limit, frameLength - HEADER_LENGTH);
      frameLength, begin, end := HEADER_LENGTH + limit, begin || last.begin, end || last.end;
      header := Completed(frameLength, begin, end, fragmentedFrameLength);
    }
  }

  datatype Op = Append(bytes: seq<int>) | Reset | Compact | Rollback(to: nat)

  /** The contents that a run of operations is meant to leave: the appends that were retained. */
  function Retained(ops: seq<Op>): seq<int> {
    if ops == [] then []
    else
      var before := Retained(ops[..|ops| - 1]);
      match ops[|ops| - 1]
      case Append(bytes) => if |before| + |bytes| <= MAX_CAPACITY then before + bytes else before
      case Reset => []
      case Compact => before
      case Rollback(to) => if to <= |before| then before[..to] else before
  }

  /** Every run of operations keeps limit and capacity in range and the retained bytes in the buffer; a rollback is
      to a limit that was reached before. */
  method Run(initialCapacity: nat, ops: seq<Op>) returns (contents: seq<int>, capacity: nat)
    requires initialCapacity <= MAX_CAPACITY
    requires forall i :: 0 <= i < |ops| && ops[i].Append? ==> |ops[i].bytes| <= 0x7FFF_FFFF
    ensures contents == Retained(ops) && |contents| <= capacity <= MAX_CAPACITY
  {
    var b := new BufferBuilder(initialCapacity);
    for i := 0 to |ops|
      invariant b.Valid() && fresh(b) && fresh(b.buffer) && b.Contents() == Retained(ops[..i])
    {
      assert ops[..i + 1][..i] == ops[..i];
      match ops[i]
      case Append(bytes) => var _ := b.Append(bytes);
      case Reset => b.Reset();
      case Compact => b.Compact();
      case Rollback(to) =>
        if to <= b.limit {
          var ok := b.SetLimit(to);
          assert !ok ==> to == b.limit;
        }
    }
    assert ops[..|ops|] == ops;
    contents, capacity := b.buffer[..b.limit], b.capacity;
  }
}
