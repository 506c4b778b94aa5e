/**
 * Output buffers of 256 characters: one passes what it holds on to an output
 * iterator when it is full, the other only counts it.
 */
module Buffers {
  const BUFFER_SIZE: nat := 256

  /** Where the contents of a full buffer go: to an output iterator, or nowhere but into a count. */
  datatype Sink = Iterator(out: string) | Counter(count: nat)

  /** One operation of a client of the buffer. */
  datatype Operation = PushBack(c: char) | Append(s: string)

  /** What a sequence of operations writes. */
  function Output(ops: seq<Operation>): string {
    if ops == [] then [] else
      Output(ops[..|ops| - 1]) + match ops[|ops| - 1] { case PushBack(c) => [c] case Append(s) => s }
  }

  /** How many characters one pass of append copies, after the room that it asked for was made. */
  function PassCount(size: nat, capacity: nat, rest: nat): nat
    requires size <= capacity
  {
    if capacity - size < rest then capacity - size else rest
  }

  /** The fill level of a buffer after room for new characters was asked for. */
  function SizeAfterReserve(size: nat, capacity: nat, newCapacity: nat): (r: nat)
    ensures r <= size
  {
    if newCapacity > capacity && size == BUFFER_SIZE then 0 else size
  }

  /** A pass of append that has characters left copies one exactly when the buffer has room or is flushed. */
  lemma PassProgresses(size: nat, capacity: nat, rest: nat)
    requires size <= capacity <= BUFFER_SIZE && rest > 0
    ensures PassCount(SizeAfterReserve(size, capacity, size + rest), capacity, rest) > 0
            <==> size < capacity || capacity == BUFFER_SIZE
  {
  }

  /** How many of rest characters append has copied after a number of passes. */
  function Copied(size: nat, capacity: nat, rest: nat, passes: nat): nat
    requires size <= capacity
    decreases passes
  {
    if passes == 0 || rest == 0 then 0
    else
      var room := SizeAfterReserve(size, capacity, size + rest);
      var count := PassCount(room, capacity, rest);
      count + Copied(room + count, capacity, rest - count, passes - 1)
  }

  /** A buffer made for fewer characters fills up and is never flushed. */
  lemma {:induction false} SmallBufferFills(size: nat, capacity: nat, rest: nat, passes: nat)
    requires size <= capacity < BUFFER_SIZE
    ensures Copied(size, capacity, rest, passes) == if passes == 0 then 0 else PassCount(size, capacity, rest)
    decreases passes
  {
    if passes > 0 && rest > 0 {
      var count := PassCount(size, capacity, rest);
      SmallBufferFills(size + count, capacity, rest - count, passes - 1);
    }
  }

  lemma {:induction false} LargeBufferEnds(size: nat, rest: nat, passes: nat)
    requires size <= BUFFER_SIZE && rest <= passes
    ensures Copied(size, BUFFER_SIZE, rest, passes) == rest
    decreases passes
  {
    if rest > 0 {
      PassProgresses(size, BUFFER_SIZE, rest);
      var room := SizeAfterReserve(size, BUFFER_SIZE, size + rest);
      var count := PassCount(room, BUFFER_SIZE, rest);
      LargeBufferEnds(room + count, rest - count, passes - 1);
    }
  }

  /** Append ends exactly in a buffer of 256 characters, or when there is room for the whole text. */
  lemma AppendEnds(size: nat, capacity: nat, rest: nat)
    requires size <= capacity <= BUFFER_SIZE
    ensures (exists passes: nat :: Copied(size, capacity, rest, passes) == rest)
            <==> capacity == BUFFER_SIZE || rest <= capacity - size
    ensures capacity < BUFFER_SIZE ==>
              forall passes: nat :: Copied(size, capacity, rest, passes) <= capacity - size
  {
    if capacity == BUFFER_SIZE {
      LargeBufferEnds(size, rest, rest);
    } else {
      forall passes: nat
        ensures Copied(size, capacity, rest, passes) == if passes == 0 then 0 else PassCount(size, capacity, rest)
      {
        SmallBufferFills(size, capacity, rest, passes);
      }
      assert rest <= capacity - size ==> Copied(size, capacity, rest, 1) == rest;
    }
  }

  class Buffer {
    const data: array<char>
    const capacity: nat
    var size: nat
    var sink: Sink
    /** All characters written so far. */
    ghost var written: string

    ghost predicate Valid()
      reads this, data
    {
      && data.Length == BUFFER_SIZE && size <= BUFFER_SIZE && capacity <= BUFFER_SIZE
      && match sink {
           case Iterator(out) => written == out + data[..size]
           case Counter(count) => |written| == count + size
         }
    }

    /** An iterator buffer: traits that pass every size through, and room for n characters at most. */
    constructor ToIterator(out: string, n: nat)
      ensures Valid() && fresh(data)
      ensures sink == Iterator(out) && written == out && size == 0
      ensures capacity == if n < BUFFER_SIZE then n else BUFFER_SIZE
    {
      data := new char[BUFFER_SIZE];
      capacity := if n < BUFFER_SIZE then n else BUFFER_SIZE;
      size, sink, written := 0, Iterator(out), out;
    }

    constructor ToCounter()
      ensures Valid() && fresh(data)
      ensures sink == Counter(0) && written == "" && size == 0 && capacity == BUFFER_SIZE
    {
      data := new char[BUFFER_SIZE];
      capacity := BUFFER_SIZE;
      size, sink, written := 0, Counter(0), "";
    }

    /** Empties the buffer into its sink. */
    method Flush()
      requires Valid()
      modifies this`size, this`sink
      ensures Valid() && size == 0 && sink.Iterator? == old(sink.Iterator?)
    {
      match sink {
        case Iterator(out) => sink := Iterator(out + data[..size]);
        case Counter(count) => sink := Counter(count + size);
      }
      size := 0;
    }

    /** Does not grow the buffer, but empties it when it is full. */
    method Grow()
      requires Valid()
      modifies this`size, this`sink
      ensures Valid() && sink.Iterator? == old(sink.Iterator?)
      ensures size == if old(size) == BUFFER_SIZE then 0 else old(size)
    {
      if size == BUFFER_SIZE {
        Flush();
      }
    }

    method TryReserve(newCapacity: nat)
      requires Valid()
      modifies this`size, this`sink
      ensures Valid() && sink.Iterator? == old(sink.Iterator?)
      ensures size == SizeAfterReserve(old(size), capacity, newCapacity)
    {
      if newCapacity > capacity {
        Grow();
      }
    }

    method PushBack(value: char)
      requires Valid()
      modifies this, data
      ensures Valid() && sink.Iterator? == old(sink.Iterator?)
      ensures written == old(written) + [value]
      ensures capacity == BUFFER_SIZE || old(size) < capacity ==> size <= capacity
    {
      TryReserve(size + 1);
      data[size] := value;
      size := size + 1;
      written := written + [value];
    }

    /** Copies count characters of s, from begin, behind the contents. */
    method CopyIn(s: string, begin: nat, count: nat)
      requires Valid() && begin + count <= |s| && size + count <= BUFFER_SIZE
      modifies this, data
      ensures Valid() && sink == old(sink) && size == old(size) + count
      ensures written == old(written) + s[begin..begin + count]
    {
      ghost var before := data[..size];
      for i := 0 to count
        invariant size == old(size) && sink == old(sink) && written == old(written)
        invariant data[..size] == before
        invariant data[size..size + i] == s[begin..begin + i]
      {
        data[size + i] := s[begin + i];
      }
      assert data[..size + count] == before + s[begin..begin + count];
      size := size + count;
      written := written + s[begin..begin + count];
    }

    /** Writes all of s, filling the buffer as often as it takes. */
    method Append(s: string)
      requires Valid() && size <= capacity
      requires capacity == BUFFER_SIZE || |s| <= capacity - size
      modifies this, data
      ensures Valid() && sink.Iterator? == old(sink.Iterator?) && size <= capacity
      ensures written == old(written) + s
    {
      var begin := 0;
      while true
        invariant Valid() && sink.Iterator? == old(sink.Iterator?) && size <= capacity
        invariant begin <= |s| && (begin < |s| || |s| == 0)
        invariant capacity == BUFFER_SIZE || |s| - begin <= capacity - size
        invariant written == old(written) + s[..begin]
        decreases |s| - begin
      {
        var count := |s| - begin;
        if count > 0 { PassProgresses(size, capacity, count); }
        TryReserve(size + count);
        count := PassCount(size, capacity, count);
        CopyIn(s, begin, count);
        begin := begin + count;
        if begin == |s| { break; }
      }
    }

    /** The output iterator after everything was passed on to it. */
    method Out() returns (out: string)
      requires Valid() && sink.Iterator?
      modifies this`size, this`sink
      ensures Valid() && size == 0 && sink == Iterator(out)
      ensures out == written
    {
      Flush();
      out := sink.out;
    }

    /** The number of characters written to a counting buffer. */
    method Count() returns (n: nat)
      requires Valid() && sink.Counter?
      ensures n == |written|
    {
      n := sink.count + size;
    }

    method Perform(ops: seq<Operation>)
      requires Valid() && capacity == BUFFER_SIZE
      modifies this, data
      ensures Valid() && sink.Iterator? == old(sink.Iterator?)
      ensures written == old(written) + Output(ops)
    {
      for i := 0 to |ops|
        invariant Valid() && sink.Iterator? == old(sink.Iterator?)
        invariant written == old(written) + Output(ops[..i])
      {
        match ops[i] {
          case PushBack(c) => PushBack(c);
          case Append(s) => Append(s);
        }
        assert ops[..i + 1][..i] == ops[..i];
      }
      assert ops[..|ops|] == ops;
    }
  }

  /** Chunking conserves the output: the iterator receives exactly what was written, in order. */
  method FormatToIterator(out: string, ops: seq<Operation>) returns (r: string)
    ensures r == out + Output(ops)
  {
    var buffer := new Buffer.ToIterator(out, BUFFER_SIZE);
    buffer.Perform(ops);
    r := buffer.Out();
  }

  /** Counting predicts the length of the output. */
  method FormattedSize(ops: seq<Operation>) returns (n: nat)
    ensures n == |Output(ops)|
  {
    var buffer := new Buffer.ToCounter();
    buffer.Perform(ops);
    n := buffer.Count();
  }
}
