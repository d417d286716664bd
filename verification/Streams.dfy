/** Bounded character streams kept in circular buffers (libk/stream.c), proved to be FIFO queues
    that hold one character less than the buffer has cells. */
module Streams {
  import opened Machine

  // ---------------------------------------------------------------- the specification: a bounded queue

  datatype Op = Put(c: char) | Get | Flush

  datatype Reply = Accepted | Refused | Received(c: char) | Nothing | Flushed

  function Serve(queue: seq<char>, capacity: nat, op: Op): (r: (seq<char>, Reply)) {
    match op
    case Put(c) => if |queue| < capacity then (queue + [c], Accepted) else (queue, Refused)
    case Get => if queue == [] then (queue, Nothing) else (queue[1..], Received(queue[0]))
    case Flush => ([], Flushed)
  }

  /** What a bounded queue answers to a whole sequence of requests, and what it holds afterwards. */
  function ServeAll(queue: seq<char>, capacity: nat, ops: seq<Op>): (r: (seq<char>, seq<Reply>))
    ensures |r.1| == |ops|
  {
    if ops == [] then (queue, [])
    else
      var n := |ops| - 1;
      var before := ServeAll(queue, capacity, ops[..n]);
      var last := Serve(before.0, capacity, ops[n]);
      (last.0, before.1 + [last.1])
  }

  // ---------------------------------------------------------------- circular buffers

  /** The unread characters, oldest first. */
  ghost function Window(cells: seq<char>, inPos: nat, outPos: nat): (w: seq<char>)
    requires inPos < |cells| && outPos < |cells|
  {
    if outPos <= inPos then cells[outPos..inPos] else cells[outPos..] + cells[..inPos]
  }

  /** The position of `in` at which a put is refused, in size_t arithmetic. */
  function FullAt(outPos: nat, size: nat): nat
    requires size > 0
  {
    U32(outPos - 1 + size) % size
  }

  /** The place just before `outPos` on a ring of `size` cells. */
  function Previous(outPos: nat, size: nat): nat
    requires outPos < size
  {
    if outPos == 0 then size - 1 else outPos - 1
  }

  /** The sum out - 1 + size is taken modulo 2^32 before it is reduced modulo size. The test for a
      full buffer therefore looks at the right cell for every reader position exactly when the
      stream has at most 2^31 cells. */
  lemma FullTestExact(size: nat)
    requires 0 < size < WORD
    ensures (forall outPos: nat | outPos < size :: FullAt(outPos, size) == Previous(outPos, size))
            <==> size <= 0x8000_0000
  {
    if size <= 0x8000_0000 {
      forall outPos: nat | outPos < size
        ensures FullAt(outPos, size) == Previous(outPos, size)
      {
        ModOnce(outPos - 1 + size, size);
      }
    } else {
      var last := size - 1;
      assert FullAt(last, size) != Previous(last, size) by {
        var wrapped := U32(last - 1 + size);
        assert wrapped == 2 * size - 2 - WORD < size;
        ModOnce(wrapped, size);
      }
    }
  }

  lemma FullMeansFull(cells: seq<char>, inPos: nat, outPos: nat)
    requires inPos < |cells| && outPos < |cells| <= 0x8000_0000
    ensures inPos == FullAt(outPos, |cells|) <==> |Window(cells, inPos, outPos)| == |cells| - 1
  {
    FullTestExact(|cells|);
    assert FullAt(outPos, |cells|) == Previous(outPos, |cells|);
  }

  lemma WindowPut(cells: seq<char>, inPos: nat, outPos: nat, c: char)
    requires inPos < |cells| && outPos < |cells| < WORD
    requires |Window(cells, inPos, outPos)| < |cells| - 1
    ensures var next := U32(inPos + 1) % |cells|;
            Window(cells[inPos := c], next, outPos) == Window(cells, inPos, outPos) + [c]
  {
    ModOnce(inPos + 1, |cells|);
  }

  /** The cell at `in` is never an unread one. */
  lemma WindowStore(cells: seq<char>, inPos: nat, outPos: nat, c: char)
    requires inPos < |cells| && outPos < |cells|
    ensures Window(cells[inPos := c], inPos, outPos) == Window(cells, inPos, outPos)
  {
  }

  lemma WindowDrop(cells: seq<char>, inPos: nat, outPos: nat, next: nat)
    requires inPos < |cells| && outPos < |cells| && inPos != outPos
    requires next == if outPos + 1 < |cells| then outPos + 1 else 0
    ensures Window(cells, inPos, outPos) == [cells[outPos]] + Window(cells, inPos, next)
  {
  }

  lemma WindowGet(cells: seq<char>, inPos: nat, outPos: nat)
    requires inPos < |cells| && outPos < |cells| < WORD
    requires inPos != outPos
    ensures var w := Window(cells, inPos, outPos);
            w != [] && w[0] == cells[outPos] && Window(cells, inPos, U32(outPos + 1) % |cells|) == w[1..]
  {
    ModOnce(outPos + 1, |cells|);
    WindowDrop(cells, inPos, outPos, if outPos + 1 < |cells| then outPos + 1 else 0);
  }

  // ---------------------------------------------------------------- char_stream

  class CharStream {
    const stream: array<char>
    const size: nat
    var inPos: nat
    var outPos: nat

    ghost predicate Valid()
      reads this
    {
      stream.Length == size && 1 <= size <= 0x8000_0000 && inPos < size && outPos < size
    }

    ghost function Queue(): (q: seq<char>)
      requires Valid()
      reads this, stream
      ensures |q| < size
    {
      Window(stream[..], inPos, outPos)
    }

    /** Any size gives zeroed cells; the stream is a queue for the sizes its full test is right for. */
    constructor (size: nat)
      requires size < WORD
      ensures fresh(stream) && this.size == size && stream.Length == size
      ensures forall i | 0 <= i < size :: stream[i] == NUL
      ensures Valid() <==> 1 <= size <= 0x8000_0000
      ensures Valid() ==> Queue() == []
    {
      this.stream := new char[size](_ => NUL);
      this.size := size;
      inPos, outPos := 0, 0;
    }

    method Flush()
      requires Valid()
      modifies this, stream
      ensures Valid() && Queue() == []
      ensures forall i | 0 <= i < size :: stream[i] == NUL
    {
      var i := 0;
      while i < size
        invariant i <= size
        invariant forall k | 0 <= k < i :: stream[k] == NUL
        modifies stream
      {
        stream[i] := NUL;
        i := i + 1;
      }
      inPos, outPos := 0, 0;
    }

    method Put(c: char) returns (code: int)
      requires Valid()
      modifies this, stream
      ensures Valid()
      ensures code == if |old(Queue())| < size - 1 then 1 else 0
      ensures Queue() == if code == 1 then old(Queue()) + [c] else old(Queue())
    {
      FullMeansFull(stream[..], inPos, outPos);
      if inPos == FullAt(outPos, size) {
        return 0;
      }
      WindowPut(stream[..], inPos, outPos, c);
      stream[inPos] := c;
      inPos := U32(inPos + 1) % size;
      assert stream[..] == old(stream[..])[old(inPos) := c];
      return 1;
    }

    method Get() returns (c: Option<char>)
      requires Valid()
      modifies this
      ensures Valid()
      ensures c == if old(Queue()) == [] then None else Some(old(Queue())[0])
      ensures Queue() == if c.None? then [] else old(Queue())[1..]
    {
      if inPos == outPos {
        return None;
      }
      WindowGet(stream[..], inPos, outPos);
      var oldest := stream[outPos];
      outPos := U32(outPos + 1) % size;
      return Some(oldest);
    }

    /** Every sequence of requests gets exactly the answers of a FIFO queue of capacity size - 1. */
    method Run(ops: seq<Op>) returns (replies: seq<Reply>)
      requires Valid()
      modifies this, stream
      ensures Valid()
      ensures (Queue(), replies) == ServeAll(old(Queue()), size - 1, ops)
    {
      replies := [];
      assert ops[..0] == [];
      for i := 0 to |ops|
        invariant Valid()
        invariant (Queue(), replies) == ServeAll(old(Queue()), size - 1, ops[..i])
      {
        assert ops[..i + 1][..i] == ops[..i];
        match ops[i] {
          case Put(c) =>
            var code := Put(c);
            replies := replies + [if code == 1 then Accepted else Refused];
          case Get =>
            var c := Get();
            replies := replies + [if c.Some? then Received(c.value) else Nothing];
          case Flush =>
            Flush();
            replies := replies + [Flushed];
        }
      }
      assert ops[..|ops|] == ops;
    }
  }

  // ---------------------------------------------------------------- std_stream

  const STD_STREAM_SIZE := 256

  lemma LongerPrefix(queue: string, s: string, n: nat)
    requires n < |s|
    ensures queue + s[..n] + [s[n]] == queue + s[..n + 1]
  {
  }

  class StdStream {
    const stream: array<char>
    const size: nat
    var inPos: nat
    var outPos: nat

    ghost predicate Valid()
      reads this
    {
      stream.Length == size == STD_STREAM_SIZE && inPos < size && outPos < size
    }

    ghost function Queue(): (q: seq<char>)
      requires Valid()
      reads this, stream
      ensures |q| < STD_STREAM_SIZE
    {
      Window(stream[..], inPos, outPos)
    }

    constructor ()
      ensures Valid() && fresh(stream) && Queue() == []
    {
      stream := new char[STD_STREAM_SIZE];
      size := STD_STREAM_SIZE;
      inPos, outPos := 0, 0;
    }

    method Flush()
      requires Valid()
      modifies this, stream
      ensures Valid() && Queue() == []
      ensures forall i | 0 <= i < size :: stream[i] == NUL
    {
      var i := 0;
      while i < size
        invariant i <= size
        invariant forall k | 0 <= k < i :: stream[k] == NUL
        modifies stream
      {
        stream[i] := NUL;
        i := i + 1;
      }
      inPos, outPos := 0, 0;
    }

    method Put(c: char) returns (code: int)
      requires Valid()
      modifies this, stream
      ensures Valid()
      ensures code == if |old(Queue())| < 255 then 0 else -1
      ensures Queue() == if code == 0 then old(Queue()) + [c] else old(Queue())
    {
      FullMeansFull(stream[..], inPos, outPos);
      if inPos == FullAt(outPos, STD_STREAM_SIZE) {
        return -1;
      }
      WindowPut(stream[..], inPos, outPos, c);
      stream[inPos] := c;
      inPos := U32(inPos + 1) % STD_STREAM_SIZE;
      assert stream[..] == old(stream[..])[old(inPos) := c];
      return 0;
    }

    /** Appends the longest prefix of s that fits and returns its length. */
    method PutString(s: string) returns (n: nat)
      requires Valid()
      modifies this, stream
      ensures Valid()
      ensures n == |s| || |Queue()| == 255
      ensures n <= |s| && Queue() == old(Queue()) + s[..n]
    {
      n := 0;
      while n < |s|
        invariant Valid()
        invariant n <= |s| && Queue() == old(Queue()) + s[..n]
      {
        LongerPrefix(old(Queue()), s, n);
        var code := Put(s[n]);
        if code != 0 {
          assert |Queue()| == 255;
          break;
        }
        n := n + 1;
      }
    }

    method Get() returns (c: Option<char>)
      requires Valid()
      modifies this
      ensures Valid()
      ensures c == if old(Queue()) == [] then None else Some(old(Queue())[0])
      ensures Queue() == if c.None? then [] else old(Queue())[1..]
    {
      if inPos == outPos {
        return None;
      }
      WindowGet(stream[..], inPos, outPos);
      var oldest := stream[outPos];
      outPos := U32(outPos + 1) % STD_STREAM_SIZE;
      return Some(oldest);
    }
  }
}
