/** The in-order, flow-controlled byte stream that feeds the sender and collects what was reassembled. */
module ByteStreams {
  import opened Basics

  /** The value of a stream: every byte ever accepted, and how many of them were popped. */
  datatype Stream = Stream(capacity: nat, history: seq<byte>, read: nat, ended: bool, error: bool)
  {
    predicate WF() {
      read <= |history| <= read + capacity
    }

    function Buffered(): nat
      requires WF()
    {
      |history| - read
    }

    function Buffer(): seq<byte>
      requires WF()
    {
      history[read..]
    }

    /** The reader has reached the end. */
    predicate Eof()
      requires WF()
    {
      Buffered() == 0 && ended
    }

    /** As much as fits: all of it, or what fills the buffer. */
    function Accepted(data: seq<byte>): (n: nat)
      requires WF()
      ensures n <= |data| && Buffered() + n <= capacity
      ensures n < |data| ==> Buffered() + n == capacity
    {
      Min(capacity - Buffered(), |data|)
    }

    function Write(data: seq<byte>): (s: Stream)
      requires WF()
      ensures s.WF()
    {
      this.(history := history + data[..Accepted(data)])
    }

    /** Popping more than is buffered only sets the error flag. */
    function Pop(n: nat): (s: Stream)
      requires WF()
      ensures s.WF() && s.history == history && s.ended == ended
      ensures n <= Buffered() ==> s.Buffer() == Buffer()[n..] && s.error == error
      ensures Buffered() < n ==> s.Buffer() == Buffer() && s.error
    {
      if n > Buffered() then this.(error := true) else this.(read := read + n)
    }
  }

  function Fresh(capacity: nat): (s: Stream)
    ensures s.WF() && s.Buffered() == 0
  {
    Stream(capacity, [], 0, false, false)
  }

  class ByteStream {
    const capacity: nat
    var buffer: seq<byte>
    var endWrite: bool
    var writtenBytes: nat
    var readBytes: nat
    var error: bool
    ghost var history: seq<byte>

    /** The buffer is the unread part of everything written, and the counters count both parts. */
    ghost predicate Valid()
      reads this
    {
      && writtenBytes == |history|
      && readBytes <= writtenBytes
      && buffer == history[readBytes..]
      && |buffer| <= capacity
    }

    ghost function Value(): (s: Stream)
      reads this
      requires Valid()
      ensures s.WF() && s.Buffer() == buffer
    {
      Stream(capacity, history, readBytes, endWrite, error)
    }

    constructor (capacity: nat)
      ensures Valid() && Value() == Fresh(capacity)
    {
      this.capacity := capacity;
      buffer, history := [], [];
      writtenBytes, readBytes := 0, 0;
      endWrite, error := false, false;
    }

    method Write(data: seq<byte>) returns (n: nat)
      requires Valid()
      modifies this
      ensures Valid() && Value() == old(Value()).Write(data)
      ensures n == old(Value()).Accepted(data)
    {
      n := Min(capacity - |buffer|, |data|);
      for i := 0 to n
        invariant buffer == old(buffer) + data[..i]
        invariant unchanged(`writtenBytes) && unchanged(`readBytes) && unchanged(`history)
        invariant unchanged(`endWrite) && unchanged(`error)
      {
        buffer := buffer + [data[i]];
      }
      writtenBytes := writtenBytes + n;
      history := history + data[..n];
    }

    method PeekOutput(len: nat) returns (out: seq<byte>)
      requires Valid()
      ensures out == Value().Buffer()[..Min(len, Value().Buffered())]
    {
      out := [];
      for i := 0 to Min(len, |buffer|)
        invariant out == buffer[..i]
      {
        out := out + [buffer[i]];
      }
    }

    method PopOutput(len: nat)
      requires Valid()
      modifies this
      ensures Valid() && Value() == old(Value()).Pop(len)
    {
      if len > |buffer| {
        error := true;
        return;
      }
      for i := 0 to len
        invariant buffer == old(buffer)[i..]
        invariant unchanged(`writtenBytes) && unchanged(`readBytes) && unchanged(`history)
        invariant unchanged(`endWrite) && unchanged(`error)
      {
        buffer := buffer[1..];
      }
      readBytes := readBytes + len;
    }

    /** Reads exactly the oldest `len` bytes that were written and not read, or nothing at all. */
    method Read(len: nat) returns (out: seq<byte>)
      requires Valid()
      modifies this
      ensures Valid() && Value() == old(Value()).Pop(len)
      ensures out == if len > old(Value()).Buffered() then [] else history[old(readBytes)..readBytes]
    {
      out := [];
      if len > |buffer| {
        error := true;
        return;
      }
      for i := 0 to len
        invariant buffer == old(buffer)[i..] && out == old(buffer)[..i]
        invariant unchanged(`writtenBytes) && unchanged(`readBytes) && unchanged(`history)
        invariant unchanged(`endWrite) && unchanged(`error)
      {
        out := out + [buffer[0]];
        buffer := buffer[1..];
      }
      readBytes := readBytes + len;
    }

    method EndInput()
      requires Valid()
      modifies this
      ensures Valid() && Value() == old(Value()).(ended := true)
    {
      endWrite := true;
    }

    method SetError()
      requires Valid()
      modifies this
      ensures Valid() && Value() == old(Value()).(error := true)
    {
      error := true;
    }
  }
}
