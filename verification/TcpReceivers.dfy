/** The receiver object over the bitmap reassembler. */
module TcpReceivers {
  import opened Basics
  import opened WrappingIntegers
  import opened ByteStreams
  import opened Reassembly
  import opened StreamReassemblers
  import opened Segments
  import opened Receivers

  class TCPReceiver {
    const reassembler: StreamReassembler
    const capacity: nat
    var synReceived: bool
    var finReceived: bool
    var isn: u32

    ghost predicate Valid()
      reads this, reassembler, reassembler.output
    {
      reassembler.Valid() && reassembler.capacity == capacity
    }

    ghost function Value(): Receiver
      reads this, reassembler, reassembler.output
      requires Valid()
    {
      Receiver(reassembler.Value(), synReceived, finReceived, isn)
    }

    constructor (capacity: nat)
      requires 0 < capacity < TWO_31
      ensures Valid() && Value() == Listening(capacity)
      ensures fresh(reassembler) && fresh(reassembler.output)
    {
      this.capacity := capacity;
      reassembler := new StreamReassembler(capacity);
      synReceived, finReceived, isn := false, false, 0;
    }

    /** The checkpoint must leave room for the loop of `unwrap`. */
    method SegmentReceived(seg: TCPSegment)
      requires Valid() && Value().Flow(seg)
      requires |seg.payload| < TWO_31 && Value().window.Base() < TWO_64 - TWO_32
      modifies this, reassembler, reassembler.output
      ensures Valid() && Value() == old(Value()).SegmentReceived(seg)
    {
      hide Unwrap, IsNearest, Window.Push;
      if !seg.header.syn && !synReceived {
        return;
      }
      var eof := false;
      if seg.header.syn && !synReceived {
        synReceived := true;
        isn := seg.header.seqno;
        if seg.header.fin {
          finReceived, eof := true, true;
        }
        reassembler.PushSubstring(seg.payload, 0, eof);
        return;
      }
      if synReceived && seg.header.fin {
        finReceived, eof := true, true;
      }
      var checkpoint := reassembler.AckIndex();
      var absSeqno, _ := UnwrapLoop(seg.header.seqno, isn, checkpoint);
      NearestUnique(seg.header.seqno, isn, checkpoint, absSeqno);
      var streamIndex := (absSeqno - 1) % TWO_64;
      reassembler.PushSubstring(seg.payload, streamIndex, eof);
    }

    function Ackno(): (a: Option<u32>)
      reads this, reassembler, reassembler.output
      requires Valid()
      ensures a == if synReceived then Some(Wrap(Value().AbsoluteAck(), isn)) else None
      ensures forall truth | synReceived && Value().Sound(truth) :: FirstMissing(Value(), Value().AbsoluteAck(), truth)
    {
      assert forall truth | synReceived && Value().Sound(truth) :: FirstMissing(Value(), Value().AbsoluteAck(), truth) by {
        forall truth | synReceived && Value().Sound(truth)
          ensures FirstMissing(Value(), Value().AbsoluteAck(), truth)
        {
          AckIsFirstMissing(Value(), truth);
        }
      }
      if !synReceived then None
      else Some(Wrap(reassembler.AckIndex() + 1 + Bit(reassembler.UnassembledBytes() == 0 && finReceived), isn))
    }

    function WindowSize(): (n: nat)
      reads this, reassembler, reassembler.output
      requires Valid()
      ensures n == Value().WindowSize()
    {
      capacity - |reassembler.output.buffer|
    }
  }
}
