/** The connection object over the sender and receiver objects. */
module TcpConnections {
  import opened Basics
  import opened ByteStreams
  import opened Reassembly
  import opened StreamReassemblers
  import opened Segments
  import opened Senders
  import opened TcpSenders
  import opened Receivers
  import opened TcpReceivers
  import SenderRuns
  import opened Connections

  class TCPConnection {
    const rtTimeout: u16
    const receiver: TCPReceiver
    const sender: TCPSender
    var segmentsOut: seq<TCPSegment>
    var lingerAfterStreamsFinish: bool
    var timeSinceLastSegmentReceived: nat
    var active: bool

    ghost function Repr(): set<object> {
      {this, receiver, receiver.reassembler, receiver.reassembler.output, sender, sender.stream}
    }

    ghost predicate Valid()
      reads Repr()
    {
      receiver.Valid() && sender.stream.Valid() && sender.stream != receiver.reassembler.output
    }

    ghost function Value(): (c: Connection)
      reads Repr()
      requires Valid()
      ensures c.WF()
    {
      Connection(rtTimeout, sender.Value(), receiver.Value(), segmentsOut,
                 lingerAfterStreamsFinish, timeSinceLastSegmentReceived, active)
    }

    constructor (rtTimeout: u16, isn: u32, sendCapacity: nat, recvCapacity: nat)
      requires 0 < recvCapacity < TWO_31
      ensures Valid() && Value() == NewConnection(rtTimeout, isn, sendCapacity, recvCapacity)
    {
      this.rtTimeout := rtTimeout;
      receiver := new TCPReceiver(recvCapacity);
      sender := new TCPSender(sendCapacity, rtTimeout, isn);
      segmentsOut := [];
      lingerAfterStreamsFinish, timeSinceLastSegmentReceived, active := true, 0, true;
    }

    function SetAckAndWindowSize(segment: TCPSegment): (seg: TCPSegment)
      reads Repr()
      requires Valid()
      ensures seg == Value().Stamp(segment)
    {
      var s := match receiver.Ackno()
               case None => segment
               case Some(ackno) => segment.(header := segment.header.(ack := true, ackno := ackno));
      s.(header := s.header.(win := receiver.WindowSize() % TWO_16))
    }

    method RealSend() returns (isSend: bool)
      requires Valid()
      modifies this`segmentsOut, sender`segmentsOut
      ensures Valid() && Value() == old(Value()).RealSend()
      ensures isSend == (old(sender.segmentsOut) != [])
    {
      isSend := false;
      ghost var goal := Value().RealSend();
      while sender.segmentsOut != []
        invariant Valid() && Value().RealSend() == goal
        invariant isSend || sender.segmentsOut == old(sender.segmentsOut)
        invariant isSend ==> old(sender.segmentsOut) != []
        decreases |sender.segmentsOut|
      {
        isSend := true;
        ghost var c := Value();
        var segment := sender.segmentsOut[0];
        sender.segmentsOut := sender.segmentsOut[1..];
        segment := SetAckAndWindowSize(segment);
        segmentsOut := segmentsOut + [segment];
        RealSendStep(c, Value());
      }
    }

    method SetErrors()
      requires Valid()
      modifies Repr()
      ensures Valid() && Value() == old(Value()).SetErrors()
    {
      hide Pending;
      sender.stream.SetError();
      receiver.reassembler.output.SetError();
    }

    /** Takes the oldest segment off the sender's queue, completes it and sends it. */
    method SendFront(rst: bool)
      requires Valid() && sender.segmentsOut != []
      modifies this`segmentsOut, sender`segmentsOut
      ensures Valid() && Value() == old(Value()).SendFront(rst)
    {
      hide Pending;
      var segment := sender.segmentsOut[0];
      sender.segmentsOut := sender.segmentsOut[1..];
      segment := SetAckAndWindowSize(segment);
      if rst {
        segment := segment.(header := segment.header.(rst := true));
      }
      segmentsOut := segmentsOut + [segment];
    }

    /** The receiver's share of an arriving segment, and the decision not to linger. */
    method Reach(seg: TCPSegment)
      requires Valid() && Value().receiver.Flow(seg)
      requires |seg.payload| < TWO_31 && Value().receiver.window.Base() < TWO_64 - TWO_32
      modifies Repr()
      ensures Valid() && Value() == old(Value()).Reached(seg)
    {
      hide Pending, Receiver.SegmentReceived;
      timeSinceLastSegmentReceived := 0;
      receiver.SegmentReceived(seg);
      if CheckInboundEnded() && !(|sender.stream.buffer| == 0 && sender.stream.endWrite) {
        lingerAfterStreamsFinish := false;
      }
    }

    method TakeAck(seg: TCPSegment)
      requires Valid() && sender.nextSeqno < TWO_64 - TWO_32
      modifies Repr()
      ensures Valid() && Value() == old(Value()).Acked(seg)
    {
      hide Pending, Sender.AckReceived, Connection.RealSend;
      if seg.header.ack {
        sender.AckReceived(seg.header.ackno, seg.header.win);
        var _ := RealSend();
      }
    }

    method Answer(seg: TCPSegment)
      requires Valid()
      modifies Repr()
      ensures Valid() && Value() == old(Value()).Answered(seg)
    {
      hide Pending, Sender.FillWindow;
      if seg.Length() > 0 {
        sender.FillWindow();
        ghost var c := Value();
        var isSend := RealSend();
        if !isSend {
          RealSendNothing(c);
          sender.SendEmptySegment();
          RealSendOne(Value());
          SendFront(false);
        }
      }
    }

    method SegmentReceived(seg: TCPSegment)
      requires Valid() && (seg.header.rst || Value().receiver.Flow(seg))
      requires |seg.payload| < TWO_31
      requires Value().receiver.window.Base() < TWO_64 - TWO_32 && sender.nextSeqno < TWO_64 - TWO_32
      modifies Repr()
      ensures Valid() && Value() == old(Value()).SegmentReceived(seg)
    {
      hide Pending, Connection.Reached, Connection.Acked, Connection.Answered;
      if seg.header.rst {
        timeSinceLastSegmentReceived := 0;
        SetErrors();
        active := false;
        return;
      }
      ReachedSender(Value(), seg);
      Reach(seg);
      TakeAck(seg);
      Answer(seg);
    }

    method Connect()
      requires Valid()
      modifies Repr()
      ensures Valid() && Value() == old(Value()).Flushed()
    {
      hide Sender.FillWindow;
      sender.FillWindow();
      var _ := RealSend();
    }

    method Write(data: seq<byte>) returns (n: nat)
      requires Valid()
      modifies Repr()
      ensures Valid() && Value() == old(Value()).Write(data)
      ensures n == old(sender.stream.Value()).Accepted(data)
    {
      if |data| == 0 {
        return 0;
      }
      n := sender.stream.Write(data);
      Connect();
    }

    method EndInputStream()
      requires Valid()
      modifies Repr()
      ensures Valid() && Value() == old(Value()).EndInput()
    {
      sender.stream.EndInput();
      Connect();
    }

    predicate CheckInboundEnded()
      reads Repr()
      requires Valid()
      ensures CheckInboundEnded() <==> Value().InboundEnded()
    {
      receiver.reassembler.UnassembledBytes() == 0 && receiver.reassembler.output.endWrite
    }

    predicate CheckOutboundEnded()
      reads Repr()
      requires Valid()
      ensures CheckOutboundEnded() <==> SenderRuns.OutboundEnded(Value().sender)
    {
      && |sender.stream.buffer| == 0 && sender.stream.endWrite
      && sender.nextSeqno == sender.stream.writtenBytes + 2
      && sender.bytesInFlight == 0
    }

    /** Sends what the timer queued, and gives up after too many retransmissions. */
    method Retransmit()
      requires Valid()
      modifies Repr()
      ensures Valid() && Value() == old(Value()).Retransmit()
    {
      hide Pending, Connection.Stamp;
      if |sender.segmentsOut| > 0 {
        if sender.consecutiveRetransmissions > MAX_RETX_ATTEMPTS {
          StampSame(Value(), Value().SetErrors(), sender.segmentsOut[0]);
          SetErrors();
          active := false;
          SendFront(true);
        } else {
          SendFront(false);
        }
      }
    }

    method CheckDone()
      requires Valid()
      modifies this`active
      ensures Valid() && Value() == old(Value()).(active := old(active) && !old(Value()).Finished())
    {
      hide Pending;
      if CheckInboundEnded() && CheckOutboundEnded() {
        if !lingerAfterStreamsFinish {
          active := false;
        } else if timeSinceLastSegmentReceived >= 10 * rtTimeout {
          active := false;
        }
      }
    }

    method Tick(ms: nat)
      requires Valid() && (sender.timerRunning ==> sender.segmentsOutstanding != [])
      modifies Repr()
      ensures Valid() && Value() == old(Value()).Tick(ms)
    {
      hide Pending, Sender.Tick, Connection.Retransmit, Connection.Finished;
      timeSinceLastSegmentReceived := timeSinceLastSegmentReceived + ms;
      sender.Tick(ms);
      Retransmit();
      CheckDone();
    }

    /** The destructor. */
    method Close()
      requires Valid()
      modifies Repr()
      ensures Valid() && Value() == old(Value()).Close()
    {
      hide Pending, Connection.Stamp;
      if active {
        SetErrors();
        sender.SendEmptySegment();
        SendFront(true);
        active := false;
      }
    }
  }

  lemma StampSame(c: Connection, d: Connection, seg: TCPSegment)
    requires c.receiver.window.WF() && d.receiver.window.WF()
    requires d.receiver == c.receiver.(window := c.receiver.window.(out := c.receiver.window.out.(error := true)))
    ensures c.Stamp(seg) == d.Stamp(seg)
  {
  }

  lemma ReachedSender(c: Connection, seg: TCPSegment)
    requires c.WF() && c.receiver.Flow(seg)
    ensures c.Reached(seg).sender == c.sender
  {
  }

  lemma RealSendNothing(c: Connection)
    requires c.receiver.window.WF() && c.sender.out == []
    ensures c.RealSend() == c
  {
    assert c.out + [] == c.out;
  }

  lemma RealSendOne(c: Connection)
    requires c.receiver.window.WF() && |c.sender.out| == 1
    ensures c.RealSend() == c.SendFront(false)
  {
    assert c.sender.out[1..] == [];
    assert c.StampAll(c.sender.out) == [c.Stamp(c.sender.out[0])];
  }

  lemma RealSendStep(c: Connection, d: Connection)
    requires c.receiver.window.WF() && c.sender.out != []
    requires d == c.(sender := c.sender.(out := c.sender.out[1..]), out := c.out + [c.Stamp(c.sender.out[0])])
    ensures d.RealSend() == c.RealSend()
  {
    StampAllSame(c, d, c.sender.out[1..]);
    assert c.out + [c.Stamp(c.sender.out[0])] + c.StampAll(c.sender.out[1..])
        == c.out + ([c.Stamp(c.sender.out[0])] + c.StampAll(c.sender.out[1..]));
  }

  lemma {:induction false} StampAllSame(c: Connection, d: Connection, q: seq<TCPSegment>)
    requires c.receiver.window.WF() && c.receiver == d.receiver
    ensures c.StampAll(q) == d.StampAll(q)
  {
    if q != [] { StampAllSame(c, d, q[1..]); }
  }
}
