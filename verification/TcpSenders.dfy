/** The sender object: fields updated in place, refined to the value of module Senders. */
module TcpSenders {
  import opened Basics
  import opened WrappingIntegers
  import opened ByteStreams
  import opened Segments
  import opened Senders

  class TCPSender {
    const isn: u32
    const initialRetransmissionTimeout: u16
    const stream: ByteStream
    var segmentsOut: seq<TCPSegment>
    var nextSeqno: nat
    var synSent: bool
    var finSent: bool
    var bytesInFlight: int
    var receiverWindowSize: u16
    var receiverFreeSpace: u16
    var consecutiveRetransmissions: u16
    var rto: u32
    var timeElapsed: u32
    var timerRunning: bool
    var segmentsOutstanding: seq<TCPSegment>

    ghost function Value(): (s: Sender)
      reads this, stream
      requires stream.Valid()
      ensures s.stream.WF()
    {
      Sender(isn, initialRetransmissionTimeout, stream.Value(), nextSeqno, synSent, finSent, bytesInFlight,
             receiverWindowSize, receiverFreeSpace, consecutiveRetransmissions, rto, timeElapsed, timerRunning,
             segmentsOutstanding, segmentsOut)
    }

    constructor (capacity: nat, retxTimeout: u16, fixedIsn: u32)
      ensures stream.Valid() && fresh(stream) && Value() == Closed(fixedIsn, capacity, retxTimeout)
    {
      isn, initialRetransmissionTimeout, rto := fixedIsn, retxTimeout, retxTimeout;
      stream := new ByteStream(capacity);
      segmentsOut, segmentsOutstanding := [], [];
      nextSeqno, synSent, finSent, bytesInFlight := 0, false, false, 0;
      receiverWindowSize, receiverFreeSpace, consecutiveRetransmissions := 0, 0, 0;
      timeElapsed, timerRunning := 0, false;
    }

    method SendSegment(syn: bool, fin: bool, payload: seq<byte>)
      requires stream.Valid()
      modifies this
      ensures Value() == old(Value()).Send(syn, fin, payload)
    {
      hide Wrap, TCPSegment.Length, Minus16;
      var seg := TCPSegment(BLANK.(seqno := Wrap(nextSeqno, isn), syn := syn, fin := fin), payload);
      nextSeqno := nextSeqno + seg.Length();
      bytesInFlight := bytesInFlight + seg.Length();
      if synSent {
        receiverFreeSpace := Minus16(receiverFreeSpace, seg.Length());
      }
      segmentsOut := segmentsOut + [seg];
      segmentsOutstanding := segmentsOutstanding + [seg];
      if !timerRunning {
        timerRunning := true;
        timeElapsed := 0;
      }
    }

    /** One segment with `n` bytes of the stream, and a FIN behind the last one. */
    method SendFromStream(n: nat, fin: bool)
      requires stream.Valid() && n <= stream.Value().Buffered()
      modifies this, stream
      ensures stream.Valid() && Value() == old(Value()).SendData(n, fin)
    {
      var payload := stream.Read(n);
      assert payload == old(stream.buffer)[..n];
      if fin {
        finSent := true;
      }
      SendSegment(false, fin, payload);
    }

    method FillLoop()
      requires stream.Valid()
      modifies this, stream
      ensures stream.Valid() && Value() == old(Value()).FillLoop()
    {
      hide Sender.SendData;
      ghost var goal := Value().FillLoop();
      while receiverFreeSpace != 0
        invariant stream.Valid() && Value().FillLoop() == goal
        decreases |stream.buffer|
      {
        ghost var s := Value();
        var payloadSize := Min(|stream.buffer|, Min(receiverFreeSpace, MAX_PAYLOAD_SIZE));
        assert payloadSize == s.ChunkSize();
        var fin := |stream.buffer| == payloadSize && stream.endWrite && receiverFreeSpace > payloadSize;
        assert fin == (s.stream.Pop(payloadSize).Eof() && s.free > payloadSize);
        SendFromStream(payloadSize, fin);
        SendDataStream(s, payloadSize, fin);
        if |stream.buffer| == 0 {
          return;
        }
      }
    }

    method FillWindow()
      requires stream.Valid()
      modifies this, stream
      ensures stream.Valid() && Value() == old(Value()).FillWindow()
    {
      hide Sender.Send, Sender.SendData, Sender.FillLoop;
      if !synSent {
        synSent := true;
        SendSegment(true, false, []);
        return;
      }
      if segmentsOutstanding != [] && segmentsOutstanding[0].header.syn {
        return;
      }
      if |stream.buffer| == 0 && !(|stream.buffer| == 0 && stream.endWrite) {
        return;
      }
      if finSent {
        return;
      }
      if receiverWindowSize != 0 {
        FillLoop();
      } else if receiverFreeSpace == 0 {
        if |stream.buffer| == 0 && stream.endWrite {
          SendFromStream(0, true);
        } else if |stream.buffer| != 0 {
          SendFromStream(1, false);
        }
      }
    }

    method Unwrapped(n: u32) returns (a: nat)
      requires nextSeqno < TWO_64 - TWO_32
      ensures a == Unwrap(n, isn, nextSeqno)
    {
      hide Unwrap, IsNearest;
      ghost var rounds;
      a, rounds := UnwrapLoop(n, isn, nextSeqno);
      NearestUnique(n, isn, nextSeqno, a);
    }

    /** The loop that drops the segments an acknowledgement covers. */
    method PopAcked(absAckno: nat)
      requires stream.Valid() && nextSeqno < TWO_64 - TWO_32
      modifies this
      ensures Value() == old(Value()).PopAcked(absAckno)
    {
      hide Unwrap, Sender.PopAcked;
      while segmentsOutstanding != []
        invariant stream.Valid() && nextSeqno < TWO_64 - TWO_32
        invariant Value().PopAcked(absAckno) == old(Value()).PopAcked(absAckno)
        decreases |segmentsOutstanding|
      {
        var seg := segmentsOutstanding[0];
        var start := Unwrapped(seg.header.seqno);
        PopAckedStep(Value(), absAckno);
        if start + seg.Length() <= absAckno {
          bytesInFlight := bytesInFlight - seg.Length();
          segmentsOutstanding := segmentsOutstanding[1..];
          timeElapsed := 0;
          rto := initialRetransmissionTimeout;
          consecutiveRetransmissions := 0;
        } else {
          return;
        }
      }
      PopAckedStep(Value(), absAckno);
    }

    method AckReceived(ackno: u32, windowSize: u16)
      requires stream.Valid() && nextSeqno < TWO_64 - TWO_32
      modifies this, stream
      ensures stream.Valid() && Value() == old(Value()).AckReceived(ackno, windowSize)
    {
      hide Unwrap, Sender.FillWindow, Sender.PopAcked, Minus16;
      var absAckno := Unwrapped(ackno);
      ghost var s := Value();
      var valid := absAckno <= nextSeqno;
      if segmentsOutstanding != [] {
        var first := Unwrapped(segmentsOutstanding[0].header.seqno);
        valid := valid && absAckno >= first;
      }
      if !valid {
        return;
      }
      receiverWindowSize := windowSize;
      receiverFreeSpace := windowSize;
      PopAckedFrame(Value(), absAckno);
      PopAcked(absAckno);
      if segmentsOutstanding != [] {
        var first := Unwrapped(segmentsOutstanding[0].header.seqno);
        receiverFreeSpace := Minus16(absAckno + windowSize, first + bytesInFlight);
      }
      if bytesInFlight == 0 {
        timerRunning := false;
      }
      assert Value() == s.Acknowledge(absAckno, windowSize);
      FillWindow();
    }

    method Tick(ms: nat)
      requires stream.Valid() && (timerRunning ==> segmentsOutstanding != [])
      modifies this
      ensures Value() == old(Value()).Tick(ms)
    {
      if !timerRunning {
        return;
      }
      timeElapsed := (timeElapsed + ms) % TWO_32;
      if timeElapsed >= rto {
        segmentsOut := segmentsOut + [segmentsOutstanding[0]];
        if receiverWindowSize != 0 || segmentsOutstanding[0].header.syn {
          consecutiveRetransmissions := (consecutiveRetransmissions + 1) % TWO_16;
          rto := 2 * rto % TWO_32;
        }
        timeElapsed := 0;
      }
    }

    method SendEmptySegment()
      requires stream.Valid()
      modifies this
      ensures Value() == old(Value()).SendEmpty()
    {
      segmentsOut := segmentsOut + [TCPSegment(BLANK.(seqno := Wrap(nextSeqno, isn)), [])];
    }
  }

  lemma SendDataStream(s: Sender, n: nat, fin: bool)
    requires s.stream.WF() && n <= s.stream.Buffered()
    ensures s.SendData(n, fin).stream == s.stream.Pop(n)
  {
  }

  lemma PopAckedStep(s: Sender, a: nat)
    ensures s.PopAcked(a) == if s.FrontAcked(a) then s.DropFront().PopAcked(a) else s
  {
  }
}
