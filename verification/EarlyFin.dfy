/** Why the end of the stream needs punctual FINs: runs in which one is early or cut off. */
module EarlyFin {
  import opened Basics
  import opened WrappingIntegers
  import opened ByteStreams
  import opened Reassembly
  import opened Segments
  import opened Senders
  import opened Receivers
  import opened EndToEnd

  /** A segment of a sender whose initial sequence number is zero. */
  function Seg(a: u32, syn: bool, fin: bool, payload: seq<byte>): TCPSegment {
    TCPSegment(BLANK.(seqno := a, syn := syn, fin := fin), payload)
  }

  const SYN := Seg(0, true, false, [])
  const DATA := Seg(1, false, false, [65])
  const FIN := Seg(2, false, true, [])

  // ---- A lost byte ----------------------------------------------------------------------------

  /** The sender after its SYN, after the acknowledgement of it, after one byte and after its FIN. */
  function SentSyn(): Sender {
    Sender(0, 1000, Stream(10, [], 0, false, false), 1, true, false, 1, 0, 65535, 0, 1000, 0, true, [SYN], [])
  }

  function Open(history: seq<byte>): Sender {
    Sender(0, 1000, Stream(10, history, 0, false, false), 1, true, false, 0, 10, 10, 0, 1000, 0, false, [], [])
  }

  function SentData(ended: bool): Sender {
    Sender(0, 1000, Stream(10, [65], 1, ended, false), 2, true, false, 1, 10, 9, 0, 1000, 0, true, [DATA], [])
  }

  function SentFin(): Sender {
    Sender(0, 1000, Stream(10, [65], 1, true, false), 3, true, true, 2, 10, 8, 0, 1000, 0, true, [DATA, FIN], [])
  }

  lemma FillSyn()
    ensures Closed(0, 10, 1000).FillWindow() == SentSyn().(out := [SYN])
  {
    WrapSmall(0);
  }

  lemma AckSyn()
    ensures SentSyn().AckReceived(1, 10) == Open([])
  {
    WrapSmall(0);
    WrapSmall(1);
    UnwrapWrap(1, 0, 1);
    UnwrapWrap(0, 0, 1);
    hide Unwrap;
    var p := SentSyn().(window := 10, free := 10);
    assert p.outstanding[1..] == [];
    assert p.PopAcked(1) == p.(inFlight := 0, outstanding := [], elapsed := 0, rto := 1000, consecutive := 0);
  }

  lemma FillData()
    ensures Open([65]).FillWindow() == SentData(false).(out := [DATA])
  {
    WrapSmall(1);
    var s := Open([65]);
    assert s.ChunkSize() == 1;
    assert s.stream.Buffer()[..1] == [65];
    assert s.FillLoop() == s.SendData(1, false);
  }

  lemma FillFin()
    ensures SentData(true).FillWindow() == SentFin().(out := [FIN])
  {
    WrapSmall(2);
    var s := SentData(true);
    assert s.ChunkSize() == 0;
    assert s.stream.Buffer()[..0] == [];
    assert [DATA] + [FIN] == [DATA, FIN];
    assert s.FillLoop() == s.SendData(0, true);
  }

  function Established(capacity: nat): Receiver {
    Receiver(Empty(capacity), true, false, 0)
  }

  lemma ReceiveSyn(capacity: nat)
    requires 0 < capacity
    ensures Listening(capacity).SegmentReceived(SYN) == Established(capacity)
  {
    EmptyPush(Empty(capacity), 0, []);
  }

  lemma ReceiveFin()
    ensures Established(10).SegmentReceived(FIN).window.out.ended
    ensures Established(10).SegmentReceived(FIN).window.out.history == []
    ensures Established(10).SegmentReceived(FIN).AbsoluteAck() == 2
  {
  }

  /** The actions form a run of the joined system from `y` to `z`. */
  ghost predicate Leads(y: Sys, acts: seq<Action>, z: Sys) {
    Inv(y) && EnabledRun(y, acts) && EndToEnd.Exec(y, acts) == z
  }

  lemma Arrived(y: Sys, acts: seq<Action>, z: Sys)
    requires Leads(y, acts, z)
    ensures Inv(z)
  {
  }

  lemma One(y: Sys, act: Action)
    requires Inv(y) && Enabled(y, act)
    ensures Leads(y, [act], EndToEnd.Step(y, act))
  {
    hide Inv, Enabled, EndToEnd.Step;
    var z := EndToEnd.Step(y, act);
    assert [act][1..] == [];
    assert EnabledRun(z, []) && EndToEnd.Exec(z, []) == z;
    assert EnabledRun(y, [act]) && EndToEnd.Exec(y, [act]) == EndToEnd.Exec(z, []);
  }

  lemma Ready(y: Sys)
    requires Inv(y)
    ensures y.sender.Valid() && y.sender.stream.WF() && y.receiver.window.WF()
  {
  }

  lemma {:induction false} Then(y: Sys, acts: seq<Action>, z: Sys, acts': seq<Action>, w: Sys)
    requires Leads(y, acts, z) && Leads(z, acts', w)
    ensures Leads(y, acts + acts', w)
    decreases |acts|
  {
    hide Inv, Enabled, EndToEnd.Step;
    if acts == [] {
      assert acts + acts' == acts';
    } else {
      Then(EndToEnd.Step(y, acts[0]), acts[1..], z, acts', w);
      assert (acts + acts')[1..] == acts[1..] + acts';
    }
  }

  lemma FillStep(y: Sys, t: Sender, seg: TCPSegment)
    requires Inv(y) && y.sender.FillWindow() == t.(out := [seg]) && t.out == []
    ensures Leads(y, [Fill], y.(sender := t, net := y.net + [Packet(y.sender.next, seg)]))
  {
    hide Sender.FillWindow, Leads;
    LocateOne(seg, y.sender.next);
    One(y, Fill);
  }

  lemma DeliverStep(y: Sys, k: nat, seg: TCPSegment)
    requires Inv(y) && k < |y.net| && y.net[k].seg == seg && y.receiver.window.Base() == 0
    ensures Leads(y, [Deliver(k)], y.(receiver := y.receiver.SegmentReceived(seg)))
  {
    hide Receiver.SegmentReceived, Leads;
    One(y, Deliver(k));
  }

  lemma AnswerStep(y: Sys)
    requires Inv(y) && y.receiver == Established(10)
    ensures Leads(y, [Acknowledge], y.(replies := y.replies + [Reply(1, 1, 10)]))
  {
    hide Leads;
    WrapSmall(1);
    One(y, Acknowledge);
  }

  lemma TakeStep(y: Sys, q: Reply, t: Sender, a: nat)
    requires Inv(y) && y.replies == [q] && y.sender.AckReceived(q.ackno, q.win) == t && t.out == []
    requires a == Unwrap(q.ackno, y.sender.isn, y.sender.next) && y.sender.AckValid(a)
    ensures Leads(y, [TakeReply], y.(sender := t, replies := [], last := a))
  {
    Ready(y);
    hide Sender.AckReceived, Unwrap, Inv, Sender.Valid, Leads;
    LocateNone(y.sender.next);
    assert y.net + [] == y.net;
    One(y, TakeReply);
  }

  lemma WriteStep(y: Sys)
    requires Inv(y) && y.sender.stream == Stream(10, [], 0, false, false)
    ensures Leads(y, [Write([65])], y.(sender := y.sender.(stream := Stream(10, [65], 0, false, false))))
  {
    Ready(y);
    hide Inv, Sender.Valid, Leads;
    assert [65][..1] == [65];
    One(y, Write([65]));
  }

  lemma EndStep(y: Sys)
    requires Inv(y)
    ensures Leads(y, [EndInput], y.(sender := y.sender.(stream := y.sender.stream.(ended := true))))
  {
    Ready(y);
    hide Inv, Sender.Valid, Leads;
    One(y, EndInput);
  }

  lemma InitialState(y: Sys)
    requires y == Initial(0, 10, 1000, 10)
    ensures Inv(y) && y == Sys(Closed(0, 10, 1000), Listening(10), [], [], 0)
  {
  }

  /** The SYN is sent and acknowledged. */
  lemma Handshake(y: Sys)
    requires Inv(y) && y == Sys(Closed(0, 10, 1000), Listening(10), [], [], 0)
    ensures Leads(y, [Fill] + [Deliver(0)] + [Acknowledge] + [TakeReply],
                  Sys(Open([]), Established(10), [Packet(0, SYN)], [], 1))
  {
    hide Leads, Inv, Sender.FillWindow, Receiver.SegmentReceived;
    FillSyn();
    FillStep(y, SentSyn(), SYN);
    var y1 := Sys(SentSyn(), Listening(10), [Packet(0, SYN)], [], 0);
    assert y.net + [Packet(0, SYN)] == [Packet(0, SYN)];
    Arrived(y, [Fill], y1);
    ReceiveSyn(10);
    DeliverStep(y1, 0, SYN);
    var y2 := y1.(receiver := Established(10));
    Then(y, [Fill], y1, [Deliver(0)], y2);
    Arrived(y1, [Deliver(0)], y2);
    Answered(y, [Fill] + [Deliver(0)], y2);
  }

  lemma Answered(y: Sys, acts: seq<Action>, y2: Sys)
    requires Leads(y, acts, y2) && y2 == Sys(SentSyn(), Established(10), [Packet(0, SYN)], [], 0)
    ensures Leads(y, acts + [Acknowledge] + [TakeReply], Sys(Open([]), Established(10), [Packet(0, SYN)], [], 1))
  {
    AckSyn();
    SynAckValid();
    hide Leads, Inv, Sender.AckReceived, Sender.AckValid, Unwrap;
    Arrived(y, acts, y2);
    AnswerStep(y2);
    var y3 := y2.(replies := [Reply(1, 1, 10)]);
    assert y2.replies + [Reply(1, 1, 10)] == y3.replies;
    Then(y, acts, y2, [Acknowledge], y3);
    Arrived(y2, [Acknowledge], y3);
    TakeStep(y3, Reply(1, 1, 10), Open([]), 1);
    Then(y, acts + [Acknowledge], y3, [TakeReply], y3.(sender := Open([]), replies := [], last := 1));
  }

  lemma SynAckValid()
    ensures Unwrap(1, 0, 1) == 1 && SentSyn().AckValid(1)
  {
    WrapSmall(0);
    WrapSmall(1);
    UnwrapWrap(1, 0, 1);
    UnwrapWrap(0, 0, 1);
    hide Unwrap;
  }

  /** A byte is sent. */
  lemma SendByte(y: Sys)
    requires Inv(y) && y.sender == Open([])
    ensures Leads(y, [Write([65])] + [Fill], y.(sender := SentData(false), net := y.net + [Packet(1, DATA)]))
  {
    hide Leads, Inv, Sender.FillWindow;
    WriteStep(y);
    var y1 := y.(sender := Open([65]));
    Arrived(y, [Write([65])], y1);
    FillData();
    FillStep(y1, SentData(false), DATA);
    Then(y, [Write([65])], y1, [Fill], y.(sender := SentData(false), net := y.net + [Packet(1, DATA)]));
  }

  /** The FIN is sent. */
  lemma SendFin(y: Sys)
    requires Inv(y) && y.sender == SentData(false)
    ensures Leads(y, [EndInput] + [Fill], y.(sender := SentFin(), net := y.net + [Packet(2, FIN)]))
  {
    hide Leads, Inv, Sender.FillWindow;
    EndStep(y);
    var y1 := y.(sender := SentData(true));
    Arrived(y, [EndInput], y1);
    FillFin();
    FillStep(y1, SentFin(), FIN);
    Then(y, [EndInput], y1, [Fill], y.(sender := SentFin(), net := y.net + [Packet(2, FIN)]));
  }

  lemma ByteAndFin(y: Sys)
    requires Inv(y) && y == Sys(Open([]), Established(10), [Packet(0, SYN)], [], 1)
    ensures Leads(y, [Write([65])] + [Fill] + ([EndInput] + [Fill]),
                  y.(sender := SentFin(), net := [Packet(0, SYN), Packet(1, DATA), Packet(2, FIN)]))
  {
    hide Leads, Inv, Open, SentData, SentFin;
    SendByte(y);
    var y1 := y.(sender := SentData(false), net := y.net + [Packet(1, DATA)]);
    Arrived(y, [Write([65])] + [Fill], y1);
    SendFin(y1);
    Then(y, [Write([65])] + [Fill], y1, [EndInput] + [Fill], y1.(sender := SentFin(), net := y1.net + [Packet(2, FIN)]));
    assert y1.net + [Packet(2, FIN)] == [Packet(0, SYN), Packet(1, DATA), Packet(2, FIN)];
  }

  /** A run of the joined system from its initial state: the SYN is acknowledged, one byte and a FIN are
      sent, and the FIN arrives first. The receiver's stream has ended with nothing assembled, and the
      acknowledgement covers the byte. */
  lemma ByteLost(y: Sys) returns (acts: seq<Action>, z: Sys)
    requires y == Initial(0, 10, 1000, 10)
    ensures Leads(y, acts, z)
    ensures z.sender.stream.history == [65] && z.receiver.AbsoluteAck() == 2
    ensures z.receiver.window.out.ended && z.receiver.window.out.history == []
  {
    hide Leads, Inv, Receiver.SegmentReceived, Initial;
    InitialState(y);
    Handshake(y);
    var y1 := Sys(Open([]), Established(10), [Packet(0, SYN)], [], 1);
    acts := [Fill] + [Deliver(0)] + [Acknowledge] + [TakeReply];
    Arrived(y, acts, y1);
    ByteAndFin(y1);
    var y2 := y1.(sender := SentFin(), net := [Packet(0, SYN), Packet(1, DATA), Packet(2, FIN)]);
    var more := [Write([65])] + [Fill] + ([EndInput] + [Fill]);
    Arrived(y1, more, y2);
    Then(y, acts, y1, more, y2);
    DeliverStep(y2, 2, FIN);
    z := y2.(receiver := Established(10).SegmentReceived(FIN));
    Then(y, acts + more, y2, [Deliver(2)], z);
    acts := acts + more + [Deliver(2)];
    ReceiveFin();
  }

  // ---- Acknowledgements that are wrong --------------------------------------------------------

  lemma RecoversSmall(r: Receiver, seg: TCPSegment, a: nat)
    requires r.isn == 0 && r.window.Base() == 0 && seg.header.seqno == a && 0 < a < 10
    ensures r.Index(seg) == a - 1
  {
    WrapSmall(a);
    RecoversIndex(r, seg, a, 0);
  }

  lemma CutOffPush(x: byte, y: byte)
    ensures Empty(1).Push([x, y], 0, true) == Window(map[], false, Stream(1, [x], 0, false, false))
  {
    var all := Absorb(map[], [x, y], 0, 0, 1);
    assert all == map[0 := x];
    FullRun(all, 0, 1);
    assert Run(all, 0) == [x];
  }

  lemma EarlyPush()
    ensures Empty(8).Push([], 2, true) == Window(map[], true, Stream(8, [], 0, true, false))
  {
  }

  lemma GapPush(x: byte)
    ensures Window(map[], true, Stream(8, [], 0, true, false)).Push([x], 1, false) ==
            Window(map[1 := x], true, Stream(8, [], 0, true, false))
  {
    var all := Absorb(map[], [x], 1, 0, 8);
    assert all == map[1 := x];
    assert Run(all, 0) == [];
    assert From(all, 0) == all;
  }

  /** A FIN behind bytes that the window cuts off is remembered although its mark is dropped: the byte
      66 is missing, and the acknowledgement covers it and the FIN. */
  lemma CutOffFinAcknowledged()
    ensures var r := Listening(1).SegmentReceived(SYN).SegmentReceived(Seg(1, false, true, [65, 66]));
            && r.window.out.history == [65] && !r.window.eof && r.AbsoluteAck() == 3
            && !Has(r, 2, [65, 66])
  {
    hide Receiver.Index, Window.Push;
    ReceiveSyn(1);
    RecoversSmall(Established(1), Seg(1, false, true, [65, 66]), 1);
    CutOffPush(65, 66);
  }

  /** After an early FIN without bytes the acknowledgement moves back when a later byte arrives. */
  lemma AcknowledgementMovesBack()
    ensures var r := Listening(8).SegmentReceived(SYN).SegmentReceived(Seg(3, false, true, []));
            var r' := r.SegmentReceived(Seg(2, false, false, [66]));
            r.AbsoluteAck() == 2 && r'.AbsoluteAck() == 1
  {
    hide Receiver.Index, Window.Push;
    ReceiveSyn(8);
    RecoversSmall(Established(8), Seg(3, false, true, []), 3);
    EarlyPush();
    var r := Receiver(Window(map[], true, Stream(8, [], 0, true, false)), true, true, 0);
    assert Established(8).SegmentReceived(Seg(3, false, true, [])) == r;
    RecoversSmall(r, Seg(2, false, false, [66]), 2);
    GapPush(66);
    assert 1 in map[1 := 66];
  }
}
