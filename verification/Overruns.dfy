/** Runs of a new sender in which an acknowledgement that is not tolerable makes it pass the window. */
module Overruns {
  import opened Basics
  import opened WrappingIntegers
  import opened ByteStreams
  import opened Segments
  import opened Senders
  import opened SenderRuns

  function Seg(a: u32, syn: bool, payload: seq<byte>): TCPSegment {
    TCPSegment(BLANK.(seqno := a, syn := syn), payload)
  }

  const SYN := Seg(0, true, [])

  function SentSyn(capacity: nat, rto: u16): Sender {
    Sender(0, rto, Fresh(capacity), 1, true, false, 1, 0, 65535, 0, rto, 0, true, [SYN], [SYN])
  }

  /** The SYN is acknowledged with a window of two, and `history` is written. */
  function Written(capacity: nat, rto: u16, history: seq<byte>): Sender {
    Sender(0, rto, Stream(capacity, history, 0, false, false), 1, true, false, 0, 2, 2, 0, rto, 0, false, [], [SYN])
  }

  /** Two bytes are sent. */
  function Filled(capacity: nat, rto: u16, history: seq<byte>): Sender
    requires 2 <= |history|
  {
    var seg := Seg(1, false, history[..2]);
    Sender(0, rto, Stream(capacity, history, 2, false, false), 3, true, false, 2, 2, 0, 0, rto, 0, true, [seg], [SYN, seg])
  }

  lemma FillSyn(capacity: nat, rto: u16)
    ensures Closed(0, capacity, rto).FillWindow() == SentSyn(capacity, rto) && SentSyn(capacity, rto).stream.WF()
  {
    WrapSmall(0);
  }

  lemma AckSyn(capacity: nat, rto: u16)
    ensures SentSyn(capacity, rto).AckReceived(1, 2) == Written(capacity, rto, []) && Written(capacity, rto, []).stream.WF()
  {
    WrapSmall(0);
    WrapSmall(1);
    UnwrapWrap(1, 0, 1);
    UnwrapWrap(0, 0, 1);
    hide Unwrap;
    var p := SentSyn(capacity, rto).(window := 2, free := 2);
    assert p.outstanding[1..] == [];
    assert p.PopAcked(1) == p.(inFlight := 0, outstanding := [], elapsed := 0, rto := rto, consecutive := 0);
  }

  lemma FillTwo(capacity: nat, rto: u16, history: seq<byte>)
    requires 2 <= |history| <= 3 <= capacity
    ensures Written(capacity, rto, history).FillWindow() == Filled(capacity, rto, history)
  {
    WrapSmall(1);
    var s := Written(capacity, rto, history);
    assert s.ChunkSize() == 2;
    assert s.stream.Buffer()[..2] == history[..2];
    var t := s.SendData(2, false);
    assert t == Filled(capacity, rto, history);
    assert t.FillLoop() == t;
    assert s.FillLoop() == t;
  }

  lemma ThenFill(s: Sender, es: seq<Event>, t: Sender, u: Sender)
    requires Reaches(s, es, t) && t.stream.WF() && t.FillWindow() == u
    ensures Reaches(s, es + [Fill], u)
  {
    Consistent(s, es, t);
    hide Reaches, Sender.FillWindow, Sender.Valid;
    Then(s, es, t, Fill);
  }

  lemma ThenAck(s: Sender, es: seq<Event>, t: Sender, ackno: u32, win: u16, u: Sender)
    requires Reaches(s, es, t) && t.stream.WF() && t.AckReceived(ackno, win) == u
    ensures Reaches(s, es + [Ack(ackno, win)], u)
  {
    Consistent(s, es, t);
    hide Reaches, Sender.AckReceived, Sender.Valid;
    Then(s, es, t, Ack(ackno, win));
  }

  lemma ThenWrite(s: Sender, es: seq<Event>, t: Sender, data: seq<byte>, u: Sender)
    requires Reaches(s, es, t) && t.stream.WF() && !t.stream.ended && t.(stream := t.stream.Write(data)) == u
    ensures Reaches(s, es + [Write(data)], u)
  {
    Consistent(s, es, t);
    hide Reaches, Sender.Valid;
    Then(s, es, t, Write(data));
  }

  lemma Start(capacity: nat, rto: u16, s: Sender)
    requires s == Closed(0, capacity, rto)
    ensures Reaches(s, [], s) && s.stream.WF()
  {
    ClosedIsValid(0, capacity, rto);
  }

  lemma HistoryWritten(capacity: nat, rto: u16, s: Sender, es: seq<Event>, history: seq<byte>)
    requires Reaches(s, es, Written(capacity, rto, [])) && |history| <= 3 <= capacity
    ensures Reaches(s, es + [Write(history)], Written(capacity, rto, history))
  {
    hide Reaches;
    assert [] + history[..|history|] == history;
    ThenWrite(s, es, Written(capacity, rto, []), history, Written(capacity, rto, history));
  }

  lemma TwoSent(capacity: nat, rto: u16, s: Sender, es: seq<Event>, history: seq<byte>)
    requires Reaches(s, es, Written(capacity, rto, history)) && 2 <= |history| <= 3 <= capacity
    ensures Reaches(s, es + [Fill], Filled(capacity, rto, history))
  {
    hide Reaches, Sender.FillWindow;
    FillTwo(capacity, rto, history);
    ThenFill(s, es, Written(capacity, rto, history), Filled(capacity, rto, history));
  }

  function Opening(history: seq<byte>): seq<Event> {
    [] + [Fill] + [Ack(1, 2)] + [Write(history)] + [Fill]
  }

  /** A new sender gets there. */
  lemma Reached(capacity: nat, rto: u16, s: Sender, history: seq<byte>)
    requires s == Closed(0, capacity, rto) && 2 <= |history| <= 3 <= capacity
    ensures Reaches(s, Opening(history), Filled(capacity, rto, history))
  {
    hide Reaches, SentSyn, Written, Filled, Closed, Sender.FillWindow, Sender.AckReceived;
    Start(capacity, rto, s);
    FillSyn(capacity, rto);
    ThenFill(s, [], s, SentSyn(capacity, rto));
    AckSyn(capacity, rto);
    ThenAck(s, [] + [Fill], SentSyn(capacity, rto), 1, 2, Written(capacity, rto, []));
    HistoryWritten(capacity, rto, s, [] + [Fill] + [Ack(1, 2)], history);
    TwoSent(capacity, rto, s, [] + [Fill] + [Ack(1, 2)] + [Write(history)], history);
  }

  lemma FrontIsData(capacity: nat, rto: u16, history: seq<byte>)
    requires 2 <= |history| && Filled(capacity, rto, history).Valid()
    ensures Filled(capacity, rto, history).AckValid(1) && Open(Filled(capacity, rto, history).Acknowledge(1, 1))
  {
    var s := Filled(capacity, rto, history);
    assert 1 == s.Start();
    FrontRecovered(s);
    assert s.AckValid(1);
    AcknowledgeValid(s, 1, 1);
    hide Sender.Acknowledge, Unwrap, Sender.Valid;
  }

  /** An acknowledgement of `a` with the window `win` is accepted and makes the sender pass `a + win`. */
  ghost predicate PassesEdge(s: Sender, a: nat, win: u16) {
    && s.Valid() && s.AckValid(a)
    && var t := Step(s, Ack(Wrap(a, s.isn), win));
       s.next < t.next && a + win < t.next
  }

  lemma ShrunkStep(capacity: nat, rto: u16, s: Sender)
    requires s == Filled(capacity, rto, [1, 2, 3]) && s.Valid()
    ensures PassesEdge(s, 1, 1)
  {
    FrontIsData(capacity, rto, [1, 2, 3]);
    hide Sender.AckReceived, Sender.Acknowledge, Sender.AckValid;
    ShrunkWindowOverruns(s, 1, 1);
  }

  /** A window of two is filled, then taken back to one by an acknowledgement of the same number: the
      third byte is sent, to number four, while the window ends at two. */
  lemma ShrunkWindowRun(capacity: nat, rto: u16, s0: Sender) returns (es: seq<Event>, s: Sender)
    requires s0 == Closed(0, capacity, rto) && 3 <= capacity
    ensures Reaches(s0, es, s) && s.next == 3
    ensures PassesEdge(s, 1, 1)
  {
    hide Reaches, PassesEdge, Closed;
    es, s := Opening([1, 2, 3]), Filled(capacity, rto, [1, 2, 3]);
    Reached(capacity, rto, s0, [1, 2, 3]);
    Consistent(s0, es, s);
    ShrunkStep(capacity, rto, s);
  }

  function AllAcked(capacity: nat, rto: u16, history: seq<byte>): Sender {
    Sender(0, rto, Stream(capacity, history, 2, false, false), 3, true, false, 0, 2, 2, 0, rto, 0, false, [], [SYN, Seg(1, false, [1, 2])])
  }

  lemma AckTwo(capacity: nat, rto: u16)
    ensures Filled(capacity, rto, [1, 2]).AckReceived(3, 2) == AllAcked(capacity, rto, [1, 2])
  {
    WrapSmall(1);
    WrapSmall(3);
    UnwrapWrap(3, 0, 3);
    UnwrapWrap(1, 0, 3);
    hide Unwrap;
    assert [1, 2][..2] == [1, 2];
    var p := Filled(capacity, rto, [1, 2]).(window := 2, free := 2);
    assert p.outstanding[1..] == [];
    assert p.PopAcked(3) == p.(inFlight := 0, outstanding := [], elapsed := 0, rto := rto, consecutive := 0);
  }

  lemma TwoAcked(capacity: nat, rto: u16, s: Sender, es: seq<Event>)
    requires Reaches(s, es, Filled(capacity, rto, [1, 2]))
    ensures Reaches(s, es + [Ack(3, 2)], AllAcked(capacity, rto, [1, 2]))
  {
    hide Reaches, Sender.AckReceived;
    AckTwo(capacity, rto);
    ThenAck(s, es, Filled(capacity, rto, [1, 2]), 3, 2, AllAcked(capacity, rto, [1, 2]));
  }

  lemma ThirdWritten(capacity: nat, rto: u16, s: Sender, es: seq<Event>)
    requires Reaches(s, es, AllAcked(capacity, rto, [1, 2])) && 3 <= capacity
    ensures Reaches(s, es + [Write([3])], AllAcked(capacity, rto, [1, 2, 3]))
  {
    hide Reaches;
    assert [1, 2] + [3][..1] == [1, 2, 3];
    ThenWrite(s, es, AllAcked(capacity, rto, [1, 2]), [3], AllAcked(capacity, rto, [1, 2, 3]));
  }

  lemma StaleStep(capacity: nat, rto: u16, s: Sender)
    requires s == AllAcked(capacity, rto, [1, 2, 3]) && s.Valid()
    ensures PassesEdge(s, 1, 1)
  {
    hide Sender.AckReceived;
    StaleAckOverruns(s, 1, 1);
  }

  /** Two bytes are sent and acknowledged, a third is written, and an old acknowledgement arrives again
      with a window of one: the byte is sent, to number four, while that window ends at two. */
  lemma StaleAckRun(capacity: nat, rto: u16, s0: Sender) returns (es: seq<Event>, s: Sender)
    requires s0 == Closed(0, capacity, rto) && 3 <= capacity
    ensures Reaches(s0, es, s) && s.next == 3 && s.outstanding == []
    ensures PassesEdge(s, 1, 1)
  {
    hide Reaches, PassesEdge, Closed;
    Reached(capacity, rto, s0, [1, 2]);
    TwoAcked(capacity, rto, s0, Opening([1, 2]));
    ThirdWritten(capacity, rto, s0, Opening([1, 2]) + [Ack(3, 2)]);
    es, s := Opening([1, 2]) + [Ack(3, 2)] + [Write([3])], AllAcked(capacity, rto, [1, 2, 3]);
    Consistent(s0, es, s);
    StaleStep(capacity, rto, s);
  }
}
