/** A sender and a receiver joined by a network that loses, repeats and reorders segments, and by an
    acknowledgement channel that loses but keeps the order. */
module EndToEnd {
  import opened Basics
  import opened WrappingIntegers
  import opened ByteStreams
  import opened Reassembly
  import opened Segments
  import opened Senders
  import SenderRuns
  import opened Receivers

  /** A segment on the wire, labelled with the absolute number of its first sequence number. */
  datatype Packet = Packet(abs: nat, seg: TCPSegment)

  /** An acknowledgement on the wire, labelled with its absolute number. */
  datatype Reply = Reply(abs: nat, ackno: u32, win: u16)

  /** `net` holds every segment ever sent: each may arrive any number of times, or never. `last` is the
      absolute number of the latest acknowledgement the sender accepted. */
  datatype Sys = Sys(sender: Sender, receiver: Receiver, net: seq<Packet>, replies: seq<Reply>, last: nat)

  function Locate(q: seq<TCPSegment>, a: nat): seq<Packet> {
    if q == [] then [] else [Packet(a, q[0])] + Locate(q[1..], a + q[0].Length())
  }

  datatype Action =
    | Write(data: seq<byte>) | EndInput | Fill | Tick(ms: nat) | SendEmpty
    | Deliver(k: nat) | AppRead(n: nat)
    | Acknowledge | LoseReply(k: nat) | TakeReply

  /** No write after the end; 64-bit counters do not overflow; a segment does not live so long that
      the receiver has moved half the sequence space past it. */
  predicate Enabled(y: Sys, act: Action) {
    match act
    case Write(data) => !y.sender.stream.ended && |y.sender.stream.history| + |data| < TWO_64 / 2
    case Deliver(k) => k < |y.net| && y.receiver.window.Base() < y.net[k].abs + TWO_31
    case Acknowledge => y.receiver.synReceived
    case LoseReply(k) => k < |y.replies|
    case TakeReply => y.replies != []
    case _ => true
  }

  /** The acknowledgement that the receiver would send now. */
  function ReplyOf(r: Receiver): Reply
    requires r.window.WF()
  {
    Reply(r.AbsoluteAck(), Wrap(r.AbsoluteAck(), r.isn), r.WindowSize() % TWO_16)
  }

  /** The sender's next state, with what it wants sent put on the network from number `a` on. */
  function Emit(y: Sys, t: Sender, a: nat): Sys {
    y.(sender := t.(out := []), net := y.net + Locate(t.out, a))
  }

  ghost function Next(y: Sys, act: Action): Sys
    requires y.sender.Valid() && y.receiver.window.WF() && Enabled(y, act)
  {
    var s, r := y.sender, y.receiver;
    match act
    case Write(data) => y.(sender := s.(stream := s.stream.Write(data)))
    case EndInput => y.(sender := s.(stream := s.stream.(ended := true)))
    case Fill => Emit(y, s.FillWindow(), s.next)
    case Tick(ms) => Emit(y, s.Tick(ms), s.Start())
    case SendEmpty => Emit(y, s.SendEmpty(), s.next)
    case Deliver(k) => y.(receiver := r.SegmentReceived(y.net[k].seg))
    case AppRead(n) => y.(receiver := r.Read(n))
    case Acknowledge => y.(replies := y.replies + [ReplyOf(r)])
    case LoseReply(k) => y.(replies := y.replies[..k] + y.replies[k + 1..])
    case TakeReply =>
      var reply := y.replies[0];
      var a := Unwrap(reply.ackno, s.isn, s.next);
      Emit(y, s.AckReceived(reply.ackno, reply.win), s.next)
        .(replies := y.replies[1..], last := if s.AckValid(a) then a else y.last)
  }

  // ---- The invariant --------------------------------------------------------------------------

  /** A packet carries part of what was sent, and its bytes start no later than the number `limit`; a
      FIN with bytes in front of it ends there at the latest. */
  predicate PacketOk(p: Packet, s: Sender, limit: nat)
    requires s.stream.WF()
  {
    && Emitted(p.seg, p.abs, s.isn, s.Sent(), s.finSent)
    && (p.seg.header.syn ==> s.synSent)
    && (p.seg.payload != [] ==> p.abs <= limit)
    && (p.seg.payload != [] && p.seg.header.fin ==> p.abs + |p.seg.payload| <= limit)
  }

  ghost predicate NetOk(y: Sys)
    requires y.sender.stream.WF()
  {
    && (forall p | p in y.net :: PacketOk(p, y.sender, y.receiver.window.Edge() + 1))
    && 0 <= y.sender.Start()
    && (forall p | p in Locate(y.sender.outstanding, y.sender.Start()) :: p in y.net)
  }

  ghost predicate ReceiverOk(y: Sys)
    requires y.sender.stream.WF()
  {
    var s, r := y.sender, y.receiver;
    && r.window.WF() && r.window.out.capacity < TWO_16
    && r.window.Agrees(s.Sent())
    && (r.synReceived ==> r.isn == s.isn && s.synSent)
    && (!r.synReceived ==> r.window.Base() == 0)
    && (!s.finSent ==> !r.finReceived)
  }

  predicate Before(a: Reply, b: Reply) {
    a.abs <= b.abs && a.abs + a.win <= b.abs + b.win
  }

  /** `q` lies between what the sender knows and what the receiver would acknowledge now. */
  predicate ReplyOk(q: Reply, s: Sender, last: nat, r: Receiver)
    requires r.window.WF()
  {
    && q.ackno == Wrap(q.abs, s.isn)
    && last <= q.abs <= r.AbsoluteAck()
    && last + s.window <= q.abs + q.win <= r.RightEdge()
  }

  /** The channel holds a chain of acknowledgements between the one the sender knows and the one the
      receiver would send now. */
  ghost predicate RepliesOk(y: Sys)
    requires y.receiver.window.WF()
  {
    var s, r, q := y.sender, y.receiver, y.replies;
    && (forall i | 0 <= i < |q| :: ReplyOk(q[i], s, y.last, r))
    && (forall i, j | 0 <= i < j < |q| :: Before(q[i], q[j]))
    && (if r.synReceived then y.last <= r.AbsoluteAck() && y.last + s.window <= r.RightEdge()
        else y.last == 0 && s.window == 0 && q == [])
  }

  /** The sender respects the window of the latest acknowledgement it accepted, and those on the channel
      are in order. */
  ghost predicate Chained(y: Sys) {
    SenderRuns.Respects(y.sender, y.last) && y.receiver.window.WF() && RepliesOk(y)
  }

  /** Before the FIN was sent no premise about FINs is needed for the chain. */
  ghost predicate Inv(y: Sys) {
    && y.sender.Valid() && y.sender.out == [] && |y.sender.stream.history| < TWO_64 / 2
    && ReceiverOk(y)
    && NetOk(y)
    && (!y.sender.finSent ==> Chained(y))
  }

  /** Besides, the receiver knows the end of the stream only with its last byte. */
  ghost predicate SoundInv(y: Sys) {
    Inv(y) && y.receiver.Sound(y.sender.Sent())
  }

  ghost function Initial(isn: u32, sendCapacity: nat, rto: u16, receiveCapacity: nat): (y: Sys)
    requires 0 < receiveCapacity < TWO_16
    ensures SoundInv(y) && Chained(y)
  {
    Sys(Closed(isn, sendCapacity, rto), Listening(receiveCapacity), [], [], 0)
  }

  // ---- Positions on the wire ------------------------------------------------------------------

  lemma {:induction false} ChainLocate(q: seq<TCPSegment>, a: nat, isn: u32, sent: seq<byte>, finished: bool, p: Packet)
    requires Chain(q, a, isn, sent, finished) && p in Locate(q, a)
    ensures Emitted(p.seg, p.abs, isn, sent, finished)
    ensures a <= p.abs && p.abs + p.seg.Length() <= a + Total(q)
  {
    if p != Packet(a, q[0]) {
      ChainLocate(q[1..], a + q[0].Length(), isn, sent, finished, p);
    }
  }

  lemma LocateCons(seg: TCPSegment, q: seq<TCPSegment>, a: nat)
    ensures Locate([seg] + q, a) == [Packet(a, seg)] + Locate(q, a + seg.Length())
  {
    assert ([seg] + q)[1..] == q;
  }

  lemma TotalCons(seg: TCPSegment, q: seq<TCPSegment>)
    ensures Total([seg] + q) == seg.Length() + Total(q)
  {
    assert ([seg] + q)[1..] == q;
  }

  lemma LocateNone(a: nat)
    ensures Locate([], a) == [] && Total([]) == 0
  {
  }

  lemma {:induction false} LocateAppend(q: seq<TCPSegment>, r: seq<TCPSegment>, a: nat)
    ensures Locate(q + r, a) == Locate(q, a) + Locate(r, a + Total(q))
  {
    hide Locate, Total, TCPSegment.Length;
    if q == [] {
      LocateNone(a);
      assert q + r == r;
    } else {
      var seg, rest := q[0], q[1..];
      LocateAppend(rest, r, a + seg.Length());
      assert q == [seg] + rest;
      assert q + r == [seg] + (rest + r);
      TotalCons(seg, rest);
      LocateCons(seg, rest, a);
      LocateCons(seg, rest + r, a);
    }
  }

  // ---- Steps of the sender --------------------------------------------------------------------

  /** `d` is `s` with the same stream and numbers, after dropping some of the oldest segments. */
  ghost predicate Trims(s: Sender, d: Sender) {
    && d.Valid() && d.stream == s.stream && d.next == s.next && d.isn == s.isn
    && d.synSent == s.synSent && d.finSent == s.finSent && d.out == s.out
    && |d.outstanding| <= |s.outstanding|
    && d.outstanding == s.outstanding[|s.outstanding| - |d.outstanding|..]
  }

  lemma TrimsLocated(s: Sender, d: Sender, p: Packet)
    requires s.Valid() && Trims(s, d) && p in Locate(d.outstanding, d.Start())
    ensures p in Locate(s.outstanding, s.Start())
  {
    var k := |s.outstanding| - |d.outstanding|;
    assert s.outstanding == s.outstanding[..k] + s.outstanding[k..];
    LocateAppend(s.outstanding[..k], s.outstanding[k..], s.Start());
    TotalAppend(s.outstanding[..k], s.outstanding[k..]);
  }

  /** New segments respect the window of the receiver, because the sender respects the last reply. */
  lemma NewPacketOk(d: Sender, t: Sender, last: nat, limit: nat, p: Packet)
    requires d.Valid() && d.out == [] && Extends(d, t)
    requires SenderRuns.Respects(t, last) && last + t.window <= limit
    requires t.window == 0 ==> t.next <= d.next + 1
    requires p in Locate(t.out, d.next)
    ensures PacketOk(p, t, limit)
  {
    hide Minus16, SenderRuns.AtFront;
    assert t.out[|d.out|..] == t.out;
    ChainLocate(t.out, d.next, d.isn, t.Sent(), t.finSent, p);
  }

  lemma OldPacketOk(s: Sender, t: Sender, limit: nat, p: Packet)
    requires s.stream.WF() && t.stream.WF() && PacketOk(p, s, limit) && s.isn == t.isn
    requires s.Sent() <= t.Sent() && (s.finSent ==> t.finSent && s.Sent() == t.Sent())
    requires s.synSent ==> t.synSent
    ensures PacketOk(p, t, limit)
  {
    EmittedMore(p.seg, p.abs, s.isn, s.Sent(), s.finSent, t.Sent(), t.finSent);
  }

  /** A sender step that drops acknowledged segments and sends new ones. */
  ghost predicate Sends(y: Sys, d: Sender, t: Sender, last: nat) {
    && y.sender.Valid() && y.sender.out == []
    && Trims(y.sender, d) && Extends(d, t)
    && (t.window == 0 ==> t.next <= d.next + 1)
    && (!y.sender.finSent ==>
          SenderRuns.Respects(t, last) && last + t.window <= y.receiver.window.Edge() + 1)
  }

  lemma SendsFacts(y: Sys, d: Sender, t: Sender, last: nat)
    requires Sends(y, d, t, last)
    ensures var s := y.sender;
            && t.Valid() && t.isn == s.isn && s.Sent() <= t.Sent() && t.stream.history == s.stream.history
            && (s.finSent ==> t.finSent && s.Sent() == t.Sent() && t.out == [])
            && (s.synSent ==> t.synSent) && t.outstanding == d.outstanding + t.out && t.Start() == d.Start()
            && s.Valid() && Trims(s, d)
  {
    hide SenderRuns.Respects, Minus16, Chain, Total, Emitted;
    assert t.out[|d.out|..] == t.out;
    SentGrows(y.sender, t);
  }

  lemma SentGrows(s: Sender, t: Sender)
    requires s.stream.WF() && t.stream.WF()
    requires t.stream.history == s.stream.history && s.stream.read <= t.stream.read
    ensures s.Sent() <= t.Sent()
  {
  }

  lemma EmitKeepsPackets(y: Sys, d: Sender, t: Sender, last: nat, p: Packet)
    requires Sends(y, d, t, last) && NetOk(y) && p in Emit(y, t, y.sender.next).net
    ensures PacketOk(p, t, y.receiver.window.Edge() + 1)
  {
    SendsFacts(y, d, t, last);
    hide PacketOk, Extends, Sender.Valid, SenderRuns.Respects;
    if p in y.net {
      OldPacketOk(y.sender, t, y.receiver.window.Edge() + 1, p);
    } else if !y.sender.finSent {
      NewPacketOk(d, t, last, y.receiver.window.Edge() + 1, p);
    }
  }

  lemma EmitKeepsQueue(y: Sys, d: Sender, t: Sender, last: nat, p: Packet)
    requires Sends(y, d, t, last) && NetOk(y) && 0 <= t.Start() && p in Locate(t.outstanding, t.Start())
    ensures p in Emit(y, t, y.sender.next).net
  {
    hide Sends, Trims, Sender.Valid, Locate;
    SendsFacts(y, d, t, last);
    QueueStarts(y.sender, d);
    LocateAppend(d.outstanding, t.out, d.Start());
    if p in Locate(d.outstanding, d.Start()) {
      TrimsLocated(y.sender, d, p);
    }
  }

  lemma QueueStarts(s: Sender, d: Sender)
    requires s.Valid() && Trims(s, d)
    ensures 0 <= d.Start() && d.Start() + Total(d.outstanding) == s.next
  {
  }

  lemma ReceiverStaysOk(y: Sys, t: Sender)
    requires y.sender.stream.WF() && ReceiverOk(y) && t.stream.WF()
    requires y.sender.Sent() <= t.Sent() && t.isn == y.sender.isn
    requires (y.sender.synSent ==> t.synSent) && (y.sender.finSent ==> t.finSent)
    ensures ReceiverOk(y.(sender := t))
  {
  }

  lemma SendsNet(y: Sys, d: Sender, t: Sender, last: nat, z: Sys)
    requires Sends(y, d, t, last) && NetOk(y)
    requires z == Emit(y, t, y.sender.next).(replies := z.replies, last := last)
    ensures z.sender.Valid() && NetOk(z)
  {
    SendsFacts(y, d, t, last);
    hide Sends, Sender.Conserves, Locate;
    var limit := y.receiver.window.Edge() + 1;
    forall p | p in z.net
      ensures PacketOk(p, z.sender, limit)
    {
      EmitKeepsPackets(y, d, t, last, p);
      SamePacketOk(t, z.sender, limit, p);
    }
    hide PacketOk, NetOk;
    forall p | p in Locate(t.outstanding, t.Start())
      ensures p in z.net
    {
      EmitKeepsQueue(y, d, t, last, p);
    }
    NetIs(z);
  }

  lemma SamePacketOk(s: Sender, t: Sender, limit: nat, p: Packet)
    requires s.stream.WF() && t == s.(out := [])
    ensures PacketOk(p, s, limit) <==> PacketOk(p, t, limit)
  {
  }

  lemma NetIs(y: Sys)
    requires y.sender.stream.WF() && 0 <= y.sender.Start()
    requires forall p | p in y.net :: PacketOk(p, y.sender, y.receiver.window.Edge() + 1)
    requires forall p | p in Locate(y.sender.outstanding, y.sender.Start()) :: p in y.net
    ensures NetOk(y)
  {
  }

  /** The invariant after such a step. */
  lemma SendsInv(y: Sys, d: Sender, t: Sender, last: nat, z: Sys)
    requires Inv(y) && Sends(y, d, t, last)
    requires z == Emit(y, t, y.sender.next).(replies := z.replies, last := last)
    requires !y.sender.finSent ==> RepliesOk(z)
    ensures Inv(z)
  {
    SendsFacts(y, d, t, last);
    SendsNet(y, d, t, last, z);
    ReceiverStaysOk(y, z.sender);
    hide NetOk, ReceiverOk, RepliesOk;
  }

  lemma RepliesKept(y: Sys, z: Sys)
    requires y.receiver.window.WF() && RepliesOk(y)
    requires z.receiver == y.receiver && z.replies == y.replies && z.last == y.last
    requires z.sender.isn == y.sender.isn && z.sender.window == y.sender.window
    ensures RepliesOk(z)
  {
  }

  lemma FillSends(y: Sys)
    requires Inv(y)
    ensures Sends(y, y.sender, y.sender.FillWindow(), y.last)
    ensures y.sender.FillWindow().window == y.sender.window && y.sender.FillWindow().isn == y.sender.isn
  {
    hide Sender.FillWindow, NetOk, Chain, Minus16;
    FillExtends(y.sender);
    if !y.sender.finSent { SenderRuns.FillRespects(y.sender, y.last); }
    TrimsSelf(y.sender);
  }

  lemma FillInv(y: Sys)
    requires Inv(y)
    ensures Inv(Next(y, Fill))
  {
    FillSends(y);
    hide Sender.FillWindow, Sends, NetOk, ReceiverOk;
    var z := Next(y, Fill);
    if !y.sender.finSent { RepliesKept(y, z); }
    SendsInv(y, y.sender, y.sender.FillWindow(), y.last, z);
  }

  lemma LocateOne(seg: TCPSegment, a: nat)
    ensures Locate([seg], a) == [Packet(a, seg)]
  {
    assert Locate([seg][1..], a + seg.Length()) == [];
  }

  /** Sending one more packet that is as good as the others. */
  lemma OnePacketInv(y: Sys, z: Sys, p: Packet)
    requires Inv(y) && z.sender.Valid() && PacketOk(p, y.sender, y.receiver.window.Edge() + 1)
    requires z == y.(sender := z.sender, net := z.net) && (z.net == y.net || z.net == y.net + [p])
    requires z.sender == y.sender.(elapsed := z.sender.elapsed, consecutive := z.sender.consecutive, rto := z.sender.rto)
    ensures Inv(z)
  {
    assert NetOk(z) && ReceiverOk(z);
    if !y.sender.finSent { RepliesKept(y, z); }
  }

  lemma TickEffect(s: Sender, ms: nat)
    requires s.Valid() && s.out == []
    ensures var t := s.Tick(ms);
            && t.Valid()
            && t.(out := []) == s.(elapsed := t.elapsed, consecutive := t.consecutive, rto := t.rto)
            && (t.out == [] || (s.outstanding != [] && t.out == [s.outstanding[0]]))
  {
  }

  /** Retransmissions put only segments on the network that were there before. */
  lemma TickInv(y: Sys, ms: nat)
    requires Inv(y)
    ensures Inv(Next(y, Tick(ms)))
    ensures forall p | p in Next(y, Tick(ms)).net :: p in y.net
  {
    var s, t, z := y.sender, y.sender.Tick(ms), Next(y, Tick(ms));
    TickEffect(s, ms);
    assert Locate([], s.Start()) == [] && y.net + [] == y.net;
    assert z.sender.Valid();
    hide NetOk, ReceiverOk, RepliesOk, Sender.Tick;
    if t.out == [] {
      LocateOne(TCPSegment(BLANK.(seqno := Wrap(s.next, s.isn)), []), s.next);
      OnePacketInv(y, z, Packet(s.next, TCPSegment(BLANK.(seqno := Wrap(s.next, s.isn)), [])));
    } else {
      LocateOne(s.outstanding[0], s.Start());
      FrontPacketOk(y);
      OnePacketInv(y, z, Packet(s.Start(), s.outstanding[0]));
    }
  }

  lemma FrontPacketOk(y: Sys)
    requires Inv(y) && y.sender.outstanding != []
    ensures PacketOk(Packet(y.sender.Start(), y.sender.outstanding[0]), y.sender, y.receiver.window.Edge() + 1)
    ensures Packet(y.sender.Start(), y.sender.outstanding[0]) in y.net
  {
    var p := Packet(y.sender.Start(), y.sender.outstanding[0]);
    assert Locate(y.sender.outstanding, y.sender.Start())[0] == p;
    assert p in y.net;
  }

  lemma SendEmptyInv(y: Sys)
    requires Inv(y)
    ensures Inv(Next(y, SendEmpty))
  {
    var s := y.sender;
    var seg := TCPSegment(BLANK.(seqno := Wrap(s.next, s.isn)), []);
    assert s.SendEmpty().out == [seg];
    LocateOne(seg, s.next);
    OnePacketInv(y, Next(y, SendEmpty), Packet(s.next, seg));
  }

  lemma WriteInv(y: Sys, act: Action)
    requires Inv(y) && Enabled(y, act) && (act.Write? || act.EndInput?)
    ensures Inv(Next(y, act))
  {
    var s, z := y.sender, Next(y, act);
    assert z.sender.Sent() == s.Sent();
    assert z.sender.Valid();
    assert NetOk(z);
    if !s.finSent { RepliesKept(y, z); }
  }

  /** The receiver acknowledges nothing that was not sent. */
  lemma AckBelowNext(y: Sys)
    requires Inv(y) && y.receiver.synReceived
    ensures y.receiver.AbsoluteAck() <= y.sender.next
    ensures !y.sender.finSent ==> y.receiver.RightEdge() == y.receiver.window.Edge() + 1
  {
  }

  lemma ReplyRecovered(y: Sys)
    requires Inv(y) && Chained(y) && y.replies != []
    ensures var q := y.replies[0];
            && Unwrap(q.ackno, y.sender.isn, y.sender.next) == q.abs
            && y.last <= q.abs <= y.sender.next && y.last + y.sender.window <= q.abs + q.win
            && (!y.sender.finSent ==> q.abs + q.win <= y.receiver.window.Edge() + 1)
  {
    AckBelowNext(y);
    UnwrapWrap(y.replies[0].abs, y.sender.isn, y.sender.next);
    hide Unwrap, Wrap, NetOk, Sender.Conserves, SenderRuns.AtFront;
  }

  lemma AcknowledgeTrims(s: Sender, a: nat, win: u16)
    requires s.Valid()
    ensures Trims(s, s.Acknowledge(a, win)) && s.Acknowledge(a, win).window == win
  {
    hide Sender.Acknowledge;
    SenderRuns.AcknowledgeValid(s, a, win);
  }

  lemma FillExtends(d: Sender)
    requires d.Valid()
    ensures Extends(d, d.FillWindow()) && d.FillWindow().window == d.window
    ensures d.window == 0 ==> d.FillWindow().next <= d.next + 1
  {
    hide Sender.FillWindow, Minus16, Chain;
    FillWindowExact(d);
  }

  lemma AckSends(y: Sys)
    requires Inv(y) && y.replies != []
    ensures var s, q := y.sender, y.replies[0];
            var a := Unwrap(q.ackno, s.isn, s.next);
            var d := if s.AckValid(a) then s.Acknowledge(a, q.win) else s;
            && Sends(y, d, s.AckReceived(q.ackno, q.win), if s.AckValid(a) then a else y.last)
            && (Chained(y) ==> s.AckReceived(q.ackno, q.win).window == q.win && s.AckValid(a)
                               && SenderRuns.Respects(s.AckReceived(q.ackno, q.win), a))
  {
    hide Unwrap, Extends, Trims, NetOk, ReceiverOk, RepliesOk, SenderRuns.Respects, Sender.AckValid,
         Sender.Acknowledge, Sender.FillWindow, Sender.Conserves;
    var s, q := y.sender, y.replies[0];
    var a := Unwrap(q.ackno, s.isn, s.next);
    if Chained(y) {
      ReplyRecovered(y);
      SenderRuns.AckRespects(s, y.last, a, q.ackno, q.win);
    }
    if s.AckValid(a) {
      AcknowledgeTrims(s, a, q.win);
      TrimsValid(s, s.Acknowledge(a, q.win));
      FillExtends(s.Acknowledge(a, q.win));
    } else {
      ExtendsSelf(s);
      TrimsSelf(s);
    }
  }

  lemma TrimsValid(s: Sender, d: Sender)
    requires Trims(s, d)
    ensures d.Valid() && d.stream == s.stream && d.next == s.next
  {
  }

  lemma TrimsSelf(s: Sender)
    requires s.Valid()
    ensures Trims(s, s)
  {
    assert s.outstanding[0..] == s.outstanding;
  }

  lemma TakeReplyChained(y: Sys)
    requires Inv(y) && Chained(y) && y.replies != []
    ensures Chained(Next(y, TakeReply))
  {
    var s, q, z := y.sender, y.replies[0], Next(y, TakeReply);
    AckSends(y);
    ReplyRecovered(y);
    SendsFacts(y, s.Acknowledge(q.abs, q.win), s.AckReceived(q.ackno, q.win), q.abs);
    RespectsIgnoresOut(s.AckReceived(q.ackno, q.win), z.sender, q.abs);
    hide Sends, NetOk, ReceiverOk, RepliesOk, SenderRuns.Respects, Sender.Acknowledge, Sender.AckReceived, Unwrap;
    RepliesTail(y, z);
  }

  lemma RespectsIgnoresOut(s: Sender, t: Sender, last: nat)
    requires t == s.(out := [])
    ensures SenderRuns.Respects(s, last) <==> SenderRuns.Respects(t, last)
  {
  }

  lemma TakeReplyInv(y: Sys)
    requires Inv(y) && y.replies != []
    ensures Inv(Next(y, TakeReply))
  {
    var s, q, z := y.sender, y.replies[0], Next(y, TakeReply);
    var a := Unwrap(q.ackno, s.isn, s.next);
    AckSends(y);
    if !s.finSent { TakeReplyChained(y); }
    hide Sends, NetOk, ReceiverOk, RepliesOk, Sender.Acknowledge, Sender.AckReceived, Unwrap, Sender.AckValid;
    SendsInv(y, if s.AckValid(a) then s.Acknowledge(a, q.win) else s, s.AckReceived(q.ackno, q.win), z.last, z);
  }

  lemma RepliesTail(y: Sys, z: Sys)
    requires y.receiver.window.WF() && RepliesOk(y) && y.replies != []
    requires z.receiver == y.receiver && z.replies == y.replies[1..] && z.last == y.replies[0].abs
    requires z.sender.isn == y.sender.isn && z.sender.window == y.replies[0].win
    ensures RepliesOk(z)
  {
    forall i | 0 <= i < |z.replies|
      ensures Before(y.replies[0], z.replies[i])
    {
      assert z.replies[i] == y.replies[i + 1];
    }
  }

  // ---- Steps of the receiver and of the channel -----------------------------------------------

  /** Every arriving substring meets the flow premise of the reassembler. */
  lemma ArrivalFlows(y: Sys, k: nat)
    requires Inv(y) && Enabled(y, Deliver(k))
    ensures y.receiver.Flow(y.net[k].seg)
    ensures y.net[k].seg.payload != [] && y.receiver.synReceived ==>
              y.receiver.Index(y.net[k].seg) == y.net[k].abs - 1
    ensures InReach(y.net[k].abs, y.receiver.window.Base()) || y.net[k].seg.payload == []
  {
    var p := y.net[k];
    assert p in y.net;
    assert PacketOk(p, y.sender, y.receiver.window.Edge() + 1);
    if p.seg.payload != [] && y.receiver.synReceived {
      RecoversIndex(y.receiver, p.seg, p.abs, y.sender.isn);
    }
  }

  lemma DeliverWindow(y: Sys, k: nat)
    requires Inv(y) && Enabled(y, Deliver(k))
    requires y.receiver.synReceived || y.net[k].seg.header.syn
    ensures var w, seg := y.receiver.window, y.net[k].seg;
            var v := w.Push(seg.payload, y.receiver.Place(seg), seg.header.fin);
            v.WF() && v.Agrees(y.sender.Sent()) && w.Base() <= v.Base()
  {
    ArrivalFlows(y, k);
    var p, w, i := y.net[k], y.receiver.window, y.receiver.Place(y.net[k].seg);
    assert p in y.net;
    assert Emitted(p.seg, p.abs, y.sender.isn, y.sender.Sent(), y.sender.finSent);
    hide Inv, Window.Push;
    PushKeepsWF(w, p.seg.payload, i, p.seg.header.fin);
    if p.seg.payload == [] {
      EmptyPushFrame(w, i, p.seg.header.fin);
    } else {
      PushAgrees(w, p.seg.payload, i, p.seg.header.fin, y.sender.Sent());
    }
  }

  lemma DeliverReceiver(y: Sys, k: nat)
    requires Inv(y) && Enabled(y, Deliver(k))
    ensures var z := Next(y, Deliver(k));
            && ReceiverOk(z) && z.receiver.window.Edge() == y.receiver.window.Edge()
            && z.receiver.window.out.read == y.receiver.window.out.read
            && y.receiver.window.Base() <= z.receiver.window.Base()
  {
    var p, r := y.net[k], y.receiver;
    assert p in y.net;
    assert PacketOk(p, y.sender, r.window.Edge() + 1);
    PushFrame(r.window, p.seg.payload, r.Place(p.seg), p.seg.header.fin);
    if r.synReceived || p.seg.header.syn { DeliverWindow(y, k); }
    hide Window.Push, RepliesOk, SenderRuns.Respects, Sender.Conserves, Receiver.Index;
    assert Wrap(0, y.sender.isn) == y.sender.isn;
  }

  lemma PushFrame(w: Window, data: seq<byte>, index: nat, last: bool)
    ensures var v := w.Push(data, index, last);
            v.out.read == w.out.read && v.out.capacity == w.out.capacity
  {
  }

  lemma DeliverInv(y: Sys, k: nat)
    requires Inv(y) && Enabled(y, Deliver(k))
    ensures Inv(Next(y, Deliver(k)))
  {
    DeliverReceiver(y, k);
    hide Window.Push;
    var z := Next(y, Deliver(k));
    assert NetOk(z);
    if !y.sender.finSent { RepliesBehind(y, z); }
  }

  /** A receiver that has not moved back keeps the chain of acknowledgements. */
  lemma RepliesBehind(y: Sys, z: Sys)
    requires y.receiver.window.WF() && RepliesOk(y) && z.receiver.window.WF()
    requires z.sender == y.sender && z.replies == y.replies && z.last == y.last
    requires y.receiver.synReceived ==>
               z.receiver.synReceived && y.receiver.AbsoluteAck() <= z.receiver.AbsoluteAck()
               && y.receiver.RightEdge() <= z.receiver.RightEdge()
    ensures RepliesOk(z)
  {
  }

  lemma ReadInv(y: Sys, n: nat)
    requires Inv(y)
    ensures Inv(Next(y, Action.AppRead(n)))
  {
    var z := Next(y, Action.AppRead(n));
    assert z.receiver.window.WF();
    assert ReceiverOk(z);
    assert NetOk(z);
    if !y.sender.finSent { RepliesBehind(y, z); }
  }

  lemma AcknowledgeReplies(y: Sys)
    requires Inv(y) && Chained(y) && y.receiver.synReceived
    ensures RepliesOk(Next(y, Acknowledge))
  {
    var z, n := Next(y, Acknowledge), |y.replies|;
    assert ReplyOk(z.replies[n], z.sender, z.last, z.receiver);
    forall i | 0 <= i < n
      ensures ReplyOk(z.replies[i], z.sender, z.last, z.receiver) && Before(z.replies[i], z.replies[n])
    {
      assert ReplyOk(y.replies[i], y.sender, y.last, y.receiver);
    }
    assert forall i | 0 <= i < n :: z.replies[i] == y.replies[i];
  }

  lemma LoseReplies(y: Sys, k: nat)
    requires Inv(y) && Chained(y) && k < |y.replies|
    ensures RepliesOk(Next(y, LoseReply(k)))
  {
    var z := Next(y, LoseReply(k));
    assert forall i | 0 <= i < |z.replies| :: z.replies[i] == y.replies[if i < k then i else i + 1];
  }

  lemma ChannelInv(y: Sys, act: Action)
    requires Inv(y) && Enabled(y, act) && (act.Acknowledge? || act.LoseReply?)
    ensures Inv(Next(y, act))
  {
    var z := Next(y, act);
    assert NetOk(z) && ReceiverOk(z);
    hide RepliesOk, NetOk, ReceiverOk;
    if !y.sender.finSent {
      if act.LoseReply? { LoseReplies(y, act.k); } else { AcknowledgeReplies(y); }
    }
  }

  // ---- Runs -----------------------------------------------------------------------------------

  ghost function Step(y: Sys, act: Action): (z: Sys)
    requires Inv(y) && Enabled(y, act)
    ensures Inv(z)
  {
    StepInv(y, act);
    Next(y, act)
  }

  lemma StepInv(y: Sys, act: Action)
    requires Inv(y) && Enabled(y, act)
    ensures Inv(Next(y, act))
  {
    match act
    case Write(_) => WriteInv(y, act);
    case EndInput => WriteInv(y, act);
    case Fill => FillInv(y);
    case Tick(ms) => TickInv(y, ms);
    case SendEmpty => SendEmptyInv(y);
    case Deliver(k) => DeliverInv(y, k);
    case AppRead(n) => ReadInv(y, n);
    case TakeReply => TakeReplyInv(y);
    case _ => ChannelInv(y, act);
  }

  ghost predicate EnabledRun(y: Sys, acts: seq<Action>)
    requires Inv(y)
    decreases |acts|
  {
    acts == [] || (Enabled(y, acts[0]) && EnabledRun(Step(y, acts[0]), acts[1..]))
  }

  ghost function Exec(y: Sys, acts: seq<Action>): (z: Sys)
    requires Inv(y) && EnabledRun(y, acts)
    ensures Inv(z)
    decreases |acts|
  {
    if acts == [] then y else Exec(Step(y, acts[0]), acts[1..])
  }

  lemma StateSafe(y: Sys)
    requires Inv(y)
    ensures y.receiver.window.out.history <= y.sender.stream.history
    ensures forall k: nat | Enabled(y, Deliver(k)) :: y.receiver.Flow(y.net[k].seg)
  {
    forall k: nat | Enabled(y, Deliver(k)) ensures y.receiver.Flow(y.net[k].seg) { ArrivalFlows(y, k); }
  }

  /** End-to-end safety: whatever the network does, what the receiver has assembled is a prefix of
      what was written at the sender, and every segment that can arrive meets the flow premise. */
  lemma EndToEndSafety(isn: u32, sendCapacity: nat, rto: u16, receiveCapacity: nat, acts: seq<Action>)
    requires 0 < receiveCapacity < TWO_16
    requires EnabledRun(Initial(isn, sendCapacity, rto, receiveCapacity), acts)
    ensures var z := Exec(Initial(isn, sendCapacity, rto, receiveCapacity), acts);
            && z.receiver.window.out.history <= z.sender.stream.history
            && forall k: nat | Enabled(z, Deliver(k)) :: z.receiver.Flow(z.net[k].seg)
  {
    StateSafe(Exec(Initial(isn, sendCapacity, rto, receiveCapacity), acts));
  }

  /** For streams under 2^31 bytes the lifetime condition holds by itself: any segment that was ever
      sent may arrive at any time. */
  lemma ShortStreamAlwaysDelivers(y: Sys, k: nat)
    requires Inv(y) && |y.sender.stream.history| < TWO_31 && k < |y.net|
    ensures Enabled(y, Deliver(k))
  {
  }

  // ---- What is sent ---------------------------------------------------------------------------

  /** The numbers of the packet end below `edge`, or the packet is a single number at `edge`: a probe. */
  predicate Within(p: Packet, edge: nat) {
    0 < p.seg.Length() ==> p.abs + p.seg.Length() <= edge || (p.seg.Length() == 1 && p.abs == edge)
  }

  /** Nothing that was ever sent lies past the right edge of the receiver's window, a probe apart. */
  ghost predicate Bounded(y: Sys) {
    var edge := y.receiver.window.Edge() + 1;
    y.sender.next <= edge + 1 && forall p | p in y.net :: Within(p, edge)
  }

  lemma NewPacketWithin(y: Sys, d: Sender, t: Sender, last: nat, p: Packet)
    requires Sends(y, d, t, last) && p in Locate(t.out, y.sender.next)
    ensures Within(p, y.receiver.window.Edge() + 1)
  {
    SendsFacts(y, d, t, last);
    assert t.out[|d.out|..] == t.out;
    if !y.sender.finSent {
      ChainLocate(t.out, d.next, d.isn, t.Sent(), t.finSent, p);
    }
    hide Minus16, SenderRuns.AtFront, Emitted;
  }

  lemma SendsBound(y: Sys, d: Sender, t: Sender, last: nat)
    requires Sends(y, d, t, last) && y.sender.next <= y.receiver.window.Edge() + 2
    ensures t.next <= y.receiver.window.Edge() + 2
  {
    hide Minus16, SenderRuns.AtFront, Emitted, Chain, Sender.Conserves;
  }

  lemma SendsBounded(y: Sys, d: Sender, t: Sender, last: nat, z: Sys)
    requires Bounded(y) && Sends(y, d, t, last)
    requires z == Emit(y, t, y.sender.next).(replies := z.replies, last := z.last)
    ensures Bounded(z)
  {
    SendsBound(y, d, t, last);
    hide Sends, Within;
    forall p | p in z.net
      ensures Within(p, z.receiver.window.Edge() + 1)
    {
      if p !in y.net { NewPacketWithin(y, d, t, last, p); }
    }
  }

  lemma FillBounded(y: Sys)
    requires Inv(y) && Bounded(y)
    ensures Bounded(Step(y, Fill))
  {
    FillSends(y);
    hide Sender.FillWindow, Sends, Bounded, Inv;
    SendsBounded(y, y.sender, y.sender.FillWindow(), y.last, Step(y, Fill));
  }

  lemma TakeReplyBounded(y: Sys)
    requires Inv(y) && Bounded(y) && y.replies != []
    ensures Bounded(Step(y, TakeReply))
  {
    var s, q := y.sender, y.replies[0];
    var a := Unwrap(q.ackno, s.isn, s.next);
    AckSends(y);
    hide Sends, Bounded, Inv, Sender.Acknowledge, Sender.AckReceived, Unwrap, Sender.AckValid;
    SendsBounded(y, if s.AckValid(a) then s.Acknowledge(a, q.win) else s, s.AckReceived(q.ackno, q.win),
                 if s.AckValid(a) then a else y.last, Step(y, TakeReply));
  }

  lemma TickBounded(y: Sys, ms: nat)
    requires Inv(y) && Bounded(y)
    ensures Bounded(Step(y, Tick(ms)))
  {
    TickInv(y, ms);
    TickEffect(y.sender, ms);
    hide Inv, Sender.Tick, Within, Locate;
  }

  lemma StepBounded(y: Sys, act: Action)
    requires Inv(y) && Enabled(y, act) && Bounded(y)
    ensures Bounded(Step(y, act))
  {
    match act
    case Fill => FillBounded(y);
    case TakeReply => TakeReplyBounded(y);
    case Tick(ms) => TickBounded(y, ms);
    case SendEmpty => EmptyBounded(y);
    case Deliver(k) => DeliverReceiver(y, k); hide Inv, Receiver.SegmentReceived, Within;
    case AppRead(n) => hide NetOk, Chained, Sender.Valid;
    case _ => hide NetOk, ReceiverOk, Chained, Within;
  }

  lemma EmptyBounded(y: Sys)
    requires Inv(y) && Bounded(y)
    ensures Bounded(Step(y, SendEmpty))
  {
    var s := y.sender;
    var seg := TCPSegment(BLANK.(seqno := Wrap(s.next, s.isn)), []);
    assert s.SendEmpty().out == [seg];
    LocateOne(seg, s.next);
    assert Step(y, SendEmpty).net == y.net + [Packet(s.next, seg)];
    hide Inv, Locate, Wrap;
  }

  lemma {:induction false} RunBounded(y: Sys, acts: seq<Action>)
    requires Inv(y) && Bounded(y) && EnabledRun(y, acts)
    ensures Bounded(Exec(y, acts))
    decreases |acts|
  {
    hide Inv, Bounded, Enabled, Next;
    if acts != [] {
      StepBounded(y, acts[0]);
      RunBounded(Step(y, acts[0]), acts[1..]);
    }
  }

  /** What is sent, end to end and in every run: every packet that was ever sent ends at the right edge
      of the receiver's window at the latest, except that a single number may start there. */
  lemma NothingPastEdge(isn: u32, sendCapacity: nat, rto: u16, receiveCapacity: nat, acts: seq<Action>)
    requires 0 < receiveCapacity < TWO_16
    requires EnabledRun(Initial(isn, sendCapacity, rto, receiveCapacity), acts)
    ensures var z := Exec(Initial(isn, sendCapacity, rto, receiveCapacity), acts);
            var edge := z.receiver.window.Edge() + 1;
            && edge <= z.receiver.RightEdge()
            && z.sender.next <= edge + 1
            && forall p | p in z.net && 0 < p.seg.Length() ::
                 p.abs + p.seg.Length() <= edge || (p.seg.Length() == 1 && p.abs == edge)
  {
    var y := Initial(isn, sendCapacity, rto, receiveCapacity);
    InitialBounded(y, isn, sendCapacity, rto, receiveCapacity);
    hide Exec, EnabledRun, Initial, Inv, Bounded;
    RunBounded(y, acts);
    BoundedMeans(Exec(y, acts));
  }

  lemma InitialBounded(y: Sys, isn: u32, sendCapacity: nat, rto: u16, receiveCapacity: nat)
    requires 0 < receiveCapacity < TWO_16 && y == Initial(isn, sendCapacity, rto, receiveCapacity)
    ensures Inv(y) && Bounded(y)
  {
  }

  lemma BoundedMeans(z: Sys)
    requires Inv(z) && Bounded(z)
    ensures var edge := z.receiver.window.Edge() + 1;
            && z.receiver.window.WF() && edge <= z.receiver.RightEdge()
            && z.sender.next <= edge + 1
            && forall p | p in z.net && 0 < p.seg.Length() ::
                 p.abs + p.seg.Length() <= edge || (p.seg.Length() == 1 && p.abs == edge)
  {
    EdgesByBase(z.receiver);
    hide NetOk, Chained, Sender.Valid;
    assert forall p | p in z.net :: Within(p, z.receiver.window.Edge() + 1);
  }

  // ---- The end of the stream ------------------------------------------------------------------

  /** A FIN that carries no bytes arrives only after the last byte of the stream. */
  predicate Punctually(y: Sys, act: Action) {
    && Enabled(y, act)
    && (act.Deliver? ==>
          var p := y.net[act.k];
          y.receiver.synReceived && p.seg.header.fin && p.seg.payload == [] && 0 < p.abs ==>
            !EarlyMark(y.receiver.window, [], p.abs - 1, true))
  }

  /** A FIN without bytes can be placed when it is punctual, and also when the window is respected. */
  lemma FinInReach(y: Sys, k: nat)
    requires SoundInv(y) && Enabled(y, Deliver(k)) && (Chained(y) || Punctually(y, Deliver(k)))
    requires y.receiver.synReceived && y.net[k].seg.header.fin
    ensures InReach(y.net[k].abs, y.receiver.window.Base())
  {
    var p, s := y.net[k], y.sender;
    assert p in y.net;
    assert PacketOk(p, s, y.receiver.window.Edge() + 1);
    hide NetOk;
  }

  /** Every segment that can arrive meets the receiver's premises, and the one about its FIN exactly
      when it is punctual. */
  lemma DeliverArrives(y: Sys, k: nat)
    requires SoundInv(y) && Enabled(y, Deliver(k)) && (Chained(y) || Punctually(y, Deliver(k)))
    ensures y.receiver.synReceived ==>
              Arrives(y.receiver, y.net[k].seg, y.net[k].abs, y.sender.isn, y.sender.Sent())
    ensures FinOk(y.receiver, y.net[k].seg) <==> Punctually(y, Deliver(k))
  {
    hide Receiver.Index, Wrap, Unwrap;
    var p, s := y.net[k], y.sender;
    assert p in y.net;
    assert PacketOk(p, s, y.receiver.window.Edge() + 1);
    EmittedCarries(p.seg, p.abs, s.isn, s.Sent(), s.finSent);
    ArrivalFlows(y, k);
    if p.seg.header.fin && y.receiver.synReceived {
      FinInReach(y, k);
      RecoversIndex(y.receiver, p.seg, p.abs, s.isn);
    }
    hide Carries, Sender.Valid, Chained, NetOk;
  }

  /** Before the SYN only a SYN, which is alone, has an effect. */
  lemma DeliverFirst(y: Sys, k: nat)
    requires SoundInv(y) && Enabled(y, Deliver(k)) && !y.receiver.synReceived
    ensures var r := y.receiver.SegmentReceived(y.net[k].seg);
            r.Sound(y.sender.Sent()) && r.AbsoluteAck() == y.receiver.AbsoluteAck() && r.RightEdge() == y.receiver.RightEdge()
  {
    var p, w := y.net[k], y.receiver.window;
    assert p in y.net;
    assert PacketOk(p, y.sender, w.Edge() + 1);
    if p.seg.header.syn { EmptyPush(w, 0, y.sender.Sent()); }
    hide Window.Push;
  }

  /** The receiver's knowledge of the end stays true exactly when the arrival is punctual. */
  lemma DeliverSound(y: Sys, k: nat)
    requires SoundInv(y) && Enabled(y, Deliver(k)) && (Chained(y) || Punctually(y, Deliver(k)))
    ensures var r := Next(y, Deliver(k)).receiver;
            && (r.Sound(y.sender.Sent()) <==> Punctually(y, Deliver(k)))
            && (Punctually(y, Deliver(k)) ==>
                  y.receiver.AbsoluteAck() <= r.AbsoluteAck() && r.window.WF() && y.receiver.RightEdge() <= r.RightEdge())
  {
    var p, truth := y.net[k], y.sender.Sent();
    if y.receiver.synReceived {
      DeliverArrives(y, k);
      hide Punctually, Receiver.SegmentReceived, Inv, Arrives, FinOk;
      SegmentKeepsSound(y.receiver, p.seg, p.abs, y.sender.isn, truth);
      if FinOk(y.receiver, p.seg) { SegmentNeverRetreats(y.receiver, p.seg, p.abs, y.sender.isn, truth); }
    } else {
      DeliverFirst(y, k);
    }
  }

  /** While no FIN was sent, more bytes do not disturb what the receiver knows. */
  lemma SoundGrows(y: Sys, z: Sys)
    requires SoundInv(y) && Inv(z) && z.receiver == y.receiver
    requires y.sender.Sent() <= z.sender.Sent()
    requires y.sender.finSent ==> z.sender.Sent() == y.sender.Sent()
    ensures SoundInv(z)
  {
  }

  ghost predicate Grows(s: Sender, t: Sender) {
    s.stream.WF() && t.stream.WF() && s.Sent() <= t.Sent() && (s.finSent ==> t.Sent() == s.Sent())
  }

  lemma FillGrows(y: Sys)
    requires Inv(y)
    ensures Grows(y.sender, y.sender.FillWindow())
  {
    FillSends(y);
    hide Sender.FillWindow, Sends, NetOk, ReceiverOk, RepliesOk;
    SendsFacts(y, y.sender, y.sender.FillWindow(), y.last);
  }

  lemma AckGrows(y: Sys)
    requires Inv(y) && y.replies != []
    ensures Grows(y.sender, y.sender.AckReceived(y.replies[0].ackno, y.replies[0].win))
  {
    var s, q := y.sender, y.replies[0];
    var a := Unwrap(q.ackno, s.isn, s.next);
    AckSends(y);
    hide Sender.AckReceived, Sends, Unwrap, Sender.Acknowledge, NetOk, ReceiverOk, RepliesOk;
    SendsFacts(y, if s.AckValid(a) then s.Acknowledge(a, q.win) else s,
               s.AckReceived(q.ackno, q.win), if s.AckValid(a) then a else y.last);
  }

  lemma SenderGrows(y: Sys, act: Action)
    requires Inv(y) && Enabled(y, act)
    ensures Grows(y.sender, Next(y, act).sender)
  {
    hide Sender.AckReceived, Sender.FillWindow, Sender.Tick, NetOk, ReceiverOk, RepliesOk, Locate;
    match act
    case Fill => FillGrows(y);
    case TakeReply => AckGrows(y);
    case Tick(ms) => TickEffect(y.sender, ms);
    case _ =>
  }

  lemma StepSound(y: Sys, act: Action)
    requires SoundInv(y) && Punctually(y, act)
    ensures SoundInv(Step(y, act))
  {
    var z := Step(y, act);
    if act.Deliver? {
      DeliverSound(y, act.k);
    } else if act.AppRead? {
    } else {
      SenderGrows(y, act);
      hide Inv, SenderRuns.Respects;
      SoundGrows(y, z);
    }
  }

  /** One action keeps the receiver's knowledge of the end true exactly when it is punctual. */
  lemma SoundExactlyPunctual(y: Sys, act: Action)
    requires SoundInv(y) && Chained(y) && Enabled(y, act)
    ensures SoundInv(Step(y, act)) <==> Punctually(y, act)
  {
    if act.Deliver? {
      DeliverSound(y, act.k);
      hide Inv, Receiver.Sound, Chained, Punctually;
    } else {
      StepSound(y, act);
    }
  }

  ghost predicate PunctualRun(y: Sys, acts: seq<Action>)
    requires Inv(y)
    ensures PunctualRun(y, acts) ==> EnabledRun(y, acts)
    decreases |acts|
  {
    acts == [] || (Punctually(y, acts[0]) && PunctualRun(Step(y, acts[0]), acts[1..]))
  }

  lemma DeliverChained(y: Sys, k: nat)
    requires SoundInv(y) && Chained(y) && Punctually(y, Deliver(k))
    ensures Chained(Step(y, Deliver(k)))
  {
    DeliverSound(y, k);
    hide Receiver.Sound, Inv, SenderRuns.Respects;
    RepliesBehind(y, Step(y, Deliver(k)));
  }

  lemma FillChained(y: Sys)
    requires Inv(y) && Chained(y)
    ensures Chained(Step(y, Fill))
  {
    var t, z := y.sender.FillWindow(), Step(y, Fill);
    SenderRuns.FillRespects(y.sender, y.last);
    FillSends(y);
    RespectsIgnoresOut(t, z.sender, y.last);
    hide Sender.FillWindow, Sends, NetOk, ReceiverOk, SenderRuns.Respects;
    RepliesKept(y, z);
  }

  /** Steps that change neither numbers nor windows. */
  lemma QuietChained(y: Sys, act: Action)
    requires Inv(y) && Chained(y) && Enabled(y, act)
    requires act.Write? || act.EndInput? || act.Tick? || act.SendEmpty? || act.AppRead?
    ensures Chained(Step(y, act))
  {
    var z := Step(y, act);
    if act.AppRead? {
      RepliesBehind(y, z);
    } else {
      if act.Tick? { TickEffect(y.sender, act.ms); }
      hide Sender.Tick, Locate, NetOk, ReceiverOk, Sender.Conserves;
      RepliesKept(y, z);
    }
  }

  /** The receiver supplies the sender's premise: without early FINs every step, after the FIN too,
      keeps the window respected and the acknowledgements in order. */
  lemma StepChained(y: Sys, act: Action)
    requires SoundInv(y) && Chained(y) && Punctually(y, act)
    ensures Chained(Step(y, act))
  {
    match act
    case Deliver(k) => DeliverChained(y, k);
    case Fill => FillChained(y);
    case TakeReply => TakeReplyChained(y);
    case Acknowledge => AcknowledgeReplies(y); hide RepliesOk, Inv;
    case LoseReply(k) => LoseReplies(y, k); hide RepliesOk, Inv;
    case _ => QuietChained(y, act);
  }

  lemma {:induction false} RunChained(y: Sys, acts: seq<Action>)
    requires SoundInv(y) && Chained(y) && PunctualRun(y, acts)
    ensures SoundInv(Exec(y, acts)) && Chained(Exec(y, acts))
    decreases |acts|
  {
    hide Inv, Chained, Receiver.Sound, Punctually;
    if acts != [] {
      StepSound(y, acts[0]);
      StepChained(y, acts[0]);
      RunChained(Step(y, acts[0]), acts[1..]);
    }
  }

  /** Window respect end to end: in every run without an early FIN the sender respects the window it
      knows, which is never ahead of the receiver's, and the acknowledgements under way form a chain. So
      nothing is sent past the receiver's right edge, one number past a closed window apart. */
  lemma WindowRespected(isn: u32, sendCapacity: nat, rto: u16, receiveCapacity: nat, acts: seq<Action>)
    requires 0 < receiveCapacity < TWO_16
    requires PunctualRun(Initial(isn, sendCapacity, rto, receiveCapacity), acts)
    ensures var z := Exec(Initial(isn, sendCapacity, rto, receiveCapacity), acts);
            && SenderRuns.Respects(z.sender, z.last) && RepliesOk(z)
            && (z.receiver.synReceived ==>
                  || z.sender.next <= z.receiver.RightEdge()
                  || (z.sender.window == 0 && z.sender.next == z.last + 1 <= z.receiver.AbsoluteAck() + 1))
  {
    RunChained(Initial(isn, sendCapacity, rto, receiveCapacity), acts);
    hide Exec, PunctualRun, SoundInv;
  }

  /** Complete delivery: in a run without an early FIN, when the receiver's stream has ended, the
      sender has ended its own and every byte it wrote has been assembled. */
  lemma {:induction false} CompleteDelivery(y: Sys, acts: seq<Action>)
    requires SoundInv(y) && PunctualRun(y, acts)
    ensures var z := Exec(y, acts);
            z.receiver.window.out.ended ==>
              z.sender.stream.ended && z.receiver.window.out.history == z.sender.stream.history
    decreases |acts|
  {
    if acts == [] {
      EndedExactly(y.receiver.window, y.sender.Sent());
    } else {
      StepSound(y, acts[0]);
      CompleteDelivery(Step(y, acts[0]), acts[1..]);
    }
  }
}
