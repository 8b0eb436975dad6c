/** A connection: one sender, one receiver, and the rules for lingering, aborting and closing. */
module Connections {
  import opened Basics
  import WrappingIntegers
  import opened ByteStreams
  import opened Reassembly
  import opened Segments
  import opened Senders
  import SenderRuns
  import opened Receivers
  import EndToEnd

  const MAX_RETX_ATTEMPTS: nat := 8

  datatype Connection = Connection(
    rtTimeout: u16, sender: Sender, receiver: Receiver, out: seq<TCPSegment>,
    linger: bool, sinceLast: nat, active: bool)
  {
    predicate WF() {
      sender.stream.WF() && receiver.window.WF()
    }

    /** Fills in the acknowledgement, once there is one, and the 16-bit window. */
    function Stamp(seg: TCPSegment): TCPSegment
      requires receiver.window.WF()
    {
      var win := receiver.WindowSize() % TWO_16;
      match receiver.Ackno()
      case None => seg.(header := seg.header.(win := win))
      case Some(a) => seg.(header := seg.header.(ack := true, ackno := a, win := win))
    }

    function StampAll(q: seq<TCPSegment>): seq<TCPSegment>
      requires receiver.window.WF()
    {
      if q == [] then [] else [Stamp(q[0])] + StampAll(q[1..])
    }

    function RealSend(): Connection
      requires receiver.window.WF()
    {
      this.(sender := sender.(out := []), out := out + StampAll(sender.out))
    }

    /** The oldest queued segment completed and sent, as a reset if asked to. */
    function SendFront(rst: bool): Connection
      requires receiver.window.WF() && sender.out != []
    {
      var seg := Stamp(sender.out[0]);
      this.(sender := sender.(out := sender.out[1..]),
            out := out + [if rst then seg.(header := seg.header.(rst := true)) else seg])
    }

    predicate InboundEnded() {
      receiver.window.store == map[] && receiver.window.out.ended
    }

    function SetErrors(): Connection {
      this.(sender := sender.(stream := sender.stream.(error := true)),
            receiver := receiver.(window := receiver.window.(out := receiver.window.out.(error := true))))
    }

    function Aborted(): Connection {
      SetErrors().(active := false)
    }

    function Reached(seg: TCPSegment): (c: Connection)
      requires WF() && receiver.Flow(seg)
      ensures c.WF()
    {
      ReceiverKeepsWF(receiver, seg);
      var c := this.(sinceLast := 0, receiver := receiver.SegmentReceived(seg));
      c.(linger := c.linger && !(c.InboundEnded() && !sender.stream.Eof()))
    }

    function Acked(seg: TCPSegment): (c: Connection)
      requires WF()
      ensures c.WF()
    {
      if !seg.header.ack then this
      else
        AckKeepsWF(sender, seg.header.ackno, seg.header.win);
        this.(sender := sender.AckReceived(seg.header.ackno, seg.header.win)).RealSend()
    }

    /** A segment that takes sequence numbers is answered by at least one segment. */
    function Answered(seg: TCPSegment): (c: Connection)
      requires WF()
      ensures c.WF()
    {
      if seg.Length() == 0 then this
      else
        FillKeepsWF(sender);
        var s := sender.FillWindow();
        this.(sender := if s.out == [] then s.SendEmpty() else s).RealSend()
    }

    function SegmentReceived(seg: TCPSegment): (c: Connection)
      requires WF() && (seg.header.rst || receiver.Flow(seg))
      ensures c.WF()
    {
      if seg.header.rst then this.(sinceLast := 0).Aborted()
      else Reached(seg).Acked(seg).Answered(seg)
    }

    function Flushed(): (c: Connection)
      requires WF()
      ensures c.WF()
    {
      FillKeepsWF(sender);
      this.(sender := sender.FillWindow()).RealSend()
    }

    function Write(data: seq<byte>): (c: Connection)
      requires WF()
      ensures c.WF()
    {
      if data == [] then this else this.(sender := sender.(stream := sender.stream.Write(data))).Flushed()
    }

    function EndInput(): (c: Connection)
      requires WF()
      ensures c.WF()
    {
      this.(sender := sender.(stream := sender.stream.(ended := true))).Flushed()
    }

    /** The retransmission, with RST and the end of the connection after too many of them. */
    function Retransmit(): (c: Connection)
      requires WF()
      ensures c.WF()
    {
      if sender.out == [] then this
      else if sender.consecutive > MAX_RETX_ATTEMPTS then Aborted().SendFront(true)
      else SendFront(false)
    }

    predicate Finished()
      requires sender.stream.WF()
    {
      && InboundEnded() && SenderRuns.OutboundEnded(sender)
      && (!linger || sinceLast >= 10 * rtTimeout)
    }

    /** The sender's tick, with what it sends again. */
    function Resent(ms: nat): (c: Connection)
      requires WF() && (sender.timer ==> sender.outstanding != [])
      ensures c.WF()
    {
      this.(sinceLast := sinceLast + ms, sender := sender.Tick(ms)).Retransmit()
    }

    function Tick(ms: nat): (c: Connection)
      requires WF() && (sender.timer ==> sender.outstanding != [])
      ensures c.WF()
    {
      var c := Resent(ms);
      c.(active := c.active && !c.Finished())
    }

    /** The destructor: an open connection is aborted with a RST. */
    function Close(): Connection
      requires WF()
    {
      if !active then this
      else
        var c := SetErrors();
        c.(sender := c.sender.SendEmpty()).SendFront(true).(active := false)
    }

    function Read(n: nat): Connection
      requires WF()
    {
      this.(receiver := receiver.Read(n))
    }
  }

  /** What a segment says about the receiver is the acknowledgement of the joined system. */
  lemma StampIsReply(c: Connection, seg: TCPSegment)
    requires c.receiver.window.WF()
    ensures var h, q := c.Stamp(seg).header, EndToEnd.ReplyOf(c.receiver);
            && h.win == q.win
            && (if c.receiver.synReceived then h.ack && h.ackno == q.ackno
                else h.ack == seg.header.ack && h.ackno == seg.header.ackno)
            && c.Stamp(seg) == seg.(header := seg.header.(ack := h.ack, ackno := h.ackno, win := h.win))
  {
    hide WrappingIntegers.Wrap;
  }

  lemma ReceiverKeepsWF(r: Receiver, seg: TCPSegment)
    requires r.window.WF() && r.Flow(seg)
    ensures r.SegmentReceived(seg).window.WF()
  {
    if r.synReceived || seg.header.syn {
      PushKeepsWF(r.window, seg.payload, r.Place(seg), seg.header.fin);
    }
  }

  lemma {:induction false} FillLoopKeepsWF(s: Sender)
    requires s.stream.WF()
    ensures s.FillLoop().stream.WF()
    decreases s.stream.Buffered()
  {
    if s.free != 0 {
      var n := s.ChunkSize();
      var t := s.SendData(n, s.stream.Pop(n).Eof() && s.free > n);
      if t.stream.Buffered() != 0 { FillLoopKeepsWF(t); }
    }
  }

  lemma FillKeepsWF(s: Sender)
    requires s.stream.WF()
    ensures s.FillWindow().stream.WF()
  {
    FillLoopKeepsWF(s);
  }

  lemma AckKeepsWF(s: Sender, ackno: u32, win: u16)
    requires s.stream.WF()
    ensures s.AckReceived(ackno, win).stream.WF()
  {
    var a := WrappingIntegers.Unwrap(ackno, s.isn, s.next);
    AcknowledgeKeepsStream(s, a, win);
    FillKeepsWF(s.Acknowledge(a, win));
  }

  function NewConnection(rtTimeout: u16, isn: u32, sendCapacity: nat, receiveCapacity: nat): Connection {
    Connection(rtTimeout, Closed(isn, sendCapacity, rtTimeout), Listening(receiveCapacity), [], true, 0, true)
  }

  // ---- What every run keeps -------------------------------------------------------------------

  /** Whatever arrives within the flow premise: the sender is consistent, and while the connection is active its timeout
      is exact and at most eight retransmissions were counted. */
  ghost predicate Core(c: Connection) {
    && c.WF() && c.sender.Valid() && c.sender.out == [] && c.sender.initialRto == c.rtTimeout
    && (c.active ==> SenderRuns.BacksOff(c.sender) && c.sender.consecutive <= MAX_RETX_ATTEMPTS)
  }

  datatype Event =
    | Segment(seg: TCPSegment, a: nat) | Tick(ms: nat) | Connect | Write(data: seq<byte>) | EndInput
    | AppRead(n: nat) | Close

  /** The application does not write after the end; the reassembler's premise holds for what reaches it. */
  predicate Possible(c: Connection, e: Event) {
    && (e.Write? ==> !c.sender.stream.ended)
    && (e.Segment? ==> e.seg.header.rst || c.receiver.Flow(e.seg))
  }

  ghost function Next(c: Connection, e: Event): Connection
    requires c.WF() && c.sender.Valid() && Possible(c, e)
  {
    match e
    case Segment(seg, _) => c.SegmentReceived(seg)
    case Tick(ms) => c.Tick(ms)
    case Connect => c.Flushed()
    case Write(data) => c.Write(data)
    case EndInput => c.EndInput()
    case AppRead(n) => c.Read(n)
    case Close => c.Close()
  }

  /** Which stream came to its end first, once the inbound one has. */
  datatype Order = InboundOpen | OutboundFirst | InboundFirst

  /** The order after a step to a state where the inbound stream is, or is not, complete. */
  function Later(order: Order, inboundEnded: bool, outboundEof: bool): Order {
    if order != InboundOpen || !inboundEnded then order
    else if outboundEof then OutboundFirst
    else InboundFirst
  }

  ghost function NextOrder(c: Connection, order: Order, e: Event): Order
    requires c.WF() && c.sender.Valid() && Possible(c, e)
  {
    Later(order, Next(c, e).InboundEnded(), c.sender.stream.Eof())
  }

  /** Whatever arrives within the flow premise: how the ends of the two streams, lingering and the end of the connection
      hang together. */
  ghost predicate Closing(c: Connection, order: Order) {
    && Core(c)
    && (order == InboundOpen ==> !c.InboundEnded())
    && (order != InboundOpen ==> c.receiver.window.out.ended)
    && (c.linger <==> order != InboundFirst)
    && (order == OutboundFirst ==> c.sender.stream.Eof())
    && (!c.active ==>
          || (c.sender.stream.error && c.receiver.window.out.error)
          || (c.receiver.window.out.ended && SenderRuns.OutboundEnded(c.sender)))
  }

  /** Besides, what has arrived is true to the peer's whole stream, as long as no FIN is cut off or
      comes early. */
  ghost predicate Inv(c: Connection, order: Order, truth: seq<byte>) {
    Closing(c, order) && c.receiver.Sound(truth)
  }

  /** Arriving segments are resets, or parts of the peer's stream with a punctual FIN. */
  predicate Enabled(c: Connection, e: Event, isn: u32, truth: seq<byte>) {
    Possible(c, e) && (e.Segment? && !e.seg.header.rst ==> Punctual(c.receiver, e.seg, e.a, isn, truth))
  }

  // ---- One event ------------------------------------------------------------------------------

  /** `t` is a later state of the sender `s`. */
  ghost predicate Follows(s: Sender, t: Sender) {
    && s.Valid() && t.Valid() && t.stream.error == s.stream.error && t.initialRto == s.initialRto
    && (s.stream.Eof() ==> t.stream.Eof())
    && (SenderRuns.OutboundEnded(s) ==> SenderRuns.OutboundEnded(t))
    && (SenderRuns.BacksOff(s) && s.consecutive <= MAX_RETX_ATTEMPTS ==>
          SenderRuns.BacksOff(t) && t.consecutive <= MAX_RETX_ATTEMPTS)
  }

  lemma FillFollows(s: Sender)
    requires s.Valid()
    ensures Follows(s, s.FillWindow())
  {
    FillWindowExact(s);
    SenderRuns.SummaryIsReal(s);
    SenderRuns.SummaryIsReal(s.FillWindow());
    SenderRuns.FillKeepsOrder(s);
    hide Sender.FillWindow;
  }

  lemma AcknowledgeFollows(s: Sender, a: nat, win: u16)
    requires s.Valid()
    ensures Follows(s, s.Acknowledge(a, win))
  {
    hide Sender.Acknowledge, Sender.Conserves, SenderRuns.RealPhase, SenderRuns.Summary;
    SenderRuns.AcknowledgeValid(s, a, win);
    SenderRuns.ConservesStream(s);
    SenderRuns.SummaryIsReal(s);
    SenderRuns.SummaryIsReal(s.Acknowledge(a, win));
    SenderRuns.AcknowledgeKeepsOrder(s, a, win);
  }

  lemma AckFollows(s: Sender, ackno: u32, win: u16)
    requires s.Valid()
    ensures Follows(s, s.AckReceived(ackno, win))
  {
    var a := WrappingIntegers.Unwrap(ackno, s.isn, s.next);
    if s.AckValid(a) {
      AcknowledgeFollows(s, a, win);
      FillFollows(s.Acknowledge(a, win));
    }
  }

  /** Replacing the sender by a later state, and sending what it queued, keeps the invariants. */
  lemma SenderCore(c: Connection, t: Sender)
    requires Core(c) && Follows(c.sender, t)
    ensures Core(c.(sender := t).RealSend())
  {
    assert t.(out := []).Valid();
  }

  lemma SenderStage(c: Connection, order: Order, t: Sender)
    requires Closing(c, order) && Follows(c.sender, t)
    ensures Closing(c.(sender := t).RealSend(), order)
  {
    SenderCore(c, t);
    hide Core;
  }

  lemma EmptyFollows(s: Sender, t: Sender)
    requires Follows(s, t)
    ensures Follows(s, t.SendEmpty())
  {
    assert t.SendEmpty().Valid();
  }

  lemma AckedCore(c: Connection, seg: TCPSegment)
    requires Core(c)
    ensures Core(c.Acked(seg))
  {
    if seg.header.ack {
      AckFollows(c.sender, seg.header.ackno, seg.header.win);
      hide Sender.AckReceived, Follows;
      SenderCore(c, c.sender.AckReceived(seg.header.ackno, seg.header.win));
    }
  }

  lemma AnsweredCore(c: Connection, seg: TCPSegment)
    requires Core(c)
    ensures Core(c.Answered(seg))
  {
    if seg.Length() != 0 {
      FillFollows(c.sender);
      hide Sender.FillWindow, Follows;
      var s := c.sender.FillWindow();
      EmptyFollows(c.sender, s);
      SenderCore(c, if s.out == [] then s.SendEmpty() else s);
    }
  }

  lemma SegmentCore(c: Connection, seg: TCPSegment)
    requires Core(c) && (seg.header.rst || c.receiver.Flow(seg))
    ensures Core(c.SegmentReceived(seg))
  {
    if seg.header.rst {
      assert c.sender.(stream := c.sender.stream.(error := true)).Valid();
    } else {
      var d := c.Reached(seg);
      assert Core(d);
      hide Connection.Reached, Connection.Acked, Connection.Answered, Core;
      AckedCore(d, seg);
      AnsweredCore(d.Acked(seg), seg);
    }
  }

  lemma AckedStage(c: Connection, order: Order, seg: TCPSegment)
    requires Closing(c, order)
    ensures Closing(c.Acked(seg), order) && c.Acked(seg).receiver == c.receiver
  {
    if seg.header.ack {
      AckFollows(c.sender, seg.header.ackno, seg.header.win);
      hide Sender.AckReceived, Follows, Closing;
      SenderStage(c, order, c.sender.AckReceived(seg.header.ackno, seg.header.win));
    }
  }

  lemma AnsweredStage(c: Connection, order: Order, seg: TCPSegment)
    requires Closing(c, order)
    ensures Closing(c.Answered(seg), order) && c.Answered(seg).receiver == c.receiver
  {
    if seg.Length() != 0 {
      FillFollows(c.sender);
      hide Sender.FillWindow, Follows, Closing;
      var s := c.sender.FillWindow();
      EmptyFollows(c.sender, s);
      SenderStage(c, order, if s.out == [] then s.SendEmpty() else s);
    }
  }

  lemma ReachedStage(c: Connection, order: Order, seg: TCPSegment)
    requires Closing(c, order) && c.receiver.Flow(seg)
    ensures var d := c.Reached(seg);
            && Closing(d, Later(order, d.InboundEnded(), c.sender.stream.Eof()))
            && d.receiver == c.receiver.SegmentReceived(seg)
  {
    EndedStays(c.receiver.window, seg.payload, c.receiver.Place(seg), seg.header.fin);
    hide Window.Push;
  }

  /** Any segment keeps the rules of closing: linger records which stream ended first. */
  lemma SegmentStage(c: Connection, order: Order, seg: TCPSegment)
    requires Closing(c, order) && (seg.header.rst || c.receiver.Flow(seg))
    ensures var d := c.SegmentReceived(seg);
            && Closing(d, Later(order, d.InboundEnded(), c.sender.stream.Eof()))
            && (!seg.header.rst ==> d.receiver == c.receiver.SegmentReceived(seg))
  {
    if seg.header.rst {
      SegmentCore(c, seg);
      hide Core;
    } else {
      var d := c.Reached(seg);
      var order' := Later(order, d.InboundEnded(), c.sender.stream.Eof());
      ReachedStage(c, order, seg);
      hide Closing, Connection.Reached, Connection.Acked, Connection.Answered;
      AckedStage(d, order', seg);
      AnsweredStage(d.Acked(seg), order', seg);
    }
  }

  /** What a tick may do to a sender that has nothing queued. */
  ghost predicate TickedSender(s: Sender, t: Sender) {
    && t.Valid() && t.stream == s.stream && t.next == s.next && t.inFlight == s.inFlight
    && t.initialRto == s.initialRto && |t.out| <= 1 && (t.out == [] ==> t.consecutive == s.consecutive)
    && (SenderRuns.BacksOff(s) && s.consecutive <= MAX_RETX_ATTEMPTS ==> SenderRuns.BacksOff(t))
  }

  lemma TickSender(s: Sender, ms: nat)
    requires s.Valid() && s.out == []
    ensures TickedSender(s, s.Tick(ms))
  {
    if SenderRuns.BacksOff(s) && s.consecutive <= MAX_RETX_ATTEMPTS { SenderRuns.TickBacksOff(s, ms); }
  }

  /** The ninth retransmission in a row aborts the connection, with a reset; any other is just sent. */
  lemma RetransmitEffect(c: Connection)
    requires c.WF() && |c.sender.out| <= 1
    ensures var d := c.Retransmit();
            if c.sender.out != [] && c.sender.consecutive > MAX_RETX_ATTEMPTS then
              && d == c.Aborted().(sender := c.Aborted().sender.(out := []), out := d.out)
              && |d.out| == |c.out| + 1 && d.out[|c.out|].header.rst
            else d == c.(sender := c.sender.(out := []), out := d.out)
  {
    assert c.sender.out != [] ==> c.sender.out[1..] == [];
  }

  /** A later state of the connection in which only the timer, errors and `active` changed. */
  ghost predicate Ticked(c: Connection, d: Connection) {
    && d.sender.Valid() && d.sender.out == []
    && d.sender.initialRto == c.sender.initialRto && d.rtTimeout == c.rtTimeout
    && d.sender.stream == c.sender.stream.(error := d.sender.stream.error)
    && d.sender.next == c.sender.next && d.sender.inFlight == c.sender.inFlight
    && d.receiver == c.receiver.(window := c.receiver.window.(out := c.receiver.window.out.(error := d.receiver.window.out.error)))
    && d.linger == c.linger
    && ((d.sender.stream.error && d.receiver.window.out.error)
        || (d.sender.stream.error == c.sender.stream.error && d.receiver.window.out.error == c.receiver.window.out.error
            && d.active == c.active))
    && (d.active ==> c.active && SenderRuns.BacksOff(d.sender) && d.sender.consecutive <= MAX_RETX_ATTEMPTS)
  }

  lemma RetransmitTicked(c: Connection, d: Connection)
    requires Core(c) && TickedSender(c.sender, d.sender) && d == c.(sinceLast := d.sinceLast, sender := d.sender)
    ensures Ticked(c, d.Retransmit())
  {
    RetransmitEffect(d);
    BacksOffFrame(d.sender, d.Retransmit().sender);
    ValidFrame(d.sender, d.Retransmit().sender);
    hide SenderRuns.BacksOff, Connection.Retransmit, Sender.Valid;
  }

  lemma ValidFrame(s: Sender, t: Sender)
    requires s.Valid() && t == s.(out := t.out, stream := s.stream.(error := t.stream.error))
    ensures t.Valid()
  {
  }

  lemma RetransmitTicks(c: Connection, ms: nat)
    requires Core(c)
    ensures Ticked(c, c.Resent(ms))
  {
    TickSender(c.sender, ms);
    hide Sender.Tick, SenderRuns.BacksOff, Ticked, Connection.Retransmit;
    RetransmitTicked(c, c.(sinceLast := c.sinceLast + ms, sender := c.sender.Tick(ms)));
  }

  lemma SoundIgnoresError(r: Receiver, v: Receiver, truth: seq<byte>)
    requires v == r.(window := r.window.(out := r.window.out.(error := v.window.out.error)))
    ensures v.Sound(truth) <==> r.Sound(truth)
  {
  }

  lemma TickedStage(c: Connection, d: Connection, order: Order)
    requires Closing(c, order) && Ticked(c, d)
    ensures Closing(d, order)
  {
    hide SenderRuns.BacksOff, Sender.Conserves;
    assert d.sender.stream.WF();
  }

  lemma TickCore(c: Connection, ms: nat)
    requires Core(c)
    ensures Core(c.Tick(ms))
  {
    RetransmitTicks(c, ms);
    hide Connection.Resent, SenderRuns.BacksOff, Sender.Conserves;
  }

  lemma FinishedStage(d: Connection, order: Order)
    requires Closing(d, order)
    ensures Closing(d.(active := d.active && !d.Finished()), order)
  {
    hide SenderRuns.BacksOff, Sender.Valid;
  }

  lemma TickStage(c: Connection, order: Order, ms: nat)
    requires Closing(c, order)
    ensures Closing(c.Tick(ms), order)
    ensures var r := c.Tick(ms).receiver;
            r == c.receiver.(window := c.receiver.window.(out := c.receiver.window.out.(error := r.window.out.error)))
  {
    RetransmitTicks(c, ms);
    hide Connection.Resent, Connection.Finished, Closing;
    TickedStage(c, c.Resent(ms), order);
    FinishedStage(c.Resent(ms), order);
    hide Sender.Valid, SenderRuns.BacksOff;
  }

  /** The tick is the ninth counted expiry of the timer in a row. */
  predicate GivesUp(s: Sender, ms: nat) {
    && s.timer && s.rto <= (s.elapsed + ms) % TWO_32
    && (s.window != 0 || (s.outstanding != [] && s.outstanding[0].header.syn))
    && s.consecutive == MAX_RETX_ATTEMPTS
  }

  lemma TickGivesUp(s: Sender, ms: nat)
    requires (s.timer ==> s.outstanding != []) && s.out == [] && s.consecutive <= MAX_RETX_ATTEMPTS
    ensures var t := s.Tick(ms); t.out != [] && t.consecutive > MAX_RETX_ATTEMPTS <==> GivesUp(s, ms)
  {
  }

  /** A tick aborts an active connection exactly when it is the ninth counted expiry in a row. */
  lemma TickAborts(c: Connection, ms: nat)
    requires Core(c) && c.active && !c.sender.stream.error
    ensures c.Tick(ms).sender.stream.error <==> GivesUp(c.sender, ms)
  {
    TickSender(c.sender, ms);
    TickGivesUp(c.sender, ms);
    hide Sender.Tick, GivesUp, SenderRuns.BacksOff;
    RetransmitEffect(c.(sinceLast := c.sinceLast + ms, sender := c.sender.Tick(ms)));
    hide Connection.Retransmit, Sender.Valid, Connection.Finished;
  }

  lemma BacksOffFrame(s: Sender, t: Sender)
    requires s.consecutive == t.consecutive && s.rto == t.rto && s.initialRto == t.initialRto
    ensures SenderRuns.BacksOff(s) <==> SenderRuns.BacksOff(t)
  {
  }

  /** `t` is the sender `s` after the application has written or ended its stream. */
  ghost predicate Written(s: Sender, t: Sender)
    requires s.stream.WF()
  {
    && t == s.(stream := t.stream)
    && t.stream == s.stream.(history := t.stream.history, ended := t.stream.ended)
    && t.stream.WF() && s.stream.history <= t.stream.history
    && (s.stream.ended ==> t.stream == s.stream)
  }

  lemma WrittenCore(c: Connection, t: Sender)
    requires Core(c) && Written(c.sender, t)
    ensures Core(c.(sender := t)) && Core(c.(sender := t).Flushed())
  {
    assert t.Sent() == c.sender.Sent();
    assert t.Valid();
    FillFollows(t);
    hide Sender.FillWindow, Follows;
    SenderCore(c.(sender := t), t.FillWindow());
  }

  lemma WrittenStage(c: Connection, order: Order, t: Sender)
    requires Closing(c, order) && Written(c.sender, t)
    ensures Closing(c.(sender := t).Flushed(), order)
  {
    WrittenCore(c, t);
    assert Closing(c.(sender := t), order);
    FillFollows(t);
    hide Sender.FillWindow, Follows, Closing;
    SenderStage(c.(sender := t), order, t.FillWindow());
  }

  /** The sender that an event of the application leaves to be flushed. */
  function AppSender(s: Sender, e: Event): Sender
    requires s.stream.WF()
  {
    match e
    case Write(data) => s.(stream := s.stream.Write(data))
    case EndInput => s.(stream := s.stream.(ended := true))
    case _ => s
  }

  lemma AppWritten(c: Connection, e: Event)
    requires c.WF() && Possible(c, e)
    ensures Written(c.sender, AppSender(c.sender, e))
  {
  }

  lemma AppCore(c: Connection, e: Event)
    requires Core(c) && Possible(c, e) && (e.Connect? || e.Write? || e.EndInput?)
    ensures Core(Next(c, e)) && Next(c, e).receiver == c.receiver
  {
    AppWritten(c, e);
    WrittenCore(c, AppSender(c.sender, e));
    hide Core, Written;
  }

  lemma AppStage(c: Connection, order: Order, e: Event)
    requires Closing(c, order) && Possible(c, e) && (e.Connect? || e.Write? || e.EndInput?)
    ensures Closing(Next(c, e), order) && Next(c, e).receiver == c.receiver
  {
    AppWritten(c, e);
    WrittenStage(c, order, AppSender(c.sender, e));
    hide Core, Closing, Written;
  }

  lemma CloseCore(c: Connection)
    requires Core(c)
    ensures Core(c.Close())
  {
    assert c.SetErrors().sender.Valid();
  }

  lemma CloseStage(c: Connection, order: Order)
    requires Closing(c, order)
    ensures Closing(c.Close(), order)
    ensures var r := c.Close().receiver;
            r == c.receiver.(window := c.receiver.window.(out := c.receiver.window.out.(error := r.window.out.error)))
  {
    CloseCore(c);
    hide Core;
  }

  lemma StepCore(c: Connection, e: Event)
    requires Core(c) && Possible(c, e)
    ensures Core(Next(c, e))
  {
    match e
    case Segment(seg, _) => SegmentCore(c, seg); hide Core;
    case Tick(ms) => TickCore(c, ms); hide Core;
    case AppRead(n) =>
    case Close => CloseCore(c); hide Core;
    case _ => AppCore(c, e); hide Core;
  }

  /** Every event keeps them. */
  lemma StepClosing(c: Connection, order: Order, e: Event)
    requires Closing(c, order) && Possible(c, e)
    ensures Closing(Next(c, e), NextOrder(c, order, e))
  {
    assert order == InboundOpen ==> !c.InboundEnded();
    match e
    case Segment(seg, _) => SegmentStage(c, order, seg); hide Closing;
    case Tick(ms) => TickStage(c, order, ms); hide Closing, Connection.Tick;
    case AppRead(n) =>
    case Close => CloseStage(c, order); hide Closing, Connection.Close;
    case _ => AppStage(c, order, e); hide Closing, Connection.Write, Connection.EndInput, Connection.Flushed;
  }

  /** With a punctual peer the receiver stays true to the peer's stream as well. */
  lemma StepSound(c: Connection, order: Order, e: Event, isn: u32, truth: seq<byte>)
    requires Inv(c, order, truth) && Enabled(c, e, isn, truth) && |truth| < TWO_64
    ensures Next(c, e).receiver.Sound(truth)
  {
    match e
    case Segment(seg, a) =>
      SegmentStage(c, order, seg);
      if seg.header.rst { SoundIgnoresError(c.receiver, Next(c, e).receiver, truth); }
      else { SegmentKeepsSound(c.receiver, seg, a, isn, truth); }
      hide Closing, Receiver.Sound, Receiver.SegmentReceived;
    case Tick(ms) => TickStage(c, order, ms); SoundIgnoresError(c.receiver, Next(c, e).receiver, truth); hide Closing, Receiver.Sound;
    case AppRead(n) =>
    case Close => CloseStage(c, order); SoundIgnoresError(c.receiver, Next(c, e).receiver, truth); hide Closing, Receiver.Sound;
    case _ => AppStage(c, order, e); hide Closing, Receiver.Sound;
  }

  lemma StepInv(c: Connection, order: Order, e: Event, isn: u32, truth: seq<byte>)
    requires Inv(c, order, truth) && Enabled(c, e, isn, truth) && |truth| < TWO_64
    ensures Inv(Next(c, e), NextOrder(c, order, e), truth)
  {
    StepClosing(c, order, e);
    StepSound(c, order, e, isn, truth);
    hide Closing, Receiver.Sound;
  }

  lemma TickStays(c: Connection, ms: nat)
    requires Core(c) && c.active
    ensures c.Tick(ms).active <==> !GivesUp(c.sender, ms) && !c.Resent(ms).Finished()
  {
    TickSender(c.sender, ms);
    TickGivesUp(c.sender, ms);
    hide Sender.Tick, GivesUp, SenderRuns.BacksOff;
    RetransmitEffect(c.(sinceLast := c.sinceLast + ms, sender := c.sender.Tick(ms)));
    hide Connection.Retransmit, Sender.Valid, Connection.Finished;
  }

  /** Exactly four things end a connection: a reset, its destruction, the ninth
      expiry in a row, and a tick that finds both streams done and no reason to linger. */
  lemma StaysActive(c: Connection, e: Event)
    requires Core(c) && Possible(c, e)
    ensures Next(c, e).active <==>
            && c.active && !(e.Segment? && e.seg.header.rst) && !e.Close?
            && (e.Tick? ==> !GivesUp(c.sender, e.ms) && !c.Resent(e.ms).Finished())
  {
    if e.Tick? {
      if c.active { TickStays(c, e.ms); } else { TickKeepsInactive(c, e.ms); }
      hide Connection.Tick, Connection.Resent, GivesUp, Connection.Finished;
    }
  }

  lemma TickKeepsInactive(c: Connection, ms: nat)
    requires Core(c) && !c.active
    ensures !c.Tick(ms).active
  {
  }

  // ---- Runs -----------------------------------------------------------------------------------

  ghost function Step(c: Connection, e: Event): (d: Connection)
    requires Core(c) && Possible(c, e)
    ensures Core(d)
  {
    StepCore(c, e);
    Next(c, e)
  }

  ghost predicate PossibleRun(c: Connection, es: seq<Event>)
    requires Core(c)
    decreases |es|
  {
    es == [] || (Possible(c, es[0]) && PossibleRun(Step(c, es[0]), es[1..]))
  }

  ghost function Exec(c: Connection, es: seq<Event>): (d: Connection)
    requires Core(c) && PossibleRun(c, es)
    ensures Core(d)
    decreases |es|
  {
    if es == [] then c else Exec(Step(c, es[0]), es[1..])
  }

  ghost function ExecOrder(c: Connection, order: Order, es: seq<Event>): Order
    requires Core(c) && PossibleRun(c, es)
    decreases |es|
  {
    if es == [] then order else ExecOrder(Step(c, es[0]), NextOrder(c, order, es[0]), es[1..])
  }

  /** The timer over every run within the flow premise: while the connection is active at most eight
      retransmissions in a row were counted, and the timeout is the initial one doubled for each. */
  lemma {:induction false} TimerExact(c: Connection, es: seq<Event>)
    requires Core(c) && PossibleRun(c, es)
    ensures var d := Exec(c, es);
            && d.rtTimeout == c.rtTimeout
            && (d.active ==> d.sender.consecutive <= MAX_RETX_ATTEMPTS
                             && d.sender.rto == SenderRuns.Doubled(c.rtTimeout, d.sender.consecutive))
    decreases |es|
  {
    hide SenderRuns.Doubled;
    if es != [] {
      TimeoutStays(c, es[0]);
      TimerExact(Step(c, es[0]), es[1..]);
    }
  }

  lemma TimeoutStays(c: Connection, e: Event)
    requires c.WF() && c.sender.Valid() && Possible(c, e)
    ensures Next(c, e).rtTimeout == c.rtTimeout
  {
  }

  /** A connection that has become inactive never becomes active again. */
  lemma {:induction false} InactiveForever(c: Connection, es: seq<Event>)
    requires Core(c) && PossibleRun(c, es)
    ensures Exec(c, es).active ==> c.active
    decreases |es|
  {
    if es != [] {
      StaysActive(c, es[0]);
      InactiveForever(Step(c, es[0]), es[1..]);
    }
  }

  lemma {:induction false} RunClosing(c: Connection, order: Order, es: seq<Event>)
    requires Closing(c, order) && PossibleRun(c, es)
    ensures Closing(Exec(c, es), ExecOrder(c, order, es))
    decreases |es|
  {
    if es != [] {
      StepClosing(c, order, es[0]);
      RunClosing(Step(c, es[0]), NextOrder(c, order, es[0]), es[1..]);
    }
  }

  /** Clean close, over every run, whether or not the peer's FIN is punctual: when a connection has become inactive
      without an error its inbound stream has ended and its own FIN is acknowledged. It lingers unless
      the inbound stream ended first. */
  lemma CleanClose(c: Connection, order: Order, es: seq<Event>)
    requires Closing(c, order) && PossibleRun(c, es)
    ensures var d, first := Exec(c, es), ExecOrder(c, order, es);
            && (!d.active && !(d.sender.stream.error && d.receiver.window.out.error) ==>
                  d.receiver.window.out.ended && SenderRuns.RealPhase(d.sender) == SenderRuns.FIN_ACKED)
            && (d.linger <==> first != InboundFirst)
            && (first == InboundOpen ==> !d.InboundEnded())
  {
    RunClosing(c, order, es);
    SenderRuns.SummaryIsReal(Exec(c, es).sender);
    hide Exec, ExecOrder, PossibleRun;
  }

  ghost predicate EnabledRun(c: Connection, es: seq<Event>, isn: u32, truth: seq<byte>)
    requires Core(c)
    ensures EnabledRun(c, es, isn, truth) ==> PossibleRun(c, es)
    decreases |es|
  {
    es == [] || (Enabled(c, es[0], isn, truth) && EnabledRun(Step(c, es[0]), es[1..], isn, truth))
  }

  lemma {:induction false} RunInv(c: Connection, order: Order, es: seq<Event>, isn: u32, truth: seq<byte>)
    requires Inv(c, order, truth) && |truth| < TWO_64 && EnabledRun(c, es, isn, truth)
    ensures Inv(Exec(c, es), ExecOrder(c, order, es), truth)
    decreases |es|
  {
    if es != [] {
      StepInv(c, order, es[0], isn, truth);
      RunInv(Step(c, es[0]), NextOrder(c, order, es[0]), es[1..], isn, truth);
    }
  }

  /** With a punctual peer the inbound stream that has ended is the peer's whole stream, and a connection
      that has become inactive without an error has received it. */
  lemma CompleteClose(c: Connection, order: Order, es: seq<Event>, isn: u32, truth: seq<byte>)
    requires Inv(c, order, truth) && |truth| < TWO_64 && EnabledRun(c, es, isn, truth)
    ensures var d := Exec(c, es);
            && (d.receiver.window.out.ended ==> d.receiver.window.out.history == truth)
            && (!d.active && !(d.sender.stream.error && d.receiver.window.out.error) ==>
                  d.receiver.window.out.history == truth)
            && (ExecOrder(c, order, es) == InboundOpen <==> !d.InboundEnded())
  {
    RunInv(c, order, es, isn, truth);
    EndedExactly(Exec(c, es).receiver.window, truth);
    hide Exec, ExecOrder, EnabledRun;
  }

  lemma NewConnectionInv(rtTimeout: u16, isn: u32, sendCapacity: nat, receiveCapacity: nat, truth: seq<byte>)
    requires 0 < receiveCapacity
    ensures Inv(NewConnection(rtTimeout, isn, sendCapacity, receiveCapacity), InboundOpen, truth)
  {
  }
}
