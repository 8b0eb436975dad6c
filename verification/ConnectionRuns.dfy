/** A connection seen from outside: how it drives its sender, what it sends, and when. */
module ConnectionRuns {
  import opened Basics
  import opened ByteStreams
  import Reassembly
  import opened Segments
  import opened Senders
  import SenderRuns
  import opened SenderClocks
  import Receivers
  import EndToEnd
  import opened Connections

  type SenderEvent = SenderRuns.Event

  // ---- The sender's part ----------------------------------------------------------------------

  /** Filling the window, with an empty segment if that sends nothing. */
  function AnswerEvents(s: Sender): seq<SenderEvent>
    requires s.stream.WF()
  {
    [SenderRuns.Fill] + (if s.FillWindow().out == [] then [SenderRuns.Empty] else []) + [SenderRuns.Drain]
  }

  /** What a segment makes the connection do to its sender: an acknowledgement is passed on, and what
      takes sequence numbers is answered. */
  function SegmentEvents(c: Connection, seg: TCPSegment): seq<SenderEvent>
    requires c.WF() && (seg.header.rst || c.receiver.Flow(seg))
  {
    if seg.header.rst then [SenderRuns.Fail]
    else
      (if seg.header.ack then [SenderRuns.Ack(seg.header.ackno, seg.header.win)] + [SenderRuns.Drain] else [])
      + (if 0 < seg.Length() then AnswerEvents(c.Reached(seg).Acked(seg).sender) else [])
  }

  /** The tick sends again, and that is one retransmission too many. */
  predicate TooMany(s: Sender, ms: nat)
    requires s.timer ==> s.outstanding != []
  {
    s.Tick(ms).out != [] && s.Tick(ms).consecutive > MAX_RETX_ATTEMPTS
  }

  /** What an event makes the connection do to its sender. */
  ghost function SenderEvents(c: Connection, e: Event): seq<SenderEvent>
    requires c.WF() && c.sender.Valid() && Possible(c, e)
  {
    match e
    case Segment(seg, _) => SegmentEvents(c, seg)
    case Tick(ms) =>
      [SenderRuns.Tick(ms)] + (if TooMany(c.sender, ms) then [SenderRuns.Fail] else []) + [SenderRuns.Drain]
    case Connect => [SenderRuns.Fill] + [SenderRuns.Drain]
    case Write(data) => if data == [] then [] else [SenderRuns.Write(data)] + [SenderRuns.Fill] + [SenderRuns.Drain]
    case EndInput => [SenderRuns.EndInput] + [SenderRuns.Fill] + [SenderRuns.Drain]
    case AppRead(n) => []
    case Close => if c.active then [SenderRuns.Fail] + [SenderRuns.Empty] + [SenderRuns.Drain] else []
  }

  /** The segments that are taken off the sender's queue in a run. */
  ghost function Drained(s: Sender, es: seq<SenderEvent>): seq<TCPSegment>
    requires s.Valid() && SenderRuns.EnabledRun(s, es)
    decreases |es|
  {
    if es == [] then []
    else (if es[0].Drain? then s.out else []) + Drained(SenderRuns.Step(s, es[0]), es[1..])
  }

  /** The events form a run from `s` to `t` in which the segments `q` are taken. */
  ghost predicate Yields(s: Sender, es: seq<SenderEvent>, t: Sender, q: seq<TCPSegment>) {
    SenderRuns.Reaches(s, es, t) && Drained(s, es) == q
  }

  lemma Nothing(s: Sender)
    requires s.Valid()
    ensures Yields(s, [], s, [])
  {
  }

  lemma One(s: Sender, e: SenderEvent)
    requires s.Valid() && SenderRuns.Enabled(s, e)
    ensures Yields(s, [e], SenderRuns.Step(s, e), if e.Drain? then s.out else [])
  {
    hide SenderRuns.Step, Sender.Valid;
    SenderRuns.One(s, e);
    assert [e][1..] == [] && Drained(SenderRuns.Step(s, e), []) == [];
    assert s.out + [] == s.out;
  }

  lemma {:induction false} Joined(s: Sender, es: seq<SenderEvent>, t: Sender, q: seq<TCPSegment>,
                                  es': seq<SenderEvent>, u: Sender, q': seq<TCPSegment>)
    requires Yields(s, es, t, q) && Yields(t, es', u, q')
    ensures Yields(s, es + es', u, q + q')
    decreases |es|
  {
    hide SenderRuns.Step, Sender.Valid;
    if es == [] {
      assert es + es' == es' && q + q' == q';
    } else {
      var s1 := SenderRuns.Step(s, es[0]);
      Joined(s1, es[1..], t, Drained(s1, es[1..]), es', u, q');
      assert (es + es')[1..] == es[1..] + es';
    }
  }

  /** One more event that takes nothing. */
  lemma Then(s: Sender, es: seq<SenderEvent>, t: Sender, e: SenderEvent, u: Sender)
    requires Yields(s, es, t, []) && t.Valid() && SenderRuns.Enabled(t, e) && SenderRuns.Step(t, e) == u && !e.Drain?
    ensures Yields(s, es + [e], u, [])
  {
    hide SenderRuns.Step, Sender.Valid, Yields;
    var none: seq<TCPSegment> := [];
    One(t, e);
    Joined(s, es, t, none, [e], u, none);
    assert none + none == none;
  }

  /** In the end everything that is queued is taken. */
  lemma ThenDrain(s: Sender, es: seq<SenderEvent>, t: Sender)
    requires Yields(s, es, t, []) && t.Valid()
    ensures Yields(s, es + [SenderRuns.Drain], t.(out := []), t.out)
  {
    hide Sender.Valid, Yields;
    One(t, SenderRuns.Drain);
    Joined(s, es, t, [], [SenderRuns.Drain], t.(out := []), t.out);
    assert [] + t.out == t.out;
  }

  lemma FillYields(s: Sender, es: seq<SenderEvent>, t: Sender)
    requires Yields(s, es, t, []) && t.Valid()
    ensures var f := t.FillWindow();
            && f.Valid() && Yields(s, es + [SenderRuns.Fill], f, [])
            && Yields(s, es + [SenderRuns.Fill] + [SenderRuns.Drain], f.(out := []), f.out)
  {
    FillWindowExact(t);
    hide Sender.FillWindow, Sender.Conserves, Yields, Advances, NewSegments;
    Then(s, es, t, SenderRuns.Fill, t.FillWindow());
    ThenDrain(s, es + [SenderRuns.Fill], t.FillWindow());
  }

  /** Filling from the very start. */
  lemma FlushYields(s: Sender)
    requires s.Valid()
    ensures Yields(s, [SenderRuns.Fill] + [SenderRuns.Drain], s.FillWindow().(out := []), s.FillWindow().out)
  {
    Nothing(s);
    hide Sender.FillWindow, Sender.Valid, Yields;
    FillYields(s, [], s);
    assert [] + [SenderRuns.Fill] == [SenderRuns.Fill];
  }

  function Answering(s: Sender): Sender
    requires s.stream.WF()
  {
    if s.FillWindow().out == [] then s.FillWindow().SendEmpty() else s.FillWindow()
  }

  lemma AnswerYields(s: Sender)
    requires s.Valid()
    ensures Answering(s).out != []
    ensures Yields(s, AnswerEvents(s), Answering(s).(out := []), Answering(s).out)
  {
    Nothing(s);
    var f := s.FillWindow();
    FillYields(s, [], s);
    assert [] + [SenderRuns.Fill] == [SenderRuns.Fill];
    if f.out == [] {
      assert f.SendEmpty().Valid();
      hide Sender.FillWindow, Sender.Valid, Yields;
      Then(s, [SenderRuns.Fill], f, SenderRuns.Empty, f.SendEmpty());
      ThenDrain(s, [SenderRuns.Fill] + [SenderRuns.Empty], f.SendEmpty());
    } else {
      assert [SenderRuns.Fill] + [] == [SenderRuns.Fill];
    }
  }

  lemma AckYields(s: Sender, ackno: u32, win: u16)
    requires s.Valid()
    ensures var t := s.AckReceived(ackno, win);
            Yields(s, [SenderRuns.Ack(ackno, win)] + [SenderRuns.Drain], t.(out := []), t.out)
  {
    SenderRuns.AckKeepsValid(s, ackno, win);
    hide Sender.AckReceived, Sender.Conserves, Yields;
    One(s, SenderRuns.Ack(ackno, win));
    ThenDrain(s, [SenderRuns.Ack(ackno, win)], s.AckReceived(ackno, win));
  }

  // ---- What is sent ---------------------------------------------------------------------------

  function Reset(seg: TCPSegment): TCPSegment {
    seg.(header := seg.header.(rst := true))
  }

  /** The segments `q` as the connection sends them: completed, and as resets if it gives up. */
  function Outgoing(d: Connection, q: seq<TCPSegment>, reset: bool): seq<TCPSegment>
    requires d.receiver.window.WF()
  {
    if q == [] then []
    else [if reset then Reset(d.Stamp(q[0])) else d.Stamp(q[0])] + Outgoing(d, q[1..], reset)
  }

  lemma {:induction false} OutgoingStamps(c: Connection, d: Connection, q: seq<TCPSegment>)
    requires c.receiver.window.WF() && d.receiver == c.receiver
    ensures c.StampAll(q) == Outgoing(d, q, false)
  {
    if q != [] { OutgoingStamps(c, d, q[1..]); }
  }

  lemma {:induction false} OutgoingAppend(d: Connection, q: seq<TCPSegment>, r: seq<TCPSegment>)
    requires d.receiver.window.WF()
    ensures Outgoing(d, q + r, false) == Outgoing(d, q, false) + Outgoing(d, r, false)
  {
    hide Connection.Stamp, Reassembly.Window.WF;
    if q == [] {
      assert q + r == r;
    } else {
      OutgoingAppend(d, q[1..], r);
      assert (q + r)[1..] == q[1..] + r;
      var x := d.Stamp(q[0]);
      assert [x] + (Outgoing(d, q[1..], false) + Outgoing(d, r, false)) == [x] + Outgoing(d, q[1..], false) + Outgoing(d, r, false);
    }
  }

  /** From `c` to `d` the sender went through `es`, and what it gave was sent, each segment once, in
      order and completed. */
  ghost predicate Effect(c: Connection, es: seq<SenderEvent>, d: Connection, q: seq<TCPSegment>, reset: bool) {
    && d.WF() && Yields(c.sender, es, d.sender, q)
    && d.out == c.out + Outgoing(d, q, reset)
  }

  /** The connection gives up, or is destroyed. */
  ghost predicate Resetting(c: Connection, e: Event)
    requires c.sender.Valid()
  {
    (e.Tick? && TooMany(c.sender, e.ms)) || e.Close?
  }

  lemma RealSendEffect(c: Connection, t: Sender, es: seq<SenderEvent>)
    requires c.WF() && t.stream.WF() && Yields(c.sender, es, t.(out := []), t.out)
    ensures Effect(c, es, c.(sender := t).RealSend(), t.out, false)
  {
    hide Yields;
    OutgoingStamps(c.(sender := t), c.(sender := t).RealSend(), t.out);
  }

  lemma AckedEffect(c: Connection, seg: TCPSegment)
    requires c.WF() && c.sender.Valid() && seg.header.ack
    ensures var h := seg.header;
            Effect(c, [SenderRuns.Ack(h.ackno, h.win)] + [SenderRuns.Drain], c.Acked(seg), c.sender.AckReceived(h.ackno, h.win).out, false)
    ensures c.Acked(seg).sender.Valid()
  {
    var h := seg.header;
    AckYields(c.sender, h.ackno, h.win);
    SenderRuns.AckKeepsValid(c.sender, h.ackno, h.win);
    hide Sender.AckReceived, Effect, Yields;
    assert c.Acked(seg).sender.Valid();
    RealSendEffect(c, c.sender.AckReceived(h.ackno, h.win), [SenderRuns.Ack(h.ackno, h.win)] + [SenderRuns.Drain]);
  }

  lemma AnsweredEffect(c: Connection, seg: TCPSegment)
    requires c.WF() && c.sender.Valid() && 0 < seg.Length()
    ensures Effect(c, AnswerEvents(c.sender), c.Answered(seg), Answering(c.sender).out, false)
    ensures Answering(c.sender).out != []
  {
    AnswerYields(c.sender);
    FillKeepsWF(c.sender);
    hide Sender.FillWindow, Effect, Yields, AnswerEvents;
    RealSendEffect(c, Answering(c.sender), AnswerEvents(c.sender));
  }

  lemma EffectsJoin(c: Connection, es: seq<SenderEvent>, d: Connection, q: seq<TCPSegment>,
                    es': seq<SenderEvent>, d': Connection, q': seq<TCPSegment>)
    requires Effect(c, es, d, q, false) && Effect(d, es', d', q', false) && d'.receiver == d.receiver
    ensures Effect(c, es + es', d', q + q', false)
  {
    hide Yields, Outgoing, Connection.WF;
    Joined(c.sender, es, d.sender, q, es', d'.sender, q');
    WindowOk(d);
    WindowOk(d');
    OutgoingAppend(d', q, q');
    OutgoingSame(d, d', q, false);
    Regroup(c.out, Outgoing(d', q, false), Outgoing(d', q', false));
  }

  lemma WindowOk(c: Connection)
    requires c.WF()
    ensures c.receiver.window.WF() && c.sender.stream.WF()
  {
  }

  lemma Regroup(a: seq<TCPSegment>, b: seq<TCPSegment>, c: seq<TCPSegment>)
    ensures a + b + c == a + (b + c)
  {
  }

  lemma {:induction false} OutgoingSame(c: Connection, d: Connection, q: seq<TCPSegment>, reset: bool)
    requires c.receiver.window.WF() && d.receiver == c.receiver
    ensures Outgoing(c, q, reset) == Outgoing(d, q, reset)
  {
    if q != [] { OutgoingSame(c, d, q[1..], reset); }
  }

  lemma NoEffect(c: Connection)
    requires c.WF() && c.sender.Valid()
    ensures Effect(c, [], c, [], false)
  {
    Nothing(c.sender);
    assert c.out + [] == c.out;
  }

  lemma ReachedFrame(c: Connection, seg: TCPSegment)
    requires c.WF() && c.receiver.Flow(seg)
    ensures var d := c.Reached(seg);
            d.sender == c.sender && d.out == c.out && d.receiver == c.receiver.SegmentReceived(seg)
  {
  }

  lemma AckedFrame(c: Connection, seg: TCPSegment)
    requires c.WF()
    ensures c.Acked(seg).receiver == c.receiver && c.Answered(seg).receiver == c.receiver
    ensures !seg.header.ack ==> c.Acked(seg) == c
    ensures seg.Length() == 0 ==> c.Answered(seg) == c
  {
  }

  /** What is done on an acknowledgement, and what is done to answer. */
  lemma SegmentEffect(c: Connection, seg: TCPSegment) returns (q: seq<TCPSegment>)
    requires Core(c) && !seg.header.rst && c.receiver.Flow(seg)
    ensures Effect(c, SegmentEvents(c, seg), c.SegmentReceived(seg), q, false)
    ensures c.SegmentReceived(seg).receiver == c.receiver.SegmentReceived(seg)
    ensures 0 < seg.Length() ==> q != []
    ensures seg.Length() == 0 && !seg.header.ack ==> q == []
  {
    var r := c.Reached(seg);
    ReachedFrame(c, seg);
    var k, es, q0 := r.Acked(seg), [], [];
    AckedFrame(r, seg);
    AckedFrame(k, seg);
    NoEffect(r);
    if seg.header.ack {
      AckedEffect(r, seg);
      es := [SenderRuns.Ack(seg.header.ackno, seg.header.win)] + [SenderRuns.Drain];
      q0 := r.sender.AckReceived(seg.header.ackno, seg.header.win).out;
    }
    assert Effect(r, es, k, q0, false) && k.sender.Valid();
    hide Connection.Reached, Connection.Acked, Connection.Answered, Sender.AckReceived, AnswerEvents, Answering, Core, Sender.Valid;
    q := q0;
    if 0 < seg.Length() {
      AnsweredEffect(k, seg);
      q := q0 + Answering(k.sender).out;
      EffectsJoin(r, es, k, q0, AnswerEvents(k.sender), k.Answered(seg), Answering(k.sender).out);
    } else {
      assert es + [] == es;
    }
  }

  lemma FlushedEffect(c: Connection, t: Sender, es: seq<SenderEvent>)
    requires c.WF() && t.Valid() && Yields(c.sender, es, t, [])
    ensures Effect(c, es + [SenderRuns.Fill] + [SenderRuns.Drain], c.(sender := t).Flushed(), t.FillWindow().out, false)
  {
    FillYields(c.sender, es, t);
    FillKeepsWF(t);
    hide Sender.FillWindow, Effect, Yields, Sender.Valid;
    RealSendEffect(c, t.FillWindow(), es + [SenderRuns.Fill] + [SenderRuns.Drain]);
  }

  lemma AppEffect(c: Connection, e: Event) returns (q: seq<TCPSegment>)
    requires Core(c) && Possible(c, e) && (e.Connect? || e.Write? || e.EndInput?)
    ensures Effect(c, SenderEvents(c, e), Next(c, e), q, false)
  {
    var s := c.sender;
    q := [];
    Nothing(s);
    var t := AppSender(s, e);
    assert t.Valid() by { assert t.Sent() == s.Sent(); }
    if e.Write? && e.data == [] {
      NoEffect(c);
    } else {
      hide Effect, Yields, Core, Sender.FillWindow, Sender.Conserves;
      match e {
        case Connect =>
          FlushedEffect(c, s, []);
          assert [] + [SenderRuns.Fill] == [SenderRuns.Fill];
        case Write(data) =>
          One(s, SenderRuns.Write(data));
          FlushedEffect(c, t, [SenderRuns.Write(data)]);
        case EndInput =>
          One(s, SenderRuns.EndInput);
          FlushedEffect(c, t, [SenderRuns.EndInput]);
      }
      q := t.FillWindow().out;
    }
  }

  lemma OutgoingOne(d: Connection, seg: TCPSegment, reset: bool)
    requires d.receiver.window.WF()
    ensures Outgoing(d, [seg], reset) == [if reset then Reset(d.Stamp(seg)) else d.Stamp(seg)]
    ensures Outgoing(d, [], reset) == []
  {
    assert [seg][1..] == [];
  }

  lemma StampIgnoresError(c: Connection, d: Connection, seg: TCPSegment)
    requires c.receiver.window.WF()
    requires d.receiver == c.receiver.(window := c.receiver.window.(out := c.receiver.window.out.(error := d.receiver.window.out.error)))
    ensures c.Stamp(seg) == d.Stamp(seg)
  {
  }

  lemma TickYields(s: Sender, ms: nat)
    requires s.Valid() && s.out == []
    ensures var t := s.Tick(ms);
            && t.Valid() && |t.out| <= 1
            && Yields(s, [SenderRuns.Tick(ms)] + [] + [SenderRuns.Drain], t.(out := []), t.out)
            && Yields(s, [SenderRuns.Tick(ms)] + [SenderRuns.Fail] + [SenderRuns.Drain],
                      t.(out := [], stream := t.stream.(error := true)), t.out)
  {
    TickSender(s, ms);
    var t := s.Tick(ms);
    var u := t.(stream := t.stream.(error := true));
    assert u.Valid();
    hide Sender.Tick, Yields, Sender.Conserves, SenderRuns.BacksOff;
    One(s, SenderRuns.Tick(ms));
    assert [SenderRuns.Tick(ms)] + [] == [SenderRuns.Tick(ms)];
    ThenDrain(s, [SenderRuns.Tick(ms)], t);
    Then(s, [SenderRuns.Tick(ms)], t, SenderRuns.Fail, u);
    ThenDrain(s, [SenderRuns.Tick(ms)] + [SenderRuns.Fail], u);
  }

  lemma SendFrontOut(a: Connection, rst: bool)
    requires a.WF() && |a.sender.out| == 1
    ensures var b := a.SendFront(rst);
            && b.receiver == a.receiver && b.sender == a.sender.(out := [])
            && b.out == a.out + Outgoing(b, a.sender.out, rst)
  {
    var seg := a.sender.out[0];
    assert a.sender.out == [seg] && a.sender.out[1..] == [];
    OutgoingOne(a.SendFront(rst), seg, rst);
    hide Outgoing, Connection.WF;
  }

  /** What a retransmission sends. */
  ghost predicate Retransmitted(a: Connection, b: Connection, reset: bool) {
    && b.WF() && b.out == a.out + Outgoing(b, a.sender.out, reset)
    && b.sender == a.sender.(out := [], stream := a.sender.stream.(error := a.sender.stream.error || reset))
  }

  lemma RetransmitOut(a: Connection)
    requires a.WF() && |a.sender.out| <= 1
    ensures Retransmitted(a, a.Retransmit(), a.sender.out != [] && a.sender.consecutive > MAX_RETX_ATTEMPTS)
  {
    hide Connection.SendFront, Connection.Stamp;
    if a.sender.out == [] {
      assert a.out + [] == a.out;
    } else if a.sender.consecutive > MAX_RETX_ATTEMPTS {
      assert a.Aborted().WF();
      SendFrontOut(a.Aborted(), true);
      hide Outgoing;
    } else {
      SendFrontOut(a, false);
      hide Outgoing;
    }
  }

  lemma ResentEffect(c: Connection, ms: nat, s: Sender)
    requires Core(c) && s == c.sender.Tick(ms)
    ensures Effect(c, SenderEvents(c, Tick(ms)), c.Resent(ms), s.out, TooMany(c.sender, ms))
  {
    TickSender(c.sender, ms);
    TickYields(c.sender, ms);
    hide Sender.Tick, Yields, SenderRuns.BacksOff, Connection.Retransmit, Outgoing;
    RetransmitOut(c.(sinceLast := c.sinceLast + ms, sender := s));
    hide Sender.Valid;
  }

  lemma TickEffect(c: Connection, ms: nat, s: Sender)
    requires Core(c) && s == c.sender.Tick(ms)
    ensures Effect(c, SenderEvents(c, Tick(ms)), c.Tick(ms), s.out, TooMany(c.sender, ms))
  {
    ResentEffect(c, ms, s);
    hide Yields, Connection.Resent, Connection.Finished, SenderEvents, TooMany;
    OutgoingSame(c.Resent(ms), c.Tick(ms), s.out, TooMany(c.sender, ms));
    hide Outgoing, Sender.Valid;
  }

  lemma CloseYields(s: Sender)
    requires s.Valid() && s.out == []
    ensures var u := s.(stream := s.stream.(error := true));
            Yields(s, [SenderRuns.Fail] + [SenderRuns.Empty] + [SenderRuns.Drain], u, u.SendEmpty().out)
    ensures var u := s.(stream := s.stream.(error := true)); |u.SendEmpty().out| == 1
  {
    var u := s.(stream := s.stream.(error := true));
    assert u.Valid() && u.SendEmpty().Valid();
    hide Yields, Sender.Conserves;
    One(s, SenderRuns.Fail);
    Then(s, [SenderRuns.Fail], u, SenderRuns.Empty, u.SendEmpty());
    ThenDrain(s, [SenderRuns.Fail] + [SenderRuns.Empty], u.SendEmpty());
  }

  lemma CloseEffect(c: Connection) returns (q: seq<TCPSegment>)
    requires Core(c)
    ensures Effect(c, SenderEvents(c, Close), c.Close(), q, true)
    ensures c.active ==> |q| == 1
  {
    q := [];
    if c.active {
      CloseYields(c.sender);
      var d := c.SetErrors();
      q := d.sender.SendEmpty().out;
      OutgoingOne(c.Close(), q[0], true);
      StampIgnoresError(d, c.Close(), q[0]);
      hide Yields, Connection.Stamp, Outgoing, Sender.Valid, SenderRuns.BacksOff;
      assert q == [q[0]] && q[1..] == [];
    } else {
      Nothing(c.sender);
      assert c.out + [] == c.out;
    }
  }

  /** Every event of every connection: the sender goes through exactly these events, and everything it
      gives is sent, each segment once, in order, completed, and as a reset when the connection ends by it. */
  lemma EventEffect(c: Connection, e: Event) returns (q: seq<TCPSegment>)
    requires Core(c) && Possible(c, e)
    ensures Effect(c, SenderEvents(c, e), Next(c, e), q, Resetting(c, e))
  {
    Ready(c);
    hide Effect, SenderEvents, Core, Connection.WF, Sender.Conserves;
    match e
    case Segment(seg, _) =>
      if seg.header.rst { q := []; ResetEffect(c, e); } else { q := SegmentEffect(c, seg); SegmentEventsAre(c, e); }
    case Tick(ms) => TickEffect(c, ms, c.sender.Tick(ms)); q := c.sender.Tick(ms).out;
    case AppRead(n) => q := []; ReadEffect(c, n);
    case Close => q := CloseEffect(c);
    case _ => q := AppEffect(c, e);
  }

  lemma Ready(c: Connection)
    requires Core(c)
    ensures c.WF() && c.sender.Valid()
  {
  }

  lemma SegmentEventsAre(c: Connection, e: Event)
    requires c.WF() && c.sender.Valid() && Possible(c, e) && e.Segment?
    ensures SenderEvents(c, e) == SegmentEvents(c, e.seg)
  {
  }

  lemma ResetEffect(c: Connection, e: Event)
    requires Core(c) && Possible(c, e) && e.Segment? && e.seg.header.rst
    ensures Effect(c, SenderEvents(c, e), Next(c, e), [], false)
  {
    One(c.sender, SenderRuns.Fail);
    assert c.out + [] == c.out;
    hide Yields;
  }

  lemma ReadEffect(c: Connection, n: nat)
    requires Core(c)
    ensures Effect(c, SenderEvents(c, AppRead(n)), c.Read(n), [], false)
  {
    Nothing(c.sender);
    assert c.out + [] == c.out;
    hide Yields;
  }

  // ---- Answers --------------------------------------------------------------------------------

  /** The segment carries the acknowledgement, once there is one, and the window of the receiver. */
  predicate CarriesReply(seg: TCPSegment, r: Receivers.Receiver)
    requires r.window.WF()
  {
    var q := EndToEnd.ReplyOf(r);
    seg.header.win == q.win && (r.synReceived ==> seg.header.ack && seg.header.ackno == q.ackno)
  }

  lemma {:induction false} OutgoingReplies(d: Connection, q: seq<TCPSegment>, reset: bool, i: nat)
    requires d.receiver.window.WF() && i < |Outgoing(d, q, reset)|
    ensures CarriesReply(Outgoing(d, q, reset)[i], d.receiver)
  {
    StampIsReply(d, q[0]);
    hide Connection.Stamp, Receivers.Receiver.Ackno;
    if i != 0 { OutgoingReplies(d, q[1..], reset, i - 1); }
  }

  lemma {:induction false} OutgoingLength(d: Connection, q: seq<TCPSegment>, reset: bool)
    requires d.receiver.window.WF()
    ensures |Outgoing(d, q, reset)| == |q|
  {
    if q != [] { OutgoingLength(d, q[1..], reset); }
  }

  /** Whatever an event makes the connection send carries the receiver's newest word. */
  lemma EventReplies(c: Connection, e: Event, i: nat)
    requires Core(c) && Possible(c, e) && |c.out| <= i < |Next(c, e).out|
    ensures Next(c, e).receiver.window.WF() && CarriesReply(Next(c, e).out[i], Next(c, e).receiver)
  {
    var q := EventEffect(c, e);
    var d := Next(c, e);
    hide Yields, Core, Next, Resetting;
    WindowOk(d);
    OutgoingReplies(d, q, Resetting(c, e), i - |c.out|);
  }

  /** A segment that takes sequence numbers is answered, at least by an empty segment; one that takes
      none and acknowledges nothing is not. The sender was given the acknowledgement, if there was one,
      and then filled its window, if the segment took numbers. */
  lemma SegmentAnswered(c: Connection, seg: TCPSegment)
    requires Core(c) && !seg.header.rst && c.receiver.Flow(seg)
    ensures var d := c.SegmentReceived(seg);
            && c.out <= d.out
            && (0 < seg.Length() ==> |c.out| < |d.out|)
            && (seg.Length() == 0 && !seg.header.ack ==> d.out == c.out && d.sender == c.sender)
            && SenderRuns.Reaches(c.sender, SegmentEvents(c, seg), d.sender)
            && d.receiver == c.receiver.SegmentReceived(seg) && d.receiver.window.WF()
            && forall i | |c.out| <= i < |d.out| :: CarriesReply(d.out[i], d.receiver)
  {
    var q := SegmentEffect(c, seg);
    var d := c.SegmentReceived(seg);
    Ready(c);
    if seg.Length() == 0 && !seg.header.ack { SilentSegment(c, seg); }
    hide Core, Connection.SegmentReceived, SegmentEvents, SenderRuns.Reaches, Drained, CarriesReply;
    WindowOk(d);
    OutgoingLength(d, q, false);
    forall i | |c.out| <= i < |d.out|
      ensures CarriesReply(d.out[i], d.receiver)
    {
      OutgoingReplies(d, q, false, i - |c.out|);
    }
  }

  lemma SilentSegment(c: Connection, seg: TCPSegment)
    requires c.WF() && !seg.header.rst && c.receiver.Flow(seg) && seg.Length() == 0 && !seg.header.ack
    ensures c.SegmentReceived(seg).sender == c.sender && c.SegmentReceived(seg).out == c.out
  {
    ReachedFrame(c, seg);
    AckedFrame(c.Reached(seg), seg);
    hide Connection.Reached, Connection.Acked, Connection.Answered;
  }

  // ---- Runs -----------------------------------------------------------------------------------

  /** Everything a run of the connection makes it do to its sender. */
  ghost function Trace(c: Connection, es: seq<Event>): seq<SenderEvent>
    requires Core(c) && PossibleRun(c, es)
    decreases |es|
  {
    if es == [] then [] else SenderEvents(c, es[0]) + Trace(Step(c, es[0]), es[1..])
  }

  /** Over every run of a connection its sender has gone through a run of its own, so that what holds
      over every run of a sender holds inside every connection. */
  lemma {:induction false} RunTraced(c: Connection, es: seq<Event>)
    requires Core(c) && PossibleRun(c, es)
    ensures SenderRuns.Reaches(c.sender, Trace(c, es), Exec(c, es).sender)
    decreases |es|
  {
    hide SenderEvents, Possible, Drained, Outgoing;
    if es == [] {
      Nothing(c.sender);
    } else {
      var d := Step(c, es[0]);
      var q := EventEffect(c, es[0]);
      RunTraced(d, es[1..]);
      hide Core, SenderRuns.Reaches, SenderRuns.EnabledRun, SenderRuns.Exec;
      ReachesThrough(c.sender, SenderEvents(c, es[0]), d.sender, Trace(d, es[1..]), Exec(d, es[1..]).sender);
    }
  }

  lemma ReachesThrough(s: Sender, es: seq<SenderEvent>, t: Sender, es': seq<SenderEvent>, u: Sender)
    requires SenderRuns.Reaches(s, es, t) && SenderRuns.Reaches(t, es', u)
    ensures SenderRuns.Reaches(s, es + es', u)
  {
    Joined(s, es, t, Drained(s, es), es', u, Drained(t, es'));
  }

  /** The timer over every run of a connection, against what an onlooker has noted about its sender. */
  lemma TimerNoted(c: Connection, es: seq<Event>, k: Clock)
    requires Core(c) && PossibleRun(c, es) && SenderClocks.Agrees(c.sender, k)
    ensures SenderRuns.EnabledRun(c.sender, Trace(c, es))
    ensures SenderClocks.Agrees(Exec(c, es).sender, Notes(c.sender, Trace(c, es), k))
  {
    RunTraced(c, es);
    hide Core, Trace, Connections.Exec, PossibleRun, SenderClocks.Agrees, Notes, SenderRuns.Exec, SenderRuns.EnabledRun;
    SenderClocks.TimerExact(c.sender, Trace(c, es), k);
  }
}
