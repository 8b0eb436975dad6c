/** When a connection sends again, gives up or stops lingering, by the clock of its events alone. */
module ConnectionTimes {
  import opened Basics
  import opened ByteStreams
  import opened Segments
  import opened Senders
  import SenderRuns
  import opened SenderClocks
  import Receivers
  import opened Connections
  import opened ConnectionRuns

  // ---- Retransmissions ------------------------------------------------------------------------

  /** Nothing is acknowledged, and the connection is not reset from either side. */
  predicate Quiet(e: Event) {
    (e.Segment? ==> !e.seg.header.rst && !e.seg.header.ack) && !e.Close?
  }

  /** The timetable: each timeout is twice the one before, and starts when that one has expired. Time is
      kept in 32 bits. */
  function Due(initial: u16, e: Event, k: Clock): Clock {
    if !e.Tick? then k
    else
      var now := (k.time + e.ms) % TWO_32;
      if now < SenderRuns.Doubled(initial, k.expiries) then Clock(now, k.expiries) else Clock(0, k.expiries + 1)
  }

  function Timetable(initial: u16, es: seq<Event>, k: Clock): Clock {
    if es == [] then k else Timetable(initial, es[1..], Due(initial, es[0], k))
  }

  /** An active connection with something outstanding that is sent again by the timetable. */
  ghost predicate Ticking(c: Connection, k: Clock) {
    && Core(c) && c.active && Counted(c.sender)
    && c.sender.consecutive == k.expiries && c.sender.elapsed == k.time
  }

  predicate Passive(e: SenderRuns.Event) {
    !e.Ack? && !e.Tick? && !e.Fail?
  }

  /** What passive events leave alone. */
  ghost predicate KeepsFront(s: Sender, t: Sender) {
    && s.outstanding != [] && t.outstanding != [] && t.outstanding[0] == s.outstanding[0]
    && t.window == s.window && t.consecutive == s.consecutive && t.elapsed == s.elapsed
  }

  lemma PassiveStep(s: Sender, e: SenderRuns.Event)
    requires s.Valid() && SenderRuns.Enabled(s, e) && Passive(e) && s.outstanding != []
    ensures KeepsFront(s, SenderRuns.Step(s, e))
  {
    if e.Fill? {
      FillSameTimer(s);
      FillWindowExact(s);
      hide Sender.FillWindow, Sender.Conserves, Chain, Total, Minus16;
      assert s.FillWindow().outstanding[0] == s.outstanding[0];
    }
  }

  lemma {:induction false} PassiveRun(s: Sender, es: seq<SenderRuns.Event>)
    requires s.Valid() && SenderRuns.EnabledRun(s, es) && s.outstanding != []
    requires forall e | e in es :: Passive(e)
    ensures KeepsFront(s, SenderRuns.Exec(s, es))
    decreases |es|
  {
    hide SenderRuns.Step, Sender.Valid;
    if es != [] {
      PassiveStep(s, es[0]);
      PassiveRun(SenderRuns.Step(s, es[0]), es[1..]);
    }
  }

  lemma QuietIsPassive(c: Connection, e: Event)
    requires c.WF() && c.sender.Valid() && Possible(c, e) && Quiet(e) && !e.Tick?
    ensures forall x | x in SenderEvents(c, e) :: Passive(x)
  {
  }

  lemma QuietTicking(c: Connection, e: Event, k: Clock)
    requires Ticking(c, k) && Possible(c, e) && Quiet(e) && !e.Tick?
    ensures Ticking(Step(c, e), k)
  {
    Ready(c);
    QuietIsPassive(c, e);
    var q := EventEffect(c, e);
    StaysActive(c, e);
    hide Core, SenderEvents, Next, Drained, Outgoing, Sender.Valid;
    PassiveRun(c.sender, SenderEvents(c, e));
  }

  lemma StillOutstanding(s: Sender, ms: nat)
    requires s.Valid() && s.outstanding != []
    ensures s.Tick(ms).Valid() && !SenderRuns.OutboundEnded(s.Tick(ms)) && s.Tick(ms).inFlight == s.inFlight != 0
  {
    SenderRuns.NothingInFlight(s);
    SenderRuns.TickValid(s, ms);
    hide Sender.Conserves;
  }

  lemma NotFinished(c: Connection, ms: nat)
    requires Core(c) && c.sender.outstanding != []
    ensures !c.Resent(ms).Finished()
  {
    StillOutstanding(c.sender, ms);
    RetransmitTicks(c, ms);
    hide Connection.Resent, SenderRuns.BacksOff, Sender.Conserves;
  }

  /** The sender after a tick, by the timetable. */
  lemma TickSchedule(s: Sender, ms: nat, k: Clock)
    requires s.Valid() && SenderRuns.BacksOff(s) && Counted(s)
    requires s.consecutive == k.expiries <= MAX_RETX_ATTEMPTS && s.elapsed == k.time && s.out == []
    ensures var t, k' := s.Tick(ms), Due(s.initialRto, Tick(ms), k);
            && Counted(t) && t.consecutive == k'.expiries && t.elapsed == k'.time
            && t.out == (if k'.expiries == k.expiries then [] else [s.outstanding[0]])
            && (GivesUp(s, ms) <==> k'.expiries > MAX_RETX_ATTEMPTS)
  {
    hide SenderRuns.Doubled, Sender.Conserves;
  }

  /** With nothing acknowledged, a tick sends the oldest segment again exactly when the time since the
      last expiry has reached the timeout; and the ninth time it is sent as a reset, and is the last. */
  lemma TickOnTime(c: Connection, ms: nat, k: Clock)
    requires Ticking(c, k)
    ensures var d, k' := c.Tick(ms), Due(c.rtTimeout, Tick(ms), k);
            && d.WF()
            && d.out == c.out + Outgoing(d, if k'.expiries == k.expiries then [] else [c.sender.outstanding[0]],
                                         k'.expiries > MAX_RETX_ATTEMPTS)
            && (if k'.expiries <= MAX_RETX_ATTEMPTS then Ticking(d, k')
                else !d.active && d.sender.stream.error && d.receiver.window.out.error)
  {
    var s, k' := c.sender, Due(c.rtTimeout, Tick(ms), k);
    var t := s.Tick(ms);
    TickSchedule(s, ms, k);
    TickGivesUp(s, ms);
    NotFinished(c, ms);
    TickStays(c, ms);
    TickEffect(c, ms, t);
    TickCore(c, ms);
    TickSenderIs(c, ms);
    assert TooMany(s, ms) <==> k'.expiries > MAX_RETX_ATTEMPTS;
    hide Core, Sender.Tick, Sender.Valid, Connection.Tick, Outgoing, Yields, SenderRuns.BacksOff, GivesUp, TooMany, Due;
    if k'.expiries > MAX_RETX_ATTEMPTS { TickErrors(c, ms); }
  }

  lemma TickSenderIs(c: Connection, ms: nat)
    requires Core(c)
    ensures var t, u := c.sender.Tick(ms), c.Tick(ms).sender;
            u == t.(out := [], stream := t.stream.(error := u.stream.error))
  {
    TickSender(c.sender, ms);
    hide Sender.Tick, SenderRuns.BacksOff;
    RetransmitEffect(c.(sinceLast := c.sinceLast + ms, sender := c.sender.Tick(ms)));
    hide Connection.Retransmit, Connection.Finished, Sender.Valid;
  }

  lemma TickErrors(c: Connection, ms: nat)
    requires Core(c) && TooMany(c.sender, ms)
    ensures c.Tick(ms).sender.stream.error && c.Tick(ms).receiver.window.out.error
  {
    TickSender(c.sender, ms);
    hide Sender.Tick, SenderRuns.BacksOff;
    RetransmitEffect(c.(sinceLast := c.sinceLast + ms, sender := c.sender.Tick(ms)));
    hide Connection.Retransmit, Connection.Finished, Sender.Valid;
  }

  lemma {:induction false} TimetableGrows(initial: u16, es: seq<Event>, k: Clock)
    ensures k.expiries <= Timetable(initial, es, k).expiries
  {
    hide SenderRuns.Doubled;
    if es != [] { TimetableGrows(initial, es[1..], Due(initial, es[0], k)); }
  }

  lemma TickingStep(c: Connection, e: Event, k: Clock)
    requires Ticking(c, k) && Possible(c, e) && Quiet(e)
    ensures var k' := Due(c.rtTimeout, e, k);
            && Step(c, e).rtTimeout == c.rtTimeout
            && (if k'.expiries <= MAX_RETX_ATTEMPTS then Ticking(Step(c, e), k') else !Step(c, e).active)
  {
    TimeoutStays(c, e);
    if e.Tick? {
      TickOnTime(c, e.ms, k);
    } else {
      QuietTicking(c, e, k);
      assert k.expiries <= MAX_RETX_ATTEMPTS;
    }
    hide Connection.Tick, Outgoing, Core;
  }

  /** The timetable over every run in which nothing is acknowledged, computed from the events alone: the
      k-th retransmission comes at the first tick at which the time since the one before reaches the
      initial timeout doubled k - 1 times, and the connection lasts exactly until the ninth. */
  lemma {:induction false} SentByTimetable(c: Connection, es: seq<Event>, k: Clock)
    requires Ticking(c, k) && PossibleRun(c, es) && forall e | e in es :: Quiet(e)
    ensures var d, k' := Exec(c, es), Timetable(c.rtTimeout, es, k);
            && (d.active <==> k'.expiries <= MAX_RETX_ATTEMPTS)
            && (d.active ==> Ticking(d, k'))
    decreases |es|
  {
    if es == [] {
      assert k.expiries <= MAX_RETX_ATTEMPTS;
    } else {
      var d, k' := Step(c, es[0]), Due(c.rtTimeout, es[0], k);
      TickingStep(c, es[0], k);
      hide Ticking, Due, Quiet, Possible;
      if k'.expiries <= MAX_RETX_ATTEMPTS {
        SentByTimetable(d, es[1..], k');
      } else {
        TimetableGrows(c.rtTimeout, es[1..], k');
        InactiveForever(d, es[1..]);
      }
    }
  }

  lemma FirstFill(isn: u32, capacity: nat, rto: u16)
    ensures var s := Closed(isn, capacity, rto).FillWindow();
            && s.Valid() && s.outstanding != [] && s.outstanding[0].header.syn
            && s.consecutive == 0 && s.elapsed == 0 && s.rto == rto && s.initialRto == rto
  {
    FillWindowExact(Closed(isn, capacity, rto));
  }

  lemma ConnectedSender(c: Connection)
    requires c.WF() && c.sender.stream.WF()
    ensures var t := c.Flushed().sender; t == c.sender.FillWindow().(out := [])
    ensures c.Flushed().active == c.active
  {
  }

  /** A new connection that is told to connect is on the timetable from the start: its SYN is sent again
      until it is acknowledged, or eight times. */
  lemma ConnectTicks(rtTimeout: u16, isn: u32, sendCapacity: nat, receiveCapacity: nat)
    requires 0 < receiveCapacity
    ensures var c := NewConnection(rtTimeout, isn, sendCapacity, receiveCapacity);
            Core(c) && Ticking(Step(c, Connect), Clock(0, 0))
  {
    var c := NewConnection(rtTimeout, isn, sendCapacity, receiveCapacity);
    NewConnectionInv(rtTimeout, isn, sendCapacity, receiveCapacity, []);
    FirstFill(isn, sendCapacity, rtTimeout);
    ConnectedSender(c);
    StepCore(c, Connect);
    hide Sender.FillWindow, Sender.Valid, Connection.Flushed, SenderRuns.BacksOff;
  }

  // ---- Lingering ------------------------------------------------------------------------------

  /** The time ticked since the last segment arrived. */
  function Silence(es: seq<Event>, n: nat): nat {
    if es == [] then n
    else Silence(es[1..], if es[0].Segment? then 0 else if es[0].Tick? then n + es[0].ms else n)
  }

  lemma StepSilence(c: Connection, e: Event)
    requires c.WF() && c.sender.Valid() && Possible(c, e)
    ensures Next(c, e).sinceLast == if e.Segment? then 0 else if e.Tick? then c.sinceLast + e.ms else c.sinceLast
  {
    hide Sender.FillWindow, Sender.AckReceived, Sender.Tick, Connection.Stamp, Receivers.Receiver.SegmentReceived;
  }

  lemma {:induction false} SilenceExact(c: Connection, es: seq<Event>)
    requires Core(c) && PossibleRun(c, es)
    ensures Exec(c, es).sinceLast == Silence(es, c.sinceLast)
    decreases |es|
  {
    if es != [] {
      StepSilence(c, es[0]);
      SilenceExact(Step(c, es[0]), es[1..]);
    }
  }

  lemma {:induction false} SilenceSnoc(es: seq<Event>, ms: nat, n: nat)
    ensures Silence(es + [Tick(ms)], n) == Silence(es, n) + ms
    decreases |es|
  {
    if es == [] {
      assert es + [Tick(ms)] == [Tick(ms)] && [Tick(ms)][1..] == [];
    } else {
      SilenceSnoc(es[1..], ms, if es[0].Segment? then 0 else if es[0].Tick? then n + es[0].ms else n);
      assert (es + [Tick(ms)])[1..] == es[1..] + [Tick(ms)];
    }
  }

  lemma FinishedMeans(c: Connection, ms: nat)
    requires Core(c)
    ensures c.Resent(ms).Finished() <==>
            && c.InboundEnded() && SenderRuns.RealPhase(c.sender) == SenderRuns.FIN_ACKED
            && (!c.linger || c.sinceLast + ms >= 10 * c.rtTimeout)
  {
    RetransmitTicks(c, ms);
    SenderRuns.SummaryIsReal(c.sender);
    ResentSince(c, ms);
    hide Connection.Resent, SenderRuns.BacksOff, Sender.Conserves, SenderRuns.RealPhase, SenderRuns.Summary;
  }

  lemma ResentSince(c: Connection, ms: nat)
    requires Core(c)
    ensures c.Resent(ms).sinceLast == c.sinceLast + ms
  {
    hide Sender.Tick, Connection.Stamp;
  }

  /** After any run, a tick ends an active connection that does not give up exactly when the inbound
      stream is complete, the own FIN is acknowledged, and either the inbound stream ended first or no
      segment has arrived for ten times the initial timeout. */
  lemma LingersExactly(c: Connection, order: Order, es: seq<Event>, ms: nat)
    requires Closing(c, order) && PossibleRun(c, es)
    requires Exec(c, es).active && !GivesUp(Exec(c, es).sender, ms)
    ensures var d := Exec(c, es);
            !d.Tick(ms).active <==>
              && d.InboundEnded() && SenderRuns.RealPhase(d.sender) == SenderRuns.FIN_ACKED
              && (ExecOrder(c, order, es) == InboundFirst || Silence(es + [Tick(ms)], c.sinceLast) >= 10 * c.rtTimeout)
  {
    var d := Exec(c, es);
    SilenceExact(c, es);
    SilenceSnoc(es, ms, c.sinceLast);
    Connections.TimerExact(c, es);
    CleanClose(c, order, es);
    TickStays(d, ms);
    FinishedMeans(d, ms);
    hide Exec, ExecOrder, PossibleRun, Connection.Tick, Connection.Resent, Connection.Finished, Core, GivesUp, SenderRuns.RealPhase;
  }
}
