/** The retransmission timer against an onlooker who sees only what is sent and what is outstanding. */
module SenderClocks {
  import opened Basics
  import opened WrappingIntegers
  import opened ByteStreams
  import opened Segments
  import opened Senders
  import opened SenderRuns

  /** The time ticked since the timer was started, a segment was dropped or one was sent again, and the
      number of counted retransmissions since a segment was dropped. */
  datatype Clock = Clock(time: nat, expiries: nat)

  /** A retransmission is counted when the window is open or it is the SYN that is sent again. */
  predicate Counted(s: Sender) {
    s.outstanding != [] && (s.window != 0 || s.outstanding[0].header.syn)
  }

  /** A tick after which something more is queued has sent again. */
  ghost predicate Resends(s: Sender, e: Event)
    requires s.Valid() && Enabled(s, e)
  {
    e.Tick? && Step(s, e).out != s.out
  }

  /** The oldest outstanding number has moved up. */
  ghost predicate Dropped(s: Sender, e: Event)
    requires s.Valid() && Enabled(s, e)
  {
    s.Start() < Step(s, e).Start()
  }

  /** What the onlooker notes about one event. */
  ghost function Note(s: Sender, e: Event, k: Clock): Clock
    requires s.Valid() && Enabled(s, e)
  {
    if Dropped(s, e) then Clock(0, 0)
    else if Resends(s, e) then Clock(0, k.expiries + Bit(Counted(s)))
    else if s.outstanding == [] then Clock(0, k.expiries)
    else if e.Tick? then Clock(k.time + e.ms, k.expiries)
    else k
  }

  ghost function Notes(s: Sender, es: seq<Event>, k: Clock): Clock
    requires s.Valid() && EnabledRun(s, es)
    decreases |es|
  {
    if es == [] then k else Notes(Step(s, es[0]), es[1..], Note(s, es[0], k))
  }

  /** The sender's timer says what the onlooker has noted, in its 16 and 32 bits. */
  ghost predicate Agrees(s: Sender, k: Clock) {
    && s.consecutive == k.expiries % TWO_16
    && s.rto == Doubled(s.initialRto, k.expiries) % TWO_32
    && (s.outstanding != [] ==> s.elapsed == k.time % TWO_32)
  }

  // ---- Ticks ----------------------------------------------------------------------------------

  lemma AddMod32(a: nat, b: nat)
    ensures (a % TWO_32 + b) % TWO_32 == (a + b) % TWO_32
  {
    var q := a / TWO_32;
    assert a % TWO_32 + b == a + b - q * 0x1_0000_0000;
  }

  lemma DoubleMod32(a: nat)
    ensures 2 * (a % TWO_32) % TWO_32 == 2 * a % TWO_32
  {
    var q := a / TWO_32;
    assert 2 * (a % TWO_32) == 2 * a - 2 * q * 0x1_0000_0000;
  }

  lemma CountMod16(a: nat)
    ensures (a % TWO_16 + 1) % TWO_16 == (a + 1) % TWO_16
  {
    var q := a / TWO_16;
    assert a % TWO_16 + 1 == a + 1 - q * 0x1_0000;
  }

  lemma DoubledStep(initial: u16, n: nat)
    ensures Doubled(initial, n + 1) == 2 * Doubled(initial, n)
  {
    assert initial * (2 * Pow2(n)) == 2 * (initial * Pow2(n));
  }

  /** In every state a tick sends again exactly when something is outstanding and the time since the last
      start, drop or expiry, that of this tick included, has reached the timeout. */
  lemma ResendsExactly(s: Sender, ms: nat, k: Clock)
    requires s.Valid() && Agrees(s, k)
    ensures Resends(s, Tick(ms)) <==>
            s.outstanding != [] && Doubled(s.initialRto, k.expiries) % TWO_32 <= (k.time + ms) % TWO_32
    ensures Resends(s, Tick(ms)) ==> s.Tick(ms).out == s.out + [s.outstanding[0]]
  {
    AddMod32(k.time, ms);
    hide Doubled, Sender.Conserves;
    if s.outstanding != [] { assert |s.out + [s.outstanding[0]]| == |s.out| + 1; }
  }

  lemma TickAgrees(s: Sender, ms: nat, k: Clock)
    requires s.Valid() && Agrees(s, k)
    ensures Agrees(s.Tick(ms), Note(s, Tick(ms), k))
  {
    AddMod32(k.time, ms);
    DoubleMod32(Doubled(s.initialRto, k.expiries));
    CountMod16(k.expiries);
    DoubledStep(s.initialRto, k.expiries);
    hide Doubled, Sender.Conserves;
  }

  // ---- Other events ---------------------------------------------------------------------------

  /** The timer of `t` is that of `s`, started afresh if nothing was outstanding. */
  ghost predicate SameTimer(s: Sender, t: Sender) {
    && t.consecutive == s.consecutive && t.rto == s.rto && t.initialRto == s.initialRto
    && t.Start() == s.Start()
    && (t.outstanding != [] ==> t.elapsed == if s.outstanding == [] then 0 else s.elapsed)
  }

  lemma {:induction false} FillLoopTimer(s: Sender)
    requires s.stream.WF()
    ensures var t := s.FillLoop();
            && (t.timer ==> t.elapsed == if s.timer then s.elapsed else 0)
            && (s.timer ==> t.timer)
    decreases s.stream.Buffered()
  {
    if s.free != 0 {
      var n := s.ChunkSize();
      var t := s.SendData(n, s.stream.Pop(n).Eof() && s.free > n);
      if t.stream.Buffered() != 0 { FillLoopTimer(t); }
    }
  }

  lemma FillTimer(s: Sender)
    requires s.stream.WF()
    ensures var t := s.FillWindow();
            t.timer ==> t.elapsed == if s.timer then s.elapsed else 0
  {
    FillLoopTimer(s);
    hide Sender.FillLoop;
  }

  lemma FillSameTimer(s: Sender)
    requires s.Valid()
    ensures SameTimer(s, s.FillWindow()) && s.FillWindow().Valid()
  {
    FillWindowExact(s);
    FillTimer(s);
    hide Sender.FillWindow, Chain, Total, NewSegments, Minus16;
  }

  /** Either nothing was dropped and the timer runs on, or it was reset. */
  lemma {:induction false} PopAckedTimer(s: Sender, a: nat)
    requires s.Conserves()
    ensures var t := s.PopAcked(a);
            && t.Conserves() && t.initialRto == s.initialRto
            && (t == s || (t.elapsed == 0 && t.consecutive == 0 && t.rto == s.initialRto && s.Start() < t.Start()))
    decreases |s.outstanding|
  {
    hide Sender.Conserves, Sender.FrontAcked;
    if s.FrontAcked(a) {
      FrontAckedQueue(s, a);
      DropFrontConserves(s);
      DropFrontMoves(s);
      PopAckedTimer(s.DropFront(), a);
    }
  }

  lemma DropFrontMoves(s: Sender)
    requires s.Conserves() && s.outstanding != []
    ensures s.Start() < s.DropFront().Start()
  {
  }

  lemma AcknowledgeTimer(s: Sender, a: nat, win: u16)
    requires s.Valid()
    ensures var t := s.Acknowledge(a, win);
            && t.Valid() && t.initialRto == s.initialRto
            && ((t.Start() == s.Start() && t.elapsed == s.elapsed && t.consecutive == s.consecutive && t.rto == s.rto
                 && t.outstanding == s.outstanding)
                || (t.elapsed == 0 && t.consecutive == 0 && t.rto == s.initialRto && s.Start() < t.Start()))
  {
    hide Sender.PopAcked, Unwrap, Minus16, Sender.Conserves;
    var p := s.(window := win, free := win);
    AcknowledgeValid(s, a, win);
    ConservesFrame(s, p);
    PopAckedTimer(p, a);
  }

  /** From `s`, by way of an acknowledgement that led to `d`, to `t`. */
  lemma DroppedAgrees(s: Sender, d: Sender, t: Sender)
    requires d.initialRto == s.initialRto && SameTimer(d, t) && s.Start() < d.Start()
    requires d.elapsed == 0 && d.consecutive == 0 && d.rto == s.initialRto
    ensures s.Start() < t.Start() && Agrees(t, Clock(0, 0))
  {
    assert Doubled(s.initialRto, 0) == s.initialRto;
  }

  lemma KeptAgrees(s: Sender, d: Sender, t: Sender, k: Clock)
    requires Agrees(s, k) && d.initialRto == s.initialRto && SameTimer(d, t) && s.Start() == d.Start()
    requires d.elapsed == s.elapsed && d.consecutive == s.consecutive && d.rto == s.rto && d.outstanding == s.outstanding
    ensures t.Start() == s.Start() && Agrees(t, if s.outstanding == [] then Clock(0, k.expiries) else k)
  {
    hide Doubled;
  }

  lemma AckAgrees(s: Sender, ackno: u32, win: u16, k: Clock)
    requires s.Valid() && Agrees(s, k)
    ensures Agrees(s.AckReceived(ackno, win), Note(s, Ack(ackno, win), k))
  {
    var a := Unwrap(ackno, s.isn, s.next);
    var d, t := s.Acknowledge(a, win), s.AckReceived(ackno, win);
    if s.AckValid(a) {
      AcknowledgeTimer(s, a, win);
      FillSameTimer(d);
      hide Sender.Acknowledge, Sender.FillWindow, Unwrap, Sender.Valid, Sender.AckValid, SameTimer, Agrees;
      if s.Start() < d.Start() { DroppedAgrees(s, d, t); } else { KeptAgrees(s, d, t, k); }
    } else {
      hide Unwrap, Doubled, Sender.Conserves, Sender.AckValid;
    }
  }

  lemma OtherAgrees(s: Sender, e: Event, k: Clock)
    requires s.Valid() && Agrees(s, k) && Enabled(s, e) && !e.Tick? && !e.Ack?
    ensures Agrees(Step(s, e), Note(s, e, k))
  {
    if e.Fill? { FillSameTimer(s); }
    hide Sender.FillWindow, Doubled, Sender.Conserves;
  }

  lemma StepAgrees(s: Sender, e: Event, k: Clock)
    requires s.Valid() && Enabled(s, e) && Agrees(s, k)
    ensures Agrees(Step(s, e), Note(s, e, k))
  {
    hide Agrees, Note;
    match e
    case Tick(ms) => TickAgrees(s, ms, k);
    case Ack(ackno, win) => AckAgrees(s, ackno, win, k);
    case _ => OtherAgrees(s, e, k);
  }

  /** Over every run of the sender: the counted retransmissions since the last drop, the timeout doubled
      for each of them, and the time since the timer was last set going. */
  lemma {:induction false} TimerExact(s: Sender, es: seq<Event>, k: Clock)
    requires s.Valid() && EnabledRun(s, es) && Agrees(s, k)
    ensures Agrees(Exec(s, es), Notes(s, es, k))
    decreases |es|
  {
    hide Agrees, Note, Step;
    if es != [] {
      StepAgrees(s, es[0], k);
      TimerExact(Step(s, es[0]), es[1..], Note(s, es[0], k));
    }
  }

  lemma ClosedAgrees(isn: u32, capacity: nat, rto: u16)
    ensures Agrees(Closed(isn, capacity, rto), Clock(0, 0))
  {
    assert Doubled(rto, 0) == rto;
  }
}
