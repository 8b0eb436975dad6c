/** What every run of the sender keeps: conservation for any acknowledgements, the receiver's window
    for ordered ones, the timer, and the order of the connection phases. */
module SenderRuns {
  import opened Basics
  import opened WrappingIntegers
  import opened ByteStreams
  import opened Segments
  import opened Senders

  // ---- Acknowledgements -----------------------------------------------------------------------

  /** `t` is `s` after some of the oldest outstanding segments were dropped. */
  ghost predicate Drops(s: Sender, t: Sender) {
    && t == s.(inFlight := t.inFlight, outstanding := t.outstanding,
               elapsed := t.elapsed, rto := t.rto, consecutive := t.consecutive)
    && |t.outstanding| <= |s.outstanding|
    && t.outstanding == s.outstanding[|s.outstanding| - |t.outstanding|..]
    && s.Start() <= t.Start()
    && (t == s || (t.rto == s.initialRto && t.consecutive == 0))
  }

  lemma DropFrontConserves(s: Sender)
    requires s.Conserves() && s.outstanding != []
    ensures s.DropFront().Conserves() && s.Start() <= s.DropFront().Start()
  {
    hide Wrap, Emitted;
  }

  lemma {:induction false} PopAckedDrops(s: Sender, a: nat)
    requires s.Conserves()
    ensures s.PopAcked(a).Conserves() && Drops(s, s.PopAcked(a))
    decreases |s.outstanding|
  {
    hide Sender.FrontAcked, Sender.Conserves;
    if s.FrontAcked(a) {
      FrontAckedQueue(s, a);
      DropFrontConserves(s);
      PopAckedDrops(s.DropFront(), a);
    }
  }

  lemma FrontAckedQueue(s: Sender, a: nat)
    requires s.FrontAcked(a)
    ensures s.outstanding != []
  {
  }

  /** The wire number of the oldest outstanding segment unwraps to its absolute number. */
  lemma FrontRecovered(s: Sender)
    requires s.Conserves() && s.outstanding != [] && s.inFlight < TWO_31
    ensures Unwrap(s.outstanding[0].header.seqno, s.isn, s.next) == s.Start()
  {
    UnwrapWrap(s.Start(), s.isn, s.next);
  }

  /** `a` lies inside the oldest outstanding segment, or nothing is outstanding and all is acked. */
  ghost predicate AtFront(s: Sender, a: nat) {
    if s.outstanding == [] then a == s.next
    else s.Start() <= a < s.Start() + s.outstanding[0].Length()
  }

  /** Exactly the segments that the acknowledgement covers completely are dropped. */
  lemma {:induction false} PopAckedExact(s: Sender, a: nat)
    requires s.Conserves() && s.inFlight < TWO_31 && s.Start() <= a <= s.next
    ensures AtFront(s.PopAcked(a), a)
    decreases |s.outstanding|
  {
    if s.outstanding != [] {
      FrontRecovered(s);
      hide Unwrap, Emitted;
      if s.Start() + s.outstanding[0].Length() <= a {
        DropFrontConserves(s);
        PopAckedExact(s.DropFront(), a);
      }
    }
  }

  lemma AcknowledgeValid(s: Sender, a: nat, win: u16)
    requires s.Valid()
    ensures s.Acknowledge(a, win).Valid()
    ensures var t := s.Acknowledge(a, win);
            Drops(s.(window := win, free := t.free, timer := t.timer), t)
  {
    var p := s.(window := win, free := win);
    var t := p.PopAcked(a);
    hide Sender.PopAcked, Unwrap, Minus16, Sender.Conserves;
    ConservesFrame(s, p);
    PopAckedDrops(p, a);
    NothingInFlight(t);
    ConservesFrame(t, s.Acknowledge(a, win));
  }

  lemma ConservesFrame(s: Sender, t: Sender)
    requires s.Conserves() && t == s.(window := t.window, free := t.free, timer := t.timer)
    ensures t.Conserves()
  {
  }

  lemma NothingInFlight(s: Sender)
    requires s.Conserves()
    ensures s.inFlight == 0 <==> s.outstanding == []
  {
    hide Emitted;
  }

  /** Whatever arrives as an acknowledgement, the sender stays consistent. */
  lemma AckKeepsValid(s: Sender, ackno: u32, win: u16)
    requires s.Valid()
    ensures s.AckReceived(ackno, win).Valid()
  {
    var a := Unwrap(ackno, s.isn, s.next);
    if s.AckValid(a) {
      AcknowledgeValid(s, a, win);
      FillWindowExact(s.Acknowledge(a, win));
    }
  }

  // ---- The window -----------------------------------------------------------------------------

  /** With `last` the latest accepted acknowledgement number: the 16-bit free space is what the window
      leaves, and nothing was sent past its right edge except one number past a closed window. */
  ghost predicate Respects(s: Sender, last: nat) {
    && last <= s.next && AtFront(s, last)
    && s.free == Minus16(last + s.window, s.next)
    && (s.next <= last + s.window || (s.window == 0 && s.next == last + 1))
  }

  lemma InFlightSmall(s: Sender, last: nat)
    requires s.Conserves() && Respects(s, last)
    ensures s.inFlight < TWO_31
  {
  }

  /** The free space is exact while the window is open, and tells an unused probe from a used one. */
  lemma FreeExact(s: Sender, last: nat)
    requires Respects(s, last)
    ensures s.window != 0 ==> s.free == last + s.window - s.next
    ensures s.window == 0 ==> (s.free == 0 <==> s.next == last)
  {
  }

  lemma FillFront(s: Sender, last: nat)
    requires s.Valid() && last <= s.next && AtFront(s, last)
    ensures AtFront(s.FillWindow(), last) && s.FillWindow().Valid()
  {
    hide Sender.FillWindow;
    FillWindowExact(s);
    var t := s.FillWindow();
    if s.outstanding != [] {
      assert t.outstanding[0] == s.outstanding[0];
    } else {
      assert t.outstanding == t.out[|s.out|..];
    }
  }

  lemma FillRespects(s: Sender, last: nat)
    requires s.Valid() && Respects(s, last)
    ensures Respects(s.FillWindow(), last) && s.FillWindow().Valid()
  {
    hide Sender.FillWindow, Chain, NewSegments, AtFront, Minus16;
    FillFront(s, last);
    FreeExact(s, last);
    FillWindowExact(s);
    var t := s.FillWindow();
    ModSubSub(last + s.window, s.next, t.next - s.next);
  }

  lemma PopAckedFront(s: Sender, a: nat)
    requires s.Conserves() && s.inFlight < TWO_31 && s.Start() <= a <= s.next
    ensures var t := s.PopAcked(a);
            && AtFront(t, a) && t.next == s.next && t.isn == s.isn && t.window == s.window
            && (t.outstanding != [] ==>
                  Unwrap(t.outstanding[0].header.seqno, t.isn, t.next) == t.next - t.inFlight)
  {
    hide Sender.PopAcked;
    PopAckedDrops(s, a);
    PopAckedExact(s, a);
    var t := s.PopAcked(a);
    if t.outstanding != [] { FrontRecovered(t); }
  }

  /** The acknowledgement leaves the window at or right of what was sent, one probe apart, and covers
      everything when nothing is outstanding. */
  predicate Tolerable(s: Sender, a: nat, win: u16) {
    && (s.outstanding == [] ==> a == s.next)
    && (s.next <= a + win || (win == 0 && s.next == a + 1))
  }

  /** An accepted acknowledgement keeps the window respected exactly when it is tolerable. */
  lemma AcknowledgeRespects(s: Sender, a: nat, win: u16)
    requires s.Valid() && s.inFlight < TWO_31 && s.AckValid(a)
    ensures Respects(s.Acknowledge(a, win), a) <==> Tolerable(s, a, win)
  {
    if s.outstanding != [] { FrontRecovered(s); }
    var p := s.(window := win, free := win);
    assert p.Conserves();
    hide Sender.Conserves, Unwrap, AtFront;
    if s.outstanding == [] {
      AtFrontSame(s, s.Acknowledge(a, win), a);
    } else {
      PopAckedFront(p, a);
      hide Sender.PopAcked;
      AtFrontSame(p.PopAcked(a), s.Acknowledge(a, win), a);
    }
  }

  /** Acknowledgements that move neither their number nor the right edge back are tolerable. */
  lemma OrderedIsTolerable(s: Sender, last: nat, a: nat, win: u16)
    requires Respects(s, last) && last <= a <= s.next && last + s.window <= a + win
    ensures Tolerable(s, a, win)
  {
  }

  /** One that takes back part of the window is not harmless: the 16-bit free space wraps around, and
      whatever is ready is sent past the new right edge. */
  lemma ShrunkWindowOverruns(s: Sender, a: nat, win: u16)
    requires s.Valid() && s.inFlight < TWO_31 && s.AckValid(a) && s.outstanding != []
    requires 0 < win && a + win < s.next < a + win + TWO_16
    requires Open(s.Acknowledge(a, win)) && (0 < s.stream.Buffered() || s.stream.ended)
    ensures a + win < s.next < s.AckReceived(Wrap(a, s.isn), win).next
  {
    AcknowledgeValid(s, a, win);
    FrontRecovered(s);
    UnwrapWrap(a, s.isn, s.next);
    ShrunkFree(s, a, win);
    hide Sender.Acknowledge, Sender.PopAcked, Unwrap, Wrap, Sender.FillWindow, Minus16, Chain, NewSegments;
    FillWindowExact(s.Acknowledge(a, win));
  }

  /** Nor is an old one that arrives when nothing is outstanding: the whole window counts from the next
      number on, not from the acknowledged one. */
  lemma StaleAckOverruns(s: Sender, a: nat, win: u16)
    requires s.Valid() && s.outstanding == [] && a < s.next < a + TWO_31 && Open(s)
    ensures var ready := s.stream.Buffered() + Bit(s.stream.ended);
            var t := s.AckReceived(Wrap(a, s.isn), win);
            && s.AckValid(a)
            && t.next == s.next + Min(Max(win, 1), ready)
            && (win <= ready && 0 < ready ==> a + win < t.next)
  {
    UnwrapWrap(a, s.isn, s.next);
    AcknowledgeValid(s, a, win);
    hide Unwrap, Wrap, Sender.FillWindow, Minus16, Chain, NewSegments;
    FillWindowExact(s.Acknowledge(a, win));
  }

  lemma ShrunkFree(s: Sender, a: nat, win: u16)
    requires s.Valid() && s.inFlight < TWO_31 && s.AckValid(a) && s.outstanding != []
    requires 0 < win && a + win < s.next < a + win + TWO_16
    ensures s.Acknowledge(a, win).free == a + win - s.next + TWO_16 && s.Acknowledge(a, win).window == win
  {
    var p := s.(window := win, free := win);
    assert p.Conserves();
    FrontRecovered(s);
    hide Sender.PopAcked, Unwrap, Sender.Conserves, Minus16;
    PopAckedFront(p, a);
    var t := p.PopAcked(a);
    assert s.Acknowledge(a, win).free == Minus16(a + win, s.next);
    Minus16Wraps(a + win, s.next);
  }

  lemma Minus16Wraps(a: int, b: int)
    requires a < b < a + TWO_16
    ensures Minus16(a, b) == a - b + TWO_16
  {
  }

  lemma AtFrontSame(s: Sender, t: Sender, a: nat)
    requires s.outstanding == t.outstanding && s.next == t.next && s.inFlight == t.inFlight
    ensures AtFront(s, a) <==> AtFront(t, a)
    ensures AtFront(s, a) && s.outstanding == [] ==> a == s.next
  {
  }

  /** Under ordered acknowledgements the one that arrives is accepted, and the window is respected. */
  lemma AckRespects(s: Sender, last: nat, a: nat, ackno: u32, win: u16)
    requires s.Valid() && Respects(s, last)
    requires a == Unwrap(ackno, s.isn, s.next) && last <= a <= s.next && last + s.window <= a + win
    ensures s.AckValid(a)
    ensures Respects(s.AckReceived(ackno, win), a) && s.AckReceived(ackno, win).Valid()
  {
    InFlightSmall(s, last);
    if s.outstanding != [] { FrontRecovered(s); }
    OrderedIsTolerable(s, last, a, win);
    AcknowledgeValid(s, a, win);
    AcknowledgeRespects(s, a, win);
    FillRespects(s.Acknowledge(a, win), a);
  }

  /** After an ordered acknowledgement with an open window, everything that is ready has been sent, as far as
      the right edge allows. */
  lemma AckFillsWindow(s: Sender, last: nat, a: nat, ackno: u32, win: u16)
    requires s.Valid() && Respects(s, last)
    requires a == Unwrap(ackno, s.isn, s.next) && last <= a <= s.next && last + s.window <= a + win
    requires 0 < win && Open(s.Acknowledge(a, win))
    ensures s.AckReceived(ackno, win).next == Min(a + win, s.next + s.stream.Buffered() + Bit(s.stream.ended))
  {
    InFlightSmall(s, last);
    AckRespects(s, last, a, ackno, win);
    OrderedIsTolerable(s, last, a, win);
    AcknowledgeValid(s, a, win);
    AcknowledgeRespects(s, a, win);
    FreeExact(s.Acknowledge(a, win), a);
    hide Sender.Acknowledge, Unwrap, Sender.Conserves, AtFront, Minus16, Sender.FillWindow, Tolerable;
    FillWindowExact(s.Acknowledge(a, win));
  }

  // ---- The timer ------------------------------------------------------------------------------

  /** The initial timeout after `n` doublings. */
  function Doubled(initial: u16, n: nat): nat {
    initial * Pow2(n)
  }

  /** The timeout doubles with every counted retransmission, within 32 bits. */
  predicate BacksOff(s: Sender) {
    s.consecutive <= 9 && s.rto == Doubled(s.initialRto, s.consecutive)
  }

  lemma DoublingFits(initial: u16, n: nat)
    requires n <= 8
    ensures Doubled(initial, n + 1) == 2 * Doubled(initial, n) < TWO_32
  {
    Pow2Monotone(n + 1, 9);
    assert Pow2(9) == 512;
    MulMonotone(initial, 0xffff, Pow2(n + 1), 512);
    assert initial * (2 * Pow2(n)) == 2 * (initial * Pow2(n));
  }

  lemma TickBacksOff(s: Sender, ms: nat)
    requires s.Valid() && BacksOff(s) && s.consecutive <= 8
    ensures BacksOff(s.Tick(ms)) && s.Tick(ms).Valid()
  {
    hide Doubled, Sender.Conserves;
    DoublingFits(s.initialRto, s.consecutive);
    TickValid(s, ms);
  }

  lemma TickValid(s: Sender, ms: nat)
    requires s.Valid()
    ensures s.Tick(ms).Valid()
  {
    hide Chain, Total;
  }

  lemma MulMonotone(a: nat, b: nat, c: nat, d: nat)
    requires a <= b && c <= d
    ensures a * c <= b * d
  {
    assert a * c <= b * c <= b * d;
  }

  lemma AckBacksOff(s: Sender, ackno: u32, win: u16)
    requires s.Valid() && BacksOff(s)
    ensures BacksOff(s.AckReceived(ackno, win))
    ensures s.AckReceived(ackno, win).consecutive <= s.consecutive
  {
    var a := Unwrap(ackno, s.isn, s.next);
    if s.AckValid(a) {
      AcknowledgeValid(s, a, win);
      FillWindowExact(s.Acknowledge(a, win));
    }
  }

  /** An expired timer, and nothing else, sends again: the oldest outstanding segment, as it was first
      sent. While the window is respected, the latest acknowledgement lies in it. */
  lemma TickResendsOldest(s: Sender, ms: nat, last: nat)
    requires s.Valid()
    ensures var t := s.Tick(ms);
            if s.timer && s.rto <= (s.elapsed + ms) % TWO_32 then
              && t.out == s.out + [s.outstanding[0]]
              && Emitted(s.outstanding[0], s.Start(), s.isn, s.Sent(), s.finSent)
              && (Respects(s, last) ==> s.Start() <= last < s.Start() + s.outstanding[0].Length())
            else t.out == s.out
  {
  }

  // ---- Phases ---------------------------------------------------------------------------------

  datatype Phase = CLOSED | SYN_SENT | SYN_ACKED | FIN_SENT | FIN_ACKED

  function Rank(p: Phase): nat {
    match p
    case CLOSED => 0
    case SYN_SENT => 1
    case SYN_ACKED => 2
    case FIN_SENT => 3
    case FIN_ACKED => 4
  }

  /** The phase by arithmetic on counters, for a stream without error. */
  function Summary(s: Sender): Phase
    requires s.stream.WF()
  {
    if s.next == 0 then CLOSED
    else if s.next == s.inFlight then SYN_SENT
    else if !s.stream.Eof() then SYN_ACKED
    else if s.next < |s.stream.history| + 2 then SYN_ACKED
    else if s.inFlight != 0 then FIN_SENT
    else FIN_ACKED
  }

  predicate OutboundEnded(s: Sender)
    requires s.stream.WF()
  {
    s.stream.Eof() && s.next == |s.stream.history| + 2 && s.inFlight == 0
  }

  /** The phase by what was sent and what still waits for an acknowledgement. */
  function RealPhase(s: Sender): Phase {
    if !s.synSent then CLOSED
    else if s.outstanding != [] && s.outstanding[0].header.syn then SYN_SENT
    else if !s.finSent then SYN_ACKED
    else if s.outstanding != [] then FIN_SENT
    else FIN_ACKED
  }

  /** The arithmetic tests agree with the real state. */
  lemma SummaryIsReal(s: Sender)
    requires s.Valid()
    ensures Summary(s) == RealPhase(s)
    ensures OutboundEnded(s) <==> RealPhase(s) == FIN_ACKED
  {
    if s.outstanding != [] {
      assert s.inFlight == s.outstanding[0].Length() + Total(s.outstanding[1..]);
    }
  }

  // ---- Runs -----------------------------------------------------------------------------------

  /** What its owner does to a sender; `Drain` takes everything it has queued, `Fail` marks its stream. */
  datatype Event =
    | Write(data: seq<byte>) | EndInput | Fill | Ack(ackno: u32, win: u16) | Tick(ms: nat) | Empty | Drain | Fail

  /** The application does not write after ending its stream. */
  predicate Enabled(s: Sender, e: Event) {
    e.Write? ==> !s.stream.ended
  }

  /** What the application writes, and what only concerns the queue and the error flag. */
  lemma StreamValid(s: Sender, t: Sender)
    requires s.Valid() && t == s.(stream := t.stream, out := t.out)
    requires t.stream == s.stream.(history := t.stream.history, ended := t.stream.ended, error := t.stream.error)
    requires t.stream.WF() && s.stream.history <= t.stream.history
    requires s.stream.ended ==> t.stream.history == s.stream.history && t.stream.ended
    ensures t.Valid()
  {
    assert t.Sent() == s.Sent();
    hide Chain, Total;
  }

  ghost function Step(s: Sender, e: Event): (t: Sender)
    requires s.Valid() && Enabled(s, e)
    ensures t.Valid()
  {
    match e
    case Write(data) => StreamValid(s, s.(stream := s.stream.Write(data))); s.(stream := s.stream.Write(data))
    case EndInput => StreamValid(s, s.(stream := s.stream.(ended := true))); s.(stream := s.stream.(ended := true))
    case Fill => FillWindowExact(s); s.FillWindow()
    case Ack(ackno, win) => AckKeepsValid(s, ackno, win); s.AckReceived(ackno, win)
    case Tick(ms) => TickValid(s, ms); s.Tick(ms)
    case Empty => StreamValid(s, s.SendEmpty()); s.SendEmpty()
    case Drain => StreamValid(s, s.(out := [])); s.(out := [])
    case Fail => StreamValid(s, s.(stream := s.stream.(error := true))); s.(stream := s.stream.(error := true))
  }

  /** Phases never go back. */
  lemma StepKeepsOrder(s: Sender, e: Event)
    requires s.Valid() && Enabled(s, e)
    ensures Rank(Summary(s)) <= Rank(Summary(Step(s, e)))
  {
    SummaryIsReal(s);
    SummaryIsReal(Step(s, e));
    if e.Fill? {
      FillKeepsOrder(s);
    } else if e.Ack? {
      var a := Unwrap(e.ackno, s.isn, s.next);
      if s.AckValid(a) {
        AcknowledgeKeepsOrder(s, a, e.win);
        AcknowledgeValid(s, a, e.win);
        FillKeepsOrder(s.Acknowledge(a, e.win));
      }
    }
  }

  lemma FillKeepsOrder(s: Sender)
    requires s.Valid()
    ensures Rank(RealPhase(s)) <= Rank(RealPhase(s.FillWindow()))
  {
    hide Sender.FillWindow, Chain, Total, Emitted, Minus16;
    FillWindowExact(s);
    var t := s.FillWindow();
    if s.outstanding != [] { assert t.outstanding[0] == s.outstanding[0]; }
    SummaryIsReal(s);
    SummaryIsReal(t);
  }

  lemma AcknowledgeKeepsOrder(s: Sender, a: nat, win: u16)
    requires s.Valid()
    ensures Rank(RealPhase(s)) <= Rank(RealPhase(s.Acknowledge(a, win)))
  {
    hide Sender.Acknowledge, Sender.Conserves, Summary, RealPhase, Rank, Minus16, Unwrap;
    AcknowledgeValid(s, a, win);
    var t := s.Acknowledge(a, win);
    SummaryIsReal(s);
    SummaryIsReal(t);
    ConservesStream(s);
    PhaseAdvances(s, t);
  }

  lemma ConservesStream(s: Sender)
    requires s.Conserves()
    ensures s.stream.WF() && s.inFlight <= s.next
  {
  }

  lemma PhaseAdvances(s: Sender, t: Sender)
    requires s.stream.WF() && t.stream == s.stream && t.next == s.next && t.inFlight <= s.inFlight <= s.next
    requires t.synSent == s.synSent && t.finSent == s.finSent && |t.outstanding| <= |s.outstanding|
    requires Summary(s) == RealPhase(s) && Summary(t) == RealPhase(t)
    ensures Rank(RealPhase(s)) <= Rank(RealPhase(t))
  {
  }

  /** The ack premise: an accepted acknowledgement is tolerable. */
  ghost predicate Ordered(s: Sender, e: Event) {
    var a := if e.Ack? then Unwrap(e.ackno, s.isn, s.next) else 0;
    e.Ack? && s.AckValid(a) ==> Tolerable(s, a, e.win)
  }

  ghost function Latest(s: Sender, last: nat, e: Event): nat {
    var a := if e.Ack? then Unwrap(e.ackno, s.isn, s.next) else 0;
    if e.Ack? && s.AckValid(a) then a else last
  }

  lemma AckStepRespects(s: Sender, last: nat, ackno: u32, win: u16)
    requires s.Valid() && Respects(s, last) && Ordered(s, Ack(ackno, win))
    ensures Respects(s.AckReceived(ackno, win), Latest(s, last, Ack(ackno, win)))
  {
    var a := Unwrap(ackno, s.isn, s.next);
    if s.AckValid(a) {
      InFlightSmall(s, last);
      AcknowledgeValid(s, a, win);
      AcknowledgeRespects(s, a, win);
      hide Sender.Acknowledge, Unwrap, Sender.Conserves, Respects, Tolerable, Sender.AckValid;
      FillRespects(s.Acknowledge(a, win), a);
    }
  }

  lemma StepRespects(s: Sender, last: nat, e: Event)
    requires s.Valid() && Enabled(s, e) && Respects(s, last) && Ordered(s, e)
    ensures Respects(Step(s, e), Latest(s, last, e))
  {
    match e
    case Fill => FillRespects(s, last); hide Respects, Sender.FillWindow;
    case Ack(ackno, win) => AckStepRespects(s, last, ackno, win); hide Respects, Sender.AckReceived;
    case _ => hide Minus16, Sender.Conserves, Unwrap;
  }

  ghost predicate EnabledRun(s: Sender, es: seq<Event>)
    requires s.Valid()
    decreases |es|
  {
    es == [] || (Enabled(s, es[0]) && EnabledRun(Step(s, es[0]), es[1..]))
  }

  ghost function Exec(s: Sender, es: seq<Event>): (t: Sender)
    requires s.Valid() && EnabledRun(s, es)
    ensures t.Valid()
    decreases |es|
  {
    if es == [] then s else Exec(Step(s, es[0]), es[1..])
  }

  ghost predicate OrderedRun(s: Sender, es: seq<Event>)
    requires s.Valid() && EnabledRun(s, es)
    decreases |es|
  {
    es == [] || (Ordered(s, es[0]) && OrderedRun(Step(s, es[0]), es[1..]))
  }

  ghost function LatestOf(s: Sender, last: nat, es: seq<Event>): nat
    requires s.Valid() && EnabledRun(s, es)
    decreases |es|
  {
    if es == [] then last else LatestOf(Step(s, es[0]), Latest(s, last, es[0]), es[1..])
  }

  /** Conservation and the order of phases over every run, whatever the acknowledgements say. */
  lemma {:induction false} RunConserves(s: Sender, es: seq<Event>)
    requires s.Valid() && EnabledRun(s, es)
    ensures Exec(s, es).Valid() && Rank(Summary(s)) <= Rank(Summary(Exec(s, es)))
    decreases |es|
  {
    if es != [] {
      StepKeepsOrder(s, es[0]);
      RunConserves(Step(s, es[0]), es[1..]);
    }
  }

  /** Window respect over every run with ordered acknowledgements. */
  lemma {:induction false} RunRespectsWindow(s: Sender, last: nat, es: seq<Event>)
    requires s.Valid() && EnabledRun(s, es) && Respects(s, last) && OrderedRun(s, es)
    ensures Respects(Exec(s, es), LatestOf(s, last, es))
    decreases |es|
  {
    if es != [] {
      StepRespects(s, last, es[0]);
      RunRespectsWindow(Step(s, es[0]), Latest(s, last, es[0]), es[1..]);
    }
  }

  /** The events form a run from `s` to `t`. */
  ghost predicate Reaches(s: Sender, es: seq<Event>, t: Sender) {
    s.Valid() && EnabledRun(s, es) && Exec(s, es) == t
  }

  lemma One(s: Sender, e: Event)
    requires s.Valid() && Enabled(s, e)
    ensures Reaches(s, [e], Step(s, e))
  {
    hide Step, Sender.Valid;
    var t := Step(s, e);
    assert [e][1..] == [];
    assert EnabledRun(t, []) && Exec(t, []) == t;
    assert EnabledRun(s, [e]) && Exec(s, [e]) == Exec(t, []);
  }

  lemma {:induction false} Then(s: Sender, es: seq<Event>, t: Sender, e: Event)
    requires Reaches(s, es, t) && Enabled(t, e)
    ensures Reaches(s, es + [e], Step(t, e))
    decreases |es|
  {
    hide Step, Sender.Valid;
    if es == [] {
      assert es + [e] == [e];
      One(s, e);
    } else {
      Then(Step(s, es[0]), es[1..], t, e);
      assert (es + [e])[1..] == es[1..] + [e];
    }
  }

  lemma Consistent(s: Sender, es: seq<Event>, t: Sender)
    requires Reaches(s, es, t)
    ensures t.Valid()
  {
  }

  /** A new sender starts in the state these theorems ask for. */
  lemma ClosedIsValid(isn: u32, capacity: nat, rto: u16)
    ensures var s := Closed(isn, capacity, rto);
            s.Valid() && Respects(s, 0) && BacksOff(s) && Summary(s) == CLOSED
  {
  }
}
