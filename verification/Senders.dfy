/** The sending half of a connection as a value: segmentation, the retransmission queue, the window
    and the timer. Module TcpSenders refines it. */
module Senders {
  import opened Basics
  import opened WrappingIntegers
  import opened ByteStreams
  import opened Reassembly
  import opened Segments

  const MAX_PAYLOAD_SIZE: nat := 1000

  /** Subtraction on 16-bit words. */
  function Minus16(a: int, b: int): u16 {
    (a - b) % TWO_16
  }

  datatype Sender = Sender(
    isn: u32, initialRto: u16, stream: Stream, next: nat, synSent: bool, finSent: bool,
    inFlight: int, window: u16, free: u16, consecutive: u16, rto: u32, elapsed: u32, timer: bool,
    outstanding: seq<TCPSegment>, out: seq<TCPSegment>)
  {
    /** Gives the segment the next sequence number, queues it for sending and for retransmission,
        and starts the timer. */
    function Send(syn: bool, fin: bool, payload: seq<byte>): Sender {
      var seg := TCPSegment(BLANK.(seqno := Wrap(next, isn), syn := syn, fin := fin), payload);
      this.(next := next + seg.Length(),
            inFlight := inFlight + seg.Length(),
            free := if synSent then Minus16(free, seg.Length()) else free,
            out := out + [seg],
            outstanding := outstanding + [seg],
            timer := true,
            elapsed := if timer then elapsed else 0)
    }

    /** Moves `n` bytes from the stream into a segment, with a FIN behind them if asked to. */
    function SendData(n: nat, fin: bool): Sender
      requires stream.WF() && n <= stream.Buffered()
    {
      this.(stream := stream.Pop(n), finSent := finSent || fin).Send(false, fin, stream.Buffer()[..n])
    }

    function FillWindow(): Sender
      requires stream.WF()
    {
      if !synSent then this.(synSent := true).Send(true, false, [])
      else if outstanding != [] && outstanding[0].header.syn then this
      else if stream.Buffered() == 0 && !stream.Eof() then this
      else if finSent then this
      else if window != 0 then FillLoop()
      else if free == 0 then Probe()
      else this
    }

    function ChunkSize(): (n: nat)
      requires stream.WF()
      ensures n <= stream.Buffered() && n <= free && n <= MAX_PAYLOAD_SIZE
      ensures 0 < free && 0 < stream.Buffered() ==> 0 < n
    {
      Min(stream.Buffered(), Min(free, MAX_PAYLOAD_SIZE))
    }

    function FillLoop(): Sender
      requires stream.WF()
      decreases stream.Buffered()
    {
      if free == 0 then this
      else
        var n := ChunkSize();
        var s := SendData(n, stream.Pop(n).Eof() && free > n);
        if s.stream.Buffered() == 0 then s else s.FillLoop()
    }

    /** One sequence number past a closed window. */
    function Probe(): Sender
      requires stream.WF()
    {
      if stream.Eof() then SendData(0, true)
      else if 0 < stream.Buffered() then SendData(1, false)
      else this
    }

    predicate AckValid(a: nat) {
      a <= next && (outstanding == [] || Unwrap(outstanding[0].header.seqno, isn, next) <= a)
    }

    /** The oldest segment is acknowledged: it leaves the queue and the timer starts afresh. */
    function DropFront(): Sender
      requires outstanding != []
    {
      this.(inFlight := inFlight - outstanding[0].Length(), outstanding := outstanding[1..],
            elapsed := 0, rto := initialRto, consecutive := 0)
    }

    predicate FrontAcked(a: nat) {
      outstanding != [] && Unwrap(outstanding[0].header.seqno, isn, next) + outstanding[0].Length() <= a
    }

    function PopAcked(a: nat): Sender
      decreases |outstanding|
    {
      if FrontAcked(a) then DropFront().PopAcked(a) else this
    }

    /** The bookkeeping of an accepted acknowledgement, before the window is filled again. */
    function Acknowledge(a: nat, win: u16): Sender {
      var s := this.(window := win, free := win).PopAcked(a);
      s.(free := if s.outstanding == [] then win
                 else Minus16(a + win, Unwrap(s.outstanding[0].header.seqno, isn, next) + s.inFlight),
         timer := s.timer && s.inFlight != 0)
    }

    function AckReceived(ackno: u32, win: u16): Sender
      requires stream.WF()
    {
      var a := Unwrap(ackno, isn, next);
      if AckValid(a) then AcknowledgeKeepsStream(this, a, win); Acknowledge(a, win).FillWindow() else this
    }

    function Tick(ms: nat): Sender
      requires timer ==> outstanding != []
    {
      if !timer then this
      else
        var e := (elapsed + ms) % TWO_32;
        if e < rto then this.(elapsed := e)
        else if window != 0 || outstanding[0].header.syn then
          this.(out := out + [outstanding[0]], elapsed := 0,
                consecutive := (consecutive + 1) % TWO_16, rto := 2 * rto % TWO_32)
        else this.(out := out + [outstanding[0]], elapsed := 0)
    }

    function SendEmpty(): Sender {
      this.(out := out + [TCPSegment(BLANK.(seqno := Wrap(next, isn)), [])])
    }

    /** The part of the stream that has been put into segments. */
    function Sent(): seq<byte>
      requires stream.WF()
    {
      stream.history[..stream.read]
    }

    /** The absolute number of the oldest outstanding segment. */
    function Start(): int {
      next - inFlight
    }

    /** Conservation: every sequence number was given to the SYN, to one byte of the stream or to the
        FIN, and the outstanding segments carry exactly the numbers from `Start()` to `next`. */
    ghost predicate Conserves() {
      && stream.WF()
      && next == Bit(synSent) + stream.read + Bit(finSent)
      && inFlight == Total(outstanding) <= next
      && Chain(outstanding, next - inFlight, isn, Sent(), finSent)
      && (!synSent ==> stream.read == 0 && !finSent)
      && (finSent ==> stream.ended && stream.read == |stream.history|)
    }

    /** The timer runs exactly when something is outstanding. */
    ghost predicate Valid() {
      Conserves() && timer == (outstanding != [])
    }
  }

  lemma {:induction false} PopAckedFrame(s: Sender, a: nat)
    ensures var t := s.PopAcked(a);
            t.stream == s.stream && t.next == s.next && t.isn == s.isn && t.free == s.free
    decreases |s.outstanding|
  {
    if s.FrontAcked(a) { PopAckedFrame(s.DropFront(), a); }
  }

  lemma AcknowledgeKeepsStream(s: Sender, a: nat, win: u16)
    ensures s.Acknowledge(a, win).stream == s.stream
  {
    PopAckedFrame(s.(window := win, free := win), a);
  }

  function Closed(isn: u32, capacity: nat, rto: u16): Sender {
    Sender(isn, rto, Fresh(capacity), 0, false, false, 0, 0, 0, 0, rto, 0, false, [], [])
  }

  // ---- Queues of segments ---------------------------------------------------------------------

  function Total(q: seq<TCPSegment>): nat {
    if q == [] then 0 else q[0].Length() + Total(q[1..])
  }

  /** The segments of `q` are not empty and carry consecutive sequence numbers from `a` on. */
  predicate Chain(q: seq<TCPSegment>, a: nat, isn: u32, sent: seq<byte>, finished: bool) {
    q == [] || (
      && 0 < q[0].Length() && |q[0].payload| <= MAX_PAYLOAD_SIZE
      && Emitted(q[0], a, isn, sent, finished)
      && Chain(q[1..], a + q[0].Length(), isn, sent, finished))
  }

  lemma {:induction false} TotalAppend(q: seq<TCPSegment>, r: seq<TCPSegment>)
    ensures Total(q + r) == Total(q) + Total(r)
  {
    if q == [] {
      assert q + r == r;
    } else {
      TotalAppend(q[1..], r);
      assert (q + r)[1..] == q[1..] + r;
    }
  }

  lemma {:induction false} ChainAppend(q: seq<TCPSegment>, r: seq<TCPSegment>, a: nat, isn: u32, sent: seq<byte>, finished: bool)
    requires Chain(q, a, isn, sent, finished) && Chain(r, a + Total(q), isn, sent, finished)
    ensures Chain(q + r, a, isn, sent, finished) && Total(q + r) == Total(q) + Total(r)
  {
    if q == [] {
      assert q + r == r;
    } else {
      ChainAppend(q[1..], r, a + q[0].Length(), isn, sent, finished);
      assert (q + r)[1..] == q[1..] + r;
    }
  }

  lemma {:induction false} ChainMore(q: seq<TCPSegment>, a: nat, isn: u32, sent: seq<byte>, finished: bool, sent': seq<byte>, finished': bool)
    requires Chain(q, a, isn, sent, finished)
    requires sent <= sent' && (finished ==> finished' && sent == sent')
    ensures Chain(q, a, isn, sent', finished')
  {
    if q != [] {
      EmittedMore(q[0], a, isn, sent, finished, sent', finished');
      ChainMore(q[1..], a + q[0].Length(), isn, sent, finished, sent', finished');
    }
  }

  // ---- Filling the window ---------------------------------------------------------------------

  /** The segments that `t` has queued beyond those of `s` carry exactly the sequence numbers between
      their `next`s, and all of them wait for an acknowledgement. */
  ghost predicate NewSegments(s: Sender, t: Sender)
    requires t.stream.WF()
  {
    && s.next <= t.next
    && |s.out| <= |t.out| && t.out[..|s.out|] == s.out
    && t.outstanding == s.outstanding + t.out[|s.out|..]
    && Chain(t.out[|s.out|..], s.next, s.isn, t.Sent(), t.finSent)
    && Total(t.out[|s.out|..]) == t.next - s.next
  }

  /** What one call may do to the sender besides queueing new segments. */
  ghost predicate Advances(s: Sender, t: Sender) {
    && t.isn == s.isn && t.initialRto == s.initialRto && t.window == s.window
    && t.consecutive == s.consecutive && t.rto == s.rto
    && t.stream == s.stream.(read := t.stream.read) && s.stream.read <= t.stream.read
    && s.next <= t.next && t.Start() == s.Start() && t.free == Minus16(s.free, t.next - s.next)
    && (s.synSent ==> t.synSent) && (s.finSent ==> t == s)
  }

  ghost predicate Extends(s: Sender, t: Sender) {
    t.Valid() && Advances(s, t) && NewSegments(s, t)
  }

  lemma ModSubSub(a: int, b: int, c: int)
    ensures Minus16(Minus16(a, b), c) == Minus16(a, b + c)
  {
    var q := (a - b) / TWO_16;
    assert (a - b) % TWO_16 - c == a - (b + c) - q * 0x1_0000;
  }

  lemma NewSegmentsTrans(s: Sender, t: Sender, u: Sender)
    requires t.stream.WF() && u.stream.WF() && s.isn == t.isn
    requires NewSegments(s, t) && NewSegments(t, u)
    requires t.Sent() <= u.Sent() && (t.finSent ==> u.finSent && t.Sent() == u.Sent())
    ensures NewSegments(s, u)
  {
    hide Chain, Total;
    var q, r := t.out[|s.out|..], u.out[|t.out|..];
    assert u.out[|s.out|..] == q + r;
    ChainMore(q, s.next, s.isn, t.Sent(), t.finSent, u.Sent(), u.finSent);
    ChainAppend(q, r, s.next, s.isn, u.Sent(), u.finSent);
    assert s.outstanding + (q + r) == s.outstanding + q + r;
  }

  lemma ExtendsTrans(s: Sender, t: Sender, u: Sender)
    requires s.stream.WF() && Extends(s, t) && Extends(t, u)
    ensures Extends(s, u)
  {
    hide NewSegments, Chain, Minus16;
    ModSubSub(s.free, t.next - s.next, u.next - t.next);
    NewSegmentsTrans(s, t, u);
  }

  lemma ExtendsSelf(s: Sender)
    requires s.Valid()
    ensures Extends(s, s)
  {
    assert s.out[|s.out|..] == [];
    assert s.outstanding + [] == s.outstanding;
  }

  /** `s'` is the sender `s` with the bytes of `payload` popped and the flags set, ready to send them. */
  ghost predicate Readies(s: Sender, s': Sender, syn: bool, fin: bool, payload: seq<byte>) {
    && s.Valid() && s'.stream.WF()
    && s'.stream == s.stream.(read := s'.stream.read) && s.stream.read <= s'.stream.read
    && s' == s.(stream := s'.stream, synSent := true, finSent := fin)
    && !s.finSent && s.synSent == !syn && |payload| <= MAX_PAYLOAD_SIZE
    && (syn || fin || payload != [])
    && s'.stream.read == s.stream.read + |payload|
    && payload == s.stream.history[s.stream.read..s'.stream.read]
    && (syn ==> !fin && payload == [])
    && (fin ==> s.stream.ended && s'.stream.read == |s.stream.history|)
  }

  function NextSegment(s: Sender, syn: bool, fin: bool, payload: seq<byte>): TCPSegment {
    TCPSegment(BLANK.(seqno := Wrap(s.next, s.isn), syn := syn, fin := fin), payload)
  }

  lemma SendOne(s: Sender, s': Sender, syn: bool, fin: bool, payload: seq<byte>)
    requires Readies(s, s', syn, fin, payload)
    ensures var t, seg := s'.Send(syn, fin, payload), NextSegment(s, syn, fin, payload);
            && t.out == s.out + [seg] && t.outstanding == s.outstanding + [seg]
            && 0 < seg.Length() && t.next == s.next + seg.Length()
            && Emitted(seg, s.next, s.isn, t.Sent(), t.finSent)
            && s.Sent() <= t.Sent()
  {
    hide Wrap, Minus16, Chain, Total;
  }

  lemma ChainOne(seg: TCPSegment, a: nat, isn: u32, sent: seq<byte>, finished: bool)
    requires 0 < seg.Length() && |seg.payload| <= MAX_PAYLOAD_SIZE && Emitted(seg, a, isn, sent, finished)
    ensures Chain([seg], a, isn, sent, finished) && Total([seg]) == seg.Length()
  {
    assert [seg][1..] == [];
    hide Emitted;
  }

  lemma SendQueues(s: Sender, s': Sender, syn: bool, fin: bool, payload: seq<byte>)
    requires Readies(s, s', syn, fin, payload)
    ensures var t, seg := s'.Send(syn, fin, payload), NextSegment(s, syn, fin, payload);
            && t.out[|s.out|..] == [seg] && t.out[..|s.out|] == s.out && t.outstanding == s.outstanding + [seg]
            && 0 < seg.Length() && t.next == s.next + seg.Length()
            && Chain([seg], s.next, s.isn, t.Sent(), t.finSent) && Total([seg]) == seg.Length()
            && Chain(s.outstanding + [seg], s.Start(), s.isn, t.Sent(), t.finSent)
            && Total(s.outstanding + [seg]) == s.inFlight + seg.Length()
  {
    var t, seg := s'.Send(syn, fin, payload), NextSegment(s, syn, fin, payload);
    SendOne(s, s', syn, fin, payload);
    hide Sender.Send, NextSegment, Emitted, Chain, Total;
    ChainOne(seg, s.next, s.isn, t.Sent(), t.finSent);
    ChainMore(s.outstanding, s.next - s.inFlight, s.isn, s.Sent(), s.finSent, t.Sent(), t.finSent);
    ChainAppend(s.outstanding, [seg], s.next - s.inFlight, s.isn, t.Sent(), t.finSent);
  }

  lemma SendExtends(s: Sender, s': Sender, syn: bool, fin: bool, payload: seq<byte>)
    requires Readies(s, s', syn, fin, payload)
    ensures Extends(s, s'.Send(syn, fin, payload))
    ensures s'.Send(syn, fin, payload).next == s.next + |payload| + Bit(syn) + Bit(fin)
  {
    SendQueues(s, s', syn, fin, payload);
    hide Wrap, Minus16, Chain, Total;
  }

  lemma SendDataExtends(s: Sender, n: nat, fin: bool)
    requires s.Valid() && s.synSent && !s.finSent
    requires n <= s.stream.Buffered() && n <= MAX_PAYLOAD_SIZE && (0 < n || fin)
    requires fin ==> s.stream.Pop(n).Eof()
    ensures Extends(s, s.SendData(n, fin)) && s.SendData(n, fin).next == s.next + n + Bit(fin)
    ensures var t := s.SendData(n, fin);
            && t.Valid() && t.synSent && t.finSent == fin && t.stream == s.stream.Pop(n)
            && t.free == Minus16(s.free, n + Bit(fin))
  {
    var payload := s.stream.Buffer()[..n];
    assert payload == s.stream.history[s.stream.read..s.stream.read + n];
    SendExtends(s, s.(stream := s.stream.Pop(n), finSent := fin), false, fin, payload);
  }

  /** One round of the loop. */
  lemma FillRound(s: Sender, n: nat, fin: bool)
    requires s.Valid() && s.synSent && !s.finSent && 0 < s.free
    requires 0 < s.stream.Buffered() || s.stream.ended
    requires n == s.ChunkSize() && fin == (s.stream.Pop(n).Eof() && s.free > n)
    ensures var t := s.SendData(n, fin);
            && Extends(s, t) && t.Valid() && t.synSent && t.finSent == fin
            && t.stream == s.stream.Pop(n) && (0 < t.stream.Buffered() ==> !fin)
            && t.next == s.next + n + Bit(fin) && t.free == s.free - n - Bit(fin)
  {
    SendDataExtends(s, n, fin);
  }

  lemma {:induction false} FillLoopExtends(s: Sender)
    requires s.Valid() && s.synSent && !s.finSent
    requires 0 < s.stream.Buffered() || s.stream.ended
    ensures Extends(s, s.FillLoop())
    decreases s.stream.Buffered()
  {
    ExtendsSelf(s);
    hide Extends, Sender.SendData, Sender.ChunkSize;
    if s.free != 0 {
      var n := s.ChunkSize();
      var fin := s.stream.Pop(n).Eof() && s.free > n;
      FillRound(s, n, fin);
      var t := s.SendData(n, fin);
      if t.stream.Buffered() != 0 {
        FillLoopExtends(t);
        ExtendsTrans(s, t, t.FillLoop());
      }
    }
  }

  /** The loop sends exactly as much as fits: all buffered bytes and the FIN, or the free space. */
  lemma {:induction false} FillLoopExact(s: Sender)
    requires s.Valid() && s.synSent && !s.finSent
    requires 0 < s.stream.Buffered() || s.stream.ended
    ensures s.FillLoop().next == s.next + Min(s.free, s.stream.Buffered() + Bit(s.stream.ended))
    decreases s.stream.Buffered()
  {
    hide Extends, Sender.SendData;
    if s.free != 0 {
      var n := s.ChunkSize();
      var fin := s.stream.Pop(n).Eof() && s.free > n;
      FillRound(s, n, fin);
      var t := s.SendData(n, fin);
      if t.stream.Buffered() != 0 {
        FillLoopExact(t);
      }
    }
  }

  /** The segments that `t` has queued beyond those of `s`, all but the last, are as long as can be. */
  ghost predicate FullButLast(s: Sender, t: Sender) {
    forall i | |s.out| <= i < |t.out| - 1 :: |t.out[i].payload| == MAX_PAYLOAD_SIZE
  }

  /** What one round queues. */
  lemma RoundQueues(s: Sender, n: nat, fin: bool)
    requires s.stream.WF() && n <= s.stream.Buffered()
    ensures var t := s.SendData(n, fin);
            |t.out| == |s.out| + 1 && t.out[..|s.out|] == s.out && |t.out[|s.out|].payload| == n
  {
  }

  lemma {:induction false} FillLoopFull(s: Sender)
    requires s.Valid() && s.synSent && !s.finSent
    requires 0 < s.stream.Buffered() || s.stream.ended
    ensures var t := s.FillLoop(); |s.out| <= |t.out| && t.out[..|s.out|] == s.out && FullButLast(s, t)
    decreases s.stream.Buffered()
  {
    hide Extends, Sender.SendData, Chain, Total, Minus16;
    if s.free != 0 {
      var n := s.ChunkSize();
      var fin := s.stream.Pop(n).Eof() && s.free > n;
      FillRound(s, n, fin);
      RoundQueues(s, n, fin);
      var t := s.SendData(n, fin);
      if t.stream.Buffered() != 0 {
        FillLoopFull(t);
        var u := t.FillLoop();
        assert u.out[..|s.out|] == t.out[..|s.out|];
        assert u.out[|s.out|] == t.out[|s.out|];
        if |t.out| < |u.out| { assert n == MAX_PAYLOAD_SIZE; }
      }
    }
  }

  /** However much there is to send, it goes out in as few segments as possible. */
  lemma FillWindowFull(s: Sender)
    requires s.Valid()
    ensures FullButLast(s, s.FillWindow())
  {
    if Open(s) && (0 < s.stream.Buffered() || s.stream.ended) { FillLoopFull(s); }
    hide Sender.FillLoop, Sender.Conserves;
  }

  /** Ready to send data: the SYN is acknowledged, the FIN not sent yet. */
  predicate Open(s: Sender) {
    s.synSent && !s.finSent && (s.outstanding == [] || !s.outstanding[0].header.syn)
  }

  /** `fill_window` keeps the sender consistent and sends a SYN, what fits an open window, or one
      sequence number into a closed one. */
  lemma FillWindowExact(s: Sender)
    requires s.Valid()
    ensures Extends(s, s.FillWindow())
    ensures s.FillWindow().next - s.next ==
            var ready := s.stream.Buffered() + Bit(s.stream.ended);
            if !s.synSent then 1
            else if !Open(s) then 0
            else if s.window != 0 then Min(s.free, ready)
            else if s.free == 0 then Min(1, ready)
            else 0
  {
    ExtendsSelf(s);
    hide Extends, Sender.SendData, Sender.FillLoop, Sender.Send;
    if !s.synSent {
      SendExtends(s, s.(synSent := true), true, false, []);
    } else if Open(s) && (0 < s.stream.Buffered() || s.stream.ended) {
      if s.window != 0 {
        FillLoopExtends(s);
        FillLoopExact(s);
      } else if s.free == 0 {
        if s.stream.Eof() { SendDataExtends(s, 0, true); } else { SendDataExtends(s, 1, false); }
      }
    }
  }
}
