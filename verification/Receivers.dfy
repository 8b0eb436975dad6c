/** The receiving half of a connection: absolute positions, acknowledgements and the window. */
module Receivers {
  import opened Basics
  import opened WrappingIntegers
  import opened ByteStreams
  import opened Reassembly
  import opened Segments

  datatype Receiver = Receiver(window: Window, synReceived: bool, finReceived: bool, isn: u32)
  {
    /** The stream index of a segment after the SYN: 64-bit, so a segment at absolute number zero
        lands on the largest index. */
    function Index(seg: TCPSegment): nat {
      (Unwrap(seg.header.seqno, isn, window.Base()) - 1) % TWO_64
    }

    function Place(seg: TCPSegment): nat {
      if synReceived then Index(seg) else 0
    }

    predicate Flow(seg: TCPSegment) {
      synReceived || seg.header.syn ==> window.Flow(seg.payload, Place(seg))
    }

    function SegmentReceived(seg: TCPSegment): Receiver {
      if !seg.header.syn && !synReceived then this
      else Receiver(window.Push(seg.payload, Place(seg), seg.header.fin),
                    true,
                    finReceived || seg.header.fin,
                    if synReceived then isn else seg.header.seqno)
    }

    /** The acknowledgement number before wrapping: SYN and, once nothing is missing, FIN count. */
    function AbsoluteAck(): nat {
      window.Base() + 1 + Bit(window.store == map[] && finReceived)
    }

    function Ackno(): Option<u32> {
      if synReceived then Some(Wrap(AbsoluteAck(), isn)) else None
    }

    function WindowSize(): nat
      requires window.WF()
    {
      window.out.capacity - window.out.Buffered()
    }

    /** The first absolute sequence number the receiver does not accept. */
    function RightEdge(): nat
      requires window.WF()
    {
      AbsoluteAck() + WindowSize()
    }

    function Read(n: nat): Receiver
      requires window.out.WF()
    {
      this.(window := window.Read(n))
    }

    /** What has arrived agrees with the peer's stream, and its end is known only with its last byte. */
    predicate Sound(truth: seq<byte>) {
      && window.WF() && window.Agrees(truth) && window.EndSound(truth)
      && finReceived == window.eof
      && (!synReceived ==> window.Base() == 0 && window.store == map[] && !finReceived)
    }
  }

  function Listening(capacity: nat): Receiver {
    Receiver(Empty(capacity), false, false, 0)
  }

  /** The premises on one arriving segment: it carries part of the peer's stream at a position the
      checkpoint can recover, and it respects the window. A second SYN with bytes is placed at the
      largest 64-bit index, which must lie past the window. */
  predicate Arrives(r: Receiver, seg: TCPSegment, a: nat, isn: u32, truth: seq<byte>) {
    && Carries(seg, a, isn, truth)
    && (r.synReceived ==> r.isn == isn)
    && (seg.payload != [] || seg.header.fin ==> InReach(a, r.window.Base()))
    && r.Flow(seg)
    && (r.synReceived && seg.header.syn && seg.payload != [] ==>
          r.window.Base() + r.window.out.capacity < TWO_64)
  }

  /** The FIN is neither cut off by the window nor ahead of the last byte. The one on a second SYN
      needs a mark that was seen already, or the last byte pending. */
  predicate FinOk(r: Receiver, seg: TCPSegment) {
    seg.header.fin && (r.synReceived || seg.header.syn) ==>
      if r.synReceived && seg.header.syn then
        seg.payload == [] || r.window.eof || |seg.payload| - 1 in r.window.store
      else
        !r.window.Truncates(seg.payload, r.Place(seg)) && !EarlyMark(r.window, seg.payload, r.Place(seg), true)
  }

  predicate Punctual(r: Receiver, seg: TCPSegment, a: nat, isn: u32, truth: seq<byte>) {
    Arrives(r, seg, a, isn, truth) && FinOk(r, seg)
  }

  lemma RecoversIndex(r: Receiver, seg: TCPSegment, a: nat, isn: u32)
    requires r.isn == isn && seg.header.seqno == Wrap(a, isn) && InReach(a, r.window.Base())
    requires 0 < a <= TWO_64
    ensures r.Index(seg) == a - 1
  {
    UnwrapWrap(a, isn, r.window.Base());
  }

  /** An empty substring can only set marks. */
  lemma EmptyPushFrame(w: Window, index: nat, last: bool)
    requires w.WF()
    ensures var v := w.Push([], index, last);
            v.store == w.store && v.out == w.out.(ended := v.out.ended)
  {
    assert Absorb(w.store, [], index, w.Base(), w.Edge()) == w.store;
    assert From(w.store, w.Base()) == w.store;
    assert w.out.history + [] == w.out.history;
  }

  /** Without a mark of its own it changes nothing when the end is sound. */
  lemma EmptyPush(w: Window, index: nat, truth: seq<byte>)
    requires w.WF() && w.EndSound(truth)
    ensures w.Push([], index, false) == w
  {
    EmptyPushFrame(w, index, false);
  }

  /** Bytes at their true index. */
  lemma PlacedKeepsSound(r: Receiver, seg: TCPSegment, truth: seq<byte>)
    requires r.Sound(truth) && (r.synReceived || seg.header.syn) && r.Flow(seg)
    requires MarksEnd(truth, seg.payload, r.Place(seg), seg.header.fin)
    ensures r.SegmentReceived(seg).Sound(truth) <==>
            (seg.header.fin ==> !r.window.Truncates(seg.payload, r.Place(seg))
                                && !EarlyMark(r.window, seg.payload, r.Place(seg), true))
  {
    var w, i := r.window, r.Place(seg);
    hide Window.Push, Receiver.Place;
    PushKeepsWF(w, seg.payload, i, seg.header.fin);
    PushAgrees(w, seg.payload, i, seg.header.fin, truth);
    PushEndSound(w, seg.payload, i, seg.header.fin, truth);
  }

  /** A push past the window only sets the mark. */
  lemma PushPast(w: Window, data: seq<byte>, index: nat, last: bool)
    requires data != [] && w.Base() + w.out.capacity <= index
    ensures w.Push(data, index, last) == w.(eof := w.eof || last)
  {
  }

  lemma SynCopyIndex(r: Receiver, seg: TCPSegment, isn: u32)
    requires r.isn == isn && seg.header.seqno == Wrap(0, isn) && InReach(0, r.window.Base())
    ensures r.Index(seg) == TWO_64 - 1
  {
    UnwrapWrap(0, isn, r.window.Base());
    hide Wrap, Unwrap;
  }

  /** A second SYN: its bytes are dropped, its FIN is not. */
  lemma SynCopyKeepsSound(r: Receiver, seg: TCPSegment, a: nat, isn: u32, truth: seq<byte>)
    requires r.Sound(truth) && Arrives(r, seg, a, isn, truth) && r.synReceived && seg.header.syn
    requires seg.payload != [] || seg.header.fin
    ensures r.SegmentReceived(seg).Sound(truth) <==> FinOk(r, seg)
    ensures !seg.header.fin ==> r.SegmentReceived(seg) == r
  {
    hide Receiver.Index, Window.Push, Wrap, Unwrap;
    SynCopyIndex(r, seg, isn);
    if seg.payload == [] {
      assert r.window.store == map[] by { assert forall i | i in r.window.store :: i < |truth|; }
      PushFlags(r.window, [], r.Place(seg), true);
      EmptyPushFrame(r.window, r.Place(seg), true);
    } else {
      PushPast(r.window, seg.payload, r.Place(seg), seg.header.fin);
    }
  }

  /** What arrives at its place keeps the receiver's knowledge true exactly when its FIN is neither cut
      off nor early. */
  lemma SegmentKeepsSound(r: Receiver, seg: TCPSegment, a: nat, isn: u32, truth: seq<byte>)
    requires r.Sound(truth) && Arrives(r, seg, a, isn, truth) && |truth| < TWO_64
    ensures r.SegmentReceived(seg).Sound(truth) <==> FinOk(r, seg)
  {
    hide Window.Push;
    if seg.payload == [] && !seg.header.fin {
      EmptyPush(r.window, r.Place(seg), truth);
    } else if r.synReceived && seg.header.syn {
      SynCopyKeepsSound(r, seg, a, isn, truth);
    } else if r.synReceived || seg.header.syn {
      if r.synReceived { RecoversIndex(r, seg, a, isn); }
      PlacedKeepsSound(r, seg, truth);
    }
  }

  // ---- What moves back ------------------------------------------------------------------------

  /** The receiver has counted a FIN because nothing was pending, and `seg` brings a byte from beyond a
      gap, so that something is. */
  predicate Uncounts(r: Receiver, seg: TCPSegment) {
    && (r.synReceived || seg.header.syn) && r.finReceived && r.window.store == map[]
    && seg.payload != [] && r.window.Base() < r.Place(seg) < r.window.Edge()
  }

  lemma EdgesByBase(r: Receiver)
    requires r.window.WF()
    ensures r.RightEdge() == r.window.Edge() + 1 + Bit(r.window.store == map[] && r.finReceived)
  {
  }

  /** A push onto an empty store leaves something pending exactly when it starts behind a gap. */
  lemma PushPends(w: Window, data: seq<byte>, index: nat, last: bool)
    requires w.WF() && w.Flow(data, index) && w.store == map[]
    ensures var v := w.Push(data, index, last);
            && (v.store != map[] <==> data != [] && w.Base() < index < w.Edge())
            && (v.store != map[] ==> v.Base() == w.Base())
  {
    var v := w.Push(data, index, last);
    PushKeepsWF(w, data, index, last);
    PushReceives(w, data, index, last, v.Base());
    PushReceives(w, data, index, last, w.Base());
    PushReceives(w, data, index, last, index);
    hide Window.Push;
    if v.store != map[] {
      var i :| i in v.store;
      PushReceives(w, data, index, last, i);
    }
  }

  lemma PushKeepsEdge(w: Window, data: seq<byte>, index: nat, last: bool)
    ensures w.Push(data, index, last).Edge() == w.Edge()
  {
  }

  /** In every state, the acknowledgement moves back exactly when a segment uncounts a FIN, and so does
      the right edge of the window. */
  lemma RetreatsExactly(r: Receiver, seg: TCPSegment)
    requires r.window.WF() && r.Flow(seg)
    ensures var r' := r.SegmentReceived(seg);
            && r'.window.WF()
            && (r'.AbsoluteAck() < r.AbsoluteAck() <==> Uncounts(r, seg))
            && (r'.RightEdge() < r.RightEdge() <==> Uncounts(r, seg))
  {
    var w, i := r.window, r.Place(seg);
    if r.synReceived || seg.header.syn {
      PushKeepsWF(w, seg.payload, i, seg.header.fin);
      PushKeepsEdge(w, seg.payload, i, seg.header.fin);
      if w.store == map[] { PushPends(w, seg.payload, i, seg.header.fin); }
    }
    hide Window.Push, Receiver.Place, Receiver.RightEdge;
    EdgesByBase(r);
    EdgesByBase(r.SegmentReceived(seg));
  }

  /** A receiver that knows its peer's stream truly has nothing to uncount. */
  lemma SoundNeverUncounts(r: Receiver, seg: TCPSegment, a: nat, isn: u32, truth: seq<byte>)
    requires r.Sound(truth) && Arrives(r, seg, a, isn, truth) && |truth| < TWO_64
    ensures !Uncounts(r, seg)
  {
    if Uncounts(r, seg) && r.synReceived {
      if seg.header.syn { SynCopyIndex(r, seg, isn); } else { RecoversIndex(r, seg, a, isn); }
      hide Receiver.Index, Wrap;
    }
  }

  /** So with a punctual segment neither moves back. */
  lemma SegmentNeverRetreats(r: Receiver, seg: TCPSegment, a: nat, isn: u32, truth: seq<byte>)
    requires r.Sound(truth) && Punctual(r, seg, a, isn, truth) && |truth| < TWO_64
    ensures var r' := r.SegmentReceived(seg);
            r'.Sound(truth) && r.AbsoluteAck() <= r'.AbsoluteAck() && r.RightEdge() <= r'.RightEdge()
  {
    SegmentKeepsSound(r, seg, a, isn, truth);
    SoundNeverUncounts(r, seg, a, isn, truth);
    RetreatsExactly(r, seg);
    hide Receiver.SegmentReceived, Uncounts;
  }

  // ---- The acknowledgement number -------------------------------------------------------------

  /** The receiver has the absolute sequence number `n` of a peer whose whole stream is `truth`: zero
      is the SYN, then the bytes, then the FIN. */
  predicate Has(r: Receiver, n: nat, truth: seq<byte>) {
    if n == 0 then r.synReceived
    else if n <= |truth| then r.window.Received(n - 1)
    else n == |truth| + 1 && r.finReceived
  }

  ghost predicate FirstMissing(r: Receiver, n: nat, truth: seq<byte>) {
    !Has(r, n, truth) && forall m: nat | m < n :: Has(r, m, truth)
  }

  /** In every state the acknowledgement is the first missing number exactly unless a FIN was seen and
      nothing is pending while bytes are missing. In a sound state that does not happen. */
  lemma AckIsFirstMissing(r: Receiver, truth: seq<byte>)
    requires r.window.WF() && r.window.Agrees(truth) && r.synReceived
    ensures FirstMissing(r, r.AbsoluteAck(), truth) <==>
            !(r.finReceived && r.window.store == map[] && r.window.Base() < |truth|)
    ensures r.Sound(truth) ==> FirstMissing(r, r.AbsoluteAck(), truth)
  {
    if r.window.Base() == |truth| {
      assert r.window.store == map[] by { assert forall i | i in r.window.store :: i < |truth|; }
    }
    assert r.AbsoluteAck() == r.window.Base() + 2 ==> r.window.Base() + 1 < r.AbsoluteAck();
    assert Has(r, r.window.Base() + 1, truth) <==> r.window.Base() == |truth| && r.finReceived;
  }

  // ---- Runs -----------------------------------------------------------------------------------

  datatype Event = Arrival(seg: TCPSegment, a: nat) | AppRead(n: nat)

  ghost function Step(r: Receiver, e: Event): (v: Receiver)
    requires r.window.WF() && (e.Arrival? ==> r.Flow(e.seg))
    ensures v.window.WF()
  {
    match e
    case Arrival(seg, _) => RetreatsExactly(r, seg); r.SegmentReceived(seg)
    case AppRead(n) => r.Read(n)
  }

  ghost predicate FlowRun(r: Receiver, es: seq<Event>)
    requires r.window.WF()
    decreases |es|
  {
    es == [] || ((es[0].Arrival? ==> r.Flow(es[0].seg)) && FlowRun(Step(r, es[0]), es[1..]))
  }

  ghost function Exec(r: Receiver, es: seq<Event>): (v: Receiver)
    requires r.window.WF() && FlowRun(r, es)
    ensures v.window.WF()
    decreases |es|
  {
    if es == [] then r else Exec(Step(r, es[0]), es[1..])
  }

  ghost predicate Forward(r: Receiver, v: Receiver)
    requires r.window.WF() && v.window.WF()
  {
    r.AbsoluteAck() <= v.AbsoluteAck() && r.RightEdge() <= v.RightEdge()
  }

  /** No step of the run moves the acknowledgement or the right edge back. */
  ghost predicate ForwardRun(r: Receiver, es: seq<Event>)
    requires r.window.WF() && FlowRun(r, es)
    decreases |es|
  {
    es == [] || (Forward(r, Step(r, es[0])) && ForwardRun(Step(r, es[0]), es[1..]))
  }

  /** No segment of the run uncounts a FIN. */
  ghost predicate CountedRun(r: Receiver, es: seq<Event>)
    requires r.window.WF() && FlowRun(r, es)
    decreases |es|
  {
    es == [] || ((es[0].Arrival? ==> !Uncounts(r, es[0].seg)) && CountedRun(Step(r, es[0]), es[1..]))
  }

  lemma StepForward(r: Receiver, e: Event)
    requires r.window.WF() && (e.Arrival? ==> r.Flow(e.seg))
    ensures Forward(r, Step(r, e)) <==> (e.Arrival? ==> !Uncounts(r, e.seg))
  {
    if e.Arrival? {
      RetreatsExactly(r, e.seg);
      hide Receiver.SegmentReceived, Uncounts;
    }
  }

  /** Over every interleaving of segments and reads, whatever they carry: the acknowledgement and the
      right edge only grow exactly when no segment uncounts a FIN. */
  lemma {:induction false} ReceiverNeverRetreats(r: Receiver, es: seq<Event>)
    requires r.window.WF() && FlowRun(r, es)
    ensures ForwardRun(r, es) <==> CountedRun(r, es)
    ensures ForwardRun(r, es) ==> Forward(r, Exec(r, es))
    decreases |es|
  {
    hide Uncounts;
    if es != [] {
      StepForward(r, es[0]);
      ReceiverNeverRetreats(Step(r, es[0]), es[1..]);
    }
  }

  ghost predicate PunctualRun(r: Receiver, es: seq<Event>, isn: u32, truth: seq<byte>)
    requires r.window.WF()
    ensures PunctualRun(r, es, isn, truth) ==> FlowRun(r, es)
    decreases |es|
  {
    es == [] || (
      && (es[0].Arrival? ==> Punctual(r, es[0].seg, es[0].a, isn, truth))
      && PunctualRun(Step(r, es[0]), es[1..], isn, truth))
  }

  /** A run of punctual segments is such a run, so an ordered channel delivers acknowledgements the
      sender can rely on. */
  lemma {:induction false} PunctualRunCounts(r: Receiver, es: seq<Event>, isn: u32, truth: seq<byte>)
    requires r.Sound(truth) && PunctualRun(r, es, isn, truth) && |truth| < TWO_64
    ensures CountedRun(r, es) && Exec(r, es).Sound(truth)
    decreases |es|
  {
    if es != [] {
      var e := es[0];
      if e.Arrival? {
        SoundNeverUncounts(r, e.seg, e.a, isn, truth);
        SegmentKeepsSound(r, e.seg, e.a, isn, truth);
      }
      assert Step(r, e).Sound(truth);
      hide Receiver.Sound, Uncounts, Punctual;
      PunctualRunCounts(Step(r, e), es[1..], isn, truth);
    }
  }

  // ---- Phases ---------------------------------------------------------------------------------

  datatype Phase = LISTEN | SYN_RECV | FIN_RECV

  function Rank(p: Phase): nat {
    match p
    case LISTEN => 0
    case SYN_RECV => 1
    case FIN_RECV => 2
  }

  /** The phase of a receiver whose stream is not in error. */
  function Summary(r: Receiver): Phase {
    if r.Ackno().None? then LISTEN else if r.window.out.ended then FIN_RECV else SYN_RECV
  }

  /** Phases never go back, whatever arrives. In a sound state the last one means that the peer's
      whole stream is assembled. */
  lemma SegmentKeepsOrder(r: Receiver, seg: TCPSegment, truth: seq<byte>)
    ensures Rank(Summary(r)) <= Rank(Summary(r.SegmentReceived(seg)))
    ensures r.Sound(truth) ==> (Summary(r) == FIN_RECV ==> r.window.out.history == truth)
  {
    EndedStays(r.window, seg.payload, r.Place(seg), seg.header.fin);
    if r.Sound(truth) { EndedExactly(r.window, truth); }
    hide Window.Push;
  }
}
