/** TCP segments carried in IPv4 datagrams, across any number of routers. */
module TcpOverIp {
  import opened Basics
  import opened Checksums
  import opened Parsing
  import opened Segments
  import opened TcpWire
  import opened Ipv4Wire
  import opened Routers

  datatype Address = Address(ip: u32, port: u16)

  datatype Adapter = Adapter(source: Address, destination: Address, listening: bool)
  {
    function WithPorts(seg: TCPSegment): TCPSegment {
      seg.(header := seg.header.(sport := source.port, dport := destination.port))
    }

    /** The header of a datagram for `seg`; the length is a 16-bit field. */
    function Header(seg: TCPSegment): IPv4Header {
      DEFAULT_HEADER.(src := source.ip, dst := destination.ip,
                      len := (4 * DEFAULT_HEADER.hlen + 4 * seg.header.doff + |seg.payload|) % TWO_16)
    }

    /** Nothing when the segment's header is too short to print. */
    function Wrap(seg: TCPSegment): Option<IPv4Datagram> {
      var h := Header(seg);
      match SerializeSegment(WithPorts(seg), h.PseudoChecksum())
      case None => None
      case Some(bytes) => Some(IPv4Datagram(h, bytes))
    }

    /** A listening adapter takes its addresses from the first SYN that reaches its port. */
    function Learn(h: IPv4Header, seg: TCPSegment): Adapter {
      Adapter(Address(h.dst, source.port), Address(h.src, seg.header.sport), false)
    }

    function Unwrap(d: IPv4Datagram): (Adapter, Option<TCPSegment>) {
      var h := d.header;
      if !listening && (h.dst != source.ip || h.src != destination.ip) then (this, None)
      else if h.proto != PROTO_TCP then (this, None)
      else
        var (r, seg) := ParseSegment(d.payload, h.PseudoChecksum());
        if r != NoError || seg.header.dport != source.port then (this, None)
        else if listening && !(seg.header.syn && !seg.header.rst) then (this, None)
        else
          var a := if listening then Learn(h, seg) else this;
          (a, if seg.header.sport != a.destination.port then None else Some(seg))
    }

    /** The adapter at the other end of the same connection. */
    function Mirror(): Adapter {
      Adapter(destination, source, false)
    }
  }

  /** The segment fits a datagram. */
  predicate Fits(seg: TCPSegment) {
    5 <= seg.header.doff <= 15 && HEADER_LENGTH + 4 * seg.header.doff + |seg.payload| <= 0xffff
  }

  /** What a router with this table does to a datagram that arrives printed: parse it and decide. */
  function Hop(table: seq<RouteEntry>, d: IPv4Datagram): Option<IPv4Datagram> {
    match SerializeDatagram(d)
    case None => None
    case Some(bytes) =>
      var (r, e) := ParseDatagram(bytes);
      if r != NoError then None
      else match Decide(table, e)
        case None => None
        case Some(f) => Some(f.d)
  }

  /** The routers with these tables one after the other. */
  function Hops(tables: seq<seq<RouteEntry>>, d: IPv4Datagram): Option<IPv4Datagram>
    decreases |tables|
  {
    if tables == [] then Some(d)
    else match Hop(tables[0], d)
      case None => None
      case Some(e) => Hops(tables[1..], e)
  }

  /** Every one of the tables has a route to the destination. */
  ghost predicate Routed(tables: seq<seq<RouteEntry>>, destination: u32) {
    forall i | 0 <= i < |tables| :: Best(tables[i], destination).Some?
  }

  /** The same datagram up to its time to live and its checksum. */
  predicate SameCargo(d: IPv4Datagram, e: IPv4Datagram) {
    e == d.(header := d.header.(ttl := e.header.ttl, cksum := e.header.cksum))
  }

  /** Printing and parsing on the way to a router changes nothing but the checksum of what it decides. */
  lemma HopDecides(table: seq<RouteEntry>, d: IPv4Datagram)
    requires Printable(d)
    ensures Hop(table, d).Some? <==> Decide(table, d).Some?
    ensures Hop(table, d).Some? ==>
              var e := Hop(table, d).value;
              e == Decide(table, d).value.d.(header := Decide(table, d).value.d.header.(cksum := e.header.cksum))
  {
    hide SerializeDatagram, ParseDatagram, Best;
    DatagramRoundTrip(d);
  }

  lemma HopKeepsCargo(table: seq<RouteEntry>, d: IPv4Datagram)
    requires Printable(d)
    ensures Hop(table, d).Some? <==> 1 < d.header.ttl && Best(table, d.header.dst).Some?
    ensures Hop(table, d).Some? ==>
              SameCargo(d, Hop(table, d).value) && Hop(table, d).value.header.ttl == d.header.ttl - 1
  {
    hide Hop, Best;
    HopDecides(table, d);
  }

  /** A datagram gets through exactly when each of the routers has a route and they are fewer than its
      time to live, and then with its cargo. */
  lemma {:induction false} HopsKeepCargo(tables: seq<seq<RouteEntry>>, d: IPv4Datagram)
    requires Printable(d) && 0 < d.header.ttl
    ensures Hops(tables, d).Some? <==> |tables| < d.header.ttl && Routed(tables, d.header.dst)
    ensures Hops(tables, d).Some? ==>
              SameCargo(d, Hops(tables, d).value) && Hops(tables, d).value.header.ttl == d.header.ttl - |tables|
    decreases |tables|
  {
    hide Hop, Best;
    if tables != [] {
      HopKeepsCargo(tables[0], d);
      assert Routed(tables, d.header.dst) <==> Best(tables[0], d.header.dst).Some? && Routed(tables[1..], d.header.dst)
        by { RoutedCons(tables, d.header.dst); }
      if Hop(tables[0], d).Some? {
        HopsKeepCargo(tables[1..], Hop(tables[0], d).value);
      }
    }
  }

  lemma RoutedCons(tables: seq<seq<RouteEntry>>, destination: u32)
    requires tables != []
    ensures Routed(tables, destination) <==> Best(tables[0], destination).Some? && Routed(tables[1..], destination)
  {
    hide Best;
    assert forall i | 0 < i < |tables| :: tables[i] == tables[1..][i - 1];
  }

  /** Wrapping a segment that fits gives a printable datagram. */
  lemma WrapPrintable(a: Adapter, seg: TCPSegment)
    requires Fits(seg)
    ensures a.Wrap(seg).Some? && Printable(a.Wrap(seg).value)
    ensures a.Wrap(seg).value.header == a.Header(seg)
  {
    hide Adapter.WithPorts, WithChecksum;
    assert a.WithPorts(seg).header.doff == seg.header.doff && |a.WithPorts(seg).payload| == |seg.payload| by {
      WithPortsShape(a, seg);
    }
    WithChecksumShape(a.WithPorts(seg), a.Header(seg).PseudoChecksum());
  }

  lemma WithPortsShape(a: Adapter, seg: TCPSegment)
    ensures a.WithPorts(seg).header.doff == seg.header.doff && a.WithPorts(seg).payload == seg.payload
  {
  }

  lemma WithChecksumShape(seg: TCPSegment, pseudo: u32)
    requires 5 <= seg.header.doff
    ensures WithChecksum(seg, pseudo).header.doff == seg.header.doff
    ensures WithChecksum(seg, pseudo) == seg.(header := seg.header.(cksum := WithChecksum(seg, pseudo).header.cksum))
  {
  }

  /** The segment that arrives: ports set, checksum filled in. */
  function Arriving(a: Adapter, seg: TCPSegment): TCPSegment
    requires 5 <= seg.header.doff
  {
    WithChecksum(a.WithPorts(seg), a.Header(seg).PseudoChecksum())
  }

  lemma HeaderFields(a: Adapter, seg: TCPSegment)
    requires Fits(seg)
    ensures var h := a.Header(seg);
            && h.src == a.source.ip && h.dst == a.destination.ip && h.proto == 6
            && h.PayloadLength() == 4 * seg.header.doff + |seg.payload|
  {
  }

  /** The checksum of every wrapped segment verifies against the addresses, the protocol and the length it
      is sent with, as any TCP peer computes it. */
  lemma WrappedVerifies(a: Adapter, seg: TCPSegment)
    requires Fits(seg)
    ensures a.Wrap(seg).Some?
    ensures var d := a.Wrap(seg).value;
            var n: u16 := 4 * seg.header.doff + |seg.payload|;
            && |d.payload| == n
            && Complement(WordSum(Long(a.source.ip) + Long(a.destination.ip) + [0, 6] + Word(n) + d.payload, false)) == 0
  {
    hide WordSum, Complement, HeaderBytes, Long, Word;
    var h, t := a.Header(seg), a.WithPorts(seg);
    HeaderFields(a, seg);
    PseudoChecksumIs(h);
    WithPortsShape(a, seg);
    WithChecksumShape(t, h.PseudoChecksum());
    ChecksumVerifies(t.header, t.payload, h.PseudoChecksum());
    var bytes := a.Wrap(seg).value.payload;
    SumFits(bytes, h.PseudoChecksum());
    WordSumAppend(PseudoHeader(h), bytes, false);
    hide Adapter.Header, IPv4Header.PseudoChecksum, IPv4Header.PayloadLength;
  }

  /** Filtering: a connected adapter takes what was wrapped exactly when it is the other end of the same
      connection; a listening one exactly when the segment is a SYN, without RST, to its port. What is not
      taken changes nothing. */
  lemma UnwrapExactly(a: Adapter, seg: TCPSegment, d: IPv4Datagram, peer: Adapter)
    requires Fits(seg) && a.Wrap(seg).Some? && SameCargo(a.Wrap(seg).value, d)
    ensures var taken := if peer.listening then peer.source.port == a.destination.port && seg.header.syn && !seg.header.rst
                         else peer.source == a.destination && peer.destination == a.source;
            if taken then peer.Unwrap(d) == (a.Mirror(), Some(Arriving(a, seg))) else peer.Unwrap(d) == (peer, None)
  {
    hide SerializeSegment, ParseSegment, WithChecksum;
    var t, pseudo := a.WithPorts(seg), a.Header(seg).PseudoChecksum();
    assert d.header.PseudoChecksum() == pseudo < TWO_31;
    SegmentRoundTrip(t, pseudo);
    WithChecksumShape(t, pseudo);
  }

  /** Unwrapping a datagram with the cargo of a wrapped segment, at the mirrored peer or at a
      listening one that the segment's SYN reaches. */
  lemma UnwrapCargo(a: Adapter, seg: TCPSegment, d: IPv4Datagram, peer: Adapter)
    requires Fits(seg) && a.Wrap(seg).Some? && SameCargo(a.Wrap(seg).value, d)
    requires peer == a.Mirror()
             || (peer.listening && peer.source.port == a.destination.port && seg.header.syn && !seg.header.rst)
    ensures peer.Unwrap(d) == (a.Mirror(), Some(Arriving(a, seg)))
  {
    UnwrapExactly(a, seg, d, peer);
    hide Adapter.Unwrap, Adapter.Wrap;
  }

  /** What is not TCP is nobody's. */
  lemma OtherProtocolIgnored(d: IPv4Datagram, peer: Adapter)
    requires d.header.proto != 6
    ensures peer.Unwrap(d) == (peer, None)
  {
    hide ParseSegment;
  }

  /** And a segment with a changed byte is not taken. */
  lemma UnwrapRejectsError(a: Adapter, seg: TCPSegment, d: IPv4Datagram, peer: Adapter, k: nat, b: byte)
    requires Fits(seg) && a.Wrap(seg).Some? && SameCargo(a.Wrap(seg).value, d) && k < |d.payload| && d.payload[k] != b
    ensures peer.Unwrap(d.(payload := d.payload[k := b])) == (peer, None)
  {
    hide SerializeSegment, ParseSegment;
    var t, pseudo := a.WithPorts(seg), a.Header(seg).PseudoChecksum();
    assert d.header.PseudoChecksum() == pseudo < TWO_31;
    SegmentRoundTrip(t, pseudo);
    SerializedLength(t, pseudo);
    SingleByteErrorDetected(t, pseudo, k, b);
  }

  lemma SerializedLength(seg: TCPSegment, pseudo: u32)
    requires 5 <= seg.header.doff
    ensures |SerializeSegment(seg, pseudo).value| == 4 * seg.header.doff + |seg.payload|
  {
    WithChecksumShape(seg, pseudo);
    hide WithChecksum;
  }

  /** Nested round trip: a segment printed into a datagram, sent over fewer routers than its time to
      live that all have a route, parsed and unwrapped at the other end, is the same segment with the
      ports set. The peer is the mirrored adapter, or a listening one, which becomes the mirrored adapter. */
  lemma NestedRoundTrip(a: Adapter, seg: TCPSegment, tables: seq<seq<RouteEntry>>, peer: Adapter)
    requires Fits(seg) && |tables| < DEFAULT_TTL && Routed(tables, a.destination.ip)
    requires peer == a.Mirror()
             || (peer.listening && peer.source.port == a.destination.port && seg.header.syn && !seg.header.rst)
    ensures a.Wrap(seg).Some? && Hops(tables, a.Wrap(seg).value).Some?
    ensures var bytes := SerializeDatagram(Hops(tables, a.Wrap(seg).value).value);
            && bytes.Some? && ParseDatagram(bytes.value).0 == NoError
            && peer.Unwrap(ParseDatagram(bytes.value).1) == (a.Mirror(), Some(Arriving(a, seg)))
    ensures var r := Arriving(a, seg);
            r == seg.(header := seg.header.(sport := a.source.port, dport := a.destination.port, cksum := r.header.cksum))
  {
    hide SerializeDatagram, ParseDatagram, Hops, Adapter.Unwrap, Adapter.Wrap, WithChecksum, Routed;
    WrapPrintable(a, seg);
    var d := a.Wrap(seg).value;
    HopsKeepCargo(tables, d);
    var e := Hops(tables, d).value;
    DatagramRoundTrip(e);
    UnwrapCargo(a, seg, ParseDatagram(SerializeDatagram(e).value).1, peer);
    WithChecksumShape(a.WithPorts(seg), a.Header(seg).PseudoChecksum());
  }

  // ---- The adapter object ---------------------------------------------------------------------

  class TCPOverIPv4Adapter {
    var source: Address
    var destination: Address
    var listening: bool

    ghost function Value(): Adapter
      reads this
    {
      Adapter(source, destination, listening)
    }

    method UnwrapTcpInIp(d: IPv4Datagram) returns (seg: Option<TCPSegment>)
      modifies this
      ensures (Value(), seg) == old(Value()).Unwrap(d)
    {
      hide ParseSegment;
      if !listening && d.header.dst != source.ip {
        return None;
      }
      if !listening && d.header.src != destination.ip {
        return None;
      }
      if d.header.proto != PROTO_TCP {
        return None;
      }
      var r, tcpSeg := ReadSegment(d.payload, d.header.PseudoChecksum());
      if r != NoError {
        return None;
      }
      if tcpSeg.header.dport != source.port {
        return None;
      }
      if listening {
        if tcpSeg.header.syn && !tcpSeg.header.rst {
          source := Address(d.header.dst, source.port);
          destination := Address(d.header.src, tcpSeg.header.sport);
          listening := false;
        } else {
          return None;
        }
      }
      if tcpSeg.header.sport != destination.port {
        return None;
      }
      return Some(tcpSeg);
    }

    method WrapTcpInIp(seg: TCPSegment) returns (d: Option<IPv4Datagram>)
      ensures d == Value().Wrap(seg)
    {
      hide SerializeSegment;
      var out := seg.(header := seg.header.(sport := source.port, dport := destination.port));
      var h := DEFAULT_HEADER.(src := source.ip, dst := destination.ip);
      h := h.(len := (4 * h.hlen + 4 * out.header.doff + |out.payload|) % TWO_16);
      var bytes := PrintSegment(out, h.PseudoChecksum());
      d := if bytes.None? then None else Some(IPv4Datagram(h, bytes.value));
    }
  }
}
