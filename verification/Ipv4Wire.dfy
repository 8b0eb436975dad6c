/** IPv4 headers and datagrams on the wire. */
module Ipv4Wire {
  import opened Basics
  import opened Checksums
  import opened Parsing
  import opened TcpWire

  const HEADER_LENGTH: nat := 20
  const DEFAULT_TTL: u8 := 128
  const PROTO_TCP: u8 := 6

  datatype IPv4Header = IPv4Header(
    ver: u8, hlen: u8, tos: u8, len: u16, id: u16, df: bool, mf: bool, offset: u16,
    ttl: u8, proto: u8, cksum: u16, src: u32, dst: u32)
  {
    function PayloadLength(): u16 {
      (len - 4 * hlen) % TWO_16
    }

    /** The pseudo-header's contribution to the checksum of the layer above. */
    function PseudoChecksum(): u32 {
      (src / TWO_16 + src % TWO_16 + dst / TWO_16 + dst % TWO_16 + proto + PayloadLength()) % TWO_32
    }
  }

  datatype IPv4Datagram = IPv4Datagram(header: IPv4Header, payload: seq<byte>)

  const DEFAULT_HEADER := IPv4Header(4, 5, 0, 0, 0, true, false, 0, DEFAULT_TTL, PROTO_TCP, 0, 0, 0)

  function FlagsAndOffset(h: IPv4Header): u16 {
    0x4000 * Bit(h.df) + 0x2000 * Bit(h.mf) + h.offset % 0x2000
  }

  /** The bytes in front of the checksum. */
  function IpFront(h: IPv4Header): (b: seq<byte>)
    ensures |b| == 10
  {
    BigEndian((16 * h.ver + h.hlen % 16) % 256, 1) + (BigEndian(h.tos, 1) + (BigEndian(h.len, 2) + (BigEndian(h.id, 2)
      + (BigEndian(FlagsAndOffset(h), 2) + (BigEndian(h.ttl, 1) + BigEndian(h.proto, 1))))))
  }

  function IpBack(h: IPv4Header): (b: seq<byte>)
    requires 5 <= h.hlen
  {
    BigEndian(h.src, 4) + (BigEndian(h.dst, 4) + Zeros(4 * h.hlen - HEADER_LENGTH))
  }

  function IpHeaderBytes(h: IPv4Header): (b: seq<byte>)
    requires 5 <= h.hlen
    ensures |b| == 4 * h.hlen
  {
    IpFront(h) + BigEndian(h.cksum, 2) + IpBack(h)
  }

  /** The fields in the order of the wire. */
  function ReadFields(p: Parser): (IPv4Header, Parser) {
    var (first, p) := U8(p);
    var (tos, p) := U8(p);
    var (len, p) := U16(p);
    var (id, p) := U16(p);
    var (fo, p) := U16(p);
    var (ttl, p) := U8(p);
    var (proto, p) := U8(p);
    var (cksum, p) := U16(p);
    var (src, p) := U32(p);
    var (dst, p) := U32(p);
    (IPv4Header(first / 16, first % 16, tos, len, id, fo / 0x4000 % 2 == 1, fo / 0x2000 % 2 == 1, fo % 0x2000,
                ttl, proto, cksum, src, dst), p)
  }

  function ParseIpHeader(p: Parser): (IPv4Header, Parser, ParseResult) {
    if |p.buffer| < HEADER_LENGTH then (DEFAULT_HEADER, p, PacketTooShort)
    else
      var (h, q) := ReadFields(p);
      if |p.buffer| < 4 * h.hlen then (h, q, PacketTooShort)
      else if h.ver != 4 then (h, q, WrongIPVersion)
      else if h.hlen < 5 then (h, q, HeaderTooShort)
      else if |p.buffer| != h.len then (h, q, TruncatedPacket)
      else
        var q := q.RemovePrefix(4 * h.hlen - HEADER_LENGTH);
        if q.error != NoError then (h, q, q.error)
        else if Complement(WordSum(p.buffer[..4 * h.hlen], false) % TWO_32) != 0 then (h, q, BadChecksum)
        else (h, q, NoError)
  }

  /** A datagram whose fields fit the wire and whose length field is right. */
  predicate Printable(d: IPv4Datagram) {
    && d.header.ver == 4 && 5 <= d.header.hlen <= 15 && d.header.offset < 0x2000
    && d.header.len == 4 * d.header.hlen + |d.payload|
  }

  function WithIpChecksum(h: IPv4Header): IPv4Header
    requires 5 <= h.hlen
  {
    h.(cksum := Complement(WordSum(IpHeaderBytes(h.(cksum := 0)), false) % TWO_32))
  }

  /** Nothing for a payload of the wrong size or a header that cannot be printed. */
  function SerializeDatagram(d: IPv4Datagram): Option<seq<byte>> {
    if |d.payload| != d.header.PayloadLength() || d.header.ver != 4 || 4 * d.header.hlen < HEADER_LENGTH then None
    else Some(IpHeaderBytes(WithIpChecksum(d.header)) + d.payload)
  }

  /** The verdict on the header is not used: only a wrong payload length or a short input fail. */
  function ParseDatagram(data: seq<byte>): (ParseResult, IPv4Datagram) {
    var (h, p, _) := ParseIpHeader(Parser(data, NoError));
    var d := IPv4Datagram(h, p.buffer);
    (if |p.buffer| != h.PayloadLength() then PacketTooShort else p.error, d)
  }

  lemma IpFrontOnto(h: IPv4Header, t: seq<byte>)
    ensures IpFront(h) + t ==
            BigEndian((16 * h.ver + h.hlen % 16) % 256, 1) + (BigEndian(h.tos, 1) + (BigEndian(h.len, 2) + (BigEndian(h.id, 2)
            + (BigEndian(FlagsAndOffset(h), 2) + (BigEndian(h.ttl, 1) + (BigEndian(h.proto, 1) + t))))))
  {
    hide BigEndian, FlagsAndOffset;
    var a, b, c, d, e, f, g := BigEndian((16 * h.ver + h.hlen % 16) % 256, 1), BigEndian(h.tos, 1), BigEndian(h.len, 2),
                               BigEndian(h.id, 2), BigEndian(FlagsAndOffset(h), 2), BigEndian(h.ttl, 1), BigEndian(h.proto, 1);
    Assoc(f, g, t);
    Assoc(e, f + g, t);
    Assoc(d, e + (f + g), t);
    Assoc(c, d + (e + (f + g)), t);
    Assoc(b, c + (d + (e + (f + g))), t);
    Assoc(a, b + (c + (d + (e + (f + g)))), t);
  }

  /** Reading the fields of a printed header gives them back, with the padding still in front. */
  lemma FieldsRoundTrip(h: IPv4Header, rest: seq<byte>)
    requires h.ver == 4 && 5 <= h.hlen <= 15 && h.offset < 0x2000
    ensures ReadFields(Parser(IpHeaderBytes(h) + rest, NoError)) ==
            (h, Parser(Zeros(4 * h.hlen - HEADER_LENGTH) + rest, NoError))
  {
    hide BigEndian, Parser.Int, IpFront, Pow256;
    var pad := Zeros(4 * h.hlen - HEADER_LENGTH);
    var t0 := pad + rest;
    var t1 := BigEndian(h.dst, 4) + t0;
    var t2 := BigEndian(h.src, 4) + t1;
    var t3 := BigEndian(h.cksum, 2) + t2;
    var t4 := BigEndian(h.proto, 1) + t3;
    var t5 := BigEndian(h.ttl, 1) + t4;
    var t6 := BigEndian(FlagsAndOffset(h), 2) + t5;
    var t7 := BigEndian(h.id, 2) + t6;
    var t8 := BigEndian(h.len, 2) + t7;
    var t9 := BigEndian(h.tos, 1) + t8;
    var first := (16 * h.ver + h.hlen % 16) % 256;
    assert IpHeaderBytes(h) + rest == BigEndian(first, 1) + t9 by {
      Assoc(BigEndian(h.dst, 4), pad, rest);
      Assoc(BigEndian(h.src, 4), BigEndian(h.dst, 4) + pad, rest);
      Assoc(IpFront(h), BigEndian(h.cksum, 2), IpBack(h));
      Assoc(IpFront(h), BigEndian(h.cksum, 2) + IpBack(h), rest);
      Assoc(BigEndian(h.cksum, 2), IpBack(h), rest);
      IpFrontOnto(h, t3);
    }
    Widths();
    IntRoundTrip(first, 1, t9);
    IntRoundTrip(h.tos, 1, t8);
    IntRoundTrip(h.len, 2, t7);
    IntRoundTrip(h.id, 2, t6);
    IntRoundTrip(FlagsAndOffset(h), 2, t5);
    IntRoundTrip(h.ttl, 1, t4);
    IntRoundTrip(h.proto, 1, t3);
    IntRoundTrip(h.cksum, 2, t2);
    IntRoundTrip(h.src, 4, t1);
    IntRoundTrip(h.dst, 4, t0);
  }

  lemma FirstByte(h: IPv4Header)
    requires h.ver == 4 && 5 <= h.hlen <= 15
    ensures BigEndian((16 * h.ver + h.hlen % 16) % 256, 1) == [64 + h.hlen]
  {
    BigEndianByte(64 + h.hlen);
    hide BigEndian;
  }

  lemma IpFrontLayout(h: IPv4Header)
    requires h.ver == 4 && 5 <= h.hlen <= 15
    ensures IpFront(h) ==
            [64 + h.hlen] + [h.tos] + Word(h.len) + Word(h.id) + Word(FlagsAndOffset(h)) + [h.ttl] + [h.proto]
  {
    FirstByte(h);
    BigEndianByte(h.tos);
    BigEndianWord(h.len);
    BigEndianWord(h.id);
    BigEndianWord(FlagsAndOffset(h));
    BigEndianByte(h.ttl);
    BigEndianByte(h.proto);
    hide BigEndian, FlagsAndOffset, Word;
    Flatten([64 + h.hlen], [h.tos], Word(h.len), Word(h.id), Word(FlagsAndOffset(h)), [h.ttl], [h.proto]);
  }

  /** The layout of the header on the wire (section 3.1 of RFC 791). */
  lemma IpHeaderLayout(h: IPv4Header)
    requires h.ver == 4 && 5 <= h.hlen <= 15 && h.offset < 0x2000
    ensures IpHeaderBytes(h) ==
            [64 + h.hlen] + [h.tos] + Word(h.len) + Word(h.id) + Word(FlagsAndOffset(h)) + [h.ttl] + [h.proto]
            + Word(h.cksum) + (Long(h.src) + (Long(h.dst) + Zeros(4 * h.hlen - 20)))
    ensures FlagsAndOffset(h) == 0x4000 * Bit(h.df) + 0x2000 * Bit(h.mf) + h.offset
  {
    assert FlagsAndOffset(h) == 0x4000 * Bit(h.df) + 0x2000 * Bit(h.mf) + h.offset;
    hide BigEndian, FlagsAndOffset, Word, Long, Zeros, IpFront;
    IpFrontLayout(h);
    BigEndianWord(h.cksum);
    BigEndianLong(h.src);
    BigEndianLong(h.dst);
  }

  // ---- The pseudo-header ----------------------------------------------------------------------

  /** What the checksum of the layer above also covers (section 3.1 of RFC 793): source and destination
      address, a zero byte, the protocol and the length of the payload. */
  function PseudoHeader(h: IPv4Header): seq<byte> {
    Long(h.src) + Long(h.dst) + [0, h.proto] + Word(h.PayloadLength())
  }

  lemma WordSumTwo(x: byte, y: byte)
    ensures WordSum([x, y], false) == 256 * x + y
  {
    WordSumAppend([x], [y], false);
    assert [x] + [y] == [x, y];
    WordSumOne(x, false);
    WordSumOne(y, true);
  }

  lemma WordSumLong(v: u32)
    ensures WordSum(Long(v), false) == v / TWO_16 + v % TWO_16
  {
    hide WordSum;
    var a: u16, b: u16 := v / TWO_16, v % TWO_16;
    WordSumAppend(Word(a), Word(b), false);
    WordSumTwo(a / 256, a % 256);
    WordSumTwo(b / 256, b % 256);
  }

  /** The pseudo-checksum is the word sum of those twelve bytes. */
  lemma PseudoChecksumIs(h: IPv4Header)
    ensures h.PseudoChecksum() == WordSum(PseudoHeader(h), false) < TWO_31
    ensures |PseudoHeader(h)| == 12
  {
    hide WordSum, IPv4Header.PayloadLength;
    var n := h.PayloadLength();
    var a, b, c, d := Long(h.src), Long(h.dst), [0, h.proto], Word(n);
    WordSumLong(h.src);
    WordSumLong(h.dst);
    WordSumTwo(0, h.proto);
    WordSumTwo(n / 256, n % 256);
    assert |a| == 4 && |b| == 4 && d == [n / 256, n % 256];
    hide Long, Word;
    WordSumAppend(a + b + c, d, false);
    WordSumAppend(a + b, c, false);
    WordSumAppend(a, b, false);
  }

  lemma IpFrontSame(h: IPv4Header)
    ensures IpFront(h) == IpFront(h.(cksum := 0))
  {
  }

  lemma IpChecksumVerifies(h: IPv4Header)
    requires 5 <= h.hlen <= 15
    ensures Complement(WordSum(IpHeaderBytes(WithIpChecksum(h)), false) % TWO_32) == 0
  {
    hide BigEndian, IpFront, WordSum, Complement;
    var k := WithIpChecksum(h);
    IpFrontSame(h);
    IpFrontSame(k);
    forall c: u16
      ensures WordSum(IpFront(h) + BigEndian(c, 2) + IpBack(h), false) ==
              WordSum(IpFront(h), false) + c + WordSum(IpBack(h), false)
    {
      Assoc(IpFront(h), BigEndian(c, 2), IpBack(h));
      WordSumAppend(IpFront(h), BigEndian(c, 2) + IpBack(h), false);
      WordSumAppend(BigEndian(c, 2), IpBack(h), false);
      WordSum16(c);
    }
    var zero := IpHeaderBytes(h.(cksum := 0));
    WordSumBound(zero, false);
    WordSumBound(IpHeaderBytes(k), false);
    ComplementVerifies(WordSum(zero, false));
  }

  /** Parsing a printed datagram gives it back, checksum apart, and every check on the header passes. */
  lemma DatagramRoundTrip(d: IPv4Datagram)
    requires Printable(d)
    ensures var h := WithIpChecksum(d.header);
            && SerializeDatagram(d) == Some(IpHeaderBytes(h) + d.payload)
            && ParseIpHeader(Parser(SerializeDatagram(d).value, NoError)).2 == NoError
            && ParseDatagram(SerializeDatagram(d).value) == (NoError, d.(header := h))
  {
    hide IpHeaderBytes, ReadFields, WordSum, Complement;
    var h := WithIpChecksum(d.header);
    var data := IpHeaderBytes(h) + d.payload;
    FieldsRoundTrip(h, d.payload);
    IpChecksumVerifies(d.header);
    assert data[..4 * h.hlen] == IpHeaderBytes(h);
    assert (Zeros(4 * h.hlen - HEADER_LENGTH) + d.payload)[4 * h.hlen - HEADER_LENGTH..] == d.payload;
  }

  /** A datagram is printed exactly when its header can be and its length field is right, in 16 bits. */
  lemma PrintedExactly(d: IPv4Datagram)
    ensures SerializeDatagram(d).Some? <==>
            && d.header.ver == 4 && 5 <= d.header.hlen
            && |d.payload| < TWO_16 && d.header.len == (4 * d.header.hlen + |d.payload|) % TWO_16
  {
    hide IpHeaderBytes, WithIpChecksum;
    LengthField(d.header.len, 4 * d.header.hlen, |d.payload|);
  }

  lemma LengthField(len: u16, header: nat, n: nat)
    requires header < TWO_16
    ensures n == (len - header) % TWO_16 <==> n < TWO_16 && len == (header + n) % TWO_16
  {
  }

  /** Whatever its checksum field says, a header with the right lengths is taken: the verdict on it is not
      used. */
  lemma BadChecksumAccepted(d: IPv4Datagram)
    requires Printable(d)
    ensures ParseDatagram(IpHeaderBytes(d.header) + d.payload) == (NoError, d)
    ensures ParseIpHeader(Parser(IpHeaderBytes(d.header) + d.payload, NoError)).2 ==
            if Complement(WordSum(IpHeaderBytes(d.header), false) % TWO_32) == 0 then NoError else BadChecksum
  {
    hide IpHeaderBytes, ReadFields, WordSum, Complement;
    var h := d.header;
    var data := IpHeaderBytes(h) + d.payload;
    FieldsRoundTrip(h, d.payload);
    assert data[..4 * h.hlen] == IpHeaderBytes(h);
    assert (Zeros(4 * h.hlen - HEADER_LENGTH) + d.payload)[4 * h.hlen - HEADER_LENGTH..] == d.payload;
  }

  lemma FirstByteRead(data: seq<byte>)
    requires 0 < |data|
    ensures ReadFields(Parser(data, NoError)).0.hlen == data[0] % 16
  {
    assert data[..1] == [data[0]] && [data[0]][..0] == [];
    assert FromBigEndian([data[0]]) == 256 * FromBigEndian([]) + data[0];
    var (first, p) := U8(Parser(data, NoError));
    assert first == data[0];
  }

  /** The verdict itself is right: changing any byte of a printed header but the first is noticed. */
  lemma HeaderErrorNoticed(d: IPv4Datagram, k: nat, b: byte)
    requires Printable(d) && 0 < k < 4 * d.header.hlen && SerializeDatagram(d).value[k] != b
    ensures ParseIpHeader(Parser(SerializeDatagram(d).value[k := b], NoError)).2 != NoError
  {
    hide IpHeaderBytes, ReadFields, WordSum, Complement;
    DatagramRoundTrip(d);
    var h := WithIpChecksum(d.header);
    var bytes, data := IpHeaderBytes(h), SerializeDatagram(d).value;
    FirstByteRead(data);
    FirstByteRead(data[k := b]);
    FieldsRoundTrip(h, d.payload);
    assert h.hlen == data[0] % 16;
    IpChecksumVerifies(d.header);
    WordSumBound(bytes, false);
    WordSumBound(bytes[k := b], false);
    OneByteDetected(bytes, k, b, 0);
    assert data[k := b][..4 * h.hlen] == bytes[k := b];
  }

  // ---- The imperative parser and printer ------------------------------------------------------

  method ReadIpFields(p: NetParser) returns (h: IPv4Header)
    modifies p
    ensures (h, p.Value()) == ReadFields(old(p.Value()))
  {
    hide Parser.Int, Pow256;
    Widths();
    IntBound(p.Value(), 1);
    var first := p.ParseInt(1);
    IntBound(p.Value(), 1);
    var tos := p.ParseInt(1);
    IntBound(p.Value(), 2);
    var len := p.ParseInt(2);
    IntBound(p.Value(), 2);
    var id := p.ParseInt(2);
    IntBound(p.Value(), 2);
    var fo := p.ParseInt(2);
    IntBound(p.Value(), 1);
    var ttl := p.ParseInt(1);
    IntBound(p.Value(), 1);
    var proto := p.ParseInt(1);
    IntBound(p.Value(), 2);
    var cksum := p.ParseInt(2);
    IntBound(p.Value(), 4);
    var src := p.ParseInt(4);
    IntBound(p.Value(), 4);
    var dst := p.ParseInt(4);
    h := IPv4Header(first / 16, first % 16, tos, len, id, fo / 0x4000 % 2 == 1, fo / 0x2000 % 2 == 1, fo % 0x2000,
                    ttl, proto, cksum, src, dst);
  }

  method ReadIpHeader(p: NetParser) returns (h: IPv4Header, r: ParseResult)
    modifies p
    ensures (h, p.Value(), r) == ParseIpHeader(old(p.Value()))
  {
    hide ReadFields, WordSum, Complement, Parser.RemovePrefix;
    var original := p.buffer;
    if |original| < HEADER_LENGTH {
      return DEFAULT_HEADER, PacketTooShort;
    }
    h := ReadIpFields(p);
    if |original| < 4 * h.hlen {
      return h, PacketTooShort;
    }
    if h.ver != 4 {
      return h, WrongIPVersion;
    }
    if h.hlen < 5 {
      return h, HeaderTooShort;
    }
    if |original| != h.len {
      return h, TruncatedPacket;
    }
    p.RemovePrefix(4 * h.hlen - HEADER_LENGTH);
    if p.error != NoError {
      return h, p.error;
    }
    var v := HeaderChecksum(original[..4 * h.hlen]);
    r := if v != 0 then BadChecksum else NoError;
  }

  method HeaderChecksum(header: seq<byte>) returns (v: u16)
    ensures v == Complement(WordSum(header, false) % TWO_32)
  {
    hide WordSum, Complement;
    var check := new InternetChecksum(0);
    check.Add(header);
    v := check.Value();
  }

  method ReadDatagram(buffer: seq<byte>) returns (r: ParseResult, d: IPv4Datagram)
    ensures (r, d) == ParseDatagram(buffer)
  {
    hide ParseIpHeader;
    var p := new NetParser(buffer);
    var h, _ := ReadIpHeader(p);
    d := IPv4Datagram(h, p.buffer);
    r := if |d.payload| != h.PayloadLength() then PacketTooShort else p.error;
  }

  method PrintIpFront(h: IPv4Header) returns (s: seq<byte>)
    ensures s == IpFront(h)
  {
    hide BigEndian, FlagsAndOffset;
    var first := (16 * h.ver + h.hlen % 16) % 256;
    s := UnparseInt([], first, 1);
    assert s == BigEndian(first, 1);
    s := UnparseInt(s, h.tos, 1);
    s := UnparseInt(s, h.len, 2);
    s := UnparseInt(s, h.id, 2);
    s := UnparseInt(s, FlagsAndOffset(h), 2);
    s := UnparseInt(s, h.ttl, 1);
    s := UnparseInt(s, h.proto, 1);
    Flatten(BigEndian(first, 1), BigEndian(h.tos, 1), BigEndian(h.len, 2), BigEndian(h.id, 2),
            BigEndian(FlagsAndOffset(h), 2), BigEndian(h.ttl, 1), BigEndian(h.proto, 1));
  }

  method PrintIpHeader(h: IPv4Header) returns (ret: Option<seq<byte>>)
    ensures ret == if h.ver != 4 || 4 * h.hlen < HEADER_LENGTH then None else Some(IpHeaderBytes(h))
  {
    if h.ver != 4 || 4 * h.hlen < HEADER_LENGTH {
      return None;
    }
    hide BigEndian, IpFront;
    ghost var pad := Zeros(4 * h.hlen - HEADER_LENGTH);
    var s := PrintIpFront(h);
    s := UnparseInt(s, h.cksum, 2);
    Assoc(s, BigEndian(h.src, 4), BigEndian(h.dst, 4) + pad);
    s := UnparseInt(s, h.src, 4);
    Assoc(s, BigEndian(h.dst, 4), pad);
    s := UnparseInt(s, h.dst, 4);
    s := s + Zeros(4 * h.hlen - |s|);
    ret := Some(s);
  }

  method PrintDatagram(d: IPv4Datagram) returns (ret: Option<seq<byte>>)
    ensures ret == SerializeDatagram(d)
  {
    hide IpHeaderBytes, WordSum;
    if |d.payload| != d.header.PayloadLength() {
      return None;
    }
    var headerOut := d.header.(cksum := 0);
    var printed := PrintIpHeader(headerOut);
    if printed.None? {
      return None;
    }
    var check := new InternetChecksum(0);
    check.Add(printed.value);
    var cksum := check.Value();
    headerOut := headerOut.(cksum := cksum);
    printed := PrintIpHeader(headerOut);
    ret := Some(printed.value + d.payload);
  }
}
