/** TCP headers and segments on the wire. */
module TcpWire {
  import opened Basics
  import opened Checksums
  import opened Parsing
  import opened Segments

  const LENGTH: nat := 20

  function U8(p: Parser): (u8, Parser) { IntBound(p, 1); Widths(); p.Int(1) }
  function U16(p: Parser): (u16, Parser) { IntBound(p, 2); Widths(); p.Int(2) }
  function U32(p: Parser): (u32, Parser) { IntBound(p, 4); Widths(); p.Int(4) }

  /** The flag with weight `w` in the flags byte. */
  predicate Flag(b: u8, w: nat)
    requires 0 < w
  {
    b / w % 2 == 1
  }

  function Flags(h: TCPHeader): u8 {
    32 * Bit(h.urg) + 16 * Bit(h.ack) + 8 * Bit(h.psh) + 4 * Bit(h.rst) + 2 * Bit(h.syn) + Bit(h.fin)
  }

  /** The ports and the two sequence numbers. */
  function ReadNumbers(p: Parser): (u16, u16, u32, u32, Parser) {
    var (sport, p) := U16(p);
    var (dport, p) := U16(p);
    var (seqno, p) := U32(p);
    var (ackno, p) := U32(p);
    (sport, dport, seqno, ackno, p)
  }

  /** The rest: data offset, flags, window, checksum and urgent offset. */
  function ReadControls(p: Parser): (u8, u8, u16, u16, u16, Parser) {
    var (off, p) := U8(p);
    var (fl, p) := U8(p);
    var (win, p) := U16(p);
    var (cksum, p) := U16(p);
    var (uptr, p) := U16(p);
    (off, fl, win, cksum, uptr, p)
  }

  /** The header fields, what is left of the input, and the verdict on the header. */
  function ParseHeader(p: Parser): (TCPHeader, Parser, ParseResult) {
    var (sport, dport, seqno, ackno, p) := ReadNumbers(p);
    var (off, fl, win, cksum, uptr, p) := ReadControls(p);
    var h := TCPHeader(sport, dport, seqno, ackno, off / 16, Flag(fl, 32), Flag(fl, 16), Flag(fl, 8),
                       Flag(fl, 4), Flag(fl, 2), Flag(fl, 1), win, cksum, uptr);
    if h.doff < 5 then (h, p, HeaderTooShort)
    else
      var p := p.RemovePrefix(4 * h.doff - LENGTH);
      (h, p, p.error)
  }

  /** The bytes in front of the checksum. */
  function Front(h: TCPHeader): (b: seq<byte>)
    ensures |b| == 16
  {
    BigEndian(h.sport, 2) + (BigEndian(h.dport, 2) + (BigEndian(h.seqno, 4) + (BigEndian(h.ackno, 4)
      + (BigEndian(16 * h.doff % 256, 1) + (BigEndian(Flags(h), 1) + BigEndian(h.win, 2))))))
  }

  function Back(h: TCPHeader): (b: seq<byte>)
    requires 5 <= h.doff
  {
    BigEndian(h.uptr, 2) + Zeros(4 * h.doff - LENGTH)
  }

  /** The header padded to the size it advertises. */
  function HeaderBytes(h: TCPHeader): (b: seq<byte>)
    requires 5 <= h.doff
    ensures |b| == 4 * h.doff
  {
    Front(h) + BigEndian(h.cksum, 2) + Back(h)
  }

  lemma FrontOnto(h: TCPHeader, t: seq<byte>)
    ensures Front(h) + t ==
            BigEndian(h.sport, 2) + (BigEndian(h.dport, 2) + (BigEndian(h.seqno, 4) + (BigEndian(h.ackno, 4)
            + (BigEndian(16 * h.doff % 256, 1) + (BigEndian(Flags(h), 1) + (BigEndian(h.win, 2) + t))))))
  {
    hide BigEndian, Flags;
    var a, b, c, d, e, f, g := BigEndian(h.sport, 2), BigEndian(h.dport, 2), BigEndian(h.seqno, 4), BigEndian(h.ackno, 4),
                               BigEndian(16 * h.doff % 256, 1), BigEndian(Flags(h), 1), BigEndian(h.win, 2);
    Assoc(f, g, t);
    Assoc(e, f + g, t);
    Assoc(d, e + (f + g), t);
    Assoc(c, d + (e + (f + g)), t);
    Assoc(b, c + (d + (e + (f + g))), t);
    Assoc(a, b + (c + (d + (e + (f + g)))), t);
  }

  lemma Assoc(a: seq<byte>, b: seq<byte>, c: seq<byte>)
    ensures a + b + c == a + (b + c)
  {
  }

  lemma FlagsRoundTrip(h: TCPHeader)
    ensures Flag(Flags(h), 32) == h.urg && Flag(Flags(h), 16) == h.ack && Flag(Flags(h), 8) == h.psh
    ensures Flag(Flags(h), 4) == h.rst && Flag(Flags(h), 2) == h.syn && Flag(Flags(h), 1) == h.fin
  {
  }

  lemma HeaderOnto(h: TCPHeader, rest: seq<byte>)
    requires 5 <= h.doff
    ensures HeaderBytes(h) + rest ==
            Front(h) + (BigEndian(h.cksum, 2) + (BigEndian(h.uptr, 2) + (Zeros(4 * h.doff - LENGTH) + rest)))
  {
    hide BigEndian, Front, Zeros;
    Assoc(BigEndian(h.uptr, 2), Zeros(4 * h.doff - LENGTH), rest);
    Assoc(Front(h), BigEndian(h.cksum, 2), Back(h));
    Assoc(Front(h), BigEndian(h.cksum, 2) + Back(h), rest);
    Assoc(BigEndian(h.cksum, 2), Back(h), rest);
  }

  /** The layout of the header on the wire (section 3.1 of RFC 793). */
  lemma HeaderLayout(h: TCPHeader)
    requires 5 <= h.doff <= 15
    ensures HeaderBytes(h) ==
            Word(h.sport) + Word(h.dport) + Long(h.seqno) + Long(h.ackno) + [16 * h.doff] + [Flags(h)] + Word(h.win)
            + Word(h.cksum) + (Word(h.uptr) + Zeros(4 * h.doff - 20))
  {
    hide Flags, BigEndian, Word, Long, Zeros;
    BigEndianWord(h.sport);
    BigEndianWord(h.dport);
    BigEndianLong(h.seqno);
    BigEndianLong(h.ackno);
    BigEndianByte(16 * h.doff);
    BigEndianByte(Flags(h));
    BigEndianWord(h.win);
    BigEndianWord(h.cksum);
    BigEndianWord(h.uptr);
    Flatten(Word(h.sport), Word(h.dport), Long(h.seqno), Long(h.ackno), [16 * h.doff], [Flags(h)], Word(h.win));
  }

  /** The flags byte, from its lowest bit: FIN, SYN, RST, PSH, ACK and URG. */
  lemma FlagBits(h: TCPHeader)
    ensures Flags(h) % 2 == Bit(h.fin) && Flags(h) / 2 % 2 == Bit(h.syn) && Flags(h) / 4 % 2 == Bit(h.rst)
    ensures Flags(h) / 8 % 2 == Bit(h.psh) && Flags(h) / 16 % 2 == Bit(h.ack) && Flags(h) / 32 == Bit(h.urg)
  {
  }

  function NumberBytes(h: TCPHeader, t: seq<byte>): seq<byte> {
    BigEndian(h.sport, 2) + (BigEndian(h.dport, 2) + (BigEndian(h.seqno, 4) + (BigEndian(h.ackno, 4) + t)))
  }

  function ControlBytes(h: TCPHeader, t: seq<byte>): seq<byte> {
    BigEndian(16 * h.doff % 256, 1) + (BigEndian(Flags(h), 1) + (BigEndian(h.win, 2) + (BigEndian(h.cksum, 2)
      + (BigEndian(h.uptr, 2) + t))))
  }

  lemma NumbersRoundTrip(h: TCPHeader, t: seq<byte>)
    ensures ReadNumbers(Parser(NumberBytes(h, t), NoError)) == (h.sport, h.dport, h.seqno, h.ackno, Parser(t, NoError))
  {
    hide BigEndian, Parser.Int, Pow256;
    var t1 := BigEndian(h.ackno, 4) + t;
    var t2 := BigEndian(h.seqno, 4) + t1;
    var t3 := BigEndian(h.dport, 2) + t2;
    Widths();
    IntRoundTrip(h.sport, 2, t3);
    IntRoundTrip(h.dport, 2, t2);
    IntRoundTrip(h.seqno, 4, t1);
    IntRoundTrip(h.ackno, 4, t);
  }

  lemma ControlsRoundTrip(h: TCPHeader, t: seq<byte>)
    ensures ReadControls(Parser(ControlBytes(h, t), NoError))
         == (16 * h.doff % 256, Flags(h), h.win, h.cksum, h.uptr, Parser(t, NoError))
  {
    hide BigEndian, Parser.Int, Pow256, Flags;
    var t1 := BigEndian(h.uptr, 2) + t;
    var t2 := BigEndian(h.cksum, 2) + t1;
    var t3 := BigEndian(h.win, 2) + t2;
    var t4 := BigEndian(Flags(h), 1) + t3;
    Widths();
    IntRoundTrip(16 * h.doff % 256, 1, t4);
    IntRoundTrip(Flags(h), 1, t3);
    IntRoundTrip(h.win, 2, t2);
    IntRoundTrip(h.cksum, 2, t1);
    IntRoundTrip(h.uptr, 2, t);
  }

  lemma HeaderInTwo(h: TCPHeader, rest: seq<byte>)
    requires 5 <= h.doff
    ensures HeaderBytes(h) + rest == NumberBytes(h, ControlBytes(h, Zeros(4 * h.doff - LENGTH) + rest))
  {
    hide BigEndian, Front, Zeros, HeaderBytes, Flags;
    HeaderOnto(h, rest);
    FrontOnto(h, BigEndian(h.cksum, 2) + (BigEndian(h.uptr, 2) + (Zeros(4 * h.doff - LENGTH) + rest)));
  }

  lemma PaddingRemoved(n: nat, rest: seq<byte>)
    ensures Parser(Zeros(n) + rest, NoError).RemovePrefix(n) == Parser(rest, NoError)
  {
    assert (Zeros(n) + rest)[n..] == rest;
  }

  /** Parsing what was printed gives the header back and leaves what follows it. */
  lemma HeaderRoundTrip(h: TCPHeader, rest: seq<byte>)
    requires 5 <= h.doff <= 15
    ensures ParseHeader(Parser(HeaderBytes(h) + rest, NoError)) == (h, Parser(rest, NoError), NoError)
  {
    hide NumberBytes, ControlBytes, HeaderBytes, Flag, Flags, Zeros, ReadNumbers, ReadControls, Parser.RemovePrefix;
    var pad := Zeros(4 * h.doff - LENGTH) + rest;
    HeaderInTwo(h, rest);
    NumbersRoundTrip(h, ControlBytes(h, pad));
    ControlsRoundTrip(h, pad);
    FlagsRoundTrip(h);
    PaddingRemoved(4 * h.doff - LENGTH, rest);
  }

  // ---- Segments -------------------------------------------------------------------------------

  const EMPTY_SEGMENT := TCPSegment(BLANK, [])

  /** The checksum of a packet on top of the pseudo-checksum of the layer below. */
  function Checksum(data: seq<byte>, pseudo: u32): u16 {
    Complement((pseudo + WordSum(data, false)) % TWO_32)
  }

  /** The segment with its checksum filled in. */
  function WithChecksum(seg: TCPSegment, pseudo: u32): TCPSegment
    requires 5 <= seg.header.doff
  {
    var blank := seg.header.(cksum := 0);
    seg.(header := seg.header.(cksum := Checksum(HeaderBytes(blank) + seg.payload, pseudo)))
  }

  /** Nothing when the header is too short to print. */
  function SerializeSegment(seg: TCPSegment, pseudo: u32): Option<seq<byte>> {
    if seg.header.doff < 5 then None
    else Some(HeaderBytes(WithChecksum(seg, pseudo).header) + seg.payload)
  }

  /** Only the checksum and the length are checked: the verdict on the header is not used. */
  function ParseSegment(data: seq<byte>, pseudo: u32): (ParseResult, TCPSegment) {
    if Checksum(data, pseudo) != 0 then (BadChecksum, EMPTY_SEGMENT)
    else
      var (h, p, _) := ParseHeader(Parser(data, NoError));
      (p.error, TCPSegment(h, p.buffer))
  }

  /** The checksum field adds its own value to the sum. */
  lemma ChecksumField(h: TCPHeader, rest: seq<byte>)
    requires 5 <= h.doff
    ensures WordSum(HeaderBytes(h) + rest, false) == WordSum(HeaderBytes(h.(cksum := 0)) + rest, false) + h.cksum
  {
    hide BigEndian, Front, WordSum;
    assert Front(h) == Front(h.(cksum := 0)) by { FrontSame(h); }
    forall c: u16
      ensures WordSum(Front(h) + BigEndian(c, 2) + Back(h) + rest, false) ==
              WordSum(Front(h), false) + c + WordSum(Back(h) + rest, false)
    {
      var t := Back(h) + rest;
      Assoc(Front(h) + BigEndian(c, 2), Back(h), rest);
      Assoc(Front(h), BigEndian(c, 2), t);
      WordSumAppend(Front(h), BigEndian(c, 2) + t, false);
      WordSumAppend(BigEndian(c, 2), t, false);
      WordSum16(c);
    }
  }

  lemma FrontSame(h: TCPHeader)
    ensures Front(h) == Front(h.(cksum := 0))
  {
  }

  lemma WordSum16(c: u16)
    ensures WordSum(BigEndian(c, 2), false) == c
  {
    var x: byte, y: byte := c / 256, c % 256;
    assert BigEndian(x, 1) == BigEndian(x / 256, 0) + [x % 256] == [x];
    assert BigEndian(c, 2) == [x] + [y];
    WordSumAppend([x], [y], false);
    assert WordSum([x], false) == 256 * x && WordSum([y], true) == y;
  }

  /** A packet that fits 16-bit lengths does not overflow the 32-bit running sum. */
  lemma SumFits(data: seq<byte>, pseudo: u32)
    requires |data| <= 0xffff && pseudo < TWO_31
    ensures (pseudo + WordSum(data, false)) % TWO_32 == pseudo + WordSum(data, false)
  {
    WordSumBound(data, false);
  }

  lemma ChecksumVerifies(h: TCPHeader, payload: seq<byte>, pseudo: u32)
    requires 5 <= h.doff && 4 * h.doff + |payload| <= 0xffff && pseudo < TWO_31
    ensures var c := Checksum(HeaderBytes(h.(cksum := 0)) + payload, pseudo);
            Checksum(HeaderBytes(h.(cksum := c)) + payload, pseudo) == 0
  {
    hide HeaderBytes, WordSum, Complement;
    var zero := HeaderBytes(h.(cksum := 0)) + payload;
    var c := Checksum(zero, pseudo);
    var full := HeaderBytes(h.(cksum := c)) + payload;
    ChecksumField(h.(cksum := c), payload);
    SumFits(zero, pseudo);
    SumFits(full, pseudo);
    ComplementVerifies(pseudo + WordSum(zero, false));
  }

  /** Parsing a printed segment reports no error and recovers everything but the checksum. */
  lemma SegmentRoundTrip(seg: TCPSegment, pseudo: u32)
    requires 5 <= seg.header.doff <= 15 && 4 * seg.header.doff + |seg.payload| <= 0xffff && pseudo < TWO_31
    ensures SerializeSegment(seg, pseudo).Some?
    ensures ParseSegment(SerializeSegment(seg, pseudo).value, pseudo) == (NoError, WithChecksum(seg, pseudo))
  {
    hide HeaderBytes, ParseHeader, Checksum;
    var h := WithChecksum(seg, pseudo).header;
    ChecksumVerifies(seg.header, seg.payload, pseudo);
    HeaderRoundTrip(h, seg.payload);
  }

  /** Any change of a single byte of a printed segment is detected. */
  lemma SingleByteErrorDetected(seg: TCPSegment, pseudo: u32, k: nat, b: byte)
    requires 5 <= seg.header.doff && 4 * seg.header.doff + |seg.payload| <= 0xffff && pseudo < TWO_31
    requires k < 4 * seg.header.doff + |seg.payload|
    requires SerializeSegment(seg, pseudo).value[k] != b
    ensures ParseSegment(SerializeSegment(seg, pseudo).value[k := b], pseudo).0 == BadChecksum
  {
    hide HeaderBytes, ParseHeader, WordSum, Complement;
    ChecksumVerifies(seg.header, seg.payload, pseudo);
    var data := SerializeSegment(seg, pseudo).value;
    SumFits(data, pseudo);
    SumFits(data[k := b], pseudo);
    OneByteDetected(data, k, b, pseudo);
  }

  // ---- The imperative parser and printer ------------------------------------------------------

  method ReadHeader(p: NetParser) returns (h: TCPHeader, r: ParseResult)
    modifies p
    ensures (h, p.Value(), r) == ParseHeader(old(p.Value()))
  {
    hide Parser.Int, Pow256;
    Widths();
    ghost var v := p.Value();
    IntBound(v, 2);
    var sport := p.ParseInt(2);
    IntBound(p.Value(), 2);
    var dport := p.ParseInt(2);
    IntBound(p.Value(), 4);
    var seqno := p.ParseInt(4);
    IntBound(p.Value(), 4);
    var ackno := p.ParseInt(4);
    IntBound(p.Value(), 1);
    var off := p.ParseInt(1);
    IntBound(p.Value(), 1);
    var fl := p.ParseInt(1);
    IntBound(p.Value(), 2);
    var win := p.ParseInt(2);
    IntBound(p.Value(), 2);
    var cksum := p.ParseInt(2);
    IntBound(p.Value(), 2);
    var uptr := p.ParseInt(2);
    h := TCPHeader(sport, dport, seqno, ackno, off / 16, Flag(fl, 32), Flag(fl, 16), Flag(fl, 8),
                   Flag(fl, 4), Flag(fl, 2), Flag(fl, 1), win, cksum, uptr);
    if h.doff < 5 {
      return h, HeaderTooShort;
    }
    p.RemovePrefix(4 * h.doff - LENGTH);
    r := p.error;
  }

  lemma Flatten(a: seq<byte>, b: seq<byte>, c: seq<byte>, d: seq<byte>, e: seq<byte>, f: seq<byte>, g: seq<byte>)
    ensures a + b + c + d + e + f + g == a + (b + (c + (d + (e + (f + g)))))
  {
    Assoc(a + b + c + d + e, f, g);
    Assoc(a + b + c + d, e, f + g);
    Assoc(a + b + c, d, e + (f + g));
    Assoc(a + b, c, d + (e + (f + g)));
    Assoc(a, b, c + (d + (e + (f + g))));
  }

  method PrintFront(h: TCPHeader) returns (s: seq<byte>)
    ensures s == Front(h)
  {
    hide BigEndian, Flags;
    s := UnparseInt([], h.sport, 2);
    assert s == BigEndian(h.sport, 2);
    s := UnparseInt(s, h.dport, 2);
    s := UnparseInt(s, h.seqno, 4);
    s := UnparseInt(s, h.ackno, 4);
    s := UnparseInt(s, 16 * h.doff % 256, 1);
    s := UnparseInt(s, Flags(h), 1);
    s := UnparseInt(s, h.win, 2);
    Flatten(BigEndian(h.sport, 2), BigEndian(h.dport, 2), BigEndian(h.seqno, 4), BigEndian(h.ackno, 4),
            BigEndian(16 * h.doff % 256, 1), BigEndian(Flags(h), 1), BigEndian(h.win, 2));
  }

  method PrintHeader(h: TCPHeader) returns (ret: Option<seq<byte>>)
    ensures ret == if h.doff < 5 then None else Some(HeaderBytes(h))
  {
    if h.doff < 5 {
      return None;
    }
    hide BigEndian, Front;
    var s := PrintFront(h);
    s := UnparseInt(s, h.cksum, 2);
    Assoc(s, BigEndian(h.uptr, 2), Zeros(4 * h.doff - LENGTH));
    s := UnparseInt(s, h.uptr, 2);
    s := s + Zeros(4 * h.doff - |s|);
    ret := Some(s);
  }

  method ReadSegment(buffer: seq<byte>, pseudo: u32) returns (r: ParseResult, seg: TCPSegment)
    ensures (r, seg) == ParseSegment(buffer, pseudo)
  {
    hide WordSum, Complement, ParseHeader;
    var check := new InternetChecksum(pseudo);
    check.Add(buffer);
    var v := check.Value();
    if v != 0 {
      return BadChecksum, EMPTY_SEGMENT;
    }
    var p := new NetParser(buffer);
    var h, _ := ReadHeader(p);
    return p.error, TCPSegment(h, p.buffer);
  }

  /** The checksum runs over header and payload in two calls: the header ends on an even byte. */
  method PrintSegment(seg: TCPSegment, pseudo: u32) returns (ret: Option<seq<byte>>)
    ensures ret == SerializeSegment(seg, pseudo)
  {
    hide HeaderBytes, WordSum;
    var headerOut := seg.header.(cksum := 0);
    var printed := PrintHeader(headerOut);
    if printed.None? {
      return None;
    }
    var check := new InternetChecksum(pseudo);
    check.Add(printed.value);
    check.Add(seg.payload);
    WordSumAppend(printed.value, seg.payload, false);
    ModAdd(pseudo + WordSum(printed.value, false), WordSum(seg.payload, false));
    var cksum := check.Value();
    headerOut := headerOut.(cksum := cksum);
    printed := PrintHeader(headerOut);
    ret := Some(printed.value + seg.payload);
  }
}
