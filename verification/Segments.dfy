/** TCP segments as values, and what it means for one to carry part of a byte stream. */
module Segments {
  import opened Basics
  import opened WrappingIntegers
  import opened Reassembly

  datatype TCPHeader = TCPHeader(
    sport: u16, dport: u16, seqno: u32, ackno: u32, doff: u8,
    urg: bool, ack: bool, psh: bool, rst: bool, syn: bool, fin: bool,
    win: u16, cksum: u16, uptr: u16)

  datatype TCPSegment = TCPSegment(header: TCPHeader, payload: seq<byte>)
  {
    /** Length in sequence space: SYN and FIN take one number each. */
    function Length(): nat {
      |payload| + Bit(header.syn) + Bit(header.fin)
    }
  }

  const BLANK := TCPHeader(0, 0, 0, 0, 5, false, false, false, false, false, false, 0, 0, 0)

  /** `seg`, whose first sequence number is the absolute number `a`, carries part of the peer's stream
      `truth`: a SYN is number zero and its bytes, if any, are the first of the stream; other bytes lie
      where their numbers say; a FIN is only behind the last byte. An empty segment may carry any number. */
  predicate Carries(seg: TCPSegment, a: nat, isn: u32, truth: seq<byte>) {
    && seg.header.seqno == Wrap(a, isn)
    && (seg.header.syn ==> a == 0)
    && (0 < seg.Length() ==>
          0 < a + Bit(seg.header.syn) && MarksEnd(truth, seg.payload, a + Bit(seg.header.syn) - 1, seg.header.fin))
  }

  /** A segment as this sender emits it, after it has sent `sent` and, if `finished`, its FIN: its SYN
      is alone. */
  predicate Emitted(seg: TCPSegment, a: nat, isn: u32, sent: seq<byte>, finished: bool) {
    && seg.header.seqno == Wrap(a, isn)
    && (seg.header.syn ==> a == 0 && seg.payload == [] && !seg.header.fin)
    && (!seg.header.syn && 0 < seg.Length() ==> 0 < a && Slice(sent, seg.payload, a - 1))
    && (seg.header.fin ==> finished && 0 < a && a - 1 + |seg.payload| == |sent|)
  }

  lemma EmittedCarries(seg: TCPSegment, a: nat, isn: u32, sent: seq<byte>, finished: bool)
    requires Emitted(seg, a, isn, sent, finished)
    ensures Carries(seg, a, isn, sent)
  {
  }

  lemma EmittedMore(seg: TCPSegment, a: nat, isn: u32, sent: seq<byte>, finished: bool, sent': seq<byte>, finished': bool)
    requires Emitted(seg, a, isn, sent, finished)
    requires sent <= sent' && (finished ==> finished' && sent == sent')
    ensures Emitted(seg, a, isn, sent', finished')
  {
  }
}
