/** Integers in network byte order, and the parser that consumes them. */
module Parsing {
  import opened Basics

  datatype ParseResult =
    | NoError | BadChecksum | PacketTooShort | WrongIPVersion | HeaderTooShort | TruncatedPacket | Unsupported

  function Pow256(n: nat): nat {
    if n == 0 then 1 else 256 * Pow256(n - 1)
  }

  /** The `n` low bytes of `v`, most significant first. */
  function BigEndian(v: nat, n: nat): (b: seq<byte>)
    ensures |b| == n
  {
    if n == 0 then [] else BigEndian(v / 256, n - 1) + [v % 256]
  }

  function FromBigEndian(b: seq<byte>): nat {
    if b == [] then 0 else 256 * FromBigEndian(b[..|b| - 1]) + b[|b| - 1]
  }

  /** Parsing undoes printing on every value that fits. */
  lemma {:induction false} BigEndianRoundTrip(v: nat, n: nat)
    requires v < Pow256(n)
    ensures FromBigEndian(BigEndian(v, n)) == v
  {
    if n != 0 {
      BigEndianRoundTrip(v / 256, n - 1);
      assert BigEndian(v, n)[..n - 1] == BigEndian(v / 256, n - 1);
    }
  }

  /** The bytes of a 16-bit word and of a 32-bit word in network order. */
  function Word(v: u16): seq<byte> {
    [v / 256, v % 256]
  }

  function Long(v: u32): seq<byte> {
    Word(v / TWO_16) + Word(v % TWO_16)
  }

  lemma BigEndianSnoc(v: nat, n: nat)
    ensures BigEndian(v, n + 1) == BigEndian(v / 256, n) + [v % 256]
    ensures BigEndian(v, 0) == []
  {
  }

  lemma BigEndianByte(v: byte)
    ensures BigEndian(v, 1) == [v]
  {
    BigEndianSnoc(v, 0);
  }

  lemma BigEndianWord(v: u16)
    ensures BigEndian(v, 2) == Word(v)
  {
    hide BigEndian;
    BigEndianSnoc(v, 1);
    BigEndianByte(v / 256);
  }

  lemma BigEndianLong(v: u32)
    ensures BigEndian(v, 4) == Long(v)
  {
    hide BigEndian;
    BigEndianSnoc(v, 3);
    BigEndianSnoc(v / 256, 2);
    assert v / 256 / 256 == v / TWO_16;
    BigEndianWord(v / TWO_16);
    var w := v % TWO_16;
    assert w / 256 == v / 256 % 256 && w % 256 == v % 256;
    assert BigEndian(v, 4) == Word(v / TWO_16) + [v / 256 % 256] + [v % 256];
  }

  lemma {:induction false} FromBigEndianBound(b: seq<byte>)
    ensures FromBigEndian(b) < Pow256(|b|)
  {
    if b != [] { FromBigEndianBound(b[..|b| - 1]); }
  }

  lemma Widths()
    ensures Pow256(1) == 0x100 && Pow256(2) == 0x1_0000 && Pow256(4) == 0x1_0000_0000
  {
    assert Pow256(3) == 0x100_0000;
  }

  function Zeros(n: nat): (b: seq<byte>)
    ensures |b| == n && forall i | 0 <= i < n :: b[i] == 0
  {
    seq(n, _ => 0)
  }

  datatype Parser = Parser(buffer: seq<byte>, error: ParseResult)
  {
    function CheckSize(n: nat): Parser {
      if n > |buffer| then this.(error := PacketTooShort) else this
    }

    /** An integer of `n` bytes; zero, and nothing consumed, after an error. */
    function Int(n: nat): (nat, Parser) {
      var p := CheckSize(n);
      if p.error != NoError then (0, p)
      else (FromBigEndian(buffer[..n]), p.(buffer := buffer[n..]))
    }

    function RemovePrefix(n: nat): Parser {
      var p := CheckSize(n);
      if p.error != NoError then p else p.(buffer := buffer[n..])
    }
  }

  /** What is printed in front of `rest` is what the parser returns, and `rest` is what it leaves. */
  lemma IntRoundTrip(v: nat, n: nat, rest: seq<byte>)
    requires v < Pow256(n)
    ensures Parser(BigEndian(v, n) + rest, NoError).Int(n) == (v, Parser(rest, NoError))
  {
    BigEndianRoundTrip(v, n);
    assert (BigEndian(v, n) + rest)[..n] == BigEndian(v, n);
    assert (BigEndian(v, n) + rest)[n..] == rest;
  }

  lemma IntBound(p: Parser, n: nat)
    ensures p.Int(n).0 < Pow256(n)
  {
    if n <= |p.buffer| { FromBigEndianBound(p.buffer[..n]); } else { Pow256Positive(n); }
    Pow256Positive(n);
  }

  lemma {:induction false} Pow256Positive(n: nat)
    ensures 0 < Pow256(n)
  {
    if n != 0 { Pow256Positive(n - 1); }
  }

  class NetParser {
    var buffer: seq<byte>
    var error: ParseResult

    constructor (buffer: seq<byte>)
      ensures Value() == Parser(buffer, NoError)
    {
      this.buffer, error := buffer, NoError;
    }

    ghost function Value(): Parser
      reads this
    {
      Parser(buffer, error)
    }

    method ParseInt(len: nat) returns (ret: nat)
      modifies this
      ensures (ret, Value()) == old(Value()).Int(len)
    {
      if len > |buffer| {
        error := PacketTooShort;
      }
      if error != NoError {
        return 0;
      }
      ret := 0;
      for i := 0 to len
        invariant ret == FromBigEndian(buffer[..i])
      {
        assert buffer[..i + 1][..i] == buffer[..i];
        ret := 256 * ret + buffer[i];
      }
      buffer := buffer[len..];
    }

    method RemovePrefix(n: nat)
      modifies this
      ensures Value() == old(Value()).RemovePrefix(n)
    {
      if n > |buffer| {
        error := PacketTooShort;
      }
      if error != NoError {
        return;
      }
      buffer := buffer[n..];
    }
  }

  function Shift(v: nat, n: nat): nat {
    if n == 0 then v else Shift(v / 256, n - 1)
  }

  lemma {:induction false} BigEndianFirst(v: nat, n: nat, i: nat)
    requires i < n
    ensures BigEndian(v, n)[i] == Shift(v, n - i - 1) % 256
  {
    if i < n - 1 { BigEndianFirst(v / 256, n - 1, i); }
  }

  /** Appends the bytes of `val`, the one `len - i - 1` bytes up at step `i`. */
  method UnparseInt(s: seq<byte>, val: nat, len: nat) returns (r: seq<byte>)
    ensures r == s + BigEndian(val, len)
  {
    r := s;
    for i := 0 to len
      invariant r == s + BigEndian(val, len)[..i]
    {
      BigEndianFirst(val, len, i);
      var theByte: byte := Shift(val, len - i - 1) % 256;
      r := r + [theByte];
    }
  }
}
