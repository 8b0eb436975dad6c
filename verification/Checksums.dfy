/** The Internet checksum (RFC 1071): a one's-complement sum of 16-bit words. */
module Checksums {
  import opened Basics

  /** The sum of the 16-bit words of `data`; `odd` says that the first byte is a low one. */
  function WordSum(data: seq<byte>, odd: bool): nat {
    if data == [] then 0
    else (if odd then data[0] else 256 * data[0]) + WordSum(data[1..], !odd)
  }

  function Parity(odd: bool, n: nat): bool {
    if n % 2 == 0 then odd else !odd
  }

  lemma {:induction false} WordSumAppend(a: seq<byte>, b: seq<byte>, odd: bool)
    ensures WordSum(a + b, odd) == WordSum(a, odd) + WordSum(b, Parity(odd, |a|))
  {
    if a == [] {
      assert a + b == b;
    } else {
      WordSumAppend(a[1..], b, !odd);
      assert (a + b)[1..] == a[1..] + b;
    }
  }

  /** A packet of at most 65535 bytes sums to less than 2^31. */
  lemma {:induction false} WordSumBound(data: seq<byte>, odd: bool)
    ensures WordSum(data, odd) <= 32768 * |data| + if odd then 0 else 32512
  {
    if data != [] { WordSumBound(data[1..], !odd); }
  }

  lemma WordSumUpdate(data: seq<byte>, k: nat, b: byte)
    requires k < |data|
    ensures WordSum(data[k := b], false) ==
            WordSum(data, false) + (b - data[k]) * (if k % 2 == 0 then 256 else 1)
  {
    var front, back := data[..k], data[k + 1..];
    assert data == front + ([data[k]] + back) && data[k := b] == front + ([b] + back);
    WordSumAppend(front, [data[k]] + back, false);
    WordSumAppend(front, [b] + back, false);
    assert ([data[k]] + back)[1..] == back && ([b] + back)[1..] == back;
  }

  /** Adding the high half to the low half until 16 bits are left. */
  function Fold(x: nat): u16 {
    if x <= 0xffff then x else Fold(x / 0x1_0000 + x % 0x1_0000)
  }

  function Complement(x: nat): u16 {
    0xffff - Fold(x)
  }

  /** Folding keeps the sum modulo 65535 and never turns a non-zero sum into zero. */
  lemma {:induction false} FoldKeepsSum(x: nat)
    ensures Fold(x) % 0xffff == x % 0xffff
    ensures Fold(x) == 0 <==> x == 0
    decreases x
  {
    if x > 0xffff {
      var high, low := x / 0x1_0000, x % 0x1_0000;
      FoldKeepsSum(high + low);
      assert x == (high + low) + 0xffff * high;
      ModShift(high + low, high);
    }
  }

  lemma ModShift(x: nat, k: int)
    ensures (x + 0xffff * k) % 0xffff == x % 0xffff
  {
  }

  /** The checksum verifies exactly the non-zero multiples of 65535. */
  lemma ComplementZero(x: nat)
    ensures Complement(x) == 0 <==> 0 < x && x % 0xffff == 0
  {
    FoldKeepsSum(x);
  }

  /** Adding the checksum of a sum to it makes it verify. */
  lemma ComplementVerifies(x: nat)
    ensures Complement(x + Complement(x)) == 0
  {
    hide Fold;
    FoldKeepsSum(x);
    var f := Fold(x);
    var k := x / 0xffff - f / 0xffff;
    assert x - f == 0xffff * k;
    ModShift(0, k + 1);
    ComplementZero(x + Complement(x));
  }

  /** Changing one byte changes the verdict on any packet that verifies. */
  lemma OneByteDetected(data: seq<byte>, k: nat, b: byte, initial: nat)
    requires k < |data| && b != data[k]
    requires Complement(initial + WordSum(data, false)) == 0
    ensures Complement(initial + WordSum(data[k := b], false)) != 0
  {
    WordSumUpdate(data, k, b);
    var x, y := initial + WordSum(data, false), initial + WordSum(data[k := b], false);
    ComplementZero(x);
    ComplementZero(y);
    SmallChange(x, y);
  }

  lemma SmallChange(x: nat, y: nat)
    requires x % 0xffff == 0 && x != y && -0xffff < y - x < 0xffff
    ensures y % 0xffff != 0
  {
  }

  lemma ModAdd(a: nat, b: nat)
    ensures (a % TWO_32 + b) % TWO_32 == (a + b) % TWO_32
  {
    var q := a / TWO_32;
    assert a == a % TWO_32 + q * 0x1_0000_0000;
  }

  lemma WordSumOne(b: byte, odd: bool)
    ensures WordSum([b], odd) == if odd then b else 256 * b
  {
  }

  class InternetChecksum {
    var sum: u32
    var parity: bool

    constructor (initialSum: u32)
      ensures sum == initialSum && !parity
    {
      sum, parity := initialSum, false;
    }

    method Add(data: seq<byte>)
      modifies this
      ensures sum == (old(sum) + WordSum(data, old(parity))) % TWO_32
      ensures parity == Parity(old(parity), |data|)
    {
      assert data[..|data|] == data;
      assert WordSum(data[..0], parity) == 0;
      hide WordSum;
      for i := 0 to |data|
        invariant sum == (old(sum) + WordSum(data[..i], old(parity))) % TWO_32
        invariant parity == Parity(old(parity), i)
      {
        WordSumAppend(data[..i], [data[i]], old(parity));
        WordSumOne(data[i], parity);
        ModAdd(old(sum) + WordSum(data[..i], old(parity)), WordSum([data[i]], parity));
        assert data[..i + 1] == data[..i] + [data[i]];
        var val: u16 := data[i];
        if !parity {
          val := 256 * val;
        }
        sum := (sum + val) % TWO_32;
        parity := !parity;
      }
    }

    method Value() returns (v: u16)
      ensures v == Complement(sum)
    {
      var ret: nat := sum;
      while ret > 0xffff
        invariant Fold(ret) == Fold(sum)
        decreases ret
      {
        ret := ret / 0x1_0000 + ret % 0x1_0000;
      }
      v := 0xffff - ret;
    }
  }
}
