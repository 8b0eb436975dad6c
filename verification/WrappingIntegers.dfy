/** 32-bit sequence numbers relative to an initial sequence number (section 3.3 of RFC 793). */
module WrappingIntegers {
  import opened Basics

  /** The int32_t difference of two wrapping integers: the signed representative of `a - b`. */
  function Difference(a: u32, b: u32): (d: int)
    ensures -TWO_31 <= d < TWO_31
    ensures (b + d) % TWO_32 == a
  {
    var u := (a - b) % TWO_32;
    if u < TWO_31 then u else u - TWO_32
  }

  function Wrap(n: nat, isn: u32): u32 {
    (isn + n % TWO_32) % TWO_32
  }

  lemma WrapSmall(n: nat)
    requires n < TWO_32
    ensures Wrap(n, 0) == n
  {
  }

  function Distance(a: nat, b: nat): nat {
    if a <= b then b - a else a - b
  }

  /** `r` wraps to `n` and no other number that does is closer to `checkpoint`; a tie goes up. */
  ghost predicate IsNearest(n: u32, isn: u32, checkpoint: nat, r: nat) {
    && Wrap(r, isn) == n
    && forall v: nat | Wrap(v, isn) == n ::
         Distance(r, checkpoint) < Distance(v, checkpoint)
         || (Distance(r, checkpoint) == Distance(v, checkpoint) && v <= r)
  }

  /** The closed form of the specification: step from the checkpoint by the signed difference,
      except that a result below zero moves up one turn. */
  function Unwrap(n: u32, isn: u32, checkpoint: nat): (r: nat)
  {
    var ahead := (n - Wrap(checkpoint, isn)) % TWO_32;
    if ahead <= TWO_31 || checkpoint + ahead < TWO_32
    then checkpoint + ahead
    else checkpoint + ahead - TWO_32
  }

  /** Wrapping subtracts a whole number of turns. */
  lemma WrapTurns(v: nat, isn: u32) returns (q: int)
    ensures isn + v == Wrap(v, isn) + q * 0x1_0000_0000
  {
    q := v / TWO_32 + (isn + v % TWO_32) / TWO_32;
  }

  /** Two numbers that wrap to the same value differ by a whole number of turns. */
  lemma SameWrap(a: nat, b: nat, isn: u32) returns (q: int)
    requires Wrap(a, isn) == Wrap(b, isn)
    ensures a == b + q * 0x1_0000_0000
  {
    var qa := WrapTurns(a, isn);
    var qb := WrapTurns(b, isn);
    q := qa - qb;
  }

  lemma WrapUnique(v: nat, isn: u32, w: u32, q: int)
    requires isn + v == w + q * 0x1_0000_0000
    ensures Wrap(v, isn) == w
  {
    var q' := WrapTurns(v, isn);
  }

  lemma UnwrapWraps(n: u32, isn: u32, checkpoint: nat)
    ensures Wrap(Unwrap(n, isn, checkpoint), isn) == n
  {
    var r := Unwrap(n, isn, checkpoint);
    var q := WrapTurns(checkpoint, isn);
    var step := (n - Wrap(checkpoint, isn)) / TWO_32;
    WrapUnique(r, isn, n, q - step - if r < checkpoint || r - checkpoint >= TWO_32 then 1 else 0);
  }

  /** Within half a turn of the checkpoint, or above it in the first turn, where the candidate one
      turn lower would be negative. */
  predicate InReach(v: nat, checkpoint: nat) {
    -TWO_31 < v - checkpoint <= TWO_31 || checkpoint + TWO_31 < v < TWO_32
  }

  lemma Nearer(r: nat, v: nat, checkpoint: nat, q: int)
    requires InReach(r, checkpoint) && v == r + q * 0x1_0000_0000
    ensures Distance(r, checkpoint) < Distance(v, checkpoint)
            || (Distance(r, checkpoint) == Distance(v, checkpoint) && v <= r)
  {
  }

  lemma UnwrapInReach(n: u32, isn: u32, checkpoint: nat)
    ensures InReach(Unwrap(n, isn, checkpoint), checkpoint)
  {
    hide Wrap;
  }

  lemma ReachUnique(r: nat, v: nat, checkpoint: nat, q: int)
    requires InReach(r, checkpoint) && InReach(v, checkpoint) && r == v + q * 0x1_0000_0000
    ensures r == v
  {
    assert -1 < q < 1;
  }

  /** Unwrapping undoes wrapping exactly on the numbers in reach of the checkpoint. */
  lemma UnwrapWrap(v: nat, isn: u32, checkpoint: nat)
    ensures Unwrap(Wrap(v, isn), isn, checkpoint) == v <==> InReach(v, checkpoint)
  {
    var r := Unwrap(Wrap(v, isn), isn, checkpoint);
    UnwrapWraps(Wrap(v, isn), isn, checkpoint);
    UnwrapInReach(Wrap(v, isn), isn, checkpoint);
    hide Wrap, Unwrap;
    var q := SameWrap(r, v, isn);
    if InReach(v, checkpoint) { ReachUnique(r, v, checkpoint, q); }
  }

  /** `unwrap` returns the non-negative number nearest to the checkpoint. */
  lemma UnwrapNearest(n: u32, isn: u32, checkpoint: nat)
    ensures IsNearest(n, isn, checkpoint, Unwrap(n, isn, checkpoint))
  {
    var r := Unwrap(n, isn, checkpoint);
    UnwrapWraps(n, isn, checkpoint);
    UnwrapWrap(r, isn, checkpoint);
    forall v: nat | Wrap(v, isn) == n
      ensures Distance(r, checkpoint) < Distance(v, checkpoint)
              || (Distance(r, checkpoint) == Distance(v, checkpoint) && v <= r)
    {
      var q := SameWrap(v, r, isn);
      Nearer(r, v, checkpoint, q);
    }
  }

  /** There is only one such number, so `IsNearest` pins the result of `unwrap` down. */
  lemma NearestUnique(n: u32, isn: u32, checkpoint: nat, r: nat)
    requires IsNearest(n, isn, checkpoint, r)
    ensures r == Unwrap(n, isn, checkpoint)
  {
    UnwrapNearest(n, isn, checkpoint);
  }

  /** When the 64-bit loop of `unwrap` comes to an end. */
  predicate LoopEnds(n: u32, isn: u32, checkpoint: nat) {
    checkpoint < TWO_64 - TWO_32 || checkpoint % TWO_32 < (n - isn) % TWO_32
  }

  /** Outside that condition every 64-bit candidate is at most the checkpoint, so the loop guard
      `tmp <= checkpoint` never becomes false. */
  lemma LoopDiverges(n: u32, isn: u32, checkpoint: nat, tmp: nat)
    requires checkpoint < TWO_64 && !LoopEnds(n, isn, checkpoint)
    requires tmp < TWO_64 && tmp % TWO_32 == (n - isn) % TWO_32
    ensures tmp <= checkpoint
    ensures ((tmp + TWO_32) % TWO_64) % TWO_32 == (n - isn) % TWO_32
  {
    var q := tmp / TWO_32;
    assert tmp == q * 0x1_0000_0000 + tmp % TWO_32;
    assert q <= 0xffff_ffff;
  }

  /** `unwrap` on 64-bit words: the loop body runs at most once. */
  method UnwrapLoop(n: u32, isn: u32, checkpoint: nat) returns (r: nat, ghost rounds: nat)
    requires checkpoint < TWO_64 && LoopEnds(n, isn, checkpoint)
    ensures IsNearest(n, isn, checkpoint, r)
    ensures r < TWO_64 && rounds <= 1
  {
    hide IsNearest;
    var tmp: nat;
    rounds := 0;
    if Difference(n, isn) < 0 {
      tmp := Difference(n, isn) + TWO_32;
    } else {
      tmp := Difference(n, isn);
    }
    ghost var offset := tmp;
    ghost var k := if n < isn then 1 else 0;
    assert offset == n - isn + k * TWO_32 < TWO_32;
    if tmp >= checkpoint {
      FoundNearest(n, isn, checkpoint, tmp, k);
      return tmp, rounds;
    }
    ghost var turns := checkpoint / TWO_32;
    var high := checkpoint / TWO_32 * TWO_32;
    assert high <= checkpoint < high + TWO_32;
    tmp := high + tmp;                    // the low half of `high` is zero, so `|=` adds
    while tmp <= checkpoint
      invariant rounds <= 1
      invariant tmp == high + offset + rounds * TWO_32 < TWO_64
      invariant rounds == 1 ==> high + offset <= checkpoint
      decreases 1 - rounds
    {
      tmp := (tmp + TWO_32) % TWO_64;
      rounds := rounds + 1;
    }
    var tmp1 := tmp - TWO_32;
    r := if checkpoint - tmp1 < tmp - checkpoint then tmp1 else tmp;
    FoundNearest(n, isn, checkpoint, r, k + turns + rounds - if r == tmp1 then 1 else 0);
  }

  lemma FoundNearest(n: u32, isn: u32, checkpoint: nat, r: nat, q: int)
    requires isn + r == n + q * 0x1_0000_0000 && InReach(r, checkpoint)
    ensures IsNearest(n, isn, checkpoint, r)
  {
    WrapUnique(r, isn, n, q);
    UnwrapWrap(r, isn, checkpoint);
    UnwrapNearest(n, isn, checkpoint);
  }
}
