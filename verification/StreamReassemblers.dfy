/** The bitmap implementation of the reassembler, refined to the window of module Reassembly. */
module StreamReassemblers {
  import opened Basics
  import opened ByteStreams
  import opened Reassembly

  /** The bytes whose bit is set, at their index in the stream. */
  ghost function Pending(base: nat, bytes: seq<byte>, bits: seq<bool>): map<nat, byte>
    requires |bytes| == |bits|
  {
    var slots := Range(base, base + |bits|);
    map i | i in slots && bits[i - base] :: bytes[i - base]
  }

  ghost predicate Below(store: map<nat, byte>, hi: nat) {
    forall i | i in store :: i < hi
  }

  /** The unsigned length computation of the source: it wraps when the substring starts past the
      free part of the window. */
  function RealLength(len: nat, capacity: nat, buffered: nat, offset: nat): nat {
    Min(len, (capacity - buffered - offset) % TWO_64)
  }

  /** It stays inside the window exactly when the substring is empty or starts inside it. */
  lemma RealLengthFits(len: nat, capacity: nat, buffered: nat, offset: nat)
    requires buffered <= capacity < TWO_31 && offset < TWO_31 && len < TWO_31
    ensures buffered + offset + RealLength(len, capacity, buffered, offset) <= capacity
            || RealLength(len, capacity, buffered, offset) == 0
       <==> len == 0 || buffered + offset <= capacity
  {
    if capacity < buffered + offset {
      assert (capacity - buffered - offset) % TWO_64 == capacity - buffered - offset + TWO_64;
    }
  }

  /** What the marking loop leaves pending after a substring that stays inside the bitmap, without the
      flow premise. */
  function MarkedStore(w: Window, data: seq<byte>, index: nat): map<nat, byte>
    requires w.WF() && w.Base() <= index
  {
    var n := RealLength(|data|, w.out.capacity, w.out.Buffered(), index - w.Base());
    Absorb(w.store, data[..n], index, w.Base(), w.Base() + w.out.capacity)
  }

  /** Bytes past the edge are discarded, as documented, exactly when the flow premise holds. */
  lemma DiscardsExactly(w: Window, data: seq<byte>, index: nat)
    requires w.WF() && w.out.capacity < TWO_31 && |data| < TWO_31
    requires w.Base() <= index && index + |data| <= w.Base() + w.out.capacity
    ensures (forall i | i in MarkedStore(w, data, index) :: i < w.Edge()) <==> w.Flow(data, index)
  {
    var n := RealLength(|data|, w.out.capacity, w.out.Buffered(), index - w.Base());
    RealLengthFits(|data|, w.out.capacity, w.out.Buffered(), index - w.Base());
    if !w.Flow(data, index) {
      assert n == |data|;
      assert index in MarkedStore(w, data, index);
    }
    hide RealLength;
  }

  /** Both bytes assembled, none read. */
  function FullOfTwo(x: byte, y: byte): Window {
    Window(map[], false, Stream(2, [x, y], 0, false, false))
  }

  lemma TwoPushed(x: byte, y: byte)
    ensures Empty(2).Push([x, y], 0, false) == FullOfTwo(x, y)
  {
    var all := Absorb(map[], [x, y], 0, 0, 2);
    assert forall i :: i in all <==> 0 <= i < 2;
    FullRun(all, 0, 2);
    assert Run(all, 0) == [x, y];
  }

  lemma TwoReached(x: byte, y: byte)
    ensures AllowedRun(Empty(2), [PushOp([x, y], 0, false)])
    ensures Reassembly.Exec(Empty(2), [PushOp([x, y], 0, false)]) == FullOfTwo(x, y)
  {
    hide Window.Push;
    TwoPushed(x, y);
    var w, ops := FullOfTwo(x, y), [PushOp([x, y], 0, false)];
    assert ops[1..] == [];
    assert Apply(Empty(2), ops[0]) == w;
    assert AllowedRun(w, []) && Reassembly.Exec(w, []) == w;
  }

  lemma ThirdMarked(w: Window, z: byte)
    requires w.WF() && w.store == map[] && w.Base() == w.out.Buffered() == w.out.capacity == 2
    ensures MarkedStore(w, [z], 3) == map[3 := z]
  {
    assert RealLength(1, 2, 2, 1) == 1;
    assert [z][..1] == [z];
    assert Absorb(map[], [z], 3, 2, 4) == map[3 := z];
    hide Absorb, RealLength;
  }

  /** The memory limit, broken: with a capacity of two and both bytes unread, a byte one further on stays
      pending, which makes three. */
  lemma MemoryLimitBroken(x: byte, y: byte, z: byte)
    ensures AllowedRun(Empty(2), [PushOp([x, y], 0, false)])
    ensures var w := Reassembly.Exec(Empty(2), [PushOp([x, y], 0, false)]);
            && w.WF() && w.Base() == 2 && 3 < w.Base() + w.out.capacity && !w.Flow([z], 3)
            && |MarkedStore(w, [z], 3)| + w.out.Buffered() == w.out.capacity + 1
  {
    hide AllowedRun, Reassembly.Exec, MarkedStore;
    TwoReached(x, y);
    ThirdMarked(FullOfTwo(x, y), z);
  }

  lemma SetBit(base: nat, bytes: seq<byte>, bits: seq<bool>, k: nat, b: byte)
    requires |bytes| == |bits| && k < |bits| && !bits[k]
    ensures Pending(base, bytes[k := b], bits[k := true]) == Pending(base, bytes, bits)[base + k := b]
    ensures base + k !in Pending(base, bytes, bits)
  {
  }

  lemma AbsorbStep(store: map<nat, byte>, data: seq<byte>, index: nat, lo: nat, hi: nat, j: nat)
    requires j < |data| && lo <= index + j < hi
    ensures var before := Absorb(store, data[..j], index, lo, hi);
            Absorb(store, data[..j + 1], index, lo, hi) ==
            if index + j in before then before else before[index + j := data[j]]
  {
  }

  /** One round of the marking loop absorbs one more byte. */
  lemma MarkStep(base: nat, bytes: seq<byte>, bits: seq<bool>, store: map<nat, byte>,
                 data: seq<byte>, index: nat, hi: nat, j: nat, k: nat)
    requires |bytes| == |bits| && k < |bits| && j < |data| && index + j == base + k < hi
    requires Pending(base, bytes, bits) == Absorb(store, data[..j], index, base, hi)
    ensures bits[k] ==>
              Pending(base, bytes, bits) == Absorb(store, data[..j + 1], index, base, hi)
    ensures !bits[k] ==>
              var bytes', bits' := bytes[k := data[j]], bits[k := true];
              && Pending(base, bytes', bits') == Absorb(store, data[..j + 1], index, base, hi)
              && |Pending(base, bytes', bits')| == |Pending(base, bytes, bits)| + 1
  {
    hide Pending, Absorb;
    AbsorbStep(store, data, index, base, hi, j);
    PendingAt(base, bytes, bits, base + k);
    if !bits[k] { SetBit(base, bytes, bits, k, data[j]); }
  }

  lemma AbsorbBelow(store: map<nat, byte>, data: seq<byte>, index: nat, lo: nat, hi: nat)
    requires Below(store, hi)
    ensures Below(Absorb(store, data, index, lo, hi), hi)
  {
  }

  lemma AbsorbClip(store: map<nat, byte>, data: seq<byte>, index: nat, lo: nat, hi: nat, n: nat)
    requires n == |data| || (n < |data| && hi <= index + n)
    ensures Absorb(store, data[..n], index, lo, hi) == Absorb(store, data, index, lo, hi)
  {
  }

  lemma AbsorbNothing(store: map<nat, byte>, data: seq<byte>, index: nat, lo: nat, hi: nat)
    requires index + |data| <= lo || |data| == 0
    ensures Absorb(store, data, index, lo, hi) == store
  {
  }

  lemma PendingAt(base: nat, bytes: seq<byte>, bits: seq<bool>, i: nat)
    requires |bytes| == |bits|
    ensures i in Pending(base, bytes, bits) <==> base <= i < base + |bits| && bits[i - base]
    ensures i in Pending(base, bytes, bits) ==> Pending(base, bytes, bits)[i] == bytes[i - base]
  {
  }

  lemma ShiftOut(base: nat, bytes: seq<byte>, bits: seq<bool>)
    requires |bytes| == |bits| && 0 < |bits| && bits[0]
    ensures Pending(base + 1, bytes[1..] + [0], bits[1..] + [false]) == From(Pending(base, bytes, bits), base + 1)
  {
    var p, q := Pending(base, bytes, bits), Pending(base + 1, bytes[1..] + [0], bits[1..] + [false]);
    forall i: nat
      ensures i in q <==> i in p && base + 1 <= i
      ensures i in q ==> q[i] == p[i]
    {
      PendingAt(base, bytes, bits, i);
      PendingAt(base + 1, bytes[1..] + [0], bits[1..] + [false], i);
    }
  }

  lemma FromAt(store: map<nat, byte>, lo: nat, i: nat)
    ensures i in From(store, lo) <==> i in store && lo <= i
    ensures i in From(store, lo) ==> From(store, lo)[i] == store[i]
  {
  }

  lemma FromAll(base: nat, bytes: seq<byte>, bits: seq<bool>)
    requires |bytes| == |bits|
    ensures From(Pending(base, bytes, bits), base) == Pending(base, bytes, bits)
  {
  }

  lemma RunBelow(store: map<nat, byte>, base: nat, hi: nat)
    requires Below(store, hi) && base <= hi
    ensures var next := base + |Run(store, base)|;
            next <= hi && Below(From(store, next), hi) && forall i | i in From(store, next) :: next < i < hi
  {
    var run := Run(store, base);
    if run != [] { assert base + |run| - 1 in store; }
  }

  lemma FromStep(store: map<nat, byte>, base: nat)
    requires base in store
    ensures |From(store, base)| == |From(store, base + 1)| + 1
    ensures From(From(store, base), base + 1) == From(store, base + 1)
  {
    assert From(store, base).Keys == From(store, base + 1).Keys + {base};
  }

  lemma RunUnique(store: map<nat, byte>, base: nat, run: seq<byte>)
    requires forall i | base <= i < base + |run| :: i in store && run[i - base] == store[i]
    requires base + |run| !in store
    ensures run == Run(store, base)
  {
    var r := Run(store, base);
    assert base + |r| !in store;
    assert |r| == |run|;
    forall j | 0 <= j < |r| ensures r[j] == run[j] { assert base + j in store; }
  }

  class StreamReassembler {
    const capacity: nat
    const output: ByteStream
    var unassBase: nat
    var unassSize: nat
    var eof: bool
    var buffer: seq<byte>
    var bitmap: seq<bool>

    /** Everything but the rule that the first slot of the window is free. */
    ghost predicate Framed()
      reads this, output
    {
      && output.Valid() && output.capacity == capacity
      && 0 < capacity < TWO_31
      && |buffer| == |bitmap| == capacity
      && unassBase == output.writtenBytes
      && unassSize == |Pending(unassBase, buffer, bitmap)|
      && Below(Pending(unassBase, buffer, bitmap), output.readBytes + capacity)
    }

    /** The size counter counts the set bits, and every set bit lies inside the window. */
    ghost predicate Valid()
      reads this, output
    {
      Framed() && Value().WF()
    }

    ghost function Value(): Window
      reads this, output
      requires Framed()
    {
      Window(Pending(unassBase, buffer, bitmap), eof, output.Value())
    }

    constructor (capacity: nat)
      requires 0 < capacity < TWO_31
      ensures Valid() && Value() == Empty(capacity) && fresh(output)
    {
      this.capacity := capacity;
      output := new ByteStream(capacity);
      unassBase, unassSize, eof := 0, 0, false;
      buffer := seq(capacity, _ => 0);
      bitmap := seq(capacity, _ => false);
      new;
      assert Pending(unassBase, buffer, bitmap) == map[];
    }

    /** Takes the leading set bits off the window. The loop ends because each round clears one. */
    method TakeContiguous() returns (tmp: seq<byte>)
      requires Framed()
      modifies this`buffer, this`bitmap
      ensures |buffer| == |bitmap| == capacity
      ensures tmp == Run(old(Value()).store, unassBase) && |tmp| <= unassSize
      ensures Pending(unassBase + |tmp|, buffer, bitmap) == From(old(Value()).store, unassBase + |tmp|)
      ensures |Pending(unassBase + |tmp|, buffer, bitmap)| == unassSize - |tmp|
    {
      hide Pending, From, Below, Run;
      ghost var all := Pending(unassBase, buffer, bitmap);
      FromAll(unassBase, buffer, bitmap);
      tmp := [];
      while bitmap[0]
        invariant |buffer| == |bitmap| == capacity
        invariant forall i | unassBase <= i < unassBase + |tmp| :: i in all && tmp[i - unassBase] == all[i]
        invariant Pending(unassBase + |tmp|, buffer, bitmap) == From(all, unassBase + |tmp|)
        invariant |From(all, unassBase + |tmp|)| == unassSize - |tmp|
        decreases |From(all, unassBase + |tmp|)|
      {
        ghost var base := unassBase + |tmp|;
        ShiftOut(base, buffer, bitmap);
        PendingAt(base, buffer, bitmap, base);
        FromAt(all, base, base);
        FromStep(all, base);
        tmp := tmp + [buffer[0]];
        buffer := buffer[1..] + [0];
        bitmap := bitmap[1..] + [false];
      }
      ghost var next := unassBase + |tmp|;
      PendingAt(next, buffer, bitmap, next);
      FromAt(all, next, next);
      RunUnique(all, unassBase, tmp);
    }

    /** Moves the leading set bits into the output, which has room for all of them. */
    method CheckContiguous()
      requires Framed()
      modifies this, output
      ensures Valid() && eof == old(eof)
      ensures var all := old(Value()).store;
              var run := Run(all, old(unassBase));
              && Value().store == From(all, old(unassBase) + |run|)
              && output.Value() == old(output.Value()).(history := old(output.history) + run)
    {
      hide Pending, From, Below, Run;
      ghost var all := Pending(unassBase, buffer, bitmap);
      RunBelow(all, unassBase, output.readBytes + capacity);
      var tmp := TakeContiguous();
      if |tmp| > 0 {
        var n := output.Write(tmp);
        assert tmp[..n] == tmp;
        unassBase := unassBase + |tmp|;
        unassSize := unassSize - |tmp|;
      }
    }

    /** The marking loop of both branches: `data[skip..skip + n]` goes to slots `at..at + n`. */
    method Mark(data: seq<byte>, ghost index: nat, skip: nat, at: nat, n: nat)
      requires Framed()
      requires skip + n <= |data| && at + n <= capacity
      requires index + skip == unassBase + at && (skip == 0 || at == 0)
      requires n == 0 || unassBase + at + n <= output.readBytes + capacity
      modifies this`buffer, this`bitmap, this`unassSize
      ensures Framed()
      ensures Value().store ==
              Absorb(old(Value()).store, data[..skip + n], index, unassBase, output.readBytes + capacity)
    {
      hide Pending, Absorb;
      ghost var store, edge := Pending(unassBase, buffer, bitmap), output.readBytes + capacity;
      AbsorbNothing(store, data[..skip], index, unassBase, edge);
      for i := 0 to n
        invariant |buffer| == |bitmap| == capacity
        invariant Pending(unassBase, buffer, bitmap) == Absorb(store, data[..skip + i], index, unassBase, edge)
        invariant unassSize == |Pending(unassBase, buffer, bitmap)|
      {
        MarkStep(unassBase, buffer, bitmap, store, data, index, edge, skip + i, at + i);
        if !bitmap[at + i] {
          buffer := buffer[at + i := data[skip + i]];
          bitmap := bitmap[at + i := true];
          unassSize := unassSize + 1;
        }
      }
      AbsorbBelow(store, data[..skip + n], index, unassBase, edge);
    }

    /** Both branches that put a substring into the window, and the truncation of the end mark. */
    method StoreSubstring(data: seq<byte>, index: nat)
      requires Valid() && Value().Flow(data, index) && |data| < TWO_31
      requires index < unassBase + capacity
      modifies this`buffer, this`bitmap, this`unassSize, this`eof
      ensures Framed()
      ensures eof == (old(eof) && !old(Value()).Truncates(data, index))
      ensures Value().store ==
              Absorb(old(Value()).store, data, index, unassBase, output.readBytes + capacity)
    {
      hide Pending, Absorb, Below;
      ghost var store, edge := Value().store, output.readBytes + capacity;
      var len := |data|;
      if index >= unassBase {
        var offset := index - unassBase;
        var realLen := RealLength(len, capacity, |output.buffer|, offset);
        RealLengthFits(len, capacity, |output.buffer|, offset);
        if realLen < len {
          eof := false;
        }
        Mark(data, index, 0, offset, realLen);
        AbsorbClip(store, data, index, unassBase, edge, realLen);
      } else if index + len > unassBase {
        var offset := unassBase - index;
        var realLen := Min(len - offset, capacity - |output.buffer|);
        if realLen < len - offset {
          eof := false;
        }
        Mark(data, index, offset, 0, realLen);
        AbsorbClip(store, data, index, unassBase, edge, offset + realLen);
      } else {
        AbsorbNothing(store, data, index, unassBase, edge);
      }
    }

    /** The part of a push that reaches the window. */
    method Assemble(data: seq<byte>, index: nat)
      requires Valid() && Value().Flow(data, index) && |data| < TWO_31
      requires index < unassBase + capacity
      modifies this, output
      ensures Valid()
      ensures var w := old(Value());
              var all := Absorb(w.store, data, index, w.Base(), w.Edge());
              var run := Run(all, w.Base());
              Value() == w.Settle(run, From(all, w.Base() + |run|), w.eof && !w.Truncates(data, index))
    {
      hide Pending, Absorb, From, Run, Below;
      StoreSubstring(data, index);
      CheckContiguous();
      if eof && unassSize == 0 {
        output.EndInput();
      }
    }

    method PushSubstring(data: seq<byte>, index: nat, last: bool)
      requires Valid() && Value().Flow(data, index) && |data| < TWO_31
      modifies this, output
      ensures Valid() && Value() == old(Value()).Push(data, index, last)
    {
      hide Pending, Absorb, From, Run, Below;
      if last {
        eof := true;
      }
      if |data| == 0 && eof && unassSize == 0 {
        output.EndInput();
        return;
      }
      if index >= unassBase + capacity {
        return;
      }
      Assemble(data, index);
    }

    function UnassembledBytes(): (n: nat)
      reads this, output
      requires Valid()
      ensures n == |Value().store|
    {
      unassSize
    }

    function AckIndex(): (n: nat)
      reads this, output
      requires Valid()
      ensures n == Value().Base()
    {
      unassBase
    }
  }
}
