/** What the stream reassembler means: a window of pending bytes in front of an in-order stream. */
module Reassembly {
  import opened Basics
  import opened ByteStreams

  function From(store: map<nat, byte>, lo: nat): map<nat, byte> {
    map i | i in store && lo <= i :: store[i]
  }

  /** The longest run of bytes stored at consecutive indices from `base` on. */
  function Run(store: map<nat, byte>, base: nat): (run: seq<byte>)
    ensures forall i | base <= i < base + |run| :: i in store && run[i - base] == store[i]
    ensures base + |run| !in store
    decreases |From(store, base)|
  {
    if base in store then
      assert From(store, base).Keys == From(store, base + 1).Keys + {base};
      [store[base]] + Run(store, base + 1)
    else []
  }

  predicate InRange(i: nat, lo: nat, hi: nat) {
    lo <= i < hi
  }

  function Range(lo: nat, hi: nat): (r: set<nat>) {
    set i: nat | lo <= i < hi && InRange(i, lo, hi)
  }

  lemma RangeSize(lo: nat, hi: nat)
    requires lo <= hi
    ensures |Range(lo, hi)| == hi - lo
    decreases hi - lo
  {
    if lo < hi {
      RangeSize(lo + 1, hi);
      assert Range(lo, hi) == {lo} + Range(lo + 1, hi);
    }
  }

  /** The part of `data`, placed at `index`, that falls in `lo..hi` joins the store; a byte that is
      already there stays. */
  function Absorb(store: map<nat, byte>, data: seq<byte>, index: nat, lo: nat, hi: nat): map<nat, byte> {
    var fits := Range(Max(index, lo), Min(index + |data|, hi));
    (map i | i in fits :: data[i - index]) + store
  }

  datatype Window = Window(store: map<nat, byte>, eof: bool, out: Stream)
  {
    /** The index of the first byte that is not assembled yet. */
    function Base(): nat {
      |out.history|
    }

    /** The first index that does not fit: it only moves when the application reads. */
    function Edge(): nat {
      out.read + out.capacity
    }

    predicate WF() {
      && out.WF()
      && 0 < out.capacity
      && forall i | i in store :: Base() < i < Edge()
    }

    /** A substring with bytes in it starts no later than the edge, or past the whole bitmap. */
    predicate Flow(data: seq<byte>, index: nat) {
      data == [] || index <= Edge() || Base() + out.capacity <= index
    }

    predicate Truncates(data: seq<byte>, index: nat) {
      data != [] && Edge() < index + |data|
    }

    function Push(data: seq<byte>, index: nat, last: bool): Window {
      var marked := eof || last;
      if data == [] && marked && store == map[] then
        this.(eof := true, out := out.(ended := true))
      else if Base() + out.capacity <= index then
        this.(eof := marked)
      else
        var all := Absorb(store, data, index, Base(), Edge());
        var run := Run(all, Base());
        Settle(run, From(all, Base() + |run|), marked && !Truncates(data, index))
    }

    /** Moves the assembled run to the output; the stream ends when nothing is pending after it. */
    function Settle(run: seq<byte>, rest: map<nat, byte>, marked: bool): Window {
      Window(rest, marked,
             out.(history := out.history + run, ended := out.ended || (marked && rest == map[])))
    }

    function Read(n: nat): Window
      requires out.WF()
    {
      this.(out := out.Pop(n))
    }

    predicate Received(i: nat) {
      i < Base() || i in store
    }

    /** Everything received so far, assembled or pending, is what `truth` holds at that index. */
    predicate Agrees(truth: seq<byte>) {
      out.history <= truth && forall i | i in store :: i < |truth| && store[i] == truth[i]
    }

    /** An end mark was seen only together with the last byte, and the output has ended exactly when
        the mark was seen and nothing is pending. */
    predicate EndSound(truth: seq<byte>) {
      && (eof ==> |truth| == Base() || |truth| - 1 in store)
      && (out.ended <==> eof && store == map[])
    }
  }

  function Empty(capacity: nat): Window {
    Window(map[], false, Fresh(capacity))
  }

  predicate Slice(truth: seq<byte>, data: seq<byte>, index: nat) {
    index + |data| <= |truth| && data == truth[index..index + |data|]
  }

  // ---- One push -------------------------------------------------------------------------------

  lemma PushKeepsWF(w: Window, data: seq<byte>, index: nat, last: bool)
    requires w.WF() && w.Flow(data, index)
    ensures w.Push(data, index, last).WF()
    ensures w.out.history <= w.Push(data, index, last).out.history
  {
    var all := Absorb(w.store, data, index, w.Base(), w.Edge());
    var run := Run(all, w.Base());
    if run != [] {
      assert w.Base() + |run| - 1 in all;
    }
  }

  /** A push adds exactly the indices of its data that lie below the edge. */
  lemma PushReceives(w: Window, data: seq<byte>, index: nat, last: bool, i: nat)
    requires w.WF()
    ensures w.Push(data, index, last).Received(i)
       <==> w.Received(i) || index <= i < Min(index + |data|, w.Edge())
  {
    var all := Absorb(w.store, data, index, w.Base(), w.Edge());
    var run := Run(all, w.Base());
    assert i in all <==> i in w.store || Max(index, w.Base()) <= i < Min(index + |data|, w.Edge());
    assert w.Base() <= i < w.Base() + |run| ==> i in all;
    assert i in From(all, w.Base() + |run|) <==> i in all && w.Base() + |run| <= i;
  }

  lemma AbsorbAgrees(store: map<nat, byte>, data: seq<byte>, index: nat, lo: nat, hi: nat, truth: seq<byte>)
    requires Slice(truth, data, index)
    requires forall i | i in store :: i < |truth| && store[i] == truth[i]
    ensures var all := Absorb(store, data, index, lo, hi);
            forall i | i in all :: i < |truth| && all[i] == truth[i]
  {
  }

  lemma RunAgrees(store: map<nat, byte>, base: nat, truth: seq<byte>)
    requires base <= |truth| && forall i | i in store :: i < |truth| && store[i] == truth[i]
    ensures var run := Run(store, base); base + |run| <= |truth| && truth[..base] + run <= truth
  {
    var run := Run(store, base);
    if run != [] { assert base + |run| - 1 in store; }
    forall j | 0 <= j < |run|
      ensures run[j] == truth[base + j]
    {
      assert base + j in store;
    }
  }

  lemma PushAgrees(w: Window, data: seq<byte>, index: nat, last: bool, truth: seq<byte>)
    requires w.WF() && w.Agrees(truth) && Slice(truth, data, index)
    ensures w.Push(data, index, last).Agrees(truth)
  {
    AbsorbAgrees(w.store, data, index, w.Base(), w.Edge(), truth);
    RunAgrees(Absorb(w.store, data, index, w.Base(), w.Edge()), w.Base(), truth);
    assert truth[..w.Base()] == w.out.history;
  }

  lemma EndedStays(w: Window, data: seq<byte>, index: nat, last: bool)
    ensures w.out.ended ==> w.Push(data, index, last).out.ended
    ensures w.Push(data, index, last).out.error == w.out.error
  {
  }

  /** Pending and buffered bytes together fit in the capacity. */
  lemma PendingFits(w: Window)
    requires w.WF()
    ensures |w.store| + w.out.Buffered() <= w.out.capacity
  {
    RangeSize(w.Base(), w.Edge());
    assert w.store.Keys <= Range(w.Base(), w.Edge());
    SubsetSize(w.store.Keys, Range(w.Base(), w.Edge()));
  }

  lemma SubsetSize(a: set<nat>, b: set<nat>)
    requires a <= b
    ensures |a| <= |b|
  {
    assert |b| == |a| + |b - a| by { assert b == a + (b - a); }
  }

  // ---- Runs of pushes and reads ---------------------------------------------------------------

  datatype Op = PushOp(data: seq<byte>, index: nat, last: bool) | ReadOp(n: nat)

  predicate Allowed(w: Window, op: Op) {
    op.PushOp? ==> w.Flow(op.data, op.index)
  }

  ghost function Apply(w: Window, op: Op): (v: Window)
    requires w.WF() && Allowed(w, op)
    ensures v.WF()
    ensures w.out.history <= v.out.history && w.Edge() <= v.Edge()
  {
    match op
    case PushOp(data, index, last) =>
      PushKeepsWF(w, data, index, last);
      w.Push(data, index, last)
    case ReadOp(n) => w.Read(n)
  }

  ghost predicate AllowedRun(w: Window, ops: seq<Op>)
    requires w.WF()
    decreases |ops|
  {
    ops == [] || (
      && Allowed(w, ops[0])
      && AllowedRun(Apply(w, ops[0]), ops[1..]))
  }

  ghost function Exec(w: Window, ops: seq<Op>): Window
    requires w.WF() && AllowedRun(w, ops)
    decreases |ops|
  {
    if ops == [] then w else Exec(Apply(w, ops[0]), ops[1..])
  }

  predicate Covers(op: Op, i: nat) {
    op.PushOp? && op.index <= i < op.index + |op.data|
  }

  ghost predicate Covered(ops: seq<Op>, i: nat) {
    exists op :: op in ops && Covers(op, i)
  }

  /** Every push of the run is a slice of `truth` and fits below the edge when it arrives. */
  ghost predicate FaithfulRun(w: Window, ops: seq<Op>, truth: seq<byte>)
    requires w.WF()
    ensures FaithfulRun(w, ops, truth) ==> AllowedRun(w, ops)
    decreases |ops|
  {
    ops == [] || (
      && Allowed(w, ops[0])
      && (ops[0].PushOp? ==> Slice(truth, ops[0].data, ops[0].index)
                             && ops[0].index + |ops[0].data| <= w.Edge())
      && FaithfulRun(Apply(w, ops[0]), ops[1..], truth))
  }

  /** The window bound holds after every run: nothing is ever truncated by the output stream. */
  lemma {:induction false} RunKeepsWindow(w: Window, ops: seq<Op>)
    requires w.WF() && AllowedRun(w, ops)
    ensures var v := Exec(w, ops);
            v.WF() && |v.store| + v.out.Buffered() <= v.out.capacity && w.Edge() <= v.Edge()
    decreases |ops|
  {
    if ops == [] {
      PendingFits(w);
    } else {
      RunKeepsWindow(Apply(w, ops[0]), ops[1..]);
    }
  }

  /** The bytes received after a faithful run are those of the pushes, whatever their order, and the
      assembled output is the truth below the first index that was not received. */
  lemma {:induction false} RunReceives(w: Window, ops: seq<Op>, truth: seq<byte>, i: nat)
    requires w.WF() && w.Agrees(truth) && FaithfulRun(w, ops, truth)
    ensures var v := Exec(w, ops);
            && v.WF() && v.Agrees(truth)
            && (v.Received(i) <==> w.Received(i) || Covered(ops, i))
    decreases |ops|
  {
    if ops != [] {
      var op, next := ops[0], Apply(w, ops[0]);
      if op.PushOp? {
        PushReceives(w, op.data, op.index, op.last, i);
        PushAgrees(w, op.data, op.index, op.last, truth);
      }
      RunReceives(next, ops[1..], truth, i);
      assert ops == [op] + ops[1..];
      assert Covered(ops, i) <==> Covers(op, i) || Covered(ops[1..], i);
    }
  }

  /** ack_index is the least index that no push of the run has covered. */
  lemma AckIndexIsFirstMissing(capacity: nat, ops: seq<Op>, truth: seq<byte>)
    requires 0 < capacity && FaithfulRun(Empty(capacity), ops, truth)
    ensures var v := Exec(Empty(capacity), ops);
            && v.out.history <= truth
            && !Covered(ops, v.Base())
            && forall i: nat | i < v.Base() :: Covered(ops, i)
  {
    var v := Exec(Empty(capacity), ops);
    RunReceives(Empty(capacity), ops, truth, v.Base());
    forall i: nat | i < v.Base()
      ensures Covered(ops, i)
    {
      RunReceives(Empty(capacity), ops, truth, i);
    }
  }

  ghost predicate SameCover(ops: seq<Op>, ops': seq<Op>) {
    forall i: nat :: Covered(ops, i) <==> Covered(ops', i)
  }

  /** Two runs that cover the same indices, in any order, with any overlap, repetition or splitting
      and with any reads in between, leave the same output, ack_index and pending bytes. */
  lemma OrderIndependence(capacity: nat, ops: seq<Op>, ops': seq<Op>, truth: seq<byte>)
    requires 0 < capacity && SameCover(ops, ops')
    requires FaithfulRun(Empty(capacity), ops, truth) && FaithfulRun(Empty(capacity), ops', truth)
    ensures var v, v' := Exec(Empty(capacity), ops), Exec(Empty(capacity), ops');
            v.out.history == v'.out.history && v.store == v'.store
  {
    var v, v' := Exec(Empty(capacity), ops), Exec(Empty(capacity), ops');
    forall i: nat
      ensures v.Received(i) <==> v'.Received(i)
      ensures v.WF() && v.Agrees(truth) && v'.WF() && v'.Agrees(truth)
    {
      RunReceives(Empty(capacity), ops, truth, i);
      RunReceives(Empty(capacity), ops', truth, i);
    }
    assert v.Received(v.Base()) <==> v'.Received(v.Base());
    assert v.Received(v'.Base()) <==> v'.Received(v'.Base());
    assert v.Base() == v'.Base();
    forall i | i in v.store
      ensures i in v'.store && v'.store[i] == v.store[i]
    {
      assert v.Received(i);
    }
    forall i | i in v'.store
      ensures i in v.store
    {
      assert v'.Received(i);
    }
  }

  /** Reordering the pushes is one way to cover the same indices. */
  lemma PermutationCovers(ops: seq<Op>, ops': seq<Op>)
    requires multiset(ops) == multiset(ops')
    ensures SameCover(ops, ops')
  {
    forall op
      ensures op in ops <==> op in ops'
    {
      assert op in ops <==> op in multiset(ops);
      assert op in ops' <==> op in multiset(ops');
    }
  }

  // ---- The end of the stream ------------------------------------------------------------------

  /** The end mark of a substring that carries no byte of its own, or that is dropped for lying past
      the bitmap, arrives before the last byte of the stream. */
  predicate EarlyMark(w: Window, data: seq<byte>, index: nat, last: bool) {
    && last
    && (data == [] || w.Base() + w.out.capacity <= index)
    && 0 < index + |data|
    && !w.Received(index + |data| - 1)
  }

  /** The last substring of the stream, and no other, may carry the mark. */
  predicate MarksEnd(truth: seq<byte>, data: seq<byte>, index: nat, last: bool) {
    Slice(truth, data, index) && (last ==> index + |data| == |truth|)
  }

  /** A push keeps end-of-stream detection sound exactly when its mark does not come early. In that
      case the mark is kept exactly when the substring fits: a later, truncated one never clears it. */
  lemma PushEndSound(w: Window, data: seq<byte>, index: nat, last: bool, truth: seq<byte>)
    requires w.WF() && w.Agrees(truth) && w.EndSound(truth)
    requires w.Flow(data, index) && MarksEnd(truth, data, index, last)
    ensures w.Push(data, index, last).EndSound(truth) <==> !EarlyMark(w, data, index, last)
    ensures !EarlyMark(w, data, index, last) ==>
              w.Push(data, index, last).eof == (w.eof || (last && !w.Truncates(data, index)))
  {
    PushAgrees(w, data, index, last, truth);
    PushFlags(w, data, index, last);
    if 0 < |truth| {
      PushReceives(w, data, index, last, |truth| - 1);
    }
    if w.eof && w.store == map[] {
      CompleteStays(w, data, index, last, truth);
    }
    PushKeepsWF(w, data, index, last);
    hide Window.Push;
  }

  /** The marks after a push, by the branch it takes. */
  lemma PushFlags(w: Window, data: seq<byte>, index: nat, last: bool)
    ensures var v, marked := w.Push(data, index, last), w.eof || last;
            if data == [] && marked && w.store == map[] then
              v.eof && v.out.ended && v.store == w.store && v.out.history == w.out.history
            else if w.Base() + w.out.capacity <= index then
              v.eof == marked && v.store == w.store && v.out == w.out
            else
              && v.eof == (marked && !w.Truncates(data, index))
              && (v.out.ended <==> w.out.ended || (v.eof && v.store == map[]))
  {
  }

  /** Once the whole stream is assembled nothing is ever pending again. */
  lemma CompleteStays(w: Window, data: seq<byte>, index: nat, last: bool, truth: seq<byte>)
    requires w.WF() && w.Base() == |truth| && w.store == map[] && Slice(truth, data, index)
    ensures w.Push(data, index, last).store == map[]
  {
    var v := w.Push(data, index, last);
    forall i | i in v.store
      ensures false
    {
      PushReceives(w, data, index, last, i);
      PushGrows(w, data, index, last);
    }
  }

  lemma PushGrows(w: Window, data: seq<byte>, index: nat, last: bool)
    requires w.WF()
    ensures w.Base() <= w.Push(data, index, last).Base()
    ensures forall i | i in w.Push(data, index, last).store :: w.Push(data, index, last).Base() <= i
  {
  }

  /** With a sound mark, the output has ended exactly when the mark was seen and every byte of the
      stream is assembled. */
  lemma EndedExactly(w: Window, truth: seq<byte>)
    requires w.WF() && w.Agrees(truth) && w.EndSound(truth)
    ensures w.out.ended <==> w.eof && w.out.history == truth
  {
    if w.out.history == truth {
      assert forall i | i in w.store :: false;
    }
  }

  ghost predicate PunctualRun(w: Window, ops: seq<Op>, truth: seq<byte>)
    requires w.WF()
    ensures PunctualRun(w, ops, truth) ==> AllowedRun(w, ops)
    decreases |ops|
  {
    ops == [] || (
      && Allowed(w, ops[0])
      && (ops[0].PushOp? ==> MarksEnd(truth, ops[0].data, ops[0].index, ops[0].last)
                             && !EarlyMark(w, ops[0].data, ops[0].index, ops[0].last))
      && PunctualRun(Apply(w, ops[0]), ops[1..], truth))
  }

  /** Some push of the run carried the mark and fitted below the edge when it arrived. */
  ghost predicate Marked(w: Window, ops: seq<Op>)
    requires w.WF() && AllowedRun(w, ops)
    decreases |ops|
  {
    ops != [] && (
      || (ops[0].PushOp? && ops[0].last && !w.Truncates(ops[0].data, ops[0].index))
      || Marked(Apply(w, ops[0]), ops[1..]))
  }

  /** End-of-stream exactness over every run of pushes and reads without an early mark. */
  lemma {:induction false} RunEndsExactly(w: Window, ops: seq<Op>, truth: seq<byte>)
    requires w.WF() && w.Agrees(truth) && w.EndSound(truth) && PunctualRun(w, ops, truth)
    ensures var v := Exec(w, ops);
            && v.Agrees(truth) && v.EndSound(truth)
            && (v.out.ended <==> (w.eof || Marked(w, ops)) && v.out.history == truth)
    decreases |ops|
  {
    if ops == [] {
      EndedExactly(w, truth);
    } else {
      var op := ops[0];
      if op.PushOp? {
        PushEndSound(w, op.data, op.index, op.last, truth);
        PushAgrees(w, op.data, op.index, op.last, truth);
      }
      RunEndsExactly(Apply(w, op), ops[1..], truth);
    }
  }

  lemma FullRun(store: map<nat, byte>, base: nat, m: nat)
    requires base <= m && forall i :: i in store <==> base <= i < m
    ensures base + |Run(store, base)| == m && From(store, m) == map[]
  {
    var run := Run(store, base);
    assert m !in store && base + |run| !in store;
  }

  /** An early mark is not harmless: from any state that has one, an ordinary push that stays inside
      the window ends the output before the stream is complete. */
  lemma EarlyMarkEndsEarly(w: Window, truth: seq<byte>) returns (data: seq<byte>)
    requires w.WF() && w.Agrees(truth) && w.eof
    requires w.Base() < |truth| && |truth| - 1 !in w.store
    ensures Slice(truth, data, w.Base()) && !w.Truncates(data, w.Base())
    ensures var v := w.Push(data, w.Base(), false);
            v.out.ended && |v.out.history| < |truth|
  {
    var m := Min(|truth| - 1, w.Edge());
    data := truth[w.Base()..m];
    assert forall i | i in w.store :: i < m;
    if data == [] {
      assert w.store == map[];
    } else {
      AbsorbFills(w, data, m);
    }
  }

  lemma AbsorbFills(w: Window, data: seq<byte>, m: nat)
    requires w.WF() && w.Base() < m <= w.Edge() && |data| == m - w.Base()
    requires forall i | i in w.store :: i < m
    ensures w.Push(data, w.Base(), false) ==
            w.Settle(Run(Absorb(w.store, data, w.Base(), w.Base(), w.Edge()), w.Base()), map[], w.eof)
    ensures w.Push(data, w.Base(), false).Base() == m
  {
    var all := Absorb(w.store, data, w.Base(), w.Base(), w.Edge());
    assert forall i :: i in all <==> w.Base() <= i < m;
    FullRun(all, w.Base(), m);
  }

  /** The caveat in the repository's documentation, refuted on a concrete run: the first byte of a
      two-byte stream is pending nowhere when an empty final substring arrives, and the stream ends
      with nothing assembled. */
  lemma EarlyEmptyFinalSubstring()
    ensures var w := Empty(8);
            MarksEnd([65, 66], [], 2, true) && w.Flow([], 2)
            && w.Push([], 2, true).out.ended && w.Push([], 2, true).out.history == []
  {
  }
}
