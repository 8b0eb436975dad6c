/** Longest-prefix-match forwarding between network interfaces (section 5.2.4.3 of RFC 1812). */
module Routers {
  import opened Basics
  import opened Ipv4Wire
  import opened NetworkInterfaces

  // ---- Masks ----------------------------------------------------------------------------------

  /** Bitwise and of the `n` low bits. */
  function And(a: nat, b: nat, n: nat): nat {
    if n == 0 then 0 else 2 * And(a / 2, b / 2, n - 1) + Bit(a % 2 == 1 && b % 2 == 1)
  }

  function ShiftRight(x: int, k: nat): int
    decreases k
  {
    if k == 0 then x else ShiftRight(x / 2, k - 1)
  }

  function ShiftLeft(x: nat, k: nat): nat {
    if k == 0 then x else 2 * ShiftLeft(x, k - 1)
  }

  /** The top bits of a 32-bit address: its first `length` bits. */
  function Top(address: u32, length: nat): int
    requires length <= 32
  {
    ShiftRight(address, 32 - length)
  }

  /** The arithmetic shift of the smallest int, read as an unsigned word. */
  function Mask(length: nat): u32 {
    if length == 0 then 0 else ShiftRight(-0x8000_0000, length - 1) % TWO_32
  }

  function Ones(n: nat): nat {
    if n == 0 then 0 else 2 * Ones(n - 1) + 1
  }

  lemma {:induction false} ShiftNegative(a: nat, k: nat)
    requires k <= a
    ensures ShiftRight(0 - Pow2(a), k) == 0 - Pow2(a - k)
    decreases k
  {
    if k != 0 {
      assert (0 - Pow2(a)) / 2 == 0 - Pow2(a - 1);
      ShiftNegative(a - 1, k - 1);
    }
  }

  lemma {:induction false} OnesValue(n: nat)
    ensures Ones(n) + 1 == Pow2(n)
  {
    if n != 0 { OnesValue(n - 1); }
  }

  lemma {:induction false} ShiftOnes(m: nat, k: nat)
    ensures ShiftLeft(Ones(m), k) == Pow2(m + k) - Pow2(k)
    decreases k
  {
    if k == 0 { OnesValue(m); } else { ShiftOnes(m, k - 1); }
  }

  lemma {:induction false} Pow2Positive(n: nat)
    ensures 0 < Pow2(n)
  {
    if n != 0 { Pow2Positive(n - 1); }
  }

  lemma Pow2Words()
    ensures Pow2(31) == 0x8000_0000 && Pow2(32) == 0x1_0000_0000
  {
    assert Pow2(8) == 256;
    assert Pow2(16) == 65536;
    assert Pow2(24) == 0x100_0000;
  }

  /** The mask has ones exactly in its `length` top bits. */
  lemma MaskIsTopOnes(length: nat)
    requires length <= 32
    ensures Mask(length) == ShiftLeft(Ones(length), 32 - length)
  {
    ShiftOnes(length, 32 - length);
    Pow2Words();
    hide Pow2, ShiftRight, ShiftLeft, Ones;
    if length != 0 {
      ShiftNegative(31, length - 1);
      Pow2Positive(32 - length);
      Pow2Monotone(32 - length, 31);
    }
  }

  lemma {:induction false} AndOnes(a: nat, n: nat)
    requires a < Pow2(n)
    ensures And(a, Ones(n), n) == a
    decreases n
  {
    if n != 0 { AndOnes(a / 2, n - 1); }
  }

  lemma {:induction false} AndTopOnes(a: nat, n: nat, k: nat)
    requires a < Pow2(n) && k <= n
    ensures 0 <= ShiftRight(a, k)
    ensures And(a, ShiftLeft(Ones(n - k), k), n) == ShiftLeft(ShiftRight(a, k), k)
    decreases k
  {
    if k == 0 {
      AndOnes(a, n);
    } else {
      AndTopOnes(a / 2, n - 1, k - 1);
    }
  }

  lemma {:induction false} ShiftRightLeft(x: nat, k: nat)
    ensures ShiftRight(ShiftLeft(x, k), k) == x
    decreases k
  {
    if k != 0 { ShiftRightLeft(x, k - 1); }
  }

  /** A prefix without host bits. */
  predicate NoHostBits(prefix: u32, length: nat)
    requires length <= 32
  {
    && 0 <= Top(prefix, length)
    && prefix == ShiftLeft(Top(prefix, length), 32 - length)
  }

  /** The mask test is agreement on the top bits, for prefixes without host bits; a prefix with host
      bits never matches. */
  lemma MaskTest(destination: u32, prefix: u32, length: nat)
    requires length <= 32
    ensures And(destination, Mask(length), 32) == prefix
       <==> NoHostBits(prefix, length) && Top(destination, length) == Top(prefix, length)
  {
    Pow2Words();
    MaskIsTopOnes(length);
    AndTopOnes(destination, 32, 32 - length);
    hide And, Mask, ShiftLeft, ShiftRight, Ones, Pow2;
    ShiftRightLeft(Top(destination, length), 32 - length);
  }

  lemma DoubleIsEven(x: nat)
    ensures 2 * x % 2 == 0
  {
  }

  lemma {:induction false} ShiftLeftEven(x: nat, k: nat)
    requires 0 < k
    ensures ShiftLeft(x, k) % 2 == 0
  {
    DoubleIsEven(ShiftLeft(x, k - 1));
  }

  lemma OddHasHostBits(prefix: u32, length: nat)
    requires length < 32 && prefix % 2 == 1
    ensures !NoHostBits(prefix, length)
  {
    hide ShiftRight, ShiftLeft;
    if 0 <= Top(prefix, length) { ShiftLeftEven(Top(prefix, length), 32 - length); }
  }

  /** What the documentation says, that only the top bits of the prefix count, refuted: a prefix with
      its last bit set, such as 10.0.0.1/8, matches nothing, not even itself. */
  lemma HostBitsNeverMatch(destination: u32, prefix: u32, length: nat)
    requires length < 32 && prefix % 2 == 1
    ensures And(destination, Mask(length), 32) != prefix
    ensures And(0x0a00_0001, Mask(8), 32) != 0x0a00_0001
  {
    hide And, Mask, NoHostBits;
    MaskTest(destination, prefix, length);
    MaskTest(0x0a00_0001, 0x0a00_0001, 8);
    OddHasHostBits(prefix, length);
    OddHasHostBits(0x0a00_0001, 8);
  }

  // ---- The routing table ----------------------------------------------------------------------

  datatype RouteEntry = RouteEntry(prefix: u32, length: u8, nextHop: Option<u32>, interface: nat, mask: u32)
  {
    predicate Valid() {
      length <= 32 && mask == Mask(length)
    }

    predicate Matches(destination: u32) {
      And(destination, mask, 32) == prefix
    }
  }

  /** The first of the longest matching entries, or -1. */
  ghost predicate IsBest(table: seq<RouteEntry>, destination: u32, k: int) {
    if k == -1 then forall j | 0 <= j < |table| :: !table[j].Matches(destination)
    else
      && 0 <= k < |table| && table[k].Matches(destination)
      && forall j | 0 <= j < |table| && table[j].Matches(destination) ::
           table[j].length < table[k].length || (table[j].length == table[k].length && k <= j)
  }

  /** The loop of the source over the first `n` entries. */
  function BestIndex(table: seq<RouteEntry>, destination: u32, n: nat): (k: int)
    requires n <= |table|
    ensures -1 <= k < n
  {
    if n == 0 then -1
    else
      var k, e := BestIndex(table, destination, n - 1), table[n - 1];
      if e.Matches(destination) && (k == -1 || table[k].length < e.length) then n - 1 else k
  }

  lemma {:induction false} BestIndexOfPrefix(table: seq<RouteEntry>, destination: u32, n: nat)
    requires n <= |table|
    ensures IsBest(table[..n], destination, BestIndex(table, destination, n))
  {
    hide RouteEntry.Matches;
    if n != 0 {
      BestIndexOfPrefix(table, destination, n - 1);
      assert table[..n] == table[..n - 1] + [table[n - 1]];
    }
  }

  function Best(table: seq<RouteEntry>, destination: u32): Option<RouteEntry> {
    var k := BestIndex(table, destination, |table|);
    if k == -1 then None else Some(table[k])
  }

  /** The chosen route matches and no matching route has a longer prefix. */
  lemma BestIsLongest(table: seq<RouteEntry>, destination: u32)
    ensures Best(table, destination) == None <==> forall e | e in table :: !e.Matches(destination)
    ensures Best(table, destination).Some? ==>
              var b := Best(table, destination).value;
              b in table && b.Matches(destination) && forall e | e in table && e.Matches(destination) :: e.length <= b.length
  {
    hide RouteEntry.Matches;
    BestIndexOfPrefix(table, destination, |table|);
    assert table[..|table|] == table;
  }

  ghost predicate Distinct(table: seq<RouteEntry>) {
    forall e, f | e in table && f in table && e.prefix == f.prefix && e.length == f.length :: e == f
  }

  /** When no prefix is listed twice, the choice does not depend on the order of the table. */
  lemma OrderDoesNotMatter(table: seq<RouteEntry>, table': seq<RouteEntry>, destination: u32)
    requires forall e :: e in table <==> e in table'
    requires Distinct(table) && forall e | e in table :: e.Valid()
    ensures Best(table, destination) == Best(table', destination)
  {
    BestIsLongest(table, destination);
    BestIsLongest(table', destination);
    hide Best;
    var b, b' := Best(table, destination), Best(table', destination);
    if b.Some? {
      assert b.value in table' && b.value.Matches(destination);
      assert b'.Some?;
      assert b'.value in table && b'.value.Matches(destination);
      assert b.value.length == b'.value.length;
    }
  }

  // ---- Forwarding -----------------------------------------------------------------------------

  datatype Forward = Forward(interface: nat, hop: u32, d: IPv4Datagram)

  /** Where a datagram goes, with one less to live; nowhere when its time is up or nothing matches. */
  function Decide(table: seq<RouteEntry>, d: IPv4Datagram): Option<Forward> {
    if d.header.ttl <= 1 then None
    else match Best(table, d.header.dst)
      case None => None
      case Some(e) =>
        var hop := if e.nextHop.Some? then e.nextHop.value else d.header.dst;
        Some(Forward(e.interface, hop, d.(header := d.header.(ttl := d.header.ttl - 1))))
  }

  /** The forward `f` takes `d` along the route `e`: out of its interface, to its next hop or, on a directly
      attached network, to the destination itself, with one less to live. */
  predicate Along(e: RouteEntry, d: IPv4Datagram, f: Forward) {
    && f.interface == e.interface
    && (e.nextHop.Some? ==> f.hop == e.nextHop.value)
    && (e.nextHop.None? ==> f.hop == d.header.dst)
    && 1 < d.header.ttl && f.d.header.ttl == d.header.ttl - 1
    && f.d == d.(header := d.header.(ttl := f.d.header.ttl))
  }

  lemma {:induction false} BestUnique(table: seq<RouteEntry>, destination: u32, k: int, k': int)
    requires IsBest(table, destination, k) && IsBest(table, destination, k')
    ensures k == k'
  {
    hide RouteEntry.Matches;
  }

  /** A datagram is forwarded exactly along the first of the longest matching routes, and dropped exactly
      when its time is up or nothing matches. */
  lemma DecideMeans(table: seq<RouteEntry>, d: IPv4Datagram, f: Forward)
    ensures Decide(table, d) == Some(f) <==>
            exists k: int | 0 <= k < |table| :: IsBest(table, d.header.dst, k) && Along(table[k], d, f)
    ensures Decide(table, d) == None <==> d.header.ttl <= 1 || forall e | e in table :: !e.Matches(d.header.dst)
  {
    hide RouteEntry.Matches, IsBest, BestIndex;
    var dst := d.header.dst;
    var b := BestIndex(table, dst, |table|);
    BestIndexOfPrefix(table, dst, |table|);
    assert table[..|table|] == table;
    BestIsLongest(table, dst);
    if Decide(table, d) == Some(f) {
      assert IsBest(table, dst, b) && Along(table[b], d, f);
    }
    forall k: int | 0 <= k < |table| && IsBest(table, dst, k) && Along(table[k], d, f)
      ensures Decide(table, d) == Some(f)
    {
      BestUnique(table, dst, k, b);
    }
  }

  /** One forward for every datagram that has one, in order. */
  function Forwards(table: seq<RouteEntry>, q: seq<IPv4Datagram>): seq<Forward> {
    if q == [] then []
    else
      var rest := Forwards(table, q[..|q| - 1]);
      match Decide(table, q[|q| - 1])
      case None => rest
      case Some(f) => rest + [f]
  }

  /** An interface whose received datagrams wait to be routed. */
  datatype AsyncInterface = AsyncInterface(interface: Interface, inbox: seq<IPv4Datagram>)

  function Interfaces(s: seq<AsyncInterface>): seq<Interface> {
    seq(|s|, i requires 0 <= i < |s| => s[i].interface)
  }

  function Inboxes(s: seq<AsyncInterface>): seq<IPv4Datagram> {
    if s == [] then [] else Inboxes(s[..|s| - 1]) + s[|s| - 1].inbox
  }

  predicate InRange(fs: seq<Forward>, n: nat) {
    forall f | f in fs :: f.interface < n
  }

  /** Sends every forward, in order, on its interface. */
  function SendAll(s: seq<Interface>, fs: seq<Forward>): (t: seq<Interface>)
    requires InRange(fs, |s|)
    ensures |t| == |s|
  {
    if fs == [] then s
    else
      var f, t := fs[|fs| - 1], SendAll(s, fs[..|fs| - 1]);
      t[f.interface := t[f.interface].SendDatagram(f.d, f.hop)]
  }

  /** What interface `j` alone is given to send. */
  function Share(fs: seq<Forward>, j: nat): seq<Forward> {
    if fs == [] then []
    else
      var rest := Share(fs[..|fs| - 1], j);
      if fs[|fs| - 1].interface == j then rest + [fs[|fs| - 1]] else rest
  }

  function SendOn(n: Interface, fs: seq<Forward>): Interface {
    if fs == [] then n
    else SendOn(n, fs[..|fs| - 1]).SendDatagram(fs[|fs| - 1].d, fs[|fs| - 1].hop)
  }

  /** Interfaces do not disturb each other: each sends its own share, in order. */
  lemma {:induction false} SharesIndependent(s: seq<Interface>, fs: seq<Forward>, j: nat)
    requires InRange(fs, |s|) && j < |s|
    ensures SendAll(s, fs)[j] == SendOn(s[j], Share(fs, j))
  {
    if fs != [] {
      var front, f := fs[..|fs| - 1], fs[|fs| - 1];
      SharesIndependent(s, front, j);
      if f.interface == j {
        assert (Share(front, j) + [f])[..|Share(front, j)|] == Share(front, j);
      }
    }
  }

  /** How many datagrams of the list have a route and time left. */
  function Routable(table: seq<RouteEntry>, q: seq<IPv4Datagram>): nat {
    if q == [] then 0
    else Routable(table, q[..|q| - 1]) + Bit(1 < q[|q| - 1].header.ttl && Best(table, q[|q| - 1].header.dst).Some?)
  }

  /** Different datagrams are forwarded differently. */
  lemma DecideInjective(table: seq<RouteEntry>, d: IPv4Datagram, e: IPv4Datagram)
    requires Decide(table, d).Some? && Decide(table, d) == Decide(table, e)
    ensures d == e
  {
    hide Best;
  }

  lemma {:induction false} ForwardedAsOften(table: seq<RouteEntry>, q: seq<IPv4Datagram>, d: IPv4Datagram)
    requires Decide(table, d).Some?
    ensures multiset(Forwards(table, q))[Decide(table, d).value] == multiset(q)[d]
  {
    if q != [] {
      var front, last := q[..|q| - 1], q[|q| - 1];
      ForwardedAsOften(table, front, d);
      assert q == front + [last];
      if Decide(table, last) == Decide(table, d) { DecideInjective(table, d, last); }
      hide Decide;
    }
  }

  lemma {:induction false} ForwardsDecided(table: seq<RouteEntry>, q: seq<IPv4Datagram>, f: Forward)
    requires f in Forwards(table, q)
    ensures exists d :: d in q && Decide(table, d) == Some(f)
  {
    hide Decide;
    var front, last := q[..|q| - 1], q[|q| - 1];
    if f in Forwards(table, front) {
      ForwardsDecided(table, front, f);
      var d :| d in front && Decide(table, d) == Some(f);
      assert d in q;
    } else {
      assert last in q && Decide(table, last) == Some(f);
    }
  }

  /** Exactly once: every datagram with a route and time left is forwarded as often as it came in, as
      decided, and nothing else is forwarded. So there are as many forwards as such datagrams. */
  lemma {:induction false} ForwardsExactlyOnce(table: seq<RouteEntry>, q: seq<IPv4Datagram>)
    ensures forall d | Decide(table, d).Some? ::
              multiset(Forwards(table, q))[Decide(table, d).value] == multiset(q)[d]
    ensures forall f | f in Forwards(table, q) :: exists d :: d in q && Decide(table, d) == Some(f)
    ensures |Forwards(table, q)| == Routable(table, q)
  {
    hide Best;
    forall d | Decide(table, d).Some?
      ensures multiset(Forwards(table, q))[Decide(table, d).value] == multiset(q)[d]
    {
      ForwardedAsOften(table, q, d);
    }
    forall f | f in Forwards(table, q)
      ensures exists d :: d in q && Decide(table, d) == Some(f)
    {
      ForwardsDecided(table, q, f);
    }
    if q != [] { ForwardsExactlyOnce(table, q[..|q| - 1]); }
  }

  // ---- The frames of each interface -----------------------------------------------------------

  /** `d` goes out of interface `j`, as `x`, to a hop whose address is in the cache. */
  ghost predicate GoesOut(table: seq<RouteEntry>, d: IPv4Datagram, j: nat, x: IPv4Datagram, cache: map<u32, Entry>) {
    exists k: int | 0 <= k < |table| ::
      && IsBest(table, d.header.dst, k) && table[k].interface == j
      && exists f :: Along(table[k], d, f) && f.d == x && f.hop in cache
  }

  /** How many datagrams of the list do. */
  ghost function OutCount(table: seq<RouteEntry>, q: seq<IPv4Datagram>, j: nat, x: IPv4Datagram, cache: map<u32, Entry>): nat {
    if q == [] then 0
    else OutCount(table, q[..|q| - 1], j, x, cache) + Bit(GoesOut(table, q[|q| - 1], j, x, cache))
  }

  /** The interface `j` was `n` and is `m`: for every datagram as many more IPv4 frames as there are
      datagrams of the list that go out of it so, each to the cached address of its hop. */
  ghost predicate Emits(table: seq<RouteEntry>, q: seq<IPv4Datagram>, n: Interface, m: Interface, j: nat) {
    && m.cache == n.cache && m.mac == n.mac && n.framesOut <= m.framesOut
    && (forall x :: FrameCount(m.framesOut, x) == FrameCount(n.framesOut, x) + OutCount(table, q, j, x, n.cache))
    && (forall i | |n.framesOut| <= i < |m.framesOut| && m.framesOut[i].payload.Ip? ::
          exists f :: f in Forwards(table, q) && f.interface == j && f.hop in n.cache
                      && m.framesOut[i] == n.IpFrame(n.cache[f.hop].mac, f.d))
  }

  lemma GoesOutDecided(table: seq<RouteEntry>, d: IPv4Datagram, j: nat, x: IPv4Datagram, cache: map<u32, Entry>)
    ensures GoesOut(table, d, j, x, cache) <==>
            Decide(table, d).Some? && var f := Decide(table, d).value; f.interface == j && f.d == x && f.hop in cache
  {
    hide IsBest, RouteEntry.Matches;
    if Decide(table, d).Some? {
      var f := Decide(table, d).value;
      DecideMeans(table, d, f);
      hide Decide;
      if f.interface == j && f.d == x && f.hop in cache {
        var k: int :| 0 <= k < |table| && IsBest(table, d.header.dst, k) && Along(table[k], d, f);
        assert table[k].interface == j;
      }
    }
    if GoesOut(table, d, j, x, cache) {
      var k: int :| 0 <= k < |table| && IsBest(table, d.header.dst, k) && table[k].interface == j
                    && exists f :: Along(table[k], d, f) && f.d == x && f.hop in cache;
      var f :| Along(table[k], d, f) && f.d == x && f.hop in cache;
      DecideMeans(table, d, f);
    }
  }

  lemma ShareSnoc(fs: seq<Forward>, f: Forward, j: nat)
    ensures Share(fs + [f], j) == if f.interface == j then Share(fs, j) + [f] else Share(fs, j)
  {
    assert (fs + [f])[..|fs|] == fs;
  }

  lemma SendOnSnoc(n: Interface, fs: seq<Forward>, f: Forward)
    ensures SendOn(n, fs + [f]) == SendOn(n, fs).SendDatagram(f.d, f.hop)
  {
    assert (fs + [f])[..|fs|] == fs;
  }

  /** What one more datagram to send adds. */
  lemma SendAdds(n: Interface, d: IPv4Datagram, hop: u32)
    ensures var m := n.SendDatagram(d, hop);
            && m.cache == n.cache && m.mac == n.mac && n.framesOut <= m.framesOut
            && forall i | |n.framesOut| <= i < |m.framesOut| && m.framesOut[i].payload.Ip? ::
                 hop in n.cache && m.framesOut[i] == n.IpFrame(n.cache[hop].mac, d)
  {
  }

  lemma EmitsNone(table: seq<RouteEntry>, n: Interface, j: nat)
    ensures Emits(table, [], n, n, j)
  {
  }

  /** The interface sends one more of the forwards. */
  lemma EmitsForward(table: seq<RouteEntry>, q: seq<IPv4Datagram>, d: IPv4Datagram, n: Interface, m: Interface, j: nat, f: Forward)
    requires Emits(table, q, n, m, j) && Decide(table, d) == Some(f) && f.interface == j
    ensures Emits(table, q + [d], n, m.SendDatagram(f.d, f.hop), j)
  {
    hide Decide, Interface.SendDatagram, FrameCount, GoesOut;
    var m', all := m.SendDatagram(f.d, f.hop), Forwards(table, q + [d]);
    SendAdds(m, f.d, f.hop);
    assert (q + [d])[..|q|] == q;
    assert all == Forwards(table, q) + [f];
    forall x
      ensures FrameCount(m'.framesOut, x) == FrameCount(n.framesOut, x) + OutCount(table, q + [d], j, x, n.cache)
    {
      SendFrames(m, f.d, f.hop, x);
      GoesOutDecided(table, d, j, x, n.cache);
    }
    forall i | |n.framesOut| <= i < |m'.framesOut| && m'.framesOut[i].payload.Ip?
      ensures exists g :: g in all && g.interface == j && g.hop in n.cache && m'.framesOut[i] == n.IpFrame(n.cache[g.hop].mac, g.d)
    {
      if i < |m.framesOut| {
        assert m'.framesOut[i] == m.framesOut[i];
        var g :| g in Forwards(table, q) && g.interface == j && g.hop in n.cache
                 && m.framesOut[i] == n.IpFrame(n.cache[g.hop].mac, g.d);
        assert g in all;
      } else {
        assert f in all;
      }
    }
  }

  /** The datagram goes elsewhere, or nowhere. */
  lemma EmitsOther(table: seq<RouteEntry>, q: seq<IPv4Datagram>, d: IPv4Datagram, n: Interface, m: Interface, j: nat)
    requires Emits(table, q, n, m, j) && (Decide(table, d).Some? ==> Decide(table, d).value.interface != j)
    ensures Emits(table, q + [d], n, m, j)
  {
    hide Decide, FrameCount, GoesOut;
    assert (q + [d])[..|q|] == q;
    forall x
      ensures OutCount(table, q + [d], j, x, n.cache) == OutCount(table, q, j, x, n.cache)
    {
      GoesOutDecided(table, d, j, x, n.cache);
    }
    assert forall g | g in Forwards(table, q) :: g in Forwards(table, q + [d]);
  }

  lemma {:induction false} ShareEmits(table: seq<RouteEntry>, q: seq<IPv4Datagram>, n: Interface, j: nat)
    ensures Emits(table, q, n, SendOn(n, Share(Forwards(table, q), j)), j)
    decreases |q|
  {
    hide Decide, Emits, Interface.SendDatagram;
    if q == [] {
      EmitsNone(table, n, j);
    } else {
      var front, d := q[..|q| - 1], q[|q| - 1];
      ShareEmits(table, front, n, j);
      assert q == front + [d];
      var fs := Forwards(table, front);
      var m := SendOn(n, Share(fs, j));
      match Decide(table, d)
      case None => EmitsOther(table, front, d, n, m, j);
      case Some(f) =>
        ShareSnoc(fs, f, j);
        if f.interface == j {
          SendOnSnoc(n, Share(fs, j), f);
          EmitsForward(table, front, d, n, m, j, f);
        } else {
          EmitsOther(table, front, d, n, m, j);
        }
    }
  }

  /** Routing a list of datagrams: every interface emits exactly what its routes give it. */
  lemma RoutingEmits(table: seq<RouteEntry>, q: seq<IPv4Datagram>, s: seq<Interface>, j: nat)
    requires InRange(Forwards(table, q), |s|) && j < |s|
    ensures Emits(table, q, s[j], SendAll(s, Forwards(table, q))[j], j)
  {
    hide Emits, Forwards, SendAll;
    SharesIndependent(s, Forwards(table, q), j);
    ShareEmits(table, q, s[j], j);
  }

  ghost predicate TableOk(table: seq<RouteEntry>, n: nat) {
    forall e | e in table :: e.interface < n
  }

  lemma {:induction false} ForwardsInRange(table: seq<RouteEntry>, q: seq<IPv4Datagram>, n: nat)
    requires TableOk(table, n)
    ensures InRange(Forwards(table, q), n)
  {
    forall f | f in Forwards(table, q)
      ensures f.interface < n
    {
      ForwardsDecided(table, q, f);
      var d :| d in q && Decide(table, d) == Some(f);
    }
  }

  class Router {
    var interfaces: seq<AsyncInterface>
    var routingTable: seq<RouteEntry>

    ghost predicate Valid()
      reads this
    {
      TableOk(routingTable, |interfaces|) && forall e | e in routingTable :: e.Valid()
    }

    constructor ()
      ensures Valid() && interfaces == [] && routingTable == []
    {
      interfaces, routingTable := [], [];
    }

    method AddInterface(i: AsyncInterface) returns (n: nat)
      requires Valid()
      modifies this
      ensures Valid() && interfaces == old(interfaces) + [i] && n == |old(interfaces)|
      ensures routingTable == old(routingTable)
    {
      interfaces := interfaces + [i];
      n := |interfaces| - 1;
    }

    /** A shift by more than 31 bits is undefined, so the length is at most 32. */
    method AddRoute(routePrefix: u32, prefixLength: u8, nextHop: Option<u32>, interfaceNum: nat)
      requires Valid() && prefixLength <= 32 && interfaceNum < |interfaces|
      modifies this
      ensures Valid() && interfaces == old(interfaces)
      ensures |routingTable| == |old(routingTable)| + 1 && routingTable[..|old(routingTable)|] == old(routingTable)
      ensures var e := routingTable[|old(routingTable)|];
              && e.nextHop == nextHop && e.interface == interfaceNum && e.length == prefixLength
              && forall destination: u32 :: e.Matches(destination) <==>
                   NoHostBits(routePrefix, prefixLength)
                   && Top(destination, prefixLength) == Top(routePrefix, prefixLength)
    {
      hide Mask, And;
      var e := RouteEntry(routePrefix, prefixLength, nextHop, interfaceNum, Mask(prefixLength));
      routingTable := routingTable + [e];
      forall destination: u32
        ensures e.Matches(destination) <==>
                NoHostBits(routePrefix, prefixLength)
                && Top(destination, prefixLength) == Top(routePrefix, prefixLength)
      {
        MaskTest(destination, routePrefix, prefixLength);
      }
    }

    method FindRoute(destination: u32) returns (matchIdx: int)
      ensures matchIdx == BestIndex(routingTable, destination, |routingTable|)
      ensures IsBest(routingTable, destination, matchIdx)
    {
      hide RouteEntry.Matches, IsBest;
      matchIdx := -1;
      var maxMatchedLen := -1;
      for i := 0 to |routingTable|
        invariant matchIdx == BestIndex(routingTable, destination, i)
        invariant maxMatchedLen == if matchIdx == -1 then -1 else routingTable[matchIdx].length
      {
        if routingTable[i].Matches(destination) && maxMatchedLen < routingTable[i].length {
          matchIdx := i;
          maxMatchedLen := routingTable[i].length;
        }
      }
      BestIndexOfPrefix(routingTable, destination, |routingTable|);
      assert routingTable[..|routingTable|] == routingTable;
    }

    method RouteOneDatagram(d: IPv4Datagram)
      requires Valid()
      modifies this`interfaces
      ensures |interfaces| == |old(interfaces)|
      ensures forall j | 0 <= j < |interfaces| :: interfaces[j].inbox == old(interfaces)[j].inbox
      ensures Interfaces(interfaces) ==
              match Decide(routingTable, d)
              case None => Interfaces(old(interfaces))
              case Some(f) =>
                Interfaces(old(interfaces))[f.interface := old(interfaces)[f.interface].interface.SendDatagram(f.d, f.hop)]
    {
      hide BestIndex, Interface.SendDatagram;
      if d.header.ttl <= 1 {
        return;
      }
      var destination := d.header.dst;
      var matchIdx := FindRoute(destination);
      if matchIdx == -1 {
        return;
      }
      assert 0 <= matchIdx < |routingTable| && Best(routingTable, destination) == Some(routingTable[matchIdx]);
      var sent := d.(header := d.header.(ttl := d.header.ttl - 1));
      var nextHop, k := routingTable[matchIdx].nextHop, routingTable[matchIdx].interface;
      assert routingTable[matchIdx] in routingTable;
      var hop := if nextHop.Some? then nextHop.value else destination;
      interfaces := interfaces[k := interfaces[k].(interface := interfaces[k].interface.SendDatagram(sent, hop))];
    }

    /** The inner loop: routes what waits at interface `i`, on top of the datagrams `done` before. */
    method DrainInbox(i: nat, ghost s: seq<Interface>, ghost done: seq<IPv4Datagram>)
      requires Valid() && i < |interfaces| == |s|
      requires InRange(Forwards(routingTable, done), |s|)
      requires Interfaces(interfaces) == SendAll(s, Forwards(routingTable, done))
      modifies this`interfaces
      ensures |interfaces| == |s| && InRange(Forwards(routingTable, done + old(interfaces)[i].inbox), |s|)
      ensures Interfaces(interfaces) == SendAll(s, Forwards(routingTable, done + old(interfaces)[i].inbox))
      ensures forall j | 0 <= j < |s| :: interfaces[j].inbox == if j == i then [] else old(interfaces)[j].inbox
    {
      hide Decide, Interface.SendDatagram, RouteEntry.Valid, Forwards, SendAll;
      ghost var all := done + interfaces[i].inbox;
      ghost var now := done;
      while interfaces[i].inbox != []
        invariant |interfaces| == |s| && now + interfaces[i].inbox == all
        invariant forall j | 0 <= j < |s| && j != i :: interfaces[j].inbox == old(interfaces)[j].inbox
        invariant InRange(Forwards(routingTable, now), |s|)
        invariant Interfaces(interfaces) == SendAll(s, Forwards(routingTable, now))
        decreases |interfaces[i].inbox|
      {
        var d := interfaces[i].inbox[0];
        ForwardsStep(routingTable, now, d, s);
        RouteOneDatagram(d);
        PopInbox(interfaces, i);
        interfaces := interfaces[i := interfaces[i].(inbox := interfaces[i].inbox[1..])];
        now := now + [d];
      }
      assert now == all;
    }

    /** Every inbox ends empty, and every datagram that was in one is forwarded as decided. */
    method Route()
      requires Valid()
      modifies this`interfaces
      ensures Valid() && |interfaces| == |old(interfaces)|
      ensures forall j | 0 <= j < |interfaces| :: interfaces[j].inbox == []
      ensures InRange(Forwards(routingTable, Inboxes(old(interfaces))), |interfaces|)
      ensures Interfaces(interfaces) ==
              SendAll(Interfaces(old(interfaces)), Forwards(routingTable, Inboxes(old(interfaces))))
      ensures forall j | 0 <= j < |interfaces| ::
                Emits(routingTable, Inboxes(old(interfaces)), old(interfaces)[j].interface, interfaces[j].interface, j)
    {
      ghost var before, n := interfaces, |interfaces|;
      assert Forwards(routingTable, []) == [];
      for i := 0 to |interfaces|
        invariant |interfaces| == n
        invariant forall j | 0 <= j < n :: interfaces[j].inbox == if j < i then [] else before[j].inbox
        invariant InRange(Forwards(routingTable, Inboxes(before[..i])), n)
        invariant Interfaces(interfaces) == SendAll(Interfaces(before), Forwards(routingTable, Inboxes(before[..i])))
      {
        hide Forwards, SendAll, Decide;
        DrainInbox(i, Interfaces(before), Inboxes(before[..i]));
        assert before[..i + 1][..i] == before[..i];
      }
      assert before[..n] == before;
      AllEmit(routingTable, before, interfaces);
    }
  }

  lemma AllEmit(table: seq<RouteEntry>, before: seq<AsyncInterface>, after: seq<AsyncInterface>)
    requires InRange(Forwards(table, Inboxes(before)), |before|)
    requires Interfaces(after) == SendAll(Interfaces(before), Forwards(table, Inboxes(before)))
    ensures |after| == |before|
    ensures forall j | 0 <= j < |after| :: Emits(table, Inboxes(before), before[j].interface, after[j].interface, j)
  {
    hide Emits, Forwards, SendAll, Inboxes;
    assert |Interfaces(after)| == |Interfaces(before)|;
    forall j | 0 <= j < |after|
      ensures Emits(table, Inboxes(before), before[j].interface, after[j].interface, j)
    {
      assert Interfaces(after)[j] == after[j].interface && Interfaces(before)[j] == before[j].interface;
      RoutingEmits(table, Inboxes(before), Interfaces(before), j);
    }
  }

  lemma PopInbox(s: seq<AsyncInterface>, i: nat)
    requires i < |s| && s[i].inbox != []
    ensures Interfaces(s[i := s[i].(inbox := s[i].inbox[1..])]) == Interfaces(s)
  {
  }

  lemma ForwardsStep(table: seq<RouteEntry>, q: seq<IPv4Datagram>, d: IPv4Datagram, s: seq<Interface>)
    requires TableOk(table, |s|)
    ensures InRange(Forwards(table, q), |s|) && InRange(Forwards(table, q + [d]), |s|)
    ensures SendAll(s, Forwards(table, q + [d])) ==
            var t := SendAll(s, Forwards(table, q));
            match Decide(table, d)
            case None => t
            case Some(f) => t[f.interface := t[f.interface].SendDatagram(f.d, f.hop)]
  {
    hide Decide, Interface.SendDatagram;
    ForwardsInRange(table, q, |s|);
    ForwardsInRange(table, q + [d], |s|);
    assert (q + [d])[..|q|] == q;
    var fs := Forwards(table, q);
    match Decide(table, d)
    case None =>
    case Some(f) => assert (fs + [f])[..|fs|] == fs;
  }
}
