/** A network interface that resolves next hops with ARP (RFC 826). */
module NetworkInterfaces {
  import opened Basics
  import opened Ipv4Wire

  type Mac = x: int | 0 <= x < 0x1_0000_0000_0000

  const BROADCAST: Mac := 0xffff_ffff_ffff
  const MAX_RETX_WAITING_TIME: nat := 5000
  const MAX_CACHE_TIME: nat := 30000

  datatype ARPMessage = ARPMessage(
    request: bool, senderMac: Mac, senderIp: u32, targetMac: Mac, targetIp: u32)

  /** The content of a frame, as the matching parser finds it. */
  datatype Payload = Ip(d: IPv4Datagram) | Arp(msg: ARPMessage) | Malformed

  datatype Frame = Frame(dst: Mac, src: Mac, isIp: bool, payload: Payload)

  datatype Entry = Entry(age: nat, mac: Mac)

  datatype WaitList = WaitList(age: nat, queue: seq<IPv4Datagram>)

  datatype Interface = Interface(
    mac: Mac, ip: u32, framesOut: seq<Frame>, cache: map<u32, Entry>, waiting: map<u32, WaitList>)
  {
    function IpFrame(to: Mac, d: IPv4Datagram): Frame {
      Frame(to, mac, true, Ip(d))
    }

    function IpFrames(to: Mac, q: seq<IPv4Datagram>): seq<Frame> {
      if q == [] then [] else [IpFrame(to, q[0])] + IpFrames(to, q[1..])
    }

    function ArpRequest(target: u32): Frame {
      Frame(BROADCAST, mac, false, Arp(ARPMessage(true, mac, ip, 0, target)))
    }

    function ArpReply(to: Mac, target: u32): Frame {
      Frame(to, mac, false, Arp(ARPMessage(false, mac, ip, to, target)))
    }

    /** A datagram for a hop that is being resolved already is put on a copy of the list, and lost. */
    function SendDatagram(d: IPv4Datagram, hop: u32): Interface {
      if hop in cache then this.(framesOut := framesOut + [IpFrame(cache[hop].mac, d)])
      else if hop in waiting then
        if waiting[hop].age >= MAX_RETX_WAITING_TIME
        then this.(framesOut := framesOut + [ArpRequest(hop)])
        else this
      else this.(waiting := waiting[hop := WaitList(0, [d])], framesOut := framesOut + [ArpRequest(hop)])
    }

    predicate Hears(f: Frame) {
      f.dst == mac || f.dst == BROADCAST
    }

    /** The ARP message of a frame that this interface accepts as one. */
    predicate AcceptsArp(f: Frame) {
      Hears(f) && !f.isIp && f.payload.Arp?
    }

    function Pending(hop: u32): seq<IPv4Datagram> {
      if hop in waiting then waiting[hop].queue else []
    }

    /** Caches the sender's address and sends it what was waiting. */
    function Learn(m: ARPMessage): Interface {
      this.(cache := cache[m.senderIp := Entry(0, m.senderMac)],
            waiting := waiting - {m.senderIp},
            framesOut := framesOut + IpFrames(m.senderMac, Pending(m.senderIp)))
    }

    function RecvFrame(f: Frame): (Interface, Option<IPv4Datagram>) {
      if !Hears(f) then (this, None)
      else if f.isIp then (this, if f.payload.Ip? then Some(f.payload.d) else None)
      else if !f.payload.Arp? then (this, None)
      else
        var m := f.payload.msg;
        var n := Learn(m);
        (if m.request && m.targetIp == ip
         then n.(framesOut := n.framesOut + [ArpReply(m.senderMac, m.senderIp)])
         else n, None)
    }

    function Tick(ms: nat): Interface {
      this.(waiting := map h | h in waiting :: waiting[h].(age := waiting[h].age + ms),
            cache := map h | h in cache && cache[h].age + ms < MAX_CACHE_TIME ::
                       cache[h].(age := cache[h].age + ms))
    }
  }

  function NewInterface(mac: Mac, ip: u32): Interface {
    Interface(mac, ip, [], map[], map[])
  }

  // ---- Runs -----------------------------------------------------------------------------------

  datatype Event = Send(d: IPv4Datagram, hop: u32) | Recv(f: Frame) | Tick(ms: nat)

  function Step(n: Interface, e: Event): Interface {
    match e
    case Send(d, hop) => n.SendDatagram(d, hop)
    case Recv(f) => n.RecvFrame(f).0
    case Tick(ms) => n.Tick(ms)
  }

  function Exec(n: Interface, es: seq<Event>): Interface {
    if es == [] then n else Step(Exec(n, es[..|es| - 1]), es[|es| - 1])
  }

  /** The reference: the address in the latest accepted ARP message from `ip`, and the time that was
      ticked since then. */
  function Heard(n: Interface, es: seq<Event>, ip: u32): Option<Entry> {
    if es == [] then None
    else
      var e, before := es[|es| - 1], Heard(n, es[..|es| - 1], ip);
      if Answers(n, e, ip) then Some(Entry(0, e.f.payload.msg.senderMac))
      else if e.Tick? && before.Some? then Some(Entry(before.value.age + e.ms, before.value.mac))
      else before
  }

  predicate Answers(n: Interface, e: Event, hop: u32) {
    e.Recv? && n.AcceptsArp(e.f) && e.f.payload.msg.senderIp == hop
  }

  predicate Recent(n: Interface, es: seq<Event>, ip: u32) {
    Heard(n, es, ip).Some? && Heard(n, es, ip).value.age < MAX_CACHE_TIME
  }

  /** The reference for what waits: a datagram sent to a hop that was not heard from recently, while
      none is waiting for it, until the hop answers. */
  function Held(n: Interface, es: seq<Event>, hop: u32): Option<WaitList> {
    if es == [] then None
    else
      var e, front := es[|es| - 1], es[..|es| - 1];
      var before := Held(n, front, hop);
      if Answers(n, e, hop) then None
      else if e.Send? && e.hop == hop && before.None? && !Recent(n, front, hop) then Some(WaitList(0, [e.d]))
      else if e.Tick? && before.Some? then Some(before.value.(age := before.value.age + e.ms))
      else before
  }

  /** Event `i` sends a datagram to `hop` while it is unresolved, and `hop` has not answered since. */
  ghost predicate Unanswered(n: Interface, es: seq<Event>, hop: u32, i: nat) {
    && i < |es| && es[i].Send? && es[i].hop == hop && !Recent(n, es[..i], hop)
    && forall j | i < j < |es| :: !Answers(n, es[j], hop)
  }

  /** What is held is the first unanswered datagram, and nothing exactly when there is none. */
  lemma {:induction false} HeldIsFirst(n: Interface, es: seq<Event>, hop: u32)
    ensures Held(n, es, hop).None? <==> forall i: nat | i < |es| :: !Unanswered(n, es, hop, i)
    ensures Held(n, es, hop).Some? ==>
              exists i: nat | i < |es| ::
                && Unanswered(n, es, hop, i) && Held(n, es, hop).value.queue == [es[i].d]
                && forall j: nat | j < i :: !Unanswered(n, es, hop, j)
  {
    if es != [] {
      var m, front := |es| - 1, es[..|es| - 1];
      HeldIsFirst(n, front, hop);
      forall i: nat | i < m
        ensures Unanswered(n, es, hop, i) <==> Unanswered(n, front, hop, i) && !Answers(n, es[m], hop)
      {
        assert es[..i] == front[..i];
        assert forall j | i < j < m :: es[j] == front[j];
      }
      hide Recent;
      assert Unanswered(n, es, hop, m) <==> es[m].Send? && es[m].hop == hop && !Recent(n, front, hop);
      hide Unanswered;
      if Held(n, es, hop).Some? && Held(n, front, hop).Some? {
        var i: nat :| i < |front| && Unanswered(n, front, hop, i)
                      && Held(n, front, hop).value.queue == [front[i].d]
                      && forall j: nat | j < i :: !Unanswered(n, front, hop, j);
        assert Unanswered(n, es, hop, i) && es[i] == front[i];
      }
    }
  }

  /** The cache is what was heard in the last thirty seconds. */
  ghost predicate CacheExact(n: Interface, v: Interface, es: seq<Event>) {
    forall ip: u32 ::
      && (ip in v.cache <==> Recent(n, es, ip))
      && (ip in v.cache ==> v.cache[ip] == Heard(n, es, ip).value)
  }

  /** What waits is what is held. */
  ghost predicate WaitingExact(n: Interface, v: Interface, es: seq<Event>) {
    forall hop: u32 ::
      && (hop in v.waiting <==> Held(n, es, hop).Some?)
      && (hop in v.waiting ==> v.waiting[hop] == Held(n, es, hop).value)
  }

  ghost predicate RunInv(n: Interface, v: Interface, es: seq<Event>) {
    && v.mac == n.mac && v.ip == n.ip && v.cache.Keys !! v.waiting.Keys
    && CacheExact(n, v, es) && WaitingExact(n, v, es)
  }

  lemma HeardStep(n: Interface, es: seq<Event>, e: Event, ip: u32)
    ensures Heard(n, es + [e], ip) ==
            var before := Heard(n, es, ip);
            if Answers(n, e, ip) then Some(Entry(0, e.f.payload.msg.senderMac))
            else if e.Tick? && before.Some? then Some(Entry(before.value.age + e.ms, before.value.mac))
            else before
  {
    assert (es + [e])[..|es|] == es;
  }

  lemma HeldStep(n: Interface, es: seq<Event>, e: Event, hop: u32)
    ensures Held(n, es + [e], hop) ==
            var before := Held(n, es, hop);
            if Answers(n, e, hop) then None
            else if e.Send? && e.hop == hop && before.None? && !Recent(n, es, hop) then Some(WaitList(0, [e.d]))
            else if e.Tick? && before.Some? then Some(before.value.(age := before.value.age + e.ms))
            else before
  {
    assert (es + [e])[..|es|] == es;
  }

  lemma StepCache(n: Interface, v: Interface, es: seq<Event>, e: Event)
    requires RunInv(n, v, es)
    ensures CacheExact(n, Step(v, e), es + [e])
  {
    forall ip: u32
      ensures var w, h := Step(v, e), Heard(n, es + [e], ip);
              && (ip in w.cache <==> h.Some? && h.value.age < MAX_CACHE_TIME)
              && (ip in w.cache ==> w.cache[ip] == h.value)
    {
      HeardStep(n, es, e, ip);
      assert ip in v.cache <==> Heard(n, es, ip).Some? && Heard(n, es, ip).value.age < MAX_CACHE_TIME;
      hide Heard;
    }
  }

  lemma StepWaiting(n: Interface, v: Interface, es: seq<Event>, e: Event)
    requires RunInv(n, v, es)
    ensures WaitingExact(n, Step(v, e), es + [e])
  {
    forall hop: u32
      ensures var w, h := Step(v, e), Held(n, es + [e], hop);
              && (hop in w.waiting <==> h.Some?)
              && (hop in w.waiting ==> w.waiting[hop] == h.value)
    {
      HeldStep(n, es, e, hop);
      assert hop in v.cache <==> Recent(n, es, hop);
      assert hop in v.waiting <==> Held(n, es, hop).Some?;
      hide Held, Recent;
    }
  }

  lemma StepDisjoint(v: Interface, e: Event)
    requires v.cache.Keys !! v.waiting.Keys
    ensures Step(v, e).cache.Keys !! Step(v, e).waiting.Keys
  {
  }

  /** Over every run: no address is both cached and waited for, the cache holds exactly the addresses
      heard from in the last thirty seconds of ticked time, each with its latest hardware address, and
      exactly the hops with an unanswered datagram are waited for, each with its first one. */
  lemma {:induction false} RunKeepsCacheExact(n: Interface, es: seq<Event>)
    requires n.cache == map[] && n.waiting == map[]
    ensures RunInv(n, Exec(n, es), es)
  {
    if es != [] {
      var before, e := es[..|es| - 1], es[|es| - 1];
      RunKeepsCacheExact(n, before);
      StepCache(n, Exec(n, before), before, e);
      StepWaiting(n, Exec(n, before), before, e);
      StepDisjoint(Exec(n, before), e);
      hide CacheExact, WaitingExact;
      assert es == before + [e];
    }
  }

  // ---- Datagrams that are lost ----------------------------------------------------------------

  /** The step to `w` puts `d` into a frame, or keeps it for `hop`. */
  ghost predicate Kept(v: Interface, w: Interface, d: IPv4Datagram, hop: u32) {
    || (exists to: Mac :: w.framesOut == v.framesOut + [v.IpFrame(to, d)])
    || w.Pending(hop) == v.Pending(hop) + [d]
  }

  /** In every state a datagram is sent on or queued exactly when its hop is cached or nothing waits for
      it yet. Otherwise it is lost. */
  lemma KeptUnlessWaiting(v: Interface, d: IPv4Datagram, hop: u32)
    ensures Kept(v, v.SendDatagram(d, hop), d, hop) <==> hop in v.cache || hop !in v.waiting
    ensures !Kept(v, v.SendDatagram(d, hop), d, hop) ==>
              v.SendDatagram(d, hop) == v.(framesOut := v.SendDatagram(d, hop).framesOut)
              && (v.SendDatagram(d, hop).framesOut == v.framesOut
                  || v.SendDatagram(d, hop).framesOut == v.framesOut + [v.ArpRequest(hop)])
  {
    var w := v.SendDatagram(d, hop);
    if hop in v.cache {
      assert w.framesOut == v.framesOut + [v.IpFrame(v.cache[hop].mac, d)];
    } else if hop in v.waiting {
      assert |w.Pending(hop)| != |v.Pending(hop) + [d]|;
      forall to: Mac
        ensures w.framesOut != v.framesOut + [v.IpFrame(to, d)]
      {
        var f := v.IpFrame(to, d);
        assert (v.framesOut + [f])[|v.framesOut|] == f;
      }
    } else {
      assert w.Pending(hop) == v.Pending(hop) + [d];
    }
  }

  /** Over every run: the datagrams that are lost are those sent to a hop that another one waits for. */
  lemma LostExactlyWhenHeld(n: Interface, es: seq<Event>, d: IPv4Datagram, hop: u32)
    requires n.cache == map[] && n.waiting == map[]
    ensures Kept(Exec(n, es), Exec(n, es + [Send(d, hop)]), d, hop) <==> Held(n, es, hop).None?
  {
    RunKeepsCacheExact(n, es);
    KeptUnlessWaiting(Exec(n, es), d, hop);
    assert (es + [Send(d, hop)])[..|es|] == es;
    assert Exec(n, es + [Send(d, hop)]) == Exec(n, es).SendDatagram(d, hop);
    assert hop in Exec(n, es).waiting <==> Held(n, es, hop).Some?;
    hide Exec, Held, Heard, Kept, CacheExact, WaitingExact;
  }

  function Reply(mac: Mac, ip: u32, from: Mac, hop: u32): Frame {
    Frame(mac, from, false, Arp(ARPMessage(false, from, hop, mac, ip)))
  }

  /** What the documentation promises, refuted: of two datagrams sent to an unresolved hop that then
      answers, only the first is ever put into a frame. */
  lemma SecondDatagramLost(mac: Mac, ip: u32, d: IPv4Datagram, d': IPv4Datagram, hop: u32, from: Mac)
    requires d != d'
    ensures var n := NewInterface(mac, ip);
            var v := Exec(n, [Send(d, hop), Send(d', hop), Recv(Reply(mac, ip, from, hop))]);
            && v.framesOut == [n.ArpRequest(hop), n.IpFrame(from, d)] && v.waiting == map[]
            && forall f | f in v.framesOut :: f.payload != Ip(d')
  {
    var n := NewInterface(mac, ip);
    var es := [Send(d, hop), Send(d', hop), Recv(Reply(mac, ip, from, hop))];
    assert es[..2] == [Send(d, hop), Send(d', hop)] && es[..2][..1] == [Send(d, hop)] && es[..2][..1][..0] == [];
    assert Exec(n, []) == n;
    var v1 := n.SendDatagram(d, hop);
    assert Exec(n, es[..2][..1]) == v1;
    assert Exec(n, es[..2]) == v1;
    var v := Exec(n, es);
    assert v == v1.RecvFrame(Reply(mac, ip, from, hop)).0;
    assert v1.IpFrames(from, [d]) == [v1.IpFrame(from, d)] by { assert [d][1..] == []; }
    assert v.waiting == map[];
  }

  // ---- The fate of every datagram -------------------------------------------------------------

  /** How often `d` was sent in the run, to whatever hop. */
  function SentCount(es: seq<Event>, d: IPv4Datagram): nat {
    if es == [] then 0
    else SentCount(es[..|es| - 1], d) + Bit(es[|es| - 1].Send? && es[|es| - 1].d == d)
  }

  /** How many of the frames carry `d`. */
  function FrameCount(fs: seq<Frame>, d: IPv4Datagram): nat {
    if fs == [] then 0
    else FrameCount(fs[..|fs| - 1], d) + Bit(fs[|fs| - 1].payload == Ip(d))
  }

  function HeldHops(waiting: map<u32, WaitList>, d: IPv4Datagram): set<u32> {
    set h | h in waiting && d in waiting[h].queue
  }

  /** For how many hops `d` waits. */
  function HeldCount(v: Interface, d: IPv4Datagram): nat {
    |HeldHops(v.waiting, d)|
  }

  /** How often `d` was sent to a hop that another datagram was held for. */
  function LostCount(n: Interface, es: seq<Event>, d: IPv4Datagram): nat {
    if es == [] then 0
    else
      var e, front := es[|es| - 1], es[..|es| - 1];
      LostCount(n, front, d) + Bit(e.Send? && e.d == d && Held(n, front, e.hop).Some?)
  }

  ghost predicate OneEach(v: Interface) {
    forall h | h in v.waiting :: |v.waiting[h].queue| == 1
  }

  lemma FrameCountOne(fs: seq<Frame>, f: Frame, d: IPv4Datagram)
    ensures FrameCount(fs + [f], d) == FrameCount(fs, d) + Bit(f.payload == Ip(d))
  {
    assert (fs + [f])[..|fs|] == fs;
  }

  lemma OneMore(before: set<u32>, after: set<u32>, hop: u32, more: bool)
    requires hop !in before && forall h: u32 :: h in after <==> h in before || (h == hop && more)
    ensures |after| == |before| + Bit(more)
  {
    assert after == if more then before + {hop} else before;
  }

  lemma HoldsOne(waiting: map<u32, WaitList>, hop: u32, x: IPv4Datagram, d: IPv4Datagram)
    requires hop !in waiting
    ensures |HeldHops(waiting[hop := WaitList(0, [x])], d)| == |HeldHops(waiting, d)| + Bit(x == d)
  {
    OneMore(HeldHops(waiting, d), HeldHops(waiting[hop := WaitList(0, [x])], d), hop, x == d);
  }

  lemma ReleasesOne(waiting: map<u32, WaitList>, hop: u32, x: IPv4Datagram, d: IPv4Datagram)
    requires hop in waiting && waiting[hop].queue == [x]
    ensures |HeldHops(waiting - {hop}, d)| + Bit(x == d) == |HeldHops(waiting, d)|
  {
    OneMore(HeldHops(waiting - {hop}, d), HeldHops(waiting, d), hop, x == d);
  }

  lemma SendHolds(v: Interface, x: IPv4Datagram, hop: u32, d: IPv4Datagram)
    ensures HeldCount(v.SendDatagram(x, hop), d) ==
            HeldCount(v, d) + Bit(x == d && hop !in v.cache && hop !in v.waiting)
  {
    hide HeldHops;
    if hop !in v.waiting { HoldsOne(v.waiting, hop, x, d); }
  }

  lemma SendFrames(v: Interface, x: IPv4Datagram, hop: u32, d: IPv4Datagram)
    ensures FrameCount(v.SendDatagram(x, hop).framesOut, d) ==
            FrameCount(v.framesOut, d) + Bit(x == d && hop in v.cache)
  {
    hide FrameCount;
    if hop in v.cache { FrameCountOne(v.framesOut, v.IpFrame(v.cache[hop].mac, x), d); }
    FrameCountOne(v.framesOut, v.ArpRequest(hop), d);
  }

  lemma LearnCounts(v: Interface, m: ARPMessage, d: IPv4Datagram)
    requires OneEach(v)
    ensures FrameCount(v.Learn(m).framesOut, d) + HeldCount(v.Learn(m), d) == FrameCount(v.framesOut, d) + HeldCount(v, d)
  {
    hide HeldHops, FrameCount;
    var hop := m.senderIp;
    if hop in v.waiting {
      var x := v.waiting[hop].queue[0];
      assert v.waiting[hop].queue == [x];
      assert v.IpFrames(m.senderMac, [x]) == [v.IpFrame(m.senderMac, x)] by { assert [x][1..] == []; }
      FrameCountOne(v.framesOut, v.IpFrame(m.senderMac, x), d);
      ReleasesOne(v.waiting, hop, x, d);
    } else {
      assert v.waiting - {hop} == v.waiting;
      assert v.framesOut + [] == v.framesOut;
    }
  }

  lemma RecvCounts(v: Interface, f: Frame, d: IPv4Datagram)
    requires OneEach(v)
    ensures var w := v.RecvFrame(f).0;
            FrameCount(w.framesOut, d) + HeldCount(w, d) == FrameCount(v.framesOut, d) + HeldCount(v, d)
  {
    if v.AcceptsArp(f) {
      var m := f.payload.msg;
      hide FrameCount, Interface.Learn, HeldHops;
      LearnCounts(v, m, d);
      FrameCountOne(v.Learn(m).framesOut, v.Learn(m).ArpReply(m.senderMac, m.senderIp), d);
    }
  }

  lemma TickCounts(v: Interface, ms: nat, d: IPv4Datagram)
    ensures HeldCount(v.Tick(ms), d) == HeldCount(v, d)
  {
    assert HeldHops(v.Tick(ms).waiting, d) == HeldHops(v.waiting, d);
  }

  lemma StepCounts(v: Interface, e: Event, d: IPv4Datagram)
    requires OneEach(v)
    ensures var w := Step(v, e);
            FrameCount(w.framesOut, d) + HeldCount(w, d) ==
            FrameCount(v.framesOut, d) + HeldCount(v, d)
            + Bit(e.Send? && e.d == d && (e.hop in v.cache || e.hop !in v.waiting))
  {
    hide HeldCount, FrameCount, Interface.SendDatagram, Interface.RecvFrame;
    match e
    case Send(x, hop) =>
      SendHolds(v, x, hop, d);
      SendFrames(v, x, hop, d);
    case Recv(f) => RecvCounts(v, f, d);
    case Tick(ms) => TickCounts(v, ms, d);
  }

  lemma HeldOnes(n: Interface, es: seq<Event>)
    requires n.cache == map[] && n.waiting == map[]
    ensures OneEach(Exec(n, es))
  {
    RunKeepsCacheExact(n, es);
    hide Exec, CacheExact;
    forall h | h in Exec(n, es).waiting
      ensures |Exec(n, es).waiting[h].queue| == 1
    {
      HeldIsFirst(n, es, h);
    }
  }

  /** Over every run each datagram that was sent is in one frame, still held, or lost. */
  lemma {:induction false} EveryDatagramAccounted(n: Interface, es: seq<Event>, d: IPv4Datagram)
    requires n.cache == map[] && n.waiting == map[] && n.framesOut == []
    ensures var v := Exec(n, es);
            SentCount(es, d) == FrameCount(v.framesOut, d) + HeldCount(v, d) + LostCount(n, es, d)
  {
    if es != [] {
      var front, e := es[..|es| - 1], es[|es| - 1];
      var v := Exec(n, front);
      EveryDatagramAccounted(n, front, d);
      HeldOnes(n, front);
      StepCounts(v, e, d);
      RunKeepsCacheExact(n, front);
      if e.Send? { assert e.hop in v.waiting <==> Held(n, front, e.hop).Some?; }
      hide FrameCount, HeldCount, Held, OneEach;
    }
  }

  // ---- Frames that are sent -------------------------------------------------------------------

  lemma StepGrows(v: Interface, e: Event)
    ensures v.framesOut <= Step(v, e).framesOut
  {
  }

  /** The frames that one event adds. */
  ghost function NewFrames(v: Interface, e: Event): seq<Frame> {
    StepGrows(v, e);
    Step(v, e).framesOut[|v.framesOut|..]
  }

  /** `d` is on its way to `hop`: it is being sent there, or was waiting for the ARP message. */
  ghost predicate Bound(v: Interface, e: Event, d: IPv4Datagram, hop: u32) {
    || e == Send(d, hop)
    || (Answers(v, e, hop) && d in v.Pending(hop))
  }

  lemma {:induction false} IpFramesAddressed(v: Interface, to: Mac, q: seq<IPv4Datagram>, f: Frame)
    requires f in v.IpFrames(to, q)
    ensures f.dst == to && f.payload.Ip? && f.payload.d in q
  {
    if f != v.IpFrame(to, q[0]) {
      IpFramesAddressed(v, to, q[1..], f);
    }
  }

  /** A new IPv4 frame is for the hop the datagram is sent to, or for the one that has just answered. */
  lemma NewFrameBound(v: Interface, e: Event, f: Frame)
    requires f in NewFrames(v, e) && f.payload.Ip?
    ensures e.Send? ==> e.hop in v.cache && f == v.IpFrame(v.cache[e.hop].mac, e.d)
    ensures !e.Send? ==>
              e.Recv? && v.AcceptsArp(e.f) && f.dst == e.f.payload.msg.senderMac
              && f.payload.d in v.Pending(e.f.payload.msg.senderIp)
  {
    if e.Recv? && v.AcceptsArp(e.f) {
      var m := e.f.payload.msg;
      var q := v.IpFrames(m.senderMac, v.Pending(m.senderIp));
      assert NewFrames(v, e) == q + if m.request && m.targetIp == v.ip then [v.ArpReply(m.senderMac, m.senderIp)] else [];
      assert f in q;
      IpFramesAddressed(v, m.senderMac, v.Pending(m.senderIp), f);
    }
  }

  /** Every IPv4 frame that a step emits carries the hardware address of the latest accepted ARP
      message from the hop its datagram is bound for, and that message is less than thirty seconds old. */
  lemma FramesReachLatest(n: Interface, es: seq<Event>, e: Event, f: Frame)
    requires n.cache == map[] && n.waiting == map[]
    requires f in NewFrames(Exec(n, es), e) && f.payload.Ip?
    ensures exists hop: u32 ::
              && Bound(Exec(n, es), e, f.payload.d, hop)
              && Heard(n, es + [e], hop).Some?
              && Heard(n, es + [e], hop).value.mac == f.dst
              && Heard(n, es + [e], hop).value.age < MAX_CACHE_TIME
  {
    var v := Exec(n, es);
    RunKeepsCacheExact(n, es);
    NewFrameBound(v, e, f);
    hide Heard, Exec, NewFrames, WaitingExact;
    var hop: u32 := if e.Send? then e.hop else e.f.payload.msg.senderIp;
    HeardStep(n, es, e, hop);
    assert hop in v.cache <==> Recent(n, es, hop);
    assert Bound(v, e, f.payload.d, hop);
  }

  /** Every frame bears the address of the interface that sends it. */
  lemma FramesSigned(v: Interface, e: Event, f: Frame)
    requires f in NewFrames(v, e)
    ensures f.src == v.mac
  {
    if e.Recv? && v.AcceptsArp(e.f) {
      var m := e.f.payload.msg;
      var q := v.IpFrames(m.senderMac, v.Pending(m.senderIp));
      assert NewFrames(v, e) == q + if m.request && m.targetIp == v.ip then [v.ArpReply(m.senderMac, m.senderIp)] else [];
      if f in q { IpFramesForm(v, m.senderMac, v.Pending(m.senderIp), f); }
    }
  }

  lemma {:induction false} IpFramesForm(v: Interface, to: Mac, q: seq<IPv4Datagram>, f: Frame)
    requires f in v.IpFrames(to, q)
    ensures f.src == v.mac && f.isIp && f.payload.Ip?
  {
    if f != v.IpFrame(to, q[0]) { IpFramesForm(v, to, q[1..], f); }
  }

  // ---- Two interfaces -------------------------------------------------------------------------

  /** Delivery: an IPv4 frame that one interface emits yields its datagram at the interface it is addressed
      to; and a frame that is addressed neither to an interface nor to all yields and changes nothing. */
  lemma FrameDelivers(v: Interface, e: Event, f: Frame, b: Interface)
    requires f in NewFrames(v, e)
    ensures f.payload.Ip? && f.dst == b.mac ==> b.RecvFrame(f) == (b, Some(f.payload.d))
    ensures f.dst != b.mac && f.dst != BROADCAST ==> b.RecvFrame(f) == (b, None)
  {
    if f.payload.Ip? {
      NewFrameBound(v, e, f);
      if !e.Send? {
        var m := e.f.payload.msg;
        var q := v.IpFrames(m.senderMac, v.Pending(m.senderIp));
        assert NewFrames(v, e) == q + if m.request && m.targetIp == v.ip then [v.ArpReply(m.senderMac, m.senderIp)] else [];
        IpFramesForm(v, m.senderMac, v.Pending(m.senderIp), f);
      }
      hide NewFrames;
    }
  }

  /** Receiving frames one after the other, and the datagrams they yield. */
  function RecvAll(n: Interface, fs: seq<Frame>): (Interface, seq<IPv4Datagram>) {
    if fs == [] then (n, [])
    else
      var (m, ds) := RecvAll(n, fs[..|fs| - 1]);
      var (r, d) := m.RecvFrame(fs[|fs| - 1]);
      (r, if d.Some? then ds + [d.value] else ds)
  }

  lemma RecvSnoc(n: Interface, fs: seq<Frame>, f: Frame)
    ensures var (m, ds) := RecvAll(n, fs);
            var (r, d) := m.RecvFrame(f);
            RecvAll(n, fs + [f]) == (r, if d.Some? then ds + [d.value] else ds)
  {
    assert (fs + [f])[..|fs|] == fs;
  }

  lemma IpFramesSnoc(v: Interface, to: Mac, q: seq<IPv4Datagram>, d: IPv4Datagram)
    ensures v.IpFrames(to, q + [d]) == v.IpFrames(to, q) + [v.IpFrame(to, d)]
  {
    if q == [] {
      assert q + [d] == [d] && [d][1..] == [];
    } else {
      IpFramesSnoc(v, to, q[1..], d);
      assert (q + [d])[1..] == q[1..] + [d];
    }
  }

  /** Waiting datagrams that are sent to an interface all arrive there, in order. */
  lemma {:induction false} QueueArrives(v: Interface, b: Interface, q: seq<IPv4Datagram>)
    ensures RecvAll(b, v.IpFrames(b.mac, q)) == (b, q)
    decreases |q|
  {
    if q != [] {
      var front, d := q[..|q| - 1], q[|q| - 1];
      QueueArrives(v, b, front);
      assert q == front + [d];
      IpFramesSnoc(v, b.mac, front, d);
      RecvSnoc(b, v.IpFrames(b.mac, front), v.IpFrame(b.mac, d));
    }
  }

  lemma RecvOne(n: Interface, f: Frame)
    ensures var (r, d) := n.RecvFrame(f);
            RecvAll(n, [f]) == (r, if d.Some? then [d.value] else [])
  {
    var none: seq<Frame> := [];
    RecvSnoc(n, none, f);
    assert none + [f] == [f];
    var d := n.RecvFrame(f).1;
    if d.Some? { assert [] + [d.value] == [d.value]; }
  }

  /** What `a` asks, and what `b` answers. */
  lemma RequestAnswered(a: Interface, b: Interface)
    ensures var f := a.ArpRequest(b.ip);
            var b' := b.Learn(f.payload.msg);
            b.RecvFrame(f) == (b'.(framesOut := b'.framesOut + [b'.ArpReply(a.mac, a.ip)]), None)
            && b'.cache == b.cache[a.ip := Entry(0, a.mac)]
            && b'.framesOut == b.framesOut + b.IpFrames(a.mac, b.Pending(a.ip)) && b'.mac == b.mac && b'.ip == b.ip
  {
  }

  lemma AnswerLearned(a: Interface, b: Interface, d: IPv4Datagram)
    requires a.Pending(b.ip) == [d]
    ensures var a' := a.RecvFrame(b.ArpReply(a.mac, a.ip)).0;
            && a.RecvFrame(b.ArpReply(a.mac, a.ip)).1 == None
            && a' == a.(cache := a.cache[b.ip := Entry(0, b.mac)], waiting := a.waiting - {b.ip},
                        framesOut := a.framesOut + [a.IpFrame(b.mac, d)])
  {
    assert [d][1..] == [];
    assert a.IpFrames(b.mac, [d]) == [a.IpFrame(b.mac, d)];
  }

  /** `b` receives what `a` has emitted since it was `a0`. */
  ghost function Receives(b: Interface, a0: Interface, a: Interface): (Interface, seq<IPv4Datagram>)
    requires |a0.framesOut| <= |a.framesOut|
  {
    RecvAll(b, a.framesOut[|a0.framesOut|..])
  }

  lemma RequestReceived(a: Interface, b: Interface, d: IPv4Datagram)
    requires b.ip !in a.cache && b.ip !in a.waiting
    ensures var a1 := a.SendDatagram(d, b.ip);
            && a1.framesOut == a.framesOut + [a.ArpRequest(b.ip)] && a1.Pending(b.ip) == [d]
            && a1.mac == a.mac && a1.ip == a.ip
            && Receives(b, a, a1) == (b.RecvFrame(a.ArpRequest(b.ip)).0, [])
  {
    var a1 := a.SendDatagram(d, b.ip);
    assert a1.framesOut[|a.framesOut|..] == [a.ArpRequest(b.ip)];
    RequestAnswered(a, b);
    RecvOne(b, a.ArpRequest(b.ip));
    hide RecvAll;
  }

  lemma AnswerReceived(a: Interface, b: Interface, b1: Interface, q: seq<IPv4Datagram>, d: IPv4Datagram)
    requires b1.framesOut == b.framesOut + b.IpFrames(a.mac, q) + [b1.ArpReply(a.mac, a.ip)]
    requires b1.ip == b.ip && a.Pending(b.ip) == [d]
    ensures Receives(a, b, b1) == (a.RecvFrame(b1.ArpReply(a.mac, a.ip)).0, q)
  {
    var reply := b1.ArpReply(a.mac, a.ip);
    assert b1.framesOut[|b.framesOut|..] == b.IpFrames(a.mac, q) + [reply];
    QueueArrives(b, a, q);
    RecvSnoc(a, b.IpFrames(a.mac, q), reply);
    AnswerLearned(a, b1, d);
    hide RecvAll, Interface.RecvFrame;
  }

  lemma DatagramReceived(a: Interface, a2: Interface, b: Interface, d: IPv4Datagram)
    requires a2.framesOut == a.framesOut + [a.IpFrame(b.mac, d)]
    ensures Receives(b, a, a2) == (b, [d])
  {
    assert a2.framesOut[|a.framesOut|..] == [a.IpFrame(b.mac, d)];
    RecvOne(b, a.IpFrame(b.mac, d));
    hide RecvAll;
  }

  /** Resolution: `a` sends `d` to the unresolved address of `b`. What it emits, given to `b`, makes `b`
      learn its address and emit what waited for `a` and a reply; these, given to `a`, yield what waited
      and make `a` learn the address of `b` and emit `d`; and that, given to `b`, yields `d`. */
  lemma ResolutionDelivers(a: Interface, b: Interface, d: IPv4Datagram)
    returns (a1: Interface, b1: Interface, a2: Interface)
    requires b.ip !in a.cache && b.ip !in a.waiting
    ensures a1 == a.SendDatagram(d, b.ip) && |a.framesOut| <= |a1.framesOut|
    ensures Receives(b, a, a1) == (b1, []) && b1.cache == b.cache[a.ip := Entry(0, a.mac)] && |b.framesOut| <= |b1.framesOut|
    ensures Receives(a1, b, b1) == (a2, b.Pending(a.ip)) && a2.cache == a.cache[b.ip := Entry(0, b.mac)]
    ensures b.ip !in a2.waiting && |a1.framesOut| <= |a2.framesOut|
    ensures Receives(b1, a1, a2) == (b1, [d])
  {
    hide Receives, RecvAll, Interface.IpFrames;
    a1 := a.SendDatagram(d, b.ip);
    RequestReceived(a, b, d);
    RequestAnswered(a, b);
    b1 := b.RecvFrame(a.ArpRequest(b.ip)).0;
    AnswerReceived(a1, b, b1, b.Pending(a.ip), d);
    AnswerLearned(a1, b1, d);
    a2 := a1.RecvFrame(b1.ArpReply(a.mac, a.ip)).0;
    hide Interface.RecvFrame;
    DatagramReceived(a1, a2, b1, d);
  }

  // ---- Requests -------------------------------------------------------------------------------

  /** The event makes the interface ask for the address of `hop`. */
  ghost predicate Asks(v: Interface, e: Event, hop: u32) {
    v.ArpRequest(hop) in NewFrames(v, e)
  }

  lemma ArpRequestInjective(v: Interface, hop: u32, hop': u32)
    requires v.ArpRequest(hop) == v.ArpRequest(hop')
    ensures hop == hop'
  {
  }

  /** In every state exactly a datagram for an unresolved hop makes the interface ask, if nothing waits for
      the hop or what waits has waited for five seconds. */
  lemma AsksExactly(v: Interface, e: Event, hop: u32)
    ensures Asks(v, e, hop) <==>
            && e.Send? && e.hop == hop && hop !in v.cache
            && (hop !in v.waiting || v.waiting[hop].age >= MAX_RETX_WAITING_TIME)
  {
    var f := v.ArpRequest(hop);
    match e
    case Send(d, h) =>
      if e.hop != hop { assert v.ArpRequest(h) != f; }
    case Recv(g) =>
      if v.AcceptsArp(g) {
        var m := g.payload.msg;
        var q := v.IpFrames(m.senderMac, v.Pending(m.senderIp));
        assert NewFrames(v, e) == q + if m.request && m.targetIp == v.ip then [v.ArpReply(m.senderMac, m.senderIp)] else [];
        if f in q { IpFramesForm(v, m.senderMac, v.Pending(m.senderIp), f); }
      }
    case Tick(ms) =>
  }

  /** The time since the interface last asked for the address of `hop`. */
  ghost function Asked(n: Interface, es: seq<Event>, hop: u32): Option<nat> {
    if es == [] then None
    else
      var e, front := es[|es| - 1], es[..|es| - 1];
      var before := Asked(n, front, hop);
      if Asks(Exec(n, front), e, hop) then Some(0)
      else if e.Tick? && before.Some? then Some(before.value + e.ms)
      else before
  }

  /** While a datagram is held the interface has asked since; when none is, it has been answered since it
      asked. */
  ghost predicate AskedSince(n: Interface, es: seq<Event>, hop: u32) {
    var a, h := Asked(n, es, hop), Held(n, es, hop);
    && (h.Some? ==> a.Some? && a.value <= h.value.age)
    && (a.Some? && h.None? ==> Heard(n, es, hop).Some? && Heard(n, es, hop).value.age <= a.value)
  }

  lemma {:induction false} AskedInv(n: Interface, es: seq<Event>, hop: u32)
    requires n.cache == map[] && n.waiting == map[]
    ensures AskedSince(n, es, hop)
    decreases |es|
  {
    if es != [] {
      var e, front := es[|es| - 1], es[..|es| - 1];
      AskedInv(n, front, hop);
      RunKeepsCacheExact(n, front);
      var v := Exec(n, front);
      AsksExactly(v, e, hop);
      assert es == front + [e];
      HeardStep(n, front, e, hop);
      HeldStep(n, front, e, hop);
      assert hop in v.cache <==> Recent(n, front, hop);
      assert hop in v.waiting <==> Held(n, front, hop).Some?;
      hide Exec, Heard, Held, Asks, CacheExact;
    }
  }

  /** The documented rule, not to ask twice in five seconds, is broken by a datagram exactly when another
      one has been held for five seconds and the interface has asked again since then. */
  lemma AsksTooSoon(n: Interface, es: seq<Event>, d: IPv4Datagram, hop: u32)
    requires n.cache == map[] && n.waiting == map[]
    ensures var a, h := Asked(n, es, hop), Held(n, es, hop);
            Asks(Exec(n, es), Send(d, hop), hop) && a.Some? && a.value < MAX_RETX_WAITING_TIME <==>
            h.Some? && h.value.age >= MAX_RETX_WAITING_TIME && a.Some? && a.value < MAX_RETX_WAITING_TIME
  {
    AskedInv(n, es, hop);
    RunKeepsCacheExact(n, es);
    var v := Exec(n, es);
    AsksExactly(v, Send(d, hop), hop);
    assert hop in v.cache <==> Recent(n, es, hop);
    assert hop in v.waiting <==> Held(n, es, hop).Some?;
    hide Exec, Heard, Held, Asks, Asked, CacheExact;
  }

  lemma ExecSnoc(n: Interface, es: seq<Event>, e: Event)
    ensures Exec(n, es + [e]) == Step(Exec(n, es), e)
  {
    assert (es + [e])[..|es|] == es;
  }

  lemma AfterWait(n: Interface, d: IPv4Datagram, hop: u32, ms: nat)
    requires n.cache == map[] && n.waiting == map[]
    ensures var v := n.SendDatagram(d, hop).Tick(ms);
            && v.cache == map[] && hop in v.waiting && v.waiting[hop].age == ms
            && v.framesOut == n.framesOut + [n.ArpRequest(hop)] && v.mac == n.mac && v.ip == n.ip
  {
  }

  lemma AsksAgain(v: Interface, d: IPv4Datagram, hop: u32)
    requires hop !in v.cache && hop in v.waiting && v.waiting[hop].age >= MAX_RETX_WAITING_TIME
    ensures v.SendDatagram(d, hop) == v.(framesOut := v.framesOut + [v.ArpRequest(hop)])
  {
  }

  /** And it is: by the third of three datagrams, five seconds after the first and at once after the second. */
  lemma AskedTwiceAtOnce(n: Interface, d: IPv4Datagram, hop: u32, ms: nat)
    requires n.cache == map[] && n.waiting == map[] && MAX_RETX_WAITING_TIME <= ms
    ensures var f := n.ArpRequest(hop);
            Exec(n, [] + [Send(d, hop)] + [Tick(ms)] + [Send(d, hop)] + [Send(d, hop)]).framesOut == n.framesOut + [f] + [f] + [f]
  {
    hide Exec, Interface.Tick, Interface.SendDatagram;
    ExecNone(n);
    ExecSnoc(n, [], Send(d, hop));
    ExecSnoc(n, [] + [Send(d, hop)], Tick(ms));
    ExecSnoc(n, [] + [Send(d, hop)] + [Tick(ms)], Send(d, hop));
    ExecSnoc(n, [] + [Send(d, hop)] + [Tick(ms)] + [Send(d, hop)], Send(d, hop));
    AfterWait(n, d, hop, ms);
    var v := n.SendDatagram(d, hop).Tick(ms);
    AsksAgain(v, d, hop);
    AsksAgain(v.(framesOut := v.framesOut + [v.ArpRequest(hop)]), d, hop);
  }

  lemma ExecNone(n: Interface)
    ensures Exec(n, []) == n
  {
  }

  // ---- The interface object -------------------------------------------------------------------

  class NetworkInterface {
    const ethernetAddress: Mac
    const ipAddress: u32
    var framesOut: seq<Frame>
    var cache: map<u32, Entry>
    var queueMap: map<u32, WaitList>

    ghost function Value(): Interface
      reads this
    {
      Interface(ethernetAddress, ipAddress, framesOut, cache, queueMap)
    }

    constructor (ethernetAddress: Mac, ipAddress: u32)
      ensures Value() == NewInterface(ethernetAddress, ipAddress)
    {
      this.ethernetAddress, this.ipAddress := ethernetAddress, ipAddress;
      framesOut, cache, queueMap := [], map[], map[];
    }

    method SendHelper(to: Mac, d: IPv4Datagram)
      modifies this`framesOut
      ensures framesOut == old(framesOut) + [Value().IpFrame(to, d)]
    {
      framesOut := framesOut + [Frame(to, ethernetAddress, true, Ip(d))];
    }

    method SendArpRequest(ip: u32)
      modifies this`framesOut
      ensures framesOut == old(framesOut) + [Value().ArpRequest(ip)]
    {
      framesOut := framesOut + [Frame(BROADCAST, ethernetAddress, false, Arp(ARPMessage(true, ethernetAddress, ipAddress, 0, ip)))];
    }

    method QueueHelper(ip: u32, d: IPv4Datagram)
      requires ip !in cache
      modifies this
      ensures Value() == old(Value()).SendDatagram(d, ip)
    {
      var sendArp := false;
      if ip in queueMap {
        var copy := queueMap[ip];
        copy := copy.(queue := copy.queue + [d]);
        sendArp := copy.age >= MAX_RETX_WAITING_TIME;
      } else {
        queueMap := queueMap[ip := WaitList(0, [d])];
        sendArp := true;
      }
      if sendArp {
        SendArpRequest(ip);
      }
    }

    method SendDatagram(d: IPv4Datagram, nextHop: u32)
      modifies this
      ensures Value() == old(Value()).SendDatagram(d, nextHop)
    {
      if nextHop in cache {
        SendHelper(cache[nextHop].mac, d);
      } else {
        QueueHelper(nextHop, d);
      }
    }

    method CacheMapping(ip: u32, mac: Mac)
      modifies this`cache
      ensures cache == old(cache)[ip := Entry(0, mac)]
    {
      if ip in cache {
        cache := cache[ip := cache[ip].(age := 0)];
        cache := cache[ip := cache[ip].(mac := mac)];
      } else {
        cache := cache[ip := Entry(0, mac)];
      }
    }

    method ClearWaitingList(ip: u32, mac: Mac)
      modifies this`framesOut, this`queueMap
      ensures queueMap == old(queueMap) - {ip}
      ensures framesOut == old(framesOut) + Value().IpFrames(mac, old(Value()).Pending(ip))
    {
      if ip in queueMap {
        ghost var goal := framesOut + Value().IpFrames(mac, queueMap[ip].queue);
        while queueMap[ip].queue != []
          invariant ip in queueMap && queueMap - {ip} == old(queueMap) - {ip}
          invariant framesOut + old(Value()).IpFrames(mac, queueMap[ip].queue) == goal
          decreases |queueMap[ip].queue|
        {
          var d := queueMap[ip].queue[0];
          ghost var q := queueMap[ip].queue;
          queueMap := queueMap[ip := queueMap[ip].(queue := queueMap[ip].queue[1..])];
          assert framesOut + ([Value().IpFrame(mac, d)] + old(Value()).IpFrames(mac, q[1..]))
              == framesOut + [Value().IpFrame(mac, d)] + old(Value()).IpFrames(mac, q[1..]);
          SendHelper(mac, d);
        }
        IpFramesSame(old(Value()), Value(), mac, old(queueMap[ip].queue));
      }
      queueMap := queueMap - {ip};
      if ip !in old(queueMap) {
        assert old(framesOut) + [] == old(framesOut);
      }
      IpFramesSame(old(Value()), Value(), mac, old(Value()).Pending(ip));
    }

    method RecvFrame(f: Frame) returns (ret: Option<IPv4Datagram>)
      modifies this
      ensures (Value(), ret) == old(Value()).RecvFrame(f)
    {
      if !(f.dst == ethernetAddress || f.dst == BROADCAST) {
        return None;
      }
      if f.isIp {
        return if f.payload.Ip? then Some(f.payload.d) else None;
      }
      if f.payload.Arp? {
        var m := f.payload.msg;
        CacheMapping(m.senderIp, m.senderMac);
        ClearWaitingList(m.senderIp, m.senderMac);
        IpFramesSame(old(Value()), Value(), m.senderMac, old(Value()).Pending(m.senderIp));
        if m.request && m.targetIp == ipAddress {
          framesOut := framesOut
            + [Frame(m.senderMac, ethernetAddress, false, Arp(ARPMessage(false, ethernetAddress, ipAddress, m.senderMac, m.senderIp)))];
        }
      }
      return None;
    }

    method AgeWaiting(ms: nat)
      modifies this`queueMap
      ensures queueMap == old(Value()).Tick(ms).waiting
    {
      var todo := queueMap.Keys;
      while todo != {}
        invariant todo <= queueMap.Keys == old(queueMap).Keys
        invariant forall h | h in queueMap ::
                    queueMap[h] == if h in todo then old(queueMap)[h]
                                   else old(queueMap)[h].(age := old(queueMap)[h].age + ms)
        decreases todo
      {
        var h :| h in todo;
        queueMap := queueMap[h := queueMap[h].(age := queueMap[h].age + ms)];
        todo := todo - {h};
      }
    }

    method AgeCache(ms: nat) returns (deleted: seq<u32>)
      modifies this`cache
      ensures cache == map h | h in old(cache) :: old(cache)[h].(age := old(cache)[h].age + ms)
      ensures forall h :: h in deleted <==> h in cache && cache[h].age >= MAX_CACHE_TIME
    {
      var todo := cache.Keys;
      deleted := [];
      while todo != {}
        invariant todo <= cache.Keys == old(cache).Keys
        invariant forall h | h in cache ::
                    cache[h] == if h in todo then old(cache)[h] else old(cache)[h].(age := old(cache)[h].age + ms)
        invariant forall h :: h in deleted <==> h in cache && h !in todo && cache[h].age >= MAX_CACHE_TIME
        decreases todo
      {
        var h :| h in todo;
        cache := cache[h := cache[h].(age := cache[h].age + ms)];
        if cache[h].age >= MAX_CACHE_TIME {
          deleted := deleted + [h];
        }
        todo := todo - {h};
      }
    }

    method Erase(deletedIps: seq<u32>)
      modifies this`cache
      ensures cache == old(cache) - set h | h in deletedIps
    {
      var deleted := deletedIps;
      ghost var done: set<u32> := {};
      while deleted != []
        invariant (set h | h in deletedIps) == done + set h | h in deleted
        invariant cache == old(cache) - done
        decreases |deleted|
      {
        var ip := deleted[0];
        assert deleted == [ip] + deleted[1..];
        deleted := deleted[1..];
        done := done + {ip};
        cache := cache - {ip};
      }
    }

    method Tick(ms: nat)
      modifies this
      ensures Value() == old(Value()).Tick(ms)
    {
      AgeWaiting(ms);
      var deletedIps := AgeCache(ms);
      Erase(deletedIps);
    }
  }

  lemma {:induction false} IpFramesSame(v: Interface, w: Interface, to: Mac, q: seq<IPv4Datagram>)
    requires v.mac == w.mac
    ensures v.IpFrames(to, q) == w.IpFrames(to, q)
  {
    if q != [] { IpFramesSame(v, w, to, q[1..]); }
  }
}
