/** The router: it moves packet buffers from the filters to the transmitters, to
    the web server, back to the receivers, or into the waiting pools, and on
    ARP replies out of the pools. */
module Router {
  import opened PacketPool
  import RT = RoutingTable
  import S = Subnets

  /** net_buff_desc_t: a buffer of the receive region of one interface. */
  datatype Desc = Desc(offset: nat, len: nat)

  datatype ArpState = Reachable | Pending | Unreachable

  datatype Reply = Reply(ip: Ip, state: ArpState)

  const BROADCAST_IP := Ip(0xFFFF_FFFF)
  const PROTO_TCP := 6
  const WEBSERVER_PORT := 80

  /** What the router looks at in a received packet. */
  datatype Header = Header(dstIp: Ip, dstMacBroadcast: bool, isIp: bool, ttl: nat, protocol: nat, dstPort: nat)

  /** The buffers in all places: in the filter queues (by interface and filter),
      the free queues of the receivers, the transmit queues, the web server queue
      and the waiting pools (by outgoing interface). */
  datatype Places = Places(filters: seq<seq<seq<Desc>>>, rxFree: seq<seq<Desc>>, txActive: seq<seq<Buff>>,
                           webserver: seq<Buff>, waiting: seq<seq<Queue>>)

  /* ---- Counting buffers ---- */

  function Tag(q: seq<Desc>, iface: nat): (b: seq<Buff>)
    ensures |b| == |q|
  {
    seq(|q|, i requires 0 <= i < |q| => Buff(q[i].offset, q[i].len, iface))
  }

  function Join(qs: seq<seq<Buff>>): multiset<Buff> {
    if qs == [] then multiset{} else multiset(qs[0]) + Join(qs[1..])
  }

  function TagAll(qs: seq<seq<Desc>>): (b: seq<seq<Buff>>)
    ensures |b| == |qs|
  {
    seq(|qs|, i requires 0 <= i < |qs| => Tag(qs[i], i))
  }

  function TagSame(qs: seq<seq<Desc>>, iface: nat): (b: seq<seq<Buff>>)
    ensures |b| == |qs|
  {
    seq(|qs|, i requires 0 <= i < |qs| => Tag(qs[i], iface))
  }

  function InFilters(fs: seq<seq<seq<Desc>>>, i: nat): multiset<Buff>
    requires i <= |fs|
    decreases |fs| - i
  {
    if i == |fs| then multiset{} else Join(TagSame(fs[i], i)) + InFilters(fs, i + 1)
  }

  function BuffsOf(w: seq<Queue>): (b: seq<seq<Buff>>)
    ensures |b| == |w|
  {
    seq(|w|, i requires 0 <= i < |w| => w[i].buffs)
  }

  function InPools(ws: seq<seq<Queue>>): multiset<Buff> {
    if ws == [] then multiset{} else Join(BuffsOf(ws[0])) + InPools(ws[1..])
  }

  /** Every buffer with the number of times it is found in any place. */
  function All(p: Places): multiset<Buff> {
    InFilters(p.filters, 0) + Routed(p)
  }

  /** The buffers that have left the filters. */
  function Routed(p: Places): multiset<Buff> {
    Join(TagAll(p.rxFree)) + (Join(p.txActive) + (multiset(p.webserver) + InPools(p.waiting)))
  }

  lemma Swap(a: multiset<Buff>, j: multiset<Buff>, x: multiset<Buff>, j': multiset<Buff>, y: multiset<Buff>)
    requires j + x == j' + y
    ensures (a + j) + x == (a + j') + y
  {
    assert (a + j) + x == a + (j + x);
    assert (a + j') + y == a + (j' + y);
  }

  lemma SwapFirst(a: multiset<Buff>, b: multiset<Buff>, j: multiset<Buff>)
    ensures (a + j) + b == (b + j) + a
  {
  }

  lemma {:induction false} JoinChange(qs: seq<seq<Buff>>, i: nat, q: seq<Buff>)
    requires i < |qs|
    ensures Join(qs[i := q]) + multiset(qs[i]) == Join(qs) + multiset(q)
  {
    if i > 0 {
      assert qs[i := q][1..] == qs[1..][i - 1 := q];
      JoinChange(qs[1..], i - 1, q);
      Swap(multiset(qs[0]), Join(qs[1..][i - 1 := q]), multiset(qs[i]), Join(qs[1..]), multiset(q));
    } else {
      assert qs[i := q][1..] == qs[1..];
      SwapFirst(multiset(q), multiset(qs[0]), Join(qs[1..]));
    }
  }

  lemma {:induction false} PoolsChange(ws: seq<seq<Queue>>, k: nat, w: seq<Queue>)
    requires k < |ws|
    ensures InPools(ws[k := w]) + Join(BuffsOf(ws[k])) == InPools(ws) + Join(BuffsOf(w))
  {
    if k > 0 {
      assert ws[k := w][1..] == ws[1..][k - 1 := w];
      PoolsChange(ws[1..], k - 1, w);
      Swap(Join(BuffsOf(ws[0])), InPools(ws[1..][k - 1 := w]), Join(BuffsOf(ws[k])), InPools(ws[1..]), Join(BuffsOf(w)));
    } else {
      assert ws[k := w][1..] == ws[1..];
      SwapFirst(Join(BuffsOf(w)), Join(BuffsOf(ws[0])), InPools(ws[1..]));
    }
  }

  lemma {:induction false} FiltersChange(fs: seq<seq<seq<Desc>>>, i: nat, k: nat, f: seq<seq<Desc>>)
    requires k <= i < |fs|
    ensures InFilters(fs[i := f], k) + Join(TagSame(fs[i], i)) == InFilters(fs, k) + Join(TagSame(f, i))
    decreases i - k
  {
    if k < i {
      FiltersChange(fs, i, k + 1, f);
      Swap(Join(TagSame(fs[k], k)), InFilters(fs[i := f], k + 1), Join(TagSame(fs[i], i)), InFilters(fs, k + 1), Join(TagSame(f, i)));
    } else {
      FiltersAbove(fs, i, i + 1, f);
      SwapFirst(Join(TagSame(f, i)), Join(TagSame(fs[i], i)), InFilters(fs, i + 1));
    }
  }

  lemma {:induction false} FiltersAbove(fs: seq<seq<seq<Desc>>>, i: nat, k: nat, f: seq<seq<Desc>>)
    requires i < k <= |fs|
    ensures InFilters(fs[i := f], k) == InFilters(fs, k)
    decreases |fs| - k
  {
    if k < |fs| {
      FiltersAbove(fs, i, k + 1, f);
    }
  }

  /* ---- Moves ---- */

  /** Take the first buffer of a filter queue. */
  function Taken(p: Places, i: nat, f: nat): Places
    requires i < |p.filters| && f < |p.filters[i]| && p.filters[i][f] != []
  {
    p.(filters := p.filters[i := p.filters[i][f := p.filters[i][f][1..]]])
  }

  function ToFree(p: Places, b: Buff): Places
    requires b.iface < |p.rxFree|
  {
    p.(rxFree := p.rxFree[b.iface := p.rxFree[b.iface] + [Desc(b.offset, b.len)]])
  }

  function ToTx(p: Places, b: Buff, k: nat): Places
    requires k < |p.txActive|
  {
    p.(txActive := p.txActive[k := p.txActive[k] + [b]])
  }

  function ToWeb(p: Places, b: Buff): Places {
    p.(webserver := p.webserver + [b])
  }

  /** Wait for the address: behind the packets already waiting for it, if any. */
  function ToWait(p: Places, b: Buff, k: nat, ip: Ip): Places
    requires k < |p.waiting|
  {
    p.(waiting := p.waiting[k := Enqueued(p.waiting[k], b, ip)])
  }

  function Enqueued(w: seq<Queue>, b: Buff, ip: Ip): seq<Queue> {
    var i := FirstFor(w, ip);
    if i < |w| then w[i := Queue(w[i].ip, w[i].buffs + [b])] else [Queue(ip, [b])] + w
  }

  /** The first queue for an address, |w| when there is none. */
  function FirstFor(w: seq<Queue>, ip: Ip): (i: nat)
    ensures i <= |w| && (i < |w| ==> w[i].ip == ip)
  {
    if w == [] || w[0].ip == ip then 0 else FirstFor(w[1..], ip) + 1
  }

  lemma {:induction false} FirstForIs(w: seq<Queue>, ip: Ip, i: nat)
    requires i <= |w| && (forall k :: 0 <= k < i ==> w[k].ip != ip) && (i < |w| ==> w[i].ip == ip)
    ensures FirstFor(w, ip) == i
  {
    if i > 0 {
      forall k | 0 <= k < i - 1 ensures w[1..][k].ip != ip { assert w[1..][k] == w[k + 1]; }
      FirstForIs(w[1..], ip, i - 1);
    }
  }

  /* ---- Moves keep all buffers ---- */

  lemma TagRest(q: seq<Desc>, iface: nat)
    requires q != []
    ensures multiset(Tag(q, iface)) == multiset{Buff(q[0].offset, q[0].len, iface)} + multiset(Tag(q[1..], iface))
  {
    assert Tag(q, iface) == [Buff(q[0].offset, q[0].len, iface)] + Tag(q[1..], iface);
  }

  lemma TagUpdate(fs: seq<seq<Desc>>, iface: nat, f: nat, q: seq<Desc>)
    requires f < |fs|
    ensures TagSame(fs[f := q], iface) == TagSame(fs, iface)[f := Tag(q, iface)]
  {
  }

  lemma FilterLoses(fs: seq<seq<seq<Desc>>>, i: nat, f: nat)
    requires i < |fs| && f < |fs[i]| && fs[i][f] != []
    ensures var q := fs[i][f];
            InFilters(fs[i := fs[i][f := q[1..]]], 0) + multiset{Buff(q[0].offset, q[0].len, i)} == InFilters(fs, 0)
  {
    var q, f' := fs[i][f], fs[i][f := fs[i][f][1..]];
    FiltersChange(fs, i, 0, f');
    JoinChange(TagSame(fs[i], i), f, Tag(q[1..], i));
    TagUpdate(fs[i], i, f, q[1..]);
    TagRest(q, i);
    hide InFilters, Join;
    Cancel(InFilters(fs, 0), InFilters(fs[i := f'], 0), Join(TagSame(fs[i], i)), Join(TagSame(f', i)),
           multiset(Tag(q, i)), multiset(Tag(q[1..], i)), multiset{Buff(q[0].offset, q[0].len, i)});
  }

  lemma TakenLoses(p: Places, i: nat, f: nat)
    requires i < |p.filters| && f < |p.filters[i]| && p.filters[i][f] != []
    ensures var d := p.filters[i][f][0];
            All(Taken(p, i, f)) + multiset{Buff(d.offset, d.len, i)} == All(p)
  {
    var d := p.filters[i][f][0];
    FilterLoses(p.filters, i, f);
    hide InFilters, Join, InPools;
    Regroup(InFilters(Taken(p, i, f).filters, 0), multiset{Buff(d.offset, d.len, i)}, Routed(p));
  }

  lemma Regroup(a: multiset<Buff>, b: multiset<Buff>, r: multiset<Buff>)
    ensures (a + r) + b == (a + b) + r && (a + r) + b == a + (r + b)
  {
  }

  /** Appending a buffer to one of several queues. */
  lemma JoinAppend(qs: seq<seq<Buff>>, k: nat, b: Buff)
    requires k < |qs|
    ensures Join(qs[k := qs[k] + [b]]) == Join(qs) + multiset{b}
  {
    JoinChange(qs, k, qs[k] + [b]);
    assert multiset(qs[k] + [b]) == multiset(qs[k]) + multiset{b};
    Drop(Join(qs[k := qs[k] + [b]]), Join(qs) + multiset{b}, multiset(qs[k]));
  }

  lemma Drop(a: multiset<Buff>, b: multiset<Buff>, c: multiset<Buff>)
    requires a + c == b + c
    ensures a == b
  {
    forall e ensures a[e] == b[e] { assert (a + c)[e] == (b + c)[e]; }
  }

  lemma ToFreeGains(p: Places, b: Buff)
    requires b.iface < |p.rxFree|
    ensures Routed(ToFree(p, b)) == Routed(p) + multiset{b}
  {
    var q := p.rxFree[b.iface] + [Desc(b.offset, b.len)];
    assert Tag(q, b.iface) == Tag(p.rxFree[b.iface], b.iface) + [b];
    assert TagAll(p.rxFree[b.iface := q]) == TagAll(p.rxFree)[b.iface := TagAll(p.rxFree)[b.iface] + [b]];
    JoinAppend(TagAll(p.rxFree), b.iface, b);
    hide Join, InPools, TagAll;
    Regroup(Join(TagAll(p.rxFree)), multiset{b}, Join(p.txActive) + (multiset(p.webserver) + InPools(p.waiting)));
  }

  lemma ToTxGains(p: Places, b: Buff, k: nat)
    requires k < |p.txActive|
    ensures Routed(ToTx(p, b, k)) == Routed(p) + multiset{b}
  {
    JoinAppend(p.txActive, k, b);
    hide Join, InPools, TagAll;
    Regroup(Join(p.txActive), multiset{b}, multiset(p.webserver) + InPools(p.waiting));
    Regroup(Join(TagAll(p.rxFree)), multiset{b}, Join(p.txActive) + (multiset(p.webserver) + InPools(p.waiting)));
  }

  lemma ToWebGains(p: Places, b: Buff)
    ensures Routed(ToWeb(p, b)) == Routed(p) + multiset{b}
  {
    assert multiset(p.webserver + [b]) == multiset(p.webserver) + multiset{b};
    hide Join, InPools, TagAll;
    Regroup(multiset(p.webserver), multiset{b}, InPools(p.waiting));
    Regroup(Join(p.txActive), multiset{b}, multiset(p.webserver) + InPools(p.waiting));
    Regroup(Join(TagAll(p.rxFree)), multiset{b}, Join(p.txActive) + (multiset(p.webserver) + InPools(p.waiting)));
  }

  lemma EnqueuedGains(w: seq<Queue>, b: Buff, ip: Ip)
    ensures Join(BuffsOf(Enqueued(w, b, ip))) == Join(BuffsOf(w)) + multiset{b}
  {
    var i := FirstFor(w, ip);
    if i < |w| {
      assert BuffsOf(Enqueued(w, b, ip)) == BuffsOf(w)[i := BuffsOf(w)[i] + [b]];
      JoinAppend(BuffsOf(w), i, b);
    } else {
      assert BuffsOf(Enqueued(w, b, ip))[1..] == BuffsOf(w);
    }
  }

  lemma ToWaitGains(p: Places, b: Buff, k: nat, ip: Ip)
    requires k < |p.waiting|
    ensures Routed(ToWait(p, b, k, ip)) == Routed(p) + multiset{b}
  {
    var w' := Enqueued(p.waiting[k], b, ip);
    EnqueuedGains(p.waiting[k], b, ip);
    PoolsChange(p.waiting, k, w');
    hide Join, InPools, TagAll, Enqueued;
    Drop2(InPools(p.waiting[k := w']), InPools(p.waiting), Join(BuffsOf(p.waiting[k])), multiset{b});
    Regroup(multiset(p.webserver), multiset{b}, InPools(p.waiting));
    Regroup(Join(p.txActive), multiset{b}, multiset(p.webserver) + InPools(p.waiting));
    Regroup(Join(TagAll(p.rxFree)), multiset{b}, Join(p.txActive) + (multiset(p.webserver) + InPools(p.waiting)));
  }

  lemma Drop2(a': multiset<Buff>, a: multiset<Buff>, c: multiset<Buff>, b: multiset<Buff>)
    requires a' + c == a + (c + b)
    ensures a' == a + b
  {
    forall e ensures a'[e] == (a + b)[e] { assert (a' + c)[e] == (a + (c + b))[e]; }
  }

  lemma Cancel(a: multiset<Buff>, a': multiset<Buff>, j: multiset<Buff>, j': multiset<Buff>, m: multiset<Buff>, m': multiset<Buff>, b: multiset<Buff>)
    requires a' + j == a + j' && j' + m == j + m' && m == b + m'
    ensures a' + b == a
  {
    forall e
      ensures (a' + b)[e] == a[e]
    {
      assert (a' + j)[e] == (a + j')[e] && (j' + m)[e] == (j + m')[e];
    }
  }

  /** How often a buffer is found in each of the five kinds of place. */
  function Counts(p: Places, b: Buff): seq<nat> {
    [InFilters(p.filters, 0)[b], Join(TagAll(p.rxFree))[b], Join(p.txActive)[b], multiset(p.webserver)[b], InPools(p.waiting)[b]]
  }

  ghost predicate ExactlyOne(c: seq<nat>) {
    exists i :: 0 <= i < |c| && c[i] == 1 && forall j :: 0 <= j < |c| && j != i ==> c[j] == 0
  }

  /** A buffer that exists once is in exactly one of the places. */
  lemma OnePlace(p: Places, b: Buff)
    requires All(p)[b] == 1
    ensures ExactlyOne(Counts(p, b))
  {
    var c := Counts(p, b);
    hide InFilters, Join, InPools;
    assert c[0] + c[1] + c[2] + c[3] + c[4] == 1;
    hide *;
    OneOfFive(c);
  }

  lemma OneOfFive(c: seq<nat>)
    requires |c| == 5 && c[0] + c[1] + c[2] + c[3] + c[4] == 1
    ensures ExactlyOne(c)
  {
    var i := if c[0] == 1 then 0 else if c[1] == 1 then 1 else if c[2] == 1 then 2 else if c[3] == 1 then 3 else 4;
    assert c[i] == 1;
  }

  /* ---- ARP replies ---- */

  /** All these buffers came from existing interfaces. */
  ghost predicate AllFrom(bs: seq<Buff>, n: nat) {
    forall b :: b in bs ==> b.iface < n
  }

  /** Back to the free queues of the interfaces they came from. */
  ghost function ToFreeAll(p: Places, bs: seq<Buff>): (r: Places)
    requires AllFrom(bs, |p.rxFree|)
    ensures |r.rxFree| == |p.rxFree|
  {
    if bs == [] then p else ToFree(ToFreeAll(p, bs[..|bs| - 1]), bs[|bs| - 1])
  }

  function ToTxAll(p: Places, bs: seq<Buff>, k: nat): Places
    requires k < |p.txActive|
  {
    p.(txActive := p.txActive[k := p.txActive[k] + bs])
  }

  /** All waiting buffers came from existing interfaces. */
  ghost predicate FromIfaces(w: seq<Queue>, n: nat) {
    forall i :: 0 <= i < |w| ==> AllFrom(w[i].buffs, n)
  }

  /** One ARP reply: the packets waiting for the address leave the pool, out of
      the interface or, when the address cannot be reached, back home. */
  ghost function Answered(p: Places, k: nat, r: Reply): Places
    requires k < |p.waiting| && k < |p.txActive| && FromIfaces(p.waiting[k], |p.rxFree|)
  {
    var w := p.waiting[k];
    var i := FirstFor(w, r.ip);
    if i == |w| then p else
      var p1 := p.(waiting := p.waiting[k := Without(w, i)]);
      if r.state == Unreachable then ToFreeAll(p1, w[i].buffs) else ToTxAll(p1, w[i].buffs, k)
  }

  lemma {:induction false} ToFreeAllGains(p: Places, bs: seq<Buff>)
    requires AllFrom(bs, |p.rxFree|)
    ensures Routed(ToFreeAll(p, bs)) == Routed(p) + multiset(bs)
    ensures ToFreeAll(p, bs).filters == p.filters && ToFreeAll(p, bs).waiting == p.waiting && ToFreeAll(p, bs).txActive == p.txActive
    ensures ToFreeAll(p, bs).webserver == p.webserver && |ToFreeAll(p, bs).rxFree| == |p.rxFree|
  {
    if bs != [] {
      var m := |bs| - 1;
      ToFreeAllGains(p, bs[..m]);
      ToFreeGains(ToFreeAll(p, bs[..m]), bs[m]);
      assert bs == bs[..m] + [bs[m]];
      hide Routed;
    }
  }

  lemma ToTxAllGains(p: Places, bs: seq<Buff>, k: nat)
    requires k < |p.txActive|
    ensures Routed(ToTxAll(p, bs, k)) == Routed(p) + multiset(bs)
  {
    JoinChange(p.txActive, k, p.txActive[k] + bs);
    assert multiset(p.txActive[k] + bs) == multiset(p.txActive[k]) + multiset(bs);
    Drop(Join(p.txActive[k := p.txActive[k] + bs]), Join(p.txActive) + multiset(bs), multiset(p.txActive[k]));
    hide Join, InPools, TagAll;
    Regroup(Join(p.txActive), multiset(bs), multiset(p.webserver) + InPools(p.waiting));
    Regroup(Join(TagAll(p.rxFree)), multiset(bs), Join(p.txActive) + (multiset(p.webserver) + InPools(p.waiting)));
  }

  lemma {:induction false} JoinWithout(qs: seq<seq<Buff>>, i: nat)
    requires i < |qs|
    ensures Join(Without(qs, i)) + multiset(qs[i]) == Join(qs)
  {
    var r := Without(qs, i);
    if i == 0 {
      assert r == qs[1..];
    } else {
      assert r[1..] == Without(qs[1..], i - 1) && r[0] == qs[0];
      JoinWithout(qs[1..], i - 1);
    }
  }

  lemma WaitingLoses(p: Places, k: nat, i: nat)
    requires k < |p.waiting| && i < |p.waiting[k]|
    ensures var p1 := p.(waiting := p.waiting[k := Without(p.waiting[k], i)]);
            Routed(p1) + multiset(p.waiting[k][i].buffs) == Routed(p)
  {
    var w, m := p.waiting[k], multiset(p.waiting[k][i].buffs);
    var w' := Without(w, i);
    PoolsChange(p.waiting, k, w');
    assert BuffsOf(w') == Without(BuffsOf(w), i);
    JoinWithout(BuffsOf(w), i);
    hide Join, InPools, TagAll;
    Lost(InPools(p.waiting[k := w']), InPools(p.waiting), Join(BuffsOf(w)), Join(BuffsOf(w')), m);
    Regroup(multiset(p.webserver), m, InPools(p.waiting[k := w']));
    Regroup(Join(p.txActive), m, multiset(p.webserver) + InPools(p.waiting[k := w']));
    Regroup(Join(TagAll(p.rxFree)), m, Join(p.txActive) + (multiset(p.webserver) + InPools(p.waiting[k := w'])));
  }

  lemma Lost(a': multiset<Buff>, a: multiset<Buff>, c: multiset<Buff>, c': multiset<Buff>, m: multiset<Buff>)
    requires a' + c == a + c' && c' + m == c
    ensures a' + m == a
  {
    forall e ensures (a' + m)[e] == a[e] { assert (a' + c)[e] == (a + c')[e] && (c' + m)[e] == c[e]; }
  }

  /** An ARP reply neither loses nor duplicates a buffer. */
  lemma AnsweredKeeps(p: Places, k: nat, r: Reply)
    requires k < |p.waiting| && k < |p.txActive| && FromIfaces(p.waiting[k], |p.rxFree|)
    ensures All(Answered(p, k, r)) == All(p)
  {
    var w := p.waiting[k];
    var i := FirstFor(w, r.ip);
    if i < |w| {
      var p1 := p.(waiting := p.waiting[k := Without(w, i)]);
      WaitingLoses(p, k, i);
      hide Routed, InFilters;
      if r.state == Unreachable { ToFreeAllGains(p1, w[i].buffs); } else { ToTxAllGains(p1, w[i].buffs, k); }
    }
  }

  /* ---- The router ---- */

  /** Traffic that is never routed: broadcast, multicast and anything but IP. */
  predicate Refused(h: Header) {
    h.dstIp == BROADCAST_IP || h.dstMacBroadcast || h.dstIp.bits & 0xF000_0000 == 0xE000_0000 || !h.isIp
  }

  /** What becomes of a packet. */
  datatype Verdict = Home | Web | Out(iface: nat) | Await(iface: nat, hop: Ip)

  /** The verdict on a packet for the address hop beyond interface k, by the state of
      that address in the ARP table (None where it has no entry). */
  function ArpVerdict(arp: Option<ArpState>, poolFull: bool, reqFull: bool, k: nat, hop: Ip): Verdict {
    match arp
    case Some(Reachable) => Out(k)
    case Some(Unreachable) => Home
    case Some(Pending) => if poolFull then Home else Await(k, hop)
    case None => if poolFull || reqFull then Home else Await(k, hop)
  }

  /** Of a network's addresses the one with all host bits set. */
  predicate SubnetBroadcast(hop: Ip, subnet: nat, dst: Ip) {
    subnet <= 32 && S.BroadcastOf(hop.bits, subnet) == dst.bits
  }

  /* ---- What routing is for, in terms of headers, routes and ARP entries ---- */

  /** What the router depends on and does not change while it routes: the addresses of
      its interfaces, the ARP tables, the routes, the sizes of the waiting pools and of
      the ARP request queues. */
  datatype Setting = Setting(ips: seq<Ip>, arps: seq<map<Ip, ArpState>>, routes: set<RT.Route>, rooms: seq<nat>, reqRoom: nat)

  /** What it changes besides the places of buffers. */
  datatype Course = Course(waiting: seq<seq<Queue>>, reqs: seq<seq<Ip>>, headers: map<(nat, nat), Header>)

  /** The header of a received packet. */
  function HeaderIn(headers: map<(nat, nat), Header>, iface: nat, offset: nat): Header {
    if (iface, offset) in headers then headers[(iface, offset)] else Header(Ip(0), false, false, 0, 0, 0)
  }

  /** A buffer that has been routed, its header at that time, and what became of it. */
  datatype Dispatch = Dispatch(b: Buff, h: Header, v: Verdict)

  /** Multicast addresses begin with the bits 1110. */
  predicate Multicast(ip: Ip) {
    S.Bit(ip.bits, 31) && S.Bit(ip.bits, 30) && S.Bit(ip.bits, 29) && !S.Bit(ip.bits, 28)
  }

  predicate Unroutable(h: Header) {
    h.dstIp.bits == 0xFFFF_FFFF || h.dstMacBroadcast || Multicast(h.dstIp) || !h.isIp
  }

  /** TCP traffic for port 80 of the interface's own address. */
  predicate ForWebserver(h: Header, own: Ip) {
    !Unroutable(h) && h.dstIp == own && h.protocol == 6 && h.dstPort == 80
  }

  /** Traffic for others, with hops left. */
  predicate Transit(h: Header, own: Ip) {
    !Unroutable(h) && h.dstIp != own && h.ttl >= 2
  }

  /** The routes lead from dst over interface k to hop, which is not the router itself,
      and dst is not the broadcast address of its subnet. */
  ghost predicate NextHop(e: Setting, dst: Ip, k: nat, hop: Ip) {
    var v := RT.Resolve(e.routes, dst.bits, 3);
    && v.Via? && v.hop == hop.bits && v.route.interface == k < |e.ips|
    && hop.bits != 0 && hop != e.ips[k] && !S.IsBroadcast(hop.bits, v.route.subnet, dst.bits)
  }

  ghost predicate PoolFull(e: Setting, s: Course, k: nat)
    requires k < |e.rooms| && k < |s.waiting|
  {
    Packets(s.waiting[k]) >= e.rooms[k]
  }

  ghost predicate Fitting(e: Setting, s: Course) {
    |e.arps| == |e.rooms| == |s.waiting| == |s.reqs| == |e.ips|
  }

  /** It is right that a packet with header h that came in on interface i meets v. */
  ghost predicate Justified(e: Setting, s: Course, h: Header, i: nat, v: Verdict)
    requires Fitting(e, s) && i < |e.ips|
  {
    match v
    case Web => ForWebserver(h, e.ips[i])
    case Out(k) =>
      Transit(h, e.ips[i]) && exists hop :: NextHop(e, h.dstIp, k, hop) && hop in e.arps[k] && e.arps[k][hop] == Reachable
    case Await(k, hop) =>
      && Transit(h, e.ips[i]) && NextHop(e, h.dstIp, k, hop) && !PoolFull(e, s, k)
      && if hop in e.arps[k] then e.arps[k][hop] == Pending else |s.reqs[k]| < e.reqRoom
    case Home =>
      && !ForWebserver(h, e.ips[i])
      && (Transit(h, e.ips[i]) ==> forall k: nat, hop :: NextHop(e, h.dstIp, k, hop) ==>
            if hop in e.arps[k] then e.arps[k][hop] == Unreachable || (e.arps[k][hop] == Pending && PoolFull(e, s, k))
            else PoolFull(e, s, k) || |s.reqs[k]| >= e.reqRoom)
  }

  /** There is one right way for a packet. */
  lemma JustifiedOnce(e: Setting, s: Course, h: Header, i: nat, v: Verdict, w: Verdict)
    requires Fitting(e, s) && i < |e.ips| && Justified(e, s, h, i, v) && Justified(e, s, h, i, w)
    ensures v == w
  {
    forall k: nat, hop, k': nat, hop' | NextHop(e, h.dstIp, k, hop) && NextHop(e, h.dstIp, k', hop')
      ensures k == k' && hop == hop'
    {
      OneHop(e, h.dstIp, k, hop, k', hop');
    }
    hide NextHop, ForWebserver, Transit, PoolFull;
    WebOrTransit(h, e.ips[i]);
  }

  lemma OneHop(e: Setting, dst: Ip, k: nat, hop: Ip, k': nat, hop': Ip)
    requires NextHop(e, dst, k, hop) && NextHop(e, dst, k', hop')
    ensures k == k' && hop == hop'
  {
    assert hop == Ip(hop.bits) && hop' == Ip(hop'.bits);
    hide RT.Resolve, S.IsBroadcast;
  }

  lemma WebOrTransit(h: Header, own: Ip)
    ensures !(ForWebserver(h, own) && Transit(h, own))
  {
  }

  /** The next packet: it waits or not, an ARP request is made or not, and its time to
      live goes down or not. */
  ghost function Step(ips: seq<Ip>, s: Course, d: Dispatch): Course {
    Course(if d.v.Await? && d.v.iface < |s.waiting| then s.waiting[d.v.iface := Enqueued(s.waiting[d.v.iface], d.b, d.v.hop)] else s.waiting,
           Requested(s.reqs, s.waiting, d.v),
           if d.b.iface < |ips| && Transit(d.h, ips[d.b.iface]) then s.headers[(d.b.iface, d.b.offset) := d.h.(ttl := d.h.ttl - 1)] else s.headers)
  }

  /** The first packet that waits for an address causes a request for it. */
  ghost function Requested(reqs: seq<seq<Ip>>, waiting: seq<seq<Queue>>, v: Verdict): seq<seq<Ip>> {
    if v.Await? && v.iface < |reqs| && v.iface < |waiting| && (forall q :: q in waiting[v.iface] ==> q.ip != v.hop)
    then reqs[v.iface := reqs[v.iface] + [v.hop]] else reqs
  }

  ghost function After(ips: seq<Ip>, s: Course, log: seq<Dispatch>): Course {
    if log == [] then s else Step(ips, After(ips, s, log[..|log| - 1]), log[|log| - 1])
  }

  lemma RefusedIs(h: Header)
    ensures Refused(h) <==> Unroutable(h)
  {
    S.MulticastBits(h.dstIp.bits);
    assert h.dstIp == Ip(h.dstIp.bits);
    hide S.Bit;
  }

  lemma NoQueue(w: seq<Queue>, ip: Ip)
    ensures FirstFor(w, ip) == |w| <==> forall q :: q in w ==> q.ip != ip
  {
    NotFound(w, ip);
    if FirstFor(w, ip) < |w| { assert w[FirstFor(w, ip)] in w; }
  }

  /** The next hop of the specification and the one the code comes to. */
  lemma HopIs(e: Setting, dst: Ip, v: RT.Resolution, k: nat, hop: Ip)
    requires v == RT.Resolve(e.routes, dst.bits, RT.MAX_RECURSION) && (v.Via? ==> v.route.subnet <= 32 && v.route.interface < |e.ips|)
    ensures NextHop(e, dst, k, hop) <==>
              v.Via? && k == v.route.interface && hop == Ip(v.hop) && hop.bits != RT.NO_NEXT_HOP && hop != e.ips[k]
              && !SubnetBroadcast(hop, v.route.subnet, dst)
  {
    if v.Via? { BroadcastIs(hop, v.route.subnet, dst); }
    hide RT.Resolve, S.IsBroadcast, SubnetBroadcast;
    assert hop == Ip(hop.bits);
  }

  lemma BroadcastIs(hop: Ip, n: nat, dst: Ip)
    requires n <= 32
    ensures SubnetBroadcast(hop, n, dst) <==> S.IsBroadcast(hop.bits, n, dst.bits)
  {
    S.BroadcastBits(hop.bits, n, dst.bits);
    hide S.IsBroadcast, S.BroadcastOf;
  }

  function Find(arps: map<Ip, ArpState>, hop: Ip): Option<ArpState> {
    if hop in arps then Some(arps[hop]) else None
  }

  lemma JustifiedNext(e: Setting, s: Course, h: Header, i: nat, v: RT.Resolution, verdict: Verdict)
    requires Fitting(e, s) && i < |e.ips| && Transit(h, e.ips[i])
    requires v == RT.Resolve(e.routes, h.dstIp.bits, RT.MAX_RECURSION) && (v.Via? ==> v.route.subnet <= 32 && v.route.interface < |e.ips|)
    requires verdict == if v.Unreachable? || v.hop == RT.NO_NEXT_HOP || Ip(v.hop) == e.ips[v.route.interface] || SubnetBroadcast(Ip(v.hop), v.route.subnet, h.dstIp)
                        then Home
                        else var k := v.route.interface;
                             ArpVerdict(Find(e.arps[k], Ip(v.hop)), PoolFull(e, s, k), |s.reqs[k]| >= e.reqRoom, k, Ip(v.hop))
    ensures Justified(e, s, h, i, verdict)
  {
    forall k: nat, hop
      ensures NextHop(e, h.dstIp, k, hop) <==>
                v.Via? && k == v.route.interface && hop == Ip(v.hop) && hop.bits != RT.NO_NEXT_HOP && hop != e.ips[k]
                && !SubnetBroadcast(hop, v.route.subnet, h.dstIp)
    {
      HopIs(e, h.dstIp, v, k, hop);
    }
    WebOrTransit(h, e.ips[i]);
    hide NextHop, PoolFull, ForWebserver, Transit, RT.Resolve, SubnetBroadcast;
  }

  /* ---- A whole run of the router ---- */

  /** The packets of filter queues, in the order in which they are routed. */
  function FlowOf(qs: seq<seq<Desc>>, i: nat): seq<Buff> {
    if qs == [] then [] else Tag(qs[0], i) + FlowOf(qs[1..], i)
  }

  function Flow(fs: seq<seq<seq<Desc>>>, i: nat): seq<Buff>
    requires i <= |fs|
    decreases |fs| - i
  {
    if i == |fs| then [] else FlowOf(fs[i], i) + Flow(fs, i + 1)
  }

  function LogBuffs(log: seq<Dispatch>): (b: seq<Buff>)
    ensures |b| == |log|
  {
    seq(|log|, j requires 0 <= j < |log| => log[j].b)
  }

  /** The buffers that have met v. */
  function Of(log: seq<Dispatch>, v: Verdict): seq<Buff> {
    if log == [] then [] else
      var d := log[|log| - 1];
      Of(log[..|log| - 1], v) + if d.v == v then [d.b] else []
  }

  /** Those that go back to interface i. */
  function Returned(log: seq<Dispatch>, i: nat): seq<Desc> {
    if log == [] then [] else
      var d := log[|log| - 1];
      Returned(log[..|log| - 1], i) + if d.v == Home && d.b.iface == i then [Desc(d.b.offset, d.b.len)] else []
  }

  /** Packet j of the log was treated right at its time. */
  ghost predicate RightAt(e: Setting, s0: Course, log: seq<Dispatch>, j: nat) {
    j < |log| && var s, d := After(e.ips, s0, log[..j]), log[j];
    && Fitting(e, s) && d.b.iface < |e.ips| && d.h == HeaderIn(s.headers, d.b.iface, d.b.offset)
    && Justified(e, s, d.h, d.b.iface, d.v)
  }

  ghost predicate AllRight(e: Setting, s0: Course, log: seq<Dispatch>) {
    forall j :: 0 <= j < |log| ==> RightAt(e, s0, log, j)
  }

  /** The packets of the log are where it says, behind what was there before, in their
      order; the log and the filter queues make up what was in the filter queues. */
  ghost predicate Gathered(p0: Places, log: seq<Dispatch>, p: Places) {
    && p.webserver == p0.webserver + Of(log, Web)
    && |p.txActive| == |p0.txActive| && (forall k :: 0 <= k < |p.txActive| ==> p.txActive[k] == p0.txActive[k] + Of(log, Out(k)))
    && |p.rxFree| == |p0.rxFree| && (forall i :: 0 <= i < |p.rxFree| ==> p.rxFree[i] == p0.rxFree[i] + Returned(log, i))
    && LogBuffs(log) + Flow(p.filters, 0) == Flow(p0.filters, 0)
  }

  ghost predicate Logged(e: Setting, p0: Places, s0: Course, log: seq<Dispatch>, p: Places, s: Course) {
    s == After(e.ips, s0, log) && p.waiting == s.waiting && AllRight(e, s0, log) && Gathered(p0, log, p)
  }

  lemma LogStart(e: Setting, p: Places, s: Course)
    requires p.waiting == s.waiting
    ensures Logged(e, p, s, [], p, s)
  {
    assert forall k :: 0 <= k < |p.txActive| ==> p.txActive[k] + [] == p.txActive[k];
    assert forall i :: 0 <= i < |p.rxFree| ==> p.rxFree[i] + [] == p.rxFree[i];
    assert p.webserver + [] == p.webserver;
  }

  ghost predicate EmptyBefore(fs: seq<seq<seq<Desc>>>, i: nat, f: nat) {
    && i < |fs| && (forall a, b :: 0 <= a < i && 0 <= b < |fs[a]| ==> fs[a][b] == [])
    && (forall b :: 0 <= b < f && b < |fs[i]| ==> fs[i][b] == [])
  }

  lemma {:induction false} FlowOfTakes(qs: seq<seq<Desc>>, i: nat, f: nat)
    requires f < |qs| && qs[f] != [] && forall b :: 0 <= b < f ==> qs[b] == []
    ensures FlowOf(qs, i) == [Buff(qs[f][0].offset, qs[f][0].len, i)] + FlowOf(qs[f := qs[f][1..]], i)
  {
    var qs' := qs[f := qs[f][1..]];
    if f == 0 {
      assert Tag(qs[0], i) == [Buff(qs[0][0].offset, qs[0][0].len, i)] + Tag(qs'[0], i);
      assert qs'[1..] == qs[1..];
    } else {
      FlowOfTakes(qs[1..], i, f - 1);
      assert qs'[1..] == qs[1..][f - 1 := qs[1..][f - 1][1..]];
      assert Tag(qs[0], i) == [] && Tag(qs'[0], i) == [];
    }
  }

  lemma {:induction false} FlowOfNone(qs: seq<seq<Desc>>, i: nat)
    requires forall b :: 0 <= b < |qs| ==> qs[b] == []
    ensures FlowOf(qs, i) == []
  {
    if qs != [] {
      FlowOfNone(qs[1..], i);
    }
  }

  lemma {:induction false} FlowAbove(fs: seq<seq<seq<Desc>>>, i: nat, k: nat, f: seq<seq<Desc>>)
    requires i < k <= |fs|
    ensures Flow(fs[i := f], k) == Flow(fs, k)
    decreases |fs| - k
  {
    hide FlowOf;
    if k < |fs| {
      FlowAbove(fs, i, k + 1, f);
    }
  }

  lemma {:induction false} FlowTakes(fs: seq<seq<seq<Desc>>>, k: nat, i: nat, f: nat)
    requires k <= i && EmptyBefore(fs, i, f) && f < |fs[i]| && fs[i][f] != []
    ensures Flow(fs, k) == [Buff(fs[i][f][0].offset, fs[i][f][0].len, i)] + Flow(fs[i := fs[i][f := fs[i][f][1..]]], k)
    decreases i - k
  {
    hide FlowOf;
    var fs' := fs[i := fs[i][f := fs[i][f][1..]]];
    if k < i {
      FlowOfNone(fs[k], k);
      FlowTakes(fs, k + 1, i, f);
    } else {
      FlowOfTakes(fs[i], i, f);
      FlowAbove(fs, i, i + 1, fs'[i]);
    }
  }

  lemma {:induction false} FlowNone(fs: seq<seq<seq<Desc>>>, k: nat)
    requires k <= |fs| && forall a, b :: 0 <= a < |fs| && 0 <= b < |fs[a]| ==> fs[a][b] == []
    ensures Flow(fs, k) == []
    decreases |fs| - k
  {
    if k < |fs| {
      FlowOfNone(fs[k], k);
      FlowNone(fs, k + 1);
    }
  }

  lemma OfStep(log: seq<Dispatch>, d: Dispatch, v: Verdict, i: nat)
    ensures Of(log + [d], v) == Of(log, v) + if d.v == v then [d.b] else []
    ensures Returned(log + [d], i) == Returned(log, i) + if d.v == Home && d.b.iface == i then [Desc(d.b.offset, d.b.len)] else []
    ensures LogBuffs(log + [d]) == LogBuffs(log) + [d.b]
  {
    assert (log + [d])[..|log + [d]| - 1] == log;
  }

  lemma AfterStep(ips: seq<Ip>, s0: Course, log: seq<Dispatch>, d: Dispatch)
    ensures After(ips, s0, log + [d]) == Step(ips, After(ips, s0, log), d)
    ensures forall j :: 0 <= j <= |log| ==> (log + [d])[..j] == log[..j]
  {
    assert (log + [d])[..|log + [d]| - 1] == log;
  }

  lemma RightStep(e: Setting, s0: Course, log: seq<Dispatch>, d: Dispatch, j: nat)
    requires j < |log| && RightAt(e, s0, log, j)
    ensures RightAt(e, s0, log + [d], j)
  {
    AfterStep(e.ips, s0, log, d);
    assert (log + [d])[j] == log[j];
    hide After, Justified, Fitting;
  }

  lemma RightLast(e: Setting, s0: Course, log: seq<Dispatch>, d: Dispatch, s: Course)
    requires s == After(e.ips, s0, log) && Fitting(e, s) && d.b.iface < |e.ips|
    requires d.h == HeaderIn(s.headers, d.b.iface, d.b.offset) && Justified(e, s, d.h, d.b.iface, d.v)
    ensures RightAt(e, s0, log + [d], |log|)
  {
    assert (log + [d])[..|log|] == log && (log + [d])[|log|] == d;
    hide After, Justified, Fitting;
  }

  /** Where one packet went. */
  lemma MovedTo(p: Places, p2: Places, i: nat, f: nat, v: Verdict)
    requires Routed1(p, p2, i, f, v)
    ensures var b := Buff(p.filters[i][f][0].offset, p.filters[i][f][0].len, i);
            && p2.webserver == p.webserver + (if v == Web then [b] else [])
            && |p2.txActive| == |p.txActive|
            && (forall k :: 0 <= k < |p.txActive| ==> p2.txActive[k] == p.txActive[k] + if v == Out(k) then [b] else [])
            && |p2.rxFree| == |p.rxFree|
            && (forall k :: 0 <= k < |p.rxFree| ==> p2.rxFree[k] == p.rxFree[k] + if v == Home && k == i then [Desc(b.offset, b.len)] else [])
            && p2.waiting == (if v.Await? && v.iface < |p.waiting| then p.waiting[v.iface := Enqueued(p.waiting[v.iface], b, v.hop)] else p.waiting)
            && p2.filters == p.filters[i := p.filters[i][f := p.filters[i][f][1..]]]
  {
    hide Enqueued;
  }

  lemma Appended<T>(a: seq<T>, b: seq<T>, c: seq<T>)
    ensures (a + b) + c == a + (b + c)
  {
  }

  lemma RightMore(e: Setting, s0: Course, log: seq<Dispatch>, d: Dispatch, s: Course)
    requires AllRight(e, s0, log) && s == After(e.ips, s0, log) && Fitting(e, s) && d.b.iface < |e.ips|
    requires d.h == HeaderIn(s.headers, d.b.iface, d.b.offset) && Justified(e, s, d.h, d.b.iface, d.v)
    ensures AllRight(e, s0, log + [d])
  {
    hide After, Justified, Fitting, RightAt, HeaderIn;
    forall j | 0 <= j < |log + [d]|
      ensures RightAt(e, s0, log + [d], j)
    {
      if j < |log| { RightStep(e, s0, log, d, j); } else { RightLast(e, s0, log, d, s); }
    }
  }

  lemma SentMore(p0: Places, log: seq<Dispatch>, p: Places, d: Dispatch, p2: Places, i: nat, f: nat)
    requires Gathered(p0, log, p) && Routed1(p, p2, i, f, d.v)
    requires d.b == Buff(p.filters[i][f][0].offset, p.filters[i][f][0].len, i)
    ensures |p2.txActive| == |p0.txActive| && forall k :: 0 <= k < |p2.txActive| ==> p2.txActive[k] == p0.txActive[k] + Of(log + [d], Out(k))
    ensures p2.webserver == p0.webserver + Of(log + [d], Web)
  {
    MovedTo(p, p2, i, f, d.v);
    hide Routed1, Flow, Of, Returned, LogBuffs, Enqueued;
    OfStep(log, d, Web, 0);
    forall k | 0 <= k < |p.txActive|
      ensures p2.txActive[k] == p0.txActive[k] + Of(log + [d], Out(k))
    {
      OfStep(log, d, Out(k), 0);
    }
  }

  lemma ReturnedMore(p0: Places, log: seq<Dispatch>, p: Places, d: Dispatch, p2: Places, i: nat, f: nat)
    requires Gathered(p0, log, p) && Routed1(p, p2, i, f, d.v)
    requires d.b == Buff(p.filters[i][f][0].offset, p.filters[i][f][0].len, i)
    ensures |p2.rxFree| == |p0.rxFree| && forall k :: 0 <= k < |p2.rxFree| ==> p2.rxFree[k] == p0.rxFree[k] + Returned(log + [d], k)
  {
    MovedTo(p, p2, i, f, d.v);
    hide Routed1, Flow, Of, Returned, LogBuffs, Enqueued;
    forall k | 0 <= k < |p.rxFree|
      ensures p2.rxFree[k] == p0.rxFree[k] + Returned(log + [d], k)
    {
      OfStep(log, d, Web, k);
    }
  }

  lemma GatheredMore(p0: Places, log: seq<Dispatch>, p: Places, d: Dispatch, p2: Places, i: nat, f: nat)
    requires Gathered(p0, log, p) && Routed1(p, p2, i, f, d.v) && EmptyBefore(p.filters, i, f)
    requires d.b == Buff(p.filters[i][f][0].offset, p.filters[i][f][0].len, i)
    ensures Gathered(p0, log + [d], p2)
  {
    SentMore(p0, log, p, d, p2, i, f);
    ReturnedMore(p0, log, p, d, p2, i, f);
    MovedTo(p, p2, i, f, d.v);
    FlowTakes(p.filters, 0, i, f);
    OfStep(log, d, Web, 0);
    hide Routed1, Flow, Of, Returned, LogBuffs, EmptyBefore, Enqueued;
    Appended(LogBuffs(log), [d.b], Flow(p2.filters, 0));
  }

  lemma LogStep(e: Setting, p0: Places, s0: Course, log: seq<Dispatch>, p: Places, s: Course, d: Dispatch, p2: Places, s2: Course, i: nat, f: nat)
    requires Logged(e, p0, s0, log, p, s) && Routed1(p, p2, i, f, d.v) && EmptyBefore(p.filters, i, f)
    requires Fitting(e, s) && d.b.iface < |e.ips| && d.h == HeaderIn(s.headers, d.b.iface, d.b.offset) && Justified(e, s, d.h, d.b.iface, d.v)
    requires d.b == Buff(p.filters[i][f][0].offset, p.filters[i][f][0].len, i) && s2 == Step(e.ips, s, d) && p2.waiting == s2.waiting
    ensures Logged(e, p0, s0, log + [d], p2, s2)
  {
    hide Routed1, Step, After, Justified, Fitting, AllRight, Gathered, HeaderIn, EmptyBefore;
    AfterStep(e.ips, s0, log, d);
    RightMore(e, s0, log, d, s);
    GatheredMore(p0, log, p, d, p2, i, f);
  }

  predicate Sendable(p: Places, b: Buff, v: Verdict) {
    match v
    case Home => b.iface < |p.rxFree|
    case Web => true
    case Out(k) => k < |p.txActive|
    case Await(k, _) => k < |p.waiting|
  }

  function Moved(p: Places, b: Buff, v: Verdict): Places
    requires Sendable(p, b, v)
  {
    match v
    case Home => ToFree(p, b)
    case Web => ToWeb(p, b)
    case Out(k) => ToTx(p, b, k)
    case Await(k, hop) => ToWait(p, b, k, hop)
  }

  lemma MovedKeeps(p: Places, b: Buff, v: Verdict)
    requires Sendable(p, b, v)
    ensures All(Moved(p, b, v)) == All(p) + multiset{b} && Moved(p, b, v).filters == p.filters
  {
    match v {
      case Home => ToFreeGains(p, b);
      case Web => ToWebGains(p, b);
      case Out(k) => ToTxGains(p, b, k);
      case Await(k, hop) => ToWaitGains(p, b, k, hop);
    }
    Regroup(InFilters(p.filters, 0), multiset{b}, Routed(p));
    hide Routed, InFilters, ToFree, ToWeb, ToTx, ToWait;
  }

  class Router {
    const n: nat                  // number of interfaces
    const ips: seq<Ip>           // their addresses
    const pools: seq<PktsWaiting> // packets waiting to leave through each interface
    const reqCapacity: nat        // of each ARP request queue
    const table: RT.Table         // the routing table
    var arpTables: seq<map<Ip, ArpState>>
    var filters: seq<seq<seq<Desc>>>
    var rxFree: seq<seq<Desc>>
    var txActive: seq<seq<Buff>>
    var webserver: seq<Buff>
    var arpReq: seq<seq<Ip>>
    var arpResp: seq<seq<Reply>>
    var headers: map<(nat, nat), Header>  // the receive regions, by interface and offset

    constructor (ips: seq<Ip>, pools: seq<PktsWaiting>, reqCapacity: nat, numFilters: nat, table: RT.Table)
      requires |pools| == |ips| && (forall k :: 0 <= k < |ips| ==> pools[k].Valid() && pools[k].Queues() == [])
      requires forall j, k :: 0 <= j < k < |ips| ==> pools[j] != pools[k] && pools[j].packets != pools[k].packets
      ensures this.ips == ips && this.pools == pools && n == |ips| && this.table == table && Valid()
    {
      this.table, arpTables := table, seq(|ips|, _ => map[]);
      this.n, this.ips, this.pools, this.reqCapacity := |ips|, ips, pools, reqCapacity;
      filters := seq(|ips|, _ => seq(numFilters, _ => []));
      rxFree, txActive, webserver := seq(|ips|, _ => []), seq(|ips|, _ => []), [];
      arpReq, arpResp := seq(|ips|, _ => []), seq(|ips|, _ => []);
      headers := map[];
    }

    ghost function PoolObjects(): set<object> {
      (set k | 0 <= k < |pools| :: pools[k] as object) + (set k | 0 <= k < |pools| :: pools[k].packets as object)
    }

    lemma NotPool()
      ensures this as object !in PoolObjects()
      ensures forall k :: 0 <= k < |pools| ==> pools[k] as object in PoolObjects() && pools[k].packets as object in PoolObjects()
    {
    }

    ghost predicate PoolsValid()
      reads PoolObjects()
    {
      && |pools| == n
      && (forall j, k :: 0 <= j < k < n ==> pools[j] != pools[k] && pools[j].packets != pools[k].packets)
      && (forall k :: 0 <= k < n ==> pools[k].Valid())
    }

    ghost predicate Valid()
      reads this, PoolObjects()
    {
      && |ips| == |filters| == |rxFree| == |txActive| == |arpReq| == |arpResp| == |arpTables| == n
      && PoolsValid() && WaitsOk(Waits(), n)
    }

    ghost function Waits(): (w: seq<seq<Queue>>)
      requires PoolsValid()
      reads PoolObjects()
      ensures |w| == n
    {
      seq(n, k requires 0 <= k < n reads PoolObjects() requires PoolsValid() => pools[k].Queues())
    }

    ghost function Now(): Places
      requires PoolsValid()
      reads this, PoolObjects()
    {
      Places(filters, rxFree, txActive, webserver, Waits())
    }

    function HeaderAt(iface: nat, offset: nat): Header
      reads this
    {
      HeaderIn(headers, iface, offset)
    }

    /** What routing depends on. */
    ghost function Given(): Setting
      requires TableOk() && PoolsValid()
      reads this, PoolObjects(), table, table.entries
    {
      Setting(ips, arpTables, table.Routes(), seq(n, k requires 0 <= k < n => pools[k].capacity), reqCapacity)
    }

    ghost function Stage(): Course
      requires PoolsValid()
      reads this, PoolObjects()
    {
      Course(Waits(), arpReq, headers)
    }

    /** All routes lead out of existing interfaces. */
    ghost predicate TableOk()
      reads table, table.entries
    {
      table.Valid() && forall r :: r in table.Routes() ==> r.interface < n
    }

    function ArpAt(k: nat, hop: Ip): Option<ArpState>
      requires k < |arpTables|
      reads this
    {
      if hop in arpTables[k] then Some(arpTables[k][hop]) else None
    }

    /** The verdict on a packet for the address hop beyond interface k, an address of
        the given subnet. */
    ghost function NextVerdict(dst: Ip, hop: Ip, subnet: nat, k: nat): Verdict
      requires Valid() && k < n
      reads this, PoolObjects()
    {
      if hop.bits == RT.NO_NEXT_HOP || hop == ips[k] || SubnetBroadcast(hop, subnet, dst) then Home
      else
        WaitsAt(k);
        ArpVerdict(ArpAt(k, hop), pools[k].IsFull(), |arpReq[k]| >= reqCapacity, k, hop)
    }

    /** The verdict on a packet that may be routed: it goes where its address resolves to. */
    ghost function ForwardVerdict(dst: Ip): Verdict
      requires Valid() && TableOk()
      reads this, PoolObjects(), table, table.entries
    {
      match RT.Resolve(table.Routes(), dst.bits, RT.MAX_RECURSION)
      case Unreachable => Home
      case Via(hop, r) => if r.interface >= n then Home else NextVerdict(dst, Ip(hop), r.subnet, r.interface)
    }

    /** The verdict on a packet that came in on interface i. */
    ghost function VerdictOn(h: Header, i: nat): Verdict
      requires Valid() && TableOk() && i < n
      reads this, PoolObjects(), table, table.entries
    {
      if Refused(h) then Home
      else if h.dstIp == ips[i] then
        if h.protocol == PROTO_TCP && h.dstPort == WEBSERVER_PORT then Web else Home
      else if h.ttl <= 1 then Home
      else ForwardVerdict(h.dstIp)
    }

    lemma RouteCanonical(dst: Ip)
      requires TableOk()
      ensures var v := RT.Resolve(table.Routes(), dst.bits, RT.MAX_RECURSION);
              v.Via? ==> v.route.subnet <= 32 && v.route.interface < n
    {
      hide RT.Resolve;
      RouteInTable(dst);
      table.Wellformed();
      if RT.Resolve(table.Routes(), dst.bits, RT.MAX_RECURSION).Via? {
        RT.ResolvedLongest(table.Routes(), dst.bits, RT.MAX_RECURSION);
      }
    }

    lemma GivenFits()
      requires Valid() && TableOk()
      ensures Fitting(Given(), Stage()) && Given().ips == ips && Given().arps == arpTables && Given().reqRoom == reqCapacity
      ensures |pools| == n && |Given().ips| == n && Stage().reqs == arpReq
      ensures forall k :: 0 <= k < n ==> PoolFull(Given(), Stage(), k) == pools[k].IsFull()
    {
      forall k | 0 <= k < n
        ensures PoolFull(Given(), Stage(), k) == pools[k].IsFull()
      {
        WaitsAt(k);
        pools[k].FullIs();
      }
    }

    /** The code's verdict is the right one. */
    lemma VerdictJustified(h: Header, i: nat)
      requires Valid() && TableOk() && i < n
      ensures Fitting(Given(), Stage()) && |Given().ips| == n && Justified(Given(), Stage(), h, i, VerdictOn(h, i))
    {
      GivenFits();
      RefusedIs(h);
      if !Refused(h) && h.dstIp != ips[i] && h.ttl > 1 {
        ForwardJustified(h, i);
      } else {
        hide Refused, Unroutable, PoolsValid, WaitsOk, Waits, NextHop, PoolFull, TableOk, ForwardVerdict;
      }
    }

    lemma ForwardJustified(h: Header, i: nat)
      requires Valid() && TableOk() && i < n && Transit(h, ips[i]) && Fitting(Given(), Stage()) && |Given().ips| == n
      ensures Justified(Given(), Stage(), h, i, ForwardVerdict(h.dstIp))
    {
      hide Justified, Fitting, PoolFull, Transit, RT.Resolve, SubnetBroadcast, PoolsValid, WaitsOk, Waits, ArpVerdict;
      GivenFits();
      RouteCanonical(h.dstIp);
      var v := RT.Resolve(table.Routes(), h.dstIp.bits, RT.MAX_RECURSION);
      hide TableOk;
      JustifiedNext(Given(), Stage(), h, i, v, ForwardVerdict(h.dstIp));
    }

    /** Put a packet whose address is not resolved yet into the waiting pool; the
        first one for an address causes an ARP request. */
    method Wait(b: Buff, k: nat, ip: Ip)
      requires Valid() && k < n && b.iface < n && !pools[k].IsFull()
      modifies this`arpReq, pools[k], pools[k].packets
      ensures Valid() && Now() == ToWait(old(Now()), b, k, ip)
      ensures arpReq == Requested(old(arpReq), old(Waits()), Await(k, ip))
    {
      hide Shape, PktsWaiting.Valid, PktsWaiting.Queues, Enqueued, WaitsOk, FromIfaces, DistinctIps, Waits, PoolsValid, PktsWaiting.IsFull;
      ghost var ws := Waits();
      WaitsAt(k);
      OkAt(ws, n, k);
      EnqueuedOk(ws[k], b, ip, n);
      WaitsChange(ws, n, k, Enqueued(ws[k], b, ip));
      NoQueue(ws[k], ip);
      var isNew := WaitInPool(pools[k], b, ip);
      PoolsStill(k);
      NotPool();
      if isNew {
        arpReq := arpReq[k := arpReq[k] + [ip]];
      }
    }

    lemma WaitsAt(k: nat)
      requires PoolsValid() && k < n
      ensures |pools| == n && pools[k].Valid() && Waits()[k] == pools[k].Queues()
      ensures forall j :: 0 <= j < n && j != k ==> pools[j] != pools[k] && pools[j].packets != pools[k].packets
    {
    }

    /** Only one pool has changed. */
    twostate lemma PoolsStill(k: nat)
      requires old(PoolsValid()) && k < n && |pools| == n && pools[k].Valid()
      requires forall j :: 0 <= j < n && j != k ==> unchanged(pools[j]) && unchanged(pools[j].packets)
      ensures PoolsValid() && Waits() == old(Waits())[k := pools[k].Queues()]
    {
      hide PktsWaiting.Valid, PktsWaiting.Queues;
      assert forall j :: 0 <= j < n && j != k ==> pools[j].Valid() && pools[j].Queues() == old(pools[j].Queues());
    }

    /** transmit_packet: out of interface k. */
    method TransmitPacket(b: Buff, k: nat)
      requires Valid() && k < n
      modifies this`txActive
      ensures Valid() && Now() == ToTx(old(Now()), b, k)
    {
      NotPool();
      hide PoolsValid, Waits, WaitsOk, PoolObjects;
      txActive := txActive[k := txActive[k] + [b]];
    }

    /** Give a buffer back to the receiver it came from. */
    method Return(b: Buff)
      requires Valid() && b.iface < n
      modifies this`rxFree
      ensures Valid() && Now() == ToFree(old(Now()), b)
    {
      NotPool();
      hide PoolsValid, Waits, WaitsOk, PoolObjects;
      rxFree := rxFree[b.iface := rxFree[b.iface] + [Desc(b.offset, b.len)]];
    }

    /** Route the first packet of a filter queue. */
    method RouteOne(i: nat, f: nat)
      requires Valid() && TableOk() && i < n && f < |filters[i]| && filters[i][f] != []
      modifies this, PoolObjects()
      ensures Valid() && TableOk() && Routed1(old(Now()), Now(), i, f, old(VerdictOn(HeaderAt(i, filters[i][f][0].offset), i)))
      ensures arpResp == old(arpResp) && arpTables == old(arpTables)
      ensures arpReq == Requested(old(arpReq), old(Waits()), old(VerdictOn(HeaderAt(i, filters[i][f][0].offset), i)))
      ensures var o := old(filters[i][f][0].offset);
              var h := old(HeaderAt(i, o));
              headers == if Refused(h) || h.dstIp == ips[i] || h.ttl <= 1 then old(headers) else old(headers)[(i, o) := h.(ttl := h.ttl - 1)]
    {
      hide PoolsValid, WaitsOk, Waits, PoolObjects, Refused, ToFree, ToTx, ToWait, ToWeb, ForwardVerdict, TableOk;
      ghost var v := VerdictOn(HeaderAt(i, filters[i][f][0].offset), i);
      ghost var p0 := Now();
      var d := filters[i][f][0];
      NotPool();
      filters := filters[i := filters[i][f := filters[i][f][1..]]];
      assert Now() == Taken(p0, i, f);
      var b, h := Buff(d.offset, d.len, i), HeaderAt(i, d.offset);
      if Refused(h) {
        Return(b);
        return;
      }
      if h.dstIp == ips[i] {
        if h.protocol == PROTO_TCP && h.dstPort == WEBSERVER_PORT {
          ToWebserver(b);
        } else {
          Return(b);
        }
        return;
      }
      if h.ttl <= 1 {
        Return(b);
        return;
      }
      headers := headers[(i, d.offset) := h.(ttl := h.ttl - 1)];
      NotTable();
      VerdictStays(h.dstIp);
      Forward(b, h.dstIp);
    }

    method ToWebserver(b: Buff)
      requires Valid()
      modifies this`webserver
      ensures Valid() && Now() == ToWeb(old(Now()), b)
    {
      NotPool();
      hide PoolsValid, Waits, WaitsOk, PoolObjects;
      webserver := webserver + [b];
    }

    /** A packet that may be routed. */
    method Forward(b: Buff, dst: Ip)
      requires Valid() && TableOk() && b.iface < n
      modifies this`rxFree, this`txActive, this`arpReq, PoolObjects()
      ensures Valid() && TableOk() && Sendable(old(Now()), b, old(ForwardVerdict(dst)))
      ensures Now() == Moved(old(Now()), b, old(ForwardVerdict(dst)))
      ensures arpReq == Requested(old(arpReq), old(Waits()), old(ForwardVerdict(dst)))
    {
      hide PoolsValid, WaitsOk, Waits, ToFree, ToTx, ToWait, ToWeb, ArpVerdict, ForwardVerdict, TableOk, SubnetBroadcast;
      NotTable();
      var hop, subnet, k := FindRoute(dst);
      if hop.bits == RT.NO_NEXT_HOP || hop == ips[k] || SubnetBroadcast(hop, subnet, dst) {
        Return(b);
        return;
      }
      WaitsAt(k);
      Deliver(b, k, hop);
    }

    twostate lemma Still()
      requires old(Valid()) && unchanged(this) && unchanged(PoolObjects())
      ensures Valid() && Now() == old(Now())
    {
      hide PktsWaiting.Valid, PktsWaiting.Queues;
      NotPool();
      assert old(PoolsValid());
      assert forall j :: 0 <= j < n ==> pools[j].Valid() && pools[j].Queues() == old(pools[j].Queues());
      assert Waits() == old(Waits());
    }

    /** The call of fw_routing_find_route, and what its result means for the verdict. */
    method FindRoute(dst: Ip) returns (hop: Ip, subnet: nat, k: nat)
      requires Valid() && TableOk()
      ensures Valid() && TableOk() && Now() == old(Now())
      ensures if hop.bits == RT.NO_NEXT_HOP then old(ForwardVerdict(dst)) == Home
              else k < n && old(ForwardVerdict(dst)) == NextVerdict(dst, hop, subnet, k)
    {
      hide PoolsValid, WaitsOk, Waits, ArpVerdict, RT.Resolve, SubnetBroadcast;
      var bits;
      bits, subnet, k := table.FindRoute(dst.bits, 0, 0);
      hop := Ip(bits);
      Still();
      RouteInTable(dst);
    }

    /** By the state of the next hop in the ARP table: drop, wait or transmit. */
    method Deliver(b: Buff, k: nat, hop: Ip)
      requires Valid() && b.iface < n && k < n && |pools| == n
      modifies this`rxFree, this`txActive, this`arpReq, PoolObjects()
      ensures var v := old(ArpVerdict(ArpAt(k, hop), pools[k].IsFull(), |arpReq[k]| >= reqCapacity, k, hop));
              Valid() && Sendable(old(Now()), b, v) && Now() == Moved(old(Now()), b, v)
              && arpReq == Requested(old(arpReq), old(Waits()), v)
    {
      hide PoolsValid, WaitsOk, Waits, ToFree, ToTx, ToWait, ToWeb;
      WaitsAt(k);
      NotPool();
      var arp := ArpAt(k, hop);
      if arp == Some(Unreachable) || (pools[k].IsFull() && (arp.None? || arp.value == Pending)) || (arp.None? && |arpReq[k]| >= reqCapacity) {
        Return(b);
        return;
      }
      if arp.None? || arp.value == Pending {
        Wait(b, k, hop);
        return;
      }
      TransmitPacket(b, k);
    }

    lemma NotTable()
      ensures table as object != this && table as object !in PoolObjects() && table.entries as object !in PoolObjects()
    {
    }

    /** The verdict depends on neither the filter queues nor the received packets. */
    twostate lemma VerdictStays(dst: Ip)
      requires old(Valid()) && old(TableOk()) && Valid() && TableOk() && unchanged(`arpTables, `arpReq)
      requires unchanged(PoolObjects()) && unchanged(table, table.entries)
      ensures ForwardVerdict(dst) == old(ForwardVerdict(dst))
    {
      hide RT.Resolve, SubnetBroadcast, ArpVerdict, WaitsOk, Waits;
    }

    /** The route that an address resolves to is one of the table. */
    lemma RouteInTable(dst: Ip)
      requires TableOk()
      ensures var v := RT.Resolve(table.Routes(), dst.bits, RT.MAX_RECURSION);
              v.Via? ==> v.route.interface < n
    {
      if RT.Resolve(table.Routes(), dst.bits, RT.MAX_RECURSION).Via? {
        var m := RT.HopsOfResolved(table.Routes(), dst.bits, RT.MAX_RECURSION);
        RT.ResolvesByHops(table.Routes(), dst.bits, RT.MAX_RECURSION, m, RT.Resolve(table.Routes(), dst.bits, RT.MAX_RECURSION).hop);
        var r := RT.Lookup(table.Routes(), RT.Resolve(table.Routes(), dst.bits, RT.MAX_RECURSION).hop).value;
        assert r in table.Routes();
        var i :| 0 <= i < table.size && table.entries[i] == r;
      }
    }

    /** Transmit the packets of a waiting queue, in their order. */
    method SendQueue(root: nat, k: nat, ghost i: nat)
      requires Valid() && k < n && i < |pools[k].groups| && pools[k].groups[i] != [] && root == pools[k].groups[i][0]
      modifies this`txActive
      ensures Valid() && Now() == ToTxAll(old(Now()), old(Waits())[k][i].buffs, k)
    {
      hide Shape, PktsWaiting.Valid, PktsWaiting.Queues, PoolsValid, WaitsOk, Waits, PoolObjects, ToTx, ToTxAll;
      WaitsAt(k);
      pools[k].ChildOrder(i, 0);
      ghost var bs, p := Waits()[k][i].buffs, Now();
      ToTxAllStart(p, k);
      NotPool();
      var node, at := root, 0;
      while at < pools[k].packets[root].numChildren + 1
        invariant at <= |bs| && Valid() && Now() == ToTxAll(p, bs[..at], k)
        invariant at < |bs| ==> node == pools[k].groups[i][at]
        modifies this`txActive
      {
        WaitsAt(k);
        pools[k].ChildOrder(i, at);
        ToTxAllStep(p, bs, at, k);
        TransmitPacket(pools[k].packets[node].buffer, k);
        node := pools[k].NextChild(node);
        at := at + 1;
      }
      assert bs[..at] == bs;
    }

    lemma QueueFrom(k: nat, i: nat)
      requires Valid() && k < n && i < |Waits()[k]|
      ensures AllFrom(Waits()[k][i].buffs, n)
    {
      OkAt(Waits(), n, k);
    }

    /** Give the packets of a waiting queue back to their receivers. */
    method DropQueue(root: nat, k: nat, ghost i: nat)
      requires Valid() && k < n && i < |pools[k].groups| && pools[k].groups[i] != [] && root == pools[k].groups[i][0]
      modifies this`rxFree
      ensures AllFrom(old(Waits())[k][i].buffs, n)
      ensures Valid() && Now() == ToFreeAll(old(Now()), old(Waits())[k][i].buffs)
    {
      hide Shape, PktsWaiting.Valid, PktsWaiting.Queues, PoolsValid, WaitsOk, Waits, PoolObjects, ToFree, ToFreeAll, AllFrom, FreedTo;
      WaitsAt(k);
      QueueFrom(k, i);
      pools[k].ChildOrder(i, 0);
      ghost var bs, p := Waits()[k][i].buffs, Now();
      FreedToStep(p, bs, 0, p);
      NotPool();
      var node, at := root, 0;
      while at < pools[k].packets[root].numChildren + 1
        invariant at <= |bs| && Valid() && FreedTo(p, bs, at, Now())
        invariant at < |bs| ==> node == pools[k].groups[i][at]
        modifies this`rxFree
      {
        WaitsAt(k);
        pools[k].ChildOrder(i, at);
        FreedToStep(p, bs, at, Now());
        Return(pools[k].packets[node].buffer);
        node := pools[k].NextChild(node);
        at := at + 1;
      }
      FreedToEnd(p, bs, Now());
    }

    /** Act on one ARP reply that came in on interface k. */
    method AnswerOne(k: nat, response: Reply)
      requires Valid() && k < n
      modifies this`txActive, this`rxFree, pools[k], pools[k].packets
      ensures FromIfaces(old(Waits())[k], n) && arpResp == old(arpResp) && filters == old(filters)
      ensures Valid() && Now() == Answered(old(Now()), k, response)
    {
      hide Shape, PktsWaiting.Valid, PktsWaiting.Queues, PoolsValid, WaitsOk, Waits, ToFree, ToFreeAll, ToTxAll, AllFrom, FromIfaces, DistinctIps, Answered;
      ghost var p, ws := Now(), Waits();
      WaitsAt(k);
      OkAt(ws, n, k);
      NotPool();
      var root, i := pools[k].FindNode(response.ip);
      assert pools[k].Queues() == ws[k];
      FirstForIs(ws[k], response.ip, i);
      AnsweredIs(p, k, response);
      if root.Some? {
        if response.state == Unreachable {
          DropQueue(root.value, k, i);
        } else {
          SendQueue(root.value, k, i);
        }
        pools[k].FreeParent(root.value, i);
        PoolsStill(k);
        WithoutOk(ws[k], i, n);
        WaitsChange(ws, n, k, Without(ws[k], i));
      }
    }

    /** process_arp_waiting: act on all ARP replies that wait on interface k. */
    method ProcessArpWaiting(k: nat)
      requires Valid() && k < n
      modifies this, PoolObjects()
      ensures Valid() && PlacesOk(old(Now())) && Now() == AnsweredAll(old(Now()), k, old(arpResp[k]))
      ensures arpResp[k] == [] && filters == old(filters)
    {
      hide Shape, PktsWaiting.Valid, PktsWaiting.Queues, PoolsValid, WaitsOk, Waits, Answered;
      ghost var p, rs := Now(), arpResp[k];
      NowOk();
      while arpResp[k] != []
        invariant Valid() && PlacesOk(Now()) && AnsweredAll(Now(), k, arpResp[k]) == AnsweredAll(p, k, rs)
        invariant filters == old(filters)
        decreases |arpResp[k]|
      {
        var response := arpResp[k][0];
        WaitsAt(k);
        NotPool();
        arpResp := arpResp[k := arpResp[k][1..]];
        AnswerOne(k, response);
        NowOk();
      }
    }

    lemma NowOk()
      requires Valid()
      ensures PlacesOk(Now())
    {
    }

    twostate lemma GivenStays()
      requires old(Valid()) && old(TableOk()) && Valid() && TableOk() && unchanged(`arpTables) && unchanged(table, table.entries)
      ensures Given() == old(Given()) && Given().ips == ips && |ips| == n
    {
      hide WaitsOk, Waits, PktsWaiting.Valid, RT.Table.Valid;
    }

    /** The same, in terms of its header, the routes and the ARP table. */
    method RouteNext(i: nat, f: nat) returns (ghost d: Dispatch)
      requires Valid() && TableOk() && i < n && f < |filters[i]| && filters[i][f] != []
      modifies this, PoolObjects()
      ensures Valid() && TableOk() && arpResp == old(arpResp) && Given() == old(Given()) && Given().ips == ips && |ips| == n
      ensures Routed1(old(Now()), Now(), i, f, d.v)
      ensures d.b == old(Buff(filters[i][f][0].offset, filters[i][f][0].len, i)) && d.h == HeaderIn(old(Stage()).headers, i, d.b.offset)
      ensures Fitting(old(Given()), old(Stage())) && Justified(old(Given()), old(Stage()), d.h, i, d.v)
      ensures Stage() == Step(ips, old(Stage()), d) && Now().waiting == Stage().waiting
    {
      hide PoolsValid, WaitsOk, Waits, PoolObjects, TableOk, VerdictOn, Routed1, Justified, Fitting, Unroutable, Refused, Requested, Enqueued, Given;
      var o := filters[i][f][0].offset;
      d := Dispatch(Buff(o, filters[i][f][0].len, i), HeaderAt(i, o), VerdictOn(HeaderAt(i, o), i));
      VerdictJustified(d.h, i);
      RefusedIs(d.h);
      ghost var p := Now();
      NotTable();
      RouteOne(i, f);
      GivenStays();
      MovedTo(p, Now(), i, f, d.v);
    }

    /** route: route the packets of all filter queues of all interfaces.  Each packet is
        treated right by its header, the routes, the ARP tables and the room at its time,
        and the log tells where it is. */
    method Route() returns (ghost log: seq<Dispatch>)
      requires Valid() && TableOk()
      modifies this, PoolObjects()
      ensures Valid() && TableOk() && All(Now()) == old(All(Now()))
      ensures |filters| == n && forall i, f :: 0 <= i < n && 0 <= f < |filters[i]| ==> filters[i][f] == []
      ensures arpResp == old(arpResp) && Given() == old(Given())
      ensures Logged(Given(), old(Now()), old(Stage()), log, Now(), Stage())
      ensures LogBuffs(log) == Flow(old(filters), 0)
    {
      hide Shape, PktsWaiting.Valid, PktsWaiting.Queues, PoolsValid, WaitsOk, Waits, PoolObjects, All, Routed1, Taken, TableOk, VerdictOn,
        Justified, Fitting, Given, Stage, Step, Logged, Flow;
      ghost var all, p0, s0, e := All(Now()), Now(), Stage(), Given();
      log := [];
      StageIs();
      LogStart(e, p0, s0);
      var interface := 0;
      while interface < n
        invariant interface <= n && Valid() && TableOk() && All(Now()) == all && arpResp == old(arpResp)
        invariant Given() == e && Logged(e, p0, s0, log, Now(), Stage())
        invariant forall i, f :: 0 <= i < interface && 0 <= f < |filters[i]| ==> filters[i][f] == []
      {
        var filter := 0;
        while filter < |filters[interface]|
          invariant Valid() && TableOk() && filter <= |filters[interface]| && All(Now()) == all && arpResp == old(arpResp)
          invariant Given() == e && Logged(e, p0, s0, log, Now(), Stage())
          invariant EmptyBefore(filters, interface, filter)
          decreases |filters[interface]| - filter
        {
          ghost var count := |filters[interface]|;
          while filters[interface][filter] != []
            invariant Valid() && TableOk() && |filters[interface]| == count && All(Now()) == all && arpResp == old(arpResp)
            invariant Given() == e && Logged(e, p0, s0, log, Now(), Stage())
            invariant EmptyBefore(filters, interface, filter)
            decreases |filters[interface][filter]|
          {
            ghost var p, s := Now(), Stage();
            ghost var d := RouteNext(interface, filter);
            Routed1Keeps(p, Now(), interface, filter, d.v);
            LogNext(e, p0, s0, log, p, s, d, Now(), Stage(), interface, filter);
            log := log + [d];
          }
          filter := filter + 1;
        }
        interface := interface + 1;
      }
      FlowEnds(e, p0, s0, log, Now(), Stage());
    }

    lemma StageIs()
      requires Valid()
      ensures Now().waiting == Stage().waiting && Now().filters == filters
    {
    }

    lemma LogNext(e: Setting, p0: Places, s0: Course, log: seq<Dispatch>, p: Places, s: Course, d: Dispatch, p2: Places, s2: Course, i: nat, f: nat)
      requires Logged(e, p0, s0, log, p, s) && Routed1(p, p2, i, f, d.v) && EmptyBefore(p.filters, i, f) && e.ips == ips
      requires Fitting(e, s) && i < |e.ips| && d.h == HeaderIn(s.headers, i, d.b.offset) && Justified(e, s, d.h, i, d.v)
      requires i < |p.filters| && f < |p.filters[i]| && p.filters[i][f] != []
      requires d.b == Buff(p.filters[i][f][0].offset, p.filters[i][f][0].len, i) && s2 == Step(ips, s, d) && p2.waiting == s2.waiting
      ensures Logged(e, p0, s0, log + [d], p2, s2)
    {
      LogStep(e, p0, s0, log, p, s, d, p2, s2, i, f);
    }

    /** One notification: ARP replies on some interfaces, then routing. */
    method Notified(arpIfaces: seq<bool>)
      requires Valid() && TableOk() && |arpIfaces| == n
      modifies this, PoolObjects()
      ensures Valid() && TableOk() && All(Now()) == old(All(Now()))
      ensures |filters| == n && forall i, f :: 0 <= i < n && 0 <= f < |filters[i]| ==> filters[i][f] == []
    {
      hide Shape, PktsWaiting.Valid, PktsWaiting.Queues, PoolsValid, WaitsOk, Waits, PoolObjects, All;
      ghost var all := All(Now());
      for interface := 0 to n
        invariant Valid() && TableOk() && All(Now()) == all
      {
        if arpIfaces[interface] {
          ghost var p, rs := Now(), arpResp[interface];
          NotTable();
          ProcessArpWaiting(interface);
          AnsweredAllKeeps(p, interface, rs);
        }
      }
      ghost var log := Route();
    }
  }

  /** At the end the log tells about all packets. */
  lemma FlowEnds(e: Setting, p0: Places, s0: Course, log: seq<Dispatch>, p: Places, s: Course)
    requires Logged(e, p0, s0, log, p, s) && forall a, b :: 0 <= a < |p.filters| && 0 <= b < |p.filters[a]| ==> p.filters[a][b] == []
    ensures LogBuffs(log) == Flow(p0.filters, 0)
  {
    FlowNone(p.filters, 0);
    hide Flow, AllRight, After, Of, Returned;
  }

  lemma {:induction false} ToFreeAllWaiting(p: Places, bs: seq<Buff>, ws: seq<seq<Queue>>)
    requires AllFrom(bs, |p.rxFree|)
    ensures ToFreeAll(p.(waiting := ws), bs) == ToFreeAll(p, bs).(waiting := ws)
  {
    if bs != [] {
      ToFreeAllWaiting(p, bs[..|bs| - 1], ws);
    }
  }

  /** It does not matter whether the queue leaves the pool before or after its
      packets are moved. */
  lemma AnsweredIs(p: Places, k: nat, r: Reply)
    requires k < |p.waiting| && k < |p.txActive| && FromIfaces(p.waiting[k], |p.rxFree|)
    ensures var i := FirstFor(p.waiting[k], r.ip);
            if i == |p.waiting[k]| then Answered(p, k, r) == p
            else
              var bs, ws := p.waiting[k][i].buffs, p.waiting[k := Without(p.waiting[k], i)];
              Answered(p, k, r) == if r.state == Unreachable then ToFreeAll(p, bs).(waiting := ws) else ToTxAll(p, bs, k).(waiting := ws)
  {
    var i := FirstFor(p.waiting[k], r.ip);
    if i < |p.waiting[k]| {
      ToFreeAllWaiting(p, p.waiting[k][i].buffs, p.waiting[k := Without(p.waiting[k], i)]);
    }
  }

  /** now is p after the first at buffers have gone home. */
  ghost predicate FreedTo(p: Places, bs: seq<Buff>, at: nat, now: Places) {
    at <= |bs| && AllFrom(bs[..at], |p.rxFree|) && now == ToFreeAll(p, bs[..at])
  }

  lemma FreedToStep(p: Places, bs: seq<Buff>, at: nat, now: Places)
    requires AllFrom(bs, |p.rxFree|) && at < |bs|
    ensures FreedTo(p, bs, 0, p)
    ensures bs[at].iface < |p.rxFree|
    ensures FreedTo(p, bs, at, now) ==> |now.rxFree| == |p.rxFree| && FreedTo(p, bs, at + 1, ToFree(now, bs[at]))
  {
    ToFreeAllStep(p, bs, at);
  }

  lemma FreedToEnd(p: Places, bs: seq<Buff>, now: Places)
    requires FreedTo(p, bs, |bs|, now)
    ensures AllFrom(bs, |p.rxFree|) && now == ToFreeAll(p, bs)
  {
    assert bs[..|bs|] == bs;
  }

  ghost predicate PlacesOk(p: Places) {
    |p.waiting| == |p.txActive| == |p.rxFree| && WaitsOk(p.waiting, |p.rxFree|)
  }

  lemma AnsweredPlaces(p: Places, k: nat, r: Reply)
    requires PlacesOk(p) && k < |p.waiting|
    ensures FromIfaces(p.waiting[k], |p.rxFree|) && PlacesOk(Answered(p, k, r))
    ensures Answered(p, k, r).filters == p.filters && |Answered(p, k, r).waiting| == |p.waiting|
  {
    OkAt(p.waiting, |p.rxFree|, k);
    AnsweredIs(p, k, r);
    var i := FirstFor(p.waiting[k], r.ip);
    if i < |p.waiting[k]| {
      WithoutOk(p.waiting[k], i, |p.rxFree|);
      WaitsChange(p.waiting, |p.rxFree|, k, Without(p.waiting[k], i));
      if r.state == Unreachable { ToFreeAllGains(p, p.waiting[k][i].buffs); }
    }
  }

  /** All replies in the order of their arrival. */
  ghost function AnsweredAll(p: Places, k: nat, rs: seq<Reply>): Places
    requires PlacesOk(p) && k < |p.waiting|
    decreases |rs|
  {
    if rs == [] then p else
      AnsweredPlaces(p, k, rs[0]);
      AnsweredAll(Answered(p, k, rs[0]), k, rs[1..])
  }

  lemma {:induction false} AnsweredAllKeeps(p: Places, k: nat, rs: seq<Reply>)
    requires PlacesOk(p) && k < |p.waiting|
    ensures All(AnsweredAll(p, k, rs)) == All(p)
    decreases |rs|
  {
    if rs != [] {
      AnsweredPlaces(p, k, rs[0]);
      AnsweredKeeps(p, k, rs[0]);
      AnsweredAllKeeps(Answered(p, k, rs[0]), k, rs[1..]);
    }
  }

  /** Routing one packet keeps all buffers and takes it off its filter queue. */
  lemma Routed1Keeps(p: Places, p2: Places, i: nat, f: nat, v: Verdict)
    requires Routed1(p, p2, i, f, v)
    ensures All(p2) == All(p)
    ensures p2.filters == p.filters[i := p.filters[i][f := p.filters[i][f][1..]]]
  {
    TakenLoses(p, i, f);
    MovedKeeps(Taken(p, i, f), Buff(p.filters[i][f][0].offset, p.filters[i][f][0].len, i), v);
  }

  lemma WithoutOk(w: seq<Queue>, i: nat, n: nat)
    requires FromIfaces(w, n) && DistinctIps(w) && i < |w|
    ensures FromIfaces(Without(w, i), n) && DistinctIps(Without(w, i))
  {
    DistinctWithout(w, i);
  }

  lemma ToFreeAllStep(p: Places, bs: seq<Buff>, at: nat)
    requires AllFrom(bs, |p.rxFree|) && at < |bs|
    ensures ToFreeAll(p, []) == p
    ensures AllFrom(bs[..at], |p.rxFree|) && AllFrom(bs[..at + 1], |p.rxFree|) && bs[at].iface < |p.rxFree|
    ensures ToFreeAll(p, bs[..at + 1]) == ToFree(ToFreeAll(p, bs[..at]), bs[at])
  {
    assert bs[..at + 1][..at] == bs[..at];
  }

  lemma ToTxAllStart(p: Places, k: nat)
    requires k < |p.txActive|
    ensures ToTxAll(p, [], k) == p
  {
    assert p.txActive[k] + [] == p.txActive[k];
    assert p.txActive[k := p.txActive[k]] == p.txActive;
  }

  lemma ToTxAllStep(p: Places, bs: seq<Buff>, at: nat, k: nat)
    requires k < |p.txActive| && at < |bs|
    ensures ToTxAll(p, bs[..at + 1], k) == ToTx(ToTxAll(p, bs[..at], k), bs[at], k)
  {
    assert bs[..at + 1] == bs[..at] + [bs[at]];
    assert p.txActive[k] + bs[..at + 1] == (p.txActive[k] + bs[..at]) + [bs[at]];
  }

  /** The first packet of a filter queue has gone where the verdict says. */
  ghost predicate Routed1(p: Places, p2: Places, i: nat, f: nat, v: Verdict) {
    && i < |p.filters| == |p.rxFree| && f < |p.filters[i]| && p.filters[i][f] != []
    && var b := Buff(p.filters[i][f][0].offset, p.filters[i][f][0].len, i);
    && Sendable(Taken(p, i, f), b, v) && p2 == Moved(Taken(p, i, f), b, v)
  }

  /** Behind the packets that wait for the same address, or in a queue of its own. */
  method WaitInPool(pool: PktsWaiting, b: Buff, ip: Ip) returns (isNew: bool)
    requires pool.Valid() && !pool.IsFull()
    modifies pool, pool.packets
    ensures pool.Valid() && pool.Queues() == Enqueued(old(pool.Queues()), b, ip)
    ensures isNew <==> FirstFor(old(pool.Queues()), ip) == |old(pool.Queues())|
  {
    ghost var w := pool.Queues();
    hide PktsWaiting.Valid, PktsWaiting.Queues;
    var root, i := pool.FindNode(ip);
    assert pool.Queues() == w;
    FirstForIs(w, ip, i);
    isNew := root.None?;
    if root.Some? {
      var err := pool.PushChild(root.value, b, i);
    } else {
      var err := pool.Push(ip, b);
    }
  }

  /** In every pool: packets from existing interfaces, one queue per address. */
  ghost predicate WaitsOk(ws: seq<seq<Queue>>, n: nat) {
    forall k :: 0 <= k < |ws| ==> FromIfaces(ws[k], n) && DistinctIps(ws[k])
  }

  lemma OkAt(ws: seq<seq<Queue>>, n: nat, k: nat)
    requires WaitsOk(ws, n) && k < |ws|
    ensures FromIfaces(ws[k], n) && DistinctIps(ws[k])
  {
  }

  lemma WaitsChange(ws: seq<seq<Queue>>, n: nat, k: nat, w: seq<Queue>)
    requires WaitsOk(ws, n) && k < |ws| && FromIfaces(w, n) && DistinctIps(w)
    ensures WaitsOk(ws[k := w], n)
  {
  }

  lemma EnqueuedOk(w: seq<Queue>, b: Buff, ip: Ip, n: nat)
    requires FromIfaces(w, n) && DistinctIps(w) && b.iface < n
    ensures FromIfaces(Enqueued(w, b, ip), n) && DistinctIps(Enqueued(w, b, ip))
  {
    var i := FirstFor(w, ip);
    if i == |w| {
      NotFound(w, ip);
    }
  }

  lemma {:induction false} NotFound(w: seq<Queue>, ip: Ip)
    ensures FirstFor(w, ip) == |w| ==> forall k :: 0 <= k < |w| ==> w[k].ip != ip
  {
    if w != [] && FirstFor(w, ip) == |w| {
      NotFound(w[1..], ip);
      forall k | 0 <= k < |w| ensures w[k].ip != ip {
        if k > 0 { assert w[1..][k - 1] == w[k]; }
      }
    }
  }
}
