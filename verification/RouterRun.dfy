/** What a run of the router means for a packet, by the header with which it came in. */
module RouterRun {
  import opened PacketPool
  import opened Router

  /** Routing changes nothing of a header but the time to live, which goes down. */
  ghost predicate OnlyTtl(h0: map<(nat, nat), Header>, h: map<(nat, nat), Header>) {
    forall i: nat, o: nat {:trigger HeaderIn(h, i, o)} ::
      HeaderIn(h, i, o) == HeaderIn(h0, i, o).(ttl := HeaderIn(h, i, o).ttl) && HeaderIn(h, i, o).ttl <= HeaderIn(h0, i, o).ttl
  }

  lemma StepTtl(ips: seq<Ip>, h0: map<(nat, nat), Header>, s: Course, d: Dispatch)
    requires OnlyTtl(h0, s.headers) && d.h == HeaderIn(s.headers, d.b.iface, d.b.offset)
    ensures OnlyTtl(h0, Step(ips, s, d).headers)
  {
    var h' := Step(ips, s, d).headers;
    hide Unroutable, Requested, Enqueued;
    forall i: nat, o: nat
      ensures HeaderIn(h', i, o) == HeaderIn(h0, i, o).(ttl := HeaderIn(h', i, o).ttl) && HeaderIn(h', i, o).ttl <= HeaderIn(h0, i, o).ttl
    {
      assert HeaderIn(s.headers, i, o) == HeaderIn(h0, i, o).(ttl := HeaderIn(s.headers, i, o).ttl);
      if i == d.b.iface && o == d.b.offset {
        assert HeaderIn(h', i, o) == d.h || HeaderIn(h', i, o) == d.h.(ttl := d.h.ttl - 1);
      } else {
        assert HeaderIn(h', i, o) == HeaderIn(s.headers, i, o);
      }
    }
  }

  lemma {:induction false} RunTtl(e: Setting, s0: Course, log: seq<Dispatch>, j: nat)
    requires AllRight(e, s0, log) && j <= |log|
    ensures OnlyTtl(s0.headers, After(e.ips, s0, log[..j]).headers)
  {
    if j > 0 {
      RunTtl(e, s0, log, j - 1);
      assert log[..j][..j - 1] == log[..j - 1] && log[..j][j - 1] == log[j - 1];
      assert RightAt(e, s0, log, j - 1);
      StepTtl(e.ips, s0.headers, After(e.ips, s0, log[..j - 1]), log[j - 1]);
      hide OnlyTtl, Step, Justified, Fitting;
    }
  }

  /** The header with which packet j of a run came in. */
  function Incoming(s0: Course, b: Buff): Header {
    HeaderIn(s0.headers, b.iface, b.offset)
  }

  lemma CameIn(e: Setting, s0: Course, log: seq<Dispatch>, j: nat)
    requires AllRight(e, s0, log) && j < |log|
    ensures var d := log[j]; d.b.iface < |e.ips| && d.h == Incoming(s0, d.b).(ttl := d.h.ttl) && d.h.ttl <= Incoming(s0, d.b).ttl
  {
    RunTtl(e, s0, log, j);
    assert RightAt(e, s0, log, j);
    hide After, Justified, Fitting;
  }

  /** The packets among bs that are TCP traffic for port 80 of the interface's address. */
  function WebTraffic(ips: seq<Ip>, s0: Course, bs: seq<Buff>): seq<Buff> {
    if bs == [] then [] else
      var b := bs[|bs| - 1];
      WebTraffic(ips, s0, bs[..|bs| - 1]) + if b.iface < |ips| && ForWebserver(Incoming(s0, b), ips[b.iface]) then [b] else []
  }

  /** The web server gets exactly its traffic, in the order of arrival. */
  lemma {:induction false} WebserverGets(e: Setting, s0: Course, log: seq<Dispatch>)
    requires AllRight(e, s0, log)
    ensures Of(log, Web) == WebTraffic(e.ips, s0, LogBuffs(log))
  {
    if log != [] {
      var n := |log| - 1;
      RightPrefix(e, s0, log, n);
      WebserverGets(e, s0, log[..n]);
      CameIn(e, s0, log, n);
      WebIff(e, s0, log, n);
      assert LogBuffs(log)[..n] == LogBuffs(log[..n]) && LogBuffs(log)[n] == log[n].b;
      hide ForWebserver, AllRight, Incoming;
    }
  }

  lemma RightPrefix(e: Setting, s0: Course, log: seq<Dispatch>, n: nat)
    requires AllRight(e, s0, log) && n <= |log|
    ensures AllRight(e, s0, log[..n])
  {
    hide After, Justified, Fitting;
    forall j | 0 <= j < n
      ensures RightAt(e, s0, log[..n], j)
    {
      assert RightAt(e, s0, log, j) && log[..n][..j] == log[..j];
    }
  }

  lemma WebIff(e: Setting, s0: Course, log: seq<Dispatch>, j: nat)
    requires AllRight(e, s0, log) && j < |log|
    ensures var d := log[j]; d.b.iface < |e.ips| && (d.v == Web <==> ForWebserver(Incoming(s0, d.b), e.ips[d.b.iface]))
  {
    CameIn(e, s0, log, j);
    assert RightAt(e, s0, log, j);
    WebOrTransit(log[j].h, e.ips[log[j].b.iface]);
    SameTraffic(Incoming(s0, log[j].b), log[j].h, e.ips[log[j].b.iface]);
    hide ForWebserver, Transit, NextHop, PoolFull, After, Incoming;
  }

  lemma SameTraffic(h0: Header, h: Header, own: Ip)
    requires h == h0.(ttl := h.ttl) && h.ttl <= h0.ttl
    ensures ForWebserver(h, own) <==> ForWebserver(h0, own)
    ensures Transit(h, own) ==> Transit(h0, own)
    ensures h.dstIp == h0.dstIp
  {
    hide Multicast;
  }

  lemma {:induction false} AmongThose(log: seq<Dispatch>, v: Verdict, b: Buff)
    requires b in Of(log, v)
    ensures exists j :: 0 <= j < |log| && log[j].b == b && log[j].v == v
  {
    var n := |log| - 1;
    if b in Of(log[..n], v) {
      AmongThose(log[..n], v, b);
      var j :| 0 <= j < n && log[..n][j].b == b && log[..n][j].v == v;
      assert log[j].b == b && log[j].v == v;
    } else {
      assert log[n].b == b && log[n].v == v;
    }
  }

  /** The routes lead from dst over interface k to a hop that is reachable there. */
  ghost predicate LeadsOut(e: Setting, dst: Ip, k: nat) {
    k < |e.arps| && exists hop :: NextHop(e, dst, k, hop) && hop in e.arps[k] && e.arps[k][hop] == Reachable
  }

  /** What leaves over interface k came in for others, with hops left, and its routes
      lead there. */
  lemma SentOnlyReachable(e: Setting, s0: Course, log: seq<Dispatch>, k: nat, b: Buff)
    requires AllRight(e, s0, log) && b in Of(log, Out(k))
    ensures b.iface < |e.ips| && Transit(Incoming(s0, b), e.ips[b.iface]) && LeadsOut(e, Incoming(s0, b).dstIp, k)
  {
    AmongThose(log, Out(k), b);
    var j :| 0 <= j < |log| && log[j].b == b && log[j].v == Out(k);
    CameIn(e, s0, log, j);
    assert RightAt(e, s0, log, j);
    SameTraffic(Incoming(s0, b), log[j].h, e.ips[b.iface]);
    hide ForWebserver, Transit, NextHop, PoolFull, After, Incoming;
  }

  /** The routes lead over interface k to hop, which is unknown or asked for there. */
  ghost predicate LeadsToUnknown(e: Setting, dst: Ip, k: nat, hop: Ip) {
    k < |e.arps| && NextHop(e, dst, k, hop) && (hop in e.arps[k] ==> e.arps[k][hop] == ArpState.Pending)
  }

  /** A packet is in the pool because it was before, or because its next hop is unknown. */
  ghost predicate WaitsRightly(e: Setting, s0: Course, k: nat, q: Queue, b: Buff) {
    || (k < |s0.waiting| && exists q0 :: q0 in s0.waiting[k] && q0.ip == q.ip && b in q0.buffs)
    || (b.iface < |e.ips| && Transit(Incoming(s0, b), e.ips[b.iface]) && LeadsToUnknown(e, Incoming(s0, b).dstIp, k, q.ip))
  }

  ghost predicate PoolsRight(e: Setting, s0: Course, w: seq<seq<Queue>>) {
    forall k: nat, q: Queue, b: Buff :: k < |w| && q in w[k] && b in q.buffs ==> WaitsRightly(e, s0, k, q, b)
  }

  lemma {:induction false} WaitOnlyUnknown(e: Setting, s0: Course, log: seq<Dispatch>)
    requires AllRight(e, s0, log)
    ensures PoolsRight(e, s0, After(e.ips, s0, log).waiting)
  {
    if log != [] {
      var n := |log| - 1;
      var d, s := log[n], After(e.ips, s0, log[..n]);
      RightPrefix(e, s0, log, n);
      WaitOnlyUnknown(e, s0, log[..n]);
      CameIn(e, s0, log, n);
      assert RightAt(e, s0, log, n);
      if d.v.Await? {
        SameTraffic(Incoming(s0, d.b), d.h, e.ips[d.b.iface]);
        AwaitRight(e, s0, s, d);
      }
    }
  }

  lemma AwaitRight(e: Setting, s0: Course, s: Course, d: Dispatch)
    requires d.v.Await? && PoolsRight(e, s0, s.waiting) && d.v.iface < |s.waiting| && d.b.iface < |e.ips|
    requires Transit(Incoming(s0, d.b), e.ips[d.b.iface]) && LeadsToUnknown(e, Incoming(s0, d.b).dstIp, d.v.iface, d.v.hop)
    ensures PoolsRight(e, s0, Step(e.ips, s, d).waiting)
  {
    hide WaitsRightly;
    var w, k := s.waiting, d.v.iface;
    var w' := Step(e.ips, s, d).waiting;
    forall a: nat, q: Queue, b: Buff | a < |w'| && q in w'[a] && b in q.buffs
      ensures WaitsRightly(e, s0, a, q, b)
    {
      if a == k {
        EnqueuedOne(w[k], d.b, d.v.hop, q, b);
        if !(q.ip == d.v.hop && b == d.b) {
          var q1: Queue :| q1 in w[k] && q1.ip == q.ip && b in q1.buffs;
          SameWait(e, s0, k, q1, q, b);
        } else {
          NewWait(e, s0, k, q, b);
        }
      }
    }
  }

  lemma SameWait(e: Setting, s0: Course, k: nat, q1: Queue, q: Queue, b: Buff)
    requires q1.ip == q.ip && WaitsRightly(e, s0, k, q1, b)
    ensures WaitsRightly(e, s0, k, q, b)
  {
  }

  lemma NewWait(e: Setting, s0: Course, k: nat, q: Queue, b: Buff)
    requires b.iface < |e.ips| && Transit(Incoming(s0, b), e.ips[b.iface]) && LeadsToUnknown(e, Incoming(s0, b).dstIp, k, q.ip)
    ensures WaitsRightly(e, s0, k, q, b)
  {
  }

  lemma EnqueuedOne(w: seq<Queue>, b0: Buff, ip: Ip, q: Queue, b: Buff)
    requires q in Enqueued(w, b0, ip) && b in q.buffs
    ensures (q.ip == ip && b == b0) || exists q1 :: q1 in w && q1.ip == q.ip && b in q1.buffs
  {
    var i := FirstFor(w, ip);
    if i < |w| && q == Queue(w[i].ip, w[i].buffs + [b0]) {
      if b != b0 { assert w[i] in w && b in w[i].buffs; }
    } else if q in w {
      assert q in w && q.ip == q.ip;
    }
  }

  /** The ARP requests in r behind those in r0 are for the addresses of the queues in w
      in front of those in w0, the latest first. */
  ghost predicate AskedFor(w0: seq<Queue>, r0: seq<Ip>, w: seq<Queue>, r: seq<Ip>) {
    && r0 <= r && |w| == |w0| + (|r| - |r0|)
    && (forall t :: 0 <= t < |r| - |r0| ==> w[t].ip == r[|r| - 1 - t])
    && (forall t :: 0 <= t < |w0| ==> w[|r| - |r0| + t].ip == w0[t].ip)
  }

  lemma EnqueuedIps(w: seq<Queue>, b: Buff, hop: Ip)
    ensures var w' := Enqueued(w, b, hop);
            if forall q :: q in w ==> q.ip != hop then w' == [Queue(hop, [b])] + w
            else |w'| == |w| && forall t :: 0 <= t < |w| ==> w'[t].ip == w[t].ip
  {
    NoQueue(w, hop);
  }

  lemma AskedNew(w0: seq<Queue>, r0: seq<Ip>, w: seq<Queue>, r: seq<Ip>, q: Queue)
    requires AskedFor(w0, r0, w, r)
    ensures AskedFor(w0, r0, [q] + w, r + [q.ip])
  {
    var w', r' := [q] + w, r + [q.ip];
    forall t | 0 <= t < |r'| - |r0|
      ensures w'[t].ip == r'[|r'| - 1 - t]
    {
      if t > 0 { assert w'[t] == w[t - 1]; }
    }
    forall t | 0 <= t < |w0|
      ensures w'[|r'| - |r0| + t].ip == w0[t].ip
    {
      assert w'[|r'| - |r0| + t] == w[|r| - |r0| + t];
    }
  }

  lemma AskedStep(w0: seq<Queue>, r0: seq<Ip>, w: seq<Queue>, r: seq<Ip>, b: Buff, hop: Ip)
    requires AskedFor(w0, r0, w, r)
    ensures AskedFor(w0, r0, Enqueued(w, b, hop), if forall q :: q in w ==> q.ip != hop then r + [hop] else r)
  {
    EnqueuedIps(w, b, hop);
    hide Enqueued;
    if forall q :: q in w ==> q.ip != hop {
      AskedNew(w0, r0, w, r, Queue(hop, [b]));
    }
  }

  /** An ARP request is made for exactly the addresses for which a queue is started. */
  lemma {:induction false} RequestsForNewQueues(e: Setting, s0: Course, log: seq<Dispatch>, k: nat)
    requires AllRight(e, s0, log) && |s0.waiting| == |s0.reqs| && k < |s0.waiting|
    ensures var s := After(e.ips, s0, log);
            |s.waiting| == |s.reqs| == |s0.waiting| && AskedFor(s0.waiting[k], s0.reqs[k], s.waiting[k], s.reqs[k])
  {
    if log != [] {
      var n := |log| - 1;
      RightPrefix(e, s0, log, n);
      RequestsForNewQueues(e, s0, log[..n], k);
      var d, s := log[n], After(e.ips, s0, log[..n]);
      if d.v.Await? && d.v.iface == k {
        AskedStep(s0.waiting[k], s0.reqs[k], s.waiting[k], s.reqs[k], d.b, d.v.hop);
      }
      hide AskedFor, AllRight, Enqueued;
    }
  }

  /* ---- ARP replies ---- */

  /** The buffers among bs that came from interface i. */
  function From(bs: seq<Buff>, i: nat): seq<Desc> {
    if bs == [] then [] else
      var b := bs[|bs| - 1];
      From(bs[..|bs| - 1], i) + if b.iface == i then [Desc(b.offset, b.len)] else []
  }

  lemma {:induction false} FreedFrom(p: Places, bs: seq<Buff>, i: nat)
    requires AllFrom(bs, |p.rxFree|) && i < |p.rxFree|
    ensures ToFreeAll(p, bs).rxFree[i] == p.rxFree[i] + From(bs, i)
  {
    if bs != [] {
      FreedFrom(p, bs[..|bs| - 1], i);
    }
  }

  ghost predicate Back(rx: seq<seq<Desc>>, bs: seq<Buff>, rx': seq<seq<Desc>>) {
    |rx'| == |rx| && forall j :: 0 <= j < |rx| ==> rx'[j] == rx[j] + From(bs, j)
  }

  /** The packets that wait for the address of a reply leave over the interface, in
      their order, unless it cannot be reached: then each goes back to the interface it
      came from.  All others stay where they are. */
  lemma AnsweredPackets(p: Places, k: nat, r: Reply, i: nat)
    requires k < |p.waiting| && k < |p.txActive| && FromIfaces(p.waiting[k], |p.rxFree|) && DistinctIps(p.waiting[k])
    requires i < |p.waiting[k]| && p.waiting[k][i].ip == r.ip
    ensures var p2, bs := Answered(p, k, r), p.waiting[k][i].buffs;
            && p2.filters == p.filters && p2.webserver == p.webserver
            && p2.waiting == p.waiting[k := p.waiting[k][..i] + p.waiting[k][i + 1..]]
            && (r.state != Unreachable ==> p2.txActive == p.txActive[k := p.txActive[k] + bs] && p2.rxFree == p.rxFree)
            && (r.state == Unreachable ==> p2.txActive == p.txActive && Back(p.rxFree, bs, p2.rxFree))
  {
    FirstForIs(p.waiting[k], r.ip, i);
    var bs := p.waiting[k][i].buffs;
    var p1 := p.(waiting := p.waiting[k := Without(p.waiting[k], i)]);
    if r.state == Unreachable {
      ToFreeAllGains(p1, bs);
      forall j | 0 <= j < |p.rxFree|
        ensures ToFreeAll(p1, bs).rxFree[j] == p.rxFree[j] + From(bs, j)
      {
        FreedFrom(p1, bs, j);
      }
    }
  }

  /** A reply for which nothing waits changes nothing. */
  lemma AnsweredNone(p: Places, k: nat, r: Reply)
    requires k < |p.waiting| && k < |p.txActive| && FromIfaces(p.waiting[k], |p.rxFree|)
    requires forall q :: q in p.waiting[k] ==> q.ip != r.ip
    ensures Answered(p, k, r) == p
  {
    NoQueue(p.waiting[k], r.ip);
  }
}
