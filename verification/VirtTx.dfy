/** The transmit virtualiser of the firewall: it passes buffers of its clients to
    the driver as bus addresses and sends returned buffers home. */
module VirtTx {
  const BUFFER_SIZE := 2048

  /** net_buff_desc_t: an offset in a client's region, or a bus address. */
  datatype Desc = Desc(at: nat, len: nat)

  /** fw_buff_desc_t: a buffer of the receive region of an interface. */
  datatype FwDesc = FwDesc(offset: nat, len: nat, interface: nat)

  /** A data region and the capacity, in buffers, of the queue that serves it. */
  datatype Region = Region(ioAddr: nat, capacity: nat)

  /** Where a returned buffer belongs. */
  datatype Home = Net(client: nat) | Fw(client: nat) | Nobody

  predicate Holds(r: Region, phys: nat) {
    r.ioAddr <= phys < r.ioAddr + r.capacity * BUFFER_SIZE
  }

  predicate Disjoint(a: Region, b: Region) {
    a.ioAddr + a.capacity * BUFFER_SIZE <= b.ioAddr || b.ioAddr + b.capacity * BUFFER_SIZE <= a.ioAddr
  }

  /** The first of the regions that holds an address, or their number. */
  function FirstHolding(rs: seq<Region>, phys: nat): (i: nat)
    ensures i <= |rs| && (i < |rs| ==> Holds(rs[i], phys)) && forall k :: 0 <= k < i ==> !Holds(rs[k], phys)
  {
    if rs == [] || Holds(rs[0], phys) then 0 else
      var i := FirstHolding(rs[1..], phys);
      assert forall k :: 0 < k < i + 1 ==> rs[k] == rs[1..][k - 1];
      i + 1
  }

  lemma FirstIs(rs: seq<Region>, phys: nat, i: nat)
    requires i <= |rs| && (i < |rs| ==> Holds(rs[i], phys)) && forall k :: 0 <= k < i ==> !Holds(rs[k], phys)
    ensures FirstHolding(rs, phys) == i
  {
  }

  /** The loops of extract_offset_net_client and extract_offset_fw_client. */
  method ExtractOffset(rs: seq<Region>, phys: nat) returns (client: int, offset: nat)
    ensures var i := FirstHolding(rs, phys);
            if i < |rs| then client == i && offset + rs[i].ioAddr == phys && offset < rs[i].capacity * BUFFER_SIZE
            else client == -1 && offset == phys
  {
    client := 0;
    while client < |rs|
      invariant 0 <= client <= |rs| && forall k :: 0 <= k < client ==> !Holds(rs[k], phys)
    {
      if phys >= rs[client].ioAddr && phys < rs[client].ioAddr + rs[client].capacity * BUFFER_SIZE {
        FirstIs(rs, phys, client);
        return client, phys - rs[client].ioAddr;
      }
      client := client + 1;
    }
    FirstIs(rs, phys, |rs|);
    return -1, phys;
  }

  /** Net clients are asked before firewall clients. */
  function HomeOf(nets: seq<Region>, fws: seq<Region>, phys: nat): Home {
    var i, j := FirstHolding(nets, phys), FirstHolding(fws, phys);
    if i < |nets| then Net(i) else if j < |fws| then Fw(j) else Nobody
  }

  function OffsetAt(nets: seq<Region>, fws: seq<Region>, phys: nat): nat {
    var i, j := FirstHolding(nets, phys), FirstHolding(fws, phys);
    if i < |nets| then phys - nets[i].ioAddr else if j < |fws| then phys - fws[j].ioAddr else phys
  }

  /** Of the first n buffers of q, those that go to one home, with their offsets there. */
  function SortedTo(nets: seq<Region>, fws: seq<Region>, q: seq<Desc>, n: nat, h: Home): seq<Desc>
    requires n <= |q|
  {
    if n == 0 then [] else
      var d, rest := q[n - 1], SortedTo(nets, fws, q, n - 1, h);
      if HomeOf(nets, fws, d.at) == h then rest + [Desc(OffsetAt(nets, fws, d.at), d.len)] else rest
  }

  function Sorted(nets: seq<Region>, fws: seq<Region>, q: seq<Desc>, h: Home): seq<Desc> {
    SortedTo(nets, fws, q, |q|, h)
  }

  lemma {:induction false} SortedPrefix(nets: seq<Region>, fws: seq<Region>, a: seq<Desc>, b: seq<Desc>, n: nat, h: Home)
    requires n <= |a| <= |b| && forall i :: 0 <= i < n ==> a[i] == b[i]
    ensures SortedTo(nets, fws, b, n, h) == SortedTo(nets, fws, a, n, h)
  {
    if n > 0 {
      SortedPrefix(nets, fws, a, b, n - 1, h);
    }
  }

  lemma {:induction false} SortedAppend(nets: seq<Region>, fws: seq<Region>, a: seq<Desc>, b: seq<Desc>, n: nat, h: Home)
    requires n <= |b|
    ensures SortedTo(nets, fws, a + b, |a| + n, h) == Sorted(nets, fws, a, h) + SortedTo(nets, fws, b, n, h)
  {
    if n == 0 {
      SortedPrefix(nets, fws, a, a + b, |a|, h);
      AddNothing(Sorted(nets, fws, a, h), []);
    } else {
      SortedAppend(nets, fws, a, b, n - 1, h);
      assert (a + b)[|a| + n - 1] == b[n - 1];
    }
  }

  lemma SortedJoin(nets: seq<Region>, fws: seq<Region>, a: seq<Desc>, b: seq<Desc>, h: Home)
    ensures Sorted(nets, fws, a + b, h) == Sorted(nets, fws, a, h) + Sorted(nets, fws, b, h)
  {
    SortedAppend(nets, fws, a, b, |b|, h);
  }

  lemma AddNothing(a: seq<Desc>, b: seq<Desc>)
    ensures a == [] ==> a + b == b
    ensures b == [] ==> a + b == a
  {
  }

  /** Is the offset that a net client provides acceptable? */
  predicate Acceptable(d: Desc, capacity: nat) {
    d.at % BUFFER_SIZE == 0 && d.at < BUFFER_SIZE * capacity
  }

  /** Accepted are exactly the starts of the capacity buffers of 2048 bytes in the region. */
  lemma AcceptedSlots(d: Desc, capacity: nat)
    ensures Acceptable(d, capacity) <==> exists k: nat :: k < capacity && d.at == 2048 * k
  {
    if Acceptable(d, capacity) {
      assert d.at == 2048 * (d.at / 2048) && d.at / 2048 < capacity;
    }
  }

  /** So they lie in the region, as a whole, and no two of them overlap. */
  lemma AcceptedApart(d: Desc, e: Desc, r: Region)
    requires Acceptable(d, r.capacity) && Acceptable(e, r.capacity)
    ensures Holds(r, r.ioAddr + d.at) && r.ioAddr + d.at + 2048 <= r.ioAddr + r.capacity * 2048
    ensures d.at == e.at || d.at + 2048 <= e.at || e.at + 2048 <= d.at
  {
    AcceptedSlots(d, r.capacity);
    AcceptedSlots(e, r.capacity);
  }

  /** The acceptable (or the other) ones of the first n buffers of a queue. */
  function ChosenTo(q: seq<Desc>, n: nat, capacity: nat, good: bool): seq<Desc>
    requires n <= |q|
  {
    if n == 0 then [] else
      var d, rest := q[n - 1], ChosenTo(q, n - 1, capacity, good);
      if Acceptable(d, capacity) == good then rest + [d] else rest
  }

  function Chosen(q: seq<Desc>, capacity: nat, good: bool): seq<Desc> {
    ChosenTo(q, |q|, capacity, good)
  }

  /** As bus addresses. */
  function Shifted(q: seq<Desc>, base: nat): (r: seq<Desc>)
    ensures |r| == |q|
  {
    seq(|q|, i requires 0 <= i < |q| => Desc(q[i].at + base, q[i].len))
  }

  function FromNets(nets: seq<Region>, qs: seq<seq<Desc>>, n: nat): seq<Desc>
    requires n <= |qs| == |nets|
  {
    if n == 0 then [] else FromNets(nets, qs, n - 1) + Shifted(Chosen(qs[n - 1], nets[n - 1].capacity, true), nets[n - 1].ioAddr)
  }

  ghost function FwShifted(q: seq<FwDesc>, bases: seq<nat>): (r: seq<Desc>)
    requires Known(q, |bases|)
    ensures |r| == |q|
  {
    seq(|q|, i requires 0 <= i < |q| => assert q[i] in q; Desc(q[i].offset + bases[q[i].interface], q[i].len))
  }

  ghost predicate Known(q: seq<FwDesc>, n: nat) {
    forall d :: d in q ==> d.interface < n
  }

  ghost function FromFws(qs: seq<seq<FwDesc>>, bases: seq<nat>, n: nat): seq<Desc>
    requires n <= |qs| && forall i :: 0 <= i < |qs| ==> Known(qs[i], |bases|)
  {
    if n == 0 then [] else FromFws(qs, bases, n - 1) + FwShifted(qs[n - 1], bases)
  }

  class VirtTx {
    const nets: seq<Region>       // data regions of the net clients
    const fws: seq<Region>        // regions and free queues of the firewall clients
    const bases: seq<nat>         // bus addresses of the receive regions, by interface
    const activeCap: seq<nat>     // capacities of the firewall clients' active queues
    var netActive: seq<seq<Desc>>
    var netFree: seq<seq<Desc>>
    var fwActive: seq<seq<FwDesc>>
    var fwFree: seq<seq<Desc>>
    var drvActive: seq<Desc>
    var drvFree: seq<Desc>

    constructor (nets: seq<Region>, fws: seq<Region>, bases: seq<nat>, activeCap: seq<nat>)
      ensures this.nets == nets && this.fws == fws && this.bases == bases && this.activeCap == activeCap && Valid()
    {
      this.nets, this.fws, this.bases, this.activeCap := nets, fws, bases, activeCap;
      netActive, netFree := seq(|nets|, _ => []), seq(|nets|, _ => []);
      fwActive, fwFree := seq(|activeCap|, _ => []), seq(|fws|, _ => []);
      drvActive, drvFree := [], [];
    }

    ghost predicate Valid()
      reads this
    {
      |netActive| == |netFree| == |nets| && |fwActive| == |activeCap| && |fwFree| == |fws|
    }

    /** What the router guarantees of the buffers it passes on. */
    ghost predicate FwProper()
      reads `fwActive
    {
      forall c, d :: 0 <= c < |fwActive| && d in fwActive[c] ==> ProperFw(d, c)
    }

    predicate ProperFw(d: FwDesc, c: nat) {
      c < |activeCap| && d.offset % BUFFER_SIZE == 0 && d.offset < BUFFER_SIZE * activeCap[c] && d.interface < |bases|
    }

    /** Drain the active queue of one net client. */
    method ProvideNet(c: nat)
      requires Valid() && c < |nets|
      modifies `netActive, `netFree, `drvActive
      ensures Valid()
      ensures netActive == old(netActive)[c := []]
      ensures netFree == old(netFree)[c := old(netFree)[c] + Chosen(old(netActive)[c], nets[c].capacity, false)]
      ensures drvActive == old(drvActive) + Shifted(Chosen(old(netActive)[c], nets[c].capacity, true), nets[c].ioAddr)
    {
      ghost var q, cap, j: nat := netActive[c], nets[c].capacity, 0;
      while netActive[c] != []
        invariant Valid() && j <= |q| && netActive == old(netActive)[c := q[j..]]
        invariant netFree[c] == old(netFree)[c] + ChosenTo(q, j, cap, false) && netFree == old(netFree)[c := netFree[c]]
        invariant drvActive == old(drvActive) + Shifted(ChosenTo(q, j, cap, true), nets[c].ioAddr)
        decreases |q| - j
      {
        var buffer := netActive[c][0];
        netActive := netActive[c := netActive[c][1..]];
        assert buffer == q[j];
        j := j + 1;
        if buffer.at % BUFFER_SIZE != 0 || buffer.at >= BUFFER_SIZE * nets[c].capacity {
          netFree := netFree[c := netFree[c] + [buffer]];
          continue;
        }
        drvActive := drvActive + [Desc(buffer.at + nets[c].ioAddr, buffer.len)];
      }
    }

    /** Drain the active queue of one firewall client. */
    method ProvideFw(c: nat)
      requires Valid() && FwProper() && c < |fwActive|
      modifies `fwActive, `drvActive
      ensures Valid() && FwProper() && fwActive == old(fwActive)[c := []]
      ensures Known(old(fwActive)[c], |bases|)
      ensures drvActive == old(drvActive) + FwShifted(old(fwActive)[c], bases)
    {
      ghost var q, j: nat := fwActive[c], 0;
      assert forall d :: d in q ==> ProperFw(d, c);
      while fwActive[c] != []
        invariant Valid() && j <= |q| && fwActive == old(fwActive)[c := q[j..]]
        invariant drvActive == old(drvActive) + FwShifted(q, bases)[..j]
        decreases |q| - j
      {
        var buffer := fwActive[c][0];
        fwActive := fwActive[c := fwActive[c][1..]];
        assert buffer == q[j] && ProperFw(buffer, c);
        j := j + 1;
        drvActive := drvActive + [Desc(buffer.offset + bases[buffer.interface], buffer.len)];
      }
      assert q[..j] == q;
    }

    lemma ProperInterfaces()
      requires FwProper() && Valid()
      ensures forall i :: 0 <= i < |fwActive| ==> Known(fwActive[i], |bases|)
    {
      assert forall i, d :: 0 <= i < |fwActive| && d in fwActive[i] ==> ProperFw(d, i);
    }

    /** The first loop of tx_provide. */
    method ProvideNets()
      requires Valid()
      modifies `netActive, `netFree, `drvActive
      ensures Valid() && forall c :: 0 <= c < |nets| ==> netActive[c] == []
      ensures forall c :: 0 <= c < |nets| ==> netFree[c] == old(netFree[c]) + Chosen(old(netActive[c]), nets[c].capacity, false)
      ensures drvActive == old(drvActive) + FromNets(nets, old(netActive), |nets|)
    {
      hide Chosen, Shifted;
      for client := 0 to |nets|
        invariant Valid()
        invariant forall c :: 0 <= c < client ==> netActive[c] == []
        invariant forall c :: 0 <= c < client ==> netFree[c] == old(netFree[c]) + Chosen(old(netActive[c]), nets[c].capacity, false)
        invariant forall c :: client <= c < |nets| ==> netActive[c] == old(netActive[c]) && netFree[c] == old(netFree[c])
        invariant drvActive == old(drvActive) + FromNets(nets, old(netActive), client)
      {
        ProvideNet(client);
      }
    }

    /** The second loop of tx_provide. */
    method ProvideFws()
      requires Valid() && FwProper()
      modifies `fwActive, `drvActive
      ensures Valid() && forall c :: 0 <= c < |fwActive| ==> fwActive[c] == []
      ensures forall i :: 0 <= i < |old(fwActive)| ==> Known(old(fwActive)[i], |bases|)
      ensures drvActive == old(drvActive) + FromFws(old(fwActive), bases, |old(fwActive)|)
    {
      ProperInterfaces();
      hide FwProper, FwShifted, Known;
      for client := 0 to |fwActive|
        invariant Valid() && FwProper() && |fwActive| == |old(fwActive)|
        invariant forall c :: 0 <= c < client ==> fwActive[c] == []
        invariant forall c :: client <= c < |fwActive| ==> fwActive[c] == old(fwActive[c])
        invariant drvActive == old(drvActive) + FromFws(old(fwActive), bases, client)
      {
        ProvideFw(client);
      }
    }

    /** tx_provide: drain all clients into the driver's queue. */
    method TxProvide()
      requires Valid() && FwProper()
      modifies `netActive, `netFree, `fwActive, `drvActive
      ensures Valid() && (forall c :: 0 <= c < |nets| ==> netActive[c] == []) && (forall c :: 0 <= c < |fwActive| ==> fwActive[c] == [])
      ensures forall c :: 0 <= c < |nets| ==> netFree[c] == old(netFree[c]) + Chosen(old(netActive[c]), nets[c].capacity, false)
      ensures forall i :: 0 <= i < |old(fwActive)| ==> Known(old(fwActive)[i], |bases|)
      ensures drvActive == old(drvActive) + FromNets(nets, old(netActive), |nets|) + FromFws(old(fwActive), bases, |old(fwActive)|)
    {
      hide Chosen, Known, FromNets, FromFws;
      ProvideNets();
      ProvideFws();
    }

    /** Give one returned buffer to its owner. */
    method ReturnOne(buffer: Desc)
      requires Valid() && HomeOf(nets, fws, buffer.at) != Nobody
      modifies `netFree, `fwFree
      ensures Valid()
      ensures var h, d := HomeOf(nets, fws, buffer.at), Desc(OffsetAt(nets, fws, buffer.at), buffer.len);
              match h
              case Net(c) => c < |nets| && netFree == old(netFree)[c := old(netFree)[c] + [d]] && fwFree == old(fwFree)
              case Fw(c) => c < |fws| && fwFree == old(fwFree)[c := old(fwFree)[c] + [d]] && netFree == old(netFree)
              case Nobody => true
    {
      var client, offset := ExtractOffset(nets, buffer.at);
      if client >= 0 {
        netFree := netFree[client := netFree[client] + [Desc(offset, buffer.len)]];
        return;
      }
      client, offset := ExtractOffset(fws, buffer.at);
      fwFree := fwFree[client := fwFree[client] + [Desc(offset, buffer.len)]];
    }

    /** tx_return: give the buffers that the driver is done with to their owners. */
    method TxReturn()
      requires Valid() && forall i :: 0 <= i < |drvFree| ==> HomeOf(nets, fws, drvFree[i].at) != Nobody
      modifies `netFree, `fwFree, `drvFree
      ensures Valid() && drvFree == []
      ensures forall c :: 0 <= c < |nets| ==> netFree[c] == old(netFree[c]) + Sorted(nets, fws, old(drvFree), Net(c))
      ensures forall c :: 0 <= c < |fws| ==> fwFree[c] == old(fwFree[c]) + Sorted(nets, fws, old(drvFree), Fw(c))
    {
      hide SortedTo, HomeOf, OffsetAt;
      ghost var q, j: nat := drvFree, 0;
      SortedNone(nets, fws, q);
      while drvFree != []
        invariant Valid() && j <= |q| && drvFree == q[j..]
        invariant forall i :: 0 <= i < |q| ==> HomeOf(nets, fws, q[i].at) != Nobody
        invariant forall c :: 0 <= c < |nets| ==> netFree[c] == old(netFree[c]) + SortedTo(nets, fws, q, j, Net(c))
        invariant forall c :: 0 <= c < |fws| ==> fwFree[c] == old(fwFree[c]) + SortedTo(nets, fws, q, j, Fw(c))
        decreases |q| - j
      {
        var buffer := drvFree[0];
        drvFree := drvFree[1..];
        assert buffer == q[j];
        SortedStep(nets, fws, q, j);
        ReturnOne(buffer);
        j := j + 1;
      }
    }
  }

  lemma SortedNone(nets: seq<Region>, fws: seq<Region>, q: seq<Desc>)
    ensures forall h :: SortedTo(nets, fws, q, 0, h) == []
  {
  }

  lemma SortedStep(nets: seq<Region>, fws: seq<Region>, q: seq<Desc>, j: nat)
    requires j < |q|
    ensures forall h :: SortedTo(nets, fws, q, j + 1, h) ==
              if HomeOf(nets, fws, q[j].at) == h then SortedTo(nets, fws, q, j, h) + [Desc(OffsetAt(nets, fws, q[j].at), q[j].len)]
              else SortedTo(nets, fws, q, j, h)
  {
  }

  /* ---- Going home ---- */

  /** No two data regions overlap. */
  ghost predicate Apart(nets: seq<Region>, fws: seq<Region>) {
    && (forall i, j :: 0 <= i < j < |nets| ==> Disjoint(nets[i], nets[j]))
    && (forall i, j :: 0 <= i < j < |fws| ==> Disjoint(fws[i], fws[j]))
    && (forall i, j :: 0 <= i < |nets| && 0 <= j < |fws| ==> Disjoint(nets[i], fws[j]))
  }

  /** An acceptable buffer of a net client returns to it with its own offset. */
  lemma NetHome(nets: seq<Region>, fws: seq<Region>, c: nat, offset: nat)
    requires Apart(nets, fws) && c < |nets| && offset < BUFFER_SIZE * nets[c].capacity
    ensures HomeOf(nets, fws, offset + nets[c].ioAddr) == Net(c) && OffsetAt(nets, fws, offset + nets[c].ioAddr) == offset
  {
    var phys := offset + nets[c].ioAddr;
    forall k | 0 <= k < c
      ensures !Holds(nets[k], phys)
    {
      assert Disjoint(nets[k], nets[c]);
    }
    FirstIs(nets, phys, c);
  }

  /** A buffer of the receive region of firewall client k returns to it with its
      own offset exactly when the offset lies within the capacity of that
      client's free queue (the check on the way out uses another capacity). */
  lemma FwHome(nets: seq<Region>, fws: seq<Region>, k: nat, offset: nat)
    requires Apart(nets, fws) && k < |fws|
    ensures var phys := offset + fws[k].ioAddr;
            (HomeOf(nets, fws, phys) == Fw(k) && OffsetAt(nets, fws, phys) == offset) <==> offset < fws[k].capacity * BUFFER_SIZE
  {
    var phys := offset + fws[k].ioAddr;
    if offset < fws[k].capacity * BUFFER_SIZE {
      forall i | 0 <= i < |nets|
        ensures !Holds(nets[i], phys)
      {
        assert Disjoint(nets[i], fws[k]);
      }
      forall i | 0 <= i < k
        ensures !Holds(fws[i], phys)
      {
        assert Disjoint(fws[i], fws[k]);
      }
      FirstIs(nets, phys, |nets|);
      FirstIs(fws, phys, k);
    }
  }

  /** A client whose active queue holds 8 buffers and whose free queue holds 4: the
      check on the way out lets its fifth buffer pass, which then has no home. */
  lemma NoWayHome()
    ensures var fws := [Region(0x1_0000, 4)];
            var d := FwDesc(4 * BUFFER_SIZE, 60, 0);
            && d.offset % BUFFER_SIZE == 0 && d.offset < BUFFER_SIZE * 8
            && Apart([], fws) && HomeOf([], fws, d.offset + fws[0].ioAddr) == Nobody
  {
    FirstIs([Region(0x1_0000, 4)], 0x1_0000 + 4 * BUFFER_SIZE, 1);
  }

  lemma {:induction false} ChosenAcceptable(q: seq<Desc>, n: nat, capacity: nat)
    requires n <= |q|
    ensures forall d :: d in ChosenTo(q, n, capacity, true) ==> Acceptable(d, capacity)
  {
    if n > 0 {
      ChosenAcceptable(q, n - 1, capacity);
    }
  }

  lemma {:induction false} NetSorted(nets: seq<Region>, fws: seq<Region>, c: nat, q: seq<Desc>, n: nat, h: Home)
    requires Apart(nets, fws) && c < |nets| && n <= |q| && forall d :: d in q ==> Acceptable(d, nets[c].capacity)
    ensures SortedTo(nets, fws, Shifted(q, nets[c].ioAddr), n, h) == if h == Net(c) then q[..n] else []
  {
    hide Apart, HomeOf, OffsetAt;
    if n > 0 {
      assert q[n - 1] in q;
      NetSorted(nets, fws, c, q, n - 1, h);
      NetHome(nets, fws, c, q[n - 1].at);
      assert q[..n] == q[..n - 1] + [q[n - 1]];
    }
  }

  lemma {:induction false} NetsSorted(nets: seq<Region>, fws: seq<Region>, qs: seq<seq<Desc>>, n: nat, h: Home)
    requires Apart(nets, fws) && n <= |qs| == |nets|
    ensures Sorted(nets, fws, FromNets(nets, qs, n), h) ==
              if h.Net? && h.client < n then Chosen(qs[h.client], nets[h.client].capacity, true) else []
  {
    hide ChosenTo, SortedTo, Apart, Shifted, Acceptable, HomeOf, OffsetAt;
    if n == 0 {
      SortedNone(nets, fws, []);
    } else {
      var q := Chosen(qs[n - 1], nets[n - 1].capacity, true);
      NetsSorted(nets, fws, qs, n - 1, h);
      ChosenAcceptable(qs[n - 1], |qs[n - 1]|, nets[n - 1].capacity);
      NetSorted(nets, fws, n - 1, q, |q|, h);
      assert q[..|q|] == q;
      SortedJoin(nets, fws, FromNets(nets, qs, n - 1), Shifted(q, nets[n - 1].ioAddr), h);
      AddNothing(Sorted(nets, fws, FromNets(nets, qs, n - 1), h), Sorted(nets, fws, Shifted(q, nets[n - 1].ioAddr), h));
    }
  }

  /** The firewall client that serves each interface, and the offsets it serves. */
  ghost predicate Serves(home: seq<nat>, bases: seq<nat>, fws: seq<Region>) {
    |home| == |bases| && forall i :: 0 <= i < |bases| ==> home[i] < |fws| && fws[home[i]].ioAddr == bases[i]
  }

  ghost predicate Within(q: seq<FwDesc>, home: seq<nat>, fws: seq<Region>) {
    forall d :: d in q ==> d.interface < |home| && home[d.interface] < |fws| && d.offset < fws[home[d.interface]].capacity * BUFFER_SIZE
  }

  /** Of the first n buffers of q, those that belong to firewall client k. */
  function OwnTo(q: seq<FwDesc>, n: nat, home: seq<nat>, k: nat): seq<Desc>
    requires n <= |q|
  {
    if n == 0 then [] else
      var d, rest := q[n - 1], OwnTo(q, n - 1, home, k);
      if d.interface < |home| && home[d.interface] == k then rest + [Desc(d.offset, d.len)] else rest
  }

  function OwnAll(qs: seq<seq<FwDesc>>, home: seq<nat>, k: nat, n: nat): seq<Desc>
    requires n <= |qs|
  {
    if n == 0 then [] else OwnAll(qs, home, k, n - 1) + OwnTo(qs[n - 1], |qs[n - 1]|, home, k)
  }

  lemma HomeFor(q: seq<FwDesc>, i: nat, bases: seq<nat>, home: seq<nat>, fws: seq<Region>)
    requires Serves(home, bases, fws) && Within(q, home, fws) && i < |q|
    ensures q[i].interface < |bases| == |home| && home[q[i].interface] < |fws|
    ensures bases[q[i].interface] == fws[home[q[i].interface]].ioAddr && q[i].offset < fws[home[q[i].interface]].capacity * BUFFER_SIZE
  {
    assert q[i] in q;
  }

  lemma {:induction false} FwSorted(nets: seq<Region>, fws: seq<Region>, bases: seq<nat>, home: seq<nat>, q: seq<FwDesc>, n: nat, h: Home)
    requires Apart(nets, fws) && Serves(home, bases, fws) && Within(q, home, fws) && n <= |q| && Known(q, |bases|)
    ensures SortedTo(nets, fws, FwShifted(q, bases), n, h) == if h.Fw? then OwnTo(q, n, home, h.client) else []
  {
    hide Apart, Within, Serves, Known, HomeOf, OffsetAt;
    if n > 0 {
      FwSorted(nets, fws, bases, home, q, n - 1, h);
      HomeFor(q, n - 1, bases, home, fws);
      FwHome(nets, fws, home[q[n - 1].interface], q[n - 1].offset);
    }
  }

  lemma {:induction false} FwsSorted(nets: seq<Region>, fws: seq<Region>, bases: seq<nat>, home: seq<nat>, qs: seq<seq<FwDesc>>, n: nat, h: Home)
    requires Apart(nets, fws) && Serves(home, bases, fws) && n <= |qs| && forall i :: 0 <= i < |qs| ==> Within(qs[i], home, fws) && Known(qs[i], |bases|)
    ensures Sorted(nets, fws, FromFws(qs, bases, n), h) == if h.Fw? then OwnAll(qs, home, h.client, n) else []
  {
    hide SortedTo, OwnTo, Apart, Serves, Within, Known, FwShifted, HomeOf, OffsetAt;
    if n == 0 {
      SortedNone(nets, fws, []);
    } else {
      var q := qs[n - 1];
      FwsSorted(nets, fws, bases, home, qs, n - 1, h);
      FwSorted(nets, fws, bases, home, q, |q|, h);
      SortedJoin(nets, fws, FromFws(qs, bases, n - 1), FwShifted(q, bases), h);
    }
  }

  /** Buffers without a home show up as buffers sorted to nobody. */
  lemma {:induction false} HomelessSorted(nets: seq<Region>, fws: seq<Region>, q: seq<Desc>, n: nat)
    requires n <= |q|
    ensures SortedTo(nets, fws, q, n, Nobody) == [] ==> forall i :: 0 <= i < n ==> HomeOf(nets, fws, q[i].at) != Nobody
  {
    if n > 0 {
      HomelessSorted(nets, fws, q, n - 1);
    }
  }

  /** A full cycle: everything is provided, the driver finishes with it in order,
      and everything is returned.  Each net client gets back all its buffers (the
      unacceptable ones at once), each firewall client the buffers of its
      interfaces, with their original offsets and in their order. */
  method Cycle(tx: VirtTx, ghost home: seq<nat>)
    requires tx.Valid() && tx.FwProper() && tx.drvActive == tx.drvFree == []
    requires Apart(tx.nets, tx.fws) && Serves(home, tx.bases, tx.fws)
    requires forall i :: 0 <= i < |tx.fwActive| ==> Within(tx.fwActive[i], home, tx.fws)
    modifies tx
    ensures tx.Valid() && tx.drvActive == tx.drvFree == []
    ensures forall c :: 0 <= c < |tx.nets| ==> tx.netActive[c] == []
    ensures forall c :: 0 <= c < |tx.nets| ==>
              tx.netFree[c] == old(tx.netFree[c]) + Chosen(old(tx.netActive[c]), tx.nets[c].capacity, false)
                               + Chosen(old(tx.netActive[c]), tx.nets[c].capacity, true)
    ensures forall k :: 0 <= k < |tx.fws| ==> tx.fwFree[k] == old(tx.fwFree[k]) + OwnAll(old(tx.fwActive), home, k, |old(tx.fwActive)|)
  {
    hide ChosenTo, OwnAll, SortedTo, HomeOf, OffsetAt, Apart, Serves, Within, VirtTx.FwProper, Known, FromNets, FromFws;
    ghost var nets, fws, na, fa := tx.nets, tx.fws, tx.netActive, tx.fwActive;
    tx.TxProvide();
    ghost var a, b := FromNets(nets, na, |nets|), FromFws(fa, tx.bases, |fa|);
    assert tx.drvActive == a + b;
    forall h
      ensures Sorted(nets, fws, a + b, h) == SentHome(nets, na, fa, home, h)
    {
      SortedJoin(nets, fws, a, b, h);
      NetsSorted(nets, fws, na, |nets|, h);
      FwsSorted(nets, fws, tx.bases, home, fa, |fa|, h);
      AddNothing(Sorted(nets, fws, a, h), Sorted(nets, fws, b, h));
    }
    HomelessSorted(nets, fws, a + b, |a + b|);
    assert Sorted(nets, fws, a + b, Nobody) == [];
    tx.drvFree, tx.drvActive := tx.drvActive, [];
    tx.TxReturn();
  }

  /** What comes back to a home after a full cycle. */
  function SentHome(nets: seq<Region>, na: seq<seq<Desc>>, fa: seq<seq<FwDesc>>, home: seq<nat>, h: Home): seq<Desc>
    requires |na| == |nets|
  {
    match h
    case Net(c) => if c < |nets| then Chosen(na[c], nets[c].capacity, true) else []
    case Fw(k) => OwnAll(fa, home, k, |fa|)
    case Nobody => []
  }

  /* ---- Whole runs ---- */

  /** All buffers of a home, wherever they are, as it will see them when they are back. */
  ghost function Owed(tx: VirtTx, home: seq<nat>, h: Home): multiset<Desc>
    requires tx.Valid()
    reads tx
  {
    AtHome(tx.netActive, tx.netFree, tx.fwActive, tx.fwFree, home, h)
    + (multiset(Sorted(tx.nets, tx.fws, tx.drvActive, h)) + multiset(Sorted(tx.nets, tx.fws, tx.drvFree, h)))
  }

  /** Those in the queues between the clients and the virtualiser. */
  ghost function AtHome(na: seq<seq<Desc>>, nf: seq<seq<Desc>>, fa: seq<seq<FwDesc>>, ff: seq<seq<Desc>>, home: seq<nat>, h: Home): multiset<Desc>
    requires |na| == |nf|
  {
    match h
    case Net(c) => if c < |na| then multiset(na[c]) + multiset(nf[c]) else multiset{}
    case Fw(k) => multiset(OwnAll(fa, home, k, |fa|)) + if k < |ff| then multiset(ff[k]) else multiset{}
    case Nobody => multiset{}
  }

  lemma {:induction false} ChosenSplit(q: seq<Desc>, n: nat, capacity: nat)
    requires n <= |q|
    ensures multiset(q[..n]) == multiset(ChosenTo(q, n, capacity, true)) + multiset(ChosenTo(q, n, capacity, false))
  {
    if n > 0 {
      ChosenSplit(q, n - 1, capacity);
      assert q[..n] == q[..n - 1] + [q[n - 1]];
    }
  }

  lemma {:induction false} OwnNone(qs: seq<seq<FwDesc>>, home: seq<nat>, k: nat, n: nat)
    requires n <= |qs| && forall i :: 0 <= i < |qs| ==> qs[i] == []
    ensures OwnAll(qs, home, k, n) == []
  {
    if n > 0 {
      OwnNone(qs, home, k, n - 1);
    }
  }

  lemma WithoutOne(a: seq<Desc>, x: Desc, b1: seq<Desc>, b2: seq<Desc>)
    requires multiset(a + [x]) == multiset(b1 + [x] + b2)
    ensures multiset(a) == multiset(b1 + b2)
  {
    assert multiset(a) == multiset(a + [x]) - multiset{x};
    assert multiset(b1 + b2) == multiset(b1 + [x] + b2) - multiset{x};
  }

  /** Sorting does not depend on the order. */
  lemma {:induction false} SortedBag(nets: seq<Region>, fws: seq<Region>, a: seq<Desc>, b: seq<Desc>, h: Home)
    requires multiset(a) == multiset(b)
    ensures multiset(Sorted(nets, fws, a, h)) == multiset(Sorted(nets, fws, b, h))
    decreases |a|
  {
    hide SortedTo, HomeOf, OffsetAt;
    if a == [] {
      assert |b| == |multiset(b)| == 0;
    } else {
      var x, a' := a[|a| - 1], a[..|a| - 1];
      assert a == a' + [x];
      assert x in multiset(b);
      var i :| 0 <= i < |b| && b[i] == x;
      var b1, b2 := b[..i], b[i + 1..];
      assert b == b1 + [x] + b2;
      WithoutOne(a', x, b1, b2);
      SortedBag(nets, fws, a', b1 + b2, h);
      SortedJoin(nets, fws, a', [x], h);
      SortedJoin(nets, fws, b1 + [x], b2, h);
      SortedJoin(nets, fws, b1, [x], h);
      SortedJoin(nets, fws, b1, b2, h);
    }
  }

  /** What the driver and the virtualiser can rely on throughout. */
  ghost predicate Running(tx: VirtTx, home: seq<nat>)
    reads tx
  {
    && tx.Valid() && tx.FwProper() && Apart(tx.nets, tx.fws) && Serves(home, tx.bases, tx.fws)
    && (forall i :: 0 <= i < |tx.fwActive| ==> Within(tx.fwActive[i], home, tx.fws))
    && Owed(tx, home, Nobody) == multiset{}
  }

  /** tx_provide in a run. */
  method Provide(tx: VirtTx, ghost home: seq<nat>)
    requires Running(tx, home)
    modifies tx
    ensures Running(tx, home) && forall h :: Owed(tx, home, h) == old(Owed(tx, home, h))
    ensures (forall c :: 0 <= c < |tx.nets| ==> tx.netActive[c] == []) && (forall c :: 0 <= c < |tx.fwActive| ==> tx.fwActive[c] == [])
  {
    hide Chosen, OwnAll, Sorted, HomeOf, OffsetAt, Apart, Serves, Within, VirtTx.FwProper, Known, FromNets, FromFws, AtHome;
    ghost var na, nf, fa, ff, drv := tx.netActive, tx.netFree, tx.fwActive, tx.fwFree, tx.drvActive;
    tx.TxProvide();
    EmptyQueues(tx, home);
    forall h
      ensures Owed(tx, home, h) == old(Owed(tx, home, h))
    {
      Provided(tx.nets, tx.fws, tx.bases, home, na, nf, fa, ff, tx.netActive, tx.netFree, tx.fwActive, drv, tx.drvActive, h);
      MovedOver(AtHome(na, nf, fa, ff, home, h), multiset(Sorted(tx.nets, tx.fws, drv, h)),
                AtHome(tx.netActive, tx.netFree, tx.fwActive, tx.fwFree, home, h), multiset(Sorted(tx.nets, tx.fws, tx.drvActive, h)),
                multiset(Sorted(tx.nets, tx.fws, tx.drvFree, h)));
    }
  }

  lemma MovedOver(a: multiset<Desc>, x: multiset<Desc>, a': multiset<Desc>, x': multiset<Desc>, y: multiset<Desc>)
    requires a + x == a' + x'
    ensures a + (x + y) == a' + (x' + y)
  {
    assert a + (x + y) == (a + x) + y;
    assert a' + (x' + y) == (a' + x') + y;
  }

  lemma EmptyQueues(tx: VirtTx, home: seq<nat>)
    requires forall c :: 0 <= c < |tx.fwActive| ==> tx.fwActive[c] == []
    ensures tx.FwProper() && forall i :: 0 <= i < |tx.fwActive| ==> Within(tx.fwActive[i], home, tx.fws)
  {
  }

  lemma Provided(nets: seq<Region>, fws: seq<Region>, bases: seq<nat>, home: seq<nat>,
                 na: seq<seq<Desc>>, nf: seq<seq<Desc>>, fa: seq<seq<FwDesc>>, ff: seq<seq<Desc>>,
                 na': seq<seq<Desc>>, nf': seq<seq<Desc>>, fa': seq<seq<FwDesc>>, drv: seq<Desc>, drv': seq<Desc>, h: Home)
    requires |na| == |nf| == |na'| == |nf'| == |nets| && Apart(nets, fws) && Serves(home, bases, fws)
    requires forall i :: 0 <= i < |fa| ==> Within(fa[i], home, fws) && Known(fa[i], |bases|)
    requires forall c :: 0 <= c < |nets| ==> na'[c] == [] && nf'[c] == nf[c] + Chosen(na[c], nets[c].capacity, false)
    requires forall i :: 0 <= i < |fa'| ==> fa'[i] == []
    requires drv' == drv + FromNets(nets, na, |nets|) + FromFws(fa, bases, |fa|)
    ensures AtHome(na', nf', fa', ff, home, h) + multiset(Sorted(nets, fws, drv', h))
            == AtHome(na, nf, fa, ff, home, h) + multiset(Sorted(nets, fws, drv, h))
  {
    hide Chosen, OwnAll, Sorted, HomeOf, OffsetAt, Apart, Serves, Within, Known, FromNets, FromFws;
    var a, b := FromNets(nets, na, |nets|), FromFws(fa, bases, |fa|);
    SortedJoin(nets, fws, drv + a, b, h);
    SortedJoin(nets, fws, drv, a, h);
    NetsSorted(nets, fws, na, |nets|, h);
    FwsSorted(nets, fws, bases, home, fa, |fa|, h);
    if h.Net? && h.client < |nets| {
      ChosenAll(na[h.client], nets[h.client].capacity);
    }
    if h.Fw? {
      OwnNone(fa', home, h.client, |fa'|);
    }
  }

  lemma ChosenAll(q: seq<Desc>, capacity: nat)
    ensures multiset(q) == multiset(Chosen(q, capacity, true)) + multiset(Chosen(q, capacity, false))
  {
    ChosenSplit(q, |q|, capacity);
    assert q[..|q|] == q;
  }

  /** The driver sends some of its buffers, in any order, and may rearrange both
      its queues. */
  method DriverStep(tx: VirtTx, active: seq<Desc>, free: seq<Desc>, ghost home: seq<nat>)
    requires Running(tx, home) && multiset(active) + multiset(free) == multiset(tx.drvActive) + multiset(tx.drvFree)
    modifies tx`drvActive, tx`drvFree
    ensures Running(tx, home) && tx.drvActive == active && tx.drvFree == free
    ensures forall h :: Owed(tx, home, h) == old(Owed(tx, home, h))
  {
    hide ChosenTo, OwnAll, Sorted, HomeOf, OffsetAt, Apart, Serves, Within, VirtTx.FwProper, AtHome;
    ghost var a, f := tx.drvActive, tx.drvFree;
    tx.drvActive, tx.drvFree := active, free;
    forall h
      ensures Owed(tx, home, h) == old(Owed(tx, home, h))
    {
      Rearranged(tx.nets, tx.fws, active, free, a, f, h);
    }
  }

  lemma Rearranged(nets: seq<Region>, fws: seq<Region>, a: seq<Desc>, f: seq<Desc>, b: seq<Desc>, g: seq<Desc>, h: Home)
    requires multiset(a) + multiset(f) == multiset(b) + multiset(g)
    ensures multiset(Sorted(nets, fws, a, h)) + multiset(Sorted(nets, fws, f, h))
            == multiset(Sorted(nets, fws, b, h)) + multiset(Sorted(nets, fws, g, h))
  {
    hide Sorted;
    assert multiset(a + f) == multiset(b + g);
    SortedBag(nets, fws, a + f, b + g, h);
    SortedJoin(nets, fws, a, f, h);
    SortedJoin(nets, fws, b, g, h);
  }

  /** No buffer belongs to a client that there is not. */
  lemma {:induction false} NoSuchHome(nets: seq<Region>, fws: seq<Region>, q: seq<Desc>, n: nat, h: Home)
    requires n <= |q| && ((h.Net? && h.client >= |nets|) || (h.Fw? && h.client >= |fws|))
    ensures SortedTo(nets, fws, q, n, h) == []
  {
    if n > 0 {
      NoSuchHome(nets, fws, q, n - 1, h);
    }
  }

  lemma Returned(nets: seq<Region>, fws: seq<Region>, home: seq<nat>, na: seq<seq<Desc>>, nf: seq<seq<Desc>>, fa: seq<seq<FwDesc>>, ff: seq<seq<Desc>>,
                 nf': seq<seq<Desc>>, ff': seq<seq<Desc>>, q: seq<Desc>, h: Home)
    requires |na| == |nf| == |nf'| == |nets| && |ff| == |ff'| == |fws| && Sorted(nets, fws, q, Nobody) == []
    requires forall c :: 0 <= c < |nets| ==> nf'[c] == nf[c] + Sorted(nets, fws, q, Net(c))
    requires forall k :: 0 <= k < |fws| ==> ff'[k] == ff[k] + Sorted(nets, fws, q, Fw(k))
    ensures AtHome(na, nf', fa, ff', home, h) == AtHome(na, nf, fa, ff, home, h) + multiset(Sorted(nets, fws, q, h))
  {
    if (h.Net? && h.client >= |nets|) || (h.Fw? && h.client >= |fws|) {
      NoSuchHome(nets, fws, q, |q|, h);
    }
    hide Sorted, OwnAll;
  }

  lemma SortedEmpty(nets: seq<Region>, fws: seq<Region>)
    ensures forall h {:trigger Sorted(nets, fws, [], h)} :: Sorted(nets, fws, [], h) == []
  {
  }

  /** tx_return in a run. */
  method Return(tx: VirtTx, ghost home: seq<nat>)
    requires Running(tx, home)
    modifies tx`netFree, tx`fwFree, tx`drvFree
    ensures Running(tx, home) && tx.drvFree == [] && forall h :: Owed(tx, home, h) == old(Owed(tx, home, h))
  {
    hide OwnAll, Sorted, Apart, Serves, Within, VirtTx.FwProper, AtHome;
    ghost var nets, fws, q, nf, ff := tx.nets, tx.fws, tx.drvFree, tx.netFree, tx.fwFree;
    AllHomed(nets, fws, q, AtHome(tx.netActive, nf, tx.fwActive, ff, home, Nobody) + multiset(Sorted(nets, fws, tx.drvActive, Nobody)));
    tx.TxReturn();
    SortedEmpty(nets, fws);
    forall h
      ensures AtHome(tx.netActive, tx.netFree, tx.fwActive, tx.fwFree, home, h)
              == AtHome(tx.netActive, nf, tx.fwActive, ff, home, h) + multiset(Sorted(nets, fws, q, h))
    {
      Returned(nets, fws, home, tx.netActive, nf, tx.fwActive, ff, tx.netFree, tx.fwFree, q, h);
    }
  }

  lemma AllHomed(nets: seq<Region>, fws: seq<Region>, q: seq<Desc>, others: multiset<Desc>)
    requires others + multiset(Sorted(nets, fws, q, Nobody)) == multiset{}
    ensures Sorted(nets, fws, q, Nobody) == [] && forall i :: 0 <= i < |q| ==> HomeOf(nets, fws, q[i].at) != Nobody
  {
    var s := Sorted(nets, fws, q, Nobody);
    assert |multiset(s)| == |s| && |others + multiset(s)| == |others| + |multiset(s)|;
    HomelessSorted(nets, fws, q, |q|);
  }

  datatype Event = Provides | Sends(active: seq<Desc>, free: seq<Desc>) | Returns

  lemma RunningValid(tx: VirtTx, home: seq<nat>)
    requires Running(tx, home)
    ensures tx.Valid()
  {
  }

  /** Every run of tx_provide, tx_return and a driver that sends in any order and as
      much as it likes keeps, for each client, exactly its buffers with their
      offsets; when no buffer is on its way they are all back in its queues. */
  method Run(tx: VirtTx, es: seq<Event>, ghost home: seq<nat>)
    requires tx.Valid() && Running(tx, home)
    modifies tx
    ensures tx.Valid() && Running(tx, home) && forall h :: Owed(tx, home, h) == old(Owed(tx, home, h))
    ensures tx.drvActive == tx.drvFree == [] ==>
              forall h :: AtHome(tx.netActive, tx.netFree, tx.fwActive, tx.fwFree, home, h) == old(Owed(tx, home, h))
  {
    hide Running, Owed, AtHome;
    for i := 0 to |es|
      invariant Running(tx, home) && tx.Valid() && forall h :: Owed(tx, home, h) == old(Owed(tx, home, h))
    {
      match es[i] {
        case Provides => Provide(tx, home);
        case Sends(active, free) =>
          if multiset(active) + multiset(free) == multiset(tx.drvActive) + multiset(tx.drvFree) {
            DriverStep(tx, active, free, home);
          }
        case Returns => Return(tx, home);
      }
      RunningValid(tx, home);
    }
    OwedIdle(tx, home);
  }

  lemma OwedIdle(tx: VirtTx, home: seq<nat>)
    requires tx.Valid()
    ensures tx.drvActive == tx.drvFree == [] ==>
              forall h :: Owed(tx, home, h) == AtHome(tx.netActive, tx.netFree, tx.fwActive, tx.fwFree, home, h)
  {
    SortedEmpty(tx.nets, tx.fws);
    hide Sorted, AtHome;
  }
}
