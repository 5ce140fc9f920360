/** The routing table of the firewall: routes with bounded next-hop recursion.
    Addresses are in host byte order. */
module RoutingTable {
  import opened Subnets

  const NO_NEXT_HOP: bv32 := 0
  const MAX_RECURSION: nat := 3

  datatype Option<T> = None | Some(value: T)

  datatype Status = Okay | Full | Duplicate | Clash | InvalidId | InvalidRoute

  datatype Route = Route(ip: bv32, subnet: nat, interface: nat, nextHop: bv32)

  predicate Covers(r: Route, ip: bv32) {
    Masked(ip, r.subnet) == r.ip
  }

  /** The destinations that a route is for. */
  predicate SamePrefix(a: Route, b: Route) {
    a.subnet == b.subnet && a.ip == b.ip
  }

  /* ---- What a set of routes means ---- */

  predicate Canonical(r: Route) {
    r.subnet <= 32 && r.ip == Masked(r.ip, r.subnet) && !(r.subnet == 0 && r.nextHop == NO_NEXT_HOP)
  }

  /** A route of a table covers the addresses with the same highest bits as its own. */
  lemma CoversPrefix(r: Route, ip: bv32)
    requires Canonical(r)
    ensures Covers(r, ip) <==> Agree(r.ip, ip, r.subnet)
  {
    hide Masked, Agree;
    MaskedAgree(r.ip, ip, r.subnet);
  }

  /** A default route covers every address, a host route its own only. */
  lemma DefaultAndHost(r: Route, ip: bv32)
    requires Canonical(r)
    ensures r.subnet == 0 ==> Covers(r, ip)
    ensures r.subnet == 32 ==> (Covers(r, ip) <==> ip == r.ip)
  {
    hide Masked, Bit;
    CoversPrefix(r, ip);
    if r.subnet == 32 && Covers(r, ip) {
      SameBits(r.ip, ip);
    }
  }

  /** r is among the routes whose prefix the address has, and none of these has a
      longer one. */
  ghost predicate LongestPrefix(rs: set<Route>, ip: bv32, r: Route) {
    r in rs && Agree(r.ip, ip, r.subnet) && forall o :: o in rs && Agree(o.ip, ip, o.subnet) ==> o.subnet <= r.subnet
  }

  ghost predicate CanonicalSet(rs: set<Route>) {
    forall r :: r in rs ==> Canonical(r)
  }

  /** What a lookup finds is the route with the longest prefix, if there is one. */
  lemma LookupLongest(rs: set<Route>, ip: bv32)
    requires CanonicalSet(rs) && Unique(rs)
    ensures Lookup(rs, ip) == None <==> forall r :: r in rs ==> !Agree(r.ip, ip, r.subnet)
    ensures forall r :: Lookup(rs, ip) == Some(r) <==> LongestPrefix(rs, ip, r)
  {
    hide Covers, Agree, Canonical;
    LookupFails(rs, ip);
    forall r | r in rs
      ensures Covers(r, ip) <==> Agree(r.ip, ip, r.subnet)
    {
      CoversPrefix(r, ip);
    }
    forall r
      ensures Lookup(rs, ip) == Some(r) <==> LongestPrefix(rs, ip, r)
    {
      assert LongestPrefix(rs, ip, r) <==> Best(rs, ip, r);
      if Best(rs, ip, r) { BestUnique(rs, ip, r); }
    }
  }

  ghost predicate Unique(rs: set<Route>) {
    forall a, b :: a in rs && b in rs && SamePrefix(a, b) ==> a == b
  }

  ghost predicate Best(rs: set<Route>, ip: bv32, r: Route) {
    r in rs && Covers(r, ip) && forall o :: o in rs && Covers(o, ip) ==> o.subnet <= r.subnet
  }

  /** Longest-prefix match. */
  ghost function Lookup(rs: set<Route>, ip: bv32): Option<Route> {
    if r :| Best(rs, ip, r) then Some(r) else None
  }

  lemma BestUnique(rs: set<Route>, ip: bv32, r: Route)
    requires Unique(rs) && Best(rs, ip, r)
    ensures Lookup(rs, ip) == Some(r)
  {
    var o := Lookup(rs, ip).value;
    assert Best(rs, ip, o);
    assert SamePrefix(r, o);
  }

  /** A lookup fails exactly when no route covers the address. */
  lemma {:induction false} LookupFails(rs: set<Route>, ip: bv32)
    ensures Lookup(rs, ip) == None <==> forall r :: r in rs ==> !Covers(r, ip)
    decreases |rs|
  {
    if r :| r in rs && Covers(r, ip) {
      var rest := rs - {r};
      LookupFails(rest, ip);
      var best := if Lookup(rest, ip).Some? && Lookup(rest, ip).value.subnet >= r.subnet then Lookup(rest, ip).value else r;
      assert forall o :: o in rs ==> o == r || o in rest;
      assert Best(rs, ip, best);
    }
  }

  datatype Resolution = Unreachable | Via(hop: bv32, route: Route)

  /** Look the address up; a route with a next hop asks for that instead. */
  ghost function Resolve(rs: set<Route>, ip: bv32, fuel: nat): Resolution
    decreases fuel
  {
    if fuel == 0 then Unreachable else
      match Lookup(rs, ip)
      case None => Unreachable
      case Some(r) => if r.nextHop == NO_NEXT_HOP then Via(ip, r) else Resolve(rs, r.nextHop, fuel - 1)
  }

  /** An address is resolved by a route without next hop that has the longest prefix of
      the address it resolves to. */
  lemma {:induction false} ResolvedLongest(rs: set<Route>, ip: bv32, fuel: nat)
    requires CanonicalSet(rs) && Unique(rs) && Resolve(rs, ip, fuel).Via?
    ensures var v := Resolve(rs, ip, fuel); v.route.nextHop == NO_NEXT_HOP && LongestPrefix(rs, v.hop, v.route)
    decreases fuel
  {
    hide LongestPrefix, CanonicalSet, Unique;
    LookupLongest(rs, ip);
    var r := Lookup(rs, ip).value;
    if r.nextHop != NO_NEXT_HOP {
      ResolvedLongest(rs, r.nextHop, fuel - 1);
    }
  }

  /** The address asked for after n next hops. */
  ghost function Follow(rs: set<Route>, ip: bv32, n: nat): Option<bv32>
    decreases n
  {
    if n == 0 then Some(ip) else
      match Lookup(rs, ip)
      case None => None
      case Some(r) => if r.nextHop == NO_NEXT_HOP then None else Follow(rs, r.nextHop, n - 1)
  }

  ghost predicate Direct(rs: set<Route>, ip: bv32) {
    Lookup(rs, ip).Some? && Lookup(rs, ip).value.nextHop == NO_NEXT_HOP
  }

  /** An address resolves exactly when fewer next hops than the limit lead to a
      directly connected one, and then to that one and its route. */
  lemma {:induction false} ResolvesByHops(rs: set<Route>, ip: bv32, fuel: nat, n: nat, hop: bv32)
    requires Follow(rs, ip, n) == Some(hop) && Direct(rs, hop)
    ensures Resolve(rs, ip, fuel) == if n < fuel then Via(hop, Lookup(rs, hop).value) else Unreachable
    decreases n
  {
    if n > 0 && fuel > 0 {
      ResolvesByHops(rs, Lookup(rs, ip).value.nextHop, fuel - 1, n - 1, hop);
    }
  }

  lemma {:induction false} HopsOfResolved(rs: set<Route>, ip: bv32, fuel: nat) returns (n: nat)
    requires Resolve(rs, ip, fuel).Via?
    ensures var hop := Resolve(rs, ip, fuel).hop;
            n < fuel && Follow(rs, ip, n) == Some(hop) && Direct(rs, hop) && (hop == NO_NEXT_HOP ==> n == 0)
    decreases fuel
  {
    if Direct(rs, ip) {
      return 0;
    }
    n := HopsOfResolved(rs, Lookup(rs, ip).value.nextHop, fuel - 1);
    n := n + 1;
  }

  lemma {:induction false} FollowAdds(rs: set<Route>, ip: bv32, m: nat, n: nat)
    ensures Follow(rs, ip, m + n) == match Follow(rs, ip, m) case None => None case Some(a) => Follow(rs, a, n)
    decreases m
  {
    if m > 0 && Lookup(rs, ip).Some? && Lookup(rs, ip).value.nextHop != NO_NEXT_HOP {
      FollowAdds(rs, Lookup(rs, ip).value.nextHop, m - 1, n);
    }
  }

  lemma {:induction false} CycleGoesOn(rs: set<Route>, a: bv32, period: nat, n: nat)
    requires period > 0 && Follow(rs, a, period) == Some(a)
    ensures Follow(rs, a, n).Some?
    decreases n
  {
    if n >= period {
      FollowAdds(rs, a, period, n - period);
      CycleGoesOn(rs, a, period, n - period);
    } else {
      FollowAdds(rs, a, n, period - n);
    }
  }

  /** Next hops that lead back to an address asked for before lead to no route,
      whatever the limit. */
  lemma CyclesUnreachable(rs: set<Route>, ip: bv32, j: nat, k: nat, fuel: nat)
    requires j < k && Follow(rs, ip, j).Some? && Follow(rs, ip, j) == Follow(rs, ip, k)
    ensures Resolve(rs, ip, fuel) == Unreachable
  {
    if Resolve(rs, ip, fuel).Via? {
      var n := HopsOfResolved(rs, ip, fuel);
      var a := Follow(rs, ip, j).value;
      FollowAdds(rs, ip, n, 1);
      assert Follow(rs, ip, n + 1) == None;
      FollowAdds(rs, ip, j, k - j);
      if n + 1 >= j {
        FollowAdds(rs, ip, j, n + 1 - j);
        CycleGoesOn(rs, a, k - j, n + 1 - j);
      } else {
        FollowAdds(rs, ip, n + 1, j - n - 1);
      }
    }
  }

  /** A new route takes the addresses it covers for which there was no route at
      least as long, and no others. */
  lemma AddedLookup(rs: set<Route>, new_: Route, ip: bv32)
    requires Unique(rs + {new_}) && new_ !in rs
    ensures Lookup(rs + {new_}, ip) ==
              var before := Lookup(rs, ip);
              if Covers(new_, ip) && (before == None || before.value.subnet < new_.subnet) then Some(new_) else before
  {
    var all, before := rs + {new_}, Lookup(rs, ip);
    LookupFails(rs, ip);
    if Covers(new_, ip) && (before == None || before.value.subnet < new_.subnet) {
      BestUnique(all, ip, new_);
    } else if before.Some? {
      assert Best(all, ip, before.value) by {
        if Covers(new_, ip) && before.value.subnet == new_.subnet {
          assert SamePrefix(before.value, new_);
        }
      }
      BestUnique(all, ip, before.value);
    } else {
      LookupFails(all, ip);
    }
  }

  /* ---- The table ---- */

  ghost predicate UniqueSeq(q: seq<Route>) {
    forall i, j :: 0 <= i < j < |q| ==> !SamePrefix(q[i], q[j])
  }

  ghost predicate CanonicalSeq(q: seq<Route>) {
    forall i :: 0 <= i < |q| ==> Canonical(q[i])
  }

  function SetOf(q: seq<Route>): set<Route> {
    set r | r in q
  }

  lemma OnlyOne(q: seq<Route>, i: nat, r: Route)
    requires UniqueSeq(q) && i < |q| && SamePrefix(q[i], r)
    ensures (exists o :: o in q && SamePrefix(o, r)) && (r in q <==> q[i] == r)
  {
    assert q[i] in q;
    if k :| 0 <= k < |q| && q[k] == r {
      assert SamePrefix(q[i], q[k]) && SamePrefix(q[k], q[i]);
    }
  }

  lemma UniqueSet(q: seq<Route>)
    requires UniqueSeq(q)
    ensures Unique(SetOf(q))
  {
    forall a, b | a in SetOf(q) && b in SetOf(q) && SamePrefix(a, b)
      ensures a == b
    {
      var i :| 0 <= i < |q| && q[i] == a;
      var j :| 0 <= j < |q| && q[j] == b;
    }
  }

  lemma UniqueWithout(q: seq<Route>, id: nat)
    requires UniqueSeq(q) && CanonicalSeq(q) && id < |q|
    ensures UniqueSeq(q[..id] + q[id + 1..]) && CanonicalSeq(q[..id] + q[id + 1..])
    ensures SetOf(q[..id] + q[id + 1..]) == SetOf(q) - {q[id]}
  {
    hide Canonical;
    var p := q[..id] + q[id + 1..];
    forall r
      ensures r in p <==> r in q && r != q[id]
    {
      if r in q && r != q[id] {
        var i :| 0 <= i < |q| && q[i] == r;
        assert p[if i < id then i else i - 1] == r;
      }
      if r in p {
        var k :| 0 <= k < |p| && p[k] == r;
        assert r == q[if k < id then k else k + 1];
      }
    }
  }

  /** The outcome of adding a route to the given ones. */
  ghost function AddStatus(q: seq<Route>, capacity: nat, r: Route): Status {
    if r.subnet == 0 && r.nextHop == NO_NEXT_HOP then InvalidRoute
    else if |q| >= capacity then Full
    else if exists o :: o in q && SamePrefix(o, r) then
      if r in q then Duplicate else Clash
    else Okay
  }

  /** generic_array_shift. */
  method Shift(a: array<Route>, index: nat)
    requires index < a.Length
    modifies a
    ensures a[..a.Length - 1] == old(a[..])[..index] + old(a[..])[index + 1..]
  {
    var shiftLen := a.Length - index - 1;
    if shiftLen > 0 {
      forall i | index <= i < a.Length - 1 {
        a[i] := a[i + 1];
      }
    }
  }

  class Table {
    const entries: array<Route>
    var size: nat

    ghost predicate Valid()
      reads this, entries
    {
      size <= entries.Length && CanonicalSeq(entries[..size]) && UniqueSeq(entries[..size])
    }

    ghost function Routes(): set<Route>
      requires Valid()
      reads this, entries
    {
      SetOf(entries[..size])
    }

    lemma Wellformed()
      requires Valid()
      ensures CanonicalSet(Routes()) && Unique(Routes())
      ensures forall r :: r in Routes() <==> exists k :: 0 <= k < size && entries[k] == r
    {
      hide Canonical;
      UniqueSet(entries[..size]);
      forall r | r in Routes()
        ensures Canonical(r) && exists k :: 0 <= k < size && entries[k] == r
      {
        var k :| 0 <= k < size && entries[..size][k] == r;
      }
    }

    constructor (capacity: nat)
      ensures Valid() && fresh(entries) && entries.Length == capacity && size == 0
    {
      entries := new Route[capacity](_ => Route(0, 0, 0, 0));
      size := 0;
    }

    /** The inner loop of fw_routing_find_route. */
    method FindMatch(ip: bv32) returns (found: Option<Route>)
      requires Valid()
      ensures found == Lookup(Routes(), ip)
      ensures found == None <==> forall k :: 0 <= k < size ==> !Agree(entries[k].ip, ip, entries[k].subnet)
      ensures forall r :: found == Some(r) <==> LongestPrefix(Routes(), ip, r)
    {
      hide Canonical, Masked, Agree;
      Wellformed();
      LookupLongest(Routes(), ip);
      hide LongestPrefix;
      found := None;
      for i := 0 to size
        invariant found == None ==> forall k :: 0 <= k < i ==> !Covers(entries[k], ip)
        invariant found.Some? ==> found.value in entries[..i] && Covers(found.value, ip)
        invariant found.Some? ==> forall k :: 0 <= k < i && Covers(entries[k], ip) ==> entries[k].subnet <= found.value.subnet
      {
        var entry := entries[i];
        assert entries[..i + 1] == entries[..i] + [entry];
        if Masked(ip, entry.subnet) == entry.ip {
          if found.Some? && found.value.subnet > entry.subnet {
            continue;
          }
          found := Some(entry);
        }
      }
      UniqueSet(entries[..size]);
      assert forall r :: r in Routes() ==> exists k :: 0 <= k < size && entries[k] == r;
      if found.Some? {
        assert Best(Routes(), ip, found.value);
        BestUnique(Routes(), ip, found.value);
      } else {
        LookupFails(Routes(), ip);
      }
    }

    /** fw_routing_find_route; the last two results are the given ones if there is no route. */
    method FindRoute(ip0: bv32, subnet0: nat, interface0: nat) returns (ip: bv32, subnet: nat, interface: nat)
      requires Valid()
      ensures match Resolve(Routes(), ip0, MAX_RECURSION)
              case Unreachable => ip == NO_NEXT_HOP && subnet == subnet0 && interface == interface0
              case Via(hop, r) => ip == hop && subnet == r.subnet && interface == r.interface
                                  && r.nextHop == NO_NEXT_HOP && LongestPrefix(Routes(), ip, r)
    {
      Wellformed();
      if Resolve(Routes(), ip0, MAX_RECURSION).Via? { ResolvedLongest(Routes(), ip0, MAX_RECURSION); }
      hide Lookup, Valid, Routes, LongestPrefix;
      ip, subnet, interface := ip0, subnet0, interface0;
      var lookups: nat := 0;
      while lookups < MAX_RECURSION
        invariant lookups <= MAX_RECURSION && Resolve(Routes(), ip, MAX_RECURSION - lookups) == Resolve(Routes(), ip0, MAX_RECURSION)
      {
        var found := FindMatch(ip);
        if found == None {
          return NO_NEXT_HOP, subnet0, interface0;
        }
        if found.value.nextHop == NO_NEXT_HOP {
          return ip, found.value.subnet, found.value.interface;
        }
        ip := found.value.nextHop;
        lookups := lookups + 1;
      }
      ip := NO_NEXT_HOP;
    }

    /** The scan of fw_routing_table_add_route. */
    method Clashing(r: Route) returns (status: Status)
      requires Valid()
      ensures status == if exists o :: o in entries[..size] && SamePrefix(o, r) then
                          (if r in entries[..size] then Duplicate else Clash) else Okay
    {
      hide Canonical;
      for i := 0 to size
        invariant forall k :: 0 <= k < i ==> !SamePrefix(entries[k], r)
      {
        var entry := entries[i];
        if r.subnet != entry.subnet {
          continue;
        }
        if r.ip != entry.ip {
          continue;
        }
        OnlyOne(entries[..size], i, r);
        if r.interface == entry.interface && r.nextHop == entry.nextHop {
          return Duplicate;
        } else {
          return Clash;
        }
      }
      return Okay;
    }

    /** fw_routing_table_add_route. */
    method AddRoute(interface: nat, ip: bv32, subnet: nat, nextHop: bv32) returns (status: Status)
      requires Valid() && subnet <= 32
      modifies this`size, entries
      ensures Valid()
      ensures var r := Route(Masked(ip, subnet), subnet, interface, nextHop);
              status == AddStatus(old(entries[..size]), entries.Length, r)
              && entries[..size] == old(entries[..size]) + if status == Okay then [r] else []
    {
      hide Masked;
      var r := Route(Masked(ip, subnet), subnet, interface, nextHop);
      ghost var q := entries[..size];
      assert q + [] == q;
      if subnet == 0 && nextHop == NO_NEXT_HOP {
        return InvalidRoute;
      } else if size >= entries.Length {
        return Full;
      }
      status := Clashing(r);
      if status != Okay {
        return;
      }
      MaskedTwice(ip, subnet);
      entries[size] := r;
      size := size + 1;
      assert entries[..size] == q + [r];
      assert forall k :: 0 <= k < |q| ==> q[k] in q;
    }

    /** fw_routing_table_remove_route. */
    method RemoveRoute(id: nat) returns (status: Status)
      requires Valid()
      modifies this`size, entries
      ensures Valid()
      ensures id >= old(size) ==> status == InvalidId && entries[..size] == old(entries[..size])
      ensures id < old(size) ==> status == Okay && entries[..size] == old(entries[..size])[..id] + old(entries[..size])[id + 1..]
      ensures id < old(size) ==> Routes() == old(Routes()) - {old(entries[id])}
    {
      if id >= size {
        return InvalidId;
      }
      ghost var q := entries[..size];
      UniqueWithout(q, id);
      ghost var all := entries[..];
      Shift(entries, id);
      size := size - 1;
      assert entries[..size] == (all[..id] + all[id + 1..])[..size] == q[..id] + q[id + 1..];
      return Okay;
    }
  }

  /** Initial routes that the table takes: valid, few enough, for distinct subnets. */
  ghost predicate Acceptable(initial: seq<Route>, capacity: nat) {
    |initial| <= capacity && UniqueSeq(MaskedAll(initial)) && forall i :: 0 <= i < |initial| ==> !(initial[i].subnet == 0 && initial[i].nextHop == NO_NEXT_HOP)
  }

  function MaskedAll(q: seq<Route>): (r: seq<Route>)
    ensures |r| == |q|
  {
    seq(|q|, i requires 0 <= i < |q| => q[i].(ip := Masked(q[i].ip, q[i].subnet)))
  }

  lemma Rejected(initial: seq<Route>, capacity: nat, i: nat, r: Route)
    requires i < |initial| && r == MaskedAll(initial)[i]
    requires AddStatus(MaskedAll(initial)[..i], capacity, r) != Okay
    ensures !Acceptable(initial, capacity)
  {
    hide Masked;
    if o :| o in MaskedAll(initial)[..i] && SamePrefix(o, r) {
      var k :| 0 <= k < i && MaskedAll(initial)[k] == o;
      assert SamePrefix(MaskedAll(initial)[k], MaskedAll(initial)[i]);
    }
  }

  lemma AllTaken(initial: seq<Route>, capacity: nat, t: seq<Route>)
    requires t == MaskedAll(initial) && CanonicalSeq(t) && UniqueSeq(t) && |t| <= capacity
    ensures Acceptable(initial, capacity)
  {
    hide Masked;
    forall i | 0 <= i < |initial|
      ensures !(initial[i].subnet == 0 && initial[i].nextHop == NO_NEXT_HOP)
    {
      assert Canonical(t[i]);
    }
  }

  /** fw_routing_table_init; failed is the failure of its assertion. */
  method Init(capacity: nat, initial: seq<Route>) returns (table: Table, failed: bool)
    requires forall i :: 0 <= i < |initial| ==> initial[i].subnet <= 32
    ensures fresh(table) && fresh(table.entries) && table.Valid() && table.entries.Length == capacity
    ensures failed <==> !Acceptable(initial, capacity)
    ensures !failed ==> table.entries[..table.size] == MaskedAll(initial)
  {
    hide Masked, Acceptable, Canonical;
    table := new Table(capacity);
    for r := 0 to |initial|
      invariant table.Valid() && table.size == r && table.entries[..r] == MaskedAll(initial)[..r]
    {
      var err := table.AddRoute(initial[r].interface, initial[r].ip, initial[r].subnet, initial[r].nextHop);
      if err != Okay {
        Rejected(initial, capacity, r, MaskedAll(initial)[r]);
        return table, true;
      }
    }
    assert MaskedAll(initial)[..|initial|] == MaskedAll(initial);
    AllTaken(initial, capacity, table.entries[..table.size]);
    return table, false;
  }
}
