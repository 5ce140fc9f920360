/** The pool of packets that wait for an ARP reply.  One array of nodes holds
    three kinds of intrusive list: the free list, the doubly linked list of roots
    (one per destination address) and a list of children below each root. */
module PacketPool {
  /** An IPv4 address, in host byte order. */
  datatype Ip = Ip(bits: bv32)

  datatype Buff = Buff(offset: nat, len: nat, iface: nat)

  datatype Node = Node(next: nat, prev: nat, child: nat, numChildren: nat, tail: nat, ip: Ip, buffer: Buff)

  datatype Option<T> = None | Some(value: T)

  datatype Err = Okay | Full

  /** A destination address and the packets waiting for it, first come first. */
  datatype Queue = Queue(ip: Ip, buffs: seq<Buff>)

  /** The fields of the pool as one value. */
  datatype State = State(nodes: seq<Node>, size: nat, length: nat, head: nat, tail: nat, free: nat)

  /* ---- Shape ---- */

  ghost predicate NoRepeat(s: seq<nat>) {
    forall i, j :: 0 <= i < j < |s| ==> s[i] != s[j]
  }

  /** The i-th node of the list leads to the next one, or back to the previous
      one, or down to its child. */
  ghost predicate NextAt(nodes: seq<Node>, l: seq<nat>, i: nat) {
    i + 1 < |l| && l[i] < |nodes| && nodes[l[i]].next == l[i + 1]
  }

  ghost predicate PrevAt(nodes: seq<Node>, l: seq<nat>, i: nat) {
    0 < i < |l| && l[i] < |nodes| && nodes[l[i]].prev == l[i - 1]
  }

  ghost predicate ChildAt(nodes: seq<Node>, l: seq<nat>, i: nat) {
    i + 1 < |l| && l[i] < |nodes| && nodes[l[i]].child == l[i + 1]
  }

  ghost predicate FreeList(s: State, fl: seq<nat>) {
    && NoRepeat(fl)
    && (forall k :: 0 <= k < |fl| ==> fl[k] < |s.nodes|)
    && (fl != [] ==> s.free == fl[0])
    && (forall k: nat :: k + 1 < |fl| ==> NextAt(s.nodes, fl, k))
  }

  /** g is a root followed by its children. */
  ghost predicate Group(nodes: seq<Node>, g: seq<nat>) {
    && g != [] && NoRepeat(g)
    && (forall j :: 0 <= j < |g| ==> g[j] < |nodes|)
    && (forall j: nat :: j + 1 < |g| ==> ChildAt(nodes, g, j))
    && nodes[g[0]].tail == g[|g| - 1] && nodes[g[0]].numChildren == |g| - 1
  }

  ghost predicate Groups(nodes: seq<Node>, gs: seq<seq<nat>>) {
    forall i :: 0 <= i < |gs| ==> Group(nodes, gs[i])
  }

  /** The first nodes of the groups. */
  function Firsts(gs: seq<seq<nat>>): (r: seq<nat>)
    ensures |r| == |gs| && forall i :: 0 <= i < |gs| && gs[i] != [] ==> r[i] == gs[i][0]
  {
    seq(|gs|, i requires 0 <= i < |gs| => if gs[i] == [] then 0 else gs[i][0])
  }

  /** The doubly linked list of roots. */
  ghost predicate RootList(s: State, rs: seq<nat>) {
    && s.length == |rs| && NoRepeat(rs)
    && (forall i :: 0 <= i < |rs| ==> rs[i] < |s.nodes|)
    && (rs != [] ==> s.head == rs[0] && s.tail == rs[|rs| - 1])
    && (forall i: nat :: i + 1 < |rs| ==> NextAt(s.nodes, rs, i))
    && (forall i: nat :: 0 < i < |rs| ==> PrevAt(s.nodes, rs, i))
  }

  /** Who holds each node: a root its group, n the free list. */
  ghost predicate Owned(n: nat, fl: seq<nat>, gs: seq<seq<nat>>, owner: seq<nat>) {
    && |owner| == n
    && (forall k :: 0 <= k < |fl| ==> fl[k] < n && owner[fl[k]] == n)
    && (forall i, j :: 0 <= i < |gs| && 0 <= j < |gs[i]| ==> gs[i][j] < n && owner[gs[i][j]] == gs[i][0])
  }

  ghost predicate InGroups(gs: seq<seq<nat>>, k: nat) {
    exists i :: 0 <= i < |gs| && k in gs[i]
  }

  ghost predicate Covered(n: nat, fl: seq<nat>, gs: seq<seq<nat>>) {
    forall k: nat :: k < n ==> k in fl || InGroups(gs, k)
  }

  function Total(gs: seq<seq<nat>>): nat {
    if gs == [] then 0 else |gs[0]| + Total(gs[1..])
  }

  /** Every node is on exactly one list, and the sizes add up. */
  ghost predicate Shape(s: State, fl: seq<nat>, gs: seq<seq<nat>>, owner: seq<nat>) {
    && FreeList(s, fl) && Groups(s.nodes, gs) && RootList(s, Firsts(gs))
    && Owned(|s.nodes|, fl, gs, owner)
    && Covered(|s.nodes|, fl, gs)
    && s.size == Total(gs) && s.size + |fl| == |s.nodes|
  }

  /** Putting the parts together, and taking them apart. */
  lemma MakeShape(s: State, fl: seq<nat>, gs: seq<seq<nat>>, owner: seq<nat>)
    requires FreeList(s, fl) && Groups(s.nodes, gs) && RootList(s, Firsts(gs)) && Owned(|s.nodes|, fl, gs, owner)
    requires Covered(|s.nodes|, fl, gs)
    requires s.size == Total(gs) && s.size + |fl| == |s.nodes|
    ensures Shape(s, fl, gs, owner)
  {
  }

  lemma ShapeParts(s: State, fl: seq<nat>, gs: seq<seq<nat>>, owner: seq<nat>)
    requires Shape(s, fl, gs, owner)
    ensures FreeList(s, fl) && Groups(s.nodes, gs) && RootList(s, Firsts(gs)) && Owned(|s.nodes|, fl, gs, owner)
    ensures Covered(|s.nodes|, fl, gs) && s.size == Total(gs) && s.size + |fl| == |s.nodes| && NoRepeat(fl)
  {
  }

  /** What the pool holds. */
  function Buffs(nodes: seq<Node>, g: seq<nat>): (b: seq<Buff>)
    requires forall j :: 0 <= j < |g| ==> g[j] < |nodes|
    ensures |b| == |g|
  {
    seq(|g|, j requires 0 <= j < |g| => nodes[g[j]].buffer)
  }

  ghost function Waiting(nodes: seq<Node>, gs: seq<seq<nat>>): (w: seq<Queue>)
    requires Groups(nodes, gs)
    ensures |w| == |gs|
  {
    seq(|gs|, i requires 0 <= i < |gs| => Queue(nodes[gs[i][0]].ip, Buffs(nodes, gs[i])))
  }

  /** How many packets wait. */
  function Packets(w: seq<Queue>): nat {
    if w == [] then 0 else |w[0].buffs| + Packets(w[1..])
  }

  lemma {:induction false} PacketsTotal(nodes: seq<Node>, gs: seq<seq<nat>>)
    requires Groups(nodes, gs)
    ensures Packets(Waiting(nodes, gs)) == Total(gs)
  {
    if gs != [] {
      assert Groups(nodes, gs[1..]) && Waiting(nodes, gs)[1..] == Waiting(nodes, gs[1..]);
      PacketsTotal(nodes, gs[1..]);
    }
  }

  /* ---- Lemmas on the lists ---- */

  lemma {:induction false} TotalSplit(gs: seq<seq<nat>>, i: nat)
    requires i < |gs|
    ensures Total(gs) == Total(gs[..i]) + |gs[i]| + Total(gs[i + 1..])
  {
    if i > 0 {
      TotalSplit(gs[1..], i - 1);
      assert gs[1..][..i - 1] == gs[..i][1..] && gs[1..][i - 1 + 1..] == gs[i + 1..];
      assert gs[..i] != [] && gs[..i][0] == gs[0];
    }
  }

  lemma {:induction false} TotalJoin(a: seq<seq<nat>>, b: seq<seq<nat>>)
    ensures Total(a + b) == Total(a) + Total(b)
  {
    if a == [] {
      assert a + b == b;
    } else {
      TotalJoin(a[1..], b);
      assert (a + b)[1..] == a[1..] + b;
    }
  }

  /** Replacing (or dropping) one group. */
  lemma TotalChange(gs: seq<seq<nat>>, i: nat, g: seq<nat>)
    requires i < |gs|
    ensures Total(gs[i := g]) == Total(gs) - |gs[i]| + |g|
    ensures Total(gs[..i] + gs[i + 1..]) == Total(gs) - |gs[i]|
  {
    TotalSplit(gs, i);
    var h := gs[i := g];
    TotalSplit(h, i);
    assert h[..i] == gs[..i] && h[i + 1..] == gs[i + 1..];
    TotalJoin(gs[..i], gs[i + 1..]);
  }

  /** The nodes of g kept everything but their next and prev links. */
  ghost predicate Kept(nodes: seq<Node>, nodes': seq<Node>, g: seq<nat>) {
    && |nodes'| == |nodes|
    && forall j :: 0 <= j < |g| && g[j] < |nodes| ==>
         var a, b := nodes[g[j]], nodes'[g[j]];
         b.child == a.child && b.tail == a.tail && b.numChildren == a.numChildren && b.ip == a.ip && b.buffer == a.buffer
  }

  lemma KeptGroup(nodes: seq<Node>, nodes': seq<Node>, g: seq<nat>)
    requires Group(nodes, g) && Kept(nodes, nodes', g)
    ensures Group(nodes', g) && nodes'[g[0]].ip == nodes[g[0]].ip && Buffs(nodes', g) == Buffs(nodes, g)
  {
    forall j: nat | j + 1 < |g|
      ensures ChildAt(nodes', g, j)
    {
      assert ChildAt(nodes, g, j);
    }
  }

  lemma NotEmpty(nodes: seq<Node>, gs: seq<seq<nat>>)
    requires Groups(nodes, gs)
    ensures forall i :: 0 <= i < |gs| ==> gs[i] != [] && Firsts(gs)[i] == gs[i][0] < |nodes|
  {
    assert forall i :: 0 <= i < |gs| ==> Group(nodes, gs[i]);
  }

  /** A free node is in no group. */
  lemma FreeApart(s: State, fl: seq<nat>, gs: seq<seq<nat>>, owner: seq<nat>, x: nat)
    requires Shape(s, fl, gs, owner) && x in fl
    ensures forall i, j :: 0 <= i < |gs| && 0 <= j < |gs[i]| ==> gs[i][j] != x
    ensures x !in Firsts(gs)
  {
    NotEmpty(s.nodes, gs);
    forall i, j | 0 <= i < |gs| && 0 <= j < |gs[i]|
      ensures gs[i][j] != x
    {
      assert owner[gs[i][j]] == gs[i][0];
    }
  }

  /** The nodes of one group are neither free nor in another group. */
  lemma GroupApart(s: State, fl: seq<nat>, gs: seq<seq<nat>>, owner: seq<nat>, i: nat)
    requires Shape(s, fl, gs, owner) && i < |gs|
    ensures forall h, j :: 0 <= h < |gs| && h != i && 0 <= j < |gs[h]| ==> gs[h][j] !in gs[i]
    ensures forall j :: 0 <= j < |gs[i]| ==> gs[i][j] !in fl
  {
    NotEmpty(s.nodes, gs);
    forall h, j | 0 <= h < |gs| && h != i && 0 <= j < |gs[h]|
      ensures gs[h][j] !in gs[i]
    {
      assert Firsts(gs)[h] != Firsts(gs)[i];
    }
    forall j | 0 <= j < |gs[i]|
      ensures gs[i][j] !in fl
    {
      assert owner[gs[i][j]] == gs[i][0];
    }
  }

  /* ---- Pushing a new root ---- */

  function Pushed(s: State, ip: Ip, buffer: Buff): State
    requires s.free < |s.nodes| && (s.length > 0 ==> s.head < |s.nodes|)
  {
    var n := s.free;
    var node := s.nodes[n].(numChildren := 0, ip := ip, buffer := buffer, tail := n);
    if s.length > 0 then
      var nodes := s.nodes[n := node.(next := s.head)];
      State(nodes[s.head := nodes[s.head].(prev := n)], s.size + 1, s.length + 1, n, s.tail, s.nodes[n].next)
    else
      State(s.nodes[n := node], s.size + 1, s.length + 1, n, n, s.nodes[n].next)
  }

  /** There is a free node exactly when the pool is not full. */
  lemma FreeNode(s: State, fl: seq<nat>, gs: seq<seq<nat>>, owner: seq<nat>)
    requires Shape(s, fl, gs, owner)
    ensures s.size <= |s.nodes| == |owner| && (s.size < |s.nodes| <==> fl != [])
    ensures fl != [] ==> s.free == fl[0] < |s.nodes|
    ensures s.length > 0 <==> gs != []
    ensures gs != [] ==> s.head < |s.nodes| && s.head == gs[0][0]
    ensures fl != [] && gs != [] ==> s.head != fl[0]
  {
    NotEmpty(s.nodes, gs);
    if fl != [] && gs != [] {
      FreeApart(s, fl, gs, owner, fl[0]);
    }
  }

  /** Which links a push changes. */
  lemma PushedNodes(s: State, ip: Ip, buffer: Buff)
    requires s.free < |s.nodes| && (s.length > 0 ==> s.head < |s.nodes| && s.head != s.free)
    ensures var s', n := Pushed(s, ip, buffer), s.free;
            && |s'.nodes| == |s.nodes| && s'.size == s.size + 1 && s'.length == s.length + 1 && s'.head == n
            && s'.tail == (if s.length > 0 then s.tail else n) && s'.free == s.nodes[n].next
            && (forall k :: 0 <= k < |s.nodes| && k != n ==> s'.nodes[k] == s.nodes[k].(prev := s'.nodes[k].prev))
            && (forall k :: 0 <= k < |s.nodes| && k != n && !(s.length > 0 && k == s.head) ==> s'.nodes[k] == s.nodes[k])
            && (s.length > 0 ==> s'.nodes[s.head].prev == n && s'.nodes[n].next == s.head)
            && s'.nodes[n].numChildren == 0 && s'.nodes[n].tail == n && s'.nodes[n].ip == ip && s'.nodes[n].buffer == buffer
  {
  }

  lemma PushGroups(nodes: seq<Node>, nodes': seq<Node>, gs: seq<seq<nat>>, n: nat)
    requires Groups(nodes, gs) && |nodes'| == |nodes| && n < |nodes|
    requires forall k :: 0 <= k < |nodes| && k != n ==> nodes'[k] == nodes[k].(prev := nodes'[k].prev)
    requires forall i, j :: 0 <= i < |gs| && 0 <= j < |gs[i]| ==> gs[i][j] != n
    requires nodes'[n].numChildren == 0 && nodes'[n].tail == n
    ensures Groups(nodes', [[n]] + gs)
    ensures Waiting(nodes', [[n]] + gs) == [Queue(nodes'[n].ip, [nodes'[n].buffer])] + Waiting(nodes, gs)
  {
    var gs' := [[n]] + gs;
    forall i | 0 <= i < |gs'|
      ensures Group(nodes', gs'[i])
      ensures i > 0 ==> nodes'[gs'[i][0]].ip == nodes[gs'[i][0]].ip && Buffs(nodes', gs'[i]) == Buffs(nodes, gs'[i])
    {
      if i > 0 {
        assert gs'[i] == gs[i - 1] && Group(nodes, gs[i - 1]);
        KeptGroup(nodes, nodes', gs[i - 1]);
      }
    }
    assert Buffs(nodes', [n]) == [nodes'[n].buffer];
  }

  lemma PushRoots(s: State, s': State, rs: seq<nat>, n: nat)
    requires RootList(s, rs) && |s'.nodes| == |s.nodes| && n < |s.nodes| && n !in rs
    requires s'.length == s.length + 1 && s'.head == n && s'.tail == if s.length > 0 then s.tail else n
    requires forall k :: 0 <= k < |s.nodes| && k != n ==> s'.nodes[k] == s.nodes[k].(prev := s'.nodes[k].prev)
    requires forall k :: 0 <= k < |s.nodes| && k != n && !(s.length > 0 && k == s.head) ==> s'.nodes[k] == s.nodes[k]
    requires s.length > 0 ==> s.head < |s.nodes| && s'.nodes[s.head].prev == n && s'.nodes[n].next == s.head
    ensures RootList(s', [n] + rs)
  {
    var rs' := [n] + rs;
    ConsNoRepeat(rs, n);
    RootsDiffer(s, rs);
    hide NoRepeat;
    forall i: nat | i + 1 < |rs'|
      ensures NextAt(s'.nodes, rs', i)
    {
      if i > 0 { assert NextAt(s.nodes, rs, i - 1) && rs'[i] == rs[i - 1] && rs[i - 1] in rs; }
    }
    forall i: nat | 0 < i < |rs'|
      ensures PrevAt(s'.nodes, rs', i)
    {
      assert rs'[i] == rs[i - 1] && rs[i - 1] in rs;
      if i > 1 {
        assert PrevAt(s.nodes, rs, i - 1);
        Differ(rs, i - 1, 0);
      }
    }
  }

  lemma ConsNoRepeat(rs: seq<nat>, n: nat)
    ensures NoRepeat(rs) && n !in rs ==> NoRepeat([n] + rs)
  {
  }

  lemma RootsDiffer(s: State, rs: seq<nat>)
    requires RootList(s, rs)
    ensures NoRepeat(rs)
  {
  }

  lemma Differ(rs: seq<nat>, i: nat, j: nat)
    requires NoRepeat(rs) && i < |rs| && j < |rs|
    ensures i != j ==> rs[i] != rs[j]
  {
  }

  lemma PushFree(s: State, s': State, fl: seq<nat>, n: nat)
    requires FreeList(s, fl) && fl != [] && n == fl[0] && |s'.nodes| == |s.nodes| && s'.free == s.nodes[n].next
    requires forall k :: 0 <= k < |s.nodes| && k != n ==> s'.nodes[k].next == s.nodes[k].next
    ensures FreeList(s', fl[1..])
  {
    var r := fl[1..];
    assert forall k :: 0 <= k < |r| ==> r[k] == fl[k + 1];
    assert |fl| > 1 ==> NextAt(s.nodes, fl, 0);
    forall k: nat | k + 1 < |r|
      ensures NextAt(s'.nodes, r, k)
    {
      assert NextAt(s.nodes, fl, k + 1);
    }
  }

  lemma PushOwned(n: nat, fl: seq<nat>, gs: seq<seq<nat>>, owner: seq<nat>)
    requires Owned(n, fl, gs, owner) && NoRepeat(fl) && fl != []
    requires Covered(n, fl, gs)
    ensures Owned(n, fl[1..], [[fl[0]]] + gs, owner[fl[0] := fl[0]])
    ensures Covered(n, fl[1..], [[fl[0]]] + gs)
  {
    var x, gs', owner' := fl[0], [[fl[0]]] + gs, owner[fl[0] := fl[0]];
    forall i, j | 0 <= i < |gs'| && 0 <= j < |gs'[i]|
      ensures gs'[i][j] < n && owner'[gs'[i][j]] == gs'[i][0]
    {
      if i > 0 { assert gs'[i] == gs[i - 1]; }
    }
    forall k: nat | k < n
      ensures k in fl[1..] || InGroups(gs', k)
    {
      if k == x {
        assert k in gs'[0];
      } else if k !in fl {
        var i :| 0 <= i < |gs| && k in gs[i];
        assert gs'[i + 1] == gs[i];
      }
    }
  }

  lemma PushShape(s: State, fl: seq<nat>, gs: seq<seq<nat>>, owner: seq<nat>, ip: Ip, buffer: Buff)
    requires Shape(s, fl, gs, owner) && s.size < |s.nodes|
    ensures fl != [] && s.free == fl[0] < |s.nodes| && (s.length > 0 ==> s.head < |s.nodes|)
    ensures Shape(Pushed(s, ip, buffer), fl[1..], [[fl[0]]] + gs, owner[fl[0] := fl[0]])
    ensures Waiting(Pushed(s, ip, buffer).nodes, [[fl[0]]] + gs) == [Queue(ip, [buffer])] + Waiting(s.nodes, gs)
  {
    FreeNode(s, fl, gs, owner);
    FreeApart(s, fl, gs, owner, fl[0]);
    PushedNodes(s, ip, buffer);
    ShapeParts(s, fl, gs, owner);
    var s', gs' := Pushed(s, ip, buffer), [[fl[0]]] + gs;
    hide Shape, Pushed, Groups, Group, Owned, Covered, FreeList, NoRepeat, Buffs, RootList;
    PushOwned(|s.nodes|, fl, gs, owner);
    PushGroups(s.nodes, s'.nodes, gs, fl[0]);
    PushFree(s, s', fl, fl[0]);
    PushRoots(s, s', Firsts(gs), fl[0]);
    assert Firsts(gs') == [fl[0]] + Firsts(gs);
    assert gs'[1..] == gs;
    MakeShape(s', fl[1..], gs', owner[fl[0] := fl[0]]);
  }

  /* ---- Pushing a child ---- */

  function ChildPushed(s: State, root: nat, buffer: Buff): State
    requires s.free < |s.nodes| && root < |s.nodes| && s.nodes[root].tail < |s.nodes|
  {
    var n, last := s.free, s.nodes[root].tail;
    var nodes1 := s.nodes[n := s.nodes[n].(buffer := buffer)];
    var nodes2 := nodes1[last := nodes1[last].(child := n)];
    var nodes3 := nodes2[root := nodes2[root].(tail := n, numChildren := nodes2[root].numChildren + 1)];
    s.(nodes := nodes3, size := s.size + 1, free := s.nodes[n].next)
  }

  lemma ChildNodes(s: State, root: nat, buffer: Buff)
    requires s.free < |s.nodes| && root < |s.nodes| && s.nodes[root].tail < |s.nodes|
    requires s.free != root && s.free != s.nodes[root].tail
    ensures var s', n, last := ChildPushed(s, root, buffer), s.free, s.nodes[root].tail;
            && |s'.nodes| == |s.nodes| && s'.size == s.size + 1 && s'.length == s.length
            && s'.head == s.head && s'.tail == s.tail && s'.free == s.nodes[n].next
            && (forall k :: 0 <= k < |s.nodes| ==> s'.nodes[k].next == s.nodes[k].next && s'.nodes[k].prev == s.nodes[k].prev && s'.nodes[k].ip == s.nodes[k].ip)
            && (forall k :: 0 <= k < |s.nodes| && k != n ==> s'.nodes[k].buffer == s.nodes[k].buffer)
            && (forall k :: 0 <= k < |s.nodes| && k != last ==> s'.nodes[k].child == s.nodes[k].child)
            && (forall k :: 0 <= k < |s.nodes| && k != root ==> s'.nodes[k].tail == s.nodes[k].tail && s'.nodes[k].numChildren == s.nodes[k].numChildren)
            && s'.nodes[n].buffer == buffer && s'.nodes[last].child == n
            && s'.nodes[root].tail == n && s'.nodes[root].numChildren == s.nodes[root].numChildren + 1
  {
  }

  /** The group of the new child. */
  lemma GrownGroup(nodes: seq<Node>, nodes': seq<Node>, g: seq<nat>, n: nat)
    requires Group(nodes, g) && |nodes'| == |nodes| && n < |nodes| && n !in g
    requires forall k :: 0 <= k < |nodes| ==> nodes'[k].ip == nodes[k].ip
    requires forall k :: 0 <= k < |nodes| && k != n ==> nodes'[k].buffer == nodes[k].buffer
    requires forall k :: 0 <= k < |nodes| && k != nodes[g[0]].tail ==> nodes'[k].child == nodes[k].child
    requires nodes'[nodes[g[0]].tail].child == n && nodes'[g[0]].tail == n && nodes'[g[0]].numChildren == nodes[g[0]].numChildren + 1
    ensures Group(nodes', g + [n]) && nodes'[g[0]].ip == nodes[g[0]].ip
    ensures Buffs(nodes', g + [n]) == Buffs(nodes, g) + [nodes'[n].buffer]
  {
    var g' := g + [n];
    assert forall j :: 0 <= j < |g| ==> g[j] in g;
    forall j: nat | j + 1 < |g'|
      ensures ChildAt(nodes', g', j)
    {
      if j < |g| - 1 {
        assert ChildAt(nodes, g, j) && g[j] != g[|g| - 1];
      }
    }
  }

  lemma ChildGroups(nodes: seq<Node>, nodes': seq<Node>, gs: seq<seq<nat>>, i: nat, n: nat)
    requires Groups(nodes, gs) && i < |gs| && |nodes'| == |nodes| && n < |nodes|
    requires Group(nodes', gs[i] + [n]) && nodes'[gs[i][0]].ip == nodes[gs[i][0]].ip
    requires Buffs(nodes', gs[i] + [n]) == Buffs(nodes, gs[i]) + [nodes'[n].buffer]
    requires forall h :: 0 <= h < |gs| && h != i ==> Kept(nodes, nodes', gs[h])
    ensures Groups(nodes', gs[i := gs[i] + [n]])
    ensures var q := Waiting(nodes, gs)[i];
            Waiting(nodes', gs[i := gs[i] + [n]]) == Waiting(nodes, gs)[i := Queue(q.ip, q.buffs + [nodes'[n].buffer])]
  {
    hide Kept;
    var gs' := gs[i := gs[i] + [n]];
    forall h | 0 <= h < |gs'|
      ensures Group(nodes', gs'[h])
      ensures h != i ==> nodes'[gs'[h][0]].ip == nodes[gs'[h][0]].ip && Buffs(nodes', gs'[h]) == Buffs(nodes, gs'[h])
    {
      if h != i {
        assert Group(nodes, gs[h]);
        KeptGroup(nodes, nodes', gs[h]);
      }
    }
  }

  lemma SameRoots(s: State, s': State, rs: seq<nat>)
    requires RootList(s, rs) && |s'.nodes| == |s.nodes|
    requires s'.length == s.length && s'.head == s.head && s'.tail == s.tail
    requires forall i :: 0 <= i < |rs| && rs[i] < |s.nodes| ==> s'.nodes[rs[i]].next == s.nodes[rs[i]].next && s'.nodes[rs[i]].prev == s.nodes[rs[i]].prev
    ensures RootList(s', rs)
  {
    forall i: nat | i + 1 < |rs|
      ensures NextAt(s'.nodes, rs, i)
    {
      assert NextAt(s.nodes, rs, i);
    }
    forall i: nat | 0 < i < |rs|
      ensures PrevAt(s'.nodes, rs, i)
    {
      assert PrevAt(s.nodes, rs, i);
    }
  }

  lemma ChildOwned(n: nat, fl: seq<nat>, gs: seq<seq<nat>>, owner: seq<nat>, i: nat)
    requires Owned(n, fl, gs, owner) && NoRepeat(fl) && fl != [] && i < |gs| && gs[i] != []
    requires Covered(n, fl, gs)
    ensures var gs' := gs[i := gs[i] + [fl[0]]];
            && Owned(n, fl[1..], gs', owner[fl[0] := gs[i][0]])
            && Covered(n, fl[1..], gs')
  {
    var x, gs', owner' := fl[0], gs[i := gs[i] + [fl[0]]], owner[fl[0] := gs[i][0]];
    forall k: nat | k < n
      ensures k in fl[1..] || InGroups(gs', k)
    {
      if k == x {
        assert gs'[i][|gs[i]|] == k;
      } else if k !in fl {
        var h :| 0 <= h < |gs| && k in gs[h];
        assert k in gs'[h];
      }
    }
  }

  lemma OthersKept(s: State, s': State, gs: seq<seq<nat>>, owner: seq<nat>, fl: seq<nat>, i: nat)
    requires Shape(s, fl, gs, owner) && fl != [] && i < |gs| && |s'.nodes| == |s.nodes|
    requires forall k :: 0 <= k < |s.nodes| && k != fl[0] && k !in gs[i] ==> s'.nodes[k] == s.nodes[k]
    ensures forall h :: 0 <= h < |gs| && h != i ==> Kept(s.nodes, s'.nodes, gs[h])
  {
    FreeApart(s, fl, gs, owner, fl[0]);
    GroupApart(s, fl, gs, owner, i);
    hide Shape;
  }

  lemma ChildShape(s: State, fl: seq<nat>, gs: seq<seq<nat>>, owner: seq<nat>, i: nat, buffer: Buff)
    requires Shape(s, fl, gs, owner) && s.size < |s.nodes| && i < |gs|
    ensures gs[i] != [] && fl != [] && s.free == fl[0] < |s.nodes| && gs[i][0] < |s.nodes| && s.nodes[gs[i][0]].tail < |s.nodes|
    ensures var s', gs' := ChildPushed(s, gs[i][0], buffer), gs[i := gs[i] + [fl[0]]];
            && Shape(s', fl[1..], gs', owner[fl[0] := gs[i][0]])
            && var q := Waiting(s.nodes, gs)[i];
            && Waiting(s'.nodes, gs') == Waiting(s.nodes, gs)[i := Queue(q.ip, q.buffs + [buffer])]
  {
    hide *;
    FreeNode(s, fl, gs, owner);
    ShapeParts(s, fl, gs, owner);
    GroupOf(s, fl, gs, owner, i);
    var g, n := gs[i], fl[0];
    ChildNodes(s, g[0], buffer);
    var s', gs' := ChildPushed(s, g[0], buffer), gs[i := g + [n]];
    ChildOwned(|s.nodes|, fl, gs, owner, i);
    GrownGroup(s.nodes, s'.nodes, g, n);
    OthersKept(s, s', gs, owner, fl, i);
    ChildGroups(s.nodes, s'.nodes, gs, i, n);
    PushFree(s, s', fl, n);
    SameRoots(s, s', Firsts(gs));
    SameFirsts(gs, i, g + [n]);
    TotalChange(gs, i, g + [n]);
    MakeShape(s', fl[1..], gs', owner[n := g[0]]);
  }

  lemma GroupOf(s: State, fl: seq<nat>, gs: seq<seq<nat>>, owner: seq<nat>, i: nat)
    requires Shape(s, fl, gs, owner) && fl != [] && i < |gs|
    ensures Group(s.nodes, gs[i]) && gs[i] != [] && gs[i][0] < |s.nodes| && s.nodes[gs[i][0]].tail < |s.nodes|
    ensures fl[0] !in gs[i] && fl[0] != gs[i][0] && fl[0] != s.nodes[gs[i][0]].tail
    ensures gs[i][0] in gs[i] && s.nodes[gs[i][0]].tail in gs[i]
  {
    var g := gs[i];
    assert Group(s.nodes, g);
    FreeApart(s, fl, gs, owner, fl[0]);
    assert g[0] in g && g[|g| - 1] in g;
  }

  lemma SameFirsts(gs: seq<seq<nat>>, i: nat, g: seq<nat>)
    requires i < |gs| && gs[i] != [] && g != [] && g[0] == gs[i][0]
    ensures Firsts(gs[i := g]) == Firsts(gs)
  {
  }

  /* ---- Removing a root with its children ---- */

  /** One node goes to the front of the free list. */
  function Freed(s: State, x: nat): State
    requires x < |s.nodes| && s.size > 0
  {
    s.(nodes := s.nodes[x := s.nodes[x].(next := s.free)], free := x, size := s.size - 1)
  }

  lemma FreedList(s: State, fl: seq<nat>, x: nat)
    requires FreeList(s, fl) && x !in fl && x < |s.nodes| && s.size > 0
    ensures FreeList(Freed(s, x), [x] + fl)
  {
    var s', fl' := Freed(s, x), [x] + fl;
    forall k: nat | k + 1 < |fl'|
      ensures NextAt(s'.nodes, fl', k)
    {
      if k > 0 { assert NextAt(s.nodes, fl, k - 1) && fl'[k] == fl[k - 1] && fl[k - 1] in fl; }
    }
  }

  /** The root list without one root. */
  function Unlinked(s: State, root: nat): State
    requires root < |s.nodes| && s.length > 0
    requires root != s.head ==> s.nodes[root].prev < |s.nodes|
    requires root != s.tail ==> s.nodes[root].next < |s.nodes|
  {
    var node := s.nodes[root];
    var s1 := if root == s.head then s.(head := node.next)
              else s.(nodes := s.nodes[node.prev := s.nodes[node.prev].(next := node.next)]);
    var s2 := if root == s.tail then s1.(tail := s1.nodes[root].prev)
              else s1.(nodes := s1.nodes[node.next := s1.nodes[node.next].(prev := node.prev)]);
    s2.(length := s.length - 1)
  }

  function Without<T>(a: seq<T>, i: nat): (r: seq<T>)
    requires i < |a|
    ensures |r| == |a| - 1
    ensures forall k {:trigger r[k]} :: 0 <= k < |r| ==> r[k] == if k < i then a[k] else a[k + 1]
  {
    a[..i] + a[i + 1..]
  }

  lemma RootPlace(s: State, rs: seq<nat>, i: nat)
    requires RootList(s, rs) && i < |rs|
    ensures rs[i] == s.head <==> i == 0
    ensures rs[i] == s.tail <==> i == |rs| - 1
    ensures i > 0 ==> s.nodes[rs[i]].prev == rs[i - 1]
    ensures i < |rs| - 1 ==> s.nodes[rs[i]].next == rs[i + 1]
    ensures rs[i] < |s.nodes| && s.length > 0
    ensures rs[i] != s.head ==> s.nodes[rs[i]].prev < |s.nodes|
    ensures rs[i] != s.tail ==> s.nodes[rs[i]].next < |s.nodes|
  {
    assert i > 0 ==> PrevAt(s.nodes, rs, i);
    assert i + 1 < |rs| ==> NextAt(s.nodes, rs, i);
  }

  /** Unlinking touches only next and prev links, and next links only of roots. */
  lemma UnlinkedNodes(s: State, rs: seq<nat>, i: nat)
    requires RootList(s, rs) && i < |rs|
    ensures rs[i] < |s.nodes| && s.length > 0
    ensures rs[i] != s.head ==> s.nodes[rs[i]].prev < |s.nodes|
    ensures rs[i] != s.tail ==> s.nodes[rs[i]].next < |s.nodes|
    ensures var s' := Unlinked(s, rs[i]);
            && |s'.nodes| == |s.nodes| && s'.length + 1 == s.length && s'.size == s.size && s'.free == s.free
            && (forall k :: 0 <= k < |s.nodes| ==> s'.nodes[k] == s.nodes[k].(next := s'.nodes[k].next, prev := s'.nodes[k].prev))
            && (forall k :: 0 <= k < |s.nodes| && k !in rs ==> s'.nodes[k].next == s.nodes[k].next)
  {
    RootPlace(s, rs, i);
    assert i > 0 ==> rs[i - 1] in rs;
    hide RootList;
  }

  /** The links after a root has been unlinked and freed. */
  lemma UnlinkedLinks(s: State, root: nat)
    requires root < |s.nodes| && s.length > 0 && s.size > 0
    requires root != s.head ==> s.nodes[root].prev < |s.nodes|
    requires root != s.tail ==> s.nodes[root].next < |s.nodes|
    ensures var s', node := Freed(Unlinked(s, root), root), s.nodes[root];
            && |s'.nodes| == |s.nodes| && s'.length == s.length - 1
            && s'.head == (if root == s.head then node.next else s.head)
            && s'.tail == (if root == s.tail then node.prev else s.tail)
            && (forall k :: 0 <= k < |s.nodes| && k != root ==>
                  s'.nodes[k].next == if root != s.head && k == node.prev then node.next else s.nodes[k].next)
            && (forall k :: 0 <= k < |s.nodes| && k != root ==>
                  s'.nodes[k].prev == if root != s.tail && k == node.next then node.prev else s.nodes[k].prev)
  {
  }

  lemma UnlinkedNext(s: State, s': State, rs: seq<nat>, i: nat, k: nat)
    requires RootList(s, rs) && i < |rs| && |s'.nodes| == |s.nodes| && k + 1 < |rs| - 1
    requires forall k :: 0 <= k < |s.nodes| && k != rs[i] ==>
               s'.nodes[k].next == if rs[i] != s.head && k == s.nodes[rs[i]].prev then s.nodes[rs[i]].next else s.nodes[k].next
    ensures NextAt(s'.nodes, Without(rs, i), k)
  {
    RootPlace(s, rs, i);
    RootsDiffer(s, rs);
    var o := if k < i then k else k + 1;
    assert NextAt(s.nodes, rs, o);
    hide NoRepeat, RootList;
    Differ(rs, o, i);
    if i > 0 { Differ(rs, o, i - 1); }
  }

  lemma UnlinkedPrev(s: State, s': State, rs: seq<nat>, i: nat, k: nat)
    requires RootList(s, rs) && i < |rs| && |s'.nodes| == |s.nodes| && 0 < k < |rs| - 1
    requires forall k :: 0 <= k < |s.nodes| && k != rs[i] ==>
               s'.nodes[k].prev == if rs[i] != s.tail && k == s.nodes[rs[i]].next then s.nodes[rs[i]].prev else s.nodes[k].prev
    ensures PrevAt(s'.nodes, Without(rs, i), k)
  {
    RootPlace(s, rs, i);
    RootsDiffer(s, rs);
    var o := if k < i then k else k + 1;
    assert PrevAt(s.nodes, rs, o);
    hide NoRepeat, RootList;
    Differ(rs, o, i);
    if i + 1 < |rs| { Differ(rs, o, i + 1); }
  }

  lemma WithoutNoRepeat(rs: seq<nat>, i: nat)
    requires NoRepeat(rs) && i < |rs|
    ensures NoRepeat(Without(rs, i))
  {
  }

  lemma UnlinkedRoots(s: State, rs: seq<nat>, i: nat)
    requires RootList(s, rs) && i < |rs| && s.size > 0
    requires rs[i] < |s.nodes| && s.length > 0
    requires rs[i] != s.head ==> s.nodes[rs[i]].prev < |s.nodes|
    requires rs[i] != s.tail ==> s.nodes[rs[i]].next < |s.nodes|
    ensures RootList(Freed(Unlinked(s, rs[i]), rs[i]), Without(rs, i))
  {
    RootPlace(s, rs, i);
    UnlinkedLinks(s, rs[i]);
    RootsDiffer(s, rs);
    WithoutNoRepeat(rs, i);
    var s', r := Freed(Unlinked(s, rs[i]), rs[i]), Without(rs, i);
    hide Unlinked, Freed, NoRepeat, NextAt, PrevAt;
    forall k: nat | k + 1 < |r|
      ensures NextAt(s'.nodes, r, k)
    {
      UnlinkedNext(s, s', rs, i, k);
    }
    forall k: nat | 0 < k < |r|
      ensures PrevAt(s'.nodes, r, k)
    {
      UnlinkedPrev(s, s', rs, i, k);
    }
  }

  /** Owners after group g went back to the free list. */
  function Disowned(owner: seq<nat>, g: seq<nat>): (r: seq<nat>)
    ensures |r| == |owner|
  {
    seq(|owner|, k requires 0 <= k < |owner| => if k in g then |owner| else owner[k])
  }

  lemma DropOwned(n: nat, fl: seq<nat>, gs: seq<seq<nat>>, owner: seq<nat>, i: nat, fl': seq<nat>)
    requires Owned(n, fl, gs, owner) && i < |gs| && (forall k :: 0 <= k < |gs| ==> gs[k] != []) && NoRepeat(Firsts(gs))
    requires Covered(n, fl, gs)
    requires forall x: nat :: x in fl' <==> x in fl || x in gs[i]
    ensures Owned(n, fl', Without(gs, i), Disowned(owner, gs[i]))
    ensures Covered(n, fl', Without(gs, i))
  {
    var r, owner' := Without(gs, i), Disowned(owner, gs[i]);
    forall k | 0 <= k < |fl'|
      ensures fl'[k] < n && owner'[fl'[k]] == n
    {
      assert fl'[k] in fl';
    }
    forall h, j | 0 <= h < |r| && 0 <= j < |r[h]|
      ensures r[h][j] < n && owner'[r[h][j]] == r[h][0]
    {
      var o := if h < i then h else h + 1;
      assert Firsts(gs)[o] != Firsts(gs)[i];
      assert r[h] == gs[o] && owner[gs[o][j]] == gs[o][0] && gs[o][0] != gs[i][0];
      assert gs[o][j] !in gs[i];
    }
    forall k: nat | k < n
      ensures k in fl' || InGroups(r, k)
    {
      if k !in fl' {
        var h :| 0 <= h < |gs| && k in gs[h];
        assert k in r[if h < i then h else h - 1];
      }
    }
  }

  lemma DropGroups(nodes: seq<Node>, nodes': seq<Node>, gs: seq<seq<nat>>, i: nat)
    requires Groups(nodes, gs) && i < |gs|
    requires forall h :: 0 <= h < |gs| && h != i ==> Kept(nodes, nodes', gs[h])
    ensures Groups(nodes', Without(gs, i))
    ensures Waiting(nodes', Without(gs, i)) == Waiting(nodes, gs)[..i] + Waiting(nodes, gs)[i + 1..]
  {
    var r := Without(gs, i);
    forall k | 0 <= k < |r|
      ensures Group(nodes', r[k]) && nodes'[r[k][0]].ip == nodes[r[k][0]].ip && Buffs(nodes', r[k]) == Buffs(nodes, r[k])
    {
      var h := if k < i then k else k + 1;
      assert r[k] == gs[h];
      KeptGroup(nodes, nodes', gs[h]);
    }
  }

  /** After all nodes of a group have been freed and its root unlinked, the pool
      is well formed and holds the other queues as before. */
  lemma DropShape(s: State, fl: seq<nat>, gs: seq<seq<nat>>, owner: seq<nat>, i: nat, s': State, fl': seq<nat>)
    requires Shape(s, fl, gs, owner) && i < |gs| && |s'.nodes| == |s.nodes|
    requires FreeList(s', fl') && (forall x: nat :: x in fl' <==> x in fl || x in gs[i]) && |fl'| == |fl| + |gs[i]|
    requires forall h :: 0 <= h < |gs| && h != i ==> Kept(s.nodes, s'.nodes, gs[h])
    requires s'.size == s.size - |gs[i]|
    requires RootList(s', Without(Firsts(gs), i))
    ensures Shape(s', fl', Without(gs, i), Disowned(owner, gs[i]))
    ensures Waiting(s'.nodes, Without(gs, i)) == Waiting(s.nodes, gs)[..i] + Waiting(s.nodes, gs)[i + 1..]
  {
    ShapeParts(s, fl, gs, owner);
    NotEmpty(s.nodes, gs);
    RootsDiffer(s, Firsts(gs));
    hide Shape, RootList, Groups, Owned, Covered, FreeList, NoRepeat, Kept;
    DropOwned(|s.nodes|, fl, gs, owner, i, fl');
    DropGroups(s.nodes, s'.nodes, gs, i);
    assert Firsts(Without(gs, i)) == Without(Firsts(gs), i);
    TotalChange(gs, i, []);
    assert Without(gs, i) == gs[..i] + gs[i + 1..];
    MakeShape(s', fl', Without(gs, i), Disowned(owner, gs[i]));
  }

  /** After k children of g have been freed. */
  ghost predicate Freeing(s0: State, s: State, fl0: seq<nat>, fl: seq<nat>, g: seq<nat>, k: nat)
    requires k < |g|
  {
    && |s.nodes| == |s0.nodes| && s.head == s0.head && s.tail == s0.tail && s.length == s0.length && s.size + k == s0.size
    && (forall n :: 0 <= n < |s.nodes| ==> s.nodes[n] == s0.nodes[n].(next := s.nodes[n].next))
    && (forall n :: 0 <= n < |s.nodes| && n !in g[1..k + 1] ==> s.nodes[n].next == s0.nodes[n].next)
    && FreeList(s, fl) && (forall x: nat :: x in fl <==> x in fl0 || x in g[1..k + 1]) && |fl| == |fl0| + k
  }

  lemma FreeingStep(s0: State, s: State, fl0: seq<nat>, fl: seq<nat>, g: seq<nat>, k: nat)
    requires k + 1 < |g| && NoRepeat(g) && Freeing(s0, s, fl0, fl, g, k) && g[k + 1] < |s0.nodes| && s.size > 0
    requires forall j :: 0 <= j < |g| ==> g[j] !in fl0
    ensures Freeing(s0, Freed(s, g[k + 1]), fl0, [g[k + 1]] + fl, g, k + 1)
  {
    var x := g[k + 1];
    assert g[1..k + 2] == g[1..k + 1] + [x];
    assert x !in g[1..k + 1];
    FreedList(s, fl, x);
  }

  lemma FreeingStart(s: State, fl: seq<nat>, g: seq<nat>)
    requires FreeList(s, fl) && g != []
    ensures Freeing(s, s, fl, fl, g, 0)
  {
    assert g[1..1] == [];
  }

  /** No root is among the children of a group or on the free list. */
  lemma RootsOutside(s: State, fl: seq<nat>, gs: seq<seq<nat>>, owner: seq<nat>, i: nat)
    requires Shape(s, fl, gs, owner) && i < |gs|
    ensures gs[i] != [] && forall h :: 0 <= h < |gs| ==> Firsts(gs)[h] !in gs[i][1..] && Firsts(gs)[h] !in fl
    ensures gs[i][0] !in fl
  {
    NotEmpty(s.nodes, gs);
    var g := gs[i];
    assert Group(s.nodes, g);
    forall h | 0 <= h < |gs|
      ensures Firsts(gs)[h] !in g[1..] && Firsts(gs)[h] !in fl
    {
      GroupApart(s, fl, gs, owner, h);
      if h != i {
        forall j | 0 <= j < |g[1..]|
          ensures g[1..][j] != gs[h][0]
        {
          assert g[1..][j] == g[j + 1] && gs[i][j + 1] !in gs[h];
        }
      }
    }
  }

  /** Freeing the children leaves groups and roots as they were. */
  lemma FreedChildren(s0: State, fl0: seq<nat>, gs: seq<seq<nat>>, i: nat, s: State, fl: seq<nat>)
    requires i < |gs| && gs[i] != [] && Freeing(s0, s, fl0, fl, gs[i], |gs[i]| - 1) && RootList(s0, Firsts(gs))
    requires forall h :: 0 <= h < |gs| ==> Firsts(gs)[h] !in gs[i][1..] && Firsts(gs)[h] !in fl0
    ensures RootList(s, Firsts(gs))
    ensures forall h :: 0 <= h < |gs| ==> Kept(s0.nodes, s.nodes, gs[h])
    ensures FreeList(s, fl) && (forall k :: 0 <= k < |fl| ==> fl[k] !in Firsts(gs))
    ensures forall x: nat :: x in [gs[i][0]] + fl <==> x in fl0 || x in gs[i]
    ensures gs[i][0] !in fl && |fl| == |fl0| + |gs[i]| - 1
    ensures |s.nodes| == |s0.nodes| && s.size + |gs[i]| - 1 == s0.size && Firsts(gs)[i] == gs[i][0]
  {
    var g, rs := gs[i], Firsts(gs);
    assert g[1..|g| - 1 + 1] == g[1..] && g == [g[0]] + g[1..];
    hide NoRepeat, RootList, FreeList;
    assert rs[i] == g[0];
    assert forall h :: 0 <= h < |rs| ==> rs[h] !in fl;
    forall k | 0 <= k < |fl|
      ensures fl[k] !in rs
    {
      assert fl[k] in fl;
    }
    SameRoots(s0, s, rs);
  }

  /** ... and freeing the unlinked root as well completes the removal. */
  lemma FreedParent(s0: State, fl0: seq<nat>, gs: seq<seq<nat>>, owner: seq<nat>, i: nat, s: State, fl: seq<nat>)
    requires Shape(s0, fl0, gs, owner) && i < |gs| && gs[i] != [] && Freeing(s0, s, fl0, fl, gs[i], |gs[i]| - 1)
    requires s.size > 0
    ensures gs[i][0] < |s.nodes| && s.length > 0
    ensures gs[i][0] != s.head ==> s.nodes[gs[i][0]].prev < |s.nodes|
    ensures gs[i][0] != s.tail ==> s.nodes[gs[i][0]].next < |s.nodes|
    ensures var s' := Freed(Unlinked(s, gs[i][0]), gs[i][0]);
            && Shape(s', [gs[i][0]] + fl, Without(gs, i), Disowned(owner, gs[i]))
            && Waiting(s'.nodes, Without(gs, i)) == Waiting(s0.nodes, gs)[..i] + Waiting(s0.nodes, gs)[i + 1..]
  {
    hide *;
    ShapeParts(s0, fl0, gs, owner);
    RootsOutside(s0, fl0, gs, owner, i);
    FreedChildren(s0, fl0, gs, i, s, fl);
    UnlinkedNodes(s, Firsts(gs), i);
    var root := gs[i][0];
    var s2 := Unlinked(s, root);
    var s' := Freed(s2, root);
    UnlinkedFree(s, s2, fl, Firsts(gs));
    FreedList(s2, fl, root);
    FreedNodes(s2, root);
    KeptTrans(s0.nodes, s.nodes, s'.nodes, gs);
    UnlinkedRoots(s, Firsts(gs), i);
    DropShape(s0, fl0, gs, owner, i, s', [root] + fl);
  }

  lemma FreedNodes(s: State, x: nat)
    requires x < |s.nodes| && s.size > 0
    ensures var s' := Freed(s, x);
            && |s'.nodes| == |s.nodes| && s'.size == s.size - 1
            && forall k :: 0 <= k < |s.nodes| ==> s'.nodes[k] == s.nodes[k].(next := s'.nodes[k].next)
  {
  }

  lemma UnlinkedFree(s: State, s2: State, fl: seq<nat>, rs: seq<nat>)
    requires FreeList(s, fl) && |s2.nodes| == |s.nodes| && s2.free == s.free && (forall k :: 0 <= k < |fl| ==> fl[k] !in rs)
    requires forall k :: 0 <= k < |s.nodes| && k !in rs ==> s2.nodes[k].next == s.nodes[k].next
    ensures FreeList(s2, fl)
  {
    forall k: nat | k + 1 < |fl|
      ensures NextAt(s2.nodes, fl, k)
    {
      assert NextAt(s.nodes, fl, k);
    }
  }

  lemma KeptTrans(a: seq<Node>, b: seq<Node>, c: seq<Node>, gs: seq<seq<nat>>)
    requires |a| == |b| == |c| && forall h :: 0 <= h < |gs| ==> Kept(a, b, gs[h])
    requires forall k :: 0 <= k < |a| ==> c[k] == b[k].(next := c[k].next, prev := c[k].prev)
    ensures forall h :: 0 <= h < |gs| ==> Kept(a, c, gs[h])
  {
  }

  /* ---- The pool ---- */

  class PktsWaiting {
    const packets: array<Node>
    const capacity: nat
    var size: nat
    var length: nat
    var head: nat
    var tail: nat
    var free: nat
    ghost var freeList: seq<nat>
    ghost var groups: seq<seq<nat>>
    ghost var owner: seq<nat>

    ghost function Now(): State
      reads this, packets
    {
      State(packets[..], size, length, head, tail, free)
    }

    /** Free list, root list and child lists together hold every node once. */
    ghost predicate Valid()
      reads this, packets
    {
      packets.Length == capacity && Shape(Now(), freeList, groups, owner)
    }

    /** The queues, the most recently started first. */
    ghost function Queues(): (q: seq<Queue>)
      requires Valid()
      reads this, packets
      ensures |q| == |groups|
    {
      Waiting(packets[..], groups)
    }

    /** pkt_waiting_init, on fields that are zero to begin with. */
    constructor (packets: array<Node>, capacity: nat)
      requires packets.Length == capacity
      modifies packets
      ensures Valid() && this.packets == packets && this.capacity == capacity && Queues() == []
    {
      this.packets, this.capacity := packets, capacity;
      size, length, head, tail, free := 0, 0, 0, 0, 0;
      freeList, groups, owner := seq(capacity, k requires 0 <= k < capacity => k), [], seq(capacity, _ => capacity);
      new;
      for i := 0 to capacity
        invariant forall k :: 0 <= k < i ==> packets[k].next == k + 1
        invariant size == length == head == tail == free == 0 && groups == []
        invariant freeList == seq(capacity, k requires 0 <= k < capacity => k) && owner == seq(capacity, _ => capacity)
        modifies packets
      {
        packets[i] := packets[i].(next := i + 1);
      }
      forall k: nat | k + 1 < |freeList|
        ensures NextAt(packets[..], freeList, k)
      {
      }
      forall k: nat | k < capacity
        ensures k in freeList
      {
        assert freeList[k] == k;
      }
    }

    predicate IsFull()
      reads this
    {
      size == capacity
    }

    /** The pool is full when as many packets wait as it has nodes. */
    lemma FullIs()
      requires Valid()
      ensures Packets(Queues()) <= capacity && (IsFull() <==> Packets(Queues()) == capacity)
    {
      PacketsTotal(packets[..], groups);
    }

    /** The root of the first queue for an address. */
    method FindNode(ip: Ip) returns (node: Option<nat>, ghost i: nat)
      requires Valid()
      ensures i <= |groups| && forall k :: 0 <= k < i ==> Queues()[k].ip != ip
      ensures node.None? ==> i == |groups|
      ensures node.None? <==> forall k :: 0 <= k < |Queues()| ==> Queues()[k].ip != ip
      ensures node.Some? ==> node.value < packets.Length && packets[node.value].ip == ip
      ensures node.Some? ==> i < |groups| && groups[i] != [] && node.value == groups[i][0] && Queues()[i].ip == ip
    {
      var at := head;
      for h := 0 to length
        invariant h <= |groups| && forall k :: 0 <= k < h ==> Queues()[k].ip != ip
        invariant h < |groups| ==> at == Firsts(groups)[h]
      {
        NotEmpty(packets[..], groups);
        assert h + 1 < |groups| ==> NextAt(packets[..], Firsts(groups), h);
        if packets[at].ip == ip {
          assert Queues()[h].ip == ip;
          return Some(at), h;
        }
        at := packets[at].next;
      }
      return None, length;
    }

    /** The child of a node (any index when it has none). */
    function NextChild(node: nat): nat
      requires node < packets.Length
      reads packets
    {
      packets[node].child
    }

    /** Walking down from a root visits the packets of its queue in order. */
    lemma ChildOrder(i: nat, j: nat)
      requires Valid() && i < |groups| && j < |groups[i]|
      ensures groups[i][j] < packets.Length && packets[groups[i][j]].buffer == Queues()[i].buffs[j]
      ensures |Queues()[i].buffs| == |groups[i]| == packets[groups[i][0]].numChildren + 1
      ensures j + 1 < |groups[i]| ==> NextChild(groups[i][j]) == groups[i][j + 1]
    {
      assert Group(packets[..], groups[i]);
      assert j + 1 < |groups[i]| ==> ChildAt(packets[..], groups[i], j);
    }

    /** The links and counts of pkt_waiting_push_child. */
    method LinkChild(root: nat, buffer: Buff)
      requires free < packets.Length && root < packets.Length && packets[root].tail < packets.Length
      requires free != root && free != packets[root].tail
      modifies `free, `size, packets
      ensures Now() == ChildPushed(old(Now()), root, buffer)
    {
      var n := free;
      packets[n] := packets[n].(buffer := buffer);
      free := packets[n].next;
      var last := packets[root].tail;
      packets[last] := packets[last].(child := n);
      packets[root] := packets[root].(tail := n);
      packets[root] := packets[root].(numChildren := packets[root].numChildren + 1);
      size := size + 1;
      assert packets[..] == ChildPushed(old(Now()), root, buffer).nodes;
    }

    /** Add a packet to the queue that starts at root. */
    method PushChild(root: nat, buffer: Buff, ghost i: nat) returns (err: Err)
      requires Valid() && i < |groups| && groups[i] != [] && root == groups[i][0]
      modifies this, packets
      ensures Valid() && (err == Full <==> old(IsFull()))
      ensures err == Full ==> Queues() == old(Queues())
      ensures err == Okay ==> var q := old(Queues())[i]; Queues() == old(Queues())[i := Queue(q.ip, q.buffs + [buffer])]
    {
      hide Shape, ChildPushed, Groups;
      FreeNode(Now(), freeList, groups, owner);
      if IsFull() { return Full; }
      ghost var s := Now();
      FreeNode(s, freeList, groups, owner);
      ghost var x := freeList[0];
      ChildShape(s, freeList, groups, owner, i, buffer);
      GroupOf(s, freeList, groups, owner, i);
      LinkChild(root, buffer);
      groups, owner, freeList := groups[i := groups[i] + [x]], owner[x := root], freeList[1..];
      err := Okay;
    }

    /** The links and counts of pkt_waiting_push. */
    method LinkRoot(ip: Ip, buffer: Buff)
      requires free < packets.Length && (length > 0 ==> head < packets.Length && head != free)
      modifies `free, `size, `head, `tail, `length, packets
      ensures Now() == Pushed(old(Now()), ip, buffer)
    {
      var n := free;
      packets[n] := packets[n].(numChildren := 0);
      packets[n] := packets[n].(ip := ip);
      packets[n] := packets[n].(buffer := buffer);
      packets[n] := packets[n].(tail := n);
      free := packets[n].next;
      if length > 0 {
        var headIdx := head;
        packets[n] := packets[n].(next := headIdx);
        packets[headIdx] := packets[headIdx].(prev := n);
      } else {
        tail := n;
      }
      head := n;
      length := length + 1;
      size := size + 1;
      assert packets[..] == Pushed(old(Now()), ip, buffer).nodes;
    }

    /** Start a queue for an address. */
    method Push(ip: Ip, buffer: Buff) returns (err: Err)
      requires Valid()
      modifies this, packets
      ensures Valid() && (err == Full <==> old(IsFull()))
      ensures err == Full ==> Queues() == old(Queues())
      ensures err == Okay ==> Queues() == [Queue(ip, [buffer])] + old(Queues())
    {
      hide Shape, Pushed, Groups;
      FreeNode(Now(), freeList, groups, owner);
      if IsFull() { return Full; }
      ghost var s := Now();
      FreeNode(s, freeList, groups, owner);
      ghost var x := freeList[0];
      PushShape(s, freeList, groups, owner, ip, buffer);
      LinkRoot(ip, buffer);
      groups, owner, freeList := [[x]] + groups, owner[x := x], freeList[1..];
      err := Okay;
    }

    /** The first loop of pkts_waiting_free_parent: the children of root, the
        nodes g[1..], go to the free list one by one. */
    method FreeChildren(root: nat, ghost g: seq<nat>, ghost fl0: seq<nat>) returns (ghost fl: seq<nat>)
      requires Group(packets[..], g) && root == g[0] && FreeList(Now(), fl0) && size >= |g|
      requires forall j :: 0 <= j < |g| ==> g[j] !in fl0
      modifies `free, `size, packets
      ensures Freeing(old(Now()), Now(), fl0, fl, g, |g| - 1)
    {
      ghost var s := Now();
      FreeingStart(s, fl0, g);
      assert |g| > 1 ==> ChildAt(packets[..], g, 0);
      fl := fl0;
      var childIdx := packets[root].child;
      var k: nat := 0;
      while k < packets[root].numChildren
        invariant k < |g| && packets[root].numChildren == |g| - 1
        invariant Freeing(s, Now(), fl0, fl, g, k)
        invariant k + 1 < |g| ==> childIdx == g[k + 1]
        decreases |g| - k
      {
        ChildIs(s, g, k);
        FreeingStep(s, Now(), fl0, fl, g, k);
        FreeingLinks(s, Now(), fl0, fl, g, k);
        hide Freeing, FreeList, Group;
        ghost var before := Now();
        packets[childIdx] := packets[childIdx].(next := free);
        free := childIdx;
        size := size - 1;
        assert Now() == Freed(before, g[k + 1]);
        childIdx := packets[childIdx].child;
        fl := [g[k + 1]] + fl;
        k := k + 1;
        FreeingLinks(s, Now(), fl0, fl, g, k);
      }
    }

    /** The rest of pkts_waiting_free_parent: unlink the root and free it. */
    method FreeRoot(root: nat)
      requires root < packets.Length && length > 0 && size > 0
      requires root != head ==> packets[root].prev < packets.Length
      requires root != tail ==> packets[root].next < packets.Length
      modifies `free, `size, `head, `tail, `length, packets
      ensures Now() == Freed(Unlinked(old(Now()), root), root)
    {
      if root == head {
        head := packets[root].next;
      } else {
        var p := packets[root].prev;
        packets[p] := packets[p].(next := packets[root].next);
      }
      if root == tail {
        tail := packets[root].prev;
      } else {
        var n := packets[root].next;
        packets[n] := packets[n].(prev := packets[root].prev);
      }
      packets[root] := packets[root].(next := free);
      free := root;
      length := length - 1;
      size := size - 1;
      assert packets[..] == Freed(Unlinked(old(Now()), root), root).nodes;
    }

    /** Free the nodes of a whole queue. */
    method FreeParent(root: nat, ghost i: nat)
      requires Valid() && i < |groups| && groups[i] != [] && root == groups[i][0]
      modifies this, packets
      ensures Valid() && Queues() == old(Queues())[..i] + old(Queues())[i + 1..]
    {
      hide Shape, Groups, Freed, Unlinked, Freeing, FreeList, Group, Waiting;
      ghost var s, fl0, gs, g := Now(), freeList, groups, groups[i];
      ShapeParts(s, fl0, gs, owner);
      GroupApart(s, fl0, gs, owner, i);
      GroupSize(s, gs, i);
      ghost var fl := FreeChildren(root, g, fl0);
      FreeingSize(s, Now(), fl0, fl, g);
      FreedParent(s, fl0, gs, owner, i, Now(), fl);
      FreeRoot(root);
      freeList, groups, owner := [root] + fl, Without(gs, i), Disowned(owner, g);
    }
  }

  lemma ChildIs(s: State, g: seq<nat>, k: nat)
    requires Group(s.nodes, g) && k + 1 < |g|
    ensures g[k + 1] < |s.nodes| && NoRepeat(g) && g[0] < |s.nodes|
    ensures k + 2 < |g| ==> s.nodes[g[k + 1]].child == g[k + 2]
  {
    assert k + 2 < |g| ==> ChildAt(s.nodes, g, k + 1);
  }

  /** Freeing changes no child link and no count. */
  lemma FreeingLinks(s0: State, s: State, fl0: seq<nat>, fl: seq<nat>, g: seq<nat>, k: nat)
    requires k < |g| && Freeing(s0, s, fl0, fl, g, k)
    ensures |s.nodes| == |s0.nodes| && s.size + k == s0.size
    ensures forall n :: 0 <= n < |s.nodes| ==> s.nodes[n].child == s0.nodes[n].child && s.nodes[n].numChildren == s0.nodes[n].numChildren
  {
  }

  lemma FreeingSize(s0: State, s: State, fl0: seq<nat>, fl: seq<nat>, g: seq<nat>)
    requires g != [] && Freeing(s0, s, fl0, fl, g, |g| - 1)
    ensures |s.nodes| == |s0.nodes| && s.size + |g| - 1 == s0.size
  {
  }

  lemma GroupSize(s: State, gs: seq<seq<nat>>, i: nat)
    requires Groups(s.nodes, gs) && i < |gs| && s.size == Total(gs)
    ensures Group(s.nodes, gs[i]) && gs[i] != [] && s.size >= |gs[i]|
  {
    TotalSplit(gs, i);
  }

  /* ---- The pool as a map from address to waiting packets ---- */

  ghost predicate DistinctIps(q: seq<Queue>) {
    forall i, j :: 0 <= i < j < |q| ==> q[i].ip != q[j].ip
  }

  ghost function Index(q: seq<Queue>, ip: Ip): (i: nat)
    ensures i <= |q| && (i < |q| ==> q[i].ip == ip) && forall k :: 0 <= k < i ==> q[k].ip != ip
  {
    if q == [] || q[0].ip == ip then 0 else
      var r := Index(q[1..], ip);
      assert r < |q[1..]| ==> q[1..][r] == q[r + 1];
      assert forall k :: 0 < k < r + 1 ==> q[k] == q[1..][k - 1];
      r + 1
  }

  ghost function ToMap(q: seq<Queue>): map<Ip, seq<Buff>> {
    map ip: Ip | ip in (set i | 0 <= i < |q| :: q[i].ip) :: q[Index(q, ip)].buffs
  }

  lemma MapAt(q: seq<Queue>, i: nat)
    requires DistinctIps(q) && i < |q|
    ensures q[i].ip in ToMap(q) && ToMap(q)[q[i].ip] == q[i].buffs
  {
    assert q[i].ip in (set i | 0 <= i < |q| :: q[i].ip);
  }

  lemma NotInMap(q: seq<Queue>, ip: Ip)
    requires forall k :: 0 <= k < |q| ==> q[k].ip != ip
    ensures ip !in ToMap(q)
  {
  }

  /** Looking up an address, as FindNode does: its queue, or nothing. */
  lemma MapFind(q: seq<Queue>, ip: Ip, i: nat)
    requires DistinctIps(q) && i <= |q| && (forall k :: 0 <= k < i ==> q[k].ip != ip) && (i < |q| ==> q[i].ip == ip)
    ensures i < |q| <==> ip in ToMap(q)
    ensures i < |q| ==> ToMap(q)[ip] == q[i].buffs
  {
    if i < |q| { MapAt(q, i); } else { NotInMap(q, ip); }
  }

  /** m has exactly the entries of q. */
  lemma IsMap(q: seq<Queue>, m: map<Ip, seq<Buff>>)
    requires DistinctIps(q)
    requires forall i :: 0 <= i < |q| ==> q[i].ip in m && m[q[i].ip] == q[i].buffs
    requires forall ip: Ip :: ip in m ==> Index(q, ip) < |q|
    ensures ToMap(q) == m
  {
    forall ip: Ip
      ensures ip in ToMap(q) <==> ip in m
      ensures ip in m ==> ToMap(q)[ip] == m[ip]
    {
      var i := Index(q, ip);
      if i < |q| {
        MapAt(q, i);
      } else {
        NotInMap(q, ip);
      }
    }
  }

  lemma HasIndex(q: seq<Queue>, i: nat)
    requires i < |q|
    ensures Index(q, q[i].ip) < |q|
  {
  }

  lemma MapIndex(q: seq<Queue>, ip: Ip)
    requires DistinctIps(q) && ip in ToMap(q)
    ensures Index(q, ip) < |q|
  {
    if Index(q, ip) == |q| { NotInMap(q, ip); }
  }

  /** Starting a queue for a new address adds one entry to the map. */
  lemma MapPush(q: seq<Queue>, ip: Ip, b: Buff)
    requires DistinctIps(q) && ip !in ToMap(q)
    ensures DistinctIps([Queue(ip, [b])] + q)
    ensures ToMap([Queue(ip, [b])] + q) == ToMap(q)[ip := [b]]
  {
    var q', m := [Queue(ip, [b])] + q, ToMap(q)[ip := [b]];
    forall i | 0 <= i < |q|
      ensures q[i].ip != ip && q[i].ip in m && m[q[i].ip] == q[i].buffs
    {
      MapAt(q, i);
    }
    DistinctPush(q, Queue(ip, [b]));
    hide ToMap, DistinctIps, Index;
    forall i | 0 <= i < |q'|
      ensures q'[i].ip in m && m[q'[i].ip] == q'[i].buffs
    {
      if i > 0 { assert q'[i] == q[i - 1]; }
    }
    forall k: Ip | k in m
      ensures Index(q', k) < |q'|
    {
      if k == ip {
        HasIndex(q', 0);
      } else {
        MapIndex(q, k);
        assert q'[Index(q, k) + 1] == q[Index(q, k)];
        HasIndex(q', Index(q, k) + 1);
      }
    }
    IsMap(q', m);
  }

  lemma DistinctPush(q: seq<Queue>, x: Queue)
    requires DistinctIps(q) && forall i :: 0 <= i < |q| ==> q[i].ip != x.ip
    ensures DistinctIps([x] + q)
  {
  }

  /** A further packet goes to the end of the queue of its address. */
  lemma MapAppend(q: seq<Queue>, i: nat, b: Buff)
    requires DistinctIps(q) && i < |q|
    ensures var q' := q[i := Queue(q[i].ip, q[i].buffs + [b])];
            && DistinctIps(q') && q[i].ip in ToMap(q)
            && ToMap(q') == ToMap(q)[q[i].ip := ToMap(q)[q[i].ip] + [b]]
  {
    MapAt(q, i);
    var q', m := q[i := Queue(q[i].ip, q[i].buffs + [b])], ToMap(q)[q[i].ip := q[i].buffs + [b]];
    forall k | 0 <= k < |q'|
      ensures q'[k].ip in m && m[q'[k].ip] == q'[k].buffs
    {
      MapAt(q, k);
    }
    forall ip: Ip | ip in m
      ensures Index(q', ip) < |q'|
    {
      MapIndex(q, ip);
      HasIndex(q', Index(q, ip));
    }
    IsMap(q', m);
  }

  /** Freeing a root removes exactly the entry of its address. */
  lemma MapRemove(q: seq<Queue>, i: nat)
    requires DistinctIps(q) && i < |q|
    ensures DistinctIps(q[..i] + q[i + 1..])
    ensures ToMap(q[..i] + q[i + 1..]) == ToMap(q) - {q[i].ip}
  {
    var q', m := Without(q, i), ToMap(q) - {q[i].ip};
    assert q' == q[..i] + q[i + 1..];
    DistinctWithout(q, i);
    hide ToMap, DistinctIps, Index;
    forall k | 0 <= k < |q'|
      ensures q'[k].ip in m && m[q'[k].ip] == q'[k].buffs
    {
      var o := if k < i then k else k + 1;
      assert q'[k] == q[o];
      MapAt(q, o);
      DistinctAt(q, i, o);
    }
    forall ip: Ip | ip in m
      ensures Index(q', ip) < |q'|
    {
      RemoveIndex(q, i, ip);
    }
    IsMap(q', m);
  }

  lemma RemoveIndex(q: seq<Queue>, i: nat, ip: Ip)
    requires DistinctIps(q) && i < |q| && ip in ToMap(q) && ip != q[i].ip
    ensures Index(Without(q, i), ip) < |Without(q, i)|
  {
    MapIndex(q, ip);
    var h := Index(q, ip);
    hide ToMap, DistinctIps, Index;
    HasIndex(Without(q, i), if h < i then h else h - 1);
  }

  lemma DistinctAt(q: seq<Queue>, i: nat, j: nat)
    requires DistinctIps(q) && i < |q| && j < |q|
    ensures i != j ==> q[i].ip != q[j].ip
  {
  }

  lemma DistinctWithout(q: seq<Queue>, i: nat)
    requires DistinctIps(q) && i < |q|
    ensures DistinctIps(Without(q, i))
  {
  }
}
