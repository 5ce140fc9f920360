/** Releasing cluster chains on exFAT volumes. */
module ExfatRemove {
  import opened FatTable
  import opened Volume
  import opened FatAccess
  import opened Bitmap
  import opened LazyChain
  import opened Exfat

  /** The flags u with those of the clusters cs[lo..hi] cleared. */
  function Freed(u: seq<bool>, cs: seq<nat>, lo: nat, hi: nat): (r: seq<bool>)
    requires lo <= hi <= |cs|
    ensures |r| == |u|
  {
    seq(|u|, k requires 0 <= k < |u| => u[k] && k + 2 !in cs[lo..hi])
  }

  ghost function SetFlags(u: seq<bool>): nat {
    |set k: nat | k < |u| && u[k]|
  }

  lemma FlagClears(u: seq<bool>, k: nat)
    requires k < |u| && u[k]
    ensures ClearFlags(u[k := false]) == ClearFlags(u) + 1
  {
    TakeFlag(u[k := false], k);
    assert u[k := false][k := true] == u;
  }

  lemma {:induction false} FreedCount(u: seq<bool>, cs: seq<nat>, lo: nat, hi: nat)
    requires lo <= hi <= |cs| && Distinct(cs) && AllInUse(u, cs)
    ensures ClearFlags(Freed(u, cs, lo, hi)) == ClearFlags(u) + (hi - lo)
  {
    if lo == hi {
      assert Freed(u, cs, lo, hi) == u;
    } else {
      FreedCount(u, cs, lo, hi - 1);
      assert cs[lo..hi] == cs[lo..hi - 1] + [cs[hi - 1]];
      assert cs[hi - 1] in cs;
      assert Freed(u, cs, lo, hi) == Freed(u, cs, lo, hi - 1)[cs[hi - 1] - 2 := false];
      FlagClears(Freed(u, cs, lo, hi - 1), cs[hi - 1] - 2);
    }
  }

  lemma ClearBound(u: seq<bool>)
    ensures ClearFlags(u) <= |u|
  {
    ClearBelowSet(u, |u|);
    assert ClearSet(u, |u|) == set k: nat | k < |u| && !u[k];
    BelowBound(u, |u|);
  }

  lemma {:induction false} BelowBound(u: seq<bool>, n: nat)
    requires n <= |u|
    ensures ClearBelow(u, n) <= n
  {
    if n > 0 { BelowBound(u, n - 1); }
  }

  /** The clusters cs[m], ..., cs[j] have consecutive numbers. */
  ghost predicate Run(cs: seq<nat>, m: nat, j: nat) {
    m <= j < |cs| && forall t :: m <= t <= j ==> cs[t] == cs[m] + (t - m)
  }

  /** The links from the i-th cluster of cs on can be read. */
  ghost predicate Suffix(fat: seq<nat>, s: Status, sized: bool, last: nat, cs: seq<nat>, i: nat) {
    forall j :: i <= j < |cs| ==> Readable(fat, s, sized, last, cs, j)
  }

  /** All that releasing the clusters from the i-th on relies on. */
  ghost predicate Releasable(fat: seq<nat>, u: seq<bool>, s: Status, sized: bool, last: nat, cs: seq<nat>, i: nat) {
    i < |cs| && s.nFrag == 0 && Distinct(cs) && AllInUse(u, cs) && |u| + 2 == |fat| && Suffix(fat, s, sized, last, cs, i)
  }

  /** The walk is at cluster cs[j], the block from cs[m] on is still in use, the
      blocks before it are free. */
  ghost predicate InWalk(u0: seq<bool>, u: seq<bool>, cs: seq<nat>, i: nat, m: nat, j: nat, scl: nat, clst: nat) {
    i <= m <= j < |cs| && scl == cs[m] && clst == cs[j] && Run(cs, m, j) && u == Freed(u0, cs, i, m)
  }

  /** n clusters have been counted as free since the counter was free0. */
  ghost predicate Counted(free0: nat, u0: seq<bool>, free: nat, n: nat) {
    FreeInfo(free0, u0) ==> free > |u0| || free == ClearFlags(u0) + n
  }

  /** Flags of other clusters than cs[i..] stay. */
  ghost predicate OthersInUse(u: seq<bool>, u': seq<bool>, cs: seq<nat>, i: nat)
    requires i <= |cs|
  {
    |u'| == |u| && forall k :: 0 <= k < |u| && k + 2 !in cs[i..] ==> u'[k] == u[k]
  }

  /** The clusters from the i-th on are free and counted, unless the value that
      ends the chain looks like the number after its last cluster. */
  ghost predicate Released(end: nat, u: seq<bool>, free: nat, u': seq<bool>, free': nat, cs: seq<nat>, i: nat, res: FResult)
    requires i < |cs|
  {
    && (res == FrOk || res == FrDiskErr)
    && OthersInUse(u, u', cs, i)
    && (res == FrOk ==> if end == Last(cs) + 1 then Last(cs) >= 2 && Last(cs) - 2 < |u'| && u'[Last(cs) - 2]
                        else u' == Freed(u, cs, i, |cs|) && (FreeInfo(free, u) ==> FreeInfo(free', u')))
  }

  lemma WalkStart(u: seq<bool>, cs: seq<nat>, i: nat, free: nat)
    requires i < |cs|
    ensures InWalk(u, u, cs, i, i, i, cs[i], cs[i]) && Counted(free, u, free, 0)
  {
    assert Freed(u, cs, i, i) == u;
  }

  lemma WalkLink(fat: seq<nat>, u: seq<bool>, s: Status, sized: bool, last: nat, cs: seq<nat>, i: nat, j: nat)
    requires Releasable(fat, u, s, sized, last, cs, i) && i <= j < |cs|
    ensures Readable(fat, s, sized, last, cs, j) && 2 <= cs[j] < |fat| && s.nFrag == 0 && |u| + 2 == |fat|
    ensures j + 1 < |cs| ==> 2 <= cs[j + 1] < |fat|
  {
    assert j + 1 < |cs| ==> Readable(fat, s, sized, last, cs, j + 1);
  }

  lemma WalkJoins(u0: seq<bool>, u: seq<bool>, cs: seq<nat>, i: nat, m: nat, j: nat, scl: nat, clst: nat)
    requires InWalk(u0, u, cs, i, m, j, scl, clst) && j + 1 < |cs| && cs[j + 1] == clst + 1
    ensures InWalk(u0, u, cs, i, m, j + 1, scl, clst + 1)
  {
  }

  /** The block is in use as a whole, and clearing it completes the clusters up to cs[j]. */
  lemma BlockFreed(u0: seq<bool>, u: seq<bool>, u': seq<bool>, cs: seq<nat>, i: nat, m: nat, j: nat, scl: nat, clst: nat, res: FResult)
    requires InWalk(u0, u, cs, i, m, j, scl, clst) && AllInUse(u0, cs) && Distinct(cs)
    requires 2 <= scl <= clst && ChangeOutcome(u, u', scl - 2, clst - scl + 1, false, res)
    ensures res == FrOk || res == FrDiskErr
    ensures res == FrOk ==> u' == Freed(u0, cs, i, j + 1)
    ensures OthersInUse(u0, u', cs, i)
  {
    var n: nat :| n <= clst - scl + 1 && Changed(u, u', scl - 2, n, false) &&
      match res
      case FrOk => n == clst - scl + 1
      case FrIntErr => n < clst - scl + 1 && scl - 2 + n < |u| && u[scl - 2 + n] == false
      case _ => res == FrDiskErr && n < clst - scl + 1;
    BlockInUse(u0, u, cs, i, m, j, scl, clst);
    forall k | 0 <= k < |u0| && k + 2 !in cs[i..]
      ensures u'[k] == u0[k]
    {
      NotInPart(cs, i, m, j, k + 2);
    }
    if res == FrOk {
      FreedMore(u0, cs, i, m, j);
    }
  }

  lemma BlockInUse(u0: seq<bool>, u: seq<bool>, cs: seq<nat>, i: nat, m: nat, j: nat, scl: nat, clst: nat)
    requires InWalk(u0, u, cs, i, m, j, scl, clst) && AllInUse(u0, cs) && Distinct(cs)
    ensures forall k: nat :: scl <= k + 2 <= clst && k < |u| ==> u[k]
  {
    forall k: nat | scl <= k + 2 <= clst && k < |u|
      ensures u[k]
    {
      assert cs[m + (k + 2 - scl)] == k + 2;
      assert k + 2 in cs;
      NotBefore(cs, i, m, m + (k + 2 - scl));
    }
  }

  lemma NotBefore(cs: seq<nat>, i: nat, m: nat, t: nat)
    requires i <= m <= t < |cs| && Distinct(cs)
    ensures cs[t] !in cs[i..m]
  {
  }

  lemma InBlock(cs: seq<nat>, i: nat, m: nat, j: nat)
    requires i <= m && Run(cs, m, j)
    ensures forall c: nat {:trigger c in cs[m..j + 1]} :: cs[m] <= c <= cs[j] <==> c in cs[m..j + 1]
  {
    forall c: nat {:trigger c in cs[m..j + 1]} | cs[m] <= c <= cs[j]
      ensures c in cs[m..j + 1]
    {
      assert cs[m..j + 1][c - cs[m]] == cs[m + (c - cs[m])];
    }
  }

  lemma NotInPart(cs: seq<nat>, i: nat, m: nat, j: nat, c: nat)
    requires i <= m && Run(cs, m, j) && c !in cs[i..]
    ensures c !in cs[i..m] && !(cs[m] <= c <= cs[j])
  {
    InBlock(cs, i, m, j);
    assert cs[i..] == cs[i..m] + cs[m..j + 1] + cs[j + 1..];
  }

  lemma FreedMore(u: seq<bool>, cs: seq<nat>, i: nat, m: nat, j: nat)
    requires i <= m && Run(cs, m, j) && cs[m] >= 2
    ensures FlagsSet(Freed(u, cs, i, m), cs[m] - 2, cs[j] - cs[m] + 1, false) == Freed(u, cs, i, j + 1)
  {
    InBlock(cs, i, m, j);
    assert cs[i..j + 1] == cs[i..m] + cs[m..j + 1];
  }

  lemma FewerSet(u: seq<bool>, u': seq<bool>, k: nat, n: nat)
    requires ChangeOutcome(u, u', k, n, false, FrOk) && n > 0
    ensures |u'| == |u| && SetFlags(u') < SetFlags(u)
  {
    var a, b := set j: nat | j < |u| && u[j], set j: nat | j < |u'| && u'[j];
    assert b < a by {
      assert k in a && k !in b;
      assert b <= a;
    }
    FewerMembers(b, a);
  }

  lemma FewerMembers(b: set<nat>, a: set<nat>)
    requires b < a
    ensures |b| < |a|
  {
    var x :| x in a && x !in b;
    assert b <= a - {x};
    Members(b, a - {x});
  }

  lemma Members(b: set<nat>, a: set<nat>)
    requires b <= a
    ensures |b| <= |a|
  {
    assert a == b + (a - b);
  }

  /** change_bitmap for one block, which clears its flags. */
  method FreeBlock(fs: FatFs, scl: nat, ecl: nat) returns (res: FResult)
    requires fs.Valid() && HasBitmap(fs) && 2 <= scl <= ecl < fs.nFatent
    modifies fs`disk, fs`wflag, fs`winsect, fs`ioErrors, fs.win
    ensures fs.Valid() && HasBitmap(fs) && Fat(fs) == old(Fat(fs))
    ensures MetaOnly(fs, old(fs.View()), fs.View()) && fs.ioErrors >= old(fs.ioErrors)
    ensures res == FrDiskErr ==> fs.ioErrors > old(fs.ioErrors)
    ensures ChangeOutcome(old(InUseMap(fs)), InUseMap(fs), scl - 2, ecl - scl + 1, false, res)
    ensures res == FrOk ==> SetFlags(InUseMap(fs)) < SetFlags(old(InUseMap(fs)))
  {
    hide *;
    FatOfBytes(fs);
    ghost var u, v := InUseMap(fs), fs.View();
    res := ChangeBitmap(fs, scl, ecl - scl + 1, false);
    FatOfBytes(fs);
    MetaFrom(fs, v, fs.View());
    if res == FrOk {
      FewerSet(u, InUseMap(fs), scl - 2, ecl - scl + 1);
    }
  }

  function OneMore(free: nat, n: nat): nat {
    if free < n then free + 1 else free
  }

  /** Count one more free cluster. */
  method CountFreed(fs: FatFs)
    requires fs.Valid() && HasBitmap(fs)
    modifies fs`freeClst
    ensures fs.Valid() && HasBitmap(fs) && Fat(fs) == old(Fat(fs)) && InUseMap(fs) == old(InUseMap(fs)) && fs.View() == old(fs.View())
    ensures fs.freeClst == OneMore(old(fs.freeClst), fs.nFatent - 2)
  {
    hide FatFs.Valid, HasBitmap, InUseMap, Fat;
    if fs.freeClst < fs.nFatent - 2 { fs.freeClst := fs.freeClst + 1; }
  }

  lemma CountOneMore(free0: nat, u: seq<bool>, cs: seq<nat>, i: nat, j: nat, free: nat)
    requires i <= j < |cs| && Distinct(cs) && AllInUse(u, cs) && Counted(free0, u, free, j - i)
    ensures Counted(free0, u, OneMore(free, |u|), j + 1 - i)
  {
    hide Freed, AllInUse, Distinct, ClearFlags;
    FreedCount(u, cs, i, j + 1);
    ClearBound(Freed(u, cs, i, j + 1));
  }

  lemma AllReleased(end: nat, u: seq<bool>, free: nat, u': seq<bool>, free': nat, cs: seq<nat>, i: nat)
    requires i < |cs| && Distinct(cs) && AllInUse(u, cs) && Counted(free, u, free', |cs| - i)
    requires u' == Freed(u, cs, i, |cs|) && end != Last(cs) + 1
    ensures Released(end, u, free, u', free', cs, i, FrOk)
  {
    FreedCount(u, cs, i, |cs|);
    assert cs[i..|cs|] == cs[i..];
  }

  lemma LastStays(end: nat, u: seq<bool>, free: nat, u': seq<bool>, free': nat, cs: seq<nat>, i: nat, m: nat, scl: nat, clst: nat)
    requires i < |cs| && Distinct(cs) && AllInUse(u, cs) && end == Last(cs) + 1
    requires InWalk(u, u', cs, i, m, |cs| - 1, scl, clst)
    ensures Released(end, u, free, u', free', cs, i, FrOk)
  {
    assert Last(cs) in cs;
    NotBefore(cs, i, m, |cs| - 1);
    assert cs[i..] == cs[i..m] + cs[m..];
  }

  lemma DiskFailed(end: nat, u: seq<bool>, free: nat, u': seq<bool>, free': nat, cs: seq<nat>, i: nat, m: nat, j: nat, scl: nat, clst: nat)
    requires InWalk(u, u', cs, i, m, j, scl, clst)
    ensures Released(end, u, free, u', free', cs, i, FrDiskErr)
  {
    assert cs[i..] == cs[i..m] + cs[m..];
  }

  /** The state in which a release of the clusters cs[i..] starts. */
  datatype Start = Start(fat: seq<nat>, s: Status, sized: bool, last: nat, u: seq<bool>, free: nat, cs: seq<nat>, i: nat)

  ghost predicate Ready(w: Start) {
    Releasable(w.fat, w.u, w.s, w.sized, w.last, w.cs, w.i)
  }

  /** The release that started at w is over. */
  ghost predicate Done(w: Start, u: seq<bool>, free: nat, res: FResult) {
    && w.i < |w.cs| && Last(w.cs) < |w.fat|
    && Released(EndValue(w.fat, w.s, Last(w.cs)), w.u, w.free, u, free, w.cs, w.i, res)
  }

  /** The walk that started at w is at cluster cl, the j-th. */
  ghost predicate Walking(w: Start, u: seq<bool>, free: nat, m: nat, j: nat, scl: nat, cl: nat) {
    Ready(w) && InWalk(w.u, u, w.cs, w.i, m, j, scl, cl) && Counted(w.free, w.u, free, j - w.i)
  }

  lemma StartWalking(w: Start)
    requires Ready(w)
    ensures Walking(w, w.u, w.free, w.i, w.i, w.cs[w.i], w.cs[w.i])
  {
    WalkStart(w.u, w.cs, w.i, w.free);
  }

  /** nxt is the link of the j-th cluster. */
  ghost predicate Linking(w: Start, j: nat, nxt: nat) {
    && j < |w.cs| && nxt >= 2 && (j + 1 < |w.cs| <==> nxt < |w.fat|) && Last(w.cs) < |w.fat|
    && if j + 1 < |w.cs| then nxt == w.cs[j + 1] else nxt == EndValue(w.fat, w.s, Last(w.cs))
  }

  lemma WalkReads(w: Start, u: seq<bool>, free: nat, m: nat, j: nat, scl: nat, cl: nat)
    requires Walking(w, u, free, m, j, scl, cl)
    ensures Readable(w.fat, w.s, w.sized, w.last, w.cs, j) && j < |w.cs| && cl == w.cs[j] && w.s.nFrag == 0
    ensures |w.u| + 2 == |w.fat|
    ensures Done(w, u, free, FrDiskErr)
  {
    WalkLink(w.fat, w.u, w.s, w.sized, w.last, w.cs, w.i, j);
    WalkLink(w.fat, w.u, w.s, w.sized, w.last, w.cs, w.i, |w.cs| - 1);
    DiskFailed(EndValue(w.fat, w.s, Last(w.cs)), w.u, w.free, u, free, w.cs, w.i, m, j, scl, cl);
  }

  lemma LinkRead(w: Start, u: seq<bool>, free: nat, m: nat, j: nat, scl: nat, cl: nat, nxt: nat)
    requires Walking(w, u, free, m, j, scl, cl) && IsLink(w.cs, j, nxt, |w.fat|)
    requires j + 1 == |w.cs| && cl < |w.fat| ==> nxt == EndValue(w.fat, w.s, cl)
    ensures Linking(w, j, nxt) && nxt >= 2 && j < |w.cs| && (j + 1 < |w.cs| <==> nxt < |w.fat|)
  {
    WalkLink(w.fat, w.u, w.s, w.sized, w.last, w.cs, w.i, j);
    WalkLink(w.fat, w.u, w.s, w.sized, w.last, w.cs, w.i, |w.cs| - 1);
  }

  /** The link to the next cluster number: the block grows, unless the chain ends. */
  lemma WalkOn(w: Start, u: seq<bool>, free: nat, m: nat, j: nat, scl: nat, cl: nat)
    requires Walking(w, u, free, m, j, scl, cl) && Linking(w, j, cl + 1)
    ensures j < |w.cs|
    ensures j + 1 < |w.cs| ==> Walking(w, u, OneMore(free, |w.u|), m, j + 1, scl, cl + 1)
    ensures j + 1 == |w.cs| ==> Done(w, u, OneMore(free, |w.u|), FrOk)
  {
    hide Suffix, AllInUse, Distinct, Counted, FreeInfo, ClearFlags;
    CountOneMore(w.free, w.u, w.cs, w.i, j, free);
    if j + 1 < |w.cs| {
      WalkJoins(w.u, u, w.cs, w.i, m, j, scl, cl);
    } else {
      LastStays(cl + 1, w.u, w.free, u, OneMore(free, |w.u|), w.cs, w.i, m, scl, cl);
    }
  }

  /** Any other link: the block is released. */
  lemma WalkFrees(w: Start, u: seq<bool>, free: nat, m: nat, j: nat, scl: nat, cl: nat, nxt: nat, u': seq<bool>, res: FResult)
    requires Walking(w, u, free, m, j, scl, cl) && Linking(w, j, nxt) && nxt != cl + 1
    requires 2 <= scl <= cl && ChangeOutcome(u, u', scl - 2, cl - scl + 1, false, res)
    ensures j < |w.cs|
    ensures res != FrOk ==> Done(w, u', OneMore(free, |w.u|), res)
    ensures res == FrOk && j + 1 < |w.cs| ==> Walking(w, u', OneMore(free, |w.u|), j + 1, j + 1, nxt, nxt)
    ensures res == FrOk && j + 1 == |w.cs| ==> Done(w, u', OneMore(free, |w.u|), FrOk)
  {
    hide Suffix, AllInUse, Distinct, Counted, FreeInfo, ClearFlags, ChangeOutcome, Freed;
    CountOneMore(w.free, w.u, w.cs, w.i, j, free);
    BlockFreed(w.u, u, u', w.cs, w.i, m, j, scl, cl, res);
    if res == FrOk && j + 1 == |w.cs| {
      AllReleased(nxt, w.u, w.free, u', OneMore(free, |w.u|), w.cs, w.i);
    }
  }

  /** Count cluster ecl, whose link is nxt, and release the block scl..ecl unless
      nxt belongs to it. */
  method ReleaseOne(fs: FatFs, scl: nat, ecl: nat, nxt: nat, ghost w: Start, ghost m: nat, ghost j: nat)
      returns (res: FResult, scl': nat, ghost m': nat)
    requires fs.Valid() && HasBitmap(fs) && 2 <= scl <= ecl < fs.nFatent && |w.u| == fs.nFatent - 2
    modifies fs`disk, fs`wflag, fs`winsect, fs`ioErrors, fs`freeClst, fs.win
    ensures fs.Valid() && HasBitmap(fs) && Fat(fs) == old(Fat(fs))
    ensures MetaOnly(fs, old(fs.View()), fs.View()) && fs.ioErrors >= old(fs.ioErrors)
    ensures res == FrDiskErr ==> fs.ioErrors > old(fs.ioErrors)
    ensures res == FrOk ==> scl' == (if ecl + 1 == nxt then scl else nxt)
    ensures res == FrOk && ecl + 1 == nxt ==> InUseMap(fs) == old(InUseMap(fs))
    ensures res == FrOk && ecl + 1 != nxt ==> SetFlags(InUseMap(fs)) < SetFlags(old(InUseMap(fs)))
    ensures Walking(w, old(InUseMap(fs)), old(fs.freeClst), m, j, scl, ecl) && Linking(w, j, nxt) ==>
              if res == FrOk && j + 1 < |w.cs| then Walking(w, InUseMap(fs), fs.freeClst, m', j + 1, scl', nxt)
              else Done(w, InUseMap(fs), fs.freeClst, res)
  {
    hide *;
    ghost var u, free := InUseMap(fs), fs.freeClst;
    ghost var known := Walking(w, u, free, m, j, scl, ecl) && Linking(w, j, nxt);
    TypeLimit(fs);
    MetaRefl(fs, fs.View());
    CountFreed(fs);
    if ecl + 1 == nxt {
      res, scl', m' := FrOk, scl, m;
      if known { WalkOn(w, u, free, m, j, scl, ecl); }
    } else {
      res := FreeBlock(fs, scl, ecl);
      scl', m' := nxt, j + 1;
      if known { WalkFrees(w, u, free, m, j, scl, ecl, nxt, InUseMap(fs), res); }
    }
  }

  /** get_fat for the cluster that the walk has come to. */
  method ReadLink(obj: FfObj, cl: nat, ghost w: Start, ghost m: nat, ghost j: nat, ghost scl: nat) returns (nxt: nat)
    requires obj.fs.Valid() && HasBitmap(obj.fs) && obj.sclust < 0x1_0000_0000
    requires w.fat == Fat(obj.fs) && w.s == obj.Chain() && w.sized == (obj.objsize > 0) && w.last == obj.LastIndex()
    modifies obj.fs`disk, obj.fs`wflag, obj.fs`winsect, obj.fs`ioErrors, obj.fs.win
    ensures obj.fs.Valid() && HasBitmap(obj.fs) && Fat(obj.fs) == old(Fat(obj.fs)) && InUseMap(obj.fs) == old(InUseMap(obj.fs))
    ensures MetaOnly(obj.fs, old(obj.fs.View()), obj.fs.View()) && obj.fs.ioErrors >= old(obj.fs.ioErrors)
    ensures nxt == DISK_ERROR ==> obj.fs.ioErrors > old(obj.fs.ioErrors)
    ensures Walking(w, InUseMap(obj.fs), obj.fs.freeClst, m, j, scl, cl) ==>
              if nxt == DISK_ERROR then Done(w, InUseMap(obj.fs), obj.fs.freeClst, FrDiskErr)
              else Linking(w, j, nxt) && nxt >= 2 && j < |w.cs| && (j + 1 < |w.cs| <==> nxt < |w.fat|)
  {
    hide FatFs.Valid, HasBitmap, InUseMap, Fat, Walking, Done, Linking, Readable, IsLink, EndValue;
    hide FfObj.LastIndex, FatFs.View, FatFs.SameView;
    ghost var v := obj.fs.View();
    TypeLimit(obj.fs);
    ghost var u := InUseMap(obj.fs);
    ghost var known := Walking(w, u, obj.fs.freeClst, m, j, scl, cl);
    if known { WalkReads(w, u, obj.fs.freeClst, m, j, scl, cl); }
    nxt := GetFatEx(obj, cl, w.cs, j);
    MetaFrom(obj.fs, v, obj.fs.View());
    if known && nxt != DISK_ERROR { LinkRead(w, u, obj.fs.freeClst, m, j, scl, cl, nxt); }
  }

  /** The loop is over or has come to the j-th cluster. */
  ghost predicate Stage(w: Start, clst: nat, u: seq<bool>, free: nat, over: bool, res: FResult, m: nat, j: nat, scl: nat, cl: nat) {
    Ready(w) && w.i < |w.cs| && clst == w.cs[w.i] ==> if over then Done(w, u, free, res) else Walking(w, u, free, m, j, scl, cl)
  }

  /** One round of the loop of remove_chain, for cluster cl: the next one is nxt
      unless the loop is over. */
  method Round(obj: FfObj, cl: nat, scl: nat, ghost w: Start, ghost clst: nat, ghost m: nat, ghost j: nat)
      returns (res: FResult, over: bool, nxt: nat, scl': nat, ghost m': nat)
    requires obj.fs.Valid() && HasBitmap(obj.fs) && obj.sclust < 0x1_0000_0000 && 2 <= scl <= cl < obj.fs.nFatent
    requires Matches(w, obj)
    modifies obj.fs`disk, obj.fs`wflag, obj.fs`winsect, obj.fs`ioErrors, obj.fs`freeClst, obj.fs.win
    ensures obj.fs.Valid() && HasBitmap(obj.fs) && Matches(w, obj)
    ensures MetaOnly(obj.fs, old(obj.fs.View()), obj.fs.View()) && obj.fs.ioErrors >= old(obj.fs.ioErrors)
    ensures res == FrDiskErr ==> obj.fs.ioErrors > old(obj.fs.ioErrors)
    ensures !over ==> res == FrOk && 2 <= scl' <= nxt < obj.fs.nFatent
    ensures !over ==> SetFlags(InUseMap(obj.fs)) < old(SetFlags(InUseMap(obj.fs))) || (InUseMap(obj.fs) == old(InUseMap(obj.fs)) && nxt == cl + 1)
    ensures Stage(w, clst, old(InUseMap(obj.fs)), old(obj.fs.freeClst), false, FrOk, m, j, scl, cl) ==>
              Stage(w, clst, InUseMap(obj.fs), obj.fs.freeClst, over, res, m', j + 1, scl', nxt)
  {
    var fs := obj.fs;
    hide FatFs.Valid, FatFs.View, MetaOnly, HasBitmap, InUseMap, Fat, Walking, Done, Linking, SetFlags, FfObj.LastIndex;
    res, over, nxt, scl', m' := FrOk, true, 0, scl, m;
    TypeLimit(fs);
    ghost var v := fs.View();
    nxt := ReadLink(obj, cl, w, m, j, scl);
    ghost var v1 := fs.View();
    if nxt == 0 { return; }
    if nxt == 1 { res := FrIntErr; return; }
    if nxt == DISK_ERROR { res := FrDiskErr; return; }
    res, scl', m' := ReleaseOne(fs, scl, cl, nxt, w, m, j);
    MetaTrans(fs, v, v1, fs.View());
    over := res != FrOk || nxt >= fs.nFatent;
  }

  /** The FAT, status and size are those with which the walk started. */
  ghost predicate Matches(w: Start, obj: FfObj)
    requires obj.fs.Valid() && HasBitmap(obj.fs)
    reads obj`stat, obj`sclust, obj`objsize, obj`nCont, obj`nFrag
    reads obj.fs`disk, obj.fs`winsect, obj.fs`wflag, obj.fs.win
  {
    && w.fat == Fat(obj.fs) && w.s == obj.Chain() && w.sized == (obj.objsize > 0) && w.last == obj.LastIndex()
    && |w.u| == |InUseMap(obj.fs)|
  }

  /** The loop of remove_chain: release the clusters from clst on, in blocks of
      consecutive numbers.  Each round either joins the next cluster number to
      the block or clears a flag that was set, so it ends on every FAT. */
  method ReleaseBlocks(obj: FfObj, clst: nat, ghost w: Start) returns (res: FResult)
    requires obj.fs.Valid() && HasBitmap(obj.fs) && obj.sclust < 0x1_0000_0000 && 2 <= clst < obj.fs.nFatent
    requires Matches(w, obj) && w.u == InUseMap(obj.fs) && w.free == obj.fs.freeClst
    modifies obj.fs`disk, obj.fs`wflag, obj.fs`winsect, obj.fs`ioErrors, obj.fs`freeClst, obj.fs.win
    ensures obj.fs.Valid() && HasBitmap(obj.fs) && Matches(w, obj)
    ensures MetaOnly(obj.fs, old(obj.fs.View()), obj.fs.View()) && obj.fs.ioErrors >= old(obj.fs.ioErrors)
    ensures res == FrDiskErr ==> obj.fs.ioErrors > old(obj.fs.ioErrors)
    ensures Ready(w) && w.i < |w.cs| && clst == w.cs[w.i] ==> Done(w, InUseMap(obj.fs), obj.fs.freeClst, res)
  {
    var fs := obj.fs;
    hide *;
    ghost var j: nat, m: nat := w.i, w.i;
    FirstStage(w, clst);
    TypeLimit(fs);
    ghost var v := fs.View();
    MetaRefl(fs, v);
    var cl: nat, scl: nat := clst, clst;  // ecl is always the cluster cl
    res := FrOk;
    var over := false;
    while !over
      invariant fs.Valid() && HasBitmap(fs) && Matches(w, obj) && MetaOnly(fs, v, fs.View()) && fs.ioErrors >= old(fs.ioErrors)
      invariant res == FrDiskErr ==> fs.ioErrors > old(fs.ioErrors)
      invariant !over ==> res == FrOk && 2 <= scl <= cl < fs.nFatent
      invariant Stage(w, clst, InUseMap(fs), fs.freeClst, over, res, m, j, scl, cl)
      decreases !over, SetFlags(InUseMap(fs)), fs.nFatent - cl
    {
      ghost var v1 := fs.View();
      res, over, cl, scl, m := Round(obj, cl, scl, w, clst, m, j);
      MetaTrans(fs, v, v1, fs.View());
      j := j + 1;
    }
    LastStage(w, clst, InUseMap(fs), fs.freeClst, res, m, j, scl, cl);
  }

  lemma FirstStage(w: Start, clst: nat)
    ensures Stage(w, clst, w.u, w.free, false, FrOk, w.i, w.i, clst, clst)
  {
    if Ready(w) { StartWalking(w); }
  }

  lemma LastStage(w: Start, clst: nat, u: seq<bool>, free: nat, res: FResult, m: nat, j: nat, scl: nat, cl: nat)
    requires Stage(w, clst, u, free, true, res, m, j, scl, cl)
    ensures Ready(w) && w.i < |w.cs| && clst == w.cs[w.i] ==> Done(w, u, free, res)
  {
  }

  /* ---- What is left of the chain ---- */

  /** The links of the clusters cs, the first ones of an object, are known and
      end there; a first fragment may have counted more clusters. */
  ghost predicate Kept(fat: seq<nat>, s: Status, cs: seq<nat>) {
    && |cs| > 0 && s.sclust == cs[0] && s.nFrag == 0 && Distinct(cs)
    && (forall i :: 0 <= i < |cs| ==> 2 <= cs[i] < |fat|)
    && (s.stat == CONTIGUOUS || s.stat == FRAGMENTED || s.stat == ON_FAT)
    && (s.stat == CONTIGUOUS ==> Consecutive(cs, 0, |cs|))
    && (s.stat == FRAGMENTED ==> Consecutive(cs, 0, if s.nCont < |cs| then s.nCont + 1 else |cs|))
    && (s.stat != CONTIGUOUS ==> Linked(fat, cs, if s.stat == FRAGMENTED then s.nCont else 0, |cs|) && fat[Last(cs)] >= |fat|)
  }

  /** The status that remove_chain leaves: contiguous where it can tell so. */
  ghost predicate Settled(fat: seq<nat>, s: Status, s': Status, cs: seq<nat>) {
    && Represents(fat, s', cs) && s' == s.(stat := s'.stat)
    && (s.stat != FRAGMENTED ==> (s'.stat == CONTIGUOUS <==> Consecutive(cs, 0, |cs|)))
  }

  lemma KeptIsReadable(fat: seq<nat>, s: Status, sized: bool, last: nat, cs: seq<nat>, j: nat)
    requires Kept(fat, s, cs) && s.stat == ON_FAT && j < |cs|
    ensures Readable(fat, s, sized, last, cs, j)
  {
  }

  lemma RunIsConsecutive(fat: seq<nat>, s: Status, cs: seq<nat>)
    requires Kept(fat, s, cs) && (Run(cs, 0, |cs| - 1) || s.stat == CONTIGUOUS)
    ensures Settled(fat, s, s.(stat := CONTIGUOUS), cs) || s.stat == FRAGMENTED
  {
  }

  lemma NoRun(fat: seq<nat>, s: Status, cs: seq<nat>, j: nat)
    requires Kept(fat, s, cs) && s.stat == ON_FAT && j + 1 < |cs| && cs[j + 1] != cs[j] + 1
    ensures Settled(fat, s, s, cs)
  {
    NextOf(cs, j);
  }

  lemma NextOf(cs: seq<nat>, j: nat)
    requires j + 1 < |cs|
    ensures Consecutive(cs, 0, |cs|) ==> cs[j + 1] == cs[j] + 1
  {
    assert Consecutive(cs, 0, |cs|) ==> cs[j + 1] == cs[j + 1 - 1] + 1;
  }

  lemma {:induction false} FragmentSettles(fat: seq<nat>, s: Status, cs: seq<nat>)
    requires Kept(fat, s, cs) && s.stat == FRAGMENTED
    ensures Settled(fat, s, if s.sclust <= Last(cs) <= s.sclust + s.nCont then s.(stat := CONTIGUOUS) else s, cs)
  {
    var n := if s.nCont < |cs| then s.nCont + 1 else |cs|;
    forall t | 0 <= t < n ensures cs[t] == cs[0] + t { ConsecutiveOffset(cs, 0, n, t); }
    InRun(cs, n, Last(cs));
    NotBefore(cs, 0, if n < |cs| then n else 0, |cs| - 1);
  }

  lemma InRun(cs: seq<nat>, n: nat, c: nat)
    requires 0 < n <= |cs| && forall t :: 0 <= t < n ==> cs[t] == cs[0] + t
    ensures cs[0] <= c < cs[0] + n ==> c in cs[0..n]
  {
    if cs[0] <= c < cs[0] + n {
      assert cs[c - cs[0]] == c;
    }
  }

  /** The post-processing of remove_chain for a chain of which something is left. */
  method SettleStatus(obj: FfObj, pclst: nat, ghost cs: seq<nat>) returns (res: FResult)
    requires obj.fs.Valid() && HasBitmap(obj.fs) && obj.sclust < 0x1_0000_0000
    modifies obj`stat, obj.fs`disk, obj.fs`wflag, obj.fs`winsect, obj.fs`ioErrors, obj.fs.win
    ensures obj.fs.Valid() && HasBitmap(obj.fs) && Fat(obj.fs) == old(Fat(obj.fs)) && InUseMap(obj.fs) == old(InUseMap(obj.fs))
    ensures MetaOnly(obj.fs, old(obj.fs.View()), obj.fs.View()) && obj.fs.ioErrors >= old(obj.fs.ioErrors)
    ensures res == FrDiskErr ==> obj.fs.ioErrors > old(obj.fs.ioErrors)
    ensures res != FrOk ==> obj.stat == old(obj.stat)
    ensures old(Kept(Fat(obj.fs), obj.Chain(), cs)) && pclst == Last(cs) ==>
              && (res == FrOk || res == FrDiskErr)
              && (res == FrOk ==> Settled(Fat(obj.fs), old(obj.Chain()), obj.Chain(), cs))
  {
    var fs := obj.fs;
    hide FatFs.Valid, HasBitmap, InUseMap, Fat, Kept, Settled, Readable, Run, FfObj.LastIndex, FatFs.View, FatFs.SameView, EndValue, MetaOnly;
    TypeLimit(fs);
    MetaRefl(fs, fs.View());
    ghost var fat, s := Fat(fs), obj.Chain();
    var whole: bool;
    if obj.stat == ON_FAT {
      res, whole := FollowRun(obj, pclst, cs);
    } else {
      if Kept(fat, s, cs) && pclst == Last(cs) {
        if s.stat == FRAGMENTED { FragmentSettles(fat, s, cs); } else { RunIsConsecutive(fat, s, cs); }
      }
      res, whole := FrOk, obj.stat == FRAGMENTED && obj.sclust <= pclst <= obj.sclust + obj.nCont;
    }
    if res == FrOk && whole {
      obj.stat := CONTIGUOUS;
    }
  }

  /** Read the link of the j-th cluster of a chain on the FAT. */
  method RunNext(obj: FfObj, clst: nat, ghost cs: seq<nat>, ghost j: nat) returns (nxt: nat)
    requires obj.fs.Valid() && HasBitmap(obj.fs) && obj.sclust < 0x1_0000_0000 && obj.stat == ON_FAT
    modifies obj.fs`disk, obj.fs`wflag, obj.fs`winsect, obj.fs`ioErrors, obj.fs.win
    ensures obj.fs.Valid() && HasBitmap(obj.fs) && Fat(obj.fs) == old(Fat(obj.fs)) && InUseMap(obj.fs) == old(InUseMap(obj.fs))
    ensures MetaOnly(obj.fs, old(obj.fs.View()), obj.fs.View()) && obj.fs.ioErrors >= old(obj.fs.ioErrors)
    ensures nxt == DISK_ERROR ==> obj.fs.ioErrors > old(obj.fs.ioErrors)
    ensures clst >= obj.fs.nFatent ==> nxt == 1
    ensures Kept(Fat(obj.fs), obj.Chain(), cs) && Run(cs, 0, j) && j < |cs| && clst == cs[j] != Last(cs) && nxt != DISK_ERROR ==>
              && nxt >= 2 && j + 1 < |cs| && nxt == cs[j + 1]
              && if nxt == clst + 1 then Run(cs, 0, j + 1) else Settled(Fat(obj.fs), obj.Chain(), obj.Chain(), cs)
  {
    hide FatFs.Valid, HasBitmap, InUseMap, Fat, Kept, Settled, Readable, Run, FfObj.LastIndex, FatFs.View, FatFs.SameView, EndValue, IsLink;
    ghost var v := obj.fs.View();
    TypeLimit(obj.fs);
    ghost var fat := Fat(obj.fs);
    ghost var known := Kept(fat, obj.Chain(), cs) && Run(cs, 0, j) && j < |cs| && clst == cs[j] && cs[j] != Last(cs);
    if known { KeptIsReadable(fat, obj.Chain(), obj.objsize > 0, obj.LastIndex(), cs, j); }
    nxt := GetFatEx(obj, clst, cs, j);
    MetaFrom(obj.fs, v, obj.fs.View());
    if known && nxt != DISK_ERROR { RunLink(fat, obj.Chain(), cs, j, nxt); }
  }

  /** Follow a chain on the FAT up to pclst to see whether it is contiguous. */
  method FollowRun(obj: FfObj, pclst: nat, ghost cs: seq<nat>) returns (res: FResult, whole: bool)
    requires obj.fs.Valid() && HasBitmap(obj.fs) && obj.sclust < 0x1_0000_0000 && obj.stat == ON_FAT
    modifies obj.fs`disk, obj.fs`wflag, obj.fs`winsect, obj.fs`ioErrors, obj.fs.win
    ensures obj.fs.Valid() && HasBitmap(obj.fs) && Fat(obj.fs) == old(Fat(obj.fs)) && InUseMap(obj.fs) == old(InUseMap(obj.fs))
    ensures MetaOnly(obj.fs, old(obj.fs.View()), obj.fs.View()) && obj.fs.ioErrors >= old(obj.fs.ioErrors)
    ensures res == FrDiskErr ==> obj.fs.ioErrors > old(obj.fs.ioErrors)
    ensures Kept(Fat(obj.fs), obj.Chain(), cs) && pclst == Last(cs) ==>
              && (res == FrOk || res == FrDiskErr)
              && (res == FrOk ==> Settled(Fat(obj.fs), obj.Chain(), if whole then obj.Chain().(stat := CONTIGUOUS) else obj.Chain(), cs))
  {
    var fs := obj.fs;
    hide FatFs.Valid, HasBitmap, InUseMap, Fat, Kept, Settled, Run, FatFs.View, MetaOnly;
    ghost var fat, u, s, j := Fat(fs), InUseMap(fs), obj.Chain(), 0;
    ghost var known := Kept(fat, s, cs) && pclst == Last(cs);
    if known { RunStarts(fat, s, cs); }
    TypeLimit(fs);
    ghost var v := fs.View();
    MetaRefl(fs, v);
    var clst := obj.sclust;
    while clst != pclst
      invariant fs.Valid() && HasBitmap(fs) && Fat(fs) == fat && InUseMap(fs) == u && MetaOnly(fs, v, fs.View()) && fs.ioErrors >= old(fs.ioErrors)
      invariant known ==> j < |cs| && clst == cs[j] && Run(cs, 0, j)
      decreases fs.nFatent - clst
    {
      ghost var v1 := fs.View();
      var nxt := RunNext(obj, clst, cs, j);
      MetaTrans(fs, v, v1, fs.View());
      if nxt < 2 { return FrIntErr, false; }
      if nxt == DISK_ERROR { return FrDiskErr, false; }
      if nxt != clst + 1 { break; }
      clst := clst + 1;
      j := j + 1;
    }
    if known { RunEnds(fat, s, cs, j); }
    return FrOk, clst == pclst;
  }

  lemma RunStarts(fat: seq<nat>, s: Status, cs: seq<nat>)
    requires Kept(fat, s, cs)
    ensures |cs| > 0 && s.sclust == cs[0] && Run(cs, 0, 0)
  {
  }

  lemma RunLink(fat: seq<nat>, s: Status, cs: seq<nat>, j: nat, nxt: nat)
    requires Kept(fat, s, cs) && s.stat == ON_FAT && IsLink(cs, j, nxt, |fat|) && cs[j] != Last(cs) && Run(cs, 0, j)
    ensures nxt >= 2 && j + 1 < |cs| && nxt == cs[j + 1]
    ensures if nxt == cs[j] + 1 then Run(cs, 0, j + 1) else Settled(fat, s, s, cs)
  {
    if nxt != cs[j] + 1 { NoRun(fat, s, cs, j); }
  }

  /** A run up to the last cluster is the whole chain. */
  lemma RunEnds(fat: seq<nat>, s: Status, cs: seq<nat>, j: nat)
    requires Kept(fat, s, cs) && s.stat == ON_FAT && j < |cs| && Run(cs, 0, j)
    ensures cs[j] == Last(cs) ==> Settled(fat, s, s.(stat := CONTIGUOUS), cs)
  {
    if cs[j] == Last(cs) {
      assert j == |cs| - 1;
      RunIsConsecutive(fat, s, cs);
    }
  }

  /* ---- remove_chain and f_truncate ---- */

  /** The start of a release of the clusters cs[i..] of an object. */
  ghost function Now(obj: FfObj, cs: seq<nat>, i: nat): Start
    requires obj.fs.Valid() && HasBitmap(obj.fs)
    reads obj`stat, obj`sclust, obj`objsize, obj`nCont, obj`nFrag
    reads obj.fs`disk, obj.fs`winsect, obj.fs`wflag, obj.fs`freeClst, obj.fs.win
  {
    Start(Fat(obj.fs), obj.Chain(), obj.objsize > 0, obj.LastIndex(), InUseMap(obj.fs), obj.fs.freeClst, cs, i)
  }

  /** The object owns the clusters w.cs, and no link of them is missing. */
  ghost predicate Owned(w: Start) {
    && w.i < |w.cs| && Represents(w.fat, w.s, w.cs) && w.s.nFrag == 0 && AllInUse(w.u, w.cs) && |w.u| + 2 == |w.fat|
    && (w.sized || w.s.stat == ON_FAT) && (w.s.stat == CONTIGUOUS ==> w.last == |w.cs| - 1)
  }

  lemma OwnedNow(obj: FfObj, cs: seq<nat>, i: nat)
    requires obj.fs.Valid() && HasBitmap(obj.fs) && obj.Owns(cs) && obj.nFrag == 0 && i < |cs|
    ensures Owned(Now(obj, cs, i))
  {
    hide FatFs.Valid, HasBitmap, InUseMap, Fat, FfObj.LastIndex;
    OwnsMeans(obj, cs, i);
  }

  /** What releasing the clusters from the i-th on does: exactly they are free
      afterwards, the object keeps the ones before, and nothing changes for others. */
  ghost predicate RemovedEx(w: Start, fat': seq<nat>, u': seq<bool>, s': Status, free': nat, res: FResult) {
    && w.i < |w.cs| && Last(w.cs) < |w.fat|
    && Released(EndValue(w.fat, w.s, Last(w.cs)), w.u, w.free, u', free', w.cs, w.i, res)
    && SameElsewhere(w.fat, fat', w.cs[..w.i])
    && s'.sclust == w.s.sclust && s'.nFrag == 0
    && (res == FrOk ==>
          if w.i == 0 then s'.stat == ON_FAT && fat' == w.fat
          else Settled(fat', w.s, s', w.cs[..w.i]))
  }

  /** The table with the end mark after the clusters that stay. */
  function CutFat(w: Start, eoc: nat): seq<nat> {
    if 0 < w.i <= |w.cs| && w.s.stat != CONTIGUOUS && w.cs[w.i - 1] < |w.fat| then w.fat[w.cs[w.i - 1] := eoc] else w.fat
  }

  /** The end mark leaves the later links, and ends the part that stays. */
  lemma CutOff(w: Start, eoc: nat)
    requires Owned(w) && eoc >= |w.fat|
    ensures var fat1 := CutFat(w, eoc);
            && |fat1| == |w.fat| && Ready(w.(fat := fat1)) && SameElsewhere(w.fat, fat1, w.cs[..w.i])
            && Last(w.cs) < |w.fat| && EndValue(fat1, w.s, Last(w.cs)) == EndValue(w.fat, w.s, Last(w.cs))
            && (w.i > 0 ==> Kept(fat1, w.s, w.cs[..w.i]))
  {
    var fat1 := CutFat(w, eoc);
    forall j | w.i <= j < |w.cs|
      ensures Readable(fat1, w.s, w.sized, w.last, w.cs, j)
    {
      KnownIsReadable(w.fat, w.s, w.sized, w.last, w.cs, j);
    }
    ChainBounds(w.fat, w.s, w.cs);
    if w.i > 0 {
      var p := w.cs[..w.i];
      assert w.cs[w.i - 1] == p[w.i - 1] && p[w.i - 1] in p;
      PrefixKept(w, eoc);
    }
  }

  lemma PrefixKept(w: Start, eoc: nat)
    requires Owned(w) && eoc >= |w.fat| && w.i > 0
    ensures Kept(CutFat(w, eoc), w.s, w.cs[..w.i])
  {
    var p, fat1 := w.cs[..w.i], CutFat(w, eoc);
    var lo := if w.s.stat == FRAGMENTED then w.s.nCont else 0;
    if w.s.stat != CONTIGUOUS {
      forall k | lo <= k < |p| && k + 1 < |p|
        ensures fat1[p[k]] == p[k + 1]
      {
        assert w.fat[w.cs[k]] == w.cs[k + 1];
      }
    }
  }

  lemma RemovedNone(w: Start, eoc: nat, fat': seq<nat>, u': seq<bool>, s': Status, free': nat, res: FResult)
    requires Owned(w) && eoc >= |w.fat| && (fat' == w.fat || fat' == CutFat(w, eoc)) && s' == w.s && res == FrDiskErr
    requires (u' == w.u && free' == w.free) || Done(w.(fat := CutFat(w, eoc)), u', free', res)
    ensures RemovedEx(w, fat', u', s', free', res)
  {
    hide Released;
    CutOff(w, eoc);
    NothingReleased(EndValue(w.fat, w.s, Last(w.cs)), w.u, w.free, w.cs, w.i);
  }

  lemma NothingReleased(end: nat, u: seq<bool>, free: nat, cs: seq<nat>, i: nat)
    requires i < |cs|
    ensures Released(end, u, free, u, free, cs, i, FrDiskErr)
  {
  }

  lemma RemovedAll(w: Start, eoc: nat, u': seq<bool>, s': Status, free': nat, res: FResult)
    requires Owned(w) && eoc >= |w.fat| && Done(w.(fat := CutFat(w, eoc)), u', free', FrOk)
    requires if w.i == 0 then res == FrOk && s' == w.s.(stat := ON_FAT)
             else (res == FrOk && Settled(CutFat(w, eoc), w.s, s', w.cs[..w.i])) || (res == FrDiskErr && s' == w.s)
    ensures RemovedEx(w, CutFat(w, eoc), u', s', free', res)
  {
    CutOff(w, eoc);
  }

  /** The clusters clst and pclst are the i-th and the one before it. */
  ghost predicate At(w: Start, clst: nat, pclst: nat) {
    w.i < |w.cs| && clst == w.cs[w.i] && pclst == if w.i == 0 then 0 else w.cs[w.i - 1]
  }

  lemma CutFatAt(w: Start, clst: nat, pclst: nat, eoc: nat)
    requires Owned(w) && At(w, clst, pclst)
    ensures CutFat(w, eoc) == if pclst != 0 && w.s.stat != CONTIGUOUS then w.fat[pclst := eoc] else w.fat
    ensures pclst != 0 ==> 2 <= pclst < |w.fat|
    ensures 2 <= clst < |w.fat|
    ensures w.i == 0 <==> pclst == 0
  {
  }

  /** Mark the cluster before the released ones as the end of the chain. */
  method MarkEnd(obj: FfObj, clst: nat, pclst: nat, ghost w: Start) returns (res: FResult)
    requires obj.fs.Valid() && HasBitmap(obj.fs) && w.fat == Fat(obj.fs) && w.s == obj.Chain()
    modifies obj.fs`disk, obj.fs`wflag, obj.fs`winsect, obj.fs`ioErrors, obj.fs.win
    ensures obj.fs.Valid() && HasBitmap(obj.fs) && InUseMap(obj.fs) == old(InUseMap(obj.fs))
    ensures MetaOnly(obj.fs, old(obj.fs.View()), obj.fs.View()) && obj.fs.ioErrors >= old(obj.fs.ioErrors)
    ensures res == FrDiskErr ==> obj.fs.ioErrors > old(obj.fs.ioErrors)
    ensures Owned(w) && At(w, clst, pclst) ==>
              && (res == FrOk || res == FrDiskErr)
              && Fat(obj.fs) == (if res == FrOk then CutFat(w, Cut(ExFat, END_OF_CHAIN)) else w.fat)
  {
    var fs := obj.fs;
    TypeLimit(fs);
    hide FatFs.Valid, HasBitmap, InUseMap, Fat, Owned, At, CutFat, FatFs.View, OnlyFat, Cut, MetaOnly, FatFs.SameOutsideFat;
    if Owned(w) && At(w, clst, pclst) { CutFatAt(w, clst, pclst, Cut(ExFat, END_OF_CHAIN)); }
    res := FrOk;
    MetaRefl(fs, fs.View());
    if pclst != 0 && obj.stat != CONTIGUOUS {
      ghost var v, u := fs.View(), InUseMap(fs);
      OnlyFatNow(fs);
      res := PutLink(fs, pclst, END_OF_CHAIN, v, u);
      OnlyFatMeans(fs, v, u);
      MetaFrom(fs, v, fs.View());
    }
  }

  lemma DoneMeans(w: Start, u: seq<bool>, free: nat, res: FResult)
    requires Done(w, u, free, res)
    ensures res == FrOk || res == FrDiskErr
  {
  }

  lemma PartKept(w: Start, clst: nat, pclst: nat, eoc: nat)
    requires Owned(w) && At(w, clst, pclst) && eoc >= |w.fat|
    ensures w.i <= |w.cs| && (w.i == 0 <==> pclst == 0)
    ensures w.i > 0 ==> Kept(CutFat(w, eoc), w.s, w.cs[..w.i]) && pclst == Last(w.cs[..w.i])
  {
    hide Kept, Owned, CutFat;
    CutOff(w, eoc);
    CutFatAt(w, clst, pclst, eoc);
  }

  /** Settle the status after the clusters were released. */
  method Settle(obj: FfObj, clst: nat, pclst: nat, ghost w: Start, ghost eoc: nat) returns (res: FResult)
    requires obj.fs.Valid() && HasBitmap(obj.fs) && obj.sclust < 0x1_0000_0000
    requires Owned(w) && At(w, clst, pclst) ==>
               && eoc >= |w.fat| && Fat(obj.fs) == CutFat(w, eoc) && obj.Chain() == w.s
               && Done(w.(fat := CutFat(w, eoc)), InUseMap(obj.fs), obj.fs.freeClst, FrOk)
    modifies obj`stat, obj.fs`disk, obj.fs`wflag, obj.fs`winsect, obj.fs`ioErrors, obj.fs.win
    ensures obj.fs.Valid() && HasBitmap(obj.fs)
    ensures MetaOnly(obj.fs, old(obj.fs.View()), obj.fs.View()) && obj.fs.ioErrors >= old(obj.fs.ioErrors)
    ensures res == FrDiskErr ==> obj.fs.ioErrors > old(obj.fs.ioErrors)
    ensures Owned(w) && At(w, clst, pclst) ==>
              RemovedEx(w, Fat(obj.fs), InUseMap(obj.fs), obj.Chain(), obj.fs.freeClst, res)
  {
    var fs := obj.fs;
    hide FatFs.Valid, HasBitmap, InUseMap, Fat, Kept, Settled, Owned, RemovedEx, Done, Ready, CutFat, FfObj.LastIndex;
    hide FatFs.View, EndValue, SameElsewhere, At, MetaOnly;
    ghost var known := Owned(w) && At(w, clst, pclst);
    if known {
      PartKept(w, clst, pclst, eoc);
    }
    TypeLimit(fs);
    MetaRefl(fs, fs.View());
    if pclst == 0 {
      obj.stat := ON_FAT;
      res := FrOk;
    } else {
      res := SettleStatus(obj, pclst, if w.i <= |w.cs| then w.cs[..w.i] else []);
    }
    if known { RemovedAll(w, eoc, InUseMap(fs), obj.Chain(), fs.freeClst, res); }
  }

  /** Release the clusters and settle the status. */
  method ReleaseRest(obj: FfObj, clst: nat, pclst: nat, ghost w: Start, ghost eoc: nat) returns (res: FResult)
    requires obj.fs.Valid() && HasBitmap(obj.fs) && obj.sclust < 0x1_0000_0000 && 2 <= clst < obj.fs.nFatent
    requires Owned(w) && At(w, clst, pclst) ==> eoc >= |w.fat| && Now(obj, w.cs, w.i) == w.(fat := CutFat(w, eoc))
    modifies obj`stat, obj.fs`disk, obj.fs`wflag, obj.fs`winsect, obj.fs`ioErrors, obj.fs`freeClst, obj.fs.win
    ensures obj.fs.Valid() && HasBitmap(obj.fs)
    ensures MetaOnly(obj.fs, old(obj.fs.View()), obj.fs.View()) && obj.fs.ioErrors >= old(obj.fs.ioErrors)
    ensures res == FrDiskErr ==> obj.fs.ioErrors > old(obj.fs.ioErrors)
    ensures Owned(w) && At(w, clst, pclst) ==>
              RemovedEx(w, Fat(obj.fs), InUseMap(obj.fs), obj.Chain(), obj.fs.freeClst, res)
  {
    var fs := obj.fs;
    hide FatFs.Valid, HasBitmap, InUseMap, Fat, Kept, Settled, Owned, RemovedEx, Done, Ready, CutFat, FfObj.LastIndex;
    hide FatFs.View, EndValue, SameElsewhere, MetaOnly;
    ghost var known, w1 := Owned(w) && At(w, clst, pclst), Now(obj, w.cs, w.i);
    if known {
      CutOff(w, eoc);
    }
    TypeLimit(fs);
    ghost var v := fs.View();
    res := ReleaseBlocks(obj, clst, w1);
    ghost var v1 := fs.View();
    if res == FrOk {
      res := Settle(obj, clst, pclst, w, eoc);
      MetaTrans(fs, v, v1, fs.View());
    } else if known {
      DoneMeans(w1, InUseMap(fs), fs.freeClst, res);
      RemovedNone(w, eoc, Fat(fs), InUseMap(fs), obj.Chain(), fs.freeClst, res);
    }
  }

  /** remove_chain on an exFAT volume: release the clusters from clst on; pclst,
      unless 0, is the cluster before it.  In use with the i-th of the clusters
      cs that the object owns. */
  method RemoveChainEx(obj: FfObj, clst: nat, pclst: nat, ghost cs: seq<nat>, ghost i: nat) returns (res: FResult)
    requires obj.fs.Valid() && HasBitmap(obj.fs) && obj.sclust < 0x1_0000_0000
    modifies obj`stat, obj.fs`disk, obj.fs`wflag, obj.fs`winsect, obj.fs`ioErrors, obj.fs`freeClst, obj.fs.win
    ensures obj.fs.Valid() && HasBitmap(obj.fs)
    ensures MetaOnly(obj.fs, old(obj.fs.View()), obj.fs.View()) && obj.fs.ioErrors >= old(obj.fs.ioErrors)
    ensures res == FrDiskErr ==> obj.fs.ioErrors > old(obj.fs.ioErrors)
    ensures clst < 2 || clst >= obj.fs.nFatent ==> res == FrIntErr && Now(obj, cs, i) == old(Now(obj, cs, i))
    ensures old(Owned(Now(obj, cs, i)) && At(Now(obj, cs, i), clst, pclst)) ==>
              RemovedEx(old(Now(obj, cs, i)), Fat(obj.fs), InUseMap(obj.fs), obj.Chain(), obj.fs.freeClst, res)
  {
    var fs := obj.fs;
    TypeLimit(fs);
    hide FatFs.Valid, HasBitmap, InUseMap, Fat, Owned, At, RemovedEx, Done, CutFat, FfObj.LastIndex, FatFs.View, Cut, MetaOnly;
    EndMarkIsPastTable(ExFat);
    ghost var w, eoc := Now(obj, cs, i), Cut(ExFat, END_OF_CHAIN);
    if Owned(w) && At(w, clst, pclst) { CutFatAt(w, clst, pclst, eoc); }
    ghost var v := fs.View();
    MetaRefl(fs, v);
    if clst < 2 || clst >= fs.nFatent { return FrIntErr; }
    res := MarkEnd(obj, clst, pclst, w);
    ghost var v1 := fs.View();
    if res == FrOk {
      res := ReleaseRest(obj, clst, pclst, w, eoc);
      MetaTrans(fs, v, v1, fs.View());
    } else if Owned(w) && At(w, clst, pclst) {
      RemovedNone(w, eoc, Fat(fs), InUseMap(fs), obj.Chain(), fs.freeClst, res);
    }
  }

  /** The index of the cluster of a file in which the byte before fptr lies. */
  function ClusterOf(fs: FatFs, fptr: nat): nat {
    if fptr == 0 || fs.csize == 0 then 0 else Quot(fptr - 1, fs.ss) / fs.csize
  }

  /** The number of clusters that a file cut at fptr keeps. */
  function KeptClusters(fs: FatFs, fptr: nat): nat {
    if fptr == 0 then 0 else ClusterOf(fs, fptr) + 1
  }

  /** The clusters from the n-th on have been given back, the others stay owned. */
  ghost predicate GivenBack(w: Start, fat': seq<nat>, u': seq<bool>, s': Status, free': nat) {
    && w.i <= |w.cs|
    && u' == Freed(w.u, w.cs, w.i, |w.cs|) && (FreeInfo(w.free, w.u) ==> FreeInfo(free', u'))
    && SameElsewhere(w.fat, fat', w.cs[..w.i]) && s'.nFrag == 0
    && (w.i > 0 ==> Represents(fat', s', w.cs[..w.i]) && AllInUse(u', w.cs[..w.i]))
  }

  lemma RemovedGivesBack(w: Start, fat': seq<nat>, u': seq<bool>, s': Status, free': nat)
    requires Owned(w) && RemovedEx(w, fat', u', s', free', FrOk) && EndValue(w.fat, w.s, Last(w.cs)) != Last(w.cs) + 1
    ensures GivenBack(w, fat', u', s', free')
  {
    hide FreeInfo, Represents;
    ChainDistinct(w.fat, w.s, w.cs);
    forall k | k in w.cs[..w.i]
      ensures 2 <= k < |u'| + 2 && u'[k - 2]
    {
      assert k in w.cs && k !in w.cs[w.i..|w.cs|];
    }
  }

  lemma ChainDistinct(fat: seq<nat>, s: Status, cs: seq<nat>)
    requires Represents(fat, s, cs)
    ensures Distinct(cs)
  {
  }

  lemma NothingToGive(w: Start)
    requires Owned(w.(i := 0)) && w.i == |w.cs|
    ensures GivenBack(w, w.fat, w.u, w.s, w.free)
  {
    assert w.cs[..|w.cs|] == w.cs;
    assert Freed(w.u, w.cs, |w.cs|, |w.cs|) == w.u;
  }

  /** The end of the chain cannot be taken for a link to the next cluster number. */
  ghost predicate PlainEnd(w: Start) {
    w.cs != [] && Last(w.cs) < |w.fat| && EndValue(w.fat, w.s, Last(w.cs)) != Last(w.cs) + 1
  }

  /** With the end mark of the code that is so unless the chain ends in the last
      cluster of the largest possible volume. */
  lemma EndsPlainly(w: Start)
    requires Owned(w) && (w.s.stat == CONTIGUOUS || w.fat[Last(w.cs)] == NO_MORE)
    ensures PlainEnd(w) <==> Last(w.cs) != 0x7FFF_FFFE
  {
  }

  /** A release that comes to its end gives the clusters back exactly if the chain ends
      plainly: otherwise the flag of its last cluster stays set. */
  lemma GivesBackIff(w: Start, fat': seq<nat>, u': seq<bool>, s': Status, free': nat)
    requires Owned(w) && RemovedEx(w, fat', u', s', free', FrOk)
    ensures GivenBack(w, fat', u', s', free') <==> PlainEnd(w)
  {
    if PlainEnd(w) {
      RemovedGivesBack(w, fat', u', s', free');
    } else {
      hide FreeInfo, Represents, SameElsewhere;
      assert u'[Last(w.cs) - 2];
      var last := Last(w.cs);
      assert last in w.cs[w.i..|w.cs|] by { assert w.cs[w.i..|w.cs|][|w.cs| - w.i - 1] == last; }
      assert |w.u| == |u'| && !Freed(w.u, w.cs, w.i, |w.cs|)[last - 2];
    }
  }

  /** The largest volume, with an object of one cluster, the last one. */
  ghost function Largest(): Start {
    Start(seq(0x7FFF_FFFF, k => 0), Status(CONTIGUOUS, 0x7FFF_FFFE, 0, 0), true, 0,
          seq(0x7FFF_FFFD, k => k == 0x7FFF_FFFC), 0x7FFF_FFFC, [0x7FFF_FFFE], 0)
  }

  /** There the release of the object finds the end mark NO_MORE right behind its
      cluster, succeeds without a cleared flag, and the cluster is lost. */
  lemma LargestVolume(fat': seq<nat>, u': seq<bool>, s': Status, free': nat)
    ensures Owned(Largest()) && At(Largest(), 0x7FFF_FFFE, 0) && !PlainEnd(Largest())
    ensures RemovedEx(Largest(), fat', u', s', free', FrOk) ==> u'[0x7FFF_FFFC] && !GivenBack(Largest(), fat', u', s', free')
  {
    assert |Largest().fat| == 0x7FFF_FFFF;
    if RemovedEx(Largest(), fat', u', s', free', FrOk) {
      GivesBackIff(Largest(), fat', u', s', free');
    }
  }

  /** How cutting the chain goes: nothing changes for other objects, and without
      a disk error exactly the clusters from the n-th on are given back. */
  ghost predicate CutDown(w: Start, fat': seq<nat>, u': seq<bool>, s': Status, free': nat, res: FResult) {
    && (res == FrOk || res == FrDiskErr)
    && w.i <= |w.cs| && OthersInUse(w.u, u', w.cs, w.i) && SameElsewhere(w.fat, fat', w.cs[..w.i])
    && s'.sclust == w.s.sclust && s'.nFrag == 0
    && (res == FrOk && PlainEnd(w) ==> GivenBack(w, fat', u', s', free'))
  }

  lemma RemovedCutsDown(w: Start, fat': seq<nat>, u': seq<bool>, s': Status, free': nat, res: FResult)
    requires Owned(w) && RemovedEx(w, fat', u', s', free', res)
    ensures CutDown(w, fat', u', s', free', res)
  {
    hide Owned, Settled, GivenBack, FreeInfo, SameElsewhere, OthersInUse, EndValue;
    if res == FrOk && PlainEnd(w) {
      RemovedGivesBack(w, fat', u', s', free');
    }
  }

  lemma UnchangedCut(w: Start, res: FResult)
    requires w.cs != [] && Owned(w.(i := 0)) && w.i <= |w.cs|
    requires res == FrDiskErr || (res == FrOk && w.i == |w.cs|)
    ensures CutDown(w, w.fat, w.u, w.s, w.free, res)
  {
    if res == FrOk { NothingToGive(w); }
  }

  /** The cluster of f_truncate that stays last, or none. */
  ghost predicate CutPoint(w: Start, clust: nat, whole: bool) {
    && w.cs != [] && Owned(w.(i := 0)) && w.i <= |w.cs|
    && if whole then w.i == 0 else w.i > 0 && clust == w.cs[w.i - 1]
  }

  lemma CutPointAt(w: Start, clust: nat, whole: bool)
    requires CutPoint(w, clust, whole)
    ensures w.i < |w.cs| ==> Owned(w)
    ensures whole ==> Owned(w) && At(w, w.s.sclust, 0)
    ensures !whole ==> Readable(w.fat, w.s, w.sized, w.last, w.cs, w.i - 1) && clust == w.cs[w.i - 1]
    ensures 2 <= w.s.sclust < |w.fat|
  {
    if !whole { KnownIsReadable(w.fat, w.s, w.sized, w.last, w.cs, w.i - 1); }
  }

  lemma LinkAtCut(w: Start, clust: nat, ncl: nat)
    requires CutPoint(w, clust, false) && IsLink(w.cs, w.i - 1, ncl, |w.fat|)
    ensures ncl >= 2
    ensures ncl < |w.fat| ==> Owned(w) && At(w, ncl, clust)
    ensures ncl >= |w.fat| ==> CutDown(w, w.fat, w.u, w.s, w.free, FrOk)
  {
    if ncl >= |w.fat| { UnchangedCut(w, FrOk); }
  }

  /** remove_chain where it is known what it does. */
  method CutAt(obj: FfObj, clst: nat, pclst: nat, ghost w: Start) returns (res: FResult)
    requires obj.fs.Valid() && HasBitmap(obj.fs) && obj.sclust < 0x1_0000_0000
    requires w == Now(obj, w.cs, w.i) && Owned(w) && At(w, clst, pclst)
    modifies obj`stat, obj.fs`disk, obj.fs`wflag, obj.fs`winsect, obj.fs`ioErrors, obj.fs`freeClst, obj.fs.win
    ensures obj.fs.Valid() && HasBitmap(obj.fs)
    ensures MetaOnly(obj.fs, old(obj.fs.View()), obj.fs.View()) && obj.fs.ioErrors >= old(obj.fs.ioErrors)
    ensures res == FrDiskErr ==> obj.fs.ioErrors > old(obj.fs.ioErrors)
    ensures CutDown(w, Fat(obj.fs), InUseMap(obj.fs), obj.Chain(), obj.fs.freeClst, res)
  {
    hide FatFs.Valid, HasBitmap, InUseMap, Fat, Owned, At, RemovedEx, CutDown, FfObj.LastIndex, FatFs.View, MetaOnly;
    res := RemoveChainEx(obj, clst, pclst, w.cs, w.i);
    RemovedCutsDown(w, Fat(obj.fs), InUseMap(obj.fs), obj.Chain(), obj.fs.freeClst, res);
  }

  /** Cut the chain behind cluster clust. */
  method CutBehind(obj: FfObj, clust: nat, ghost w: Start) returns (res: FResult)
    requires obj.fs.Valid() && HasBitmap(obj.fs) && obj.sclust < 0x1_0000_0000
    requires w == Now(obj, w.cs, w.i) && CutPoint(w, clust, false)
    modifies obj`stat, obj.fs`disk, obj.fs`wflag, obj.fs`winsect, obj.fs`ioErrors, obj.fs`freeClst, obj.fs.win
    ensures obj.fs.Valid() && HasBitmap(obj.fs)
    ensures MetaOnly(obj.fs, old(obj.fs.View()), obj.fs.View()) && obj.fs.ioErrors >= old(obj.fs.ioErrors)
    ensures res == FrDiskErr ==> obj.fs.ioErrors > old(obj.fs.ioErrors)
    ensures CutDown(w, Fat(obj.fs), InUseMap(obj.fs), obj.Chain(), obj.fs.freeClst, res)
  {
    hide FatFs.Valid, HasBitmap, InUseMap, Fat, Owned, At, RemovedEx, CutDown, CutPoint, FfObj.LastIndex, FatFs.View, FatFs.SameView, Readable, IsLink, EndValue, MetaOnly;
    TypeLimit(obj.fs);
    ghost var v := obj.fs.View();
    CutPointAt(w, clust, false);
    CutFailed(w, clust, false);
    var ncl := GetFatEx(obj, clust, w.cs, w.i - 1);
    ghost var v1 := obj.fs.View();
    MetaFrom(obj.fs, v, v1);
    if ncl == DISK_ERROR { return FrDiskErr; }
    LinkAtCut(w, clust, ncl);
    res := if ncl == 1 then FrIntErr else FrOk;
    if res == FrOk && ncl < obj.fs.nFatent {
      res := CutAt(obj, ncl, clust, w);
      MetaTrans(obj.fs, v, v1, obj.fs.View());
    }
  }

  lemma CutFailed(w: Start, clust: nat, whole: bool)
    requires CutPoint(w, clust, whole)
    ensures CutDown(w, w.fat, w.u, w.s, w.free, FrDiskErr)
    ensures !whole ==> w.i > 0
  {
    UnchangedCut(w, FrDiskErr);
  }

  /** The part of f_truncate that gives clusters back. */
  method CutChain(obj: FfObj, clust: nat, whole: bool, ghost w: Start) returns (res: FResult)
    requires obj.fs.Valid() && HasBitmap(obj.fs) && w == Now(obj, w.cs, w.i) && CutPoint(w, clust, whole)
    modifies obj`stat, obj.fs`disk, obj.fs`wflag, obj.fs`winsect, obj.fs`ioErrors, obj.fs`freeClst, obj.fs.win
    ensures obj.fs.Valid() && HasBitmap(obj.fs)
    ensures MetaOnly(obj.fs, old(obj.fs.View()), obj.fs.View()) && obj.fs.ioErrors >= old(obj.fs.ioErrors)
    ensures res == FrDiskErr ==> obj.fs.ioErrors > old(obj.fs.ioErrors)
    ensures CutDown(w, Fat(obj.fs), InUseMap(obj.fs), obj.Chain(), obj.fs.freeClst, res)
  {
    TypeLimit(obj.fs);
    hide FatFs.Valid, HasBitmap, InUseMap, Fat, Owned, At, CutDown, CutPoint, FfObj.LastIndex, FatFs.View, MetaOnly;
    CutPointAt(w, clust, whole);
    if whole {
      res := CutAt(obj, obj.sclust, 0, w);
    } else {
      res := CutBehind(obj, clust, w);
    }
  }

  lemma CutPointOf(obj: FfObj, clust: nat, fptr: nat, cs: seq<nat>)
    requires obj.fs.Valid() && HasBitmap(obj.fs) && obj.Owns(cs) && obj.nFrag == 0 && cs != []
    requires fptr > 0 ==> ClusterOf(obj.fs, fptr) < |cs| && clust == cs[ClusterOf(obj.fs, fptr)]
    ensures CutPoint(Now(obj, cs, KeptClusters(obj.fs, fptr)), clust, fptr == 0)
    ensures KeptClusters(obj.fs, fptr) == 0 <==> fptr == 0
  {
    hide FatFs.Valid, HasBitmap, InUseMap, Fat, FfObj.LastIndex, FfObj.Owns, ClusterOf, Owned;
    OwnedNow(obj, cs, 0);
  }

  lemma GivenBackOwned(obj: FfObj, cs: seq<nat>, n: nat, w: Start)
    requires obj.fs.Valid() && HasBitmap(obj.fs) && n <= |cs| && w.cs == cs && w.i == n
    requires obj.nFrag == 0 && n == KeptClusters(obj.fs, obj.objsize)
    requires n > 0 ==> Represents(Fat(obj.fs), obj.Chain(), cs[..n]) && AllInUse(InUseMap(obj.fs), cs[..n])
    ensures obj.Owns(cs[..n])
  {
    hide FatFs.Valid, HasBitmap, InUseMap, Fat, Quot;
  }

  lemma CutDownMeans(w: Start, fat': seq<nat>, u': seq<bool>, s': Status, free': nat, res: FResult)
    requires CutDown(w, fat', u', s', free', res)
    ensures res == FrOk || res == FrDiskErr
    ensures w.i <= |w.cs| && OthersInUse(w.u, u', w.cs, w.i) && SameElsewhere(w.fat, fat', w.cs[..w.i]) && s'.nFrag == 0
    ensures res == FrOk && PlainEnd(w) ==>
              && u' == Freed(w.u, w.cs, w.i, |w.cs|) && (FreeInfo(w.free, w.u) ==> FreeInfo(free', u'))
              && (w.i > 0 ==> Represents(fat', s', w.cs[..w.i]) && AllInUse(u', w.cs[..w.i]))
  {
  }

  /** The result of f_truncate, w being the state before: exactly the clusters
      behind the new end are given back and counted as free, the FAT entries of
      other clusters and the flags of all others stay. */
  ghost predicate Shortened(w: Start, fat': seq<nat>, u': seq<bool>, free': nat, res: FResult) {
    && (res == FrOk || res == FrDiskErr)
    && w.i <= |w.cs| && OthersInUse(w.u, u', w.cs, w.i) && SameElsewhere(w.fat, fat', w.cs[..w.i])
    && (res == FrOk && PlainEnd(w) ==>
          u' == Freed(w.u, w.cs, w.i, |w.cs|) && (FreeInfo(w.free, w.u) ==> FreeInfo(free', u')))
  }

  /** f_truncate on an exFAT volume as far as chain and size are concerned: clust
      is the cluster of the byte before the position fptr. */
  method TruncateEx(obj: FfObj, clust: nat, fptr: nat, ghost cs: seq<nat>) returns (res: FResult)
    requires obj.fs.Valid() && HasBitmap(obj.fs) && obj.Owns(cs) && obj.nFrag == 0 && (fptr < obj.objsize ==> cs != [])
    requires 0 < fptr < obj.objsize ==> ClusterOf(obj.fs, fptr) < |cs| && clust == cs[ClusterOf(obj.fs, fptr)]
    modifies obj`stat, obj`sclust, obj`objsize, obj.fs`disk, obj.fs`wflag, obj.fs`winsect, obj.fs`ioErrors, obj.fs`freeClst, obj.fs.win
    ensures obj.fs.Valid() && HasBitmap(obj.fs)
    ensures MetaOnly(obj.fs, old(obj.fs.View()), obj.fs.View()) && obj.fs.ioErrors >= old(obj.fs.ioErrors)
    ensures res == FrDiskErr ==> obj.fs.ioErrors > old(obj.fs.ioErrors)
    ensures obj.objsize == if fptr < old(obj.objsize) then fptr else old(obj.objsize)
    ensures fptr >= old(obj.objsize) ==> res == FrOk && Now(obj, cs, 0) == old(Now(obj, cs, 0))
    ensures fptr < old(obj.objsize) ==>
              Shortened(old(Now(obj, cs, KeptClusters(obj.fs, fptr))), Fat(obj.fs), InUseMap(obj.fs), obj.fs.freeClst, res)
    ensures fptr < old(obj.objsize) && res == FrOk && old(PlainEnd(Now(obj, cs, 0))) ==> obj.Owns(cs[..KeptClusters(obj.fs, fptr)])
  {
    hide FatFs.Valid, HasBitmap, InUseMap, Fat, Owned, CutDown, CutPoint, FfObj.LastIndex, FfObj.Owns, FatFs.View, MetaOnly;
    hide KeptClusters, ClusterOf, Freed, SameElsewhere, OthersInUse, Represents, AllInUse, EndValue, FreeInfo;
    res := FrOk;
    TypeLimit(obj.fs);
    MetaRefl(obj.fs, obj.fs.View());
    if fptr < obj.objsize {
      ghost var w := Now(obj, cs, KeptClusters(obj.fs, fptr));
      CutPointOf(obj, clust, fptr, cs);
      res := CutChain(obj, clust, fptr == 0, w);
      CutDownMeans(w, Fat(obj.fs), InUseMap(obj.fs), obj.Chain(), obj.fs.freeClst, res);
      Resize(obj, fptr);
      if res == FrOk && PlainEnd(w) { GivenBackOwned(obj, cs, w.i, w); }
    }
  }

  /** Set the size after the chain was cut; an empty file has no first cluster. */
  method Resize(obj: FfObj, fptr: nat)
    requires obj.fs.Valid() && HasBitmap(obj.fs)
    modifies obj`sclust, obj`objsize
    ensures obj.fs.Valid() && HasBitmap(obj.fs) && Fat(obj.fs) == old(Fat(obj.fs)) && InUseMap(obj.fs) == old(InUseMap(obj.fs)) && obj.fs.View() == old(obj.fs.View())
    ensures obj.objsize == fptr && obj.sclust == if fptr == 0 then 0 else old(obj.sclust)
  {
    if fptr == 0 { obj.sclust := 0; }
    obj.objsize := fptr;
  }
}
