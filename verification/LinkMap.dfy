/** The cluster link map of fast seek: building the table from a chain and
    looking up clusters in it. */
module LinkMap {
  import opened FatTable
  import opened Volume
  import opened FatAccess

  const DISK_ERROR: nat := 0xFFFF_FFFF

  datatype Fragment = Fragment(len: nat, top: nat)

  /** The clusters of a list of fragments, one after the other. */
  function Expand(fr: seq<Fragment>): seq<nat> {
    if fr == [] then [] else Expand(fr[..|fr| - 1]) + Run(fr[|fr| - 1])
  }

  function Run(f: Fragment): (r: seq<nat>)
    ensures |r| == f.len
  {
    seq(f.len, i requires 0 <= i < f.len => f.top + i)
  }

  /** Number of maximal runs of consecutive numbers among the first n. */
  function Runs(c: seq<nat>, n: nat): nat
    requires n <= |c|
  {
    if n == 0 then 0 else Runs(c, n - 1) + if n > 1 && c[n - 1] == c[n - 2] + 1 then 0 else 1
  }

  /** The table holds exactly these fragments, from its second item on. */
  ghost predicate Holds(t: seq<nat>, fr: seq<Fragment>) {
    && 2 + 2 * |fr| <= |t|
    && (forall j :: 0 <= j < |fr| ==> t[1 + 2 * j] == fr[j].len && t[2 + 2 * j] == fr[j].top)
  }

  /** ... followed by the end mark. */
  ghost predicate Closed(t: seq<nat>, fr: seq<Fragment>) {
    Holds(t, fr) && t[1 + 2 * |fr|] == 0 && forall j :: 0 <= j < |fr| ==> fr[j].len > 0
  }

  /** The table is a link map of the chain. */
  ghost predicate Maps(t: seq<nat>, chain: seq<nat>) {
    exists fr: seq<Fragment> :: Closed(t, fr) && Expand(fr) == chain
  }

  /** The map of the clusters 2, 3, 4, 10, 11: its size, three clusters from 2 on, two
      from 10 on, and the end. */
  lemma MapExample()
    ensures Maps([6, 3, 2, 2, 10, 0], [2, 3, 4, 10, 11])
  {
    var fr := [Fragment(3, 2), Fragment(2, 10)];
    assert fr[..1] == [Fragment(3, 2)] && fr[..1][..0] == [];
    assert Expand([]) == [] && Run(fr[0]) == [2, 3, 4] && Run(fr[1]) == [10, 11];
    assert Expand(fr[..1]) == [] + [2, 3, 4];
    assert Closed([6, 3, 2, 2, 10, 0], fr);
  }

  /** The link of the last cluster is its own number plus one. */
  ghost predicate EndClash(fat: seq<nat>, chain: seq<nat>) {
    chain != [] && IsChain(fat, chain) && fat[Last(chain)] == Last(chain) + 1
  }

  /** A chain that ends in a free entry or the reserved value. */
  ghost predicate Broken(fat: seq<nat>, chain: seq<nat>) {
    && chain != [] && (forall i :: 0 <= i < |chain| ==> 2 <= chain[i] < |fat|)
    && (forall i :: 0 <= i < |chain| - 1 ==> fat[chain[i]] == chain[i + 1])
    && fat[Last(chain)] <= 1
  }

  /** chain is what following the links from sclust visits, be it proper, broken,
      or empty because sclust is no cluster. */
  ghost predicate Visits(fat: seq<nat>, sclust: nat, chain: seq<nat>) {
    if sclust < 2 || sclust >= |fat| then chain == []
    else (IsChain(fat, chain) || Broken(fat, chain)) && chain[0] == sclust
  }

  /** The code cannot follow the chain to its end. */
  ghost predicate Unusable(fat: seq<nat>, sclust: nat, chain: seq<nat>) {
    Broken(fat, chain) || EndClash(fat, chain) || sclust == 1 || sclust >= |fat|
  }

  /** The clash needs an end mark that FatFs does not write: none above the limit
      of entry numbers looks like the next cluster. */
  lemma EndMarksDoNotClash(t: FsType, fat: seq<nat>, chain: seq<nat>)
    requires IsChain(fat, chain) && |fat| <= EntryLimit(t) && fat[Last(chain)] > EntryLimit(t)
    ensures !EndClash(fat, chain)
    ensures t != ExFat ==> Cut(t, END_OF_CHAIN) > EntryLimit(t)
  {
    assert Last(chain) < |fat|;
  }

  /** A volume of three clusters whose only file is ended by the mark 5. */
  lemma ClashExample()
    ensures var fat: seq<nat> := [0xFFF8, 0xFFFF, 3, 4, 5];
            IsChain(fat, [2, 3, 4]) && EndClash(fat, [2, 3, 4])
  {
    var fat: seq<nat>, c: seq<nat> := [0xFFF8, 0xFFFF, 3, 4, 5], [2, 3, 4];
    assert forall i :: 0 <= i < |c| ==> c[i] == i + 2;
  }

  /** Where the clusters of the k-th fragment lie in the whole chain. */
  lemma {:induction false} FragmentAt(fr: seq<Fragment>, k: nat)
    requires k < |fr|
    ensures Expand(fr[..k + 1]) == Expand(fr[..k]) + Run(fr[k])
    ensures Expand(fr[..k + 1]) <= Expand(fr)
    decreases |fr|
  {
    var m := |fr| - 1;
    assert fr[..k + 1][..k] == fr[..k];
    if k < m {
      assert fr[..m][..k + 1] == fr[..k + 1] && fr[..m][..k] == fr[..k];
      FragmentAt(fr[..m], k);
    } else {
      assert fr[..k + 1] == fr;
    }
  }

  /** The item number of byte ofs in the chain. */
  function ClusterOrder(ofs: nat, ss: nat, csize: nat): nat
    requires ss > 0 && csize > 0
  {
    ofs / ss / csize
  }

  /** clmt_clust: the cluster that holds byte ofs, 0 past the end of the chain. */
  method ClmtClust(tbl: array<nat>, ofs: nat, ss: nat, csize: nat, ghost chain: seq<nat>) returns (clst: nat)
    requires ss > 0 && csize > 0 && Maps(tbl[..], chain)
    ensures var i := ClusterOrder(ofs, ss, csize); clst == if i < |chain| then chain[i] else 0
  {
    hide ClusterOrder, Expand, Run;
    var cl: nat := ClusterOrder(ofs, ss, csize);
    ghost var index := cl;
    ghost var fr: seq<Fragment> :| Closed(tbl[..], fr) && Expand(fr) == chain;
    EmptyExpand(fr);
    var t := 1;
    ghost var k: nat := 0;
    while true
      invariant k <= |fr| && t == 1 + 2 * k
      invariant index == |Expand(fr[..k])| + cl
      decreases |fr| - k
    {
      assert k < |fr| ==> tbl[..][1 + 2 * k] == fr[k].len > 0 && tbl[..][2 + 2 * k] == fr[k].top;
      var ncl := tbl[t];
      t := t + 1;
      if ncl == 0 {
        assert fr[..k] == fr;
        return 0;
      }
      FragmentAt(fr, k);
      if cl < ncl { break; }
      cl := cl - ncl;
      t := t + 1;
      k := k + 1;
    }
    RunAt(fr[k], cl);
    return cl + tbl[t];
  }

  lemma EmptyExpand(fr: seq<Fragment>)
    ensures Expand(fr[..0]) == []
  {
  }

  lemma RunAt(f: Fragment, i: nat)
    requires i < f.len
    ensures Run(f)[i] == f.top + i
  {
  }

  lemma ChainLink(fat: seq<nat>, chain: seq<nat>, i: nat)
    requires (IsChain(fat, chain) || Broken(fat, chain)) && i < |chain|
    ensures 2 <= chain[i] < |fat|
    ensures i + 1 < |chain| ==> 2 <= fat[chain[i]] == chain[i + 1]
    ensures i + 1 == |chain| ==> if Broken(fat, chain) then fat[chain[i]] <= 1 else 2 <= |fat| <= fat[chain[i]]
  {
    assert i + 1 < |chain| ==> chain[i + 1] >= 2;
  }

  /** The table while it is built, from contents was: the fragments are stored as
      long as there is room, and nothing past the given size has changed. */
  ghost predicate Building(was: seq<nat>, now: seq<nat>, ulen: nat, t: nat, fr: seq<Fragment>) {
    && |now| == |was| > 0 && was[0] <= |was| && ulen == 2 + 2 * |fr| && now[0] == was[0]
    && (ulen <= was[0] ==> Holds(now, fr) && t == 1 + 2 * |fr|)
    && (forall k :: was[0] <= k < |now| && k > 0 ==> now[k] == was[k])
    && (forall j :: 0 <= j < |fr| ==> fr[j].len > 0)
  }

  /** The table when it is done. */
  ghost predicate Built(was: seq<nat>, now: seq<nat>, fr: seq<Fragment>, ok: bool) {
    && |now| == |was| > 0 && now[0] == 2 + 2 * |fr| && (ok <==> now[0] <= was[0])
    && (ok ==> Closed(now, fr))
    && (forall k :: was[0] <= k < |now| && k > 0 ==> now[k] == was[k])
  }

  lemma BuildStart(was: seq<nat>)
    requires |was| > 0 && was[0] <= |was|
    ensures Building(was, was, 2, 1, [])
  {
  }

  lemma BuildStep(was: seq<nat>, now: seq<nat>, now': seq<nat>, ulen: nat, t: nat, t': nat, fr: seq<Fragment>, f: Fragment)
    requires Building(was, now, ulen, t, fr) && f.len > 0
    requires ulen + 2 <= was[0] ==> t + 1 < |now| && now' == now[t := f.len][t + 1 := f.top] && t' == t + 2
    requires ulen + 2 > was[0] ==> now' == now
    ensures Building(was, now', ulen + 2, t', fr + [f])
  {
  }

  lemma BuildRoom(was: seq<nat>, now: seq<nat>, ulen: nat, t: nat, fr: seq<Fragment>)
    requires Building(was, now, ulen, t, fr)
    ensures |now| == |was| > 0 && (ulen <= was[0] ==> 0 < t < |now|) && (ulen + 2 <= was[0] ==> t + 2 < |now|)
  {
  }

  lemma BuildEnd(was: seq<nat>, now: seq<nat>, now': seq<nat>, ulen: nat, t: nat, fr: seq<Fragment>)
    requires Building(was, now, ulen, t, fr)
    requires ulen <= was[0] ==> 0 < t < |now| && now' == now[0 := ulen][t := 0]
    requires ulen > was[0] ==> now' == now[0 := ulen]
    ensures Built(was, now', fr, ulen <= was[0])
  {
  }

  /** The fragments cover the first clusters, and their number is that of the runs. */
  ghost predicate Covered(chain: seq<nat>, fr: seq<Fragment>, done: nat) {
    && done <= |chain| && Expand(fr) == chain[..done]
    && if done < |chain| then Runs(chain, done + 1) == |fr| + 1 else Runs(chain, done) == |fr|
  }

  lemma CoverStart(chain: seq<nat>)
    ensures Covered(chain, [], 0)
  {
    assert |chain| > 0 ==> Runs(chain, 1) == Runs(chain, 0) + 1;
  }

  lemma CoverMore(chain: seq<nat>, fr: seq<Fragment>, done: nat, f: Fragment)
    requires Covered(chain, fr, done) && done < |chain| && f.len > 0 && done + f.len <= |chain|
    requires forall i :: done <= i < done + f.len ==> chain[i] == f.top + (i - done)
    requires Runs(chain, done + f.len) == |fr| + 1
    requires done + f.len < |chain| ==> Runs(chain, done + f.len + 1) == |fr| + 2
    ensures Covered(chain, fr + [f], done + f.len)
  {
    ExtendExpand(fr, f, chain, done);
  }

  lemma ExtendExpand(fr: seq<Fragment>, f: Fragment, chain: seq<nat>, done: nat)
    requires done + f.len <= |chain| && Expand(fr) == chain[..done]
    requires forall i :: done <= i < done + f.len ==> chain[i] == f.top + (i - done)
    ensures Expand(fr + [f]) == chain[..done + f.len]
  {
    assert (fr + [f])[..|fr|] == fr;
  }

  /** Where the inner loop stands: at the pos-th cluster, in a run that started
      at done; or at a number that is no cluster, because there is no chain or
      past an end mark that looks like the next cluster. */
  ghost predicate InRun(fat: seq<nat>, chain: seq<nat>, done: nat, pos: nat, cl: nat, n: nat) {
    && done <= pos <= |chain|
    && (forall i :: done <= i < pos ==> chain[i] == chain[done] + (i - done))
    && if pos < |chain| then cl == chain[pos] == chain[done] + (pos - done) && Runs(chain, pos + 1) == n + 1
       else (chain == [] || EndClash(fat, chain)) && (cl < 2 || cl >= |fat|)
  }

  /** The inner loop of CREATE_LINKMAP: measure the run that starts at cl. */
  method MeasureRun(fs: FatFs, tcl: nat, ghost chain: seq<nat>, ghost done: nat, ghost n: nat)
      returns (res: FResult, ncl: nat, cl: nat)
    requires fs.Valid() && (chain == [] || IsChain(Fat(fs), chain) || Broken(Fat(fs), chain))
    requires InRun(Fat(fs), chain, done, done, tcl, n) && (chain != [] ==> done < |chain|)
    modifies fs`disk, fs`wflag, fs`winsect, fs`ioErrors, fs.win
    ensures fs.Valid() && fs.SameView(old(fs.View()), fs.View()) && Fat(fs) == old(Fat(fs)) && fs.ioErrors >= old(fs.ioErrors)
    ensures res == FrOk || (res == FrDiskErr && fs.ioErrors > old(fs.ioErrors))
            || (res == FrIntErr && (chain == [] || EndClash(Fat(fs), chain) || Broken(Fat(fs), chain)))
    ensures res == FrOk ==> done + ncl <= |chain| && ncl > 0 && Runs(chain, done + ncl) == n + 1
    ensures res == FrOk ==> forall i :: done <= i < done + ncl ==> chain[i] == tcl + (i - done)
    ensures res == FrOk ==> if done + ncl < |chain| then cl == chain[done + ncl] && Runs(chain, done + ncl + 1) == n + 2
                            else cl >= fs.nFatent && !EndClash(Fat(fs), chain) && !Broken(Fat(fs), chain)
  {
    hide FatBytes, FatFs.Valid, FatFs.View, FatFs.Mirrored, Table, IsChain, Broken;
    ghost var fat, v := Fat(fs), fs.View();
    cl, ncl := tcl, 0;
    ghost var pos := done;
    while true
      invariant fs.Valid() && fs.SameView(v, fs.View()) && Fat(fs) == fat && fs.ioErrors >= old(fs.ioErrors)
      invariant InRun(fat, chain, done, pos, cl, n) && ncl == pos - done && (chain != [] ==> done < |chain|)
      decreases |chain| - pos
    {
      if pos < |chain| { ChainLink(fat, chain, pos); }
      var pcl := cl;
      ncl := ncl + 1;
      cl := GetEntry(fs, cl);
      if cl <= 1 { return FrIntErr, ncl, cl; }
      if cl == DISK_ERROR { return FrDiskErr, ncl, cl; }
      pos := pos + 1;
      if cl != pcl + 1 { break; }
    }
    res := FrOk;
  }

  /** The outer loop stands at cl, the next cluster of the chain, or at a number
      that is no cluster. */
  ghost predicate Here(fat: seq<nat>, chain: seq<nat>, done: nat, cl: nat) {
    if chain == [] then done == 0 && (cl < 2 || cl >= |fat|) else done < |chain| && cl == chain[done]
  }

  ghost predicate Followable(fat: seq<nat>, chain: seq<nat>) {
    chain == [] || IsChain(fat, chain) || Broken(fat, chain)
  }

  /** The chain ends properly. */
  ghost predicate Proper(fat: seq<nat>, chain: seq<nat>) {
    chain != [] && !Broken(fat, chain) && !EndClash(fat, chain)
  }

  lemma AtRun(fat: seq<nat>, chain: seq<nat>, fr: seq<Fragment>, done: nat, cl: nat)
    requires Here(fat, chain, done, cl) && Covered(chain, fr, done)
    ensures InRun(fat, chain, done, done, cl, |fr|) && (chain != [] ==> done < |chain|)
  {
  }

  lemma HereNext(fat: seq<nat>, chain: seq<nat>, done: nat, cl: nat)
    requires Followable(fat, chain) && done <= |chain| && chain != []
    requires if done < |chain| then cl == chain[done] else cl >= |fat|
    ensures done < |chain| ==> Here(fat, chain, done, cl) && cl < |fat|
  {
    if done < |chain| { ChainLink(fat, chain, done); }
  }

  /** One round of CREATE_LINKMAP: measure a fragment and store it if there is room. */
  method AddFragment(fs: FatFs, tbl: array<nat>, tlen: nat, ulen0: nat, t0: nat, cl0: nat,
                     ghost was: seq<nat>, ghost chain: seq<nat>, ghost fr0: seq<Fragment>, ghost done0: nat)
      returns (res: FResult, ulen: nat, t: nat, cl: nat, ghost fr: seq<Fragment>, ghost done: nat)
    requires fs.Valid() && Followable(Fat(fs), chain) && |was| > 0 && tlen == was[0]
    requires Here(Fat(fs), chain, done0, cl0) && Covered(chain, fr0, done0) && Building(was, tbl[..], ulen0, t0, fr0)
    modifies fs`disk, fs`wflag, fs`winsect, fs`ioErrors, fs.win, tbl
    ensures fs.Valid() && fs.SameView(old(fs.View()), fs.View()) && Fat(fs) == old(Fat(fs)) && fs.ioErrors >= old(fs.ioErrors)
    ensures res == FrOk || (res == FrDiskErr && fs.ioErrors > old(fs.ioErrors)) || (res == FrIntErr && !Proper(Fat(fs), chain))
    ensures res != FrOk ==> tbl[..] == old(tbl[..])
    ensures res == FrOk ==> done0 < done <= |chain| && Covered(chain, fr, done) && Building(was, tbl[..], ulen, t, fr)
    ensures res == FrOk ==> if cl < fs.nFatent then Here(Fat(fs), chain, done, cl) else done == |chain| && Proper(Fat(fs), chain)
  {
    hide FatBytes, FatFs.Valid, FatFs.View, FatFs.SameView, FatFs.Mirrored, Table, IsChain, Broken, Expand, Runs, EndClash, Building, Covered, Here, InRun;
    ulen, t, fr, done := ulen0 + 2, t0, fr0, done0;
    BuildRoom(was, tbl[..], ulen0, t0, fr0);
    AtRun(Fat(fs), chain, fr0, done0, cl0);
    var ncl;
    ghost var items := tbl[..];
    res, ncl, cl := MeasureRun(fs, cl0, chain, done0, |fr0|);
    if res != FrOk { return; }
    ghost var f := Fragment(ncl, cl0);
    if ulen <= tlen {
      tbl[t], tbl[t + 1] := ncl, cl0;
      t := t + 2;
    }
    BuildStep(was, items, tbl[..], ulen0, t0, t, fr0, f);
    CoverMore(chain, fr0, done0, f);
    fr, done := fr0 + [f], done0 + ncl;
    HereNext(Fat(fs), chain, done, cl);
  }

  /** The CREATE_LINKMAP branch of f_lseek, for a file whose chain has an end: the
      table (its first item tells its size) becomes a link map of the chain, or
      is told to be too small; FR_INT_ERR comes back exactly when the chain cannot
      be followed to its end mark.  Nothing is stored past the given size. */
  method CreateLinkMap(fs: FatFs, sclust: nat, tbl: array<nat>, ghost chain: seq<nat>) returns (res: FResult)
    requires fs.Valid() && fs.fsType != ExFat && 0 < tbl.Length && tbl[0] <= tbl.Length
    requires Visits(Fat(fs), sclust, chain)
    modifies fs`disk, fs`wflag, fs`winsect, fs`ioErrors, fs.win, tbl
    ensures fs.Valid() && fs.SameView(old(fs.View()), fs.View()) && Fat(fs) == old(Fat(fs)) && fs.ioErrors >= old(fs.ioErrors)
    ensures res == FrOk || res == FrNotEnoughCore || res == FrIntErr || (res == FrDiskErr && fs.ioErrors > old(fs.ioErrors))
    ensures res != FrDiskErr ==> (res == FrIntErr <==> Unusable(Fat(fs), sclust, chain))
    ensures forall k :: old(tbl[0]) <= k < tbl.Length && k > 0 ==> tbl[k] == old(tbl[k])
    ensures res == FrOk || res == FrNotEnoughCore ==>
              tbl[0] == 2 + 2 * Runs(chain, |chain|) && (res == FrOk <==> tbl[0] <= old(tbl[0]))
    ensures res == FrOk ==> Maps(tbl[..], chain)
  {
    hide FatBytes, FatFs.Valid, FatFs.View, FatFs.Mirrored, FatFs.SameView, Table, Expand, Runs, Building, Built, Covered, Maps, Visits,
      Followable, Proper, Here, Unusable;
    ghost var fat, v, was := Fat(fs), fs.View(), tbl[..];
    fs.SameViewTrans(v, v, v);
    Layout(fs);
    VisitStart(fat, sclust, chain);
    BuildStart(was);
    CoverStart(chain);
    var t: nat, tlen, ulen: nat := 1, tbl[0], 2;
    var cl: nat := sclust;
    ghost var fr: seq<Fragment>, done: nat := [], 0;
    if cl != 0 {
      while true
        invariant fs.Valid() && fs.SameView(v, fs.View()) && Fat(fs) == fat && fs.ioErrors >= old(fs.ioErrors)
        invariant Here(fat, chain, done, cl) && done <= |chain| && Covered(chain, fr, done)
        invariant Building(was, tbl[..], ulen, t, fr)
        decreases |chain| - done
      {
        ghost var v1, ulen1, t1, fr1 := fs.View(), ulen, t, fr;
        res, ulen, t, cl, fr, done := AddFragment(fs, tbl, tlen, ulen, t, cl, was, chain, fr, done);
        fs.SameViewTrans(v, v1, fs.View());
        if res != FrOk {
          BuildFrame(was, tbl[..], ulen1, t1, fr1);
          return;
        }
        if cl >= fs.nFatent { break; }
      }
    }
    CoveredRuns(chain, fr, done);
    BuildRoom(was, tbl[..], ulen, t, fr);
    ghost var items := tbl[..];
    tbl[0] := ulen;
    if ulen <= tlen {
      tbl[t] := 0;
      res := FrOk;
    } else {
      res := FrNotEnoughCore;
    }
    BuildEnd(was, items, tbl[..], ulen, t, fr);
    BuiltMeans(was, tbl[..], fr, res == FrOk, chain);
  }

  lemma VisitStart(fat: seq<nat>, sclust: nat, chain: seq<nat>)
    requires Visits(fat, sclust, chain) && |fat| > 0
    ensures Followable(fat, chain) && (sclust == 0 ==> chain == [] && !Unusable(fat, sclust, chain))
    ensures sclust != 0 ==> Here(fat, chain, 0, sclust) && (Unusable(fat, sclust, chain) <==> !Proper(fat, chain))
  {
  }

  lemma CoveredRuns(chain: seq<nat>, fr: seq<Fragment>, done: nat)
    requires Covered(chain, fr, done)
    ensures done < |chain| ==> Runs(chain, done + 1) == |fr| + 1
    ensures done == |chain| ==> Runs(chain, done) == |fr| && Expand(fr) == chain
  {
  }

  lemma BuildFrame(was: seq<nat>, now: seq<nat>, ulen: nat, t: nat, fr: seq<Fragment>)
    requires Building(was, now, ulen, t, fr)
    ensures |now| == |was| > 0 && forall k :: was[0] <= k < |now| && k > 0 ==> now[k] == was[k]
  {
  }

  lemma BuiltMeans(was: seq<nat>, now: seq<nat>, fr: seq<Fragment>, ok: bool, chain: seq<nat>)
    requires Built(was, now, fr, ok) && Expand(fr) == chain && Runs(chain, |chain|) == |fr|
    ensures |now| == |was| > 0 && forall k :: was[0] <= k < |now| && k > 0 ==> now[k] == was[k]
    ensures now[0] == 2 + 2 * Runs(chain, |chain|) && (ok <==> now[0] <= was[0])
    ensures ok ==> Maps(now, chain)
  {
  }
}
