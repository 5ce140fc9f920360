/** Allocation and release of clusters on FAT12, FAT16 and FAT32 volumes. */
module FatAlloc {
  import opened FatTable
  import opened Volume
  import opened FatAccess

  const DISK_ERROR := 0xFFFF_FFFF

  /** free_clst is either out of range (unknown) or the exact number of free clusters. */
  ghost predicate FreeInfo(fs: FatFs)
    requires fs.Valid()
    reads fs`disk, fs`winsect, fs`wflag, fs`freeClst, fs.win
  {
    Counts(fs.freeClst, Fat(fs))
  }

  /** free is unknown or the number of free entries of the table. */
  ghost predicate Counts(free: nat, fat: seq<nat>) {
    free > |fat| - 2 || free == FreeCount(fat)
  }

  /** Nothing can be allocated: the counter says so or no entry is free. */
  ghost predicate VolumeFull(fs: FatFs)
    requires fs.Valid()
    reads fs`disk, fs`winsect, fs`wflag, fs`freeClst, fs.win
  {
    fs.freeClst == 0 || forall k :: 2 <= k < fs.nFatent ==> Fat(fs)[k] != 0
  }

  /** k is visited strictly before r when searching upwards from start with
      wrap-around to cluster 2. */
  predicate SearchedBefore(start: nat, k: nat, r: nat) {
    if start < r then start < k < r else k > start || k < r
  }

  /** Search for a free cluster after scl, wrapping at the table end. */
  method FindFree(fs: FatFs, scl: nat) returns (ncl: nat)
    requires fs.Valid() && 1 <= scl < fs.nFatent
    modifies fs`disk, fs`wflag, fs`winsect, fs`ioErrors, fs.win
    ensures fs.Valid() && fs.SameView(old(fs.View()), fs.View())
    ensures FatBytes(fs) == old(FatBytes(fs))
    ensures fs.WindowNear(old(fs.winsect))
    ensures ncl == 0 ==> forall k :: 2 <= k < fs.nFatent ==> Fat(fs)[k] != 0
    ensures 2 <= ncl < DISK_ERROR ==> ncl < fs.nFatent && Fat(fs)[ncl] == 0 && fs.InFat(fs.winsect)
    ensures 2 <= ncl < DISK_ERROR ==> forall k :: 2 <= k < fs.nFatent && SearchedBefore(scl, k, ncl) ==> Fat(fs)[k] != 0
    ensures ncl == 1 ==> HasReserved(Fat(fs))
    ensures ncl <= DISK_ERROR && fs.ioErrors >= old(fs.ioErrors)
    ensures ncl == DISK_ERROR ==> fs.ioErrors > old(fs.ioErrors)
  {
    hide FatBytes, FatFs.Valid, FatFs.View, FatFs.Mirrored;
    Layout(fs);
    ghost var fat, v := Fat(fs), fs.View();
    ncl := scl;
    while true
      invariant fs.Valid() && FatBytes(fs) == old(FatBytes(fs))
      invariant fs.SameView(v, fs.View())
      invariant fs.WindowNear(old(fs.winsect))
      invariant 1 <= ncl < fs.nFatent && fs.ioErrors >= old(fs.ioErrors)
      invariant scl <= ncl ==> forall k :: scl < k <= ncl ==> fat[k] != 0
      invariant ncl < scl ==> forall k :: scl < k < fs.nFatent || 2 <= k <= ncl ==> fat[k] != 0
      invariant scl == 1 ==> ncl >= scl
      decreases if ncl >= scl then fs.nFatent - ncl + fs.nFatent else scl - ncl
    {
      ncl := ncl + 1;
      if ncl >= fs.nFatent {
        ncl := 2;
        if ncl > scl { return 0; }
      }
      var cs := GetEntry(fs, ncl);
      if cs == 0 { return; }
      if cs == 1 || cs == DISK_ERROR { return cs; }
      if ncl == scl { return 0; }
    }
  }

  /** With the sector where entry c ends in the window: which entries need the device. */
  lemma SecondNeeds(fs: FatFs, clst: nat, c: nat)
    requires fs.Valid()
    ensures var at := fs.fatbase + Quot(LastByte(fs.fsType, c), fs.ss);
            && (NeedsDevice(fs, clst, at) <==> !Beside(fs.fsType, clst, c, fs.ss))
            && (fs.fsType != Fat12 ==> !NeedsDevice(fs, c, at))
  {
    if fs.fsType != Fat12 {
      WideEntry(fs.fsType, c, fs.ss);
    }
    hide Quot;
  }

  lemma WideFailed(t: FsType, ss: nat)
    ensures t != Fat12 ==> forall fat: seq<nat>, fat', k, v :: FailedPut(t, ss, fat, fat', k, v) ==> fat' == fat
  {
  }

  /** The device cannot write a sector with a part of entry c, the first of two or the
      one that must be left for the entry of clst. */
  predicate WritesBad(fs: FatFs, clst: nat, c: nat) {
    StopsBetween(fs, c) || (clst != 0 && StopsBefore(fs, clst, fs.fatbase + Quot(LastByte(fs.fsType, c), fs.ss), true))
  }

  /** The table when entry c is marked as far as such a device allows. */
  function Marked(fs: FatFs, fat: seq<nat>, c: nat): seq<nat>
    requires c < |fat|
  {
    fat[c := if StopsBetween(fs, c) then HalfEntry(fat[c], c, END_OF_CHAIN) else Cut(fs.fsType, END_OF_CHAIN)]
  }

  /** After the read of entry c nothing keeps the window from going back to its start. */
  lemma NoStop(fs: FatFs, c: nat, was: nat)
    ensures !StopsBefore(fs, c, was, false)
  {
  }

  /** Mark a free cluster as end of chain and link it behind clst (if any). */
  method LinkCluster(fs: FatFs, clst: nat, ncl: nat) returns (res: FResult)
    requires fs.Valid() && fs.fsType != ExFat
    requires 2 <= ncl < fs.nFatent && clst < fs.nFatent && clst != 1 && Fat(fs)[ncl] == 0
    requires clst != 0 ==> Fat(fs)[clst] >= fs.nFatent
    modifies fs`disk, fs`wflag, fs`winsect, fs`ioErrors, fs`lastClst, fs`freeClst, fs.win
    ensures fs.Valid() && fs.SameOutsideFat(old(fs.View()), fs.View())
    ensures fs.ioErrors >= old(fs.ioErrors)
    ensures res == FrOk || (res == FrDiskErr && fs.ioErrors > old(fs.ioErrors))
    ensures fs.WindowNear(old(fs.winsect))
    ensures res == FrOk ==> fs.InFat(fs.winsect) && fs.lastClst == ncl
    ensures res == FrOk ==> Fat(fs) == Stretched(old(Fat(fs)), clst, ncl, Cut(fs.fsType, END_OF_CHAIN))
    ensures res == FrOk && old(fs.freeClst) != 0 && old(FreeInfo(fs)) ==> FreeInfo(fs)
    ensures res != FrOk ==> HalfLinked(fs.fsType, fs.ss, old(Fat(fs)), Fat(fs), clst, ncl)
    ensures res != FrOk ==> fs.freeClst == old(fs.freeClst) && fs.lastClst == old(fs.lastClst)
    ensures fs.device.BadSectors? && WritesBad(fs, clst, ncl) && !old(fs.wflag) ==> res == FrDiskErr && Fat(fs) == Marked(fs, old(Fat(fs)), ncl)
  {
    hide FatBytes, FatFs.Valid, FatFs.View, FatFs.Mirrored, FatFs.SameOutsideFat, FreeCount, Table, Cut, Quot, FailedPut, NeedsDevice, Beside, StopsBefore, StopsBetween, HalfEntry;
    SecondNeeds(fs, clst, ncl);
    WideFailed(fs.fsType, fs.ss);
    Layout(fs);
    NoStop(fs, ncl, fs.winsect);
    ghost var fat, v, eoc := Fat(fs), fs.View(), Cut(fs.fsType, END_OF_CHAIN);
    EndMarkIsPastTable(fs.fsType);
    StretchTakesOne(fat, clst, ncl, eoc);
    CutLink(fs.fsType, ncl);
    res := PutFat(fs, ncl, END_OF_CHAIN);
    ghost var v1 := fs.View();
    if res == FrOk && clst != 0 {
      res := PutFat(fs, clst, ncl);
      fs.SameOutsideTrans(v, v1, fs.View());
    }
    if res == FrOk {
      fs.lastClst := ncl;
      if fs.freeClst <= fs.nFatent - 2 && fs.freeClst > 0 { fs.freeClst := fs.freeClst - 1; }
    }
  }

  /** Find a free cluster to append behind clst, or to start a chain with (clst = 0). */
  method PickCluster(fs: FatFs, clst: nat) returns (ncl: nat)
    requires fs.Valid() && (clst == 0 || 2 <= clst < fs.nFatent)
    requires clst != 0 ==> Fat(fs)[clst] != 0
    modifies fs`disk, fs`wflag, fs`winsect, fs`ioErrors, fs.win
    ensures fs.Valid() && fs.SameView(old(fs.View()), fs.View())
    ensures FatBytes(fs) == old(FatBytes(fs))
    ensures fs.WindowNear(old(fs.winsect))
    ensures ncl <= DISK_ERROR && fs.ioErrors >= old(fs.ioErrors)
    ensures ncl == DISK_ERROR ==> fs.ioErrors > old(fs.ioErrors)
    ensures ncl == 0 ==> forall k :: 2 <= k < fs.nFatent ==> Fat(fs)[k] != 0
    ensures ncl == 1 ==> HasReserved(Fat(fs))
    ensures 2 <= ncl < DISK_ERROR ==> ncl < fs.nFatent && Picked(Fat(fs), clst, fs.lastClst, ncl)
    ensures fs.device.BadSectors? && !old(fs.wflag) && clst != 0 && Fat(fs)[NextOf(fs.nFatent, clst)] == 0 ==>
              ncl == NextOf(fs.nFatent, clst) && !fs.wflag
  {
    hide FatBytes, FatFs.Valid, FatFs.View, FatFs.Mirrored, Quot;
    Layout(fs);
    var cs;
    var scl := clst;
    if clst == 0 {
      scl := fs.lastClst;
      if scl == 0 || scl >= fs.nFatent { scl := 1; }
    }
    ncl := 0;
    if scl == clst {
      ncl := NextOf(fs.nFatent, scl);
      cs := GetEntry(fs, ncl);
      if cs == 1 || cs == DISK_ERROR { return cs; }
      if cs != 0 {
        cs := fs.lastClst;
        if 2 <= cs < fs.nFatent { scl := cs; }
        ncl := 0;
      }
    }
    if ncl == 0 {
      ncl := FindFree(fs, scl);
    }
  }

  /** Stretch the chain ending at clst, or start a new one (clst = 0).  Returns
      the cluster that follows clst, 0 when the volume is full, 1 on an
      inconsistent FAT, or 0xFFFFFFFF on a disk error. */
  method CreateChain(fs: FatFs, clst: nat) returns (ncl: nat)
    requires fs.Valid() && fs.fsType != ExFat
    modifies fs`disk, fs`wflag, fs`winsect, fs`ioErrors, fs`lastClst, fs`freeClst, fs.win
    ensures fs.Valid() && fs.SameOutsideFat(old(fs.View()), fs.View())
    ensures ncl <= DISK_ERROR && fs.ioErrors >= old(fs.ioErrors)
    ensures ncl == DISK_ERROR ==> fs.ioErrors > old(fs.ioErrors)
    ensures ncl == DISK_ERROR ==> fs.freeClst == old(fs.freeClst) && fs.lastClst == old(fs.lastClst)
    ensures fs.WindowNear(old(fs.winsect))
    ensures Created(fs, old(Fat(fs)), Fat(fs), clst, old(fs.lastClst), ncl)
    ensures 2 <= ncl < DISK_ERROR && !Followed(fs, old(Fat(fs)), clst) ==> fs.lastClst == ncl && fs.InFat(fs.winsect)
    ensures ncl == 0 && !Followed(fs, old(Fat(fs)), clst) ==> VolumeFull(fs)
    ensures old(Doomed(fs, clst)) ==>
              ncl == DISK_ERROR && Fat(fs) == Marked(fs, old(Fat(fs)), NextOf(fs.nFatent, clst))
    ensures old(FreeInfo(fs)) && ncl != DISK_ERROR ==> FreeInfo(fs)
    ensures old(FreeInfo(fs)) && ncl != DISK_ERROR && ncl != 1 && !Followed(fs, old(Fat(fs)), clst) ==>
              (ncl == 0 <==> FreeCount(old(Fat(fs))) == 0)
  {
    hide FatBytes, FatFs.Valid, FatFs.View, FatFs.Mirrored, FatFs.SameView, FatFs.SameOutsideFat, HalfLinked, Picked, Beside, Quot, Cut, FreeSet, FreeCount, Marked, WritesBad;
    Layout(fs);
    ghost var v := fs.View();
    fs.SameOutsideRefl(v);
    NoneFree(Fat(fs));
    if clst != 0 {
      var cs := GetEntry(fs, clst);
      fs.SameOutsideTrans(v, v, fs.View());
      if cs < 2 { return 1; }
      if cs == DISK_ERROR { return cs; }
      if cs < fs.nFatent { return cs; }
    }
    if fs.freeClst == 0 { return 0; }
    ghost var v1 := fs.View();
    ncl := PickCluster(fs, clst);
    fs.SameOutsideTrans(v, v1, fs.View());
    if ncl < 2 || ncl == DISK_ERROR { return; }
    ghost var v2 := fs.View();
    PickedFree(Fat(fs), clst, fs.lastClst, ncl);
    var res := LinkCluster(fs, clst, ncl);
    fs.SameOutsideTrans(v, v2, fs.View());
    if res != FrOk {
      ncl := DISK_ERROR;  // both cluster numbers are in range, so only the disk can fail
    }
  }

  lemma PickedFree(fat: seq<nat>, clst: nat, last: nat, c: nat)
    requires Picked(fat, clst, last, c)
    ensures 2 <= c < |fat| && fat[c] == 0
  {
  }

  /** The chain ends at clst, the cluster behind is free, and the device cannot write a
      sector that holds its entry and must be left before the link to it is stored. */
  ghost predicate Doomed(fs: FatFs, clst: nat)
    requires fs.Valid()
    reads fs`disk, fs`winsect, fs`wflag, fs`freeClst, fs.win
  {
    && fs.device.BadSectors? && fs.freeClst != 0 && !fs.wflag && 2 <= clst < fs.nFatent && Fat(fs)[clst] >= fs.nFatent
    && fs.nFatent >= 3 && Fat(fs)[NextOf(fs.nFatent, clst)] == 0 && WritesBad(fs, clst, NextOf(fs.nFatent, clst))
  }

  /** The cluster number tried first when stretching. */
  function NextOf(n: nat, clst: nat): nat {
    if clst + 1 >= n then 2 else clst + 1
  }

  /** Some entry has the value 1, which no proper chain contains. */
  ghost predicate HasReserved(fat: seq<nat>) {
    exists k :: 2 <= k < |fat| && fat[k] == 1
  }

  /** The tables are the same, on FAT12 apart from entry x, of which a failed
      update may have stored a part. */
  ghost predicate Torn(t: FsType, fat: seq<nat>, fat': seq<nat>, x: nat) {
    && |fat'| == |fat| && (t != Fat12 ==> fat' == fat)
    && forall k :: 0 <= k < |fat| && k != x ==> fat'[k] == fat[k]
  }

  /** Of the two updates that append c to the chain ending at clst the first or
      the second has failed.  The second needs the device only if the entry of
      clst is not in the sector where that of c ends. */
  ghost predicate HalfLinked(t: FsType, ss: nat, fat: seq<nat>, fat': seq<nat>, clst: nat, c: nat)
    requires c < |fat|
  {
    || FailedPut(t, ss, fat, fat', c, END_OF_CHAIN)
    || (clst != 0 && !Beside(t, clst, c, ss) && FailedPut(t, ss, fat[c := Cut(t, END_OF_CHAIN)], fat', clst, c))
  }

  /** The cluster that create_chain takes: the one behind clst if it is free, else
      the first free one behind the last allocated (or clst), wrapping around. */
  ghost predicate Picked(fat: seq<nat>, clst: nat, last: nat, c: nat) {
    && 2 <= c < |fat| && fat[c] == 0
    && var next := if clst + 1 < |fat| then clst + 1 else 2;
       if clst != 0 && next < |fat| && fat[next] == 0 then c == next
       else forall k :: 2 <= k < |fat| && SearchedBefore(SearchFrom(|fat|, clst, last), k, c) ==> fat[k] != 0
  }

  /** A new file gets the first free cluster behind the last one allocated, or else the
      first free one; on a volume where none has been allocated the lowest one. */
  lemma PickedOrder(fat: seq<nat>, last: nat, c: nat)
    requires Picked(fat, 0, last, c)
    ensures last == 0 || last >= |fat| ==> forall k :: 2 <= k < c ==> fat[k] != 0
    ensures 0 < last < c ==> forall k :: 2 <= k && last < k < c ==> fat[k] != 0
    ensures c <= last < |fat| ==> forall k :: (2 <= k < c || last < k) && k < |fat| ==> fat[k] != 0
  {
  }

  function SearchFrom(n: nat, clst: nat, last: nat): nat {
    if clst == 0 then (if last == 0 || last >= n then 1 else last) else if 2 <= last < n then last else clst
  }

  /** create_chain has failed on the device, before or between its updates. */
  ghost predicate Interrupted(t: FsType, ss: nat, fat: seq<nat>, fat': seq<nat>, clst: nat, last: nat) {
    || fat' == fat
    || exists c :: Picked(fat, clst, last, c) && HalfLinked(t, ss, fat, fat', clst, c)
                   && (clst == 0 || (2 <= clst < |fat| && fat[clst] >= |fat|))
  }

  /** The two updates for a chain that ends at clst (0: none) and goes on with c do
      not stay within one sector. */
  predicate AtRisk(t: FsType, ss: nat, clst: nat, c: nat) {
    (t == Fat12 && Straddles(t, c, ss)) || (clst != 0 && !Beside(t, clst, c, ss))
  }

  /** A half stored FAT12 entry of either update is not zero. */
  lemma HalfInUse(e: nat, k: nat, c: nat)
    requires e == 0 || e > c >= 2
    ensures HalfEntry(e, k, if e == 0 then END_OF_CHAIN else c) != 0
  {
    if e != 0 && k % 2 == 1 {
      assert c == c / 0x10 * 0x10 + c % 0x10;
    } else if e != 0 {
      assert c == c / 0x100 * 0x100 + c % 0x100;
    }
  }

  /** After an interrupted create_chain a known counter is right exactly if the table
      is the old one.  Otherwise the table lacks one free cluster, and the updates
      for the cluster it took did not stay within one sector. */
  lemma CounterAfterFailure(t: FsType, ss: nat, fat: seq<nat>, fat': seq<nat>, clst: nat, last: nat, free: nat)
    requires Interrupted(t, ss, fat, fat', clst, last) && Counts(free, fat) && |fat| <= EntryLimit(t)
    ensures Counts(free, fat') <==> free > |fat| - 2 || fat' == fat
    ensures fat' != fat ==> FreeCount(fat') + 1 == FreeCount(fat)
    ensures fat' != fat ==> exists c :: Picked(fat, clst, last, c) && AtRisk(t, ss, clst, c)
  {
    hide Quot, FreeSet, HalfEntry;
    EndMarkIsPastTable(t);
    if fat' != fat {
      var c: nat :| Picked(fat, clst, last, c) && HalfLinked(t, ss, fat, fat', clst, c) && (clst == 0 || fat[clst] >= |fat|);
      var fat1 := fat[c := Cut(t, END_OF_CHAIN)];
      HalfInUse(fat[c], c, c);
      TakesOne(fat, c, Cut(t, END_OF_CHAIN));
      TakesOne(fat, c, HalfEntry(0, c, END_OF_CHAIN));
      if clst != 0 {
        HalfInUse(fat1[clst], clst, c);
        RelinkKeepsFree(fat1, clst, HalfEntry(fat1[clst], clst, c));
      }
    }
  }

  lemma TakesOne(fat: seq<nat>, c: nat, v: nat)
    requires 2 <= c < |fat| && fat[c] == 0 && v != 0
    ensures FreeCount(fat[c := v]) + 1 == FreeCount(fat)
  {
    assert fat[c := v][c := 0] == fat;
    ReturnFree(fat[c := v], c);
  }

  /** Whether the counter can become wrong shows before the call: it stays right
      whatever update the device fails in exactly if it is unknown or the cluster to
      be taken is not at risk. */
  lemma CounterSafe(t: FsType, ss: nat, fat: seq<nat>, clst: nat, last: nat, free: nat)
    requires Counts(free, fat) && |fat| <= EntryLimit(t) && (clst == 0 || (2 <= clst < |fat| && fat[clst] >= |fat|))
    ensures (forall fat' :: Interrupted(t, ss, fat, fat', clst, last) ==> Counts(free, fat'))
            <==> free > |fat| - 2 || forall c :: Picked(fat, clst, last, c) ==> !AtRisk(t, ss, clst, c)
  {
    hide Quot, Counts, Picked, FreeCount;
    forall fat' | Interrupted(t, ss, fat, fat', clst, last)
      ensures Counts(free, fat') <==> free > |fat| - 2 || fat' == fat
      ensures fat' != fat ==> exists c :: Picked(fat, clst, last, c) && AtRisk(t, ss, clst, c)
    {
      CounterAfterFailure(t, ss, fat, fat', clst, last, free);
    }
    if c: nat :| Picked(fat, clst, last, c) && AtRisk(t, ss, clst, c) {
      RiskIsReal(t, ss, fat, clst, last, c);
    }
  }

  /** A cluster at risk can leave a changed table behind. */
  lemma RiskIsReal(t: FsType, ss: nat, fat: seq<nat>, clst: nat, last: nat, c: nat)
    requires |fat| <= EntryLimit(t) && Picked(fat, clst, last, c) && AtRisk(t, ss, clst, c)
    requires clst == 0 || (2 <= clst < |fat| && fat[clst] >= |fat|)
    ensures exists fat' :: Interrupted(t, ss, fat, fat', clst, last) && fat' != fat
  {
    hide Quot, HalfEntry;
    EndMarkIsPastTable(t);
    PickedFree(fat, clst, last, c);
    HalfInUse(0, c, 2);
    var whole, half := Cut(t, END_OF_CHAIN), HalfEntry(0, c, END_OF_CHAIN);
    var fat' := fat[c := if clst != 0 && !Beside(t, clst, c, ss) then whole else half];
    assert HalfLinked(t, ss, fat, fat', clst, c) && fat'[c] != fat[c];
    assert Interrupted(t, ss, fat, fat', clst, last);
  }

  /** How the FAT after create_chain relates to the FAT before, by result. */
  ghost predicate Created(fs: FatFs, fat: seq<nat>, fat': seq<nat>, clst: nat, last: nat, ncl: nat)
    requires |fat| == |fat'| == fs.nFatent >= 3
  {
    if ncl == DISK_ERROR then
      Interrupted(fs.fsType, fs.ss, fat, fat', clst, last)
    else if Followed(fs, fat, clst) then
      ncl == fat[clst] && fat' == fat
    else if ncl == 0 then
      fat' == fat && (clst == 0 || (2 <= clst < fs.nFatent && fat[clst] >= fs.nFatent))
    else if ncl == 1 then
      fat' == fat && (clst == 1 || clst >= fs.nFatent || (clst != 0 && fat[clst] == 0) || HasReserved(fat))
    else
      && Picked(fat, clst, last, ncl)
      && (clst == 0 || (2 <= clst < fs.nFatent && fat[clst] >= fs.nFatent))
      && fat' == Stretched(fat, clst, ncl, Cut(fs.fsType, END_OF_CHAIN))
  }

  /** What that means for the chain that clst is the k-th last cluster of. */
  lemma CreatedInChain(fs: FatFs, fat: seq<nat>, fat': seq<nat>, chain: seq<nat>, k: nat, last: nat, ncl: nat)
    requires |fat| == |fat'| == fs.nFatent >= 3 && fs.nFatent <= EntryLimit(fs.fsType)
    requires k <= |chain| && (chain != [] ==> IsChain(fat, chain)) && (k == 0 ==> chain == [])
    requires Created(fs, fat, fat', if k == 0 then 0 else chain[k - 1], last, ncl) && ncl != DISK_ERROR
    ensures k < |chain| ==> 2 <= ncl == chain[k]
    ensures k == |chain| ==> !Followed(fs, fat, if k == 0 then 0 else chain[k - 1])
    ensures k == |chain| && 2 <= ncl ==> IsChain(fat', chain + [ncl])
    ensures k < |chain| || ncl < 2 ==> fat' == fat
    ensures ncl == 1 ==> HasReserved(fat)
  {
    EndMarkIsPastTable(fs.fsType);
    assert 0 < k < |chain| ==> fat[chain[k - 1]] == chain[k - 1 + 1];
    if k == |chain| && 2 <= ncl && k > 0 {
      StretchOne(fat, chain, ncl, Cut(fs.fsType, END_OF_CHAIN));
    }
  }

  lemma CreatedKeepsOthers(fs: FatFs, fat: seq<nat>, fat': seq<nat>, clst: nat, last: nat, ncl: nat, chain: seq<nat>)
    requires |fat| == |fat'| == fs.nFatent >= 3 && Created(fs, fat, fat', clst, last, ncl)
    requires clst == 0 || clst in chain
    ensures forall k :: 2 <= k < |fat| && fat[k] != 0 && k !in chain ==> fat'[k] == fat[k]
    ensures ncl != DISK_ERROR ==> forall k :: 2 <= k < |fat| && k !in chain && k != ncl ==> fat'[k] == fat[k]
  {
  }

  /** clst already has a successor. */
  ghost predicate Followed(fs: FatFs, fat: seq<nat>, clst: nat)
    requires |fat| == fs.nFatent
  {
    2 <= clst < fs.nFatent && 2 <= fat[clst] < fs.nFatent
  }

  lemma CutLink(t: FsType, k: nat)
    requires k < EntryLimit(t)
    ensures Cut(t, k) == k
  {
  }

  /** The update that frees cl stops half way: its entry begins in a sector that the
      device cannot write, and ends in another. */
  predicate HalfFreed(fs: FatFs, cl: nat)
    reads fs`wflag
  {
    fs.device.BadSectors? && StopsBetween(fs, cl) && !fs.wflag
  }

  /** Mark one cluster free and count it. */
  method FreeEntry(fs: FatFs, cl: nat) returns (res: FResult)
    requires fs.Valid() && 2 <= cl < fs.nFatent && Fat(fs)[cl] != 0
    modifies fs`disk, fs`wflag, fs`winsect, fs`ioErrors, fs`freeClst, fs.win
    ensures fs.Valid() && fs.SameOutsideFat(old(fs.View()), fs.View())
    ensures fs.WindowNear(old(fs.winsect))
    ensures fs.ioErrors >= old(fs.ioErrors)
    ensures res == FrOk || (res == FrDiskErr && fs.ioErrors > old(fs.ioErrors))
    ensures res == FrOk ==> Fat(fs) == old(Fat(fs))[cl := 0]
    ensures res == FrOk && old(FreeInfo(fs)) ==> FreeInfo(fs)
    ensures res != FrOk ==> Torn(fs.fsType, old(Fat(fs)), Fat(fs), cl) && fs.freeClst == old(fs.freeClst)
    ensures old(HalfFreed(fs, cl)) ==> res == FrDiskErr && Fat(fs) == old(Fat(fs))[cl := HalfEntry(old(Fat(fs))[cl], cl, 0)]
  {
    hide FatBytes, FatFs.Valid, FatFs.View, FatFs.Mirrored, FreeSet, FatFs.SameOutsideFat, FailedPut, NeedsDevice, Quot, StopsBefore, StopsBetween, HalfEntry;
    ghost var fat := Fat(fs);
    Layout(fs);
    NoStop(fs, cl, fs.winsect);
    res := PutFat(fs, cl, 0);
    if res != FrOk { return; }
    ReturnFree(fat, cl);
    FreeBound(fat);
    if fs.freeClst < fs.nFatent - 2 { fs.freeClst := fs.freeClst + 1; }
  }

  /** The table of a release that the device has stopped: every entry is as before
      or as released, and pclst may already end the chain.  On FAT12 entry x, one of
      those to be changed, may be half written (none, if x is the table size). */
  ghost predicate Stopped(t: FsType, fat: seq<nat>, goal: seq<nat>, fat': seq<nat>, pclst: nat, x: nat) {
    && |fat'| == |goal| == |fat|
    && (x == |fat| || (t == Fat12 && x < |fat| && fat[x] != 0 && (x == pclst || goal[x] == 0)))
    && forall k :: 0 <= k < |fat| && k != x ==>
         fat'[k] == fat[k] || fat'[k] == goal[k] || (k == pclst != 0 && fat'[k] == Cut(t, END_OF_CHAIN))
  }

  /** A half-written entry x that reads zero is not counted. */
  ghost predicate Uncounted(fat': seq<nat>, x: nat) {
    x < |fat'| && fat'[x] == 0
  }

  /** The table with which the release starts. */
  function Ended(t: FsType, fat: seq<nat>, pclst: nat): seq<nat> {
    if pclst == 0 || pclst >= |fat| then fat else fat[pclst := Cut(t, END_OF_CHAIN)]
  }

  /** What is known when a release stops at a device failure: a right counter stays right
      unless it is known and the half-written entry reads zero. */
  ghost predicate StopsSafely(t: FsType, fat: seq<nat>, goal: seq<nat>, fat': seq<nat>, pclst: nat, free: nat, free': nat) {
    exists x: nat :: Stopped(t, fat, goal, fat', pclst, x)
      && (Counts(free, fat) ==> (Counts(free', fat') <==> free' > |fat| - 2 || !Uncounted(fat', x)))
  }

  /** The tables that the loop of a release passes through. */
  ghost predicate Passing(fat: seq<nat>, goal: seq<nat>, now: seq<nat>) {
    |now| == |goal| == |fat| && forall k :: 0 <= k < |fat| ==> now[k] == fat[k] || now[k] == goal[k] == 0
  }

  lemma {:induction false} ReleaseShrinks(fat: seq<nat>, k: nat)
    requires 2 <= k < |fat|
    ensures |Release(fat, k).fat| == |fat|
    ensures Passing(fat, Release(fat, k).fat, fat) && Passing(fat, Release(fat, k).fat, Release(fat, k).fat)
    decreases |InUse(fat)|
  {
    if fat[k] >= 2 {
      assert InUse(fat[k := 0]) == InUse(fat) - {k};
      if fat[k] < |fat| {
        ReleaseShrinks(fat[k := 0], fat[k]);
      }
    }
  }

  lemma PassOn(fat: seq<nat>, goal: seq<nat>, now: seq<nat>, k: nat)
    requires Passing(fat, goal, now) && 2 <= k < |now| && now[k] >= 2
    requires goal == Release(now, k).fat
    ensures goal[k] == 0 && Passing(fat, goal, now[k := 0])
  {
    ReleaseStep(now, k);
    if now[k] < |now| {
      ReleaseShrinks(now[k := 0], now[k]);
    }
  }

  /** A half-written entry makes the counter wrong exactly when it reads zero. */
  lemma TornCounts(fat: seq<nat>, fat': seq<nat>, x: nat, free: nat)
    requires 2 <= x < |fat| == |fat'| && fat[x] != 0 && Counts(free, fat)
    requires forall k :: 0 <= k < |fat| && k != x ==> fat'[k] == fat[k]
    ensures Counts(free, fat') <==> free > |fat| - 2 || !Uncounted(fat', x)
  {
    if fat'[x] != 0 {
      assert FreeSet(fat') == FreeSet(fat);
    } else {
      ReturnFree(fat, x);
      assert fat' == fat[x := 0];
    }
  }

  lemma StopBefore(t: FsType, fat: seq<nat>, goal: seq<nat>, fat': seq<nat>, pclst: nat, free: nat)
    requires Torn(t, fat, fat', pclst) && |goal| == |fat| && pclst != 0 && Usual(fat, pclst)
    ensures StopsSafely(t, fat, goal, fat', pclst, free, free)
  {
    var x := if t == Fat12 then pclst else |fat|;
    assert Stopped(t, fat, goal, fat', pclst, x);
    if Counts(free, fat) { TornCounts(fat, fat', pclst, free); }
  }

  lemma TornBy(t: FsType, fat: seq<nat>, fat': seq<nat>, x: nat)
    requires |fat'| == |fat| && (t != Fat12 ==> fat' == fat) && forall k :: 0 <= k < |fat| && k != x ==> fat'[k] == fat[k]
    ensures Torn(t, fat, fat', x)
  {
  }

  /** pclst is 0 or a cluster in use. */
  ghost predicate Usual(fat: seq<nat>, pclst: nat) {
    pclst == 0 || (2 <= pclst < |fat| && fat[pclst] != 0)
  }

  /** A release on its way from fat with counter free to the table goal. */
  ghost predicate Underway(t: FsType, fat: seq<nat>, goal: seq<nat>, now: seq<nat>, pclst: nat, free: nat, free': nat) {
    && |fat| <= EntryLimit(t) && Passing(Ended(t, fat, pclst), goal, now)
    && (Usual(fat, pclst) && Counts(free, fat) ==> Counts(free', now))
  }

  lemma GetsUnderway(t: FsType, fat: seq<nat>, goal: seq<nat>, now: seq<nat>, pclst: nat, free: nat, free': nat)
    requires |fat| <= EntryLimit(t) && now == Ended(t, fat, pclst) && Passing(now, goal, now)
    requires Usual(fat, pclst) && Counts(free, fat) ==> Counts(free', now)
    ensures Underway(t, fat, goal, now, pclst, free, free')
  {
  }

  lemma GetsThere(t: FsType, fat: seq<nat>, goal: seq<nat>, now: seq<nat>, pclst: nat, free: nat, free': nat)
    requires Underway(t, fat, goal, now, pclst, free, free') && Usual(fat, pclst) && Counts(free, fat)
    ensures Counts(free', now)
  {
  }

  lemma GoesOn(t: FsType, fat: seq<nat>, goal: seq<nat>, now: seq<nat>, pclst: nat, k: nat, free: nat, free': nat, free'': nat)
    requires Underway(t, fat, goal, now, pclst, free, free') && 2 <= k < |now| && now[k] >= 2
    requires goal == Release(now, k).fat && (Counts(free', now) ==> Counts(free'', now[k := 0]))
    ensures Underway(t, fat, goal, now[k := 0], pclst, free, free'')
  {
    PassOn(Ended(t, fat, pclst), goal, now, k);
  }

  lemma StopReading(t: FsType, fat: seq<nat>, goal: seq<nat>, now: seq<nat>, pclst: nat, free: nat, free': nat)
    requires Underway(t, fat, goal, now, pclst, free, free') && Usual(fat, pclst)
    ensures StopsSafely(t, fat, goal, now, pclst, free, free')
  {
    assert Stopped(t, fat, goal, now, pclst, |fat|);
  }

  lemma StopWithin(t: FsType, fat: seq<nat>, goal: seq<nat>, now: seq<nat>, fat': seq<nat>, pclst: nat, x: nat, free: nat, free': nat)
    requires Underway(t, fat, goal, now, pclst, free, free') && Torn(t, now, fat', x) && Usual(fat, pclst)
    requires 2 <= x < |now| && now[x] >= 2 && goal == Release(now, x).fat
    ensures StopsSafely(t, fat, goal, fat', pclst, free, free')
  {
    PassOn(Ended(t, fat, pclst), goal, now, x);
    EndMarkIsPastTable(t);
    var y := if t == Fat12 then x else |fat|;
    assert Stopped(t, fat, goal, fat', pclst, y);
    if Counts(free, fat) { TornCounts(now, fat', x, free'); }
  }

  /** What the release of the chain from clst on leads to, fat0 being the table and
      free0 the counter before it, and pclst the cluster that becomes the end. */
  ghost predicate Releasing(fs: FatFs, fat0: seq<nat>, free0: nat, clst: nat, pclst: nat, res: FResult)
    requires fs.Valid() && 2 <= clst < |fat0|
    reads fs`disk, fs`winsect, fs`wflag, fs`freeClst, fs.win
  {
    var goal := Release(Ended(fs.fsType, fat0, pclst), clst);
    if res == FrDiskErr then
      Usual(fat0, pclst) ==> StopsSafely(fs.fsType, fat0, goal.fat, Fat(fs), pclst, free0, fs.freeClst)
    else
      && Fat(fs) == goal.fat && (res == FrOk <==> goal.ok)
      && (Usual(fat0, pclst) && Counts(free0, fat0) ==> FreeInfo(fs))
  }

  /** One round of a release: the value of entry cl, which is then freed unless it is
      0 or 1. */
  method ReleaseRound(fs: FatFs, cl: nat) returns (res: FResult, nxt: nat)
    requires fs.Valid() && 2 <= cl < fs.nFatent
    modifies fs`disk, fs`wflag, fs`winsect, fs`ioErrors, fs`freeClst, fs.win
    ensures fs.Valid() && fs.SameOutsideFat(old(fs.View()), fs.View())
    ensures fs.WindowNear(old(fs.winsect)) && fs.ioErrors >= old(fs.ioErrors)
    ensures res == FrOk || res == FrIntErr || (res == FrDiskErr && fs.ioErrors > old(fs.ioErrors))
    ensures res == FrOk ==> nxt == old(Fat(fs))[cl] != 1
    ensures res == FrIntErr ==> old(Fat(fs))[cl] == 1
    ensures res == FrIntErr || (res == FrOk && nxt == 0) ==> Fat(fs) == old(Fat(fs)) && fs.freeClst == old(fs.freeClst)
    ensures res == FrOk && nxt != 0 ==> Fat(fs) == old(Fat(fs))[cl := 0] && (old(FreeInfo(fs)) ==> FreeInfo(fs))
    ensures res == FrDiskErr ==>
              && fs.freeClst == old(fs.freeClst)
              && (Fat(fs) == old(Fat(fs)) || (old(Fat(fs))[cl] >= 2 && Torn(fs.fsType, old(Fat(fs)), Fat(fs), cl)))
    ensures old(HalfFreed(fs, cl) && Fat(fs)[cl] >= 2) ==>
              res == FrDiskErr && Fat(fs) == old(Fat(fs))[cl := HalfEntry(old(Fat(fs))[cl], cl, 0)]
  {
    hide FatBytes, FatFs.Valid, FatFs.View, FatFs.Mirrored, FatFs.SameView, FatFs.SameOutsideFat, Torn, Quot, HalfEntry, StopsBetween, FreeCount;
    Layout(fs);
    ghost var v := fs.View();
    fs.SameOutsideRefl(v);
    nxt := GetEntry(fs, cl);
    ghost var v1 := fs.View();
    fs.SameOutsideRefl(v1);
    fs.SameOutsideTrans(v, v1, v1);
    if nxt == DISK_ERROR { return FrDiskErr, nxt; }
    if nxt == 0 { return FrOk, nxt; }
    if nxt == 1 { return FrIntErr, nxt; }
    res := FreeEntry(fs, cl);
    fs.SameOutsideTrans(v, v1, fs.View());
  }

  /** The loop of a release: it zeroes a non-zero entry in every round, so it ends
      even on a cyclic table. */
  method ReleaseLoop(fs: FatFs, clst: nat, ghost fat0: seq<nat>, ghost free0: nat, ghost pclst: nat) returns (res: FResult)
    requires fs.Valid() && fs.fsType != ExFat && 2 <= clst < fs.nFatent == |fat0|
    requires (pclst == 0 || 2 <= pclst < |fat0|) && Fat(fs) == Ended(fs.fsType, fat0, pclst)
    requires Usual(fat0, pclst) && Counts(free0, fat0) ==> FreeInfo(fs)
    modifies fs`disk, fs`wflag, fs`winsect, fs`ioErrors, fs`freeClst, fs.win
    ensures fs.Valid() && fs.SameOutsideFat(old(fs.View()), fs.View())
    ensures fs.WindowNear(old(fs.winsect)) && fs.ioErrors >= old(fs.ioErrors)
    ensures res == FrDiskErr ==> fs.ioErrors > old(fs.ioErrors)
    ensures Releasing(fs, fat0, free0, clst, pclst, res)
    ensures old(HalfFreed(fs, clst) && Fat(fs)[clst] >= 2) ==>
              res == FrDiskErr && fs.freeClst == old(fs.freeClst) && Fat(fs) == old(Fat(fs))[clst := HalfEntry(old(Fat(fs))[clst], clst, 0)]
  {
    hide FatBytes, FatFs.Valid, FatFs.View, FatFs.Mirrored, FreeSet, FatFs.SameView, FatFs.SameOutsideFat, Cut, InUse, StopsSafely, Torn, Passing,
      Quot, Ended, Usual, Counts, Underway, HalfFreed, HalfEntry;
    Layout(fs);
    ghost var v, t := fs.View(), fs.fsType;
    fs.SameOutsideRefl(v);
    ghost var goal := Release(Fat(fs), clst);
    ghost var half := HalfFreed(fs, clst) && Fat(fs)[clst] >= 2;
    ReleaseShrinks(Fat(fs), clst);
    GetsUnderway(t, fat0, goal.fat, Fat(fs), pclst, free0, fs.freeClst);
    res := FrOk;
    var cl := clst;
    while true
      invariant fs.Valid() && fs.SameOutsideFat(v, fs.View())
      invariant fs.WindowNear(old(fs.winsect)) && fs.ioErrors >= old(fs.ioErrors)
      invariant 2 <= cl < fs.nFatent && res == FrOk
      invariant goal.fat == Release(Fat(fs), cl).fat && goal.ok == Release(Fat(fs), cl).ok
      invariant Underway(t, fat0, goal.fat, Fat(fs), pclst, free0, fs.freeClst)
      invariant half ==> HalfFreed(fs, clst) && cl == clst && Fat(fs) == old(Fat(fs)) && fs.freeClst == old(fs.freeClst)
      decreases |InUse(Fat(fs))|
    {
      ghost var fat, v1, free := Fat(fs), fs.View(), fs.freeClst;
      var nxt;
      res, nxt := ReleaseRound(fs, cl);
      fs.SameOutsideTrans(v, v1, fs.View());
      if res == FrDiskErr {
        if Usual(fat0, pclst) { StopInRound(t, fat0, goal.fat, fat, Fat(fs), pclst, cl, free0, free); }
        return;
      }
      if res != FrOk || nxt == 0 { break; }
      GoesOn(t, fat0, goal.fat, fat, pclst, cl, free0, free, fs.freeClst);
      ReleaseStep(fat, cl);
      if nxt >= fs.nFatent { break; }
      cl := nxt;
    }
    if Usual(fat0, pclst) && Counts(free0, fat0) { GetsThere(t, fat0, goal.fat, Fat(fs), pclst, free0, fs.freeClst); }
  }

  lemma StopInRound(t: FsType, fat: seq<nat>, goal: seq<nat>, now: seq<nat>, fat': seq<nat>, pclst: nat, x: nat, free: nat, free': nat)
    requires Underway(t, fat, goal, now, pclst, free, free') && Usual(fat, pclst) && 2 <= x < |now| && goal == Release(now, x).fat
    requires fat' == now || (now[x] >= 2 && Torn(t, now, fat', x))
    ensures StopsSafely(t, fat, goal, fat', pclst, free, free')
  {
    if fat' == now {
      StopReading(t, fat, goal, now, pclst, free, free');
    } else {
      StopWithin(t, fat, goal, now, fat', pclst, x, free, free');
    }
  }

  /** Free the chain from clst on; pclst (unless 0) becomes the end of what stays. */
  method RemoveChain(fs: FatFs, clst: nat, pclst: nat) returns (res: FResult)
    requires fs.Valid() && fs.fsType != ExFat
    modifies fs`disk, fs`wflag, fs`winsect, fs`ioErrors, fs`freeClst, fs.win
    ensures fs.Valid() && fs.SameOutsideFat(old(fs.View()), fs.View())
    ensures fs.WindowNear(old(fs.winsect)) && fs.ioErrors >= old(fs.ioErrors)
    ensures res == FrDiskErr ==> fs.ioErrors > old(fs.ioErrors)
    ensures clst < 2 || clst >= fs.nFatent ==> res == FrIntErr && Fat(fs) == old(Fat(fs)) && fs.freeClst == old(fs.freeClst)
    ensures 2 <= clst < fs.nFatent && (pclst == 1 || pclst >= fs.nFatent) ==>
              res == FrIntErr && Fat(fs) == old(Fat(fs)) && fs.freeClst == old(fs.freeClst)
    ensures 2 <= clst < fs.nFatent && (pclst == 0 || 2 <= pclst < fs.nFatent) ==>
              Releasing(fs, old(Fat(fs)), old(fs.freeClst), clst, pclst, res)
    ensures pclst == 0 && 2 <= clst < fs.nFatent && old(HalfFreed(fs, clst) && Fat(fs)[clst] >= 2) ==>
              res == FrDiskErr && fs.freeClst == old(fs.freeClst) && Fat(fs) == old(Fat(fs))[clst := HalfEntry(old(Fat(fs))[clst], clst, 0)]
  {
    hide FatBytes, FatFs.Valid, FatFs.View, FatFs.Mirrored, FreeSet, FatFs.SameView, FatFs.SameOutsideFat, Cut, InUse, StopsSafely, Torn, FreeCount, FailedPut, NeedsDevice, Quot, HalfFreed, HalfEntry;
    Layout(fs);
    res := FrOk;
    ghost var v := fs.View();
    fs.SameOutsideRefl(v);
    if clst < 2 || clst >= fs.nFatent { return FrIntErr; }
    ghost var t, fat0, free0 := fs.fsType, Fat(fs), fs.freeClst;
    EndMarkIsPastTable(t);
    if pclst != 0 {
      RelinkKeepsFree(fat0, pclst, Cut(t, END_OF_CHAIN));
      res := PutFat(fs, pclst, END_OF_CHAIN);
      if res != FrOk {
        if Usual(fat0, pclst) {
          ReleaseShrinks(Ended(t, fat0, pclst), clst);
          TornBy(t, fat0, Fat(fs), pclst);
          StopBefore(t, fat0, Release(Ended(t, fat0, pclst), clst).fat, Fat(fs), pclst, fs.freeClst);
        }
        return;
      }
    }
    ghost var v1 := fs.View();
    res := ReleaseLoop(fs, clst, fat0, free0, pclst);
    fs.SameOutsideTrans(v, v1, fs.View());
  }

  /** Count the free clusters, or return the counter when it is known. */
  method GetFree(fs: FatFs) returns (res: FResult, nclst: nat)
    requires fs.Valid() && fs.fsType != ExFat
    modifies fs`disk, fs`wflag, fs`winsect, fs`ioErrors, fs`freeClst, fs.win
    ensures fs.Valid() && fs.SameView(old(fs.View()), fs.View())
    ensures Fat(fs) == old(Fat(fs)) && fs.ioErrors >= old(fs.ioErrors)
    ensures res == FrOk || res == FrIntErr || (res == FrDiskErr && fs.ioErrors > old(fs.ioErrors))
    ensures res == FrOk ==> fs.freeClst == nclst
    ensures res == FrOk && old(fs.freeClst) <= fs.nFatent - 2 ==> nclst == old(fs.freeClst)
    ensures res == FrOk && old(fs.freeClst) > fs.nFatent - 2 ==>
              nclst == FreeCount(Fat(fs)) + if fs.fsType == Fat12 then 0 else ZeroBelow(Fat(fs), 2)
    ensures res == FrIntErr ==> HasReserved(Fat(fs))
    ensures res == FrOk && old(FreeInfo(fs)) && (fs.fsType == Fat12 || (Fat(fs)[0] != 0 && Fat(fs)[1] != 0)) ==>
              nclst == FreeCount(Fat(fs)) && FreeInfo(fs)
  {
    hide FatBytes, FatFs.Valid, FatFs.View, FatFs.Mirrored, FreeSet;
    Layout(fs);
    ZeroBelowAll(Fat(fs));
    assert ZeroBelow(Fat(fs), 1) == if Fat(fs)[0] == 0 then 1 else 0;
    res := FrOk;
    if fs.freeClst <= fs.nFatent - 2 {
      nclst := fs.freeClst;
      return;
    }
    ghost var fat := Fat(fs);
    if fs.fsType == Fat12 {
      res, nclst := CountByEntry(fs);
    } else {
      res, nclst := CountBySector(fs);
    }
    if res == FrOk {
      fs.freeClst := nclst;
    }
  }

  /** A FAT16 table whose entry 0 is zero, with one free cluster: the scan over the
      sectors comes to two. */
  lemma CountsReserved()
    ensures var fat: seq<nat> := [0, 0xFFFF, 0xFFFF, 0];
            FreeCount(fat) == 1 && FreeCount(fat) + ZeroBelow(fat, 2) == 2 == ZeroBelow(fat, |fat|)
  {
    var fat: seq<nat> := [0, 0xFFFF, 0xFFFF, 0];
    assert FreeSet(fat) == {3};
    ZeroBelowAll(fat);
    assert ZeroBelow(fat, 1) == 1;
  }

  /** FAT12: visit the entries one at a time. */
  method CountByEntry(fs: FatFs) returns (res: FResult, nfree: nat)
    requires fs.Valid()
    modifies fs`disk, fs`wflag, fs`winsect, fs`ioErrors, fs.win
    ensures fs.Valid() && fs.SameView(old(fs.View()), fs.View()) && FatBytes(fs) == old(FatBytes(fs))
    ensures res == FrOk ==> nfree + ZeroBelow(Fat(fs), 2) == ZeroBelow(Fat(fs), fs.nFatent)
    ensures res == FrIntErr ==> HasReserved(Fat(fs))
    ensures fs.ioErrors >= old(fs.ioErrors)
    ensures res == FrOk || res == FrIntErr || (res == FrDiskErr && fs.ioErrors > old(fs.ioErrors))
  {
    hide FatBytes, FatFs.Valid, FatFs.View, FatFs.Mirrored;
    Layout(fs);
    ghost var fat, v := Fat(fs), fs.View();
    res, nfree := FrOk, 0;
    var clst := 2;
    while clst < fs.nFatent
      invariant 2 <= clst <= fs.nFatent
      invariant fs.Valid() && fs.ioErrors >= old(fs.ioErrors) && fs.SameView(v, fs.View()) && FatBytes(fs) == old(FatBytes(fs))
      invariant nfree + ZeroBelow(fat, 2) == ZeroBelow(fat, clst)
    {
      var stat := GetEntry(fs, clst);
      if stat == DISK_ERROR { res := FrDiskErr; return; }
      if stat == 1 { res := FrIntErr; return; }
      if stat == 0 { nfree := nfree + 1; }
      clst := clst + 1;
    }
  }

  method EntryIsZero(fs: FatFs, i: nat, ghost k: nat) returns (zero: bool)
    requires fs.Valid() && (fs.fsType == Fat16 || fs.fsType == Fat32) && k < fs.nFatent
    requires var p := if fs.fsType == Fat16 then k * 2 else k * 4;
             p < Bytes(fs.fsize, fs.ss) && i == Rem(p, fs.ss) && fs.winsect == fs.fatbase + Quot(p, fs.ss)
    ensures zero <==> Fat(fs)[k] == 0
  {
    hide FatBytes, FatFs.Valid, FatFs.View, FatFs.Mirrored, Quot, Rem, Bytes;
    Layout(fs);
    SpanCovers(fs.fsType, k, fs.nFatent);
    if fs.fsType == Fat16 {
      var x := LoadWord(fs, i, k * 2);
      zero := x == 0;
    } else {
      var x := LoadDWord(fs, i, k * 4);
      zero := x % 0x1000_0000 == 0;
    }
  }

  /** FAT16 and FAT32: run over the FAT sectors, entries 0 and 1 included. */
  method CountBySector(fs: FatFs) returns (res: FResult, nfree: nat)
    requires fs.Valid() && (fs.fsType == Fat16 || fs.fsType == Fat32)
    modifies fs`disk, fs`wflag, fs`winsect, fs`ioErrors, fs.win
    ensures fs.Valid() && fs.SameView(old(fs.View()), fs.View()) && FatBytes(fs) == old(FatBytes(fs))
    ensures res == FrOk ==> nfree == ZeroBelow(Fat(fs), fs.nFatent)
    ensures fs.ioErrors >= old(fs.ioErrors)
    ensures res == FrOk || (res == FrDiskErr && fs.ioErrors > old(fs.ioErrors))
  {
    hide FatBytes, FatFs.Valid, FatFs.View, FatFs.Mirrored, Quot, Rem, Bytes, Table;
    Layout(fs);
    ghost var fat, v := Fat(fs), fs.View();
    res, nfree := FrOk, 0;
    var clst, sect, i := fs.nFatent, fs.fatbase, 0;
    ghost var w := if fs.fsType == Fat16 then 2 else 4;
    ghost var done := 0;  // entries counted so far
    StartOfSector(fs.ss);
    while clst > 0
      invariant clst + done == fs.nFatent && 0 <= done
      invariant fs.Valid() && fs.ioErrors >= old(fs.ioErrors) && fs.SameView(v, fs.View()) && FatBytes(fs) == old(FatBytes(fs))
      invariant i == Rem(done * w, fs.ss) && sect == fs.fatbase + Quot(done * w, fs.ss) + if i == 0 then 0 else 1
      invariant i != 0 ==> fs.winsect == fs.fatbase + Quot(done * w, fs.ss)
      invariant res == FrOk && nfree == ZeroBelow(fat, done)
    {
      SpanCovers(fs.fsType, done, fs.nFatent);
      if i == 0 {
        ByteAddress(done * w, fs.fsize, fs.ss);
        res := SeekSector(fs, sect, done * w);
        if res != FrOk { return; }
        sect := sect + 1;
      }
      var zero := EntryIsZero(fs, i, done);
      if zero { nfree := nfree + 1; }
      NextWord(done * w, w, fs.ss);
      i := i + if fs.fsType == Fat16 then 2 else 4;
      i := if i == fs.ss then 0 else i;  // i %= SS(fs)
      done := done + 1;
      clst := clst - 1;
    }
  }
}
