/** The FAT as a set of disjoint chains, over every run of allocations and releases. */
module FatChains {
  import opened FatTable
  import opened Volume
  import opened FatAccess
  import opened FatAlloc

  /** A table of proper chains has no entry with the reserved value. */
  lemma NoReserved(fat: seq<nat>, chains: set<seq<nat>>)
    requires Chains(fat, chains) && |fat| >= 2
    ensures !HasReserved(fat)
  {
    hide IsChain, Apart;
    forall k | 2 <= k < |fat|
      ensures fat[k] != 1
    {
      if fat[k] != 0 {
        assert Covers(chains, k);
        var c :| c in chains && k in c;
        EntryOfChain(fat, c, k);
      }
    }
  }

  lemma EntryOfChain(fat: seq<nat>, c: seq<nat>, k: nat)
    requires IsChain(fat, c) && k in c && |fat| >= 2
    ensures 2 <= k < |fat| && fat[k] >= 2
  {
    var i :| 0 <= i < |c| && c[i] == k;
    if i + 1 < |c| {
      assert fat[c[i]] == c[i + 1];
    }
  }

  /** The chains after create_chain for the last cluster of c (or for a new chain). */
  function Stretching(chains: set<seq<nat>>, c: seq<nat>, ncl: nat): set<seq<nat>> {
    if ncl < 2 then chains else (if c == [] then chains else chains - {c}) + {c + [ncl]}
  }

  /** All chains but c are chains of the table. */
  ghost predicate OthersStand(fat: seq<nat>, chains: set<seq<nat>>, c: seq<nat>) {
    forall d :: d in chains && d != c ==> IsChain(fat, d)
  }

  /** Chains stay where every entry in use outside c is kept. */
  lemma StandKept(fat: seq<nat>, fat': seq<nat>, chains: set<seq<nat>>, c: seq<nat>)
    requires Chains(fat, chains) && |fat'| == |fat| && (c == [] || c in chains)
    requires forall k :: 2 <= k < |fat| && fat[k] != 0 && k !in c ==> fat'[k] == fat[k]
    ensures OthersStand(fat', chains, c)
  {
    forall d | d in chains && d != c
      ensures IsChain(fat', d)
    {
      forall i | 0 <= i < |d|
        ensures 2 <= d[i] < |fat| && fat'[d[i]] == fat[d[i]]
      {
        assert d[i] in d;
        ChainInUse(fat, d, d[i]);
        assert c != [] ==> Apart(c, d);
      }
      ChainFrame(fat, fat', d);
    }
  }

  lemma InterruptedKeeps(t: FsType, ss: nat, fat: seq<nat>, fat': seq<nat>, chains: set<seq<nat>>, c: seq<nat>, clst: nat, last: nat)
    requires Interrupted(t, ss, fat, fat', clst, last) && Chains(fat, chains) && (c == [] || c in chains) && (clst == 0 || clst in c)
    ensures OthersStand(fat', chains, c)
  {
    StandKept(fat, fat', chains, c);
  }

  /** create_chain at the end of a chain appends exactly one formerly free cluster
      to it (or starts a new chain of one), and leaves all other chains as they
      were; it finds nothing exactly when the volume is full, and no inconsistency. */
  method ExtendChain(fs: FatFs, clst: nat, ghost chains: set<seq<nat>>, ghost c: seq<nat>) returns (ncl: nat)
    requires fs.Valid() && fs.fsType != ExFat && Chains(Fat(fs), chains)
    requires if clst == 0 then c == [] else c in chains && c != [] && clst == Last(c)
    modifies fs`disk, fs`wflag, fs`winsect, fs`ioErrors, fs`lastClst, fs`freeClst, fs.win
    ensures fs.Valid() && fs.SameOutsideFat(old(fs.View()), fs.View())
    ensures fs.ioErrors >= old(fs.ioErrors) && (ncl == DISK_ERROR ==> fs.ioErrors > old(fs.ioErrors))
    ensures ncl == DISK_ERROR ==> OthersStand(Fat(fs), chains, c)
    ensures ncl != DISK_ERROR ==> ncl != 1 && Chains(Fat(fs), Stretching(chains, c, ncl))
    ensures ncl != DISK_ERROR && ncl != 0 ==> 2 <= ncl < fs.nFatent && old(Fat(fs))[ncl] == 0 && ncl !in c
    ensures ncl != DISK_ERROR && old(FreeInfo(fs)) ==> FreeInfo(fs) && (ncl == 0 <==> FreeCount(old(Fat(fs))) == 0)
  {
    hide FatFs.Valid, FatFs.View, FatFs.SameOutsideFat, FatBytes, Chains, FreeSet, FatAlloc.FreeInfo, HasReserved, Interrupted, Picked, OthersStand;
    Layout(fs);
    EndMarkIsPastTable(fs.fsType);
    ghost var fat, last := Fat(fs), fs.lastClst;
    NoReserved(fat, chains);
    AtEnd(fat, chains, c);
    ncl := CreateChain(fs, clst);
    if 2 <= ncl < DISK_ERROR { PickedFree(fat, clst, last, ncl); }
    if ncl == DISK_ERROR {
      InterruptedKeeps(fs.fsType, fs.ss, fat, Fat(fs), chains, c, clst, last);
    } else if 2 <= ncl {
      if c == [] {
        assert c + [ncl] == [ncl];
        StartKeepsChains(fat, chains, ncl, Cut(fs.fsType, END_OF_CHAIN));
      } else {
        StretchKeepsChains(fat, chains, c, ncl, Cut(fs.fsType, END_OF_CHAIN));
        StretchOne(fat, c, ncl, Cut(fs.fsType, END_OF_CHAIN));
      }
    }
  }

  lemma AtEnd(fat: seq<nat>, chains: set<seq<nat>>, c: seq<nat>)
    requires Chains(fat, chains) && (c == [] || c in chains)
    ensures c != [] ==> IsChain(fat, c) && 2 <= Last(c) < |fat| && fat[Last(c)] >= |fat|
  {
  }

  /** remove_chain from the i-th cluster of a chain on frees exactly the clusters
      from there on, leaves the ones before as a chain and all others as they were. */
  method CutChainAt(fs: FatFs, clst: nat, pclst: nat, ghost chains: set<seq<nat>>, ghost c: seq<nat>, ghost i: nat) returns (res: FResult)
    requires fs.Valid() && fs.fsType != ExFat && Chains(Fat(fs), chains) && c in chains && i < |c|
    requires clst == c[i] && pclst == if i == 0 then 0 else c[i - 1]
    modifies fs`disk, fs`wflag, fs`winsect, fs`ioErrors, fs`freeClst, fs.win
    ensures fs.Valid() && fs.SameOutsideFat(old(fs.View()), fs.View())
    ensures fs.ioErrors >= old(fs.ioErrors)
    ensures res == FrOk || (res == FrDiskErr && fs.ioErrors > old(fs.ioErrors))
    ensures res == FrDiskErr ==> OthersStand(Fat(fs), chains, c)
    ensures res == FrDiskErr && fs.fsType != Fat12 && old(FreeInfo(fs)) ==> FreeInfo(fs)
    ensures res == FrOk ==> Chains(Fat(fs), chains - {c} + if i == 0 then {} else {c[..i]})
    ensures res == FrOk ==> FreeSet(Fat(fs)) == FreeSet(old(Fat(fs))) + set k | k in c[i..]
    ensures res == FrOk && old(FreeInfo(fs)) ==> FreeInfo(fs)
  {
    hide FatFs.Valid, FatFs.View, FatFs.SameOutsideFat, FatBytes, Chains, FreeSet, Counts, StopsSafely, OthersStand, Truncated;
    Layout(fs);
    EndMarkIsPastTable(fs.fsType);
    ghost var fat, eoc := Fat(fs), Cut(fs.fsType, END_OF_CHAIN);
    Within(fat, chains, c, i);
    ReleaseTruncates(fat, c, i, eoc);
    TruncateKeepsChains(fat, chains, c, i, eoc);
    TruncateFrees(fat, c, i, eoc);
    ghost var free := fs.freeClst;
    res := RemoveChain(fs, clst, pclst);
    if res == FrDiskErr {
      StoppedKeeps(fs.fsType, fat, Fat(fs), chains, c, i, pclst, free, fs.freeClst);
    }
  }

  lemma StoppedKeeps(t: FsType, fat: seq<nat>, fat': seq<nat>, chains: set<seq<nat>>, c: seq<nat>, i: nat, pclst: nat, free: nat, free': nat)
    requires Chains(fat, chains) && c in chains && i < |c| && pclst == (if i == 0 then 0 else c[i - 1]) && IsChain(fat, c)
    requires StopsSafely(t, fat, Truncated(fat, c, i, Cut(t, END_OF_CHAIN)), fat', pclst, free, free')
    ensures OthersStand(fat', chains, c)
    ensures t != Fat12 && Counts(free, fat) ==> Counts(free', fat')
  {
    var goal := Truncated(fat, c, i, Cut(t, END_OF_CHAIN));
    var x: nat :| Stopped(t, fat, goal, fat', pclst, x)
      && (Counts(free, fat) ==> (Counts(free', fat') <==> free' > |fat| - 2 || !Uncounted(fat', x)));
    forall k | 2 <= k < |fat| && fat[k] != 0 && k !in c
      ensures fat'[k] == fat[k]
    {
      assert goal[k] == fat[k];
    }
    StandKept(fat, fat', chains, c);
  }

  lemma Within(fat: seq<nat>, chains: set<seq<nat>>, c: seq<nat>, i: nat)
    requires Chains(fat, chains) && c in chains && i < |c|
    ensures IsChain(fat, c) && 2 <= c[i] < |fat|
    ensures i > 0 ==> 2 <= c[i - 1] < |fat| && fat[c[i - 1]] != 0
  {
    assert i > 0 ==> fat[c[i - 1]] == c[i];
  }
}
