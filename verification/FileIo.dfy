/** Reading, writing and seeking an open file (dep/ff15/ff.c) on a FAT12, FAT16
    or FAT32 volume. */
module FileIo {
  import opened FatTable
  import opened Volume
  import opened FatAccess
  import opened FatAlloc
  import opened FileBytes

  /** The FIL object with the parts of FFOBJID it uses. */
  class Fil {
    const fs: FatFs
    const buf: array<byte>  // private sector buffer
    const canRead: bool     // FA_READ
    const canWrite: bool    // FA_WRITE
    var dirty: bool         // FA_DIRTY
    var modified: bool      // FA_MODIFIED
    var err: FResult
    var sclust: nat
    var objsize: nat
    var fptr: nat
    var clust: nat          // current cluster, meaningless at fptr 0
    var sect: nat           // sector held in buf, 0 for none
    ghost var chain: seq<nat>
    ghost var sectIdx: nat  // position of sect in the file

    /** The parts fit together, whether or not an operation has failed. */
    ghost predicate Shape()
      reads `dirty, `objsize, `sect, `chain, `sectIdx, fs`disk, fs`winsect, fs`wflag, fs.win
    {
      && fs.Valid() && fs.fsType != ExFat && buf != fs.win && buf.Length == fs.ss
      && Placed(fs, chain, |fs.disk|)
      && objsize <= Bytes(SectorCount(fs, chain), fs.ss)
      && (dirty ==> sect != 0)
      && (sect != 0 ==> sectIdx < SectorCount(fs, chain) && sect == SectorAt(fs, chain, sectIdx))
    }

    /** The device as this file sees it: the dirty buffer lies over the volume. */
    ghost function Store(): (st: seq<seq<byte>>)
      requires fs.Valid() && buf.Length == fs.ss
      reads `dirty, `sect, buf, fs`disk, fs`winsect, fs`wflag, fs.win
      ensures |st| == |fs.disk| && Sized(fs, st)
    {
      if dirty && sect < |fs.disk| then fs.View()[sect := buf[..]] else fs.View()
    }

    /** The file contents. */
    ghost function Content(): (c: seq<byte>)
      requires Shape()
      reads `dirty, `objsize, `sect, `chain, `sectIdx, buf, fs`disk, fs`winsect, fs`wflag, fs.win
      ensures |c| == objsize
    {
      Stored(fs, Store(), chain, objsize)
    }

    /** The buffer, unless dirty, agrees with the volume, and the window is clear
        of the file. */
    ghost predicate Caches()
      requires Placed(fs, chain, |fs.disk|)
      reads `dirty, `sect, `chain, buf, fs`disk, fs`winsect, fs`wflag, fs.win
    {
      && (sect != 0 && !dirty ==> sect < |fs.disk| && buf[..] == fs.View()[sect])
      && WindowClear()
    }

    /** The chain is the one on the FAT. */
    ghost predicate Linked()
      requires fs.Valid()
      reads `chain, `sclust, fs`disk, fs`winsect, fs`wflag, fs.win
    {
      && (chain == [] <==> sclust == 0)
      && (chain != [] ==> sclust == chain[0] && IsChain(Fat(fs), chain))
    }

    /** The FAT holds the reserved value somewhere, though not in this file's chain. */
    ghost predicate Stuck()
      requires fs.Valid()
      reads `chain, `sclust, fs`disk, fs`winsect, fs`wflag, fs.win
    {
      HasReserved(Fat(fs)) && Linked()
    }

    ghost predicate Ready()
      reads this, buf, fs`disk, fs`winsect, fs`wflag, fs.win
    {
      Shape() && Linked() && Caches() && fptr <= objsize <= 0xFFFF_FFFF
    }

    ghost predicate WindowClear()
      requires Placed(fs, chain, |fs.disk|)
      reads `chain, fs`winsect, fs`disk
    {
      forall j: nat {:trigger SectorAt(fs, chain, j)} :: j < SectorCount(fs, chain) ==> SectorAt(fs, chain, j) != fs.winsect
    }

    /** clust is the cluster of the byte before fptr, and inside a sector the
        buffer holds that sector. */
    ghost predicate Cursor()
      reads `fptr, `clust, `chain, `sect, `sectIdx
    {
      && fs.csize > 0
      && (fptr > 0 ==> Nth(fs, Quot(fptr - 1, fs.ss)) < |chain| && clust == chain[Nth(fs, Quot(fptr - 1, fs.ss))])
      && (Rem(fptr, fs.ss) != 0 ==> sect != 0 && sectIdx == Quot(fptr, fs.ss))
    }

    ghost predicate Valid()
      reads this, buf, fs`disk, fs`winsect, fs`wflag, fs.win
    {
      Shape() && (err == FrOk ==> Ready() && Cursor())
    }

    /** What lies outside this file has been kept. */
    twostate predicate Spares()
      requires old(fs.Valid()) && fs.Valid()
      reads `chain, fs`disk, fs`winsect, fs`wflag, fs`freeClst, fs`ioErrors, fs.win
    {
      old(fs.ioErrors) <= fs.ioErrors && OthersKept(fs, old(chain), chain, old(Snap(fs)), Snap(fs))
    }

    /** A file as f_open leaves it: at its start, with nothing in the buffer. */
    constructor (fs: FatFs, canRead: bool, canWrite: bool, sclust: nat, objsize: nat, ghost chain: seq<nat>)
      requires fs.Valid() && fs.fsType != ExFat && Placed(fs, chain, |fs.disk|)
      requires chain == [] <==> sclust == 0
      requires chain != [] ==> sclust == chain[0] && IsChain(Fat(fs), chain)
      requires objsize <= Bytes(SectorCount(fs, chain), fs.ss) && objsize <= 0xFFFF_FFFF
      requires forall j: nat {:trigger SectorAt(fs, chain, j)} :: j < SectorCount(fs, chain) ==> SectorAt(fs, chain, j) != fs.winsect
      ensures Valid() && err == FrOk && fptr == 0 && this.objsize == objsize && this.chain == chain
      ensures this.fs == fs && this.canRead == canRead && this.canWrite == canWrite && fresh(buf)
      ensures !dirty && !modified
    {
      hide FatFs.Valid, Fat, SectorCount, SectorAt;
      this.fs, this.canRead, this.canWrite := fs, canRead, canWrite;
      buf := new byte[fs.ss](_ => 0);
      dirty, modified, err := false, false, FrOk;
      this.sclust, this.objsize, fptr, clust, sect := sclust, objsize, 0, 0, 0;
      this.chain, sectIdx := chain, 0;
      new;
      StartOfSector(fs.ss);
    }
  }

  /** A data transfer away from the FATs and the window. */
  method WriteData(fs: FatFs, secs: seq<seq<byte>>, sect: nat) returns (ok: bool)
    requires fs.Valid() && forall k :: 0 <= k < |secs| ==> |secs[k]| == fs.ss
    requires fs.database <= sect && sect + |secs| <= |fs.disk|
    requires !(sect <= fs.winsect < sect + |secs|)
    modifies fs`disk, fs`ioErrors
    ensures fs.Valid() && |fs.disk| == old(|fs.disk|)
    ensures FatBytes(fs) == old(FatBytes(fs))
    ensures fs.ioErrors == old(fs.ioErrors) + if ok then 0 else 1
    ensures ok ==> fs.View() == Splice(old(fs.View()), sect, secs)
    ensures forall s :: 0 <= s < |fs.disk| && !(sect <= s < sect + |secs|) ==> fs.View()[s] == old(fs.View())[s]
  {
    ghost var v := fs.View();
    ok := DiskWrite(fs, secs, sect);
    Layout(fs);
    SameArea(v, fs.View(), fs.fatbase, fs.fsize, fs.ss);
    if ok {
      forall s | 0 <= s < |fs.disk|
        ensures fs.View()[s] == Splice(v, sect, secs)[s]
      {
        if sect <= s < sect + |secs| {
          assert fs.disk[sect..sect + |secs|][s - sect] == secs[s - sect];
        }
      }
    }
  }

  /** clst2sect. */
  function Clst2Sect(fs: FatFs, clst: nat): nat
    requires fs.nFatent >= 2
  {
    if clst < 2 || clst >= fs.nFatent then 0 else ClusterSector(fs, clst)
  }

  /** Where the contents of an open file are: byte o of sector j of its k-th cluster is
      on the device, in the sector that this place has when the clusters, of csize
      sectors, lie one behind the other from sector database on and the first has
      number 2, unless the file's buffer holds that sector and is newer. */
  lemma ContentPlace(fp: Fil, k: nat, j: nat, o: nat)
    requires fp.Shape() && k < |fp.chain| && j < fp.fs.csize && o < fp.fs.ss && (k * fp.fs.csize + j) * fp.fs.ss + o < fp.objsize
    ensures var s := fp.fs.database + (fp.chain[k] - 2) * fp.fs.csize + j;
            && 0 <= s < |fp.fs.View()| && |fp.fs.View()[s]| == fp.fs.ss
            && fp.Content()[(k * fp.fs.csize + j) * fp.fs.ss + o] == if fp.dirty && fp.sect == s then fp.buf[o] else fp.fs.View()[s][o]
  {
    hide FatFs.Valid, FatFs.View, Stored, SectorCount, SectorAt, Bytes;
    SectorsSized(fp.fs);
    Layout(fp.fs);
    StoredPlace(fp.fs, fp.Store(), fp.chain, fp.objsize, k, j, o);
  }

  /** A file in consecutive clusters is one run of the device's sectors. */
  lemma ContentRun(fp: Fil, j: nat, o: nat)
    requires fp.Shape() && |fp.chain| > 0 && forall k :: 0 <= k < |fp.chain| ==> fp.chain[k] == fp.chain[0] + k
    requires o < fp.fs.ss && j * fp.fs.ss + o < fp.objsize
    ensures var s := fp.fs.database + (fp.chain[0] - 2) * fp.fs.csize + j;
            && 0 <= s < |fp.fs.View()| && |fp.fs.View()[s]| == fp.fs.ss
            && fp.Content()[j * fp.fs.ss + o] == if fp.dirty && fp.sect == s then fp.buf[o] else fp.fs.View()[s][o]
  {
    hide FatFs.Valid, FatFs.View, Stored, SectorCount, SectorAt, Bytes;
    SectorsSized(fp.fs);
    Layout(fp.fs);
    StoredContiguous(fp.fs, fp.Store(), fp.chain, fp.objsize, j, o);
  }

  /** A volume at a moment, as far as a file operation has to respect it. */
  datatype Snapshot = Snapshot(view: seq<seq<byte>>, fat: seq<nat>, winsect: nat, free: nat, errors: nat)

  ghost function Snap(fs: FatFs): Snapshot
    requires fs.Valid()
    reads fs`disk, fs`winsect, fs`wflag, fs`freeClst, fs`ioErrors, fs.win
  {
    Snapshot(fs.View(), Fat(fs), fs.winsect, fs.freeClst, fs.ioErrors)
  }

  /** Nothing belonging to other files differs from a to b while a file's chain has
      grown from chain0 to chain: sectors outside the FATs and the chain, and FAT
      entries of clusters in use elsewhere.  The chain has grown by free clusters;
      as long as no device call fails it has taken no others, and the counter of
      free clusters stays right. */
  ghost predicate OthersKept(fs: FatFs, chain0: seq<nat>, chain: seq<nat>, a: Snapshot, b: Snapshot) {
    && |b.view| == |a.view| && |b.fat| == |a.fat|
    && (forall s: nat :: s < |a.view| && !fs.InFat(s) && !fs.Mirror(s) && Foreign(fs, chain, s) ==> b.view[s] == a.view[s])
    && (forall k :: 2 <= k < |a.fat| && a.fat[k] != 0 && k !in chain ==> b.fat[k] == a.fat[k])
    && (forall k :: 2 <= k < |a.fat| && k in chain && k !in chain0 ==> a.fat[k] == 0)
    && (b.winsect == a.winsect || fs.InFat(b.winsect) || b.winsect == NO_SECTOR)
    && a.errors <= b.errors
    && (a.errors == b.errors ==> UnusedKept(chain, a, b))
  }

  /** Free clusters outside the chain are still free, and counted right. */
  ghost predicate UnusedKept(chain: seq<nat>, a: Snapshot, b: Snapshot) {
    && |b.fat| == |a.fat|
    && (forall k :: 2 <= k < |a.fat| && k !in chain ==> b.fat[k] == a.fat[k])
    && (Counts(a.free, a.fat) ==> Counts(b.free, b.fat))
  }

  /** Sector s belongs to no cluster of the chain. */
  ghost predicate Foreign(fs: FatFs, chain: seq<nat>, s: nat) {
    forall c :: c in chain && c >= 2 ==> !(ClusterSector(fs, c) <= s < ClusterSector(fs, c) + fs.csize)
  }

  lemma FatOnly(fs: FatFs, chain0: seq<nat>, chain: seq<nat>, a: Snapshot, b: Snapshot)
    requires fs.SameOutsideFat(a.view, b.view) && |b.fat| == |a.fat|
    requires forall k :: 2 <= k < |a.fat| && a.fat[k] != 0 && k !in chain ==> b.fat[k] == a.fat[k]
    requires forall k :: 2 <= k < |a.fat| && k in chain && k !in chain0 ==> a.fat[k] == 0
    requires b.winsect == a.winsect || fs.InFat(b.winsect) || b.winsect == NO_SECTOR
    requires a.errors <= b.errors && (a.errors == b.errors ==> UnusedKept(chain, a, b))
    ensures OthersKept(fs, chain0, chain, a, b)
  {
  }

  lemma NothingChanged(fs: FatFs, chain: seq<nat>, a: Snapshot)
    ensures OthersKept(fs, chain, chain, a, a)
  {
  }

  /** Only a device call has failed. */
  lemma OnlyFailed(fs: FatFs, chain: seq<nat>, a: Snapshot, b: Snapshot)
    requires a.errors <= b.errors && b == a.(errors := b.errors)
    ensures OthersKept(fs, chain, chain, a, b)
  {
  }

  lemma OthersTrans(fs: FatFs, chain0: seq<nat>, chain1: seq<nat>, chain2: seq<nat>, a: Snapshot, b: Snapshot, c: Snapshot)
    requires OthersKept(fs, chain0, chain1, a, b) && OthersKept(fs, chain1, chain2, b, c) && chain1 <= chain2
    ensures OthersKept(fs, chain0, chain2, a, c)
  {
    hide Foreign, Counts;
    forall s: nat | Foreign(fs, chain2, s)
      ensures Foreign(fs, chain1, s)
    {
      ForeignToPrefix(fs, chain1, chain2, s);
    }
    assert forall k :: k in chain1 ==> k in chain2;
  }

  lemma ForeignToPrefix(fs: FatFs, chain: seq<nat>, chain': seq<nat>, s: nat)
    requires chain <= chain' && Foreign(fs, chain', s)
    ensures Foreign(fs, chain, s)
  {
    hide ClusterSector;
    assert forall c :: c in chain ==> c in chain';
  }

  lemma Parts(fp: Fil)
    requires fp.Shape()
    ensures fp.fs.Valid() && fp.fs.fsType != ExFat && fp.buf != fp.fs.win && fp.buf.Length == fp.fs.ss
    ensures Placed(fp.fs, fp.chain, |fp.fs.disk|) && fp.fs.csize > 0 && SectorSize(fp.fs.ss)
    ensures Sized(fp.fs, fp.fs.View()) && Sized(fp.fs, fp.Store())
    ensures fp.objsize <= Bytes(SectorCount(fp.fs, fp.chain), fp.fs.ss)
    ensures fp.Content() == Stored(fp.fs, fp.Store(), fp.chain, fp.objsize)
    ensures fp.sect != 0 ==> fp.sectIdx < SectorCount(fp.fs, fp.chain) && fp.sect == SectorAt(fp.fs, fp.chain, fp.sectIdx)
    ensures fp.sect != 0 ==> fp.fs.database <= fp.sect < |fp.fs.disk| && !fp.fs.InFat(fp.sect) && !fp.fs.Mirror(fp.sect)
    ensures fp.dirty ==> fp.sect != 0
  {
    hide Bytes, Quot, Rem, SectorCount, SectorAt, Stored, FatFs.Valid;
    Layout(fp.fs);
    if fp.sect != 0 {
      SectorInData(fp.fs, fp.chain, |fp.fs.disk|, fp.sectIdx);
    }
  }

  lemma GrowPlaced(fs: FatFs, fat': seq<nat>, chain: seq<nat>, c: nat, n: nat)
    requires Placed(fs, chain, n) && |fat'| == fs.nFatent
    requires IsChain(fat', chain + [c])
    ensures Placed(fs, chain + [c], n)
  {
    forall k, l | 0 <= k < l < |chain| + 1
      ensures (chain + [c])[k] != (chain + [c])[l]
    {
      ChainNoRepeat(fat', chain + [c], k, l);
    }
  }

  /** FAT accesses leave the file's data alone. */
  twostate lemma DataUntouched(fp: Fil)
    requires old(fp.Shape()) && old(fp.Caches()) && fp.fs.Valid()
    requires fp.fs.SameOutsideFat(old(fp.fs.View()), fp.fs.View()) && fp.fs.WindowNear(old(fp.fs.winsect))
    requires unchanged(fp, fp.buf)
    ensures fp.Shape() && fp.Caches() && fp.Content() == old(fp.Content())
  {
    hide FatFs.Valid, FatFs.View, Fat, FatBytes, Bytes, Quot, Rem, SectorCount, SectorAt, Stored, IsChain;
    assert Placed(fp.fs, fp.chain, |fp.fs.disk|);
    Parts(fp);
    StoredOutsideFat(fp.fs, old(fp.Store()), fp.Store(), fp.chain, fp.objsize);
    forall j: nat | j < SectorCount(fp.fs, fp.chain)
      ensures SectorAt(fp.fs, fp.chain, j) != fp.fs.winsect
    {
      SectorInData(fp.fs, fp.chain, |fp.fs.disk|, j);
    }
  }

  /** The file takes over the cluster c just linked behind its chain. */
  ghost method Attach(fp: Fil, c: nat)
    requires fp.Shape() && fp.Caches() && IsChain(Fat(fp.fs), fp.chain + [c])
    requires fp.fs.InFat(fp.fs.winsect)
    modifies fp`chain
    ensures fp.chain == old(fp.chain) + [c]
    ensures fp.Shape() && fp.Caches() && fp.Content() == old(fp.Content())
    ensures IsChain(Fat(fp.fs), fp.chain)
  {
    hide FatFs.Valid, FatFs.View, Fat, FatBytes, Bytes, Quot, Rem, SectorCount, SectorAt, Stored, IsChain;
    Parts(fp);
    ghost var chain, n := fp.chain, |fp.fs.disk|;
    GrowPlaced(fp.fs, Fat(fp.fs), chain, c, n);
    StoredInLonger(fp.fs, fp.Store(), chain, c, fp.objsize);
    GrowFileSectors(fp.fs, fp.Store(), chain, c);
    fp.chain := chain + [c];
    forall j: nat | j < SectorCount(fp.fs, fp.chain)
      ensures SectorAt(fp.fs, fp.chain, j) != fp.fs.winsect
    {
      SectorInData(fp.fs, fp.chain, n, j);
    }
  }

  lemma BufferHolds(fp: Fil)
    requires fp.Ready() && fp.sect != 0
    ensures fp.WindowClear() && fp.sect < |fp.fs.disk| && fp.buf[..] == fp.Store()[fp.sect]
  {
    hide FatFs.Valid, FatFs.View, Bytes, Quot, Rem, SectorCount, SectorAt, IsChain, Placed;
    Parts(fp);
  }

  /** create_chain seen from an open file: the cluster after the k-th one is the
      next of its chain, or a new one by which the chain grows. */
  method Stretch(fp: Fil, clst: nat, ghost k: nat) returns (ncl: nat)
    requires fp.Ready() && k <= |fp.chain|
    requires if k == 0 then clst == 0 && fp.chain == [] else clst == fp.chain[k - 1]
    modifies fp`sclust, fp`chain
    modifies fp.fs`disk, fp.fs`wflag, fp.fs`winsect, fp.fs`ioErrors, fp.fs`lastClst, fp.fs`freeClst, fp.fs.win
    ensures fp.Shape() && fp.Content() == old(fp.Content()) && old(fp.chain) <= fp.chain
    ensures ncl <= DISK_ERROR && (ncl == DISK_ERROR ==> fp.fs.ioErrors > old(fp.fs.ioErrors))
    ensures ncl != DISK_ERROR ==> fp.Ready()
    ensures ncl == 0 ==> fp.chain == old(fp.chain) && k == |fp.chain| && VolumeFull(fp.fs)
    ensures ncl == 1 ==> fp.chain == old(fp.chain) && fp.Stuck()
    ensures 2 <= ncl < DISK_ERROR ==> k < |fp.chain| && fp.chain[k] == ncl < fp.fs.nFatent && |fp.chain| <= |old(fp.chain)| + 1
    ensures fp.Spares()
  {
    hide FatFs.Valid, FatFs.View, FatFs.SameOutsideFat, FatFs.WindowNear, Fat, FatBytes, Bytes, Quot, Rem, SectorCount, SectorAt, Stored, Fil.Content, Fil.Store, Fil.Caches,
      IsChain, Created, Placed, Followed, HasReserved, VolumeFull;
    ghost var s0, fat, last := Snap(fp.fs), Fat(fp.fs), fp.fs.lastClst;
    Layout(fp.fs);
    ncl := CreateChain(fp.fs, clst);
    DataUntouched(fp);
    StretchSpares(fp, clst, k, last, ncl, s0);
    if ncl != DISK_ERROR {
      CreatedInChain(fp.fs, fat, Fat(fp.fs), fp.chain, k, last, ncl);
      if 2 <= ncl && k == |fp.chain| {
        Attach(fp, ncl);
      }
    }
    if 2 <= ncl < DISK_ERROR { NthInRange(fp, k); }
    if 2 <= ncl < DISK_ERROR && fp.sclust == 0 { fp.sclust := ncl; }
  }

  /** The volume after create_chain, for the chain as it is then. */
  lemma StretchSpares(fp: Fil, clst: nat, k: nat, last: nat, ncl: nat, a: Snapshot)
    requires fp.Shape() && |a.fat| == fp.fs.nFatent && k <= |fp.chain|
    requires if k == 0 then clst == 0 && fp.chain == [] else clst == fp.chain[k - 1]
    requires fp.chain != [] ==> IsChain(a.fat, fp.chain)
    requires Created(fp.fs, a.fat, Fat(fp.fs), clst, last, ncl) && ncl <= DISK_ERROR
    requires fp.fs.SameOutsideFat(a.view, fp.fs.View()) && a.errors <= fp.fs.ioErrors
    requires ncl == DISK_ERROR ==> a.errors < fp.fs.ioErrors
    requires fp.fs.WindowNear(a.winsect)
    requires ncl != DISK_ERROR && Counts(a.free, a.fat) ==> Counts(fp.fs.freeClst, Fat(fp.fs))
    ensures OthersKept(fp.fs, fp.chain, if 2 <= ncl < DISK_ERROR && k == |fp.chain| then fp.chain + [ncl] else fp.chain, a, Snap(fp.fs))
  {
    hide FatFs.Valid, FatFs.View, FatFs.SameOutsideFat, FatBytes, Counts, Interrupted, Stretched, SectorCount, SectorAt, Bytes, Placed;
    Layout(fp.fs);
    CreatedKeepsOthers(fp.fs, a.fat, Fat(fp.fs), clst, last, ncl, fp.chain);
    if ncl != DISK_ERROR {
      CreatedInChain(fp.fs, a.fat, Fat(fp.fs), fp.chain, k, last, ncl);
    }
    var chain := if 2 <= ncl < DISK_ERROR && k == |fp.chain| then fp.chain + [ncl] else fp.chain;
    FatOnly(fp.fs, fp.chain, chain, a, Snap(fp.fs));
  }

  /** Positions one byte before a sector boundary. */
  lemma BeforeBoundary(fs: FatFs, i: nat)
    requires SectorSize(fs.ss) && fs.csize > 0 && i > 0 && Rem(i, fs.ss) == 0
    ensures Quot(i, fs.ss) > 0 && Quot(i - 1, fs.ss) == Quot(i, fs.ss) - 1
    ensures Off(fs, Quot(i, fs.ss)) != 0 ==> Nth(fs, Quot(i - 1, fs.ss)) == Nth(fs, Quot(i, fs.ss))
    ensures Off(fs, Quot(i, fs.ss)) == 0 ==> Nth(fs, Quot(i - 1, fs.ss)) + 1 == Nth(fs, Quot(i, fs.ss))
  {
    hide Quot, Rem, Nth, Off;
    NextByte(i - 1, fs.ss);
    InChain(fs, [], Quot(i - 1, fs.ss));
    SameCluster(fs, Quot(i - 1, fs.ss), 1);
  }

  /** No cluster is free and the file position is at the end of the file's chain. */
  ghost predicate Exhausted(fp: Fil)
    requires fp.fs.Valid()
    reads fp`fptr, fp`chain, fp.fs`disk, fp.fs`winsect, fp.fs`wflag, fp.fs`freeClst, fp.fs.win
  {
    VolumeFull(fp.fs) && fp.fptr == Bytes(SectorCount(fp.fs, fp.chain), fp.fs.ss)
  }

  lemma BoundaryIsEnd(fp: Fil)
    requires fp.Shape() && VolumeFull(fp.fs) && Rem(fp.fptr, fp.fs.ss) == 0
    requires Off(fp.fs, Quot(fp.fptr, fp.fs.ss)) == 0 && Nth(fp.fs, Quot(fp.fptr, fp.fs.ss)) == |fp.chain|
    ensures Exhausted(fp)
  {
    hide Quot, Rem, Bytes, VolumeFull;
    ByteAddress(fp.fptr, 0, fp.fs.ss);
  }

  lemma StartOfChain(fs: FatFs)
    requires fs.csize > 0
    ensures Nth(fs, 0) == 0 && Off(fs, 0) == 0
  {
  }

  /** The step of a write at a sector boundary that enters the next cluster when
      fptr is at a cluster boundary: follow the chain, stretch it, or find the
      volume full. */
  method EnterToWrite(fp: Fil) returns (res: FResult, full: bool)
    requires fp.Ready() && fp.Cursor() && Rem(fp.fptr, fp.fs.ss) == 0
    modifies fp`clust, fp`sclust, fp`chain
    modifies fp.fs`disk, fp.fs`wflag, fp.fs`winsect, fp.fs`ioErrors, fp.fs`lastClst, fp.fs`freeClst, fp.fs.win
    ensures fp.Shape() && fp.Content() == old(fp.Content()) && old(fp.chain) <= fp.chain
    ensures fp.Spares()
    ensures res == FrOk || (res == FrDiskErr && fp.fs.ioErrors > old(fp.fs.ioErrors)) || (res == FrIntErr && fp.Stuck())
    ensures res == FrOk ==> fp.Ready()
    ensures res == FrOk && !full ==> var j := Quot(fp.fptr, fp.fs.ss);
              fp.fs.csize > 0 && Nth(fp.fs, j) < |fp.chain| && fp.clust == fp.chain[Nth(fp.fs, j)]
    ensures full ==> res == FrOk && fp.Cursor() && fp.chain == old(fp.chain) && Exhausted(fp)
  {
    hide FatFs.Valid, FatFs.View, Fat, Bytes, Quot, Rem, Nth, Off, SectorCount, SectorAt, Fil.Content, Fil.Caches, IsChain, Fil.Stuck, VolumeFull, Exhausted, OthersKept, Snap;
    res, full := FrOk, false;
    Parts(fp);
    StartOfSector(fp.fs.ss);
    StartOfChain(fp.fs);
    NothingChanged(fp.fs, fp.chain, Snap(fp.fs));
    if fp.fptr > 0 { BeforeBoundary(fp.fs, fp.fptr); }
    var csect := Off(fp.fs, Quot(fp.fptr, fp.fs.ss));
    if csect != 0 {
      return;
    }
    var clst;
    if fp.fptr == 0 {
      StartInRange(fp);
      clst := fp.sclust;
      if clst == 0 {
        clst := Stretch(fp, 0, 0);
      }
    } else {
      clst := Stretch(fp, fp.clust, Nth(fp.fs, Quot(fp.fptr, fp.fs.ss)));
    }
    if clst == 0 {
      BoundaryIsEnd(fp);
      return FrOk, true;
    }
    if clst == 1 { return FrIntErr, false; }
    if clst == DISK_ERROR { return FrDiskErr, false; }
    fp.clust := clst;
  }

  lemma SectorIsOwn(fs: FatFs, chain: seq<nat>, n: nat, j: nat)
    requires Placed(fs, chain, n) && j < SectorCount(fs, chain)
    ensures !Foreign(fs, chain, SectorAt(fs, chain, j))
  {
    hide ClusterSector, SectorCount, Nth, Off;
    InChain(fs, chain, j);
    assert chain[Nth(fs, j)] in chain;
  }

  /** Sectors j, j+1, ... of a file, all in one cluster. */
  lemma OwnRun(fp: Fil, j: nat, count: nat)
    requires fp.Shape() && fp.Caches() && j < SectorCount(fp.fs, fp.chain) && 0 < count && Off(fp.fs, j) + count <= fp.fs.csize
    ensures var sect := SectorAt(fp.fs, fp.chain, j);
            && fp.fs.database <= sect && sect + count <= |fp.fs.disk|
            && !(sect <= fp.fs.winsect < sect + count)
            && forall s: nat :: sect <= s < sect + count ==> !Foreign(fp.fs, fp.chain, s)
  {
    hide FatFs.Valid, FatFs.View, Fat, Bytes, Quot, Rem, Nth, Off, SectorCount, SectorAt, IsChain, Stored, Foreign;
    var sect := SectorAt(fp.fs, fp.chain, j);
    SectorInData(fp.fs, fp.chain, |fp.fs.disk|, j);
    SectorRun(fp.fs, fp.chain, j, count - 1);
    SectorInData(fp.fs, fp.chain, |fp.fs.disk|, j + (count - 1));
    if sect <= fp.fs.winsect < sect + count {
      SectorRun(fp.fs, fp.chain, j, fp.fs.winsect - sect);
    }
    forall s: nat | sect <= s < sect + count
      ensures !Foreign(fp.fs, fp.chain, s)
    {
      SectorRun(fp.fs, fp.chain, j, s - sect);
      SectorIsOwn(fp.fs, fp.chain, |fp.fs.disk|, j + (s - sect));
    }
  }

  /** Write consecutive sectors of the file that lie in one cluster. */
  method WriteOwn(fp: Fil, secs: seq<seq<byte>>, sect: nat, ghost j: nat) returns (ok: bool)
    requires fp.Shape() && fp.Caches() && |secs| > 0 && forall k :: 0 <= k < |secs| ==> |secs[k]| == fp.fs.ss
    requires j < SectorCount(fp.fs, fp.chain) && Off(fp.fs, j) + |secs| <= fp.fs.csize && sect == SectorAt(fp.fs, fp.chain, j)
    modifies fp.fs`disk, fp.fs`ioErrors
    ensures fp.Shape() && Fat(fp.fs) == old(Fat(fp.fs)) && fp.WindowClear()
    ensures ok || fp.fs.ioErrors > old(fp.fs.ioErrors)
    ensures |fp.fs.disk| == old(|fp.fs.disk|) && sect + |secs| <= |fp.fs.disk|
    ensures ok ==> fp.fs.View() == Splice(old(fp.fs.View()), sect, secs)
    ensures forall s :: 0 <= s < |fp.fs.disk| && !(sect <= s < sect + |secs|) ==> fp.fs.View()[s] == old(fp.fs.View())[s]
    ensures fp.Spares()
  {
    hide FatFs.Valid, FatFs.View, FatBytes, Bytes, Quot, Rem, Nth, Off, SectorCount, SectorAt, IsChain, Stored, Foreign;
    Parts(fp);
    OwnRun(fp, j, |secs|);
    ok := WriteData(fp.fs, secs, sect);
  }

  /** Write the dirty buffer back; the file contents do not change. */
  method FlushBuffer(fp: Fil) returns (ok: bool)
    requires fp.Ready()
    modifies fp`dirty, fp.fs`disk, fp.fs`ioErrors
    ensures fp.Shape() && fp.Content() == old(fp.Content()) && Fat(fp.fs) == old(Fat(fp.fs))
    ensures fp.Spares() && (ok || fp.fs.ioErrors > old(fp.fs.ioErrors))
    ensures ok ==> fp.Ready() && !fp.dirty
  {
    hide FatFs.Valid, FatFs.View, Fat, Bytes, Quot, Rem, Nth, Off, SectorCount, SectorAt, IsChain, Stored, Foreign;
    ok := true;
    Parts(fp);
    if fp.dirty {
      InChain(fp.fs, fp.chain, fp.sectIdx);
      ok := WriteOwn(fp, [fp.buf[..]], fp.sect, fp.sectIdx);
      if ok { fp.dirty := false; }
      Parts(fp);
      assert fp.Store() == old(fp.Store());
    }
  }

  function Larger(a: nat, b: nat): nat {
    if a > b then a else b
  }

  /** Write whole sectors from the file position on, straight to the device. */
  method WriteDirect(fp: Fil, secs: seq<seq<byte>>, sect: nat) returns (ok: bool)
    requires fp.Ready() && !fp.dirty && Rem(fp.fptr, fp.fs.ss) == 0
    requires |secs| > 0 && forall k :: 0 <= k < |secs| ==> |secs[k]| == fp.fs.ss
    requires var j := Quot(fp.fptr, fp.fs.ss);
             j < SectorCount(fp.fs, fp.chain) && Off(fp.fs, j) + |secs| <= fp.fs.csize && sect == SectorAt(fp.fs, fp.chain, j)
    modifies fp.buf, fp.fs`disk, fp.fs`ioErrors
    ensures fp.Shape() && fp.Spares() && (ok || fp.fs.ioErrors > old(fp.fs.ioErrors))
    ensures ok ==> fp.Ready()
    ensures ok ==> var size' := Larger(fp.objsize, fp.fptr + Bytes(|secs|, fp.fs.ss));
                   size' <= Bytes(SectorCount(fp.fs, fp.chain), fp.fs.ss)
                   && Stored(fp.fs, fp.Store(), fp.chain, size') == Overwrite(old(fp.Content()), fp.fptr, Flat(secs, fp.fs.ss))
    ensures forall i :: 0 <= i < fp.objsize && !(fp.fptr <= i < fp.fptr + Bytes(|secs|, fp.fs.ss)) ==>
              fp.Content()[i] == old(fp.Content())[i]
  {
    hide FatFs.Valid, FatFs.View, Fat, Bytes, Quot, Rem, Nth, Off, SectorCount, SectorAt, IsChain, Foreign, OthersKept, Snap, Flat, Stored;
    Parts(fp);
    ghost var j, v := Quot(fp.fptr, fp.fs.ss), fp.fs.View();
    InChain(fp.fs, fp.chain, j);
    ok := WriteOwn(fp, secs, sect, j);
    Parts(fp);
    if ok && sect <= fp.sect < sect + |secs| {
      CopyInto(fp.buf, 0, secs[fp.sect - sect]);
    }
    StoredElsewhere(fp.fs, v, fp.fs.View(), fp.chain, fp.objsize, fp.fptr, |secs|);
    if ok {
      StoreRun(fp.fs, v, fp.fs.View(), fp.chain, j, secs);
      StoredRun(fp.fs, v, fp.fs.View(), fp.chain, fp.objsize, fp.fptr, secs);
    }
  }

  /** Put d into the buffer at the file position.  The buffer holds the sector,
      unless the position is the start of a sector at the end of the file. */
  method Patch(fp: Fil, d: seq<byte>)
    requires fp.Shape() && fp.Linked() && fp.WindowClear() && fp.fptr <= fp.objsize <= 0xFFFF_FFFF
    requires fp.sect != 0 && fp.sectIdx == Quot(fp.fptr, fp.fs.ss) && 0 < |d| && Rem(fp.fptr, fp.fs.ss) + |d| <= fp.fs.ss
    requires (fp.sect < |fp.fs.disk| && fp.buf[..] == fp.Store()[fp.sect]) || (Rem(fp.fptr, fp.fs.ss) == 0 && fp.fptr == fp.objsize)
    modifies fp`dirty, fp.buf
    ensures fp.Ready()
    ensures var size' := Larger(fp.objsize, fp.fptr + |d|);
            size' <= Bytes(SectorCount(fp.fs, fp.chain), fp.fs.ss)
            && Stored(fp.fs, fp.Store(), fp.chain, size') == Overwrite(old(fp.Content()), fp.fptr, d)
    ensures fp.dirty
  {
    hide FatFs.Valid, FatFs.View, Fat, Bytes, Quot, Rem, Nth, Off, SectorCount, SectorAt, IsChain, Stored;
    Parts(fp);
    ghost var st := fp.Store();
    CopyInto(fp.buf, Rem(fp.fptr, fp.fs.ss), d);
    fp.dirty := true;
    Parts(fp);
    StoredPatch(fp.fs, st, fp.chain, fp.objsize, fp.fptr, d, fp.buf[..]);
    assert fp.Store() == st[fp.sect := fp.buf[..]];
  }

  /** A data transfer from sectors of the file. */
  method ReadData(fp: Fil, sect: nat, count: nat) returns (ok: bool, secs: seq<seq<byte>>)
    requires fp.Shape() && sect + count <= |fp.fs.disk| && !(sect <= fp.fs.winsect < sect + count)
    modifies fp.fs`ioErrors
    ensures fp.Spares() && (ok || fp.fs.ioErrors > old(fp.fs.ioErrors))
    ensures |secs| == count && forall k :: 0 <= k < count ==> |secs[k]| == fp.fs.ss
    ensures ok ==> secs == fp.fs.View()[sect..sect + count]
  {
    hide FatFs.Valid, Fat, Bytes, SectorCount, SectorAt, Placed, OthersKept;
    SectorsSized(fp.fs);
    ghost var s0 := Snap(fp.fs);
    ok, secs := DiskRead(fp.fs, sect, count);
    OnlyFailed(fp.fs, fp.chain, s0, Snap(fp.fs));
  }

  /** Make sector j of the file the buffered one, reading it in if needed. */
  method FillBuffer(fp: Fil, sect: nat, needed: bool, ghost j: nat) returns (ok: bool)
    requires fp.Ready() && !fp.dirty && j < SectorCount(fp.fs, fp.chain) && sect == SectorAt(fp.fs, fp.chain, j)
    modifies fp`sect, fp`sectIdx, fp.buf, fp.fs`ioErrors
    ensures fp.Spares() && (ok || fp.fs.ioErrors > old(fp.fs.ioErrors))
    ensures fp.Shape() && fp.Linked() && fp.WindowClear() && fp.Content() == old(fp.Content())
    ensures ok ==> fp.sect == sect && fp.sectIdx == j && sect != 0
    ensures ok && (needed || sect == old(fp.sect)) ==> fp.Ready() && sect < |fp.fs.disk| && fp.buf[..] == fp.Store()[sect]
  {
    hide FatFs.Valid, FatFs.View, OthersKept, Snap, Fat, Bytes, Quot, Rem, Nth, Off, SectorCount, SectorAt, IsChain, Stored;
    Parts(fp);
    SectorInData(fp.fs, fp.chain, |fp.fs.disk|, j);
    NothingChanged(fp.fs, fp.chain, Snap(fp.fs));
    ok := true;
    if fp.sect != sect && needed {
      var secs;
      ok, secs := ReadData(fp, sect, 1);
      CopyInto(fp.buf, 0, secs[0]);
      if !ok { return; }
    }
    fp.sect := sect;
    fp.sectIdx := j;
  }

  lemma SectorsSized(fs: FatFs)
    requires fs.Valid()
    ensures forall s :: 0 <= s < |fs.disk| ==> |fs.disk[s]| == fs.ss
  {
    hide Quot, Rem, Bytes, FatFs.Mirrored;
  }

  /** Where the position lands after n more bytes of the same sector. */
  lemma StepWithin(fs: FatFs, at: nat, n: nat)
    requires SectorSize(fs.ss) && 0 < n && Rem(at, fs.ss) + n <= fs.ss
    ensures Quot(at + n - 1, fs.ss) == Quot(at, fs.ss)
    ensures Rem(at + n, fs.ss) != 0 ==> Quot(at + n, fs.ss) == Quot(at, fs.ss)
  {
    hide Quot, Rem;
    ByteAddress(at, 0, fs.ss);
    UniqueAddress(at + n - 1, Quot(at, fs.ss), Rem(at, fs.ss) + n - 1, fs.ss);
    NextByte(at + n - 1, fs.ss);
  }

  /** Where the position lands after cc whole sectors of one cluster. */
  lemma StepSectors(fs: FatFs, at: nat, cc: nat)
    requires SectorSize(fs.ss) && fs.csize > 0 && 0 < cc && Rem(at, fs.ss) == 0 && Off(fs, Quot(at, fs.ss)) + cc <= fs.csize
    ensures Rem(at + Bytes(cc, fs.ss), fs.ss) == 0 && Bytes(cc, fs.ss) > 0
    ensures Nth(fs, Quot(at + Bytes(cc, fs.ss) - 1, fs.ss)) == Nth(fs, Quot(at, fs.ss))
  {
    hide Quot, Rem, Nth, Off;
    var q := Quot(at, fs.ss);
    ByteAddress(at, 0, fs.ss);
    UniqueAddress(at + Bytes(cc, fs.ss), q + cc, 0, fs.ss);
    UniqueAddress(at + Bytes(cc, fs.ss) - 1, q + cc - 1, fs.ss - 1, fs.ss);
    SameCluster(fs, q, cc - 1);
  }

  lemma MidSector(fs: FatFs, i: nat)
    requires SectorSize(fs.ss) && Rem(i, fs.ss) != 0
    ensures i > 0 && Quot(i - 1, fs.ss) == Quot(i, fs.ss) && Rem(i, fs.ss) < fs.ss
  {
    hide Quot, Rem;
    StartOfSector(fs.ss);
    NextByte(i - 1, fs.ss);
    ByteAddress(i, 0, fs.ss);
  }

  /** The device sector of the j-th sector of the file, from the current cluster. */
  lemma CurrentSector(fp: Fil, j: nat)
    requires fp.Shape() && fp.fs.csize > 0 && Nth(fp.fs, j) < |fp.chain| && fp.clust == fp.chain[Nth(fp.fs, j)]
    ensures j < SectorCount(fp.fs, fp.chain)
    ensures Clst2Sect(fp.fs, fp.clust) > 0 && Off(fp.fs, j) < fp.fs.csize
    ensures Clst2Sect(fp.fs, fp.clust) + Off(fp.fs, j) == SectorAt(fp.fs, fp.chain, j)
  {
    hide Nth, Off, SectorCount;
    InChain(fp.fs, fp.chain, j);
    ClusterInData(fp.fs, fp.clust, 0, |fp.fs.disk|);
  }

  /** Same length, and equal outside n bytes from at on. */
  ghost predicate KeptExcept(c: seq<byte>, c': seq<byte>, at: nat, n: nat) {
    |c'| == |c| && forall i :: 0 <= i < |c| && !(at <= i < at + n) ==> c'[i] == c[i]
  }

  lemma BytesLe(a: nat, b: nat, ss: nat)
    requires a <= b
    ensures Bytes(a, ss) <= Bytes(b, ss)
  {
  }

  /** The write of as many whole sectors as fit in the cluster. */
  method WriteWhole(fp: Fil, data: seq<byte>, sect: nat, csect: nat) returns (ok: bool, wcnt: nat)
    requires fp.Ready() && !fp.dirty && fp.fptr + |data| <= 0xFFFF_FFFF && Rem(fp.fptr, fp.fs.ss) == 0 && Quot(|data|, fp.fs.ss) > 0
    requires var j := Quot(fp.fptr, fp.fs.ss);
             && fp.fs.csize > 0 && Nth(fp.fs, j) < |fp.chain| && fp.clust == fp.chain[Nth(fp.fs, j)]
             && j < SectorCount(fp.fs, fp.chain) && csect == Off(fp.fs, j) && sect == SectorAt(fp.fs, fp.chain, j)
    modifies fp`fptr, fp`objsize, fp.buf, fp.fs`disk, fp.fs`ioErrors
    ensures fp.Shape() && fp.Spares() && (ok || fp.fs.ioErrors > old(fp.fs.ioErrors))
    ensures ok ==> fp.Ready() && fp.Cursor() && 0 < wcnt <= |data| && fp.fptr == old(fp.fptr) + wcnt
    ensures ok ==> fp.Content() == Overwrite(old(fp.Content()), old(fp.fptr), data[..wcnt])
    ensures !ok ==> wcnt == 0 && fp.fptr == old(fp.fptr) && KeptExcept(old(fp.Content()), fp.Content(), fp.fptr, |data|)
  {
    hide FatFs.Valid, FatFs.View, Fat, Bytes, Quot, Rem, Nth, Off, SectorCount, SectorAt, IsChain, Stored, Placed, OthersKept, Snap, Fil.Caches, Fil.Store, Flat, Fil.WindowClear, Foreign;
    Parts(fp);
    wcnt := 0;
    ghost var j := Quot(fp.fptr, fp.fs.ss);
    var cc := Quot(|data|, fp.fs.ss);
    ByteAddress(|data|, 0, fp.fs.ss);
    InChain(fp.fs, fp.chain, j);
    if csect + cc > fp.fs.csize { cc := fp.fs.csize - csect; }
    BytesLe(cc, Quot(|data|, fp.fs.ss), fp.fs.ss);
    var n := Bytes(cc, fp.fs.ss);
    ChopFlat(data[..n], cc, fp.fs.ss);
    StepSectors(fp.fs, fp.fptr, cc);
    ok := WriteDirect(fp, Chop(data[..n], cc, fp.fs.ss), sect);
    if ok {
      wcnt := n;
      fp.fptr := fp.fptr + wcnt;
      fp.objsize := if fp.fptr > fp.objsize then fp.fptr else fp.objsize;
      Parts(fp);
    }
  }

  /** The write of (the rest of) one sector through the buffer. */
  method WritePart(fp: Fil, data: seq<byte>) returns (wcnt: nat)
    requires fp.Shape() && fp.Linked() && fp.WindowClear() && fp.fptr <= fp.objsize <= 0xFFFF_FFFF
    requires |data| > 0 && fp.fptr + |data| <= 0xFFFF_FFFF && Rem(fp.fptr, fp.fs.ss) < fp.fs.ss
    requires fp.sect != 0 && fp.sectIdx == Quot(fp.fptr, fp.fs.ss)
    requires (fp.sect < |fp.fs.disk| && fp.buf[..] == fp.Store()[fp.sect]) || (Rem(fp.fptr, fp.fs.ss) == 0 && fp.fptr == fp.objsize)
    requires var j := Quot(fp.fptr, fp.fs.ss);
             fp.fs.csize > 0 && Nth(fp.fs, j) < |fp.chain| && fp.clust == fp.chain[Nth(fp.fs, j)]
    modifies fp`dirty, fp`fptr, fp`objsize, fp.buf
    ensures fp.Ready() && fp.Cursor()
    ensures 0 < wcnt <= |data| && fp.fptr == old(fp.fptr) + wcnt
    ensures fp.Content() == Overwrite(old(fp.Content()), old(fp.fptr), data[..wcnt])
  {
    hide FatFs.Valid, FatFs.View, Fat, Bytes, Quot, Rem, Nth, Off, SectorCount, SectorAt, IsChain, Stored, Placed, OthersKept, Snap;
    Parts(fp);
    wcnt := fp.fs.ss - Rem(fp.fptr, fp.fs.ss);
    if wcnt > |data| { wcnt := |data|; }
    Patch(fp, data[..wcnt]);
    StepWithin(fp.fs, fp.fptr, wcnt);
    fp.fptr := fp.fptr + wcnt;
    fp.objsize := if fp.fptr > fp.objsize then fp.fptr else fp.objsize;
  }

  /** The start of a write at a sector boundary: enter the cluster, save the
      dirty buffer, and find the device sector. */
  method PrepareWrite(fp: Fil) returns (res: FResult, full: bool, sect: nat)
    requires fp.Ready() && fp.Cursor() && Rem(fp.fptr, fp.fs.ss) == 0
    modifies fp`clust, fp`sclust, fp`chain, fp`dirty
    modifies fp.fs`disk, fp.fs`wflag, fp.fs`winsect, fp.fs`ioErrors, fp.fs`lastClst, fp.fs`freeClst, fp.fs.win
    ensures fp.Shape() && fp.Content() == old(fp.Content()) && old(fp.chain) <= fp.chain
    ensures fp.Spares()
    ensures res == FrOk || (res == FrDiskErr && fp.fs.ioErrors > old(fp.fs.ioErrors)) || (res == FrIntErr && fp.Stuck())
    ensures res == FrOk ==> fp.Ready()
    ensures full ==> res == FrOk && fp.Cursor() && Exhausted(fp)
    ensures res == FrOk && !full ==> !fp.dirty
    ensures res == FrOk && !full ==> var j := Quot(fp.fptr, fp.fs.ss);
              && fp.fs.csize > 0 && Nth(fp.fs, j) < |fp.chain| && fp.clust == fp.chain[Nth(fp.fs, j)]
              && j < SectorCount(fp.fs, fp.chain) && sect == SectorAt(fp.fs, fp.chain, j)
  {
    hide FatFs.Valid, FatFs.View, Fat, Bytes, Quot, Rem, Nth, Off, SectorCount, SectorAt, IsChain, Stored, Fil.Stuck, Exhausted, OthersKept, Snap, Fil.Content, Fil.Caches, Fil.Linked, Fil.WindowClear, Fil.Store;
    sect := 0;
    ghost var s0, ch0, j := Snap(fp.fs), fp.chain, Quot(fp.fptr, fp.fs.ss);
    res, full := EnterToWrite(fp);
    if res != FrOk || full { return; }
    ghost var s1 := Snap(fp.fs);
    var ok := FlushBuffer(fp);
    OthersTrans(fp.fs, ch0, fp.chain, fp.chain, s0, s1, Snap(fp.fs));
    if !ok { return FrDiskErr, false, 0; }
    CurrentSector(fp, j);
    sect := Clst2Sect(fp.fs, fp.clust);
    if sect == 0 { res := FrIntErr; return; }
    sect := sect + Off(fp.fs, Quot(fp.fptr, fp.fs.ss));
  }

  /** One round of the write loop: enter the cluster, then store either whole
      sectors of it or a part of one sector. */
  method WriteSome(fp: Fil, data: seq<byte>) returns (res: FResult, wcnt: nat)
    requires fp.Ready() && fp.Cursor() && |data| > 0 && fp.fptr + |data| <= 0xFFFF_FFFF
    modifies fp`clust, fp`sclust, fp`chain, fp`sect, fp`sectIdx, fp`dirty, fp`fptr, fp`objsize, fp.buf
    modifies fp.fs`disk, fp.fs`wflag, fp.fs`winsect, fp.fs`ioErrors, fp.fs`lastClst, fp.fs`freeClst, fp.fs.win
    ensures fp.Shape() && old(fp.chain) <= fp.chain
    ensures fp.Spares()
    ensures res == FrOk || (res == FrDiskErr && fp.fs.ioErrors > old(fp.fs.ioErrors)) || (res == FrIntErr && fp.Stuck())
    ensures res == FrOk ==> fp.Ready() && fp.Cursor() && wcnt <= |data| && fp.fptr == old(fp.fptr) + wcnt
    ensures res == FrOk ==> fp.Content() == Overwrite(old(fp.Content()), old(fp.fptr), data[..wcnt])
    ensures res == FrOk && wcnt == 0 ==> Exhausted(fp)
    ensures res != FrOk ==> wcnt == 0 && fp.fptr == old(fp.fptr) && KeptExcept(old(fp.Content()), fp.Content(), fp.fptr, |data|)
  {
    hide FatFs.Valid, FatFs.View, Fat, Bytes, Quot, Rem, Nth, Off, SectorCount, SectorAt, IsChain, Stored, Fil.Stuck, Exhausted, OthersKept, Snap, Fil.Content, Fil.Caches, Fil.Linked, Fil.WindowClear, Fil.Store;
    res, wcnt := FrOk, 0;
    ghost var s0, ch0 := Snap(fp.fs), fp.chain;
    NothingChanged(fp.fs, fp.chain, s0);
    if Rem(fp.fptr, fp.fs.ss) == 0 {
      var full, sect, ok;
      res, full, sect := PrepareWrite(fp);
      if res != FrOk || full { return; }
      ghost var s1 := Snap(fp.fs);
      if Quot(|data|, fp.fs.ss) > 0 {
        ok, wcnt := WriteWhole(fp, data, sect, Off(fp.fs, Quot(fp.fptr, fp.fs.ss)));
        OthersTrans(fp.fs, ch0, fp.chain, fp.chain, s0, s1, Snap(fp.fs));
        res := if ok then FrOk else FrDiskErr;
        return;
      }
      ok := FillBuffer(fp, sect, fp.fptr < fp.objsize, Quot(fp.fptr, fp.fs.ss));
      OthersTrans(fp.fs, ch0, fp.chain, fp.chain, s0, s1, Snap(fp.fs));
      if !ok { return FrDiskErr, 0; }
    } else {
      MidSector(fp.fs, fp.fptr);
      BufferHolds(fp);
    }
    wcnt := WritePart(fp, data);
  }

  lemma OverwriteStep(c: seq<byte>, at: nat, d: seq<byte>, i: nat, w: nat)
    requires at <= |c| && i <= i + w <= |d|
    ensures |Overwrite(c, at, d[..i])| >= at + i
    ensures Overwrite(Overwrite(c, at, d[..i]), at + i, d[i..][..w]) == Overwrite(c, at, d[..i + w])
    ensures Overwrite(c, at, d[..0]) == c
  {
    assert d[..i] + d[i..][..w] == d[..i + w];
    OverwriteTwice(c, at, d[..i], d[i..][..w]);
  }

  /** The loop of f_write. */
  method WriteAll(fp: Fil, data: seq<byte>) returns (res: FResult, bw: nat)
    requires fp.Ready() && fp.Cursor() && fp.fptr + |data| <= 0xFFFF_FFFF
    modifies fp`clust, fp`sclust, fp`chain, fp`sect, fp`sectIdx, fp`dirty, fp`fptr, fp`objsize, fp.buf
    modifies fp.fs`disk, fp.fs`wflag, fp.fs`winsect, fp.fs`ioErrors, fp.fs`lastClst, fp.fs`freeClst, fp.fs.win
    ensures fp.Shape() && bw <= |data| && fp.fptr == old(fp.fptr) + bw && old(fp.chain) <= fp.chain
    ensures fp.Spares()
    ensures res == FrOk || (res == FrDiskErr && fp.fs.ioErrors > old(fp.fs.ioErrors)) || (res == FrIntErr && fp.Stuck())
    ensures res == FrOk ==> fp.Ready() && fp.Cursor() && fp.Content() == Overwrite(old(fp.Content()), old(fp.fptr), data[..bw])
    ensures res == FrOk ==> bw == |data| || Exhausted(fp)
    ensures res != FrOk ==> KeptExcept(Overwrite(old(fp.Content()), old(fp.fptr), data[..bw]), fp.Content(), fp.fptr, |data| - bw)
  {
    hide FatFs.Valid, FatFs.View, Fat, Bytes, Quot, Rem, Nth, Off, SectorCount, SectorAt, IsChain, Stored, Placed, Fil.Stuck, Exhausted, OthersKept, Snap, Fil.Content, Fil.Caches, Fil.Linked, Fil.WindowClear, Fil.Store,
      Overwrite, KeptExcept, Fil.Cursor;
    res, bw := FrOk, 0;
    ghost var c, at, s0 := fp.Content(), fp.fptr, Snap(fp.fs);
    NothingChanged(fp.fs, fp.chain, s0);
    OverwriteStep(c, at, data, 0, 0);
    while bw < |data|
      invariant bw <= |data| && res == FrOk
      invariant fp.Ready() && fp.Cursor() && old(fp.chain) <= fp.chain
      invariant fp.fptr == at + bw && fp.Content() == Overwrite(c, at, data[..bw])
      invariant OthersKept(fp.fs, old(fp.chain), fp.chain, s0, Snap(fp.fs)) && fp.fs.ioErrors >= old(fp.fs.ioErrors)
    {
      ghost var s1, chain1 := Snap(fp.fs), fp.chain;
      var w;
      res, w := WriteSome(fp, data[bw..]);
      OthersTrans(fp.fs, old(fp.chain), chain1, fp.chain, s0, s1, Snap(fp.fs));
      if res != FrOk { return; }
      OverwriteStep(c, at, data, bw, w);
      bw := bw + w;
      if w == 0 { break; }
    }
  }

  /** f_write: from the file position on, the contents become the written bytes
      and are otherwise as before.  Fewer bytes are written only when the volume
      is full or the file has reached 4 GiB - 1. */
  method Write(fp: Fil, buff: seq<byte>) returns (res: FResult, bw: nat)
    requires fp.Valid() && |buff| <= 0xFFFF_FFFF
    modifies fp`clust, fp`sclust, fp`chain, fp`sect, fp`sectIdx, fp`dirty, fp`fptr, fp`objsize, fp`err, fp`modified, fp.buf
    modifies fp.fs`disk, fp.fs`wflag, fp.fs`winsect, fp.fs`ioErrors, fp.fs`lastClst, fp.fs`freeClst, fp.fs.win
    ensures fp.Valid() && bw <= |buff| && old(fp.chain) <= fp.chain
    ensures old(fp.err) != FrOk ==> res == old(fp.err)
    ensures old(fp.err) == FrOk && !fp.canWrite ==> res == FrDenied
    ensures old(fp.err) != FrOk || !fp.canWrite ==> bw == 0 && unchanged(fp, fp.buf, fp.fs, fp.fs.win)
    ensures old(fp.err) == FrOk && fp.canWrite ==>
              && fp.fptr == old(fp.fptr) + bw && res == fp.err
              && fp.Spares()
              && (res == FrOk || (res == FrDiskErr && fp.fs.ioErrors > old(fp.fs.ioErrors)) || (res == FrIntErr && fp.Stuck()))
    ensures old(fp.err) == FrOk && fp.canWrite && res == FrOk ==>
              && fp.Content() == Overwrite(old(fp.Content()), old(fp.fptr), buff[..bw])
              && (bw == |buff| || fp.fptr == 0xFFFF_FFFF || Exhausted(fp))
              && fp.modified
    ensures old(fp.err) == FrOk && fp.canWrite && res != FrOk ==>
              KeptExcept(Overwrite(old(fp.Content()), old(fp.fptr), buff[..bw]), fp.Content(), fp.fptr, |buff| - bw)
  {
    hide FatFs.Valid, FatFs.View, Fat, Bytes, Quot, Rem, Nth, Off, SectorCount, SectorAt, IsChain, Stored, Placed, Fil.Stuck, Exhausted, OthersKept, Snap, Fil.Content, Fil.Caches, Fil.Linked, Fil.WindowClear, Fil.Store,
      Overwrite, Fil.Cursor;
    bw := 0;
    res := fp.err;
    if res != FrOk { return; }
    if !fp.canWrite { return FrDenied, 0; }
    var btw := |buff|;
    if (fp.fptr + btw) % 0x1_0000_0000 < fp.fptr % 0x1_0000_0000 {
      btw := 0xFFFF_FFFF - fp.fptr;
    }
    res, bw := WriteAll(fp, buff[..btw]);
    assert buff[..btw][..bw] == buff[..bw];
    if res != FrOk {
      fp.err := res;
      return;
    }
    fp.modified := true;
  }

  lemma FewClusters(fs: FatFs)
    requires fs.Valid()
    ensures fs.nFatent < DISK_ERROR
  {
    Layout(fs);
  }

  /** get_fat seen from an open file: the next cluster of its chain. */
  method Follow(fp: Fil, clst: nat, ghost k: nat) returns (nxt: nat)
    requires fp.Ready() && k + 1 < |fp.chain| && clst == fp.chain[k]
    modifies fp.fs`disk, fp.fs`wflag, fp.fs`winsect, fp.fs`ioErrors, fp.fs.win
    ensures fp.Ready() && fp.Content() == old(fp.Content()) && Fat(fp.fs) == old(Fat(fp.fs))
    ensures fp.Spares()
    ensures 2 <= nxt == fp.chain[k + 1] < fp.fs.nFatent < DISK_ERROR || (nxt == DISK_ERROR && fp.fs.ioErrors > old(fp.fs.ioErrors))
  {
    hide FatFs.Valid, FatFs.View, FatFs.SameView, FatFs.SameOutsideFat, FatBytes, Table, OthersKept, Bytes, Quot, Rem, Nth, Off, SectorCount, SectorAt, Fil.Content, Fil.Caches;
    ghost var s0 := Snap(fp.fs);
    nxt := GetEntry(fp.fs, clst);
    fp.fs.SameOutsideRefl(s0.view);
    fp.fs.SameOutsideTrans(s0.view, s0.view, fp.fs.View());
    SameTable(fp.fs, fp.chain, s0, Snap(fp.fs));
    DataUntouched(fp);
    NthInRange(fp, k + 1);
    FewClusters(fp.fs);
  }

  lemma StartInRange(fp: Fil)
    requires fp.Ready()
    ensures fp.sclust < fp.fs.nFatent < DISK_ERROR && (fp.sclust == 0 <==> fp.chain == [])
    ensures fp.chain != [] ==> fp.sclust == fp.chain[0] >= 2
  {
    Layout(fp.fs);
    hide FatFs.Valid, Fat, Fil.Caches, SectorCount, SectorAt, Bytes;
  }

  lemma SameTable(fs: FatFs, chain: seq<nat>, a: Snapshot, b: Snapshot)
    requires fs.SameOutsideFat(a.view, b.view) && b.fat == a.fat && b.free == a.free && a.errors <= b.errors
    requires b.winsect == a.winsect || fs.InFat(b.winsect) || b.winsect == NO_SECTOR
    ensures OthersKept(fs, chain, chain, a, b)
  {
  }

  /** The step of a read at a sector boundary that follows the chain when fptr is
      at a cluster boundary. */
  method EnterToRead(fp: Fil) returns (res: FResult)
    requires fp.Ready() && fp.Cursor() && Rem(fp.fptr, fp.fs.ss) == 0 && fp.fptr < fp.objsize
    modifies fp`clust, fp.fs`disk, fp.fs`wflag, fp.fs`winsect, fp.fs`ioErrors, fp.fs.win
    ensures fp.Ready() && fp.Content() == old(fp.Content()) && Fat(fp.fs) == old(Fat(fp.fs))
    ensures fp.Spares()
    ensures res == FrOk || (res == FrDiskErr && fp.fs.ioErrors > old(fp.fs.ioErrors))
    ensures res == FrOk ==> var j := Quot(fp.fptr, fp.fs.ss);
              fp.fs.csize > 0 && Nth(fp.fs, j) < |fp.chain| && fp.clust == fp.chain[Nth(fp.fs, j)]
  {
    hide FatFs.Valid, FatFs.View, Fat, Bytes, Quot, Rem, Nth, Off, SectorCount, SectorAt, Fil.Content, Fil.Caches, IsChain, OthersKept, Snap, Placed, Fil.Linked, Fil.WindowClear, Fil.Store, Stored;
    NothingChanged(fp.fs, fp.chain, Snap(fp.fs));
    Parts(fp);
    StartOfSector(fp.fs.ss);
    StartOfChain(fp.fs);
    ByteAddress(fp.fptr, SectorCount(fp.fs, fp.chain), fp.fs.ss);
    InChain(fp.fs, fp.chain, Quot(fp.fptr, fp.fs.ss));
    if fp.fptr > 0 { BeforeBoundary(fp.fs, fp.fptr); }
    var csect := Off(fp.fs, Quot(fp.fptr, fp.fs.ss));
    if csect != 0 { return FrOk; }
    var clst;
    ghost var k := Nth(fp.fs, Quot(fp.fptr, fp.fs.ss));
    if fp.fptr == 0 {
      StartInRange(fp);
      clst := fp.sclust;
    } else {
      clst := Follow(fp, fp.clust, k - 1);
    }
    if clst < 2 { return FrIntErr; }
    if clst == DISK_ERROR { return FrDiskErr; }
    fp.clust := clst;
    res := FrOk;
  }

  /** Read whole sectors straight from the device; the dirty buffer replaces the
      sector it holds.  A failed device call delivers as many bytes, of any value. */
  method ReadDirect(fp: Fil, sect: nat, cc: nat) returns (ok: bool, data: seq<byte>)
    requires fp.Ready() && 0 < cc && Rem(fp.fptr, fp.fs.ss) == 0 && fp.fptr + Bytes(cc, fp.fs.ss) <= fp.objsize
    requires var j := Quot(fp.fptr, fp.fs.ss);
             j < SectorCount(fp.fs, fp.chain) && Off(fp.fs, j) + cc <= fp.fs.csize && sect == SectorAt(fp.fs, fp.chain, j)
    modifies fp.fs`ioErrors
    ensures fp.Ready() && fp.Content() == old(fp.Content()) && fp.Spares() && (ok || fp.fs.ioErrors > old(fp.fs.ioErrors))
    ensures |data| == Bytes(cc, fp.fs.ss) && (ok ==> data == fp.Content()[fp.fptr..fp.fptr + Bytes(cc, fp.fs.ss)])
  {
    hide FatFs.Valid, FatFs.View, OthersKept, Snap, Fat, Bytes, Quot, Rem, Nth, Off, SectorCount, SectorAt, IsChain, Stored, Flat, Foreign;
    Parts(fp);
    OwnRun(fp, Quot(fp.fptr, fp.fs.ss), cc);
    var secs;
    ok, secs := ReadData(fp, sect, cc);
    if ok && fp.dirty && sect <= fp.sect < sect + cc {
      secs := secs[fp.sect - sect := fp.buf[..]];
    }
    data := Flat(secs, fp.fs.ss);
    if ok {
      assert secs == fp.Store()[sect..sect + cc];
      StoredSlice(fp.fs, fp.Store(), fp.chain, fp.objsize, fp.fptr, cc);
    }
  }

  /** Make the sector at the position the buffered one, saving a dirty buffer first. */
  method Rebuffer(fp: Fil, sect: nat, ghost j: nat) returns (ok: bool)
    requires fp.Ready() && j < SectorCount(fp.fs, fp.chain) && sect == SectorAt(fp.fs, fp.chain, j)
    modifies fp`sect, fp`sectIdx, fp`dirty, fp.buf, fp.fs`disk, fp.fs`ioErrors
    ensures fp.Shape() && fp.Content() == old(fp.Content()) && Fat(fp.fs) == old(Fat(fp.fs))
    ensures fp.Spares() && (ok || fp.fs.ioErrors > old(fp.fs.ioErrors))
    ensures ok ==> fp.Ready() && fp.sect == sect && fp.sectIdx == j && sect != 0
                   && sect < |fp.fs.disk| && fp.buf[..] == fp.Store()[sect]
  {
    hide FatFs.Valid, FatFs.View, Fat, Bytes, Quot, Rem, Nth, Off, SectorCount, SectorAt, IsChain, Stored, Foreign, OthersKept, Snap, Fil.Content, Fil.Caches, Fil.Store;
    ok := true;
    Parts(fp);
    ghost var s0 := Snap(fp.fs);
    NothingChanged(fp.fs, fp.chain, s0);
    if fp.sect != sect {
      if fp.dirty {
        ok := FlushBuffer(fp);
        if !ok { return; }
      }
      ghost var s1 := Snap(fp.fs);
      ok := FillBuffer(fp, sect, true, j);
      OthersTrans(fp.fs, fp.chain, fp.chain, fp.chain, s0, s1, Snap(fp.fs));
    } else {
      SectorInData(fp.fs, fp.chain, |fp.fs.disk|, j);
      SectorsDistinct(fp.fs, fp.chain, |fp.fs.disk|, j, fp.sectIdx);
      BufferHolds(fp);
    }
  }

  /** With m bytes left to read at position at: the number of bytes that the next
      device call transfers straight to the caller. */
  function DirectPart(fs: FatFs, at: nat, m: nat): nat {
    var rest := if fs.csize == 0 then 0 else fs.csize - Off(fs, Quot(at, fs.ss));
    if Rem(at, fs.ss) != 0 then 0 else Bytes(if Quot(m, fs.ss) > rest then rest else Quot(m, fs.ss), fs.ss)
  }

  lemma DirectPartFits(fs: FatFs, at: nat, m: nat)
    requires SectorSize(fs.ss)
    ensures DirectPart(fs, at, m) <= m
  {
    hide Quot, Rem, Bytes;
    ByteAddress(m, 0, fs.ss);
    var rest := if fs.csize == 0 then 0 else fs.csize - Off(fs, Quot(at, fs.ss));
    BytesLe(if Quot(m, fs.ss) > rest then rest else Quot(m, fs.ss), Quot(m, fs.ss), fs.ss);
    BytesLe(0, Quot(m, fs.ss), fs.ss);
  }

  /** One round of the read loop.  A failed round leaves what the device delivered
      straight to the caller. */
  method ReadSome(fp: Fil, btr: nat) returns (res: FResult, data: seq<byte>)
    requires fp.Ready() && fp.Cursor() && 0 < btr && fp.fptr + btr <= fp.objsize
    modifies fp`clust, fp`sect, fp`sectIdx, fp`dirty, fp`fptr, fp.buf
    modifies fp.fs`disk, fp.fs`wflag, fp.fs`winsect, fp.fs`ioErrors, fp.fs.win
    ensures fp.Shape() && fp.Content() == old(fp.Content())
    ensures fp.Spares()
    ensures res == FrOk || (res == FrDiskErr && fp.fs.ioErrors > old(fp.fs.ioErrors))
    ensures res == FrOk ==> fp.Ready() && fp.Cursor() && 0 < |data| <= btr && fp.fptr == old(fp.fptr) + |data|
    ensures res == FrOk ==> data == fp.Content()[old(fp.fptr)..fp.fptr]
    ensures res != FrOk ==> fp.fptr == old(fp.fptr) && |data| <= DirectPart(fp.fs, fp.fptr, btr) <= btr
  {
    hide FatFs.Valid, FatFs.View, Fat, Bytes, Quot, Rem, Nth, Off, SectorCount, SectorAt, IsChain, Stored, Placed, OthersKept, Snap, Fil.Content, Fil.Caches, Fil.WindowClear, Fil.Store, DirectPart;
    Parts(fp);
    DirectPartFits(fp.fs, fp.fptr, btr);
    data := [];
    ghost var s0 := Snap(fp.fs);
    NothingChanged(fp.fs, fp.chain, s0);
    ghost var j := Quot(fp.fptr, fp.fs.ss);
    if Rem(fp.fptr, fp.fs.ss) == 0 {
      res := EnterToRead(fp);
      ghost var s1 := Snap(fp.fs);
      if res != FrOk { return; }
      CurrentSector(fp, j);
      var csect := Off(fp.fs, Quot(fp.fptr, fp.fs.ss));
      var sect := Clst2Sect(fp.fs, fp.clust);
      if sect == 0 { res := FrIntErr; return; }
      sect := sect + csect;
      var cc := Quot(btr, fp.fs.ss);
      if cc > 0 {
        var ok;
        ok, data := ReadWhole(fp, sect, csect, btr);
        OthersTrans(fp.fs, fp.chain, fp.chain, fp.chain, s0, s1, Snap(fp.fs));
        res := if ok then FrOk else FrDiskErr;
        return;
      }
      var ok := Rebuffer(fp, sect, j);
      OthersTrans(fp.fs, fp.chain, fp.chain, fp.chain, s0, s1, Snap(fp.fs));
      if !ok { return FrDiskErr, []; }
    } else {
      MidSector(fp.fs, fp.fptr);
      BufferHolds(fp);
    }
    data := ReadPart(fp, btr);
    res := FrOk;
  }

  method ReadWhole(fp: Fil, sect: nat, csect: nat, btr: nat) returns (ok: bool, data: seq<byte>)
    requires fp.Ready() && fp.fptr + btr <= fp.objsize && Rem(fp.fptr, fp.fs.ss) == 0 && Quot(btr, fp.fs.ss) > 0
    requires var j := Quot(fp.fptr, fp.fs.ss);
             && fp.fs.csize > 0 && Nth(fp.fs, j) < |fp.chain| && fp.clust == fp.chain[Nth(fp.fs, j)]
             && j < SectorCount(fp.fs, fp.chain) && csect == Off(fp.fs, j) && sect == SectorAt(fp.fs, fp.chain, j)
    modifies fp`fptr, fp.fs`ioErrors
    ensures fp.Shape() && fp.Content() == old(fp.Content()) && fp.Spares() && (ok || fp.fs.ioErrors > old(fp.fs.ioErrors))
    ensures ok ==> fp.Ready() && fp.Cursor() && 0 < |data| <= btr && fp.fptr == old(fp.fptr) + |data|
    ensures ok ==> data == fp.Content()[old(fp.fptr)..fp.fptr]
    ensures !ok ==> fp.fptr == old(fp.fptr) && |data| == DirectPart(fp.fs, fp.fptr, btr)
  {
    hide FatFs.Valid, FatFs.View, Fat, Bytes, Quot, Rem, Nth, Off, SectorCount, SectorAt, IsChain, Stored, Placed, OthersKept, Snap, Fil.Content, Fil.Caches, Fil.WindowClear, Fil.Store;
    Parts(fp);
    var cc := Quot(btr, fp.fs.ss);
    ByteAddress(btr, 0, fp.fs.ss);
    InChain(fp.fs, fp.chain, Quot(fp.fptr, fp.fs.ss));
    if csect + cc > fp.fs.csize { cc := fp.fs.csize - csect; }
    BytesLe(cc, Quot(btr, fp.fs.ss), fp.fs.ss);
    StepSectors(fp.fs, fp.fptr, cc);
    ok, data := ReadDirect(fp, sect, cc);
    if ok { fp.fptr := fp.fptr + Bytes(cc, fp.fs.ss); }
  }

  method ReadPart(fp: Fil, btr: nat) returns (data: seq<byte>)
    requires fp.Ready() && 0 < btr && fp.fptr + btr <= fp.objsize && Rem(fp.fptr, fp.fs.ss) < fp.fs.ss
    requires fp.sect != 0 && fp.sectIdx == Quot(fp.fptr, fp.fs.ss) && fp.sect < |fp.fs.disk| && fp.buf[..] == fp.Store()[fp.sect]
    requires var j := Quot(fp.fptr, fp.fs.ss);
             fp.fs.csize > 0 && Nth(fp.fs, j) < |fp.chain| && fp.clust == fp.chain[Nth(fp.fs, j)]
    modifies fp`fptr
    ensures fp.Ready() && fp.Cursor() && fp.Content() == old(fp.Content())
    ensures 0 < |data| <= btr && fp.fptr == old(fp.fptr) + |data|
    ensures data == fp.Content()[old(fp.fptr)..fp.fptr]
  {
    hide FatFs.Valid, FatFs.View, Fat, Bytes, Quot, Rem, Nth, Off, SectorCount, SectorAt, IsChain, Stored, OthersKept, Snap, Fil.Content, Fil.Caches, Fil.WindowClear, Fil.Store;
    Parts(fp);
    var o := Rem(fp.fptr, fp.fs.ss);
    var rcnt := fp.fs.ss - o;
    if rcnt > btr { rcnt := btr; }
    data := fp.buf[o..o + rcnt];
    assert data == fp.buf[..][o..o + rcnt];
    StoredWithin(fp.fs, fp.Store(), fp.chain, fp.objsize, fp.fptr, rcnt);
    StepWithin(fp.fs, fp.fptr, rcnt);
    fp.fptr := fp.fptr + rcnt;
  }

  /** f_read: the bytes delivered are the contents from the file position on, up
      to the requested number or the end of the file. */
  method Read(fp: Fil, rbuff: array<byte>, btr: nat) returns (res: FResult, br: nat)
    requires fp.Valid() && btr <= rbuff.Length && rbuff != fp.buf && rbuff != fp.fs.win
    modifies fp`clust, fp`sect, fp`sectIdx, fp`dirty, fp`fptr, fp`err, fp.buf, rbuff
    modifies fp.fs`disk, fp.fs`wflag, fp.fs`winsect, fp.fs`ioErrors, fp.fs.win
    ensures fp.Valid() && fp.Content() == old(fp.Content())
    ensures fp.Spares()
    ensures br <= btr && (old(fp.err) != FrOk || !fp.canRead || res == FrOk ==> rbuff[br..] == old(rbuff[br..]))
    ensures old(fp.err) != FrOk ==> res == old(fp.err)
    ensures old(fp.err) == FrOk && !fp.canRead ==> res == FrDenied
    ensures old(fp.err) != FrOk || !fp.canRead ==> br == 0 && unchanged(fp, fp.buf, fp.fs, fp.fs.win)
    ensures old(fp.err) == FrOk && fp.canRead ==>
              && res == fp.err && (res == FrOk || (res == FrDiskErr && fp.fs.ioErrors > old(fp.fs.ioErrors)))
              && old(fp.fptr) + br == fp.fptr <= fp.objsize
              && rbuff[..br] == old(fp.Content())[old(fp.fptr)..fp.fptr]
              && (res == FrOk ==> br == btr || fp.fptr == fp.objsize)
    ensures old(fp.err) == FrOk && fp.canRead && res == FrDiskErr ==>
              var n := if btr > fp.objsize - old(fp.fptr) then fp.objsize - old(fp.fptr) else btr;
              var spoilt := br + DirectPart(fp.fs, fp.fptr, n - br);
              br <= spoilt <= n && rbuff[spoilt..] == old(rbuff[spoilt..])
  {
    hide FatFs.Valid, FatFs.View, Fat, Bytes, Quot, Rem, Nth, Off, SectorCount, SectorAt, IsChain, Stored, Placed, OthersKept, Snap, Fil.Content, Fil.Caches, Fil.WindowClear, Fil.Store, Fil.Linked, Landed, DirectPart;
    NothingChanged(fp.fs, fp.chain, Snap(fp.fs));
    br := 0;
    res := fp.err;
    if res != FrOk { return; }
    if !fp.canRead { return FrDenied, 0; }
    var remain := fp.objsize - fp.fptr;
    ghost var at, c, buff0 := fp.fptr, fp.Content(), rbuff[..];
    res, br := ReadAll(fp, rbuff, if btr > remain then remain else btr);
    LandedParts(c, at, br, buff0, rbuff[..], if res == FrOk then 0 else DirectPart(fp.fs, fp.fptr, (if btr > remain then remain else btr) - br));
    fp.err := res;
  }

  /** The loop of f_read. */
  method ReadAll(fp: Fil, rbuff: array<byte>, n: nat) returns (res: FResult, br: nat)
    requires fp.Ready() && fp.Cursor() && n <= rbuff.Length && rbuff != fp.buf && rbuff != fp.fs.win && fp.fptr + n <= fp.objsize
    modifies fp`clust, fp`sect, fp`sectIdx, fp`dirty, fp`fptr, fp.buf, rbuff
    modifies fp.fs`disk, fp.fs`wflag, fp.fs`winsect, fp.fs`ioErrors, fp.fs.win
    ensures fp.Shape() && fp.Content() == old(fp.Content())
    ensures br <= n && fp.fptr == old(fp.fptr) + br
    ensures Landed(old(fp.Content()), old(fp.fptr), br, old(rbuff[..]), rbuff[..], if res == FrOk then 0 else DirectPart(fp.fs, fp.fptr, n - br))
    ensures br + DirectPart(fp.fs, fp.fptr, n - br) <= n
    ensures fp.Spares()
    ensures res == FrOk || (res == FrDiskErr && fp.fs.ioErrors > old(fp.fs.ioErrors))
    ensures res == FrOk ==> fp.Ready() && fp.Cursor() && br == n
  {
    hide FatFs.Valid, FatFs.View, Fat, Bytes, Quot, Rem, Nth, Off, SectorCount, SectorAt, IsChain, Stored, Placed, OthersKept, Snap, Landed, DirectPart, Fil.Content, Fil.Caches, Fil.WindowClear, Fil.Store, Fil.Linked, Fil.Cursor;
    NoneDelivered(fp.Content(), fp.fptr, rbuff[..]);
    res, br := FrOk, 0;
    ghost var at, c, buff0 := fp.fptr, fp.Content(), rbuff[..];
    ghost var s0 := Snap(fp.fs);
    NothingChanged(fp.fs, fp.chain, s0);
    while br < n
      invariant fp.Ready() && fp.Cursor() && res == FrOk && fp.Content() == c
      invariant br <= n && fp.fptr == at + br && fp.chain == old(fp.chain)
      invariant OthersKept(fp.fs, fp.chain, fp.chain, s0, Snap(fp.fs)) && fp.fs.ioErrors >= old(fp.fs.ioErrors)
      invariant Landed(c, at, br, buff0, rbuff[..], 0)
    {
      var data;
      ghost var s1 := Snap(fp.fs);
      res, data := ReadSome(fp, n - br);
      OthersTrans(fp.fs, fp.chain, fp.chain, fp.chain, s0, s1, Snap(fp.fs));
      Deliver(c, at, br, data, buff0, rbuff[..], if res == FrOk then |data| else DirectPart(fp.fs, fp.fptr, n - br));
      CopyInto(rbuff, br, data);
      if res != FrOk { return; }
      br := br + |data|;
    }
    Layout(fp.fs);
    DirectPartFits(fp.fs, fp.fptr, n - br);
  }

  /** buff has become buff' by the delivery of n bytes of c from at on to its start;
      the stray bytes behind them may have any value. */
  ghost predicate Landed(c: seq<byte>, at: nat, n: nat, buff: seq<byte>, buff': seq<byte>, stray: nat) {
    && at + n <= |c| && n + stray <= |buff| == |buff'|
    && buff'[..n] == c[at..at + n] && buff'[n + stray..] == buff[n + stray..]
  }

  lemma LandedParts(c: seq<byte>, at: nat, n: nat, buff: seq<byte>, buff': seq<byte>, stray: nat)
    requires Landed(c, at, n, buff, buff', stray)
    ensures at + n <= |c| && n + stray <= |buff| == |buff'|
    ensures buff'[..n] == c[at..at + n] && buff'[n + stray..] == buff[n + stray..]
  {
  }

  lemma NoneDelivered(c: seq<byte>, at: nat, buff: seq<byte>)
    requires at <= |c|
    ensures Landed(c, at, 0, buff, buff, 0)
  {
  }

  /** The next bytes arrive, good ones or up to stray bytes of any value. */
  lemma Deliver(c: seq<byte>, at: nat, br: nat, data: seq<byte>, buff: seq<byte>, now: seq<byte>, stray: nat)
    requires Landed(c, at, br, buff, now, 0) && |data| <= stray && br + stray <= |buff|
    ensures br + |data| <= |now|
    ensures var then' := now[..br] + data + now[br + |data|..];
            && Landed(c, at, br, buff, then', stray)
            && (at + br + |data| <= |c| && data == c[at + br..at + br + |data|] ==> Landed(c, at, br + |data|, buff, then', 0))
  {
    var then' := now[..br] + data + now[br + |data|..];
    assert then'[..br] == now[..br];
    assert then'[br + stray..] == now[br..][stray..] == buff[br + stray..];
    if at + br + |data| <= |c| && data == c[at + br..at + br + |data|] {
      assert then'[..br + |data|] == c[at..at + br + |data|];
      assert then'[br + |data|..] == now[br..][|data|..] == buff[br + |data|..];
    }
  }

  /** Raise the file size within the allocated chain. */
  method Extend(fp: Fil, size: nat)
    requires fp.Ready() && size <= Bytes(SectorCount(fp.fs, fp.chain), fp.fs.ss) && size <= 0xFFFF_FFFF
    modifies fp`objsize, fp`modified
    ensures fp.Ready() && fp.objsize == Larger(old(fp.objsize), size) && old(fp.Content()) <= fp.Content()
  {
    hide FatFs.Valid, FatFs.View, Fat, Bytes, SectorCount, SectorAt, IsChain, Flat, Fil.Caches, Fil.Linked;
    Parts(fp);
    if size > fp.objsize {
      fp.objsize := size;
      fp.modified := true;
    }
  }

  /** The seek stands at the start of the k-th cluster. */
  ghost predicate AtCluster(fp: Fil, k: nat)
    reads fp, fp.buf, fp.fs`disk, fp.fs`winsect, fp.fs`wflag, fp.fs.win
  {
    && fp.Ready() && k < |fp.chain| && fp.clust == fp.chain[k] && fp.fptr == ByteStart(fp.fs, k)
  }

  lemma NthInRange(fp: Fil, k: nat)
    requires fp.Shape() && k < |fp.chain|
    ensures 2 <= fp.chain[k] < fp.fs.nFatent
  {
  }

  /** One cluster forward: stretching the chain in write mode, following it else. */
  method SeekNext(fp: Fil, ghost k: nat) returns (res: FResult, full: bool)
    requires AtCluster(fp, k) && fp.fptr + Bytes(fp.fs.csize, fp.fs.ss) <= 0xFFFF_FFFF
    requires !fp.canWrite ==> fp.fptr + Bytes(fp.fs.csize, fp.fs.ss) < fp.objsize
    modifies fp`clust, fp`sclust, fp`chain, fp`fptr, fp`objsize, fp`modified
    modifies fp.fs`disk, fp.fs`wflag, fp.fs`winsect, fp.fs`ioErrors, fp.fs`lastClst, fp.fs`freeClst, fp.fs.win
    ensures fp.Shape() && old(fp.Content()) <= fp.Content() && old(fp.chain) <= fp.chain
    ensures fp.Spares()
    ensures res == FrOk || (res == FrDiskErr && fp.fs.ioErrors > old(fp.fs.ioErrors)) || (res == FrIntErr && fp.Stuck())
    ensures fp.fptr == old(fp.fptr) + Bytes(fp.fs.csize, fp.fs.ss)
    ensures fp.objsize == Larger(old(fp.objsize), fp.fptr)
    ensures res == FrOk ==> fp.Ready()
    ensures res == FrOk && !full ==> AtCluster(fp, k + 1)
    ensures full ==> res == FrOk && k + 1 == |fp.chain| && fp.chain == old(fp.chain) && fp.clust == fp.chain[k] && VolumeFull(fp.fs)
  {
    hide FatFs.Valid, FatFs.View, Fat, Bytes, SectorCount, SectorAt, Fil.Content, Fil.Caches, Fil.Stuck, VolumeFull, OthersKept, Snap, IsChain, Placed, Fil.Linked, Fil.WindowClear, Fil.Store, Stored, ByteStart;
    Parts(fp);
    full := false;
    ClusterStep(fp.fs, k);
    var bcs := Bytes(fp.fs.csize, fp.fs.ss);
    ChainEnd(fp.fs, fp.chain, k);
    var clst;
    if fp.canWrite {
      Extend(fp, fp.fptr + bcs);
      fp.fptr := fp.fptr + bcs;
      clst := Stretch(fp, fp.clust, k + 1);
      if clst == 0 { return FrOk, true; }
    } else {
      fp.fptr := fp.fptr + bcs;
      clst := Follow(fp, fp.clust, k);
    }
    if clst == DISK_ERROR { return FrDiskErr, false; }
    if clst <= 1 || clst >= fp.fs.nFatent { return FrIntErr, false; }
    fp.clust := clst;
    res := FrOk;
  }

  /** Cluster k of a chain ends within it; past its last cluster nothing is held. */
  lemma ChainEnd(fs: FatFs, chain: seq<nat>, k: nat)
    requires SectorSize(fs.ss) && k < |chain|
    ensures ByteStart(fs, k + 1) <= Bytes(SectorCount(fs, chain), fs.ss)
    ensures k + 1 == |chain| ==> ByteStart(fs, k + 1) == Bytes(SectorCount(fs, chain), fs.ss)
  {
    MulLe(fs.csize, k + 1, |chain|);
    assert fs.csize * (k + 1) == (k + 1) * fs.csize && fs.csize * |chain| == |chain| * fs.csize;
    BytesLe((k + 1) * fs.csize, |chain| * fs.csize, fs.ss);
  }

  /** Start of a normal seek: from the current cluster when the target is in it
      or behind it, else from the start of the chain, creating one if needed. */
  method SeekStart(fp: Fil, ofs: nat) returns (res: FResult, left: nat, ghost k: nat)
    requires fp.Ready() && fp.Cursor() && 0 < ofs <= 0xFFFF_FFFF && (!fp.canWrite ==> ofs <= fp.objsize)
    modifies fp`clust, fp`sclust, fp`chain, fp`fptr
    modifies fp.fs`disk, fp.fs`wflag, fp.fs`winsect, fp.fs`ioErrors, fp.fs`lastClst, fp.fs`freeClst, fp.fs.win
    ensures fp.Shape() && fp.Content() == old(fp.Content()) && old(fp.chain) <= fp.chain
    ensures fp.Spares()
    ensures res == FrOk || (res == FrDiskErr && fp.fs.ioErrors > old(fp.fs.ioErrors)) || (res == FrIntErr && fp.Stuck())
    ensures res == FrOk ==> fp.Ready() && fp.fptr + left <= ofs
    ensures res == FrOk && fp.sclust != 0 ==> AtCluster(fp, k) && 0 < left && fp.fptr + left == ofs
    ensures res == FrOk && fp.sclust == 0 ==> VolumeFull(fp.fs) && fp.fptr == 0 && fp.objsize == 0
  {
    hide FatFs.Valid, FatFs.View, Fat, Bytes, Quot, Rem, Nth, Off, SectorCount, SectorAt, Fil.Content, Fil.Caches, Fil.Stuck, VolumeFull, OthersKept, Snap, IsChain, ByteStart;
    Parts(fp);
    EmptyChain(fp.fs);
    NothingChanged(fp.fs, fp.chain, Snap(fp.fs));
    res, left, k := FrOk, ofs, 0;
    ClusterStep(fp.fs, 0);
    var ifptr := fp.fptr;
    fp.fptr := 0;
    if ifptr > 0 && Nth(fp.fs, Quot(ofs - 1, fp.fs.ss)) >= Nth(fp.fs, Quot(ifptr - 1, fp.fs.ss)) {
      k := Nth(fp.fs, Quot(ifptr - 1, fp.fs.ss));
      ClusterOfByte(fp.fs, ifptr - 1);
      ClusterOfByte(fp.fs, ofs - 1);
      StartsOrdered(fp.fs, k, Nth(fp.fs, Quot(ofs - 1, fp.fs.ss)));
      fp.fptr := ByteStart(fp.fs, Nth(fp.fs, Quot(ifptr - 1, fp.fs.ss)));
      left := ofs - fp.fptr;
    } else {
      var clst := fp.sclust;
      if clst == 0 {
        clst := Stretch(fp, 0, 0);
        if clst == 1 { return FrIntErr, left, k; }
        if clst == DISK_ERROR { return FrDiskErr, left, k; }
      }
      fp.clust := clst;
    }
  }

  lemma StartsOrdered(fs: FatFs, a: nat, b: nat)
    requires a <= b
    ensures ByteStart(fs, a) <= ByteStart(fs, b)
  {
    MulLe(fs.csize, a, b);
    assert fs.csize * a == a * fs.csize && fs.csize * b == b * fs.csize;
    BytesLe(a * fs.csize, b * fs.csize, fs.ss);
  }

  /** The cluster loop of a seek. */
  method SeekRun(fp: Fil, togo: nat, ghost k0: nat) returns (res: FResult, left: nat, ghost k: nat)
    requires AtCluster(fp, k0) && 0 < togo && fp.fptr + togo <= 0xFFFF_FFFF && (!fp.canWrite ==> fp.fptr + togo <= fp.objsize)
    modifies fp`clust, fp`sclust, fp`chain, fp`fptr, fp`objsize, fp`modified
    modifies fp.fs`disk, fp.fs`wflag, fp.fs`winsect, fp.fs`ioErrors, fp.fs`lastClst, fp.fs`freeClst, fp.fs.win
    ensures fp.Shape() && old(fp.Content()) <= fp.Content() && old(fp.chain) <= fp.chain
    ensures fp.Spares()
    ensures res == FrOk || (res == FrDiskErr && fp.fs.ioErrors > old(fp.fs.ioErrors)) || (res == FrIntErr && fp.Stuck())
    ensures res == FrOk ==> fp.Ready() && k < |fp.chain| && fp.clust == fp.chain[k] && left <= Bytes(fp.fs.csize, fp.fs.ss)
    ensures res == FrOk && left > 0 ==> fp.fptr == ByteStart(fp.fs, k) && fp.fptr + left == old(fp.fptr) + togo
                                        && fp.objsize == Larger(old(fp.objsize), fp.fptr)
    ensures res == FrOk && left == 0 ==> fp.fptr == ByteStart(fp.fs, k + 1) && old(fp.fptr) < fp.fptr < old(fp.fptr) + togo
                                         && fp.fptr >= old(fp.objsize) && fp.objsize == fp.fptr && VolumeFull(fp.fs)
  {
    hide FatFs.Valid, FatFs.View, Fat, Bytes, Quot, Rem, Nth, Off, SectorCount, SectorAt, Fil.Content, Fil.Caches, Fil.Linked, Fil.Stuck, VolumeFull, OthersKept, Snap, IsChain, ByteStart, Placed;
    Parts(fp);
    res, left, k := FrOk, togo, k0;
    ghost var c, size, goal := fp.Content(), fp.objsize, fp.fptr + togo;
    var bcs := Bytes(fp.fs.csize, fp.fs.ss);
    ClusterStep(fp.fs, k);
    ghost var s0 := Snap(fp.fs);
    NothingChanged(fp.fs, fp.chain, s0);
    while left > bcs
      invariant AtCluster(fp, k) && 0 < left && fp.fptr + left == goal && res == FrOk
      invariant c <= fp.Content() && old(fp.chain) <= fp.chain && old(fp.fptr) <= fp.fptr
      invariant fp.objsize == Larger(size, fp.fptr)
      invariant OthersKept(fp.fs, old(fp.chain), fp.chain, s0, Snap(fp.fs)) && fp.fs.ioErrors >= old(fp.fs.ioErrors)
      decreases left
    {
      var full;
      ghost var before, size1 := fp.Content(), fp.objsize;
      ChainEnd(fp.fs, fp.chain, k);
      ClusterStep(fp.fs, k);
      ghost var ch, s1 := fp.chain, Snap(fp.fs);
      res, full := SeekNext(fp, k);
      OthersTrans(fp.fs, old(fp.chain), ch, fp.chain, s0, s1, Snap(fp.fs));
      if res != FrOk { return; }
      left := left - bcs;
      if full {
        Parts(fp);
        left := 0;
        return;
      }
      k := k + 1;
    }
  }

  /** End of a seek: move within the last cluster and buffer a partial sector. */
  method SeekEnd(fp: Fil, left: nat, ghost k: nat) returns (res: FResult)
    requires fp.Ready() && k < |fp.chain| && fp.clust == fp.chain[k] && left <= Bytes(fp.fs.csize, fp.fs.ss)
    requires fp.fptr == if left > 0 then ByteStart(fp.fs, k) else ByteStart(fp.fs, k + 1)
    requires fp.fptr + left <= 0xFFFF_FFFF
    modifies fp`fptr, fp`objsize, fp`modified, fp`sect, fp`sectIdx, fp`dirty, fp.buf, fp.fs`disk, fp.fs`ioErrors
    ensures fp.Shape() && old(fp.Content()) <= fp.Content() && fp.chain == old(fp.chain)
    ensures fp.fptr == old(fp.fptr) + left && fp.objsize == Larger(old(fp.objsize), fp.fptr)
    ensures fp.Spares()
    ensures old(VolumeFull(fp.fs)) ==> VolumeFull(fp.fs)
    ensures res == FrOk || (res == FrDiskErr && fp.fs.ioErrors > old(fp.fs.ioErrors))
    ensures res == FrOk ==> fp.Ready() && fp.Cursor()
  {
    hide FatFs.Valid, FatFs.View, Fat, Bytes, Quot, Rem, Nth, Off, SectorCount, SectorAt, Fil.Content, Fil.Caches, Fil.Linked, OthersKept, Snap, IsChain, ByteStart, Placed, Fil.Store;
    Parts(fp);
    res := FrOk;
    EndOfSeek(fp.fs, fp.chain, k, left, fp.fptr);
    StartOfSector(fp.fs.ss);
    NothingChanged(fp.fs, fp.chain, Snap(fp.fs));
    Extend(fp, fp.fptr + left);
    fp.fptr := fp.fptr + left;
    var nsect := 0;
    if Rem(left, fp.fs.ss) != 0 {
      ByteOfCluster(fp.fs, k, left);
      CurrentSector(fp, Quot(fp.fptr, fp.fs.ss));
      nsect := Clst2Sect(fp.fs, fp.clust);
      if nsect == 0 { return FrIntErr; }
      nsect := nsect + Quot(left, fp.fs.ss);
    }
    if Rem(fp.fptr, fp.fs.ss) != 0 {
      var ok := Rebuffer(fp, nsect, Quot(fp.fptr, fp.fs.ss));
      if !ok { return FrDiskErr; }
    }
  }

  lemma EndOfSeek(fs: FatFs, chain: seq<nat>, k: nat, left: nat, at: nat)
    requires SectorSize(fs.ss) && fs.csize > 0 && k < |chain| && left <= Bytes(fs.csize, fs.ss)
    requires at == if left > 0 then ByteStart(fs, k) else ByteStart(fs, k + 1)
    ensures at + left > 0 && at + left <= Bytes(SectorCount(fs, chain), fs.ss)
    ensures Nth(fs, Quot(at + left - 1, fs.ss)) == k
    ensures Rem(at + left, fs.ss) == Rem(left, fs.ss)
    ensures Rem(left, fs.ss) != 0 ==> left < Bytes(fs.csize, fs.ss)
  {
    hide Quot, Rem, Nth, Off, SectorCount, ByteStart;
    var bcs := Bytes(fs.csize, fs.ss);
    ClusterStep(fs, k);
    ClusterStep(fs, k + 1);
    ChainEnd(fs, chain, k);
    StartOfSector(fs.ss);
    UniqueAddress(bcs, fs.csize, 0, fs.ss);
    if left == 0 || left == bcs {
      ByteOfCluster(fs, k, bcs - 1);
      ByteOfCluster(fs, k + 1, 0);
    } else {
      ByteOfCluster(fs, k, left - 1);
      ByteOfCluster(fs, k, left);
    }
  }

  /** f_lseek without a link map.  Within the file the position becomes ofs and
      nothing else changes; past its end a writable file grows up to ofs, or as
      far as the volume allows, and keeps its old bytes. */
  method Lseek(fp: Fil, ofs: nat) returns (res: FResult)
    requires fp.Valid()
    modifies fp`clust, fp`sclust, fp`chain, fp`sect, fp`sectIdx, fp`dirty, fp`fptr, fp`objsize, fp`err, fp`modified, fp.buf
    modifies fp.fs`disk, fp.fs`wflag, fp.fs`winsect, fp.fs`ioErrors, fp.fs`lastClst, fp.fs`freeClst, fp.fs.win
    ensures fp.Valid() && old(fp.Content()) <= fp.Content() && old(fp.chain) <= fp.chain
    ensures fp.Spares()
    ensures old(fp.err) != FrOk ==> res == old(fp.err) && unchanged(fp, fp.buf, fp.fs, fp.fs.win)
    ensures old(fp.err) == FrOk ==> res == fp.err && (res == FrOk || (res == FrDiskErr && fp.fs.ioErrors > old(fp.fs.ioErrors)) || (res == FrIntErr && fp.Stuck()))
    ensures old(fp.err) == FrOk && res == FrOk ==>
              var o := if ofs > 0xFFFF_FFFF then 0xFFFF_FFFF else ofs;
              var goal := if o > old(fp.objsize) && !fp.canWrite then old(fp.objsize) else o;
              && fp.objsize == Larger(old(fp.objsize), fp.fptr)
              && (fp.fptr == goal || (old(fp.objsize) <= fp.fptr < goal && VolumeFull(fp.fs)))
  {
    hide FatFs.Valid, FatFs.View, Fat, Bytes, Quot, Rem, Nth, Off, SectorCount, SectorAt, Fil.Content, Fil.Caches, Fil.Linked, Fil.Stuck, VolumeFull, OthersKept, Snap, IsChain, ByteStart, Placed, Fil.WindowClear, Fil.Store;
    ghost var s0 := Snap(fp.fs);
    NothingChanged(fp.fs, fp.chain, s0);
    res := fp.err;
    if res != FrOk { return; }
    var goal := Target(fp, fp.objsize, ofs);
    StartOfSector(fp.fs.ss);
    if goal == 0 {
      fp.fptr := 0;
      return;
    }
    ghost var size := fp.objsize;
    var left;
    ghost var k;
    res, left, k := SeekStart(fp, goal);
    if res == FrOk && fp.sclust != 0 {
      ghost var ch1, s1 := fp.chain, Snap(fp.fs);
      res, left, k := SeekRun(fp, left, k);
      OthersTrans(fp.fs, old(fp.chain), ch1, fp.chain, s0, s1, Snap(fp.fs));
      if res == FrOk {
        ghost var s2 := Snap(fp.fs);
        res := SeekEnd(fp, left, k);
        OthersTrans(fp.fs, old(fp.chain), fp.chain, fp.chain, s0, s2, Snap(fp.fs));
      }
    }
    fp.err := res;
  }

  lemma EmptyChain(fs: FatFs)
    ensures Bytes(SectorCount(fs, []), fs.ss) == 0
  {
  }

  /** Where a seek to ofs aims: offsets are clipped at 4 GiB - 1, and at the file
      size unless the file may grow. */
  function Target(fp: Fil, size: nat, ofs: nat): nat {
    var o := if ofs >= 0x1_0000_0000 then 0xFFFF_FFFF else ofs;
    if o > size && !fp.canWrite then size else o
  }
}
