/** Two open files on one volume, each with its own sector buffer. */
module TwoFiles {
  import opened FatTable
  import opened Volume
  import opened FatAccess
  import opened FatAlloc
  import opened FileBytes
  import opened FileIo
  import opened FileClient

  datatype Pair = Pair(fp: Fil, gp: Fil)

  /** The sectors of a file that shares no cluster with the chain. */
  lemma ForeignSector(fs: FatFs, chain: seq<nat>, other: seq<nat>, n: nat, j: nat)
    requires Placed(fs, other, n) && j < SectorCount(fs, other) && Apart(chain, other)
    ensures Foreign(fs, chain, SectorAt(fs, other, j))
  {
    hide SectorCount, Nth, Off;
    InChain(fs, other, j);
    var s := SectorAt(fs, other, j);
    forall c | c in chain && c >= 2
      ensures !(ClusterSector(fs, c) <= s < ClusterSector(fs, c) + fs.csize)
    {
      if ClusterSector(fs, c) <= s < ClusterSector(fs, c) + fs.csize {
        ClustersApart(fs, c, s - ClusterSector(fs, c), other[Nth(fs, j)], Off(fs, j));
      }
    }
  }

  /** A chain that has grown by free clusters still shares none with another. */
  lemma StillApart(fs: FatFs, chain0: seq<nat>, chain: seq<nat>, other: seq<nat>, a: Snapshot, b: Snapshot)
    requires OthersKept(fs, chain0, chain, a, b) && Apart(chain0, other) && (other != [] ==> IsChain(a.fat, other))
    ensures Apart(chain, other) && (other != [] ==> IsChain(b.fat, other))
  {
    hide Foreign, UnusedKept, IsChain;
    forall k | k in chain && k in other
      ensures false
    {
      ChainInUse(a.fat, other, k);
    }
    if other != [] {
      forall k | k in other && k < |a.fat|
        ensures b.fat[k] == a.fat[k]
      {
        ChainInUse(a.fat, other, k);
      }
      ChainFrame(a.fat, b.fat, other);
    }
  }

  /** What an operation on another file leaves of the sectors of a file. */
  lemma SectorsStay(fs: FatFs, chain0: seq<nat>, chain: seq<nat>, other: seq<nat>, a: Snapshot, b: Snapshot, n: nat, j: nat)
    requires OthersKept(fs, chain0, chain, a, b) && Apart(chain, other) && Placed(fs, other, n) && |a.view| == n
    requires j < SectorCount(fs, other)
    ensures SectorAt(fs, other, j) < n && b.view[SectorAt(fs, other, j)] == a.view[SectorAt(fs, other, j)]
    ensures SectorAt(fs, other, j) != a.winsect ==> SectorAt(fs, other, j) != b.winsect
  {
    hide UnusedKept, SectorAt, SectorCount;
    ForeignSector(fs, chain, other, n, j);
    SectorInData(fs, other, n, j);
  }

  /** An operation on one file leaves another file as it was: its invariant, its
      contents with all that its dirty buffer holds, and its distance. */
  twostate lemma Bystander(two: Pair)
    requires two.fp.fs == two.gp.fs && unchanged(two.gp, two.gp.buf)
    requires old(two.fp.Shape()) && two.fp.Shape() && two.fp.Spares()
    requires old(two.gp.Valid()) && two.gp.err == FrOk && Apart(old(two.fp.chain), two.gp.chain)
    ensures two.gp.Valid() && two.gp.Content() == old(two.gp.Content()) && Apart(two.fp.chain, two.gp.chain)
  {
    ghost var fp, gp := two.fp, two.gp;
    hide FatFs.Valid, FatFs.View, Fat, Bytes, Quot, Rem, Nth, Off, SectorCount, SectorAt, IsChain, Stored, OthersKept, Fil.Cursor;
    ghost var fs, a, b, n := fp.fs, old(Snap(fp.fs)), Snap(fp.fs), |fp.fs.disk|;
    SameSize(fs, old(fp.chain), fp.chain, a, b);
    StillApart(fs, old(fp.chain), fp.chain, gp.chain, a, b);
    forall j: nat | j < SectorCount(fs, gp.chain)
      ensures SectorAt(fs, gp.chain, j) < n && b.view[SectorAt(fs, gp.chain, j)] == a.view[SectorAt(fs, gp.chain, j)]
      ensures SectorAt(fs, gp.chain, j) != b.winsect
    {
      SectorsStay(fs, old(fp.chain), fp.chain, gp.chain, a, b, n, j);
    }
    SectorsSizedView(fs);
    SameFileSectors(fs, old(gp.Store()), gp.Store(), gp.chain);
    SameStored(fs, old(gp.Store()), gp.Store(), gp.chain, gp.objsize);
  }

  lemma SameSize(fs: FatFs, chain0: seq<nat>, chain: seq<nat>, a: Snapshot, b: Snapshot)
    requires OthersKept(fs, chain0, chain, a, b)
    ensures |b.view| == |a.view| && |b.fat| == |a.fat|
  {
  }

  lemma SectorsSizedView(fs: FatFs)
    requires fs.Valid()
    ensures Sized(fs, fs.View())
  {
    Layout(fs);
  }

  lemma SameStored(fs: FatFs, st: seq<seq<byte>>, st': seq<seq<byte>>, chain: seq<nat>, size: nat)
    requires Placed(fs, chain, |st|) && |st'| == |st| && Sized(fs, st) && Sized(fs, st') && size <= Bytes(SectorCount(fs, chain), fs.ss)
    requires FileSectors(fs, st', chain) == FileSectors(fs, st, chain)
    ensures Stored(fs, st', chain, size) == Stored(fs, st, chain, size)
  {
  }

  /** f_write to one of two open files: the other keeps its contents, however the
      call ends, and both stay valid. */
  method WriteBeside(fp: Fil, gp: Fil, data: seq<byte>) returns (res: FResult, bw: nat)
    requires fp != gp && fp.fs == gp.fs && fp.buf != gp.buf && Apart(fp.chain, gp.chain)
    requires fp.Valid() && fp.err == FrOk && fp.canWrite && |data| <= 0xFFFF_FFFF
    requires gp.Valid() && gp.err == FrOk
    modifies fp`clust, fp`sclust, fp`chain, fp`sect, fp`sectIdx, fp`dirty, fp`fptr, fp`objsize, fp`err, fp`modified, fp.buf
    modifies fp.fs`disk, fp.fs`wflag, fp.fs`winsect, fp.fs`ioErrors, fp.fs`lastClst, fp.fs`freeClst, fp.fs.win
    ensures fp.Valid() && bw <= |data| && gp.Valid() && Apart(fp.chain, gp.chain)
    ensures gp.Content() == old(gp.Content())
    ensures res == FrOk ==> fp.Content() == Overwrite(old(fp.Content()), old(fp.fptr), data[..bw])
  {
    hide Fil.Shape, Fil.Ready, Fil.Cursor, Fil.Content, Overwrite, HasReserved, FatFs.View, Fat, Stores, Reach, Apart, Snap, FileIo.OthersKept;
    Shaped(fp);
    Shaped(gp);
    res, bw := WriteCounted(fp, data);
    Shaped(fp);
    Bystander(Pair(fp, gp));
  }

  lemma Shaped(fp: Fil)
    requires fp.Valid()
    ensures fp.Shape() && fp.fs.Valid() && fp.buf != fp.fs.win
  {
  }
}
