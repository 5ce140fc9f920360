/** Seeking and reading by a cluster link map instead of the FAT. */
module FastSeek {
  import opened FatTable
  import opened Volume
  import opened FatAccess
  import opened FatAlloc
  import opened FileBytes
  import opened FileIo
  import L = LinkMap

  lemma OrderIsNth(fs: FatFs, p: nat)
    requires SectorSize(fs.ss) && fs.csize > 0
    ensures L.ClusterOrder(p, fs.ss, fs.csize) == Nth(fs, Quot(p, fs.ss))
  {
    SectorArithmetic(p, fs.ss);
    hide Quot;
  }

  lemma ClusterRange(fp: Fil, k: nat)
    requires fp.Shape() && k < |fp.chain|
    ensures 2 <= fp.chain[k] < DISK_ERROR
  {
    Layout(fp.fs);
    Parts(fp);
    hide FatFs.Valid;
  }

  /** clmt_clust agrees with the chain of the file at every byte within it. */
  method ClusterAt(fp: Fil, tbl: array<nat>, p: nat) returns (clst: nat)
    requires fp.Shape() && L.Maps(tbl[..], fp.chain) && p < Bytes(SectorCount(fp.fs, fp.chain), fp.fs.ss)
    ensures var k := Nth(fp.fs, Quot(p, fp.fs.ss)); fp.fs.csize > 0 && k < |fp.chain| && clst == fp.chain[k] && 2 <= clst < DISK_ERROR
  {
    Parts(fp);
    hide FatFs.Valid, FatFs.View, Bytes, Quot, Rem, Nth, Off, SectorCount, SectorAt, L.ClusterOrder, L.Maps, Placed;
    OrderIsNth(fp.fs, p);
    ByteAddress(p, SectorCount(fp.fs, fp.chain), fp.fs.ss);
    InChain(fp.fs, fp.chain, Quot(p, fp.fs.ss));
    clst := L.ClmtClust(tbl, p, fp.fs.ss, fp.fs.csize, fp.chain);
    ClusterRange(fp, Nth(fp.fs, Quot(p, fp.fs.ss)));
  }

  /** At a cluster boundary inside the file, the cluster that following the FAT would find. */
  method NextCluster(fp: Fil, tbl: array<nat>) returns (clst: nat)
    requires fp.Ready() && fp.Cursor() && Rem(fp.fptr, fp.fs.ss) == 0 && 0 < fp.fptr < fp.objsize && L.Maps(tbl[..], fp.chain)
    requires fp.fs.csize > 0 && Off(fp.fs, Quot(fp.fptr, fp.fs.ss)) == 0
    ensures var k := Nth(fp.fs, Quot(fp.fptr - 1, fp.fs.ss));
            k + 1 < |fp.chain| && fp.clust == fp.chain[k] && clst == fp.chain[k + 1]
  {
    Parts(fp);
    hide FatFs.Valid, FatFs.View, Fat, Bytes, Quot, Rem, Nth, Off, SectorCount, SectorAt, Fil.Caches, IsChain, L.Maps, Placed, Fil.WindowClear, Fil.Linked;
    BeforeBoundary(fp.fs, fp.fptr);
    clst := ClusterAt(fp, tbl, fp.fptr);
  }

  /** f_lseek with a link map: the position becomes the offset, clipped at the file
      size, without a look at the FAT, and nothing else changes. */
  method Lseek(fp: Fil, tbl: array<nat>, ofs: nat) returns (res: FResult)
    requires fp.Valid() && fp.err == FrOk && L.Maps(tbl[..], fp.chain)
    modifies fp`clust, fp`fptr, fp`sect, fp`sectIdx, fp`dirty, fp`err, fp.buf, fp.fs`disk, fp.fs`ioErrors
    ensures fp.Valid() && fp.Content() == old(fp.Content()) && res == fp.err && (res == FrOk || (res == FrDiskErr && fp.fs.ioErrors > old(fp.fs.ioErrors)))
    ensures fp.Spares()
    ensures fp.fptr == if ofs > fp.objsize then fp.objsize else ofs
  {
    hide FatFs.Valid, FatFs.View, Fat, Bytes, Quot, Rem, SectorCount, SectorAt, Fil.Content, Fil.Caches, Fil.Linked, FileIo.OthersKept, Snap, IsChain, Placed, Fil.WindowClear, Fil.Store, L.Maps;
    Parts(fp);
    NothingChanged(fp.fs, fp.chain, Snap(fp.fs));
    StartOfSector(fp.fs.ss);
    fp.fptr := if ofs > fp.objsize then fp.objsize else ofs;
    res := FrOk;
    if fp.fptr > 0 {
      res := Land(fp, tbl);
    }
    fp.err := res;
  }

  /** The cluster of the position, and the buffer for a position inside a sector. */
  method Land(fp: Fil, tbl: array<nat>) returns (res: FResult)
    requires fp.Ready() && 0 < fp.fptr <= fp.objsize && L.Maps(tbl[..], fp.chain)
    modifies fp`clust, fp`sect, fp`sectIdx, fp`dirty, fp.buf, fp.fs`disk, fp.fs`ioErrors
    ensures fp.Shape() && fp.Content() == old(fp.Content()) && (res == FrOk || (res == FrDiskErr && fp.fs.ioErrors > old(fp.fs.ioErrors)))
    ensures fp.Spares()
    ensures res == FrOk ==> fp.Ready() && fp.Cursor()
  {
    hide FatFs.Valid, FatFs.View, Fat, Bytes, Quot, Rem, Nth, Off, SectorCount, SectorAt, Fil.Content, Fil.Caches, Fil.Linked, FileIo.OthersKept, Snap, IsChain, Placed, Fil.WindowClear, Fil.Store, L.Maps;
    Parts(fp);
    NothingChanged(fp.fs, fp.chain, Snap(fp.fs));
    res := FrOk;
    fp.clust := ClusterAt(fp, tbl, fp.fptr - 1);
    var dsc := CurrentOf(fp);
    if Rem(fp.fptr, fp.fs.ss) != 0 {
      MidSector(fp.fs, fp.fptr);
      var ok := Rebuffer(fp, dsc, Quot(fp.fptr - 1, fp.fs.ss));
      if !ok { res := FrDiskErr; }
    }
  }

  /** The device sector of the byte before the position; the code's check for a
      cluster out of range cannot fail here. */
  method CurrentOf(fp: Fil) returns (dsc: nat)
    requires fp.Shape() && fp.fptr > 0 && fp.fs.csize > 0
    requires var k := Nth(fp.fs, Quot(fp.fptr - 1, fp.fs.ss)); k < |fp.chain| && fp.clust == fp.chain[k]
    ensures var j := Quot(fp.fptr - 1, fp.fs.ss); j < SectorCount(fp.fs, fp.chain) && dsc == SectorAt(fp.fs, fp.chain, j)
  {
    hide FatFs.Valid, FatFs.View, Fat, Bytes, Quot, Rem, Nth, Off, SectorCount, SectorAt, Placed;
    CurrentSector(fp, Quot(fp.fptr - 1, fp.fs.ss));
    dsc := Clst2Sect(fp.fs, fp.clust) + Off(fp.fs, Quot(fp.fptr - 1, fp.fs.ss));
  }
}
