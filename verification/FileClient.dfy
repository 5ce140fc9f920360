/** What a client sees of an open file: a flat byte sequence with a position. */
module FileClient {
  import opened FatTable
  import opened Volume
  import opened FatAlloc
  import opened FatAccess
  import opened FileBytes
  import opened FileIo

  lemma SamePrefix(a: seq<byte>, b: seq<byte>)
    requires a <= b && |a| == |b|
    ensures a == b
  {
  }

  lemma OverwriteBack(c: seq<byte>, at: nat, d: seq<byte>)
    requires at <= |c|
    ensures |Overwrite(c, at, d)| >= at + |d| && Overwrite(c, at, d)[at..at + |d|] == d
    ensures Overwrite(c, at, d)[..at] == c[..at]
    ensures forall i :: at + |d| <= i < |c| ==> i < |Overwrite(c, at, d)| && Overwrite(c, at, d)[i] == c[i]
  {
  }

  /* ---- Room for a file ---- */

  function Members(c: seq<nat>): set<nat> {
    set k | k in c
  }

  lemma {:induction false} MembersCount(c: seq<nat>)
    requires forall k, l :: 0 <= k < l < |c| ==> c[k] != c[l]
    ensures |Members(c)| == |c|
  {
    if c == [] {
      assert Members(c) == {};
    } else {
      var d := c[..|c| - 1];
      MembersCount(d);
      assert Members(c) == Members(d) + {c[|c| - 1]};
    }
  }

  /** The bytes that n clusters hold. */
  function Capacity(fs: FatFs, n: nat): nat {
    Bytes(n * fs.csize, fs.ss)
  }

  /** The clusters that a file has and may still get. */
  ghost function Reach(chain: seq<nat>, fat: seq<nat>): nat {
    |chain| + FreeCount(fat)
  }

  /** The clusters by which a chain grows are among those free before. */
  lemma GrownWasFree(fs: FatFs, chain0: seq<nat>, chain: seq<nat>, a: Snapshot, b: Snapshot, n: nat)
    requires OthersKept(fs, chain0, chain, a, b) && Placed(fs, chain, n) && |a.fat| == fs.nFatent
    ensures Members(chain) - Members(chain0) <= FreeSet(a.fat)
    ensures forall k, l :: 0 <= k < l < |chain| ==> chain[k] != chain[l]
  {
    hide Foreign, UnusedKept;
  }

  lemma NoneLeft(fs: FatFs, chain0: seq<nat>, chain: seq<nat>, a: Snapshot, b: Snapshot)
    requires OthersKept(fs, chain0, chain, a, b) && (chain0 != [] ==> IsChain(a.fat, chain0))
    requires a.errors == b.errors && Counts(a.free, a.fat) && (b.free == 0 || forall k :: 2 <= k < |b.fat| ==> b.fat[k] != 0)
    ensures FreeSet(a.fat) <= Members(chain) - Members(chain0)
  {
    hide Foreign, IsChain;
    NoneFree(b.fat);
    forall k | k in FreeSet(a.fat)
      ensures k in chain && k !in chain0
    {
      if k in chain0 {
        ChainInUse(a.fat, chain0, k);
      }
    }
  }

  lemma GrownCount(chain0: seq<nat>, chain: seq<nat>)
    requires chain0 <= chain && forall k, l :: 0 <= k < l < |chain| ==> chain[k] != chain[l]
    ensures |Members(chain) - Members(chain0)| == |chain| - |chain0|
  {
    MembersCount(chain);
    MembersCount(chain0);
    assert forall k :: k in chain0 ==> k in chain;
    assert Members(chain) == (Members(chain) - Members(chain0)) + Members(chain0);
  }

  /** A file grows by free clusters only, and when no cluster is left it has got
      all that were free. */
  lemma FilledUp(fs: FatFs, chain0: seq<nat>, chain: seq<nat>, a: Snapshot, b: Snapshot, n: nat)
    requires OthersKept(fs, chain0, chain, a, b) && chain0 <= chain && Placed(fs, chain, n) && |a.fat| == fs.nFatent
    requires chain0 != [] ==> IsChain(a.fat, chain0)
    ensures |chain| <= Reach(chain0, a.fat)
    ensures a.errors == b.errors && Counts(a.free, a.fat) && (b.free == 0 || forall k :: 2 <= k < |b.fat| ==> b.fat[k] != 0) ==>
              |chain| == Reach(chain0, a.fat)
  {
    hide OthersKept, Placed, IsChain, Members, Counts, FreeSet;
    GrownWasFree(fs, chain0, chain, a, b, n);
    GrownCount(chain0, chain);
    SmallerSet(Members(chain) - Members(chain0), FreeSet(a.fat));
    if a.errors == b.errors && Counts(a.free, a.fat) && (b.free == 0 || forall k :: 2 <= k < |b.fat| ==> b.fat[k] != 0) {
      NoneLeft(fs, chain0, chain, a, b);
      SmallerSet(FreeSet(a.fat), Members(chain) - Members(chain0));
    }
  }

  lemma SmallerSet(a: set<nat>, b: set<nat>)
    requires a <= b
    ensures |a| <= |b|
  {
    assert b == a + (b - a);
  }

  function Least(a: nat, b: nat): nat {
    if a <= b then a else b
  }

  /** How many of n bytes f_write stores from position at on when the file can
      reach a number of clusters. */
  function Stores(fs: FatFs, at: nat, n: nat, clusters: nat): nat {
    var end := Least(at + n, Least(0xFFFF_FFFF, Capacity(fs, clusters)));
    if end > at then end - at else 0
  }

  /** The bytes that f_write has stored, when all went well. */
  lemma StoredAll(fp: Fil, chain0: seq<nat>, a: Snapshot, at: nat, n: nat, bw: nat)
    requires fp.Ready() && fp.fptr == at + bw && bw <= n
    requires OthersKept(fp.fs, chain0, fp.chain, a, Snap(fp.fs)) && chain0 <= fp.chain && |a.fat| == fp.fs.nFatent
    requires chain0 != [] ==> IsChain(a.fat, chain0)
    requires bw == n || fp.fptr == 0xFFFF_FFFF || Exhausted(fp)
    requires a.errors == fp.fs.ioErrors && Counts(a.free, a.fat)
    ensures bw == Stores(fp.fs, at, n, Reach(chain0, a.fat))
  {
    hide FatFs.Valid, FatFs.View, Fat, Bytes, SectorAt, OthersKept, Counts, Stored, IsChain, Fil.Caches, Placed, Reach;
    Parts(fp);
    FilledUp(fp.fs, chain0, fp.chain, a, Snap(fp.fs), |fp.fs.disk|);
    var reach := Reach(chain0, a.fat);
    MulLe(fp.fs.csize, |fp.chain|, reach);
    assert fp.fs.csize * |fp.chain| == |fp.chain| * fp.fs.csize && fp.fs.csize * reach == reach * fp.fs.csize;
    BytesLe(|fp.chain| * fp.fs.csize, reach * fp.fs.csize, fp.fs.ss);
  }

  lemma WroteAll(fp: Fil, chain0: seq<nat>, a: Snapshot, at: nat, n: nat, bw: nat)
    requires fp.Valid() && fp.err == FrOk && fp.fptr == at + bw && bw <= n
    requires OthersKept(fp.fs, chain0, fp.chain, a, Snap(fp.fs)) && chain0 <= fp.chain && |a.fat| == fp.fs.nFatent
    requires chain0 != [] ==> IsChain(a.fat, chain0)
    requires bw == n || fp.fptr == 0xFFFF_FFFF || Exhausted(fp)
    ensures a.errors == fp.fs.ioErrors && Counts(a.free, a.fat) ==> bw == Stores(fp.fs, at, n, Reach(chain0, a.fat))
  {
    hide Fil.Ready, FatFs.Valid, Fat, OthersKept, Counts, Exhausted, Stores, Reach;
    if a.errors == fp.fs.ioErrors && Counts(a.free, a.fat) {
      StoredAll(fp, chain0, a, at, n, bw);
    }
  }

  /** Seek back to where n bytes were written and read them. */
  method ReadBack(fp: Fil, pos: nat, n: nat, rbuff: array<byte>) returns (ok: bool, br: nat)
    requires fp.Valid() && fp.err == FrOk && fp.canRead && pos + n <= fp.objsize
    requires n <= rbuff.Length && rbuff != fp.buf && rbuff != fp.fs.win
    modifies fp`clust, fp`sclust, fp`chain, fp`sect, fp`sectIdx, fp`dirty, fp`fptr, fp`objsize, fp`err, fp`modified, fp.buf, rbuff
    modifies fp.fs`disk, fp.fs`wflag, fp.fs`winsect, fp.fs`ioErrors, fp.fs`lastClst, fp.fs`freeClst, fp.fs.win
    ensures fp.Valid() && fp.Spares() && old(fp.chain) <= fp.chain
    ensures ok || fp.fs.ioErrors > old(fp.fs.ioErrors) || old(HasReserved(Fat(fp.fs)))
    ensures ok ==> br == n && fp.Content() == old(fp.Content()) && rbuff[..n] == fp.Content()[pos..pos + n]
  {
    hide Fil.Shape, Fil.Caches, Fil.Linked, Fil.Cursor, Fil.Content, HasReserved, FileIo.OthersKept, FatFs.View, Fat, VolumeFull, Fil.Stuck;
    br := 0;
    Parts(fp);
    ghost var c, ch0, s0, e0 := fp.Content(), fp.chain, Snap(fp.fs), fp.fs.ioErrors;
    var res := Lseek(fp, pos);
    Parts(fp);
    if res != FrOk {
      if fp.fs.ioErrors == e0 { StillReserved(fp, ch0, s0); }
      return false, br;
    }
    SamePrefix(c, fp.Content());
    ghost var ch1, s1 := fp.chain, Snap(fp.fs);
    res, br := Read(fp, rbuff, n);
    Parts(fp);
    OthersTrans(fp.fs, ch0, ch1, fp.chain, s0, s1, Snap(fp.fs));
    ok := res == FrOk;
  }

  /** The reserved value does not get into the FAT. */
  lemma StillReserved(fp: Fil, chain0: seq<nat>, a: Snapshot)
    requires fp.Shape() && OthersKept(fp.fs, chain0, fp.chain, a, Snap(fp.fs)) && a.errors == fp.fs.ioErrors && fp.Stuck()
    ensures HasReserved(a.fat)
  {
    hide FatFs.Valid, FatFs.View, FatBytes, Table, Foreign, Bytes, SectorCount, SectorAt, Placed;
    var k :| 2 <= k < |Fat(fp.fs)| && Fat(fp.fs)[k] == 1;
    if k in fp.chain {
      var i :| 0 <= i < |fp.chain| && fp.chain[i] == k;
      LinkBig(Fat(fp.fs), fp.chain, i);
    }
  }

  lemma ReservedBefore(fp: Fil, chain0: seq<nat>, a: Snapshot)
    requires fp.Valid() && fp.err == FrOk && OthersKept(fp.fs, chain0, fp.chain, a, Snap(fp.fs))
    ensures a.errors == fp.fs.ioErrors && HasReserved(Fat(fp.fs)) ==> HasReserved(a.fat)
  {
    hide Fat, HasReserved, OthersKept, FatFs.Valid;
    if a.errors == fp.fs.ioErrors && HasReserved(Fat(fp.fs)) {
      StillReserved(fp, chain0, a);
    }
  }

  lemma LinkBig(fat: seq<nat>, c: seq<nat>, i: nat)
    requires IsChain(fat, c) && i < |c| && |fat| >= 2
    ensures c[i] < |fat| && fat[c[i]] >= 2
  {
    assert i + 1 < |c| ==> fat[c[i]] == c[i + 1];
  }

  /** f_write, with the number of bytes that it stores when nothing fails. */
  method WriteCounted(fp: Fil, data: seq<byte>) returns (res: FResult, bw: nat)
    requires fp.Valid() && fp.err == FrOk && fp.canWrite && |data| <= 0xFFFF_FFFF
    modifies fp`clust, fp`sclust, fp`chain, fp`sect, fp`sectIdx, fp`dirty, fp`fptr, fp`objsize, fp`err, fp`modified, fp.buf
    modifies fp.fs`disk, fp.fs`wflag, fp.fs`winsect, fp.fs`ioErrors, fp.fs`lastClst, fp.fs`freeClst, fp.fs.win
    ensures fp.Valid() && bw <= |data| && fp.Spares() && old(fp.chain) <= fp.chain && res == fp.err
    ensures old(fp.fptr) <= old(fp.objsize)
    ensures res == FrOk || fp.fs.ioErrors > old(fp.fs.ioErrors) || old(HasReserved(Fat(fp.fs)))
    ensures res == FrOk ==> fp.fptr == old(fp.fptr) + bw && fp.Content() == Overwrite(old(fp.Content()), old(fp.fptr), data[..bw])
    ensures res == FrOk && fp.fs.ioErrors == old(fp.fs.ioErrors) && old(FatAlloc.FreeInfo(fp.fs)) ==>
              bw == Stores(fp.fs, old(fp.fptr), |data|, Reach(old(fp.chain), old(Fat(fp.fs))))
  {
    hide Fil.Shape, Fil.Caches, Fil.Cursor, Fil.Content, Overwrite, HasReserved, FileIo.OthersKept, KeptExcept, FatFs.View, Fat, Fil.Stuck,
      Stores, Reach, Counts, Exhausted, IsChain;
    Parts(fp);
    ghost var ch0, s0, at := fp.chain, Snap(fp.fs), fp.fptr;
    res, bw := Write(fp, data);
    Parts(fp);
    if res == FrOk {
      WroteAll(fp, ch0, s0, at, |data|, bw);
    } else if fp.fs.ioErrors == s0.errors {
      StillReserved(fp, ch0, s0);
    }
  }

  /** Write at the file position, seek back and read.  Unless a device call fails
      or the FAT holds the reserved value, all three succeed, as many bytes are
      written as the volume and the size limit allow, and these come back. */
  method WriteThenRead(fp: Fil, data: seq<byte>, rbuff: array<byte>) returns (ok: bool, bw: nat, br: nat)
    requires fp.Valid() && fp.err == FrOk && fp.canRead && fp.canWrite
    requires |data| <= rbuff.Length && |data| <= 0xFFFF_FFFF && rbuff != fp.buf && rbuff != fp.fs.win
    modifies fp`clust, fp`sclust, fp`chain, fp`sect, fp`sectIdx, fp`dirty, fp`fptr, fp`objsize, fp`err, fp`modified, fp.buf, rbuff
    modifies fp.fs`disk, fp.fs`wflag, fp.fs`winsect, fp.fs`ioErrors, fp.fs`lastClst, fp.fs`freeClst, fp.fs.win
    ensures fp.Valid() && bw <= |data| && fp.Spares()
    ensures ok || fp.fs.ioErrors > old(fp.fs.ioErrors) || old(HasReserved(Fat(fp.fs)))
    ensures ok ==> br == bw && rbuff[..bw] == data[..bw]
    ensures ok ==> fp.Content() == Overwrite(old(fp.Content()), old(fp.fptr), data[..bw])
    ensures ok && fp.fs.ioErrors == old(fp.fs.ioErrors) && old(FatAlloc.FreeInfo(fp.fs)) ==>
              bw == Stores(fp.fs, old(fp.fptr), |data|, Reach(old(fp.chain), old(Fat(fp.fs))))
  {
    hide Fil.Shape, Fil.Ready, Fil.Cursor, Fil.Content, Overwrite, HasReserved, FatBytes, Stored, Fil.Store, FileIo.OthersKept, FatFs.View, Fat, Snap, FatAlloc.FreeInfo, Stores, Reach;
    var pos := fp.fptr;
    Parts(fp);
    ghost var before, ch0, s0 := fp.Content(), fp.chain, Snap(fp.fs);
    SnapParts(fp.fs);
    br := 0;
    var res;
    res, bw := WriteCounted(fp, data);
    Parts(fp);
    if res != FrOk {
      return false, bw, br;
    }
    ghost var ch1, s1 := fp.chain, Snap(fp.fs);
    ReservedBefore(fp, ch0, s0);
    SnapParts(fp.fs);
    OverwriteBack(before, pos, data[..bw]);
    ok, br := ReadBack(fp, pos, bw, rbuff);
    Parts(fp);
    OthersTrans(fp.fs, ch0, ch1, fp.chain, s0, s1, Snap(fp.fs));
  }

  lemma SnapParts(fs: FatFs)
    requires fs.Valid()
    ensures Snap(fs).errors == fs.ioErrors && Snap(fs).fat == Fat(fs)
  {
  }
}
