/** The counter of free clusters after updates of the FAT that the device has stopped. */
module FailedUpdates {
  import opened FatTable
  import opened Volume
  import opened FatAccess
  import opened FatAlloc

  /** If the device can write no sector that holds a part of the entry behind clst, the
      updates fail exactly when that cluster is at risk. */
  lemma RiskIsFatal(fs: FatFs, clst: nat)
    requires SectorSize(fs.ss) && clst >= 2 && fs.device.BadSectors?
    requires fs.fatbase + Quot(FirstByte(fs.fsType, clst + 1), fs.ss) in fs.device.bad
    requires fs.fatbase + Quot(LastByte(fs.fsType, clst + 1), fs.ss) in fs.device.bad
    ensures WritesBad(fs, clst, clst + 1) <==> AtRisk(fs.fsType, fs.ss, clst, clst + 1)
  {
    var t, ss := fs.fsType, fs.ss;
    if t != Fat12 { WideEntry(t, clst + 1, ss); }
    QuotOrder(FirstByte(t, clst), LastByte(t, clst), ss);
    QuotOrder(LastByte(t, clst), LastByte(t, clst + 1), ss);
    hide Quot, SectorSize;
  }

  lemma QuotOrder(p: nat, q: nat, ss: nat)
    requires p <= q
    ensures Quot(p, ss) <= Quot(q, ss)
  {
  }

  /** Stretching a chain where the updates fail: the new cluster is marked, the link to
      it is missing, and the counter is wrong from then on. */
  method Stretch(fs: FatFs, clst: nat) returns (ncl: nat)
    requires fs.Valid() && fs.fsType != ExFat && Doomed(fs, clst)
    requires FreeInfo(fs) && fs.freeClst <= fs.nFatent - 2
    modifies fs`disk, fs`wflag, fs`winsect, fs`ioErrors, fs`lastClst, fs`freeClst, fs.win
    ensures fs.Valid() && ncl == DISK_ERROR && fs.freeClst == old(fs.freeClst)
    ensures Fat(fs)[clst] == old(Fat(fs))[clst] && FreeCount(Fat(fs)) + 1 == FreeCount(old(Fat(fs)))
    ensures !FreeInfo(fs)
  {
    hide FatFs.Valid, FatFs.View, FatBytes, Created, FatFs.SameOutsideFat, Fat, HalfEntry;
    EndMarkIsPastTable(fs.fsType);
    Layout(fs);
    var c := NextOf(fs.nFatent, clst);
    HalfInUse(0, c, 2);
    TakesOne(Fat(fs), c, Cut(fs.fsType, END_OF_CHAIN));
    TakesOne(Fat(fs), c, HalfEntry(0, c, END_OF_CHAIN));
    ncl := CreateChain(fs, clst);
  }

  /** A FAT sector of end marks, and one whose first FAT16 entry is free. */
  const FULL: seq<byte> := seq(512, i => 0xFF)
  const FIRST_FREE: seq<byte> := seq(512, i => if i < 2 then 0 else 0xFF)

  /** The table that a FAT of end marks with FIRST_FREE as its second sector holds. */
  lemma OneFree(fs: FatFs)
    requires fs.Valid() && fs.fsType == Fat16 && fs.ss == 512 && fs.nFatent == 4100 && fs.fsize == 17
    requires fs.View()[fs.fatbase + 1] == FIRST_FREE
    requires forall s :: fs.fatbase <= s < fs.fatbase + 17 && s != fs.fatbase + 1 ==> fs.View()[s] == FULL
    ensures forall k :: 0 <= k < 4100 ==> Fat(fs)[k] == if k == 256 then 0 else 0xFFFF
    ensures FreeSet(Fat(fs)) == {256}
  {
    Layout(fs);
    hide Quot, Rem, FatFs.View, FatFs.Valid;
    forall k | 0 <= k < 4100
      ensures Fat(fs)[k] == if k == 256 then 0 else 0xFFFF
    {
      SpanCovers(Fat16, k, 4100);
      AreaAt(fs.View(), fs.fatbase, 17, 512, 2 * k);
      AreaAt(fs.View(), fs.fatbase, 17, 512, 2 * k + 1);
      WordAt(k);
      var b := FatBytes(fs);
      assert Fat(fs)[k] == Entry(Fat16, b, k) == Word(b, 2 * k);
      if k == 256 {
        assert b[512] == b[513] == 0;
      } else {
        assert b[2 * k] == b[2 * k + 1] == 0xFF;
      }
    }
  }

  lemma WordAt(k: nat)
    ensures Quot(2 * k, 512) == Quot(2 * k + 1, 512) == k / 256
    ensures Rem(2 * k, 512) == k % 256 * 2 && Rem(2 * k + 1, 512) == k % 256 * 2 + 1
  {
  }

  /** A FAT16 volume of 4098 clusters with one cluster free, number 256: entry 255
      lies in the first sector of the FAT and entry 256 in the second.  The file that
      ends at cluster 255 is to grow, and the second sector cannot be written.  No
      cluster is free afterwards, and the counter says one. */
  method StaleCounter() returns (fs: FatFs, ncl: nat)
    ensures fresh(fs) && fs.Valid() && fs.fsType == Fat16 && ncl == DISK_ERROR
    ensures fs.freeClst == 1 && FreeCount(Fat(fs)) == 0 && !FreeInfo(fs)
  {
    var disk := seq(4148, s => if s == 2 then FIRST_FREE else FULL);
    fs := new FatFs(Fat16, 512, 1, 1, 4100, 17, 1, 50, 0, disk, BadSectors({2}));
    fs.freeClst := 1;
    OneFree(fs);
    WordAt(255);
    WordAt(256);
    ncl := Stretch(fs, 255);
  }

  /** FAT12 sectors of end marks but for entry 341, the one entry that lies in both: its
      low nibble is that of x, and the rest zero. */
  function Nibble(x: nat): (b: seq<byte>)
    requires x < 0x10
    ensures |b| == 512
  {
    seq(512, i => if i < 511 then 0xFF else x * 0x10 + 0x0F)
  }

  const ZERO_BYTE: seq<byte> := seq(512, i => if i < 1 then 0 else 0xFF)

  lemma Table12(fs: FatFs, x: nat)
    requires fs.Valid() && fs.fsType == Fat12 && fs.ss == 512 && fs.nFatent == 400 && fs.fsize == 2 && x < 0x10
    requires fs.View()[fs.fatbase] == Nibble(x) && fs.View()[fs.fatbase + 1] == ZERO_BYTE
    ensures forall k :: 0 <= k < 400 ==> Fat(fs)[k] == if k == 341 then x else 0xFFF
    ensures FreeSet(Fat(fs)) == if x == 0 then {341} else {}
  {
    Layout(fs);
    hide Quot, Rem, FatFs.View, FatFs.Valid;
    forall k | 0 <= k < 400
      ensures Fat(fs)[k] == if k == 341 then x else 0xFFF
    {
      SpanCovers(Fat12, k, 400);
      var b, p := FatBytes(fs), k + k / 2;
      ByteOf(fs, x, p);
      ByteOf(fs, x, p + 1);
      Entry12(b, k);
      assert Fat(fs)[k] == Entry(Fat12, b, k);
      assert b[p] as int == (if p == 511 then x * 0x10 + 0x0F else if p == 512 then 0 else 0xFF);
      assert (p == 511 <==> k == 341) && (p == 510 <==> k == 340) && p != 512;
    }
  }

  lemma ByteOf(fs: FatFs, x: nat, p: nat)
    requires fs.Valid() && fs.ss == 512 && fs.fsize == 2 && p < 1024 && x < 0x10
    requires fs.View()[fs.fatbase] == Nibble(x) && fs.View()[fs.fatbase + 1] == ZERO_BYTE
    ensures |FatBytes(fs)| == 1024 && FatBytes(fs)[p] as int == if p == 511 then x * 0x10 + 0x0F else if p == 512 then 0 else 0xFF
  {
    Layout(fs);
    AreaAt(fs.View(), fs.fatbase, 2, 512, p);
  }

  method Volume12(x: nat, free: nat) returns (fs: FatFs)
    requires x < 0x10
    ensures fresh(fs) && fresh(fs.win) && fs.Valid() && fs.fsType == Fat12 && fs.ss == 512 && fs.nFatent == 400 && fs.fatbase == 1
    ensures fs.device == BadSectors({1}) && !fs.wflag && fs.freeClst == free
    ensures forall k :: 0 <= k < 400 ==> Fat(fs)[k] == if k == 341 then x else 0xFFF
    ensures FreeSet(Fat(fs)) == if x == 0 then {341} else {}
  {
    var disk := seq(430, s => if s == 2 then ZERO_BYTE else Nibble(x));
    fs := new FatFs(Fat12, 512, 1, 1, 400, 2, 1, 30, 0, disk, BadSectors({1}));
    fs.freeClst := free;
    assert fs.Geometry();
    assert fs.disk[1] == Nibble(x) && fs.disk[2] == ZERO_BYTE;
    assert forall s :: 0 <= s < |fs.disk| ==> |fs.disk[s]| == 512;
    Table12(fs, x);
  }

  /** A FAT12 volume of 398 clusters with one cluster free, number 341, whose entry has
      a nibble in the first sector of the FAT and the rest in the second.  The file that
      ends at cluster 340 is to grow, and the first sector cannot be written. */
  method TornCounter() returns (fs: FatFs, ncl: nat)
    ensures fresh(fs) && fs.Valid() && fs.fsType == Fat12 && ncl == DISK_ERROR
    ensures fs.freeClst == 1 && FreeCount(Fat(fs)) == 0 && !FreeInfo(fs)
  {
    fs := Volume12(0, 1);
    ncl := Stretch(fs, 340);
  }

  /** Releasing a chain whose first entry becomes zero by half an update: the cluster is
      free from then on and not counted. */
  method Free(fs: FatFs, clst: nat) returns (res: FResult)
    requires fs.Valid() && fs.fsType != ExFat && 2 <= clst < fs.nFatent && HalfFreed(fs, clst)
    requires Fat(fs)[clst] >= 2 && HalfEntry(Fat(fs)[clst], clst, 0) == 0
    requires FreeInfo(fs) && fs.freeClst <= fs.nFatent - 2
    modifies fs`disk, fs`wflag, fs`winsect, fs`ioErrors, fs`freeClst, fs.win
    ensures fs.Valid() && res == FrDiskErr && fs.freeClst == old(fs.freeClst)
    ensures FreeCount(Fat(fs)) == FreeCount(old(Fat(fs))) + 1 && !FreeInfo(fs)
  {
    hide FatFs.Valid, FatFs.View, FatBytes, Releasing, FatFs.SameOutsideFat, Fat, HalfEntry, HalfFreed;
    Layout(fs);
    ReturnFree(Fat(fs), clst);
    res := RemoveChain(fs, clst, 0);
  }

  /** A full FAT12 volume with a file whose first cluster, number 341, is followed by
      cluster 5.  The file is removed, and the first sector of the FAT cannot be
      written.  One cluster is free afterwards, and the counter says none. */
  method TornRelease() returns (fs: FatFs, res: FResult)
    ensures fresh(fs) && fs.Valid() && fs.fsType == Fat12 && res == FrDiskErr
    ensures fs.freeClst == 0 && FreeCount(Fat(fs)) == 1 && !FreeInfo(fs)
  {
    fs := Volume12(5, 0);
    res := Free(fs, 341);
  }
}
