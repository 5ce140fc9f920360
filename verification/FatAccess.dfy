/** Reading and changing one entry of the FAT through the window. */
module FatAccess {
  import opened FatTable
  import opened Volume

  /** The bytes of the n sectors from base on. */
  function Area(v: seq<seq<byte>>, base: nat, n: nat, ss: nat): (b: seq<byte>)
    requires SectorSize(ss) && base + n <= |v| && forall s :: 0 <= s < |v| ==> |v[s]| == ss
    ensures |b| == Bytes(n, ss)
  {
    seq(Bytes(n, ss), p requires 0 <= p < Bytes(n, ss) => v[base + Quot(p, ss)][Rem(p, ss)])
  }

  lemma AreaAt(v: seq<seq<byte>>, base: nat, n: nat, ss: nat, p: nat)
    requires SectorSize(ss) && base + n <= |v| && forall s :: 0 <= s < |v| ==> |v[s]| == ss
    requires p < Bytes(n, ss)
    ensures Quot(p, ss) < n && Rem(p, ss) < ss
    ensures Area(v, base, n, ss)[p] == v[base + Quot(p, ss)][Rem(p, ss)]
  {
    hide Quot, Rem, Bytes;
    ByteAddress(p, n, ss);
  }

  lemma SameArea(v: seq<seq<byte>>, v': seq<seq<byte>>, base: nat, n: nat, ss: nat)
    requires SectorSize(ss) && base + n <= |v| == |v'|
    requires forall s :: 0 <= s < |v| ==> |v[s]| == |v'[s]| == ss
    requires forall s :: base <= s < base + n ==> v'[s] == v[s]
    ensures Area(v', base, n, ss) == Area(v, base, n, ss)
  {
    hide Quot, Rem, Bytes, Area;
    forall p | 0 <= p < Bytes(n, ss)
      ensures Area(v', base, n, ss)[p] == Area(v, base, n, ss)[p]
    {
      AreaAt(v, base, n, ss, p);
      AreaAt(v', base, n, ss, p);
    }
  }

  function WithByte(v: seq<seq<byte>>, s: nat, o: nat, x: byte): (v': seq<seq<byte>>)
    requires s < |v| && o < |v[s]|
    ensures |v'| == |v| && |v'[s]| == |v[s]| && v'[s][o] == x
    ensures forall r :: 0 <= r < |v| && r != s ==> v'[r] == v[r]
    ensures forall i :: 0 <= i < |v[s]| && i != o ==> v'[s][i] == v[s][i]
  {
    var w: seq<byte> := v[s][..o] + [x] + v[s][o + 1..];
    v[s := w]
  }

  /** Changing one byte of one sector changes one byte of the area. */
  lemma PokeArea(v: seq<seq<byte>>, base: nat, n: nat, ss: nat, p: nat, x: byte)
    requires SectorSize(ss) && base + n <= |v| && forall s :: 0 <= s < |v| ==> |v[s]| == ss
    requires p < Bytes(n, ss)
    ensures Quot(p, ss) < n && Rem(p, ss) < ss
    ensures Area(WithByte(v, base + Quot(p, ss), Rem(p, ss), x), base, n, ss) == Area(v, base, n, ss)[p := x]
  {
    hide Quot, Rem, Bytes, Area;
    AreaAt(v, base, n, ss, p);
    var v' := WithByte(v, base + Quot(p, ss), Rem(p, ss), x);
    forall q | 0 <= q < Bytes(n, ss)
      ensures Area(v', base, n, ss)[q] == Area(v, base, n, ss)[p := x][q]
    {
      AreaAt(v, base, n, ss, q);
      AreaAt(v', base, n, ss, q);
      SameAddress(p, q, ss);
    }
  }

  /** The first FAT, byte by byte, as the file system sees it. */
  ghost function FatBytes(fs: FatFs): (b: seq<byte>)
    requires fs.Valid()
    reads fs`disk, fs`winsect, fs`wflag, fs.win
    ensures |b| == Bytes(fs.fsize, fs.ss)
  {
    Area(fs.View(), fs.fatbase, fs.fsize, fs.ss)
  }

  /** The FAT entries. */
  ghost function Fat(fs: FatFs): (t: seq<nat>)
    requires fs.Valid()
    reads fs`disk, fs`winsect, fs`wflag, fs.win
    ensures |t| == fs.nFatent
  {
    Layout(fs);
    Table(fs.fsType, FatBytes(fs), fs.nFatent)
  }

  lemma Layout(fs: FatFs)
    requires fs.Valid()
    ensures SectorSize(fs.ss) && fs.win.Length == fs.ss && 3 <= fs.nFatent <= EntryLimit(fs.fsType)
    ensures Span(fs.fsType, fs.nFatent) <= Bytes(fs.fsize, fs.ss)
    ensures fs.fatbase + fs.fsize <= |fs.disk| <= NO_SECTOR
    ensures forall s :: 0 <= s < |fs.disk| ==> |fs.View()[s]| == fs.ss
  {
    hide Quot, Rem, Bytes, FatFs.Mirrored;
  }

  /** How the window gets to a sector: the one that is there needs no device, and a
      device with bad sectors fails exactly when the window must be written to one. */
  ghost predicate Fetched(fs: FatFs, sect: nat, was: nat, dirty: bool, res: FResult)
    reads fs`wflag
  {
    && (sect == was ==> res == FrOk && fs.wflag == dirty)
    && (sect != was && res == FrOk ==> !fs.wflag)
    && (fs.device.BadSectors? ==> (res == FrDiskErr <==> sect != was && dirty && was in fs.device.bad))
  }

  /** Bring the sector holding FAT byte p into the window. */
  method Seek(fs: FatFs, p: nat) returns (res: FResult)
    requires fs.Valid() && p < Bytes(fs.fsize, fs.ss)
    modifies fs`disk, fs`wflag, fs`winsect, fs`ioErrors, fs.win
    ensures fs.Valid() && fs.SameView(old(fs.View()), fs.View()) && fs.CopyKept()
    ensures FatBytes(fs) == old(FatBytes(fs))
    ensures res == FrOk || (res == FrDiskErr && fs.ioErrors > old(fs.ioErrors))
    ensures res == FrOk ==> fs.winsect == fs.fatbase + Quot(p, fs.ss)
    ensures fs.WindowNear(old(fs.winsect))
    ensures Fetched(fs, fs.fatbase + Quot(p, fs.ss), old(fs.winsect), old(fs.wflag), res)
  {
    res := SeekSector(fs, fs.fatbase + Quot(p, fs.ss), p);
  }

  /** MoveWindow to the sector that holds FAT byte p. */
  method SeekSector(fs: FatFs, sect: nat, ghost p: nat) returns (res: FResult)
    requires fs.Valid() && p < Bytes(fs.fsize, fs.ss) && sect == fs.fatbase + Quot(p, fs.ss)
    modifies fs`disk, fs`wflag, fs`winsect, fs`ioErrors, fs.win
    ensures fs.Valid() && fs.SameView(old(fs.View()), fs.View()) && fs.CopyKept()
    ensures FatBytes(fs) == old(FatBytes(fs))
    ensures res == FrOk || (res == FrDiskErr && fs.ioErrors > old(fs.ioErrors))
    ensures res == FrOk ==> fs.winsect == sect
    ensures fs.WindowNear(old(fs.winsect))
    ensures Fetched(fs, sect, old(fs.winsect), old(fs.wflag), res)
  {
    hide Quot, Rem, Bytes, Area, FatFs.Mirrored;
    Layout(fs);
    ByteAddress(p, fs.fsize, fs.ss);
    ghost var v := fs.View();
    res := MoveWindow(fs, sect);
    Layout(fs);
    SameArea(v, fs.View(), fs.fatbase, fs.fsize, fs.ss);
  }

  /** The window byte at the offset of p is FAT byte p. */
  lemma WindowByte(fs: FatFs, p: nat)
    requires fs.Valid() && p < Bytes(fs.fsize, fs.ss)
    requires fs.winsect == fs.fatbase + Quot(p, fs.ss)
    ensures Rem(p, fs.ss) < fs.win.Length && fs.win[Rem(p, fs.ss)] == FatBytes(fs)[p]
    ensures fs.InFat(fs.winsect)
  {
    hide Quot, Rem, Bytes, Area, FatFs.Mirrored;
    Layout(fs);
    AreaAt(fs.View(), fs.fatbase, fs.fsize, fs.ss, p);
  }

  /** Store one byte in the window: exactly FAT byte p changes. */
  method Poke(fs: FatFs, p: nat, x: byte)
    requires fs.Valid() && p < Bytes(fs.fsize, fs.ss)
    requires fs.winsect == fs.fatbase + Quot(p, fs.ss)
    modifies fs`wflag, fs.win
    ensures fs.Valid() && fs.wflag && fs.InFat(fs.winsect) && fs.CopyKept()
    ensures FatBytes(fs) == old(FatBytes(fs))[p := x]
    ensures fs.SameOutsideFat(old(fs.View()), fs.View())
  {
    hide Quot, Rem, Bytes, Area;
    Layout(fs);
    WindowByte(fs, p);
    ghost var v := fs.View();
    PokeArea(v, fs.fatbase, fs.fsize, fs.ss, p, x);
    fs.win[Rem(p, fs.ss)] := x;
    fs.wflag := true;
    ghost var v' := WithByte(v, fs.winsect, Rem(p, fs.ss), x);
    assert v[fs.winsect] == old(fs.win[..]);
    assert fs.win[..] == v'[fs.winsect];
    assert fs.View() == v';
  }

  /** ld_word at window offset o, the position of FAT byte p. */
  method LoadWord(fs: FatFs, o: nat, ghost p: nat) returns (w: nat)
    requires o == Rem(p, fs.ss)
    requires fs.Valid() && p % 2 == 0 && p + 2 <= Bytes(fs.fsize, fs.ss)
    requires fs.winsect == fs.fatbase + Quot(p, fs.ss)
    ensures w == Word(FatBytes(fs), p)
    ensures fs.InFat(fs.winsect)
  {
    hide Quot, Rem, Bytes, FatBytes, FatFs.Mirrored;
    WindowByte(fs, p);
    AlignedAddress(p, 1, fs.ss);
    WindowByte(fs, p + 1);
    w := fs.win[o] as int + 0x100 * fs.win[o + 1] as int;
  }

  /** ld_dword at window offset o, the position of FAT byte p. */
  method LoadDWord(fs: FatFs, o: nat, ghost p: nat) returns (w: nat)
    requires o == Rem(p, fs.ss)
    requires fs.Valid() && p % 4 == 0 && p + 4 <= Bytes(fs.fsize, fs.ss)
    requires fs.winsect == fs.fatbase + Quot(p, fs.ss)
    ensures w == DWord(FatBytes(fs), p)
    ensures fs.InFat(fs.winsect)
  {
    hide Quot, Rem, Bytes, FatBytes, FatFs.Mirrored;
    WindowByte(fs, p);
    AlignedAddress(p, 1, fs.ss);
    AlignedAddress(p, 2, fs.ss);
    AlignedAddress(p, 3, fs.ss);
    WindowByte(fs, p + 1);
    WindowByte(fs, p + 2);
    WindowByte(fs, p + 3);
    w := fs.win[o] as int + 0x100 * fs.win[o + 1] as int + 0x1_0000 * fs.win[o + 2] as int + 0x100_0000 * fs.win[o + 3] as int;
  }

  /** st_word at the window position of FAT byte p. */
  method StoreWord(fs: FatFs, p: nat, v: nat)
    requires fs.Valid() && p % 2 == 0 && p + 2 <= Bytes(fs.fsize, fs.ss)
    requires fs.winsect == fs.fatbase + Quot(p, fs.ss)
    modifies fs`wflag, fs.win
    ensures fs.Valid() && fs.wflag && fs.InFat(fs.winsect) && fs.CopyKept()
    ensures FatBytes(fs) == PutWord(old(FatBytes(fs)), p, v)
    ensures fs.SameOutsideFat(old(fs.View()), fs.View())
  {
    hide Quot, Rem, Bytes, FatBytes, FatFs.Mirrored;
    AlignedAddress(p, 1, fs.ss);
    Poke(fs, p, v % 0x100);
    Poke(fs, p + 1, v / 0x100 % 0x100);
  }

  /** st_dword at the window position of FAT byte p. */
  method StoreDWord(fs: FatFs, p: nat, v: nat)
    requires fs.Valid() && p % 4 == 0 && p + 4 <= Bytes(fs.fsize, fs.ss)
    requires fs.winsect == fs.fatbase + Quot(p, fs.ss)
    modifies fs`wflag, fs.win
    ensures fs.Valid() && fs.wflag && fs.InFat(fs.winsect) && fs.CopyKept()
    ensures FatBytes(fs) == PutDWord(old(FatBytes(fs)), p, v)
    ensures fs.SameOutsideFat(old(fs.View()), fs.View())
  {
    hide Quot, Rem, Bytes, FatBytes, FatFs.Valid, FatFs.Mirrored;
    Layout(fs);
    AlignedAddress(p, 1, fs.ss);
    AlignedAddress(p, 2, fs.ss);
    AlignedAddress(p, 3, fs.ss);
    Poke(fs, p, v % 0x100);
    Poke(fs, p + 1, v / 0x100 % 0x100);
    Poke(fs, p + 2, v / 0x1_0000 % 0x100);
    Poke(fs, p + 3, v / 0x100_0000 % 0x100);
  }

  lemma SpanCovers(t: FsType, k: nat, n: nat)
    requires k < n
    ensures Span(t, k + 1) <= Span(t, n)
  {
  }

  /** Entry k has its bytes in two sectors, as FAT12 entries may. */
  predicate Straddles(t: FsType, k: nat, ss: nat) {
    Quot(FirstByte(t, k), ss) != Quot(LastByte(t, k), ss)
  }

  /** All of entry k lies in the sector where entry c ends. */
  predicate Beside(t: FsType, k: nat, c: nat, ss: nat) {
    Quot(FirstByte(t, k), ss) == Quot(LastByte(t, k), ss) == Quot(LastByte(t, c), ss)
  }

  lemma WideEntry(t: FsType, k: nat, ss: nat)
    requires SectorSize(ss) && t != Fat12
    ensures !Straddles(t, k, ss)
  {
    hide Quot, Rem;
    var p, w := FirstByte(t, k), LastByte(t, k) - FirstByte(t, k);
    assert (p % 2 == 0 && w == 1) || (p % 4 == 0 && w == 3) by {
      if t == Fat16 { assert p == 2 * k; } else { assert p == 4 * k; }
    }
    AlignedAddress(p, w, ss);
  }

  /** A failed update of entry k to v: nothing is stored, or the first byte of a
      FAT12 entry in two sectors. */
  ghost predicate FailedPut(t: FsType, ss: nat, fat: seq<nat>, fat': seq<nat>, k: nat, v: nat) {
    fat' == fat || (t == Fat12 && Straddles(t, k, ss) && k < |fat| && fat' == fat[k := HalfEntry(fat[k], k, v)])
  }

  method GetFat12(fs: FatFs, clst: nat) returns (ok: bool, val: nat)
    requires fs.Valid() && fs.fsType == Fat12 && Span(Fat12, clst + 1) <= |FatBytes(fs)|
    modifies fs`disk, fs`wflag, fs`winsect, fs`ioErrors, fs.win
    ensures fs.Valid() && fs.SameView(old(fs.View()), fs.View()) && fs.CopyKept()
    ensures FatBytes(fs) == old(FatBytes(fs))
    ensures ok || fs.ioErrors > old(fs.ioErrors)
    ensures ok ==> val == Entry(Fat12, FatBytes(fs), clst)
    ensures ok ==> fs.InFat(fs.winsect) && fs.winsect == fs.fatbase + Quot(LastByte(Fat12, clst), fs.ss)
    ensures fs.WindowNear(old(fs.winsect))
    ensures fs.device.BadSectors? && !old(fs.wflag) ==> ok && !fs.wflag
  {
    hide Quot, Rem, Bytes, FatBytes, FatFs.Valid, FatFs.View, FatFs.Mirrored;
    ok, val := false, 0;
    Layout(fs);
    var bc := clst + clst / 2;
    var res := Seek(fs, bc);
    if res != FrOk { return; }
    WindowByte(fs, bc);
    var lo := fs.win[Rem(bc, fs.ss)];
    res := Seek(fs, bc + 1);
    if res != FrOk { return; }
    WindowByte(fs, bc + 1);
    var wc := lo as int + 0x100 * fs.win[Rem(bc + 1, fs.ss)] as int;
    ok, val := true, if clst % 2 == 1 then wc / 0x10 else wc % 0x1000;
  }

  method GetFatWide(fs: FatFs, clst: nat) returns (ok: bool, val: nat)
    requires fs.Valid() && fs.fsType != Fat12 && Span(fs.fsType, clst + 1) <= |FatBytes(fs)|
    modifies fs`disk, fs`wflag, fs`winsect, fs`ioErrors, fs.win
    ensures fs.Valid() && fs.SameView(old(fs.View()), fs.View()) && fs.CopyKept()
    ensures FatBytes(fs) == old(FatBytes(fs))
    ensures ok || fs.ioErrors > old(fs.ioErrors)
    ensures ok ==> val == Entry(fs.fsType, FatBytes(fs), clst) && val < 0x8000_0000
    ensures ok ==> fs.InFat(fs.winsect) && fs.winsect == fs.fatbase + Quot(LastByte(fs.fsType, clst), fs.ss)
    ensures fs.WindowNear(old(fs.winsect))
    ensures fs.device.BadSectors? && !old(fs.wflag) ==> ok && !fs.wflag
  {
    hide Quot, Rem, Bytes, FatBytes, FatFs.Valid, FatFs.View, FatFs.Mirrored;
    ok, val := false, 0;
    Layout(fs);
    WideEntry(fs.fsType, clst, fs.ss);
    var p := if fs.fsType == Fat16 then clst * 2 else clst * 4;
    var res := Seek(fs, p);
    if res != FrOk { return; }
    if fs.fsType == Fat16 {
      val := LoadWord(fs, Rem(p, fs.ss), p);
    } else {
      var w := LoadDWord(fs, Rem(p, fs.ss), p);
      val := w % if fs.fsType == Fat32 then 0x1000_0000 else 0x8000_0000;
    }
    ok := true;
  }

  /** Read the entry of a cluster: 1 when the number is out of range,
      0xFFFFFFFF on a disk error.  (On exFAT this is the branch that reads the FAT.) */
  method GetEntry(fs: FatFs, clst: nat) returns (val: nat)
    requires fs.Valid()
    modifies fs`disk, fs`wflag, fs`winsect, fs`ioErrors, fs.win
    ensures fs.Valid() && fs.SameView(old(fs.View()), fs.View()) && fs.CopyKept()
    ensures FatBytes(fs) == old(FatBytes(fs))
    ensures clst < 2 || clst >= fs.nFatent ==> val == 1
    ensures 2 <= clst < fs.nFatent ==> val == Fat(fs)[clst] || (val == 0xFFFF_FFFF && fs.ioErrors > old(fs.ioErrors))
    ensures val == 0xFFFF_FFFF ==> fs.ioErrors > old(fs.ioErrors)
    ensures fs.WindowNear(old(fs.winsect))
    ensures 2 <= clst < fs.nFatent && val != 0xFFFF_FFFF ==>
              fs.InFat(fs.winsect) && fs.winsect == fs.fatbase + Quot(LastByte(fs.fsType, clst), fs.ss)
    ensures fs.device.BadSectors? && !old(fs.wflag) ==> val != 0xFFFF_FFFF && !fs.wflag
  {
    hide Quot, Rem, Bytes, FatBytes, FatFs.Valid, FatFs.View, FatFs.Mirrored;
    if clst < 2 || clst >= fs.nFatent {
      return 1;
    }
    val := 0xFFFF_FFFF;
    Layout(fs);
    SpanCovers(fs.fsType, clst, fs.nFatent);
    var ok, v;
    if fs.fsType == Fat12 {
      ok, v := GetFat12(fs, clst);
    } else {
      ok, v := GetFatWide(fs, clst);
    }
    if ok { val := v; }
  }

  /** Entry k is not, or not all, in the window. */
  predicate NeedsDevice(fs: FatFs, k: nat, was: nat) {
    !(fs.fatbase + Quot(FirstByte(fs.fsType, k), fs.ss) == fs.fatbase + Quot(LastByte(fs.fsType, k), fs.ss) == was)
  }

  /** On a device with bad sectors: the window, at was, cannot be left for the sector
      where entry k begins. */
  predicate StopsBefore(fs: FatFs, k: nat, was: nat, dirty: bool) {
    fs.device.BadSectors? && fs.fatbase + Quot(FirstByte(fs.fsType, k), fs.ss) != was && dirty && was in fs.device.bad
  }

  /** There it cannot go from one sector of entry k to the next. */
  predicate StopsBetween(fs: FatFs, k: nat) {
    fs.device.BadSectors? && Straddles(fs.fsType, k, fs.ss) && fs.fatbase + Quot(FirstByte(fs.fsType, k), fs.ss) in fs.device.bad
  }

  /** The first of the two bytes of a FAT12 update. */
  method PutFirst12(fs: FatFs, clst: nat, val: nat) returns (res: FResult)
    requires fs.Valid() && clst + clst / 2 < |FatBytes(fs)|
    modifies fs`disk, fs`wflag, fs`winsect, fs`ioErrors, fs.win
    ensures fs.Valid() && fs.SameOutsideFat(old(fs.View()), fs.View()) && fs.CopyKept()
    ensures res == FrOk || (res == FrDiskErr && fs.ioErrors > old(fs.ioErrors))
    ensures FatBytes(fs) == if res == FrOk then HalfPut(old(FatBytes(fs)), clst, val) else old(FatBytes(fs))
    ensures res == FrOk ==> fs.wflag && fs.winsect == fs.fatbase + Quot(clst + clst / 2, fs.ss)
    ensures fs.winsect == old(fs.winsect) || fs.InFat(fs.winsect) || fs.winsect == NO_SECTOR
    ensures fs.fatbase + Quot(clst + clst / 2, fs.ss) == old(fs.winsect) ==> res == FrOk
    ensures fs.device.BadSectors? && fs.fsType == Fat12 ==> (res == FrDiskErr <==> StopsBefore(fs, clst, old(fs.winsect), old(fs.wflag)))
  {
    hide Quot, Rem, Bytes, FatBytes, FatFs.Valid, FatFs.View, FatFs.Mirrored, FatFs.SameView, FatFs.SameOutsideFat;
    Layout(fs);
    var bc := clst + clst / 2;
    ghost var v0 := fs.View();
    res := Seek(fs, bc);
    ghost var v1 := fs.View();
    fs.SameOutsideRefl(v1);
    fs.SameOutsideTrans(v0, v1, v1);
    if res != FrOk { return; }
    WindowByte(fs, bc);
    var b := fs.win[Rem(bc, fs.ss)] as int;
    Poke(fs, bc, if clst % 2 == 1 then b % 0x10 + val % 0x10 * 0x10 else val % 0x100);
    fs.SameOutsideTrans(v0, v1, fs.View());
  }

  method PutFat12(fs: FatFs, clst: nat, val: nat) returns (res: FResult)
    requires fs.Valid() && fs.fsType == Fat12 && 2 <= clst < fs.nFatent
    requires Span(Fat12, clst + 1) <= |FatBytes(fs)|
    modifies fs`disk, fs`wflag, fs`winsect, fs`ioErrors, fs.win
    ensures fs.Valid() && fs.SameOutsideFat(old(fs.View()), fs.View()) && fs.CopyKept()
    ensures res == FrOk || (res == FrDiskErr && fs.ioErrors > old(fs.ioErrors))
    ensures res == FrOk ==> FatBytes(fs) == PutEntry(Fat12, old(FatBytes(fs)), clst, val)
    ensures res == FrOk ==> fs.InFat(fs.winsect) && fs.wflag && fs.winsect == fs.fatbase + Quot(LastByte(Fat12, clst), fs.ss)
    ensures res == FrDiskErr ==>
              FatBytes(fs) == old(FatBytes(fs)) || (Straddles(Fat12, clst, fs.ss) && FatBytes(fs) == HalfPut(old(FatBytes(fs)), clst, val))
    ensures res == FrDiskErr ==> NeedsDevice(fs, clst, old(fs.winsect))
    ensures fs.WindowNear(old(fs.winsect))
    ensures fs.device.BadSectors? ==> (res == FrDiskErr <==> StopsBefore(fs, clst, old(fs.winsect), old(fs.wflag)) || StopsBetween(fs, clst))
    ensures fs.device.BadSectors? && res == FrDiskErr ==>
              FatBytes(fs) == if StopsBefore(fs, clst, old(fs.winsect), old(fs.wflag)) then old(FatBytes(fs)) else HalfPut(old(FatBytes(fs)), clst, val)
  {
    hide Quot, Rem, Bytes, FatBytes, FatFs.Valid, FatFs.View, FatFs.Mirrored, FatFs.SameView, FatFs.SameOutsideFat;
    var bc := clst + clst / 2;
    ghost var v0, b0 := fs.View(), FatBytes(fs);
    res := PutFirst12(fs, clst, val);
    ghost var v2 := fs.View();
    if res != FrOk { return; }
    res := Seek(fs, bc + 1);
    ghost var v3 := fs.View();
    fs.SameOutsideTrans(v0, v2, v3);
    if res != FrOk { return; }
    WindowByte(fs, bc + 1);
    var b := fs.win[Rem(bc + 1, fs.ss)] as int;
    Poke(fs, bc + 1, if clst % 2 == 1 then val / 0x10 % 0x100 else b / 0x10 * 0x10 + val / 0x100 % 0x10);
    fs.SameOutsideTrans(v0, v3, fs.View());
    PutIsHalves(b0, clst, val);
  }

  /** The second byte completes the update. */
  lemma PutIsHalves(b: seq<byte>, k: nat, v: nat)
    requires Span(Fat12, k + 1) <= |b|
    ensures var p := k + k / 2;
            p + 1 < |b| && PutEntry(Fat12, b, k, v) ==
              HalfPut(b, k, v)[p + 1 := if k % 2 == 1 then v / 0x10 % 0x100 else b[p + 1] / 0x10 * 0x10 + v / 0x100 % 0x10]
  {
  }

  /** Store an entry of whole bytes that is in the window. */
  method StoreWide(fs: FatFs, clst: nat, val: nat)
    requires fs.Valid() && fs.fsType != Fat12 && 2 <= clst < fs.nFatent
    requires Span(fs.fsType, clst + 1) <= |FatBytes(fs)|
    requires fs.winsect == fs.fatbase + Quot(FirstByte(fs.fsType, clst), fs.ss)
    modifies fs`wflag, fs.win
    ensures fs.Valid() && fs.wflag && fs.InFat(fs.winsect) && fs.CopyKept()
    ensures FatBytes(fs) == PutEntry(fs.fsType, old(FatBytes(fs)), clst, val)
    ensures fs.SameOutsideFat(old(fs.View()), fs.View())
  {
    hide Quot, Rem, Bytes, FatBytes, FatFs.Valid, FatFs.Mirrored, PutWord, PutDWord, DWord;
    Layout(fs);
    match fs.fsType {
      case Fat16 =>
        StoreWord(fs, clst * 2, val);
      case Fat32 =>
        var old32 := LoadDWord(fs, Rem(clst * 4, fs.ss), clst * 4);
        StoreDWord(fs, clst * 4, val % 0x1000_0000 + old32 / 0x1000_0000 * 0x1000_0000);
      case ExFat =>
        StoreDWord(fs, clst * 4, val);
    }
  }

  method PutFatWide(fs: FatFs, clst: nat, val: nat) returns (res: FResult)
    requires fs.Valid() && fs.fsType != Fat12 && 2 <= clst < fs.nFatent
    requires Span(fs.fsType, clst + 1) <= |FatBytes(fs)|
    modifies fs`disk, fs`wflag, fs`winsect, fs`ioErrors, fs.win
    ensures fs.Valid() && fs.SameOutsideFat(old(fs.View()), fs.View()) && fs.CopyKept()
    ensures res == FrOk || (res == FrDiskErr && fs.ioErrors > old(fs.ioErrors))
    ensures res == FrOk ==> FatBytes(fs) == PutEntry(fs.fsType, old(FatBytes(fs)), clst, val)
    ensures res == FrDiskErr ==> FatBytes(fs) == old(FatBytes(fs)) && NeedsDevice(fs, clst, old(fs.winsect))
    ensures fs.WindowNear(old(fs.winsect))
    ensures res == FrOk ==> fs.InFat(fs.winsect) && fs.wflag && fs.winsect == fs.fatbase + Quot(LastByte(fs.fsType, clst), fs.ss)
    ensures fs.device.BadSectors? ==> (res == FrDiskErr <==> StopsBefore(fs, clst, old(fs.winsect), old(fs.wflag)))
  {
    hide Quot, Rem, Bytes, FatBytes, FatFs.Valid, FatFs.View, FatFs.Mirrored, PutEntry, FatFs.SameView, FatFs.SameOutsideFat;
    Layout(fs);
    WideEntry(fs.fsType, clst, fs.ss);
    WideFirst(fs.fsType, clst, |FatBytes(fs)|);
    ghost var v := fs.View();
    res := Seek(fs, FirstByte(fs.fsType, clst));
    ghost var v1 := fs.View();
    fs.SameOutsideRefl(v1);
    if res == FrOk {
      StoreWide(fs, clst, val);
    }
    fs.SameOutsideTrans(v, v1, fs.View());
  }

  lemma WideFirst(t: FsType, k: nat, n: nat)
    requires t != Fat12 && Span(t, k + 1) <= n
    ensures FirstByte(t, k) < n
  {
  }

  lemma NotBetween(fs: FatFs, k: nat)
    requires !Straddles(fs.fsType, k, fs.ss)
    ensures !StopsBetween(fs, k)
  {
  }

  /** Change the entry of a cluster.  A disk error can leave a FAT12 entry half
      written, but never touches another entry. */
  method PutFat(fs: FatFs, clst: nat, val: nat) returns (res: FResult)
    requires fs.Valid() && val < 0x1_0000_0000
    modifies fs`disk, fs`wflag, fs`winsect, fs`ioErrors, fs.win
    ensures fs.Valid() && fs.SameOutsideFat(old(fs.View()), fs.View()) && fs.CopyKept()
    ensures res == FrOk || res == FrIntErr || (res == FrDiskErr && fs.ioErrors > old(fs.ioErrors))
    ensures res == FrIntErr <==> clst < 2 || clst >= fs.nFatent
    ensures res == FrIntErr ==> FatBytes(fs) == old(FatBytes(fs))
    ensures res == FrOk ==> Span(fs.fsType, clst + 1) <= |FatBytes(fs)|
    ensures res == FrOk ==> FatBytes(fs) == PutEntry(fs.fsType, old(FatBytes(fs)), clst, val)
    ensures res == FrOk ==> Fat(fs) == old(Fat(fs))[clst := Cut(fs.fsType, val)]
    ensures res == FrOk ==> fs.InFat(fs.winsect) && fs.wflag && fs.winsect == fs.fatbase + Quot(LastByte(fs.fsType, clst), fs.ss)
    ensures res == FrDiskErr ==> FailedPut(fs.fsType, fs.ss, old(Fat(fs)), Fat(fs), clst, val) && NeedsDevice(fs, clst, old(fs.winsect))
    ensures fs.device.BadSectors? && 2 <= clst < fs.nFatent ==>
              (res == FrDiskErr <==> StopsBefore(fs, clst, old(fs.winsect), old(fs.wflag)) || StopsBetween(fs, clst))
    ensures fs.device.BadSectors? && res == FrDiskErr ==>
              Fat(fs) == if StopsBefore(fs, clst, old(fs.winsect), old(fs.wflag)) then old(Fat(fs))
                         else old(Fat(fs))[clst := HalfEntry(old(Fat(fs))[clst], clst, val)]
    ensures res == FrDiskErr ==> forall j :: 0 <= j < fs.nFatent && j != clst ==> Fat(fs)[j] == old(Fat(fs))[j]
    ensures res == FrDiskErr && fs.fsType != Fat12 ==> FatBytes(fs) == old(FatBytes(fs))
    ensures fs.WindowNear(old(fs.winsect))
  {
    hide Quot, Rem, Bytes, FatBytes, FatFs.Valid, FatFs.View, FatFs.Mirrored, Table, PutEntry, HalfPut, NeedsDevice, Straddles, StopsBefore, StopsBetween, HalfEntry;
    if clst < 2 || clst >= fs.nFatent {
      return FrIntErr;
    }
    Layout(fs);
    SpanCovers(fs.fsType, clst, fs.nFatent);
    ghost var b := FatBytes(fs);
    PutTable(fs.fsType, b, fs.nFatent, clst, val);
    if fs.fsType == Fat12 {
      res := PutFat12(fs, clst, val);
      if res == FrDiskErr {
        HalfTable(b, fs.nFatent, clst, val);
      }
    } else {
      WideEntry(fs.fsType, clst, fs.ss);
      NotBetween(fs, clst);
      res := PutFatWide(fs, clst, val);
    }
  }
}
