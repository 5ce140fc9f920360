/** A mounted volume: its device, the one-sector access window and the
    allocation counters, with the window operations of dep/ff15/ff.c. */
module Volume {
  import opened FatTable

  datatype FResult = FrOk | FrDiskErr | FrIntErr | FrDenied | FrNotEnoughCore

  /** The value of an LBA variable that names no sector. */
  const NO_SECTOR := 0xFFFF_FFFF

  /** A device that fails as it likes, or one that fails exactly when one of the
      given sectors is to be written. */
  datatype Device = AnyTime | BadSectors(bad: set<nat>)

  /** The FATFS object.  The geometry is fixed by mounting. */
  class FatFs {
    const fsType: FsType
    const ss: nat        // sector size in bytes
    const csize: nat     // cluster size in sectors
    const nFats: nat     // number of FAT copies
    const nFatent: nat   // number of FAT entries, clusters + 2
    const fsize: nat     // sectors per FAT
    const fatbase: nat
    const database: nat
    const bitbase: nat   // exFAT allocation bitmap
    const win: array<byte>
    const device: Device

    var disk: seq<seq<byte>>  // the device, by sectors
    var winsect: nat
    var wflag: bool
    var lastClst: nat
    var freeClst: nat
    ghost var ioErrors: nat  // how many device calls have failed

    /** What mounting has checked. */
    ghost predicate Geometry() {
      && SectorSize(ss)
      && csize > 0 && fatbase > 0 && fsize > 0
      && (nFats == 1 || nFats == 2)
      && 3 <= nFatent <= EntryLimit(fsType)
      && Span(fsType, nFatent) <= Bytes(fsize, ss)
      && (nFats == 1 ==> fatbase + fsize <= database)
      && (nFats == 2 ==> fatbase + fsize + fsize <= database)
    }

    ghost predicate Valid()
      reads `disk, `winsect, `wflag, win
    {
      && Geometry() && win.Length == ss
      && database <= |disk| <= NO_SECTOR
      && (forall s :: 0 <= s < |disk| ==> |disk[s]| == ss)
      && (wflag ==> winsect < |disk| && !Mirror(winsect))
      && (!wflag && winsect < |disk| ==> win[..] == disk[winsect])
    }

    predicate InFat(s: nat) {
      fatbase <= s < fatbase + fsize
    }

    predicate Mirror(s: nat) {
      nFats == 2 && fatbase + fsize <= s < fatbase + fsize + fsize
    }

    /** The window stayed at w, or moved to a FAT sector, or lost its contents. */
    predicate WindowNear(w: nat)
      reads `winsect
    {
      winsect == w || InFat(winsect) || winsect == NO_SECTOR
    }

    /** Every sector of the first FAT that is not waiting in the window has its
        copy in the second FAT. */
    ghost predicate Mirrored()
      reads `disk, `winsect, `wflag
    {
      nFats == 2 ==> forall s: nat :: InFat(s) && s + fsize < |disk| && !(wflag && s == winsect) ==> disk[s + fsize] == disk[s]
    }

    /** The second FAT stays a copy of the first as long as no device call fails. */
    twostate predicate CopyKept()
      reads `disk, `winsect, `wflag, `ioErrors
    {
      old(ioErrors) <= ioErrors && (old(Mirrored()) && ioErrors == old(ioErrors) ==> Mirrored())
    }

    /** The device as the file system sees it: overlaid by the dirty window. */
    ghost function View(): (v: seq<seq<byte>>)
      reads `disk, `winsect, `wflag, win
      ensures |v| == |disk|
    {
      if wflag && winsect < |disk| then disk[winsect := win[..]] else disk
    }

    /** Only sectors of the second FAT differ. */
    ghost predicate SameView(v: seq<seq<byte>>, v': seq<seq<byte>>) {
      && |v'| == |v|
      && forall s: nat :: s < |v| && !Mirror(s) ==> v'[s] == v[s]
    }

    /** Only sectors of the two FATs differ. */
    ghost predicate SameOutsideFat(v: seq<seq<byte>>, v': seq<seq<byte>>) {
      && |v'| == |v|
      && forall s: nat :: s < |v| && !Mirror(s) && !InFat(s) ==> v'[s] == v[s]
    }

    lemma SameOutsideRefl(a: seq<seq<byte>>)
      ensures SameOutsideFat(a, a)
    {
    }

    lemma SameViewTrans(a: seq<seq<byte>>, b: seq<seq<byte>>, c: seq<seq<byte>>)
      requires SameView(a, b) && SameView(b, c)
      ensures SameView(a, a) && SameView(a, c)
    {
    }

    lemma SameOutsideTrans(a: seq<seq<byte>>, b: seq<seq<byte>>, c: seq<seq<byte>>)
      requires (SameView(a, b) || SameOutsideFat(a, b)) && (SameView(b, c) || SameOutsideFat(b, c))
      ensures SameOutsideFat(a, c)
    {
    }

    constructor (fsType: FsType, ss: nat, csize: nat, nFats: nat, nFatent: nat, fsize: nat,
                 fatbase: nat, database: nat, bitbase: nat, disk: seq<seq<byte>>, device: Device)
      ensures this.fsType == fsType && this.ss == ss && this.csize == csize && this.nFats == nFats
      ensures this.nFatent == nFatent && this.fsize == fsize && this.fatbase == fatbase
      ensures this.database == database && this.bitbase == bitbase && this.disk == disk && this.device == device
      ensures fresh(win) && win.Length == ss && winsect == NO_SECTOR && !wflag
      ensures lastClst == freeClst == 0xFFFF_FFFF && ioErrors == 0
    {
      this.fsType, this.ss, this.csize, this.nFats := fsType, ss, csize, nFats;
      this.nFatent, this.fsize, this.fatbase, this.database, this.bitbase := nFatent, fsize, fatbase, database, bitbase;
      win := new byte[ss](_ => 0);
      this.disk, this.device, winsect, wflag := disk, device, NO_SECTOR, false;
      lastClst, freeClst, ioErrors := 0xFFFF_FFFF, 0xFFFF_FFFF, 0;
    }
  }

  predicate SectorSize(ss: nat) {
    ss == 512 || ss == 1024 || ss == 2048 || ss == 4096
  }

  /** Quotient, remainder and product by the sector size.  They are spelled out
      for the four sizes, which keeps the solver to divisions by constants;
      SectorArithmetic says they are the usual ones. */
  function Quot(p: nat, ss: nat): nat {
    if ss == 512 then p / 512 else if ss == 1024 then p / 1024 else if ss == 2048 then p / 2048 else p / 4096
  }

  function Rem(p: nat, ss: nat): nat {
    if ss == 512 then p % 512 else if ss == 1024 then p % 1024 else if ss == 2048 then p % 2048 else p % 4096
  }

  function Bytes(n: nat, ss: nat): nat {
    if ss == 512 then n * 512 else if ss == 1024 then n * 1024 else if ss == 2048 then n * 2048 else n * 4096
  }

  lemma SectorArithmetic(p: nat, ss: nat)
    requires SectorSize(ss)
    ensures Quot(p, ss) == p / ss && Rem(p, ss) == p % ss && Bytes(p, ss) == p * ss
  {
  }

  /** Where byte p lies among sectors: facts used in place of the definitions. */
  lemma ByteAddress(p: nat, n: nat, ss: nat)
    requires SectorSize(ss)
    ensures Rem(p, ss) < ss
    ensures p < Bytes(n, ss) <==> Quot(p, ss) < n
    ensures p == Bytes(Quot(p, ss), ss) + Rem(p, ss)
  {
  }

  lemma UniqueAddress(p: nat, q: nat, r: nat, ss: nat)
    requires SectorSize(ss) && p == Bytes(q, ss) + r && r < ss
    ensures Quot(p, ss) == q && Rem(p, ss) == r
  {
  }

  lemma SameAddress(p: nat, q: nat, ss: nat)
    requires SectorSize(ss)
    ensures Quot(p, ss) == Quot(q, ss) && Rem(p, ss) == Rem(q, ss) ==> p == q
  {
    hide Quot, Rem;
    ByteAddress(p, 0, ss);
    ByteAddress(q, 0, ss);
  }

  /** Aligned words do not cross a sector boundary. */
  lemma AlignedAddress(p: nat, i: nat, ss: nat)
    requires SectorSize(ss) && ((p % 2 == 0 && i < 2) || (p % 4 == 0 && i < 4))
    ensures Quot(p + i, ss) == Quot(p, ss) && Rem(p + i, ss) == Rem(p, ss) + i < ss
  {
    hide Quot, Rem;
    ByteAddress(p, 0, ss);
    var q, r := Quot(p, ss), Rem(p, ss);
    if p % 4 == 0 {
      var m := p / 4 - if ss == 512 then q * 128 else if ss == 1024 then q * 256 else if ss == 2048 then q * 512 else q * 1024;
      assert r == 4 * m;
    } else {
      var m := p / 2 - if ss == 512 then q * 256 else if ss == 1024 then q * 512 else if ss == 2048 then q * 1024 else q * 2048;
      assert r == 2 * m;
    }
    UniqueAddress(p + i, q, r + i, ss);
  }

  lemma StartOfSector(ss: nat)
    ensures Quot(0, ss) == Rem(0, ss) == 0
  {
  }

  lemma NextByte(p: nat, ss: nat)
    requires SectorSize(ss)
    ensures Rem(p + 1, ss) == if Rem(p, ss) + 1 == ss then 0 else Rem(p, ss) + 1
    ensures Quot(p + 1, ss) == Quot(p, ss) + if Rem(p, ss) + 1 == ss then 1 else 0
  {
    hide Quot, Rem;
    ByteAddress(p, 0, ss);
    if Rem(p, ss) + 1 == ss {
      UniqueAddress(p + 1, Quot(p, ss) + 1, 0, ss);
    } else {
      UniqueAddress(p + 1, Quot(p, ss), Rem(p, ss) + 1, ss);
    }
  }

  /** Stepping from one aligned word to the next. */
  lemma NextWord(p: nat, w: nat, ss: nat)
    requires SectorSize(ss) && (w == 2 || w == 4) && p % w == 0
    ensures Rem(p + w, ss) == if Rem(p, ss) + w == ss then 0 else Rem(p, ss) + w
    ensures Quot(p + w, ss) == Quot(p, ss) + if Rem(p, ss) + w == ss then 1 else 0
  {
    hide Quot, Rem;
    AlignedAddress(p, w - 1, ss);
    NextByte(p + (w - 1), ss);
  }

  /** More entries than this and an end mark would look like a link. */
  function EntryLimit(t: FsType): nat {
    match t
    case Fat12 => 0xFF7
    case Fat16 => 0xFFF7
    case Fat32 => 0x0FFF_FFF7
    case ExFat => 0x7FFF_FFFF
  }

  /** The end mark of the code has all bits of the entry set. */
  lemma EndMarks()
    ensures Cut(Fat12, END_OF_CHAIN) == 0xFFF && Cut(Fat16, END_OF_CHAIN) == 0xFFFF
    ensures Cut(Fat32, END_OF_CHAIN) == 0x0FFF_FFFF && Cut(ExFat, END_OF_CHAIN) == 0x7FFF_FFFF
  {
  }

  lemma EndMarkIsPastTable(t: FsType)
    ensures Cut(t, END_OF_CHAIN) >= EntryLimit(t)
  {
  }

  /** memcpy into a buffer. */
  method CopyInto(a: array<byte>, at: nat, data: seq<byte>)
    requires at + |data| <= a.Length
    modifies a
    ensures a[..] == old(a[..at]) + data + old(a[at + |data|..])
  {
    forall i | 0 <= i < |data| {
      a[at + i] := data[i];
    }
  }

  /** The device call behind every write: it succeeds, or it fails and leaves
      the addressed sectors in any state. */
  method DiskWrite(fs: FatFs, buff: seq<seq<byte>>, sect: nat) returns (ok: bool)
    requires forall k :: 0 <= k < |buff| ==> |buff[k]| == fs.ss
    requires forall s :: 0 <= s < |fs.disk| ==> |fs.disk[s]| == fs.ss
    modifies fs`disk, fs`ioErrors
    ensures |fs.disk| == old(|fs.disk|)
    ensures forall s :: 0 <= s < |fs.disk| ==> |fs.disk[s]| == fs.ss
    ensures forall s :: 0 <= s < |fs.disk| && !(sect <= s < sect + |buff|) ==> fs.disk[s] == old(fs.disk[s])
    ensures ok ==> sect + |buff| <= |fs.disk|
    ensures ok ==> fs.disk[sect..sect + |buff|] == buff
    ensures fs.device.BadSectors? && sect + |buff| <= |fs.disk| ==> (ok <==> forall s :: s in fs.device.bad ==> !(sect <= s < sect + |buff|))
    ensures fs.ioErrors == old(fs.ioErrors) + if ok then 0 else 1
  {
    ok := false;
    if sect + |buff| > |fs.disk| {
      fs.ioErrors := fs.ioErrors + 1;
      return;
    }
    ok := *;
    if fs.device.BadSectors? {
      ok := forall s :: s in fs.device.bad ==> !(sect <= s < sect + |buff|);
    }
    for k := 0 to |buff|
      invariant |fs.disk| == old(|fs.disk|) && fs.ioErrors == old(fs.ioErrors)
      invariant forall s :: 0 <= s < |fs.disk| ==> |fs.disk[s]| == fs.ss
      invariant forall s :: 0 <= s < |fs.disk| && !(sect <= s < sect + k) ==> fs.disk[s] == old(fs.disk[s])
      invariant ok ==> fs.disk[sect..sect + k] == buff[..k]
    {
      var data := buff[k];
      if !ok {
        data := *;
        if |data| != fs.ss {
          data := fs.disk[sect + k];
        }
      }
      ghost var before := fs.disk;
      fs.disk := fs.disk[sect + k := data];
      assert ok ==> fs.disk[sect..sect + (k + 1)] == before[sect..sect + k] + [buff[k]];
      assert buff[..k + 1] == buff[..k] + [buff[k]];
    }
    fs.ioErrors := fs.ioErrors + if ok then 0 else 1;
  }

  /** The device call behind every read: on failure the data are arbitrary. */
  method DiskRead(fs: FatFs, sect: nat, count: nat) returns (ok: bool, buff: seq<seq<byte>>)
    requires forall s :: 0 <= s < |fs.disk| ==> |fs.disk[s]| == fs.ss
    modifies fs`ioErrors
    ensures |buff| == count && forall k :: 0 <= k < count ==> |buff[k]| == fs.ss
    ensures ok ==> sect + count <= |fs.disk| && buff == fs.disk[sect..sect + count]
    ensures fs.device.BadSectors? && sect + count <= |fs.disk| ==> ok
    ensures fs.ioErrors == old(fs.ioErrors) + if ok then 0 else 1
  {
    ok := *;
    if fs.device.BadSectors? {
      ok := true;
    }
    if ok && sect + count <= |fs.disk| {
      buff := fs.disk[sect..sect + count];
    } else {
      ok := false;
      buff := *;
      if |buff| != count || exists k :: 0 <= k < count && |buff[k]| != fs.ss {
        buff := seq(count, _ => seq(fs.ss, _ => 0));
      }
      fs.ioErrors := fs.ioErrors + 1;
    }
  }

  /** Copy the clean window to the second FAT, ignoring failure as the source does. */
  method Reflect(fs: FatFs)
    requires fs.Geometry() && fs.win.Length == fs.ss && fs.InFat(fs.winsect) && fs.nFats == 2
    requires forall s :: 0 <= s < |fs.disk| ==> |fs.disk[s]| == fs.ss
    modifies fs`disk, fs`ioErrors
    ensures |fs.disk| == old(|fs.disk|)
    ensures forall s :: 0 <= s < |fs.disk| ==> |fs.disk[s]| == fs.ss
    ensures forall s :: 0 <= s < |fs.disk| && s != fs.winsect + fs.fsize ==> fs.disk[s] == old(fs.disk[s])
    ensures fs.ioErrors >= old(fs.ioErrors)
    ensures fs.ioErrors == old(fs.ioErrors) && fs.winsect + fs.fsize < |fs.disk| ==> fs.disk[fs.winsect + fs.fsize] == fs.win[..]
  {
    var to := fs.winsect + fs.fsize;
    var ok := DiskWrite(fs, [fs.win[..]], to);
    if ok {
      assert fs.disk[to] == fs.disk[to..to + 1][0];
    }
  }

  /** Write the window back if it is dirty, and copy a FAT sector to the second FAT. */
  method SyncWindow(fs: FatFs) returns (res: FResult)
    requires fs.Valid()
    modifies fs`disk, fs`wflag, fs`ioErrors
    ensures fs.Valid() && fs.SameView(old(fs.View()), fs.View()) && fs.CopyKept()
    ensures res == FrOk || res == FrDiskErr
    ensures res == FrOk ==> !fs.wflag
    ensures res == FrDiskErr ==> fs.wflag == old(fs.wflag) && fs.ioErrors > old(fs.ioErrors)
    ensures !old(fs.wflag) ==> res == FrOk && fs.ioErrors == old(fs.ioErrors)
    ensures fs.device.BadSectors? ==> (res == FrDiskErr <==> old(fs.wflag) && fs.winsect in fs.device.bad)
  {
    res := FrOk;
    if fs.wflag {
      var ok := DiskWrite(fs, [fs.win[..]], fs.winsect);
      if ok {
        assert fs.disk[fs.winsect] == fs.disk[fs.winsect..fs.winsect + 1][0];
        fs.wflag := false;
        if fs.InFat(fs.winsect) {
          if fs.nFats == 2 {
            Reflect(fs);
          }
        }
      } else {
        res := FrDiskErr;
      }
    }
  }

  /** Make a sector appear in the window; the sector that is there needs no device. */
  method MoveWindow(fs: FatFs, sect: nat) returns (res: FResult)
    requires fs.Valid() && sect < NO_SECTOR
    modifies fs`disk, fs`wflag, fs`winsect, fs`ioErrors, fs.win
    ensures fs.Valid() && fs.SameView(old(fs.View()), fs.View()) && fs.CopyKept()
    ensures res == FrOk || (res == FrDiskErr && fs.ioErrors > old(fs.ioErrors))
    ensures res == FrOk ==> fs.winsect == sect && (sect < |fs.disk| ==> fs.win[..] == fs.View()[sect])
    ensures fs.winsect == old(fs.winsect) || fs.winsect == sect || fs.winsect == NO_SECTOR
    ensures res != FrOk ==> fs.winsect == old(fs.winsect) || fs.winsect == NO_SECTOR
    ensures sect == old(fs.winsect) ==> res == FrOk && fs.ioErrors == old(fs.ioErrors) && fs.wflag == old(fs.wflag)
    ensures sect != old(fs.winsect) && res == FrOk ==> !fs.wflag
    ensures fs.device.BadSectors? && sect < |fs.disk| ==>
              (res == FrDiskErr <==> sect != old(fs.winsect) && old(fs.wflag) && old(fs.winsect) in fs.device.bad)
  {
    res := FrOk;
    if sect != fs.winsect {
      res := SyncWindow(fs);
      if res == FrOk {
        var s := sect;
        var ok, data := DiskRead(fs, sect, 1);
        CopyInto(fs.win, 0, data[0]);
        if !ok {
          s := NO_SECTOR;
          res := FrDiskErr;
        }
        fs.winsect := s;
      }
    }
  }
}
