/** The FAT area as f_mkfs initialises it, and the table that stands there. */
module FreshFat {
  import opened FatTable
  import opened Volume
  import opened FatAccess
  import opened FatAlloc

  function Blank(ss: nat): (b: seq<byte>)
    ensures |b| == ss
  {
    seq(ss, _ => 0)
  }

  /** The first sector of a new FAT. */
  function FirstSector(t: FsType, ss: nat): (b: seq<byte>)
    requires ss >= 512
    ensures |b| == ss
  {
    if t == Fat32 then PutDWord(PutDWord(PutDWord(Blank(ss), 0, 0xFFFF_FFF8), 4, 0xFFFF_FFFF), 8, 0x0FFF_FFFF)
    else PutDWord(Blank(ss), 0, if t == Fat12 then 0xFF_FFF8 else 0xFFFF_FFF8)
  }

  /** n sectors from at on: first, and then nothing but zeros. */
  ghost predicate Stamped(disk: seq<seq<byte>>, at: nat, n: nat, first: seq<byte>, ss: nat) {
    at + n <= |disk| && forall s {:trigger disk[s]} :: at <= s < at + n ==> disk[s] == if s == at then first else Blank(ss)
  }

  /** Only the n sectors from at on differ. */
  ghost predicate SameBut(d: seq<seq<byte>>, d': seq<seq<byte>>, at: nat, n: nat) {
    |d'| == |d| && forall s :: 0 <= s < |d| && !(at <= s < at + n) ==> d'[s] == d[s]
  }

  /** The window of the mounted volume is empty. */
  ghost predicate NoWindow(fs: FatFs)
    reads fs`disk, fs`winsect, fs`wflag, fs.win
  {
    fs.Valid() && !fs.wflag && fs.winsect == NO_SECTOR
  }

  /** Fill n sectors from at on: the first from the buffer, the others with zeros,
      as many at once as the buffer holds. */
  method Fill(fs: FatFs, first: seq<byte>, at: nat, n: nat, szBuf: nat) returns (ok: bool)
    requires NoWindow(fs) && |first| == fs.ss && 0 < n && 0 < szBuf && at + n <= |fs.disk|
    modifies fs`disk, fs`ioErrors
    ensures NoWindow(fs) && SameBut(old(fs.disk), fs.disk, at, n)
    ensures ok ==> Stamped(fs.disk, at, n, first, fs.ss) && fs.ioErrors == old(fs.ioErrors)
    ensures !ok ==> fs.ioErrors > old(fs.ioErrors)
  {
    var zero := Blank(fs.ss);
    var buf := seq(szBuf, k => if k == 0 then first else zero);
    var sect, nsect := at, n;
    ok := true;
    while nsect > 0
      invariant NoWindow(fs) && SameBut(old(fs.disk), fs.disk, at, n) && fs.ioErrors == old(fs.ioErrors) && ok
      invariant sect + nsect == at + n && sect >= at
      invariant |buf| == szBuf && forall k :: 0 <= k < szBuf ==> buf[k] == if k == 0 && sect == at then first else zero
      invariant Stamped(fs.disk, at, sect - at, first, fs.ss)
    {
      var m := if nsect > szBuf then szBuf else nsect;
      ghost var before := fs.disk;
      ok := DiskWrite(fs, buf[..m], sect);
      if !ok { return; }
      Written(before, fs.disk, at, sect, buf[..m], first, fs.ss);
      buf := buf[0 := zero];
      sect, nsect := sect + m, nsect - m;
    }
  }

  lemma Written(d: seq<seq<byte>>, d': seq<seq<byte>>, at: nat, sect: nat, secs: seq<seq<byte>>, first: seq<byte>, ss: nat)
    requires at <= sect && Stamped(d, at, sect - at, first, ss) && |d'| == |d| && sect + |secs| <= |d|
    requires forall s :: 0 <= s < |d| && !(sect <= s < sect + |secs|) ==> d'[s] == d[s]
    requires d'[sect..sect + |secs|] == secs
    requires forall k :: 0 <= k < |secs| ==> secs[k] == if k == 0 && sect == at then first else Blank(ss)
    ensures Stamped(d', at, sect + |secs| - at, first, ss)
  {
    forall s | at <= s < sect + |secs|
      ensures d'[s] == if s == at then first else Blank(ss)
    {
      if s >= sect {
        assert d'[sect..sect + |secs|][s - sect] == d'[s];
      }
    }
  }

  /** The table of a new volume: entries 0 and 1 in use, on FAT32 also the cluster
      of the root directory, and all others free. */
  function NewTable(t: FsType, n: nat): (f: seq<nat>)
    ensures |f| == n
  {
    seq(n, k requires k >= 0 => NewValue(t, k))
  }

  function NewValue(t: FsType, k: nat): nat {
    if k == 0 then Cut(t, 0xFFFF_FFF8) else if k == 1 then Cut(t, 0xFFFF_FFFF) else if k == 2 && t == Fat32 then 0x0FFF_FFFF else 0
  }

  /** The clusters that are in use in it. */
  function RootClusters(t: FsType): nat {
    if t == Fat32 then 1 else 0
  }

  lemma NewTableCounts(t: FsType, n: nat)
    requires n >= 3 && t != ExFat
    ensures FreeCount(NewTable(t, n)) == n - 2 - RootClusters(t) && !HasReserved(NewTable(t, n))
    ensures NewTable(t, n)[0] != 0 && NewTable(t, n)[1] != 0
  {
    var lo, f := 2 + RootClusters(t), NewTable(t, n);
    forall k | 0 <= k < n
      ensures f[k] != 1 && (f[k] == 0 <==> k >= lo)
    {
      NewFree(t, k);
    }
    hide NewTable, NewValue, Range;
    RangeCount(lo, n);
    forall k: nat
      ensures k in FreeSet(f) <==> k in Range(lo, n)
    {
      InRange(lo, n, k);
    }
    assert FreeSet(f) == Range(lo, n);
  }

  lemma NewFree(t: FsType, k: nat)
    requires t != ExFat
    ensures NewValue(t, k) != 1 && (NewValue(t, k) == 0 <==> k >= 2 + RootClusters(t))
  {
  }

  function Range(lo: nat, hi: nat): set<nat> {
    if lo >= hi then {} else Range(lo, hi - 1) + {hi - 1}
  }

  lemma {:induction false} InRange(lo: nat, hi: nat, k: nat)
    ensures k in Range(lo, hi) <==> lo <= k < hi
  {
    if lo < hi {
      InRange(lo, hi - 1, k);
    }
  }

  lemma {:induction false} RangeCount(lo: nat, hi: nat)
    requires lo <= hi
    ensures |Range(lo, hi)| == hi - lo
  {
    if lo < hi {
      RangeCount(lo, hi - 1);
      InRange(lo, hi - 1, hi - 1);
    }
  }

  /** The bytes of the stamped FAT: those of the first sector, then zeros. */
  lemma StampedBytes(v: seq<seq<byte>>, at: nat, n: nat, first: seq<byte>, ss: nat, p: nat)
    requires SectorSize(ss) && Stamped(v, at, n, first, ss) && |first| == ss && (forall s :: 0 <= s < |v| ==> |v[s]| == ss)
    requires p < Bytes(n, ss)
    ensures Area(v, at, n, ss)[p] == if p < ss then first[p] else 0
  {
    hide Area, Bytes, Quot, Rem;
    AreaAt(v, at, n, ss, p);
    ByteAddress(p, 1, ss);
    OneSector(ss);
    if p < ss {
      UniqueAddress(p, 0, p, ss);
    }
  }

  lemma OneSector(ss: nat)
    requires SectorSize(ss)
    ensures Bytes(1, ss) == ss && Bytes(0, ss) == 0 && ss >= 512
  {
  }

  /** The bytes from the first sector on are those of a new FAT. */
  ghost predicate NewBytes(t: FsType, b: seq<byte>, ss: nat) {
    ss >= 512 && forall p :: 0 <= p < |b| ==> b[p] == if p < ss then FirstSector(t, ss)[p] else 0
  }

  /** The entries in these bytes. */
  lemma NewEntry(t: FsType, b: seq<byte>, ss: nat, n: nat, k: nat)
    requires t != ExFat && k < n && Span(t, n) <= |b| && NewBytes(t, b, ss)
    ensures Span(t, k + 1) <= |b| && Entry(t, b, k) == NewTable(t, n)[k]
  {
    SpanCovers(t, k, n);
    hide NewBytes, FirstSector;
    match t
    case Fat12 => Bytes12(b, ss, k);
    case Fat16 => Bytes16(b, ss, k);
    case Fat32 => Bytes32(b, ss, k);
  }

  lemma Bytes12(b: seq<byte>, ss: nat, k: nat)
    requires k + k / 2 + 2 <= |b| && NewBytes(Fat12, b, ss)
    ensures Word(b, k + k / 2) == if k == 0 then 0xFFF8 else if k == 1 then 0xFFFF else 0
  {
    var q := k + k / 2;
    assert b[q] == if q == 0 then 0xF8 else if q < 3 then 0xFF else 0;
    assert b[q + 1] == if q + 1 < 3 then 0xFF else 0;
  }

  lemma Bytes16(b: seq<byte>, ss: nat, k: nat)
    requires 2 * k + 2 <= |b| && NewBytes(Fat16, b, ss)
    ensures Word(b, 2 * k) == if k == 0 then 0xFFF8 else if k == 1 then 0xFFFF else 0
  {
    assert b[2 * k] == if k == 0 then 0xF8 else if k == 1 then 0xFF else 0;
    assert b[2 * k + 1] == if k <= 1 then 0xFF else 0;
  }

  lemma Bytes32(b: seq<byte>, ss: nat, k: nat)
    requires 4 * k + 4 <= |b| && NewBytes(Fat32, b, ss)
    ensures DWord(b, 4 * k) == if k == 0 then 0xFFFF_FFF8 else if k == 1 then 0xFFFF_FFFF else if k == 2 then 0x0FFF_FFFF else 0
  {
    var f := FirstSector(Fat32, ss);
    assert f[0] == 0xF8 && f[1] == 0xFF && f[2] == 0xFF && f[3] == 0xFF;
    assert f[4] == 0xFF && f[5] == 0xFF && f[6] == 0xFF && f[7] == 0xFF;
    assert f[8] == 0xFF && f[9] == 0xFF && f[10] == 0xFF && f[11] == 0x0F;
    assert forall p :: 12 <= p < ss ==> f[p] == 0;
    if k >= 3 {
      assert b[4 * k] == 0 && b[4 * k + 1] == 0 && b[4 * k + 2] == 0 && b[4 * k + 3] == 0;
    }
  }

  lemma NewFat(fs: FatFs)
    requires NoWindow(fs) && fs.fsType != ExFat && Stamped(fs.disk, fs.fatbase, fs.fsize, FirstSector(fs.fsType, fs.ss), fs.ss)
    ensures Fat(fs) == NewTable(fs.fsType, fs.nFatent)
  {
    hide FirstSector, Quot, Rem, Bytes, NewTable, Area, Entry;
    Layout(fs);
    OneSector(fs.ss);
    var b := FatBytes(fs);
    forall p | 0 <= p < |b|
      ensures b[p] == if p < fs.ss then FirstSector(fs.fsType, fs.ss)[p] else 0
    {
      StampedBytes(fs.View(), fs.fatbase, fs.fsize, FirstSector(fs.fsType, fs.ss), fs.ss, p);
    }
    forall k | 0 <= k < fs.nFatent
      ensures Fat(fs)[k] == NewTable(fs.fsType, fs.nFatent)[k]
    {
      NewEntry(fs.fsType, b, fs.ss, fs.nFatent, k);
    }
  }

  /** All FAT copies are new. */
  ghost predicate NewCopies(fs: FatFs, disk: seq<seq<byte>>)
    requires fs.ss >= 512
  {
    && Stamped(disk, fs.fatbase, fs.fsize, FirstSector(fs.fsType, fs.ss), fs.ss)
    && (fs.nFats == 2 ==> Stamped(disk, fs.fatbase + fs.fsize, fs.fsize, FirstSector(fs.fsType, fs.ss), fs.ss))
  }

  /** Where the FATs end. */
  function FatEnd(fs: FatFs): nat {
    fs.fatbase + if fs.nFats == 2 then fs.fsize + fs.fsize else fs.fsize
  }

  /** Initialise each FAT. */
  method InitFats(fs: FatFs, szBuf: nat) returns (ok: bool)
    requires NoWindow(fs) && fs.fsType != ExFat && 0 < szBuf && FatEnd(fs) <= |fs.disk|
    modifies fs`disk, fs`ioErrors
    ensures NoWindow(fs) && SameBut(old(fs.disk), fs.disk, fs.fatbase, FatEnd(fs) - fs.fatbase)
    ensures ok ==> fs.ioErrors == old(fs.ioErrors) && fs.ss >= 512 && NewCopies(fs, fs.disk)
    ensures !ok ==> fs.ioErrors > old(fs.ioErrors)
  {
    hide FirstSector, Stamped;
    Copies(fs);
    ghost var d := fs.disk;
    ok := Fill(fs, FirstSector(fs.fsType, fs.ss), fs.fatbase, fs.fsize, szBuf);
    if ok && fs.nFats == 2 {
      ghost var d1 := fs.disk;
      ok := Fill(fs, FirstSector(fs.fsType, fs.ss), fs.fatbase + fs.fsize, fs.fsize, szBuf);
      if ok {
        StampKept(d1, fs.disk, fs.fatbase, fs.fsize, FirstSector(fs.fsType, fs.ss), fs.ss, fs.fatbase + fs.fsize, fs.fsize);
      }
    }
  }

  lemma CopiesAgree(fs: FatFs)
    requires NoWindow(fs) && fs.ss >= 512 && NewCopies(fs, fs.disk)
    ensures fs.Mirrored()
  {
    hide FirstSector;
    if fs.nFats == 2 {
      forall s: nat | fs.InFat(s) && s + fs.fsize < |fs.disk|
        ensures fs.disk[s + fs.fsize] == fs.disk[s]
      {
      }
    }
  }

  /** The part of f_mkfs that writes the FATs and an empty root directory of nDir
      sectors behind them; szBuf is the size of the work area in sectors. */
  method InitVolume(fs: FatFs, szBuf: nat, nDir: nat) returns (ok: bool)
    requires NoWindow(fs) && fs.fsType != ExFat && 0 < szBuf && 0 < nDir && FatEnd(fs) + nDir <= |fs.disk|
    modifies fs`disk, fs`ioErrors
    ensures NoWindow(fs) && SameBut(old(fs.disk), fs.disk, fs.fatbase, FatEnd(fs) + nDir - fs.fatbase)
    ensures ok ==> fs.ioErrors == old(fs.ioErrors) && Fat(fs) == NewTable(fs.fsType, fs.nFatent) && fs.Mirrored()
    ensures ok ==> Stamped(fs.disk, FatEnd(fs), nDir, Blank(fs.ss), fs.ss)
    ensures !ok ==> fs.ioErrors > old(fs.ioErrors)
  {
    hide FirstSector, Fat, Stamped, FatFs.Mirrored;
    Copies(fs);
    ok := InitFats(fs, szBuf);
    if ok {
      ghost var d1 := fs.disk;
      ok := Fill(fs, Blank(fs.ss), FatEnd(fs), nDir, szBuf);
      if ok {
        ghost var first := FirstSector(fs.fsType, fs.ss);
        StampKept(d1, fs.disk, fs.fatbase, fs.fsize, first, fs.ss, FatEnd(fs), nDir);
        if fs.nFats == 2 {
          StampKept(d1, fs.disk, fs.fatbase + fs.fsize, fs.fsize, first, fs.ss, FatEnd(fs), nDir);
        }
        NewFat(fs);
        CopiesAgree(fs);
      }
    }
  }

  lemma Copies(fs: FatFs)
    requires fs.Valid()
    ensures fs.fsize > 0 && (fs.nFats == 1 || fs.nFats == 2) && fs.ss >= 512
  {
  }

  /** Filling other sectors leaves a stamped area alone. */
  lemma StampKept(d: seq<seq<byte>>, d': seq<seq<byte>>, at: nat, n: nat, first: seq<byte>, ss: nat, to: nat, m: nat)
    requires Stamped(d, at, n, first, ss) && SameBut(d, d', to, m) && (at + n <= to || to + m <= at)
    ensures Stamped(d', at, n, first, ss)
  {
  }
}
