/** From formatting to a file: a formatted volume mounts as one that the file layer
    can work on. */
module FreshVolume {
  import opened FatTable
  import opened Volume
  import opened FatAccess
  import opened FileBytes
  import opened FileIo
  import M = Mkfs
  import opened FreshFat
  import FatAlloc
  import FileClient

  /** What the file layer relies on, for a device of n sectors. */
  ghost predicate Usable(v: M.Mounted, ss: nat, n: nat) {
    && SectorSize(ss) && v.csize > 0 && v.fatbase > 0 && v.fsize > 0 && (v.nFats == 1 || v.nFats == 2) && v.fsType != ExFat
    && 3 <= v.nFatent <= EntryLimit(v.fsType) && Span(v.fsType, v.nFatent) <= Bytes(v.fsize, ss)
    && v.fatbase + v.nFats * v.fsize <= v.database && v.database + (v.nFatent - 2) * v.csize <= n <= NO_SECTOR
  }

  lemma PlanUsable(p: M.Params, l: M.Layout, n: nat)
    requires p.Valid() && M.Sound(p, l) && l.nClst >= 1 && p.bVol + p.szVol <= n <= NO_SECTOR
    ensures Usable(M.AsPlanned(p, l), p.ss, n)
  {
    M.PlannedGeometry(p, l);
    M.FieldBounds(p, l);
    NotExFat(p, l);
    hide M.Sound, M.Params.Valid, Span, Bytes, EntryLimit, M.Wrap, M.Layout.System, SectorSize;
  }

  lemma UsableFits(fs: FatFs, v: M.Mounted, n: nat)
    requires Usable(v, fs.ss, n)
    requires fs.fsType == v.fsType && fs.csize == v.csize && fs.nFats == v.nFats && fs.nFatent == v.nFatent
    requires fs.fsize == v.fsize && fs.fatbase == v.fatbase && fs.database == v.database
    ensures fs.Geometry() && FileBytes.Placed(fs, [], n) && fs.database <= n && fs.fsType != ExFat
  {
    hide Span, Bytes, EntryLimit, SectorSize;
    assert v.csize * (v.nFatent - 2) == (v.nFatent - 2) * v.csize >= 0;
    assert v.nFats * v.fsize == if v.nFats == 2 then v.fsize + v.fsize else v.fsize;
  }

  lemma NotExFat(p: M.Params, l: M.Layout)
    requires p.Valid() && M.Sound(p, l)
    ensures l.fsType != ExFat
  {
  }

  /** The sectors of the root directory that f_mkfs clears lie behind the FATs and
      inside the volume. */
  lemma RootFits(p: M.Params, l: M.Layout, fs: FatFs, n: nat)
    requires p.Valid() && M.Sound(p, l) && l.nClst >= 1 && p.bVol + p.szVol <= n <= NO_SECTOR
    requires var v := M.AsPlanned(p, l);
             fs.fsType == v.fsType && fs.csize == v.csize && fs.nFats == v.nFats && fs.fsize == v.fsize && fs.fatbase == v.fatbase
    ensures 0 < RootSectors(l) && FatEnd(fs) + RootSectors(l) <= n
  {
    M.SoundMeans(p, l);
    M.FieldBounds(p, l);
    M.PlannedPlace(p, l);
    RootSize(p, l);
    hide M.Sound, M.Params.Valid, M.UnitSize, SectorSize, M.Wrap, Span, M.InRange;
    M.MulOrder(1, l.nClst, l.pau);
    assert p.nFat * l.szFat == if p.nFat == 2 then l.szFat + l.szFat else l.szFat;
    assert l.System(p.nFat) == l.szRsv + l.szFat * p.nFat + l.szDir;
    assert l.szFat * p.nFat == p.nFat * l.szFat;
  }

  /** Number of sectors of the root directory: one cluster on FAT32. */
  function RootSectors(l: M.Layout): nat {
    if l.fsType == Fat32 then l.pau else l.szDir
  }

  lemma RootSize(p: M.Params, l: M.Layout)
    requires p.Valid() && M.Sound(p, l)
    ensures l.fsType != Fat32 ==> l.szDir > 0
  {
    assert l.szDir == 0 ==> l.szDir * p.ss == 0;
  }

  /** A new volume as mount_volume leaves it: nothing in the window, an initialised
      FAT with its copy, and a counter of free clusters that is unknown or right. */
  ghost predicate IsNew(fs: FatFs)
    reads fs`disk, fs`winsect, fs`wflag, fs`freeClst, fs.win
  {
    && NoWindow(fs) && Fat(fs) == NewTable(fs.fsType, fs.nFatent) && fs.Mirrored() && FatAlloc.FreeInfo(fs)
  }

  /** f_mkfs followed by mount_volume, on a device that holds the volume: a volume
      is mounted exactly when the inputs make one with a cluster.  szBuf is the size
      of the work area; fsinfo tells whether the FSINFO record of a FAT32 volume
      could be written and read. */
  method MountFresh(p: M.Params, disk: seq<seq<byte>>, szBuf: nat, fsinfo: bool) returns (fs: FatFs?, ok: bool)
    requires p.Valid() && p.bVol + p.szVol <= |disk| <= NO_SECTOR && forall s :: 0 <= s < |disk| ==> |disk[s]| == p.ss
    requires 0 < szBuf
    ensures fs != null <==> M.Mountable(p)
    ensures fs != null ==>
              var c := M.Plan(p).value;
              && fresh(fs) && fresh(fs.win) && fs.ss == p.ss && fs.fsType == c.t && fs.csize == c.pau
              && fs.nFatent == M.CountOf(p, c.t, c.pau) + 2
              && NoWindow(fs) && fs.fsType != ExFat && FileBytes.Placed(fs, [], |fs.disk|)
    ensures fs != null ==> if ok then fs.ioErrors == 0 && IsNew(fs) else fs.ioErrors > 0
  {
    var l, m := M.FormatAndMount(p);
    if m.None? {
      return null, false;
    }
    var v := m.value;
    PlanUsable(p, l.value, |disk|);
    CountIs(p, l.value);
    hide M.Params.Valid, M.Sound, M.Placed, M.AsPlanned, M.Plan, M.Mountable, M.CountOf, Usable, FatFs.Geometry, FileBytes.Placed, NoWindow, IsNew,
      RootSectors, FatEnd;
    fs := new FatFs(v.fsType, p.ss, v.csize, v.nFats, v.nFatent, v.fsize, v.fatbase, v.database, 0, disk, AnyTime);
    UsableFits(fs, v, |disk|);
    Unopened(fs);
    RootFits(p, l.value, fs, |disk|);
    ok := InitVolume(fs, szBuf, RootSectors(l.value));
    if ok && fsinfo && fs.fsType == Fat32 {
      fs.freeClst, fs.lastClst := fs.nFatent - 3, 2;  // n_clst - 1 as stored by f_mkfs
    }
    if ok { Counted(fs); }
  }

  lemma CountIs(p: M.Params, l: M.Layout)
    requires p.Valid() && M.Sound(p, l) && M.Placed(p, l)
    ensures l.nClst == M.CountOf(p, l.fsType, l.pau)
    ensures M.AsPlanned(p, l).fsType == l.fsType && M.AsPlanned(p, l).csize == l.pau && M.AsPlanned(p, l).nFatent == l.nClst + 2
  {
  }

  lemma Unopened(fs: FatFs)
    requires fs.Geometry() && fs.win.Length == fs.ss && fs.winsect == NO_SECTOR && !fs.wflag
    requires fs.database <= |fs.disk| <= NO_SECTOR && forall s :: 0 <= s < |fs.disk| ==> |fs.disk[s]| == fs.ss
    ensures NoWindow(fs) && fs.Valid()
  {
  }

  lemma Counted(fs: FatFs)
    requires NoWindow(fs) && fs.fsType != ExFat && Fat(fs) == NewTable(fs.fsType, fs.nFatent) && fs.Mirrored()
    requires fs.freeClst == 0xFFFF_FFFF || (fs.fsType == Fat32 && fs.freeClst == fs.nFatent - 3)
    ensures IsNew(fs)
  {
    Layout(fs);
    NewTableCounts(fs.fsType, fs.nFatent);
    hide FatFs.Valid, Fat, NewTable, FreeSet, FreeCount;
  }

  lemma NewMeans(fs: FatFs)
    requires IsNew(fs) && fs.fsType != ExFat
    ensures fs.Valid() && FatAlloc.FreeInfo(fs) && !FatAlloc.HasReserved(Fat(fs))
    ensures FreeCount(Fat(fs)) == fs.nFatent - 2 - RootClusters(fs.fsType)
  {
    Layout(fs);
    NewTableCounts(fs.fsType, fs.nFatent);
    hide FatFs.Valid, Fat, NewTable, FreeSet, FreeCount;
  }

  /** The clusters that files can have on a new volume. */
  function FileClusters(p: M.Params): nat
    requires p.Valid() && M.Plan(p).Some?
  {
    var c := M.Plan(p).value;
    var n := M.CountOf(p, c.t, c.pau);
    if n < RootClusters(c.t) then 0 else n - RootClusters(c.t)
  }

  /** Format, mount, open a new file, write, seek back and read: unless a device
      call fails, as many bytes are stored as the volume can hold, and they come
      back.  A write within the capacity is complete. */
  method FirstFile(p: M.Params, disk: seq<seq<byte>>, szBuf: nat, fsinfo: bool, data: seq<byte>, rbuff: array<byte>)
      returns (fs: FatFs?, ok: bool, bw: nat, br: nat)
    requires p.Valid() && p.bVol + p.szVol <= |disk| <= NO_SECTOR && forall s :: 0 <= s < |disk| ==> |disk[s]| == p.ss
    requires 0 < szBuf && |data| <= rbuff.Length && |data| <= 0xFFFF_FFFF
    modifies rbuff
    ensures fs != null <==> M.Mountable(p)
    ensures fs != null && fs.ioErrors == 0 ==> ok
    ensures fs != null && ok ==> bw <= |data| && br == bw && rbuff[..bw] == data[..bw]
    ensures fs != null && ok && fs.ioErrors == 0 ==>
              && M.Plan(p).Some? && bw == FileClient.Stores(fs, 0, |data|, FileClusters(p))
              && (|data| <= FileClient.Capacity(fs, FileClusters(p)) ==> bw == |data|)
  {
    bw, br := 0, 0;
    fs, ok := MountFresh(p, disk, szBuf, fsinfo);
    if fs == null || !ok {
      return;
    }
    ok, bw, br := WriteFirst(fs, data, rbuff);
    MountedPlan(p);
  }

  lemma MountedPlan(p: M.Params)
    requires p.Valid()
    ensures M.Mountable(p) ==> M.Plan(p).Some?
  {
  }

  lemma NothingToClear(fs: FatFs)
    ensures FileBytes.SectorCount(fs, []) == 0 && Bytes(0, fs.ss) == 0
  {
  }

  /** f_open for a new file: it has no cluster yet. */
  method OpenNew(fs: FatFs) returns (fp: Fil)
    requires fs.Valid() && fs.fsType != ExFat && FileBytes.Placed(fs, [], |fs.disk|)
    ensures fresh(fp) && fresh(fp.buf) && fp.fs == fs && fp.Valid() && fp.err == FrOk && fp.canRead && fp.canWrite
    ensures fp.fptr == 0 && fp.chain == []
  {
    hide FatFs.Valid, Fil.Valid, Fat, FileBytes.Placed, FileBytes.SectorCount, FileBytes.SectorAt, Bytes;
    NothingToClear(fs);
    fp := new Fil(fs, true, true, 0, 0, []);
  }

  /** Open a new file on a new volume, write, seek back and read. */
  method WriteFirst(fs: FatFs, data: seq<byte>, rbuff: array<byte>) returns (ok: bool, bw: nat, br: nat)
    requires NoWindow(fs) && fs.fsType != ExFat && FileBytes.Placed(fs, [], |fs.disk|) && fs.ioErrors == 0 && IsNew(fs)
    requires |data| <= rbuff.Length && |data| <= 0xFFFF_FFFF && rbuff != fs.win
    modifies fs`disk, fs`wflag, fs`winsect, fs`ioErrors, fs`lastClst, fs`freeClst, fs.win, rbuff
    ensures ok || fs.ioErrors > 0
    ensures ok ==> bw <= |data| && br == bw && rbuff[..bw] == data[..bw]
    ensures ok && fs.ioErrors == 0 ==> bw == FileClient.Stores(fs, 0, |data|, fs.nFatent - 2 - RootClusters(fs.fsType))
  {
    NewMeans(fs);
    hide FatFs.Valid, Fil.Valid, Fil.Content, Fil.Spares, Fat, IsNew, NoWindow, FileBytes.Placed, FileClient.Stores, FreeCount, FatAlloc.FreeInfo, FatAlloc.HasReserved;
    var fp := OpenNew(fs);
    ok, bw, br := FileClient.WriteThenRead(fp, data, rbuff);
  }
}
