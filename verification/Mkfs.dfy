/** Agreement between formatting and mounting: the FAT layout loop of f_mkfs and
    the checks of mount_volume. */
module Mkfs {
  import opened FatTable
  import opened Volume

  datatype Option<T> = None | Some(value: T)

  const MAX_FAT12 := 0xFF5
  const MAX_FAT16 := 0xFFF5
  const MAX_FAT32 := 0x0FFF_FFF5
  const DWORD_SIZE := 0x1_0000_0000

  /** The value kept in a 32-bit variable. */
  function Wrap(x: int): nat {
    x % DWORD_SIZE
  }

  predicate UnitSize(pau: nat) {
    pau == 1 || pau == 2 || pau == 4 || pau == 8 || pau == 16 || pau == 32 || pau == 64 || pau == 128
  }

  predicate BlockSize(b: nat) {
    b == 1 || b == 2 || b == 4 || b == 8 || b == 16 || b == 32 || b == 64 || b == 128 || b == 0x100 || b == 0x200
    || b == 0x400 || b == 0x800 || b == 0x1000 || b == 0x2000 || b == 0x4000 || b == 0x8000
  }

  /** What f_mkfs works from, after its option checks: sector size, place and size
      of the volume, erase block size, FAT copies, root entries, cluster size (0
      for automatic) and allowed types. */
  datatype Params = Params(ss: nat, bVol: nat, szVol: nat, szBlk: nat, nFat: nat, nRoot: nat, szAu: nat, fat: bool, fat32: bool)
  {
    predicate Valid() {
      && SectorSize(ss) && 128 <= szVol && bVol + szVol <= DWORD_SIZE && szVol < DWORD_SIZE
      && BlockSize(szBlk) && (nFat == 1 || nFat == 2)
      && 1 <= nRoot <= 32768 && nRoot * 32 % ss == 0
      && (szAu == 0 || UnitSize(szAu)) && (fat || fat32)
    }
  }

  datatype Layout = Layout(fsType: FsType, pau: nat, szRsv: nat, szFat: nat, szDir: nat, nClst: nat)
  {
    /** Sectors in front of the data area. */
    function System(nFat: nat): nat {
      szRsv + szFat * nFat + szDir
    }
  }

  /** The cluster count fits the FAT type. */
  predicate InRange(t: FsType, n: nat) {
    match t
    case Fat12 => n <= MAX_FAT12
    case Fat16 => MAX_FAT12 < n <= MAX_FAT16
    case Fat32 => MAX_FAT16 < n <= MAX_FAT32
    case ExFat => false
  }

  /** No entry number below n is, cut to the width of t, one of the nine marks for the
      end of a chain and for bad clusters. */
  ghost predicate MarksApart(t: FsType, n: nat) {
    forall mark {:trigger Cut(t, mark)} :: 0xFFFF_FFF7 <= mark <= 0xFFFF_FFFF ==> Cut(t, mark) >= n
  }

  /** Of FAT12, FAT16 and FAT32 t has the narrowest entries in which n numbers are apart
      from the marks. */
  ghost predicate Narrowest(t: FsType, n: nat) {
    && MarksApart(t, n)
    && match t
       case Fat12 => true
       case Fat16 => !MarksApart(Fat12, n)
       case Fat32 => !MarksApart(Fat12, n) && !MarksApart(Fat16, n)
       case ExFat => false
  }

  lemma MarksFrom(t: FsType, n: nat)
    requires t != ExFat
    ensures MarksApart(t, n) <==> n <= EntryLimit(t)
  {
    assert Cut(t, 0xFFFF_FFF7) == EntryLimit(t);
    forall mark | 0xFFFF_FFF7 <= mark <= 0xFFFF_FFFF
      ensures Cut(t, mark) >= EntryLimit(t)
    {
    }
  }

  /** The cluster count suits exactly the type with the narrowest entries. */
  lemma RangeIsWidth(t: FsType, n: nat)
    ensures InRange(t, n) <==> Narrowest(t, n + 2)
  {
    MarksFrom(Fat12, n + 2);
    MarksFrom(Fat16, n + 2);
    MarksFrom(Fat32, n + 2);
    hide MarksApart;
  }

  /** The layout fits the volume: the clusters fill it behind the system area,
      the data area starts at an erase block, the FAT holds all entries, there are
      reserved sectors, at least 32 of them on FAT32, and the fields of the boot record
      hold the values. */
  ghost predicate Fits(p: Params, l: Layout)
    requires p.Valid()
  {
    && UnitSize(l.pau)
    && l.System(p.nFat) <= p.szVol
    && l.nClst * l.pau <= p.szVol - l.System(p.nFat) < (l.nClst + 1) * l.pau
    && (p.bVol + l.System(p.nFat)) % p.szBlk == 0
    && Span(l.fsType, l.nClst + 2) <= l.szFat * p.ss
    && 0 < l.szRsv < 0x1_0000 && (if l.fsType == Fat32 then l.szRsv >= 32 else l.szRsv <= 2) && 0 < l.szFat && (l.fsType != Fat32 ==> l.szFat < 0x1_0000)
    && l.szDir * p.ss == (if l.fsType == Fat32 then 0 else p.nRoot * 32)
  }

  /** What a good layout is: it fits, its type suits its cluster count, and the
      options are respected. */
  ghost predicate Sound(p: Params, l: Layout)
    requires p.Valid()
  {
    && Fits(p, l) && InRange(l.fsType, l.nClst)
    && (p.szAu != 0 ==> l.pau == p.szAu)
    && (if l.fsType == Fat32 then p.fat32 else p.fat)
  }

  const UNITS := [1, 4, 16, 64, 256, 512, 0]   // cluster size steps for FAT12/16
  const UNITS32 := [1, 2, 4, 8, 16, 32, 0]     // and for FAT32

  /** Automatic cluster size: it doubles with every table step that n reaches. */
  method AutoUnit(table: seq<nat>, n: nat) returns (pau: nat, i: nat)
    requires |table| == 7 && table[6] == 0 && forall j :: 0 <= j < 6 ==> table[j] != 0
    ensures i <= 6 && UnitSize(pau) && pau <= 64
    ensures (forall j :: 0 <= j < i ==> table[j] <= n) && (i < 6 ==> table[i] > n)
    ensures pau == [1, 2, 4, 8, 16, 32, 64][i]
  {
    i, pau := 0, 1;
    while table[i] != 0 && table[i] <= n
      invariant i <= 6 && pau == [1, 2, 4, 8, 16, 32, 64][i]
      invariant forall j :: 0 <= j < i ==> table[j] <= n
      decreases 6 - i
    {
      i, pau := i + 1, pau * 2;
    }
  }

  /* ---- Arithmetic ---- */

  /** Whole clusters of pau sectors. */
  function Clusters(sectors: nat, pau: nat): nat
    requires pau > 0
  {
    sectors / pau
  }

  lemma DivBounds(a: nat, c: nat)
    requires c > 0
    ensures a / c * c <= a < (a / c + 1) * c
  {
  }

  lemma MulOrder(a: nat, b: nat, c: nat)
    ensures a <= b ==> a * c <= b * c
  {
  }

  lemma DivOrder(a: nat, b: nat, c: nat)
    requires c > 0 && a <= b
    ensures a / c <= b / c
  {
    DivBounds(a, c);
    DivBounds(b, c);
    if a / c > b / c {
      MulOrder(b / c + 1, a / c, c);
    }
  }

  /** Sectors for n bytes. */
  lemma CeilSectors(n: nat, ss: nat)
    requires SectorSize(ss)
    ensures n <= (n + ss - 1) / ss * ss && (n + ss - 1) / ss <= n / 512 + 1
  {
  }

  /** Sectors to the next block boundary, as f_mkfs computes them in 32 bits. */
  function Gap(b: nat, blk: nat): nat
    requires blk > 0
  {
    Wrap(Wrap(b + blk - 1) / blk * blk - b)
  }

  lemma GapBelow(b: nat, blk: nat)
    requires 0 < blk <= 0x8000 && b < DWORD_SIZE && b + blk - 1 < DWORD_SIZE
    ensures b + Gap(b, blk) == (b + blk - 1) / blk * blk && Gap(b, blk) < blk
  {
    hide Wrap;
    var t := b + blk - 1;
    DivBounds(t, blk);
    var end := t / blk * blk;
    assert (t / blk + 1) * blk == end + blk;
    NoWrap(t);
    NoWrap(end - b);
  }

  lemma GapAtEnd(b: nat, blk: nat)
    requires 0 < blk <= 0x8000 && b < DWORD_SIZE && b + blk - 1 >= DWORD_SIZE
    ensures b + Gap(b, blk) == DWORD_SIZE && Gap(b, blk) < blk
  {
    var t := b + blk - 1 - DWORD_SIZE;
    assert Wrap(b + blk - 1) == t < blk;
    SmallQuotient(t, blk);
  }

  lemma SmallQuotient(t: nat, c: nat)
    requires t < c
    ensures t / c == 0
  {
  }

  lemma Multiple(z: nat, c: nat)
    requires c > 0
    ensures (z * c) % c == 0
  {
    var q, r := (z * c) / c, (z * c) % c;
    assert (z - q) * c == r;
    if z - q >= 1 { MulOrder(1, z - q, c); }
    if z < q { assert (q - z) * c == -r; MulOrder(1, q - z, c); }
  }

  lemma BlocksInAll(blk: nat) returns (k: nat)
    requires BlockSize(blk)
    ensures k * blk == DWORD_SIZE
  {
    k := DWORD_SIZE / blk;
  }

  lemma GapAligns(x: nat, blk: nat)
    requires BlockSize(blk)
    ensures Gap(Wrap(x), blk) < blk && (x + Gap(Wrap(x), blk)) % blk == 0
  {
    hide Gap, Wrap, BlockSize;
    BlockBounds(blk);
    var k := BlocksInAll(blk);
    var m := WrapQuotient(x);
    var b := Wrap(x);
    var q;
    if b + blk - 1 < DWORD_SIZE {
      GapBelow(b, blk);
      q := (b + blk - 1) / blk;
    } else {
      GapAtEnd(b, blk);
      q := k;
    }
    assert x + Gap(b, blk) == m * (k * blk) + q * blk == (m * k + q) * blk by {
      assert m * (k * blk) == (m * k) * blk;
      assert (m * k) * blk + q * blk == (m * k + q) * blk;
    }
    Multiple(m * k + q, blk);
  }

  lemma BlockBounds(blk: nat)
    requires BlockSize(blk)
    ensures 0 < blk <= 0x8000
  {
  }

  lemma WrapQuotient(x: nat) returns (m: nat)
    ensures x == m * DWORD_SIZE + Wrap(x) && Wrap(x) < DWORD_SIZE
  {
    m := x / DWORD_SIZE;
  }

  /* ---- One round of the layout loop ---- */

  lemma UnitBounds(pau: nat)
    requires UnitSize(pau)
    ensures 0 < pau <= 128
  {
  }

  lemma RootSectors(p: Params)
    requires p.Valid()
    ensures p.nRoot * 32 / p.ss * p.ss == p.nRoot * 32 && p.nRoot * 32 / p.ss <= 2048
  {
  }

  lemma FatBound(n: nat, ss: nat)
    requires SectorSize(ss)
    ensures Wrap(n) / ss <= 0x80_0000
  {
  }

  /** A multiple of pau fewer sectors than the volume has cannot be miscounted. */
  lemma CountClusters(szVol: nat, sys: nat, pau: nat, nClst: nat)
    requires UnitSize(pau) && szVol < DWORD_SIZE && sys < 0x200_0000 && nClst == Clusters(Wrap(szVol - sys), pau)
    ensures sys <= szVol ==> nClst * pau <= szVol - sys < (nClst + 1) * pau
    ensures sys > szVol ==> nClst > MAX_FAT16
  {
    if sys <= szVol {
      DivBounds(szVol - sys, pau);
    } else {
      assert Wrap(szVol - sys) >= 0xFE00_0000;
      DivOrder(0xFE00_0000, Wrap(szVol - sys), pau);
      EnoughUnits(pau);
    }
  }

  lemma EnoughUnits(pau: nat)
    requires UnitSize(pau)
    ensures 0xFE00_0000 / pau > MAX_FAT16
  {
  }

  /** The estimate that sized the FAT is not below the final count. */
  lemma EstimateAbove(szVol: nat, sys: nat, pau: nat, est: nat, nClst: nat)
    requires UnitSize(pau) && sys <= szVol < DWORD_SIZE && est == Clusters(szVol, pau) && nClst == Clusters(Wrap(szVol - sys), pau)
    ensures nClst <= est && est * pau <= szVol
  {
    DivOrder(szVol - sys, szVol, pau);
    DivBounds(szVol, pau);
  }

  /** A FAT16 count in range means that the estimate was moderate too. */
  lemma EstimateBelow(szVol: nat, sys: nat, pau: nat, est: nat, nClst: nat)
    requires UnitSize(pau) && sys <= szVol && est * pau <= szVol && szVol - sys < (nClst + 1) * pau && nClst <= MAX_FAT16
    ensures sys < 0x200_0000 ==> est < 0x400_0000
    ensures sys <= 0x8A00 + (2 * est + 4) / 256 ==> est < 0x40_0000
  {
    MulOrder(nClst + 1, MAX_FAT16 + 1, pau);
    UnitBounds(pau);
    if pau == 1 { assert est * pau == est; }
    else if pau == 2 { assert est * pau == est * 2; }
    else if pau == 4 { assert est * pau == est * 4; }
    else if pau == 8 { assert est * pau == est * 8; }
    else if pau == 16 { assert est * pau == est * 16; }
    else if pau == 32 { assert est * pau == est * 32; }
    else if pau == 64 { assert est * pau == est * 64; }
    else { assert est * pau == est * 128; }
  }

  /** Bytes of the FAT that is sized for est clusters (unwrapped). */
  function FatNeed(t: FsType, est: nat): nat {
    match t
    case Fat12 => (est * 3 + 1) / 2 + 3
    case Fat16 => est * 2 + 4
    case _ => est * 4 + 8
  }

  lemma SystemSize(p: Params, l: Layout, fat0: nat, gap: nat)
    requires p.Valid() && fat0 <= 0x80_0000 && gap < 0x8000 && l.szDir <= 2048
    requires l.szRsv == (if gap % p.nFat != 0 then 2 else 1) && l.szFat == fat0 + gap / p.nFat
    ensures l.System(p.nFat) == fat0 * p.nFat + gap + 1 + l.szDir
    ensures l.System(p.nFat) < 0x200_0000 && l.System(p.nFat) <= fat0 + fat0 + 0x8800
  {
    GapSpread(p.nFat, fat0, gap);
    assert fat0 * p.nFat <= fat0 + fat0;
  }

  /** The FAT that was sized with wrapped arithmetic is as large as it should be. */
  lemma FatSized(t: FsType, est: nat, ss: nat, fat0: nat)
    requires SectorSize(ss) && est < 0x1000_0000
    requires fat0 == Wrap(Wrap(FatNeed(t, est)) + ss - 1) / ss
    ensures FatNeed(t, est) <= fat0 * ss && 0 < fat0 <= FatNeed(t, est) / 512 + 1
  {
    hide FatNeed, Wrap;
    NeedRange(t, est);
    SectorRange(ss);
    var need := FatNeed(t, est);
    NoWrap(need);
    NoWrap(need + ss - 1);
    CeilSectors(need, ss);
    assert fat0 == 0 ==> fat0 * ss == 0;
  }

  lemma NeedRange(t: FsType, est: nat)
    requires est < 0x1000_0000
    ensures 0 < FatNeed(t, est) < 0x5000_0000
  {
  }

  lemma SectorRange(ss: nat)
    requires SectorSize(ss)
    ensures 512 <= ss <= 4096
  {
  }

  lemma NoWrap(x: nat)
    requires x < DWORD_SIZE
    ensures Wrap(x) == x
  {
  }

  lemma FatFits(p: Params, l: Layout, est: nat, fat0: nat, gap: nat)
    requires p.Valid() && UnitSize(l.pau) && est == Clusters(p.szVol, l.pau) && l.nClst == Clusters(Wrap(p.szVol - l.System(p.nFat)), l.pau)
    requires l.fsType == Fat16 || (l.fsType == Fat12 && est <= MAX_FAT12)
    requires fat0 == Wrap(Wrap(FatNeed(l.fsType, est)) + p.ss - 1) / p.ss
    requires l.szDir == p.nRoot * 32 / p.ss && gap < 0x8000
    requires l.szRsv == (if gap % p.nFat != 0 then 2 else 1) && l.szFat == fat0 + gap / p.nFat
    requires (p.bVol + l.System(p.nFat)) % p.szBlk == 0
    requires l.nClst <= MAX_FAT16
    ensures Fits(p, l) && est < 0x40_0000
  {
    hide Fits, SectorSize, UnitSize, InRange, BlockSize, Wrap, Params.Valid, FatNeed, Layout.System, Span;
    RootSectors(p);
    SizeChoice(p);
    FatBound(Wrap(FatNeed(l.fsType, est)) + p.ss - 1, p.ss);
    SystemSize(p, l, fat0, gap);
    var sys := l.System(p.nFat);
    CountClusters(p.szVol, sys, l.pau, l.nClst);
    EstimateAbove(p.szVol, sys, l.pau, est, l.nClst);
    EstimateBelow(p.szVol, sys, l.pau, est, l.nClst);
    FatSized(l.fsType, est, p.ss, fat0);
    NeedBound(l.fsType, est);
    EstimateBelow(p.szVol, sys, l.pau, est, l.nClst);
    MulOrder(fat0, l.szFat, p.ss);
    SpanBytes(l.fsType, l.nClst, est);
    HalfGap(gap, p.nFat);
    DoFit(p, l);
  }

  lemma Fat32Fits(p: Params, l: Layout, est: nat, gap: nat)
    requires p.Valid() && UnitSize(l.pau) && est == Clusters(p.szVol, l.pau) && l.nClst == Clusters(Wrap(p.szVol - l.System(p.nFat)), l.pau)
    requires l.fsType == Fat32 && MAX_FAT16 < est <= MAX_FAT32 && gap < 0x8000
    requires l.szFat == Wrap(Wrap(FatNeed(Fat32, est)) + p.ss - 1) / p.ss
    requires l.szRsv == 32 + gap && l.szDir == 0
    requires (p.bVol + l.System(p.nFat)) % p.szBlk == 0
    ensures Fits(p, l) && l.nClst <= MAX_FAT32
  {
    hide Fits, SectorSize, UnitSize, InRange, BlockSize, Wrap, Params.Valid, Span;
    SizeChoice(p);
    FatSized(Fat32, est, p.ss, l.szFat);
    var sys := l.System(p.nFat);
    assert l.szFat * p.nFat <= l.szFat + l.szFat;
    UnitBounds(l.pau);
    DivBounds(p.szVol, l.pau);
    MulOrder(1, l.pau, est);
    assert sys <= est <= p.szVol;
    CountClusters(p.szVol, sys, l.pau, l.nClst);
    EstimateAbove(p.szVol, sys, l.pau, est, l.nClst);
    SpanBytes(Fat32, l.nClst, est);
    DoFit(p, l);
  }

  lemma NeedBound(t: FsType, est: nat)
    ensures t == Fat16 || t == Fat12 ==> 2 * (FatNeed(t, est) / 512 + 1) <= (2 * est + 4) / 256 + 4
    ensures t == Fat16 || t == Fat12 ==> FatNeed(t, est) <= 2 * est + 4
  {
  }

  lemma HalfGap(gap: nat, nFat: nat)
    requires (nFat == 1 || nFat == 2) && gap < 0x8000
    ensures gap / nFat < 0x8000
  {
  }

  lemma DoFit(p: Params, l: Layout)
    requires p.Valid() && UnitSize(l.pau)
    requires l.System(p.nFat) <= p.szVol
    requires l.nClst * l.pau <= p.szVol - l.System(p.nFat) < (l.nClst + 1) * l.pau
    requires (p.bVol + l.System(p.nFat)) % p.szBlk == 0
    requires Span(l.fsType, l.nClst + 2) <= l.szFat * p.ss
    requires 0 < l.szRsv < 0x1_0000 && (if l.fsType == Fat32 then l.szRsv >= 32 else l.szRsv <= 2)
    requires 0 < l.szFat && (l.fsType != Fat32 ==> l.szFat < 0x1_0000)
    requires l.szDir * p.ss == (if l.fsType == Fat32 then 0 else p.nRoot * 32)
    ensures Fits(p, l)
  {
  }

  lemma SizeChoice(p: Params)
    requires p.Valid()
    ensures 512 <= p.ss <= 4096 && (p.nFat == 1 || p.nFat == 2) && 0 < p.szBlk <= 0x8000 && p.szVol < DWORD_SIZE
    ensures SectorSize(p.ss) && BlockSize(p.szBlk)
  {
  }

  /** Spreading the gap over the FAT copies moves the data area by exactly the gap. */
  lemma GapSpread(nFat: nat, fat0: nat, gap: nat)
    requires nFat == 1 || nFat == 2
    ensures (fat0 + gap / nFat) * nFat + (if gap % nFat != 0 then 1 else 0) == fat0 * nFat + gap
  {
  }

  lemma SpanBytes(t: FsType, n: nat, est: nat)
    requires n <= est
    ensures t != ExFat ==> Span(t, n + 2) <= FatNeed(t, est)
  {
  }

  /** The wrapped test for 16 clusters behind the unaligned system area is exact. */
  lemma RoomTest(bVol: nat, sys: nat, need: nat)
    requires sys + need < DWORD_SIZE
    ensures Wrap(Wrap(bVol + sys) + need - bVol) == sys + need
  {
  }

  lemma WrapAdd(a: nat, b: nat)
    ensures Wrap(Wrap(a) + b) == Wrap(a + b)
  {
  }

  lemma NeedIs(t: FsType, est: nat)
    ensures FatNeed(t, est) == match t case Fat12 => (est * 3 + 1) / 2 + 3 case Fat16 => est * 2 + 4 case _ => est * 4 + 8
  {
  }

  lemma GapShare(gap: nat, nFat: nat)
    requires nFat == 1 || nFat == 2
    ensures gap % nFat != 0 ==> gap > 0 && (gap - 1) / nFat == gap / nFat
  {
  }

  /** The automatic cluster size: with steps of 4 K sectors for FAT12 and FAT16,
      of 128 K sectors for FAT32. */
  function UnitFor(t: FsType, szVol: nat): (pau: nat)
    ensures UnitSize(pau) && pau <= 64
  {
    if t == Fat32 then
      var n := szVol / 0x20000;
      if n < 1 then 1 else if n < 2 then 2 else if n < 4 then 4 else if n < 8 then 8 else if n < 16 then 16 else if n < 32 then 32 else 64
    else
      var n := szVol / 0x1000;
      if n < 1 then 1 else if n < 4 then 2 else if n < 16 then 4 else if n < 64 then 8 else if n < 256 then 16 else if n < 512 then 32 else 64
  }

  /** The automatic cluster size keeps the number of clusters within a factor of two on
      FAT32, and within what FAT16 can hold otherwise, up to its largest step. */
  lemma AutoCounts(szVol: nat)
    ensures 0x2_0000 <= szVol < 0x80_0000 ==> 0x1_0000 <= szVol / UnitFor(Fat32, szVol) < 0x2_0000
    ensures 0x1000 <= szVol < 0x40_0000 ==> 0x800 <= szVol / UnitFor(Fat16, szVol) < 0x1_0000
  {
  }

  /** Cluster size for a volume whose cluster size is automatic. */
  method PickUnit(t: FsType, szVol: nat) returns (pau: nat)
    ensures pau == UnitFor(t, szVol)
  {
    var i;
    if t == Fat32 {
      pau, i := AutoUnit(UNITS32, szVol / 0x20000);
      Steps(UNITS32, szVol / 0x20000, i);
    } else {
      pau, i := AutoUnit(UNITS, szVol / 0x1000);
      Steps(UNITS, szVol / 0x1000, i);
    }
  }

  /** The steps reached, one by one. */
  lemma Steps(table: seq<nat>, n: nat, i: nat)
    requires |table| == 7 && i <= 6 && (forall j :: 0 <= j < i ==> table[j] <= n) && (i < 6 ==> table[i] > n)
    ensures (i > 0 ==> table[0] <= n) && (i > 1 ==> table[1] <= n) && (i > 2 ==> table[2] <= n)
    ensures (i > 3 ==> table[3] <= n) && (i > 4 ==> table[4] <= n) && (i > 5 ==> table[5] <= n)
    ensures (i == 0 ==> table[0] > n) && (i == 1 ==> table[1] > n) && (i == 2 ==> table[2] > n)
    ensures (i == 3 ==> table[3] > n) && (i == 4 ==> table[4] > n) && (i == 5 ==> table[5] > n)
  {
  }

  /** The cluster size a round works with. */
  function UnitOf(p: Params, fsty: FsType, szAu: nat): nat {
    if szAu == 0 then UnitFor(fsty, p.szVol) else szAu
  }

  /** The type a round works with: small volumes become FAT12. */
  function TypeOf(p: Params, fsty: FsType, pau: nat): FsType
    requires pau > 0
  {
    if fsty == Fat32 then Fat32 else if Clusters(p.szVol, pau) > MAX_FAT12 then Fat16 else Fat12
  }

  /** Sizes before the data area is aligned. */
  ghost predicate Estimated(p: Params, fsty: FsType, szAu: nat, ok: bool, t: FsType, pau: nat, est: nat, szFat: nat, szRsv: nat, szDir: nat)
    requires p.Valid()
  {
    && UnitSize(pau) && pau == UnitOf(p, fsty, szAu) && est == Clusters(p.szVol, pau)
    && szFat == Wrap(Wrap(FatNeed(t, est)) + p.ss - 1) / p.ss && szFat <= 0x80_0000 && szDir <= 2048 && szRsv <= 32
    && if fsty == Fat32 then t == Fat32 && szRsv == 32 && szDir == 0 && (ok <==> MAX_FAT16 < est <= MAX_FAT32)
       else ok && t == (if est > MAX_FAT12 then Fat16 else Fat12) && szRsv == 1 && szDir == p.nRoot * 32 / p.ss
  }

  /** First half of a round: cluster size, estimated cluster count and sizes of
      FAT, reserved area and root directory.  The type may turn into FAT12. */
  method Estimate(p: Params, fsty: FsType, szAu: nat)
      returns (ok: bool, t: FsType, pau: nat, est: nat, szFat: nat, szRsv: nat, szDir: nat)
    requires p.Valid() && (fsty == Fat16 || fsty == Fat32) && (szAu == 0 || UnitSize(szAu))
    ensures Estimated(p, fsty, szAu, ok, t, pau, est, szFat, szRsv, szDir)
  {
    hide SectorSize, UnitSize, BlockSize, Wrap, Gap, FatNeed;
    SizeChoice(p);
    RootSectors(p);
    ok, t, pau := true, fsty, szAu;
    if pau == 0 { pau := PickUnit(fsty, p.szVol); }
    UnitBounds(pau);
    est := Clusters(p.szVol, pau);
    if fsty == Fat32 {
      szFat := Wrap(Wrap(est * 4 + 8) + p.ss - 1) / p.ss;
      szRsv, szDir := 32, 0;
      if est <= MAX_FAT16 || est > MAX_FAT32 { ok := false; }
    } else {
      var n;
      if est > MAX_FAT12 {
        n := Wrap(est * 2 + 4);
      } else {
        t := Fat12;
        n := (est * 3 + 1) / 2 + 3;
        NoWrap(n);
      }
      szFat := Wrap(n + p.ss - 1) / p.ss;
      szRsv, szDir := 1, p.nRoot * 32 / p.ss;
    }
    NeedIs(t, est);
    FatBound(Wrap(FatNeed(t, est)) + p.ss - 1, p.ss);
  }

  /** Sectors of a FAT for the clusters of the whole volume, in 32-bit arithmetic. */
  function FatFor(p: Params, t: FsType, pau: nat): nat
    requires p.Valid() && UnitSize(pau)
  {
    Wrap(Wrap(FatNeed(t, Clusters(p.szVol, pau))) + p.ss - 1) / p.ss
  }

  /** Sectors in front of the data area before it is aligned. */
  function Unaligned(p: Params, t: FsType, pau: nat): nat
    requires p.Valid() && UnitSize(pau)
  {
    if t == Fat32 then 32 + FatFor(p, t, pau) * p.nFat else 1 + FatFor(p, t, pau) * p.nFat + p.nRoot * 32 / p.ss
  }

  /** Sectors skipped to align the data area. */
  function Skipped(p: Params, t: FsType, pau: nat): nat
    requires p.Valid() && UnitSize(pau)
  {
    Gap(Wrap(p.bVol + Unaligned(p, t, pau)), p.szBlk)
  }

  /** Clusters that are left, in 32-bit arithmetic. */
  function CountOf(p: Params, t: FsType, pau: nat): nat
    requires p.Valid() && UnitSize(pau)
  {
    Clusters(Wrap(p.szVol - (Unaligned(p, t, pau) + Skipped(p, t, pau))), pau)
  }

  /** A round gets as far as a layout: there is room for 16 clusters before the
      data area is aligned, and a FAT32 volume has about enough clusters. */
  predicate Room(p: Params, t: FsType, pau: nat)
    requires p.Valid() && UnitSize(pau)
  {
    && (t == Fat32 ==> MAX_FAT16 < Clusters(p.szVol, pau) <= MAX_FAT32)
    && Unaligned(p, t, pau) + pau * 16 <= p.szVol
  }

  /** Where the inputs put the data area of a layout. */
  ghost predicate Placed(p: Params, l: Layout)
    requires p.Valid()
  {
    && UnitSize(l.pau) && l.nClst == CountOf(p, l.fsType, l.pau)
    && l.System(p.nFat) == Unaligned(p, l.fsType, l.pau) + Skipped(p, l.fsType, l.pau)
    && Unaligned(p, l.fsType, l.pau) + l.pau * 16 <= p.szVol
    && Skipped(p, l.fsType, l.pau) < p.szBlk
  }

  lemma TwoFats(n: nat, nFat: nat)
    requires nFat == 1 || nFat == 2
    ensures 0 <= n * nFat <= n + n
  {
  }

  /** How a round ends, in terms of the inputs: with a layout exactly when there is
      room, and then with this type, cluster size and cluster count. */
  ghost predicate RoundOf(p: Params, fsty: FsType, szAu: nat, r: Option<Layout>)
    requires p.Valid() && (szAu == 0 || UnitSize(szAu))
  {
    var pau := UnitOf(p, fsty, szAu);
    var t := TypeOf(p, fsty, pau);
    && (r.Some? <==> Room(p, t, pau))
    && (r.Some? ==>
          && r.value.fsType == t && r.value.pau == pau && r.value.nClst == CountOf(p, t, pau)
          && (t == Fat32 ==> r.value.nClst <= MAX_FAT32)
          && (t == Fat32 || r.value.nClst <= MAX_FAT16 ==> Fits(p, r.value) && Placed(p, r.value)))
  }

  ghost predicate GapFilled(t: FsType, nFat: nat, gap: nat, rsv: nat, fat: nat, szRsv: nat, szFat: nat) {
    nFat > 0 && if t == Fat32 then szRsv == rsv + gap && szFat == fat
                else szRsv == rsv + (if gap % nFat != 0 then 1 else 0) && szFat == fat + gap / nFat
  }

  /** Moving the data area up: a FAT32 volume gets more reserved sectors, the
      others larger FATs. */
  method FillGap(t: FsType, nFat: nat, gap: nat, rsv: nat, fat: nat) returns (szRsv: nat, szFat: nat)
    requires nFat == 1 || nFat == 2
    ensures szRsv + szFat * nFat == rsv + fat * nFat + gap && GapFilled(t, nFat, gap, rsv, fat, szRsv, szFat)
  {
    GapShare(gap, nFat);
    GapSpread(nFat, fat, gap);
    szRsv, szFat := rsv, fat;
    var n := gap;
    if t == Fat32 {
      szRsv := szRsv + n;
    } else {
      if n % nFat != 0 {
        n, szRsv := n - 1, szRsv + 1;
      }
      szFat := szFat + n / nFat;
    }
  }

  /** What the first half of a round has found out. */
  lemma EstimatedIs(p: Params, fsty: FsType, szAu: nat, ok: bool, t: FsType, pau: nat, est: nat, szFat: nat, szRsv: nat, szDir: nat)
    requires p.Valid() && (fsty == Fat16 || fsty == Fat32) && Estimated(p, fsty, szAu, ok, t, pau, est, szFat, szRsv, szDir)
    ensures UnitSize(pau) && pau == UnitOf(p, fsty, szAu) && t == TypeOf(p, fsty, pau)
    ensures szRsv + szFat * p.nFat + szDir == Unaligned(p, t, pau)
    ensures Room(p, t, pau) <==> ok && Unaligned(p, t, pau) + pau * 16 <= p.szVol
  {
    hide Wrap, FatNeed, Params.Valid, UnitSize;
  }

  lemma NoRound(p: Params, fsty: FsType, szAu: nat, pau: nat, t: FsType)
    requires p.Valid() && (szAu == 0 || UnitSize(szAu)) && UnitSize(pau) && pau == UnitOf(p, fsty, szAu) && t == TypeOf(p, fsty, pau)
    requires !Room(p, t, pau)
    ensures RoundOf(p, fsty, szAu, None)
  {
    hide Room, Params.Valid;
  }

  lemma RoundDone(p: Params, fsty: FsType, szAu: nat, l: Layout)
    requires p.Valid() && (szAu == 0 || UnitSize(szAu)) && (fsty == Fat16 || fsty == Fat32)
    requires UnitSize(l.pau) && l.pau == UnitOf(p, fsty, szAu) && l.fsType == TypeOf(p, fsty, l.pau) && Room(p, l.fsType, l.pau)
    requires l.System(p.nFat) == Unaligned(p, l.fsType, l.pau) + Skipped(p, l.fsType, l.pau) && Skipped(p, l.fsType, l.pau) < p.szBlk
    requires l.nClst == CountOf(p, l.fsType, l.pau) && (l.fsType == Fat32 ==> l.nClst <= MAX_FAT32)
    requires l.fsType == Fat32 || l.nClst <= MAX_FAT16 ==> Fits(p, l)
    ensures RoundOf(p, fsty, szAu, Some(l))
  {
    hide Unaligned, Skipped, CountOf, Fits, UnitSize, Params.Valid, Layout.System, UnitOf;
    RoomMeans(p, l.fsType, l.pau);
  }

  lemma CountFrom(p: Params, t: FsType, pau: nat)
    requires p.Valid() && UnitSize(pau)
    ensures CountOf(p, t, pau) == Clusters(Wrap(p.szVol - (Unaligned(p, t, pau) + Skipped(p, t, pau))), pau)
    ensures Skipped(p, t, pau) == Gap(Wrap(p.bVol + Unaligned(p, t, pau)), p.szBlk)
  {
  }

  lemma RoomMeans(p: Params, t: FsType, pau: nat)
    requires p.Valid() && UnitSize(pau) && Room(p, t, pau)
    ensures Unaligned(p, t, pau) + pau * 16 <= p.szVol
  {
  }

  lemma SmallSizes(p: Params, fsty: FsType, szAu: nat, ok: bool, t: FsType, pau: nat, est: nat, szFat: nat, szRsv: nat, szDir: nat)
    requires p.Valid() && Estimated(p, fsty, szAu, ok, t, pau, est, szFat, szRsv, szDir)
    ensures 0 < pau <= 128 && szFat <= 0x80_0000 && szDir <= 2048 && szRsv <= 32 && (!ok ==> fsty == Fat32)
  {
    UnitBounds(pau);
  }

  /** One round of the layout loop: a layout for the type and cluster size to try,
      or none when the volume is too small or its cluster count out of reach. */
  method TryLayout(p: Params, fsty: FsType, szAu: nat) returns (r: Option<Layout>)
    requires p.Valid() && (fsty == Fat16 || fsty == Fat32) && (szAu == 0 || UnitSize(szAu))
    ensures RoundOf(p, fsty, szAu, r)
  {
    hide Estimated, GapFilled, Aligned, UnitSize, Wrap, Gap, RoundOf, Params.Valid, Clusters;
    SizeChoice(p);
    var ok, t, pau, est, szFat, szRsv, szDir := Estimate(p, fsty, szAu);
    SmallSizes(p, fsty, szAu, ok, t, pau, est, szFat, szRsv, szDir);
    EstimatedIs(p, fsty, szAu, ok, t, pau, est, szFat, szRsv, szDir);
    if !ok {
      NoRound(p, fsty, szAu, pau, t);
      return None;
    }
    ghost var rsv0, fat0 := szRsv, szFat;
    var bFat := Wrap(p.bVol + szRsv);
    var bData := Wrap(bFat + szFat * p.nFat + szDir);
    ghost var sys0 := szRsv + szFat * p.nFat + szDir;
    TwoFats(szFat, p.nFat);
    var gap: nat := Gap(bData, p.szBlk);
    DataBase(p, szRsv, szFat * p.nFat + szDir, bData, gap);
    szRsv, szFat := FillGap(t, p.nFat, gap, szRsv, szFat);
    RoomTest(p.bVol, sys0, pau * 16);
    if p.szVol < Wrap(bData + pau * 16 - p.bVol) {
      NoRound(p, fsty, szAu, pau, t);
      return None;
    }
    var nClst := Clusters(Wrap(p.szVol - szRsv - szFat * p.nFat - szDir), pau);
    var l := Layout(t, pau, szRsv, szFat, szDir, nClst);
    assert l.System(p.nFat) == sys0 + gap;
    FinishRound(p, fsty, szAu, l, est, rsv0, fat0, sys0, gap);
    return Some(l);
  }

  /** A layout whose cluster count suits a type fits the volume. */
  lemma RoundFits(p: Params, fsty: FsType, szAu: nat, l: Layout, est: nat, rsv0: nat, fat0: nat, sys0: nat, gap: nat)
    requires p.Valid() && (fsty == Fat16 || fsty == Fat32) && Estimated(p, fsty, szAu, true, l.fsType, l.pau, est, fat0, rsv0, l.szDir)
    requires sys0 == rsv0 + fat0 * p.nFat + l.szDir && Aligned(p, sys0, gap)
    requires GapFilled(l.fsType, p.nFat, gap, rsv0, fat0, l.szRsv, l.szFat) && l.System(p.nFat) == sys0 + gap
    requires l.nClst == Clusters(Wrap(p.szVol - l.System(p.nFat)), l.pau)
    ensures fsty == Fat32 || l.nClst <= MAX_FAT16 ==> Fits(p, l)
    ensures fsty == Fat32 ==> l.fsType == Fat32 && l.nClst <= MAX_FAT32
  {
    SizeChoice(p);
    hide Fits, Gap, Wrap, UnitSize, BlockSize, Params.Valid, FatNeed, Layout.System, Clusters, UnitOf;
    if fsty == Fat32 {
      Fat32Fits(p, l, est, gap);
    } else if l.nClst <= MAX_FAT16 {
      FatFits(p, l, est, fat0, gap);
    }
  }

  lemma FinishRound(p: Params, fsty: FsType, szAu: nat, l: Layout, est: nat, rsv0: nat, fat0: nat, sys0: nat, gap: nat)
    requires p.Valid() && (szAu == 0 || UnitSize(szAu)) && (fsty == Fat16 || fsty == Fat32)
    requires Estimated(p, fsty, szAu, true, l.fsType, l.pau, est, fat0, rsv0, l.szDir)
    requires sys0 == rsv0 + fat0 * p.nFat + l.szDir && Aligned(p, sys0, gap)
    requires GapFilled(l.fsType, p.nFat, gap, rsv0, fat0, l.szRsv, l.szFat) && l.System(p.nFat) == sys0 + gap
    requires sys0 + l.pau * 16 <= p.szVol && l.nClst == Clusters(Wrap(p.szVol - l.System(p.nFat)), l.pau)
    ensures RoundOf(p, fsty, szAu, Some(l))
  {
    RoundFits(p, fsty, szAu, l, est, rsv0, fat0, sys0, gap);
    EstimatedIs(p, fsty, szAu, true, l.fsType, l.pau, est, fat0, rsv0, l.szDir);
    CountFrom(p, l.fsType, l.pau);
    hide Unaligned, Fits, Gap, Wrap, UnitSize, Params.Valid, RoundOf, Estimated, Layout.System, Clusters, Room, UnitOf, TypeOf, CountOf, Skipped, GapFilled;
    RoundDone(p, fsty, szAu, l);
  }

  /** gap sectors behind the first sys0 of the volume comes an erase block. */
  ghost predicate Aligned(p: Params, sys0: nat, gap: nat)
    requires p.Valid()
  {
    gap == Gap(Wrap(p.bVol + sys0), p.szBlk) && gap < p.szBlk && (p.bVol + sys0 + gap) % p.szBlk == 0
  }

  /** Where the data area would start, and the gap to the next erase block. */
  lemma DataBase(p: Params, rsv: nat, rest: nat, bData: nat, gap: nat)
    requires p.Valid() && bData == Wrap(Wrap(p.bVol + rsv) + rest) && gap == Gap(bData, p.szBlk)
    ensures Aligned(p, rsv + rest, gap) && gap < 0x8000 && bData == Wrap(p.bVol + (rsv + rest))
  {
    WrapAdd(p.bVol + rsv, rest);
    GapAligns(p.bVol + rsv + rest, p.szBlk);
  }

  lemma HalfUnit(pau: nat)
    requires UnitSize(pau)
    ensures pau > 1 ==> UnitSize(pau / 2)
    ensures pau <= 64 ==> UnitSize(pau * 2)
    ensures pau / 2 == 0 <==> pau == 1
    ensures pau * 2 <= 128 <==> pau <= 64
  {
  }

  /** FAT type and cluster size of a volume. */
  datatype Choice = Choice(t: FsType, pau: nat)

  /** What the layout loop chooses from a round for fsty and cluster size szAu (0
      for automatic) on, by the inputs alone. */
  function Chosen(p: Params, fsty: FsType, szAu: nat): (c: Option<Choice>)
    requires p.Valid() && (szAu == 0 || UnitSize(szAu)) && (fsty == Fat16 || fsty == Fat32)
    ensures c.Some? ==> UnitSize(c.value.pau) && c.value.t != ExFat && Room(p, c.value.t, c.value.pau)
                        && InRange(c.value.t, CountOf(p, c.value.t, c.value.pau)) && (szAu != 0 ==> c.value.pau == szAu)
    decreases if fsty == Fat16 then 1 else 0, if szAu == 0 then 1 else 0, 1
  {
    hide Room, CountOf, Params.Valid, UnitFor;
    var pau := UnitOf(p, fsty, szAu);
    UnitBounds(pau);
    var t := TypeOf(p, fsty, pau);
    if Room(p, t, pau) then AfterRound(p, fsty, szAu, t, pau, CountOf(p, t, pau)) else None
  }

  /** The choice after a round that has come to n clusters of type t and size pau. */
  function AfterRound(p: Params, fsty: FsType, szAu: nat, t: FsType, pau: nat, n: nat): (c: Option<Choice>)
    requires p.Valid() && (szAu == 0 || UnitSize(szAu)) && (fsty == Fat16 || fsty == Fat32) && UnitSize(pau) && (szAu != 0 ==> pau == szAu)
    requires (t == Fat32 <==> fsty == Fat32) && t != ExFat && Room(p, t, pau) && n == CountOf(p, t, pau)
    ensures c.Some? ==> UnitSize(c.value.pau) && c.value.t != ExFat && Room(p, c.value.t, c.value.pau)
                        && InRange(c.value.t, CountOf(p, c.value.t, c.value.pau)) && (szAu != 0 ==> c.value.pau == szAu)
    decreases if fsty == Fat16 then 1 else 0, if szAu == 0 then 1 else 0, 0
  {
    hide Room, CountOf, Params.Valid, UnitFor;
    HalfUnit(pau);
    if InRange(t, n) then Some(Choice(t, pau))
    else if t == Fat32 then
      if n <= MAX_FAT16 && szAu == 0 && pau / 2 != 0 then Chosen(p, fsty, pau / 2) else None
    else if t == Fat12 then None
    else if n > MAX_FAT16 then
      if szAu == 0 && pau * 2 <= 64 then Chosen(p, fsty, pau * 2)
      else if p.fat32 then Chosen(p, Fat32, szAu)
      else if szAu == 0 && pau * 2 <= 128 then Chosen(p, fsty, pau * 2)
      else None
    else if szAu == 0 && pau * 2 <= 128 then Chosen(p, fsty, pau * 2)
    else None
  }

  /** The type tried first. */
  function FirstType(p: Params): FsType {
    if p.fat32 && !p.fat then Fat32 else Fat16
  }

  /** The FAT type and cluster size that f_mkfs gives a volume, if any. */
  function Plan(p: Params): Option<Choice>
    requires p.Valid()
  {
    OptionRules(p);
    Chosen(p, FirstType(p), p.szAu)
  }

  /** The type for a given cluster size: FAT12 or FAT16 by the size of the volume,
      and FAT32 when that is the only one allowed or FAT16 has too few entries. */
  function TypeForUnit(p: Params): FsType
    requires p.Valid() && p.szAu != 0
  {
    OptionRules(p);
    var t := TypeOf(p, FirstType(p), p.szAu);
    if t == Fat16 && p.fat32 && Room(p, Fat16, p.szAu) && CountOf(p, Fat16, p.szAu) > MAX_FAT16 then Fat32 else t
  }

  /** With a given cluster size a layout comes out exactly when the volume has room
      and the clusters that are left suit the type. */
  lemma GivenUnit(p: Params)
    requires p.Valid() && p.szAu != 0
    ensures UnitSize(p.szAu)
    ensures var t := TypeForUnit(p);
            Plan(p) == if Room(p, t, p.szAu) && InRange(t, CountOf(p, t, p.szAu)) then Some(Choice(t, p.szAu)) else None
  {
    OptionRules(p);
    hide Room, CountOf, Params.Valid, UnitFor, UnitSize;
  }

  /** The automatic cluster size of a FAT32 volume: halved when alignment and FATs leave
      it too few clusters. */
  function Unit32(p: Params): (pau: nat)
    requires p.Valid()
    ensures UnitSize(pau)
  {
    var b := UnitFor(Fat32, p.szVol);
    HalfUnit(b);
    if Room(p, Fat32, b) && CountOf(p, Fat32, b) <= MAX_FAT16 && b > 1 then b / 2 else b
  }

  /** FAT16 with the automatic cluster size has a wrong number of clusters. */
  predicate Misses16(p: Params)
    requires p.Valid()
  {
    var a := UnitFor(Fat16, p.szVol);
    UnitBounds(a);
    TypeOf(p, Fat16, a) == Fat16 && Room(p, Fat16, a) && !InRange(Fat16, CountOf(p, Fat16, a))
  }

  /** Cluster size and type that an automatic choice amounts to: the automatic size, or
      its double when FAT16 misses; FAT32 when it is the only type allowed or when FAT16
      has too many clusters even of the largest automatic size. */
  function Explicit(p: Params): (q: Params)
    requires p.Valid()
    ensures q.Valid() && q.szAu != 0 && q == p.(szAu := q.szAu, fat := q.fat)
    ensures !q.fat ==> p.fat32 && q.szAu == Unit32(p)
  {
    hide Room, UnitFor, Misses16, Unit32;
    var a := UnitFor(Fat16, p.szVol);
    HalfUnit(a);
    UnitBounds(a);
    if !p.fat then p.(szAu := Unit32(p))
    else if !Misses16(p) then p.(szAu := a)
    else if p.fat32 && a == 64 && CountOf(p, Fat16, a) > MAX_FAT16 then p.(szAu := Unit32(p), fat := false)
    else p.(szAu := a * 2)
  }

  /** The sizes of the layout depend neither on the given unit nor on the types allowed. */
  lemma SizesAlone(p: Params, q: Params, t: FsType, pau: nat)
    requires p.Valid() && q.Valid() && q == p.(szAu := q.szAu, fat := q.fat) && UnitSize(pau)
    ensures Room(q, t, pau) == Room(p, t, pau) && CountOf(q, t, pau) == CountOf(p, t, pau)
  {
    hide UnitSize, Params.Valid;
  }

  lemma {:induction false} SameChoice(p: Params, q: Params, fsty: FsType, u: nat)
    requires p.Valid() && q.Valid() && q == p.(szAu := q.szAu, fat := q.fat) && UnitSize(u) && (fsty == Fat16 || fsty == Fat32)
    ensures Chosen(q, fsty, u) == Chosen(p, fsty, u)
    decreases if fsty == Fat16 then 1 else 0
  {
    hide Room, CountOf, Params.Valid, UnitSize;
    UnitBounds(u);
    SizesAlone(p, q, TypeOf(p, fsty, u), u);
    if fsty == Fat16 { SameChoice(p, q, Fat32, u); }
  }

  /** An automatic cluster size gives what that explicit one gives, hence a layout
      exactly when there is room for it and the count suits the type. */
  lemma AutomaticUnit(p: Params)
    requires p.Valid() && p.szAu == 0
    ensures var q := Explicit(p);
            var t := TypeForUnit(q);
            && UnitSize(q.szAu) && Plan(p) == Plan(q)
            && Plan(p) == if Room(q, t, q.szAu) && InRange(t, CountOf(q, t, q.szAu)) then Some(Choice(t, q.szAu)) else None
  {
    var q := Explicit(p);
    GivenUnit(q);
    OptionRules(p);
    hide TypeForUnit, Chosen, Room, CountOf, Params.Valid, UnitFor, UnitSize, TypeOf, Misses16, InRange;
    if !p.fat {
      Chosen32(p);
      SameChoice(p, q, Fat32, q.szAu);
    } else {
      Explicit16(p);
      if !q.fat {
          Chosen32(p);
        SameChoice(p, q, Fat32, q.szAu);
      }
    }
  }

  lemma Chosen32(p: Params)
    requires p.Valid()
    ensures Chosen(p, Fat32, 0) == Chosen(p, Fat32, Unit32(p))
  {
    hide Room, CountOf, Params.Valid;
    HalfUnit(UnitFor(Fat32, p.szVol));
    hide UnitFor, UnitSize;
  }

  lemma Explicit16(p: Params)
    requires p.Valid() && p.szAu == 0 && p.fat
    ensures var q := Explicit(p);
            if q.fat then Chosen(p, Fat16, 0) == Chosen(q, Fat16, q.szAu) else Chosen(p, Fat16, 0) == Chosen(p, Fat32, 0)
  {
    var q := Explicit(p);
    SameChoice(p, q, Fat16, q.szAu);
    if Misses16(p) { Retried(p); } else { Settles(p); }
    hide Chosen, Misses16, Room, CountOf, UnitFor;
  }

  /** FAT16 does not miss: the first round decides. */
  lemma Settles(p: Params)
    requires p.Valid() && p.fat && !Misses16(p)
    ensures UnitSize(UnitFor(Fat16, p.szVol))
    ensures Chosen(p, Fat16, 0) == Chosen(p, Fat16, UnitFor(Fat16, p.szVol))
  {
    var a := UnitFor(Fat16, p.szVol);
    UnitBounds(a);
    hide Room, CountOf, Params.Valid, UnitFor, UnitSize, Clusters;
  }

  /** FAT16 misses: the next round has twice the cluster size, or is one for FAT32. */
  lemma Retried(p: Params)
    requires p.Valid() && p.fat && Misses16(p)
    ensures var a := UnitFor(Fat16, p.szVol);
            UnitSize(a * 2) && Chosen(p, Fat16, 0) ==
              if p.fat32 && a == 64 && CountOf(p, Fat16, a) > MAX_FAT16 then Chosen(p, Fat32, 0) else Chosen(p, Fat16, a * 2)
  {
    var a := UnitFor(Fat16, p.szVol);
    UnitBounds(a);
    HalfUnit(a);
    AfterMiss(p, a, CountOf(p, Fat16, a));
    hide Room, CountOf, Params.Valid, UnitFor, UnitSize, Clusters, AfterRound;
  }

  lemma AfterMiss(p: Params, a: nat, n: nat)
    requires p.Valid() && UnitSize(a) && UnitSize(a * 2) && a <= 64 && Room(p, Fat16, a) && n == CountOf(p, Fat16, a) && !InRange(Fat16, n)
    ensures AfterRound(p, Fat16, 0, Fat16, a, n) == if p.fat32 && a == 64 && n > MAX_FAT16 then Chosen(p, Fat32, 0) else Chosen(p, Fat16, a * 2)
  {
    assert a * 2 <= 64 || a == 64;
    hide Room, CountOf, Params.Valid, Chosen, UnitSize;
  }

  /** The layout loop of f_mkfs.  Every retry either gives up on FAT16 for good
      or fixes the cluster size, so there are at most three rounds; a layout comes
      out exactly when the inputs make one, and it is a good one. */
  method PlanFat(p: Params) returns (r: Option<Layout>)
    requires p.Valid()
    ensures r.Some? <==> Plan(p).Some?
    ensures r.Some? ==> r.value.fsType == Plan(p).value.t && r.value.pau == Plan(p).value.pau
    ensures r.Some? ==> Sound(p, r.value) && Placed(p, r.value)
    ensures r.Some? ==> Narrowest(r.value.fsType, r.value.nClst + 2)
  {
    hide Fits, UnitSize, Params.Valid, Room, CountOf, UnitFor, Chosen, RoundOf, Placed, Narrowest;
    OptionRules(p);
    var fsty := FirstType(p);
    var szAu: nat := p.szAu;
    while true
      invariant (fsty == Fat32 && p.fat32) || (fsty == Fat16 && p.fat)
      invariant szAu == 0 || UnitSize(szAu)
      invariant p.szAu != 0 ==> szAu == p.szAu
      invariant Chosen(p, fsty, szAu) == Plan(p)
      decreases if fsty == Fat16 then 1 else 0, if szAu == 0 then 1 else 0
    {
      r := TryLayout(p, fsty, szAu);
      RoundMeans(p, fsty, szAu, r);
      if r.None? { return; }
      var l := r.value;
      UnitBounds(l.pau);
      HalfUnit(l.pau);
      if l.fsType == Fat32 && l.nClst <= MAX_FAT16 {
        if szAu == 0 && l.pau / 2 != 0 {
          szAu := l.pau / 2;
          continue;
        }
        return None;
      }
      if l.fsType == Fat16 {
        if l.nClst > MAX_FAT16 {
          if szAu == 0 && l.pau * 2 <= 64 {
            szAu := l.pau * 2;
            continue;
          }
          if p.fat32 {
            fsty := Fat32;
            continue;
          }
          if szAu == 0 && l.pau * 2 <= 128 {
            szAu := l.pau * 2;
            continue;
          }
          return None;
        }
        if l.nClst <= MAX_FAT12 {
          if szAu == 0 && l.pau * 2 <= 128 {
            szAu := l.pau * 2;
            continue;
          }
          return None;
        }
      }
      if l.fsType == Fat12 && l.nClst > MAX_FAT12 { return None; }
      RangeIsWidth(l.fsType, l.nClst);
      return;
    }
  }

  /** What a round says about the choice. */
  lemma RoundMeans(p: Params, fsty: FsType, szAu: nat, r: Option<Layout>)
    requires p.Valid() && (szAu == 0 || UnitSize(szAu)) && (fsty == Fat16 || fsty == Fat32) && RoundOf(p, fsty, szAu, r)
    ensures r.None? ==> Chosen(p, fsty, szAu).None?
    ensures r.Some? ==>
              var l := r.value;
              && UnitSize(l.pau) && (szAu != 0 ==> l.pau == szAu) && (if fsty == Fat32 then l.fsType == Fat32 else l.fsType == Fat12 || l.fsType == Fat16)
              && (l.fsType == Fat32 ==> l.nClst <= MAX_FAT32)
              && (l.fsType == Fat32 || l.nClst <= MAX_FAT16 ==> Fits(p, l) && Placed(p, l))
              && Room(p, l.fsType, l.pau) && l.nClst == CountOf(p, l.fsType, l.pau)
              && Chosen(p, fsty, szAu) == AfterRound(p, fsty, szAu, l.fsType, l.pau, l.nClst)
  {
    hide Room, CountOf, Params.Valid, UnitFor, Fits, Placed;
  }

  lemma OptionRules(p: Params)
    requires p.Valid()
    ensures p.szAu == 0 || UnitSize(p.szAu)
    ensures p.fat || p.fat32
  {
  }

  /* ---- Mounting ---- */

  /** The boot record fields that the layout checks of mount_volume look at. */
  datatype Bpb = Bpb(bytsPerSec: nat, secPerClus: nat, rsvdSecCnt: nat, numFats: nat, rootEntCnt: nat,
                     totSec16: nat, totSec32: nat, fatSz16: nat, fatSz32: nat, fsVer32: nat)

  /** The boot record f_mkfs writes; the fields are 8, 16 or 32 bits wide. */
  function BootRecord(p: Params, l: Layout): Bpb {
    Bpb(p.ss % 0x1_0000, l.pau % 0x100, l.szRsv % 0x1_0000, p.nFat % 0x100,
        if l.fsType == Fat32 then 0 else p.nRoot % 0x1_0000,
        if p.szVol < 0x1_0000 then p.szVol else 0, if p.szVol < 0x1_0000 then 0 else Wrap(p.szVol),
        if l.fsType == Fat32 then 0 else l.szFat % 0x1_0000, if l.fsType == Fat32 then Wrap(l.szFat) else 0, 0)
  }

  datatype Mounted = Mounted(fsType: FsType, csize: nat, nFats: nat, nFatent: nat, fsize: nat, fatbase: nat, database: nat)

  predicate PowerOfTwo(n: nat) {
    n == 1 || (n > 1 && n % 2 == 0 && PowerOfTwo(n / 2))
  }

  lemma PowerPositive(n: nat)
    ensures PowerOfTwo(n) ==> n > 0
  {
  }

  /** FAT sectors, total sectors and system sectors according to the record. */
  function FatSectors(b: Bpb): nat {
    if b.fatSz16 != 0 then b.fatSz16 else b.fatSz32
  }

  function TotalSectors(b: Bpb): nat {
    if b.totSec16 != 0 then b.totSec16 else b.totSec32
  }

  function SystemSectors(b: Bpb, ss: nat): nat
    requires SectorSize(ss)
  {
    Wrap(b.rsvdSecCnt + Wrap(FatSectors(b) * b.numFats) + b.rootEntCnt / (ss / 32))
  }

  /** n clusters, and no more, fit into the room. */
  predicate Fills(n: nat, csize: nat, room: nat) {
    n * csize <= room < (n + 1) * csize
  }

  /** m is a volume that the boot record at sector bsect describes properly: the
      clusters fill it, their number (at least one) decides the FAT type, and the
      FAT holds all entries. */
  ghost predicate Describes(b: Bpb, ss: nat, bsect: nat, m: Mounted)
    requires SectorSize(ss)
  {
    var sys := SystemSectors(b, ss);
    && b.bytsPerSec == ss && (b.numFats == 1 || b.numFats == 2) && PowerOfTwo(b.secPerClus)
    && b.rsvdSecCnt != 0 && b.rootEntCnt % (ss / 32) == 0
    && m.csize == b.secPerClus && m.nFats == b.numFats && m.fsize == FatSectors(b)
    && m.fatbase == Wrap(bsect + b.rsvdSecCnt) && m.database == Wrap(bsect + sys)
    && m.nFatent >= 3 && SuitsType(b, ss, m.fsize, m.nFatent - 2, m.fsType)
    && sys <= TotalSectors(b)
    && Fills(m.nFatent - 2, m.csize, TotalSectors(b) - sys)
  }

  lemma QuotientIs(a: nat, c: nat, q: nat)
    requires c > 0
    ensures q * c <= a < (q + 1) * c <==> q == a / c
  {
    DivBounds(a, c);
    OnlyQuotient(a, c, q, a / c);
  }

  lemma OnlyQuotient(a: nat, c: nat, q: nat, d: nat)
    requires d * c <= a < (d + 1) * c
    ensures q * c <= a < (q + 1) * c ==> q == d
  {
    MulOrder(q + 1, d, c);
    MulOrder(d + 1, q, c);
  }

  lemma FatLargeEnough(n: nat, ss: nat, fsize: nat)
    requires SectorSize(ss)
    ensures fsize < (n + (ss - 1)) / ss <==> fsize * ss < n
  {
  }

  /** The layout checks of mount_volume for a FAT12/16/32 boot record at sector
      bsect (None where it answers FR_NO_FILESYSTEM): they accept exactly the
      records that describe a volume, and find that volume. */
  method MountLayout(b: Bpb, ss: nat, bsect: nat) returns (r: Option<Mounted>)
    requires SectorSize(ss)
    ensures r.Some? ==> Describes(b, ss, bsect, r.value) && Narrowest(r.value.fsType, r.value.nFatent)
    ensures r.None? ==> forall m :: !Describes(b, ss, bsect, m)
  {
    hide SectorSize, Wrap, SuitsType, InRange, Fills, PowerOfTwo, Narrowest;
    SectorRange(ss);
    if b.bytsPerSec != ss { return None; }
    var fasize := b.fatSz16;
    if fasize == 0 { fasize := b.fatSz32; }
    var fsize := fasize;
    var nFats := b.numFats;
    if nFats != 1 && nFats != 2 { return None; }
    fasize := Wrap(fasize * nFats);
    var csize := b.secPerClus;
    PowerPositive(csize);
    if csize == 0 || !PowerOfTwo(csize) { return None; }
    if b.rootEntCnt % (ss / 32) != 0 { return None; }
    var tsect := b.totSec16;
    if tsect == 0 { tsect := b.totSec32; }
    var nrsv := b.rsvdSecCnt;
    if nrsv == 0 { return None; }
    var sysect := Wrap(nrsv + fasize + b.rootEntCnt / (ss / 32));
    if tsect < sysect { return None; }
    var nclst := (tsect - sysect) / csize;
    CountIs(b, ss, bsect, tsect - sysect, nclst);
    if nclst == 0 { return None; }
    var fmt := SubType(b, ss, fsize, nclst);
    if fmt == ExFat { return None; }
    SuitsWidth(b, ss, fsize, nclst, fmt);
    return Some(Mounted(fmt, csize, nFats, nclst + 2, fsize, Wrap(bsect + nrsv), Wrap(bsect + sysect)));
  }

  /** The type fits the cluster count, the FAT holds all entries, and the root
      directory is of the kind that the type needs. */
  ghost predicate SuitsType(b: Bpb, ss: nat, fsize: nat, nclst: nat, t: FsType) {
    && InRange(t, nclst) && Span(t, nclst + 2) <= fsize * ss
    && if t == Fat32 then b.fsVer32 == 0 && b.rootEntCnt == 0 else b.rootEntCnt != 0
  }

  lemma SuitsWidth(b: Bpb, ss: nat, fsize: nat, nclst: nat, t: FsType)
    requires SuitsType(b, ss, fsize, nclst, t)
    ensures Narrowest(t, nclst + 2)
  {
    RangeIsWidth(t, nclst);
  }

  /** The sub-type checks of mount_volume: the one suitable type, or ExFat when
      there is none. */
  method SubType(b: Bpb, ss: nat, fsize: nat, nclst: nat) returns (fmt: FsType)
    requires SectorSize(ss)
    ensures if fmt == ExFat then forall t :: !SuitsType(b, ss, fsize, nclst, t)
            else SuitsType(b, ss, fsize, nclst, fmt) && forall t :: SuitsType(b, ss, fsize, nclst, t) ==> t == fmt
    ensures fmt != ExFat ==> Narrowest(fmt, nclst + 2)
  {
    hide Narrowest;
    RangeIsWidth(Fat12, nclst);
    RangeIsWidth(Fat16, nclst);
    RangeIsWidth(Fat32, nclst);
    fmt := ExFat;
    if nclst <= MAX_FAT32 { fmt := Fat32; }
    if nclst <= MAX_FAT16 { fmt := Fat16; }
    if nclst <= MAX_FAT12 { fmt := Fat12; }
    if fmt == ExFat { return; }
    var nFatent := nclst + 2;
    var szbfat;
    if fmt == Fat32 {
      if b.fsVer32 != 0 || b.rootEntCnt != 0 { return ExFat; }
      szbfat := nFatent * 4;
    } else {
      if b.rootEntCnt == 0 { return ExFat; }
      szbfat := if fmt == Fat16 then nFatent * 2 else nFatent * 3 / 2 + nFatent % 2;
    }
    FatLargeEnough(szbfat, ss, fsize);
    if fsize < (szbfat + (ss - 1)) / ss { return ExFat; }
  }

  /** The record leaves no choice for the number of clusters. */
  lemma CountIs(b: Bpb, ss: nat, bsect: nat, room: nat, nclst: nat)
    requires SectorSize(ss) && b.secPerClus > 0 && nclst == room / b.secPerClus
    requires SystemSectors(b, ss) <= TotalSectors(b) && room == TotalSectors(b) - SystemSectors(b, ss)
    ensures Fills(nclst, b.secPerClus, room)
    ensures forall m :: Describes(b, ss, bsect, m) ==> m.nFatent == nclst + 2
  {
    QuotientIs(room, b.secPerClus, nclst);
    forall m | Describes(b, ss, bsect, m)
      ensures m.nFatent == nclst + 2
    {
      QuotientIs(room, b.secPerClus, m.nFatent - 2);
    }
  }

  const FLOPPY := Bpb(512, 1, 1, 2, 224, 2880, 0, 9, 0, 0)

  lemma FloppyNumbers()
    ensures FatSectors(FLOPPY) == 9 && SystemSectors(FLOPPY, 512) == 33 && TotalSectors(FLOPPY) == 2880
    ensures SuitsType(FLOPPY, 512, 9, 2847, Fat12) && PowerOfTwo(1) && Fills(2847, 1, 2847)
  {
  }

  lemma FloppyOnly(m: Mounted)
    requires Describes(FLOPPY, 512, 0, m)
    ensures m == Mounted(Fat12, 1, 2, 2849, 9, 1, 33)
  {
    FloppyNumbers();
    hide FatSectors, SystemSectors, TotalSectors;
    CountIs(FLOPPY, 512, 0, 2847, 2847);
    hide Fills, PowerOfTwo;
  }

  /** The boot record of a floppy disk of 1.44 MB mounts as FAT12 with 2847 clusters. */
  method Floppy() returns (r: Option<Mounted>)
    ensures r == Some(Mounted(Fat12, 1, 2, 2849, 9, 1, 33))
  {
    FloppyNumbers();
    assert Describes(FLOPPY, 512, 0, Mounted(Fat12, 1, 2, 2849, 9, 1, 33)) by {
      hide FatSectors, SystemSectors, TotalSectors, SuitsType, Fills, PowerOfTwo;
    }
    hide Describes, FatSectors, SystemSectors, TotalSectors, SuitsType, Fills, PowerOfTwo, FLOPPY;
    r := MountLayout(FLOPPY, 512, 0);
    if r.Some? { FloppyOnly(r.value); }
  }

  /* ---- Agreement ---- */

  /** The volume that a layout is meant to become. */
  function AsPlanned(p: Params, l: Layout): Mounted {
    Mounted(l.fsType, l.pau, p.nFat, l.nClst + 2, l.szFat, Wrap(p.bVol + l.szRsv), Wrap(p.bVol + l.System(p.nFat)))
  }

  lemma RecordFields(p: Params, l: Layout)
    requires p.Valid() && Sound(p, l)
    ensures var b := BootRecord(p, l);
            && b.bytsPerSec == p.ss && b.secPerClus == l.pau && b.rsvdSecCnt == l.szRsv && b.numFats == p.nFat
            && FatSectors(b) == l.szFat && TotalSectors(b) == p.szVol
            && b.rootEntCnt == (if l.fsType == Fat32 then 0 else p.nRoot)
  {
    FatNotHuge(p, l);
    FieldBounds(p, l);
    hide Sound, Fits, Params.Valid, UnitSize, InRange, Wrap;
    NoWrap(p.szVol);
    NoWrap(l.szFat);
  }

  lemma FieldBounds(p: Params, l: Layout)
    requires p.Valid() && Sound(p, l)
    ensures 0 < p.ss < 0x1_0000 && 128 <= p.szVol < DWORD_SIZE && 0 < p.nRoot < 0x1_0000 && (p.nFat == 1 || p.nFat == 2)
    ensures 0 < l.pau < 0x100 && 0 < l.szRsv < 0x1_0000 && 0 < l.szFat && (l.fsType != Fat32 ==> l.szFat < 0x1_0000)
    ensures UnitSize(l.pau) && SectorSize(p.ss)
  {
  }

  /** The system area lies on the volume, so its sizes fit 32 bits. */
  lemma FatNotHuge(p: Params, l: Layout)
    requires p.Valid() && Fits(p, l)
    ensures l.szFat * p.nFat <= p.szVol && l.szFat <= p.szVol < DWORD_SIZE
  {
    MulOrder(1, p.nFat, l.szFat);
    assert l.szFat <= l.szFat * p.nFat;
  }

  lemma RootDirectory(p: Params, l: Layout)
    requires p.Valid() && Sound(p, l)
    ensures p.nRoot % (p.ss / 32) == 0
    ensures l.fsType != Fat32 ==> p.nRoot / (p.ss / 32) == l.szDir
    ensures l.fsType == Fat32 ==> l.szDir == 0
  {
    RootOf(p.nRoot, p.ss, l.szDir);
  }

  lemma RootOf(n: nat, ss: nat, dir: nat)
    requires SectorSize(ss) && n * 32 % ss == 0
    ensures n % (ss / 32) == 0
    ensures dir * ss == n * 32 ==> n / (ss / 32) == dir
    ensures dir * ss == 0 ==> dir == 0
  {
    var k, q := ss / 32, n * 32 / ss;
    EntriesPerSector(ss);
    assert n * 32 == q * ss == q * (32 * k) == (q * k) * 32;
    Multiple(q, k);
    if dir * ss == n * 32 {
      assert dir * ss == dir * (32 * k) == (dir * k) * 32;
      assert (dir + 1) * k == dir * k + k;
      QuotientIs(n, k, dir);
    }
    MulOrder(1, dir, ss);
  }

  lemma EntriesPerSector(ss: nat)
    requires SectorSize(ss)
    ensures ss == 32 * (ss / 32) && ss / 32 > 0
  {
  }

  lemma SystemIs(b: Bpb, ss: nat, dir: nat)
    requires SectorSize(ss) && b.rootEntCnt / (ss / 32) == dir
    requires FatSectors(b) * b.numFats < DWORD_SIZE && b.rsvdSecCnt + FatSectors(b) * b.numFats + dir < DWORD_SIZE
    ensures SystemSectors(b, ss) == b.rsvdSecCnt + FatSectors(b) * b.numFats + dir
  {
    hide FatSectors, Wrap, SectorSize;
    NoWrap(FatSectors(b) * b.numFats);
    NoWrap(b.rsvdSecCnt + FatSectors(b) * b.numFats + dir);
  }

  lemma PlannedSystem(p: Params, l: Layout)
    requires p.Valid() && Sound(p, l)
    ensures SystemSectors(BootRecord(p, l), p.ss) == l.System(p.nFat)
  {
    RecordFields(p, l);
    RootDirectory(p, l);
    SoundMeans(p, l);
    ValidPlace(p);
    var b := BootRecord(p, l);
    hide Sound, Params.Valid, BootRecord, FatSectors, SectorSize, Wrap, UnitSize, SystemSectors, Span, InRange, TotalSectors;
    EntriesPerSector(p.ss);
    SmallQuotient(0, p.ss / 32);
    SystemIs(b, p.ss, l.szDir);
  }

  lemma UnitIsPower(pau: nat)
    requires UnitSize(pau)
    ensures PowerOfTwo(pau)
  {
    assert PowerOfTwo(1) && PowerOfTwo(2) && PowerOfTwo(4) && PowerOfTwo(8);
    assert PowerOfTwo(16) && PowerOfTwo(32);
  }

  lemma SoundMeans(p: Params, l: Layout)
    requires p.Valid() && Sound(p, l)
    ensures InRange(l.fsType, l.nClst) && l.System(p.nFat) <= p.szVol
    ensures l.nClst * l.pau <= p.szVol - l.System(p.nFat) < (l.nClst + 1) * l.pau
    ensures Span(l.fsType, l.nClst + 2) <= l.szFat * p.ss
  {
  }

  lemma PlannedDescribed(p: Params, l: Layout)
    requires p.Valid() && Sound(p, l) && l.nClst >= 1
    ensures Describes(BootRecord(p, l), p.ss, p.bVol, AsPlanned(p, l))
  {
    RecordFields(p, l);
    PlannedSystem(p, l);
    RootDirectory(p, l);
    FieldBounds(p, l);
    SoundMeans(p, l);
    UnitIsPower(l.pau);
    hide Sound, Fits, Params.Valid, UnitSize, Wrap, SystemSectors, FatSectors, TotalSectors, PowerOfTwo, SectorSize, Span;
  }

  lemma OnlyPlanned(p: Params, l: Layout, m: Mounted)
    requires p.Valid() && Sound(p, l) && Describes(BootRecord(p, l), p.ss, p.bVol, m)
    ensures m == AsPlanned(p, l) && l.nClst >= 1
  {
    RecordFields(p, l);
    PlannedSystem(p, l);
    FieldBounds(p, l);
    SoundMeans(p, l);
    hide Sound, Fits, Params.Valid, UnitSize, Wrap, SystemSectors, FatSectors, TotalSectors, PowerOfTwo, SectorSize, Span;
    var room := p.szVol - l.System(p.nFat);
    QuotientIs(room, l.pau, l.nClst);
    QuotientIs(room, l.pau, m.nFatent - 2);
  }

  /** A volume formatted with a good layout is accepted by mounting, as exactly
      the volume that was laid out, if and only if it has a cluster at all. */
  lemma MountsAsPlanned(p: Params, l: Layout)
    requires p.Valid() && Sound(p, l)
    ensures Describes(BootRecord(p, l), p.ss, p.bVol, AsPlanned(p, l)) <==> l.nClst >= 1
    ensures forall m :: Describes(BootRecord(p, l), p.ss, p.bVol, m) ==> m == AsPlanned(p, l)
  {
    hide Sound, Describes, BootRecord, AsPlanned;
    forall m | Describes(BootRecord(p, l), p.ss, p.bVol, m)
      ensures m == AsPlanned(p, l) && l.nClst >= 1
    {
      OnlyPlanned(p, l, m);
    }
    if l.nClst >= 1 {
      PlannedDescribed(p, l);
    }
  }

  /** Whether a volume is formatted so that it can be mounted, by the inputs alone:
      behind the aligned system area there is room for a cluster. */
  predicate Mountable(p: Params)
    requires p.Valid()
  {
    var c := Plan(p);
    c.Some? && Unaligned(p, c.value.t, c.value.pau) + Skipped(p, c.value.t, c.value.pau) + c.value.pau <= p.szVol
  }

  /** A good layout has a cluster exactly when the inputs say so.  A volume of type
      FAT16 or FAT32 always has, and so has every volume when the erase block is at
      most 15 clusters. */
  lemma HasCluster(p: Params, l: Layout)
    requires p.Valid() && Sound(p, l) && Placed(p, l) && Plan(p) == Some(Choice(l.fsType, l.pau))
    ensures l.nClst >= 1 <==> Mountable(p)
    ensures l.fsType != Fat12 || p.szBlk <= 15 * l.pau ==> Mountable(p)
  {
    SoundMeans(p, l);
    hide Unaligned, Skipped, Params.Valid, Fits, Span, Plan, CountOf;
    MulOrder(1, l.nClst, l.pau);
  }

  /** Formatting and mounting, one after the other: mounting finds exactly the
      volume that was laid out, when it has a cluster, and refuses it otherwise. */
  method FormatAndMount(p: Params) returns (l: Option<Layout>, m: Option<Mounted>)
    requires p.Valid()
    ensures l.Some? <==> Plan(p).Some?
    ensures m.Some? <==> Mountable(p)
    ensures l.Some? ==> Sound(p, l.value) && Placed(p, l.value) && Plan(p) == Some(Choice(l.value.fsType, l.value.pau))
    ensures l.Some? ==> m == if l.value.nClst >= 1 then Some(AsPlanned(p, l.value)) else None
    ensures l.Some? ==> Narrowest(l.value.fsType, l.value.nClst + 2)
    ensures m.Some? ==> Narrowest(m.value.fsType, m.value.nFatent)
  {
    SizeChoice(p);
    hide Narrowest, Sound, Placed, Params.Valid, SectorSize, Describes, BootRecord, AsPlanned, Plan;
    l := PlanFat(p);
    m := None;
    if l.Some? {
      m := MountLayout(BootRecord(p, l.value), p.ss, p.bVol);
      MountsAsPlanned(p, l.value);
      hide Mountable;
      HasCluster(p, l.value);
    }
  }

  /** A volume of 128 sectors on a device with an erase block of 128 sectors is
      formatted successfully, without a single cluster, and cannot be mounted. */
  method FormatsWithoutCluster() returns (l: Option<Layout>, m: Option<Mounted>)
    ensures l.Some? && l.value.nClst == 0 && m.None?
  {
    var p := Params(512, 0, 128, 128, 1, 512, 1, true, false);
    SmallPlan(p);
    hide Plan, Mountable, Sound, Placed, AsPlanned;
    l, m := FormatAndMount(p);
  }

  /** The numbers of one round, step by step. */
  lemma RoundNumbers(p: Params, t: FsType, pau: nat, est: nat, fat: nat, base: nat, gap: nat, n: nat)
    requires p.Valid() && UnitSize(pau) && est == Clusters(p.szVol, pau)
    requires fat == Wrap(Wrap(FatNeed(t, est)) + p.ss - 1) / p.ss
    requires base == if t == Fat32 then 32 + fat * p.nFat else 1 + fat * p.nFat + p.nRoot * 32 / p.ss
    requires gap == Gap(Wrap(p.bVol + base), p.szBlk) && n == Clusters(Wrap(p.szVol - (base + gap)), pau)
    ensures Unaligned(p, t, pau) == base && Skipped(p, t, pau) == gap && CountOf(p, t, pau) == n
    ensures Room(p, t, pau) <==> (t == Fat32 ==> MAX_FAT16 < est <= MAX_FAT32) && base + pau * 16 <= p.szVol
  {
    hide Gap, Wrap, FatNeed, Clusters, Params.Valid, UnitSize;
  }

  lemma SmallNumbers(p: Params)
    requires p == Params(512, 0, 128, 128, 1, 512, 1, true, false)
    ensures p.Valid() && UnitSize(1) && Clusters(p.szVol, 1) == 128 && Room(p, Fat12, 1) && CountOf(p, Fat12, 1) == 0
    ensures Unaligned(p, Fat12, 1) == 34 && Skipped(p, Fat12, 1) == 94
  {
    hide Unaligned, Skipped, CountOf, Room, FatFor;
    RoundNumbers(p, Fat12, 1, 128, 1, 34, 94, 0);
  }

  lemma SmallPlan(p: Params)
    requires p == Params(512, 0, 128, 128, 1, 512, 1, true, false)
    ensures p.Valid() && Plan(p) == Some(Choice(Fat12, 1)) && !Mountable(p)
  {
    SmallNumbers(p);
    hide Unaligned, Skipped, CountOf, Room, Clusters, Params.Valid;
    GivenUnit(p);
  }

  lemma MiddleNumbers(p: Params)
    requires p == Params(512, 63, 0x1_0000, 1, 2, 512, 0, true, true)
    ensures p.Valid() && UnitFor(Fat16, p.szVol) == 8 && UnitSize(8) && Clusters(p.szVol, 8) == 8192
    ensures Room(p, Fat16, 8) && CountOf(p, Fat16, 8) == 8179 && Unaligned(p, Fat16, 8) == 99 && Skipped(p, Fat16, 8) == 0
  {
    hide Unaligned, Skipped, CountOf, Room, FatFor;
    RoundNumbers(p, Fat16, 8, 8192, 33, 99, 0, 8179);
  }

  /** 32 MiB with everything automatic: a FAT16 volume with clusters of 4 KiB. */
  lemma MiddlePlan(p: Params)
    requires p == Params(512, 63, 0x1_0000, 1, 2, 512, 0, true, true)
    ensures p.Valid() && Plan(p) == Some(Choice(Fat16, 8)) && CountOf(p, Fat16, 8) == 8179 && Mountable(p)
  {
    MiddleNumbers(p);
    hide Unaligned, Skipped, CountOf, Room, UnitFor, Clusters, Params.Valid;
  }

  predicate OneGiB(p: Params) {
    p == Params(512, 63, 0x20_0000, 1, 2, 512, 0, false, true)
  }

  lemma LargeFirst(p: Params)
    requires OneGiB(p)
    ensures p.Valid() && UnitFor(Fat32, p.szVol) == 32 && UnitSize(32) && Room(p, Fat32, 32) && CountOf(p, Fat32, 32) == 65502
  {
    hide Unaligned, Skipped, CountOf, Room, FatFor;
    RoundNumbers(p, Fat32, 32, 65536, 513, 1058, 0, 65502);
  }

  lemma LargeSecond(p: Params)
    requires OneGiB(p)
    ensures p.Valid() && UnitSize(16) && Room(p, Fat32, 16) && CountOf(p, Fat32, 16) == 130941
    ensures Unaligned(p, Fat32, 16) + Skipped(p, Fat32, 16) == 2082
  {
    hide Unaligned, Skipped, CountOf, Room, FatFor;
    RoundNumbers(p, Fat32, 16, 131072, 1025, 2082, 0, 130941);
  }

  /** 1 GiB as FAT32 takes two rounds: 32 sectors a cluster are too many. */
  lemma LargePlan(p: Params)
    requires OneGiB(p)
    ensures p.Valid() && Plan(p) == Some(Choice(Fat32, 16)) && Mountable(p)
  {
    LargeFirst(p);
    LargeSecond(p);
    hide Unaligned, Skipped, CountOf, Room, UnitFor;
  }

  /** The volume found by mounting has the geometry that file access relies on. */
  lemma PlannedGeometry(p: Params, l: Layout)
    requires p.Valid() && Sound(p, l) && l.nClst >= 1
    ensures var m := AsPlanned(p, l);
            && m.csize > 0 && m.fsize > 0 && 3 <= m.nFatent <= EntryLimit(m.fsType)
            && Span(m.fsType, m.nFatent) <= Bytes(m.fsize, p.ss)
            && p.bVol < m.fatbase && m.fatbase + m.nFats * m.fsize <= m.database
            && m.database + (m.nFatent - 2) * m.csize <= p.bVol + p.szVol
  {
    SoundMeans(p, l);
    FieldBounds(p, l);
    PlannedPlace(p, l);
    SectorArithmetic(l.szFat, p.ss);
    hide Sound, Params.Valid, UnitSize, SectorSize, Wrap, Bytes, Layout.System, Span;
  }

  lemma PlannedPlace(p: Params, l: Layout)
    requires p.Valid() && Sound(p, l) && l.nClst >= 1
    ensures Wrap(p.bVol + l.szRsv) == p.bVol + l.szRsv && Wrap(p.bVol + l.System(p.nFat)) == p.bVol + l.System(p.nFat)
    ensures p.bVol + l.szRsv + p.nFat * l.szFat <= p.bVol + l.System(p.nFat)
    ensures l.System(p.nFat) + l.nClst * l.pau <= p.szVol
  {
    SoundMeans(p, l);
    FieldBounds(p, l);
    UnitBounds(l.pau);
    ValidPlace(p);
    hide Sound, Params.Valid, UnitSize, SectorSize, Wrap, Bytes, Span;
    MulOrder(1, l.nClst, l.pau);
    assert p.nFat * l.szFat == l.szFat * p.nFat;
    NoWrap(p.bVol + l.szRsv);
    NoWrap(p.bVol + l.System(p.nFat));
  }

  lemma ValidPlace(p: Params)
    requires p.Valid()
    ensures p.bVol + p.szVol <= DWORD_SIZE && p.szVol < DWORD_SIZE && SectorSize(p.ss)
  {
  }
}
