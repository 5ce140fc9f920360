/** The exFAT allocation bitmap: searching it and changing one bit of it. */
module Bitmap {
  import opened FatTable
  import opened Volume
  import opened FatAccess

  /* ---- Bits of a byte ---- */

  /** 1 << i. */
  function Mask(i: nat): (m: nat)
    ensures m > 0
  {
    if i == 0 then 1 else 2 * Mask(i - 1)
  }

  /** x & (1 << i). */
  predicate BitSet(x: nat, i: nat) {
    if i == 0 then x % 2 == 1 else BitSet(x / 2, i - 1)
  }

  /** x ^ (1 << i). */
  function Flip(x: nat, i: nat): nat {
    if i == 0 then x / 2 * 2 + (1 - x % 2) else Flip(x / 2, i - 1) * 2 + x % 2
  }

  lemma HalfFits(x: nat, m: nat)
    requires x < 2 * m
    ensures x / 2 < m && x / 2 * 2 + (1 - x % 2) < 2 * m
  {
  }

  lemma {:induction false} FlipByte(x: nat, i: nat, w: nat)
    requires i < w && x < Mask(w)
    ensures Flip(x, i) < Mask(w)
  {
    HalfFits(x, Mask(w - 1));
    if i > 0 {
      FlipByte(x / 2, i - 1, w - 1);
    }
  }

  lemma {:induction false} FlipOne(x: nat, i: nat, j: nat)
    ensures BitSet(Flip(x, i), j) == if i == j then !BitSet(x, j) else BitSet(x, j)
  {
    if i > 0 && j > 0 {
      FlipOne(x / 2, i - 1, j - 1);
    }
  }

  /* ---- Bits of the bitmap ---- */

  /** Bit k of the bitmap tells whether cluster k + 2 is in use. */
  predicate Used(b: seq<byte>, k: nat)
    requires k / 8 < |b|
  {
    BitSet(b[k / 8], k % 8)
  }

  /** The flags of a byte are its bits, the lowest one first. */
  lemma UsedIsBit(b: seq<byte>, k: nat)
    requires k / 8 < |b|
    ensures Used(b, k) <==> b[k / 8] as int / [1, 2, 4, 8, 16, 32, 64, 128][k % 8] % 2 == 1
  {
    BitsOfByte(b[k / 8], k % 8);
  }

  function Halved(x: nat, i: nat): nat {
    if i == 0 then x else Halved(x / 2, i - 1)
  }

  lemma {:induction false} BitOfHalf(x: nat, i: nat)
    ensures BitSet(x, i) <==> Halved(x, i) % 2 == 1
  {
    if i > 0 {
      BitOfHalf(x / 2, i - 1);
    }
  }

  lemma HalvedMore(x: nat, i: nat)
    ensures Halved(x, 0) == x && Halved(x, i + 1) == Halved(x / 2, i)
  {
  }

  lemma EightHalves(x: nat, i: nat)
    requires i < 8
    ensures Halved(x, i) == x / [1, 2, 4, 8, 16, 32, 64, 128][i]
  {
    hide Halved;
    HalvedMore(x, 0);
    HalvedMore(x / 2, 0);
    if i >= 1 {
      HalvedMore(x, i - 1);
      if i >= 2 { EightHalves(x / 2, i - 1); }
    }
  }

  lemma BitsOfByte(x: nat, i: nat)
    requires i < 8
    ensures BitSet(x, i) <==> x / [1, 2, 4, 8, 16, 32, 64, 128][i] % 2 == 1
  {
    BitOfHalf(x, i);
    EightHalves(x, i);
    hide BitSet, Halved;
  }

  function FlipUsed(b: seq<byte>, k: nat): (r: seq<byte>)
    requires k / 8 < |b|
    ensures |r| == |b|
  {
    assert Mask(8) == 256;
    FlipByte(b[k / 8], k % 8, 8);
    b[k / 8 := Flip(b[k / 8], k % 8)]
  }

  lemma FlipUsedOne(b: seq<byte>, k: nat, j: nat)
    requires k / 8 < |b| && j / 8 < |b|
    ensures Used(FlipUsed(b, k), j) == if j == k then !Used(b, j) else Used(b, j)
  {
    if j / 8 == k / 8 {
      FlipOne(b[k / 8], k % 8, j % 8);
    }
  }

  /* ---- The bitmap on the volume ---- */

  /** The number of data clusters. */
  function Total(fs: FatFs): nat
    requires fs.nFatent >= 3
  {
    fs.nFatent - 2
  }

  /** Sectors that hold the bitmap. */
  function BitSectors(fs: FatFs): nat
    requires fs.nFatent >= 3
  {
    Quot((fs.nFatent - 3) / 8, fs.ss) + 1
  }

  /** The bitmap lies behind the FAT and inside the device. */
  ghost predicate HasBitmap(fs: FatFs)
    reads fs`disk
  {
    && fs.Geometry() && fs.fsType == ExFat && fs.nFats == 1
    && fs.fatbase + fs.fsize <= fs.bitbase && fs.bitbase + BitSectors(fs) <= |fs.disk|
  }

  ghost function BitBytes(fs: FatFs): (b: seq<byte>)
    requires fs.Valid() && HasBitmap(fs)
    reads fs`disk, fs`winsect, fs`wflag, fs.win
    ensures |b| == Bytes(BitSectors(fs), fs.ss)
  {
    Layout(fs);
    Area(fs.View(), fs.bitbase, BitSectors(fs), fs.ss)
  }

  function UsedBits(b: seq<byte>, n: nat): (u: seq<bool>)
    requires forall k :: 0 <= k < n ==> k / 8 < |b|
    ensures |u| == n
  {
    seq(n, k requires 0 <= k < n => Used(b, k))
  }

  /** In-use flags of the clusters 2, 3, ... */
  ghost function InUseMap(fs: FatFs): (u: seq<bool>)
    requires fs.Valid() && HasBitmap(fs)
    reads fs`disk, fs`winsect, fs`wflag, fs.win
    ensures |u| == fs.nFatent - 2
  {
    BitCovered(fs);
    UsedBits(BitBytes(fs), fs.nFatent - 2)
  }

  lemma BitCovered(fs: FatFs)
    requires SectorSize(fs.ss) && fs.nFatent >= 3
    ensures forall k :: 0 <= k < fs.nFatent - 2 ==> k / 8 < Bytes(BitSectors(fs), fs.ss)
  {
    hide Quot, Rem;
    ByteAddress((fs.nFatent - 3) / 8, BitSectors(fs), fs.ss);
  }

  /** FAT accesses leave the bitmap alone. */
  twostate lemma BitmapUntouched(fs: FatFs)
    requires old(fs.Valid()) && old(HasBitmap(fs)) && fs.Valid() && fs.SameOutsideFat(old(fs.View()), fs.View())
    ensures HasBitmap(fs) && BitBytes(fs) == old(BitBytes(fs)) && InUseMap(fs) == old(InUseMap(fs))
  {
    hide Quot, Rem, Bytes, Area, FatFs.Mirrored;
    Layout(fs);
    SameArea(old(fs.View()), fs.View(), fs.bitbase, BitSectors(fs), fs.ss);
  }

  /** Bring the sector with bit k into the window. */
  method SeekBit(fs: FatFs, sect: nat, ghost k: nat) returns (res: FResult)
    requires fs.Valid() && HasBitmap(fs) && k < fs.nFatent - 2 && sect == fs.bitbase + Quot(k / 8, fs.ss)
    modifies fs`disk, fs`wflag, fs`winsect, fs`ioErrors, fs.win
    ensures fs.Valid() && HasBitmap(fs) && fs.SameView(old(fs.View()), fs.View())
    ensures BitBytes(fs) == old(BitBytes(fs)) && FatBytes(fs) == old(FatBytes(fs))
    ensures fs.ioErrors >= old(fs.ioErrors)
    ensures res == FrOk || (res == FrDiskErr && fs.ioErrors > old(fs.ioErrors))
    ensures res == FrOk ==> fs.winsect == sect
  {
    hide Quot, Rem, Bytes, Area, FatFs.View;
    Layout(fs);
    BitCovered(fs);
    ByteAddress(k / 8, BitSectors(fs), fs.ss);
    ghost var v := fs.View();
    res := MoveWindow(fs, sect);
    Layout(fs);
    SameArea(v, fs.View(), fs.bitbase, BitSectors(fs), fs.ss);
    SameArea(v, fs.View(), fs.fatbase, fs.fsize, fs.ss);
  }

  lemma WindowBit(fs: FatFs, k: nat)
    requires fs.Valid() && HasBitmap(fs) && k < fs.nFatent - 2 && fs.winsect == fs.bitbase + Quot(k / 8, fs.ss)
    ensures Rem(k / 8, fs.ss) < fs.win.Length
    ensures BitSet(fs.win[Rem(k / 8, fs.ss)], k % 8) == InUseMap(fs)[k]
  {
    hide Quot, Rem, Bytes, Area, FatFs.Mirrored;
    Layout(fs);
    BitCovered(fs);
    AreaAt(fs.View(), fs.bitbase, BitSectors(fs), fs.ss, k / 8);
  }

  /** The t-th bit visited when starting at start and wrapping at total. */
  function Wrap(start: nat, t: nat, total: nat): nat {
    if start + t < total then start + t else start + t - total
  }

  ghost predicate Full(u: seq<bool>) {
    forall k :: 0 <= k < |u| ==> u[k]
  }

  /** k is the first clear flag met when starting at start and wrapping at the end. */
  ghost predicate FirstFree(u: seq<bool>, start: nat, k: nat) {
    exists n: nat :: n < |u| && k == Wrap(start, n, |u|) && k < |u| && !u[k] && AllUsed(u, start, n)
  }

  /** The first n flags met from start on are all set. */
  ghost predicate AllUsed(u: seq<bool>, start: nat, n: nat) {
    forall t: nat :: t < n && Wrap(start, t, |u|) < |u| ==> u[Wrap(start, t, |u|)]
  }

  /** The flags met as number m to m + len - 1 are all clear. */
  ghost predicate ClearRun(u: seq<bool>, start: nat, m: nat, len: nat) {
    forall t: nat :: m <= t < m + len && Wrap(start, t, |u|) < |u| ==> !u[Wrap(start, t, |u|)]
  }

  /** Among the first n flags met there is no run of len clear ones. */
  ghost predicate NoRun(u: seq<bool>, start: nat, n: nat, len: nat) {
    forall m: nat :: m + len <= n ==> !ClearRun(u, start, m, len)
  }

  /** The first run of len clear flags met begins at k. */
  ghost predicate FirstRun(u: seq<bool>, start: nat, len: nat, k: nat) {
    exists m: nat :: len > 0 && m + len <= |u| && k == Wrap(start, m, |u|) && k < |u| && ClearRun(u, start, m, len)
                     && NoRun(u, start, m + len - 1, len)
  }

  /** The state of the search after n flags: the last c are clear, begin at scl, and
      have a set one before them. */
  ghost predicate Scanning(u: seq<bool>, start: nat, n: nat, c: nat, len: nat, scl: nat) {
    && start < |u| && c <= n <= |u| && c < len && scl == Wrap(start, n - c, |u|)
    && ClearRun(u, start, n - c, c) && NoRun(u, start, n, len) && SetAt(u, start, n - c)
  }

  /** Before the m-th flag met there is a set one, or none. */
  ghost predicate SetAt(u: seq<bool>, start: nat, m: nat) {
    m > 0 ==> Wrap(start, m - 1, |u|) < |u| && u[Wrap(start, m - 1, |u|)]
  }

  lemma ScanStart(u: seq<bool>, start: nat, len: nat)
    requires start < |u| && len > 0
    ensures Wrap(start, 0, |u|) == start && Scanning(u, start, 0, 0, len, start)
  {
  }

  lemma WrapStep(u: seq<bool>, start: nat, n: nat)
    requires start < |u| && n < |u|
    ensures Wrap(start, n, |u|) < |u|
    ensures Wrap(start, n + 1, |u|) == if Wrap(start, n, |u|) + 1 >= |u| then 0 else Wrap(start, n, |u|) + 1
    ensures Wrap(start, n + 1, |u|) == start <==> n + 1 == |u|
  {
  }

  /** A set flag ends every run. */
  lemma NoRunPast(u: seq<bool>, start: nat, n: nat, len: nat, at: nat)
    requires start < |u| && n < |u| && len > 0 && NoRun(u, start, n, len)
    requires at <= n < at + len && u[Wrap(start, at, |u|)]
    ensures NoRun(u, start, n + 1, len)
  {
    forall m: nat | m + len <= n + 1
      ensures !ClearRun(u, start, m, len)
    {
      if m + len == n + 1 { RunHas(u, start, m, len, at); }
    }
  }

  lemma RunHas(u: seq<bool>, start: nat, m: nat, len: nat, t: nat)
    requires start < |u| && m <= t < m + len && t < |u|
    ensures Wrap(start, t, |u|) < |u|
    ensures ClearRun(u, start, m, len) ==> !u[Wrap(start, t, |u|)]
  {
  }

  lemma ScanStep(u: seq<bool>, start: nat, n: nat, c: nat, len: nat, scl: nat)
    requires Scanning(u, start, n, c, len, scl) && n < |u|
    ensures var val := Wrap(start, n, |u|);
            && val < |u|
            && if u[val] then Scanning(u, start, n + 1, 0, len, Wrap(start, n + 1, |u|))
               else if c + 1 == len then FirstRun(u, start, len, scl)
               else Scanning(u, start, n + 1, c + 1, len, scl)
  {
    WrapStep(u, start, n);
    if u[Wrap(start, n, |u|)] {
      NoRunPast(u, start, n, len, n);
    } else {
      hide Wrap;
      assert ClearRun(u, start, n - c, c + 1);
      if c + 1 == len {
        RunStart(u, start, n - c);
      } else if n - c > 0 && n - c - 1 + len > n {
        NoRunPast(u, start, n, len, n - c - 1);
      }
    }
  }

  lemma RunStart(u: seq<bool>, start: nat, m: nat)
    requires start < |u| && m < |u|
    ensures Wrap(start, m, |u|) < |u|
  {
  }

  /** A search for one flag: the first clear one, or all are set. */
  lemma RunOfOne(u: seq<bool>, start: nat)
    requires start < |u|
    ensures NoRun(u, start, |u|, 1) ==> Full(u)
    ensures forall k: nat :: FirstRun(u, start, 1, k) ==> FirstFree(u, start, k)
  {
    if NoRun(u, start, |u|, 1) {
      forall k | 0 <= k < |u|
        ensures u[k]
      {
        var t: nat := if k >= start then k - start else k + |u| - start;
        assert !ClearRun(u, start, t, 1) && Wrap(start, t, |u|) == k;
      }
    }
    forall k: nat | FirstRun(u, start, 1, k)
      ensures FirstFree(u, start, k)
    {
      var m: nat :| m + 1 <= |u| && k == Wrap(start, m, |u|) && k < |u| && ClearRun(u, start, m, 1) && NoRun(u, start, m, 1);
      OnlySetBefore(u, start, m);
    }
  }

  lemma OnlySetBefore(u: seq<bool>, start: nat, m: nat)
    requires start < |u| && m <= |u| && NoRun(u, start, m, 1)
    ensures AllUsed(u, start, m)
  {
    forall t: nat | t < m && Wrap(start, t, |u|) < |u|
      ensures u[Wrap(start, t, |u|)]
    {
      assert !ClearRun(u, start, t, 1);
    }
  }

  /** The len clusters from k on are in the volume and free. */
  ghost predicate Block(u: seq<bool>, k: nat, len: nat) {
    k + len <= |u| && forall j :: k <= j < k + len ==> !u[j]
  }

  /** The run counter survives the wrap-around: what is found is a free block exactly
      when it ends within the volume. */
  lemma FoundIsBlock(u: seq<bool>, start: nat, len: nat, k: nat)
    requires start < |u| && FirstRun(u, start, len, k)
    ensures Block(u, k, len) <==> k + len <= |u|
    ensures start == 0 || len == 1 ==> k + len <= |u|
  {
    var m: nat :| m + len <= |u| && k == Wrap(start, m, |u|) && ClearRun(u, start, m, len);
    if k + len <= |u| {
      forall j | k <= j < k + len
        ensures !u[j]
      {
        assert Wrap(start, m + (j - k), |u|) == j;
      }
    }
  }

  /** The search ends where it began: free blocks are missed exactly when they all lie
      across its start. */
  lemma MissedBlocks(u: seq<bool>, start: nat, len: nat)
    requires start < |u| && len > 0
    ensures NoRun(u, start, |u|, len) ==> forall k: nat :: Block(u, k, len) ==> k < start < k + len
    ensures (exists k: nat :: Block(u, k, len) && !(k < start < k + len)) ==> exists k: nat :: FirstRun(u, start, len, k)
  {
    forall k: nat | Block(u, k, len) && !(k < start < k + len)
      ensures exists m: nat :: m + len <= |u| && ClearRun(u, start, m, len)
    {
      var m: nat := if k >= start then k - start else k + |u| - start;
      assert ClearRun(u, start, m, len);
    }
    if k: nat :| Block(u, k, len) && !(k < start < k + len) {
      var m: nat :| m + len <= |u| && ClearRun(u, start, m, len);
      FirstOfRuns(u, start, len, m);
    }
  }

  lemma {:induction false} FirstOfRuns(u: seq<bool>, start: nat, len: nat, m: nat)
    requires start < |u| && len > 0 && m + len <= |u| && ClearRun(u, start, m, len)
    ensures exists k: nat :: FirstRun(u, start, len, k)
    decreases m
  {
    if NoRun(u, start, m + len - 1, len) {
      RunStart(u, start, m);
      assert FirstRun(u, start, len, Wrap(start, m, |u|));
    } else {
      var m': nat :| m' + len <= m + len - 1 && ClearRun(u, start, m', len);
      FirstOfRuns(u, start, len, m');
    }
  }

  /** Two clusters wanted, search from the third flag on: the run found begins at the
      last flag and goes on at the first; and a free block across the start is missed. */
  lemma RunsAcross()
    ensures FirstRun([false, true, true, false], 2, 2, 3) && !Block([false, true, true, false], 3, 2)
    ensures NoRun([true, false, false, true], 2, 4, 2) && Block([true, false, false, true], 1, 2)
  {
    var u := [false, true, true, false];
    assert Wrap(2, 0, 4) == 2 && Wrap(2, 1, 4) == 3 && Wrap(2, 2, 4) == 0 && Wrap(2, 3, 4) == 1;
    assert ClearRun(u, 2, 1, 2) && NoRun(u, 2, 2, 2);
    var w := [true, false, false, true];
    assert w[Wrap(2, 1, 4)] && w[Wrap(2, 2, 4)];
    assert NoRun(w, 2, 4, 2);
  }

  lemma FlagInWindow(fs: FatFs, val: nat, i: nat, bit: nat)
    requires fs.Valid() && HasBitmap(fs) && val < fs.nFatent - 2 && AtFlag(fs, val, i, bit)
    ensures i < fs.win.Length && BitSet(fs.win[i], bit) == InUseMap(fs)[val]
  {
    WindowBit(fs, val);
  }

  /** i and bit address flag val in the window. */
  ghost predicate AtFlag(fs: FatFs, val: nat, i: nat, bit: nat)
    reads fs`winsect
  {
    bit == val % 8 && i == Rem(val / 8, fs.ss) && fs.winsect == fs.bitbase + Quot(val / 8, fs.ss)
  }

  lemma EnterFlag(fs: FatFs, val: nat, i: nat, bit: nat)
    requires SectorSize(fs.ss) && bit == val % 8 && i == Rem(val / 8, fs.ss) && fs.winsect == fs.bitbase + Quot(val / 8, fs.ss)
    ensures AtFlag(fs, val, i, bit) && i < fs.ss && bit < 8
  {
    hide Quot, Rem;
    ByteAddress(val / 8, 0, fs.ss);
  }

  lemma NextFlag(fs: FatFs, val: nat, i: nat, bit: nat)
    requires SectorSize(fs.ss) && AtFlag(fs, val, i, bit)
    ensures i < fs.ss && bit < 8
    ensures bit < 7 ==> AtFlag(fs, val + 1, i, bit + 1)
    ensures bit == 7 && i + 1 < fs.ss ==> AtFlag(fs, val + 1, i + 1, 0)
    ensures bit == 7 && i + 1 == fs.ss ==> StartsSector(fs, fs.winsect + 1, val + 1)
  {
    hide Quot, Rem;
    ByteAddress(val / 8, 0, fs.ss);
    NextByte(val / 8, fs.ss);
  }

  /** The flag where the search for a free cluster starts. */
  function StartFlag(n: nat, clst: nat): nat {
    if 2 <= clst < n then clst - 2 else 0
  }

  lemma RunBegins(u: seq<bool>, start: nat, len: nat, k: nat)
    requires FirstRun(u, start, len, k)
    ensures k < |u|
  {
  }

  lemma ScanEnds(u: seq<bool>, start: nat, c: nat, len: nat, scl: nat)
    requires Scanning(u, start, |u|, c, len, scl)
    ensures NoRun(u, start, |u|, len)
  {
  }

  /** find_bitmap: the first run of ncl free clusters met from clst on, wrapping at the
      end; create_chain asks for one. */
  method FindBitmap(fs: FatFs, clst: nat, ncl: nat) returns (r: nat)
    requires fs.Valid() && HasBitmap(fs) && ncl > 0
    modifies fs`disk, fs`wflag, fs`winsect, fs`ioErrors, fs.win
    ensures fs.Valid() && HasBitmap(fs) && fs.SameView(old(fs.View()), fs.View())
    ensures InUseMap(fs) == old(InUseMap(fs)) && FatBytes(fs) == old(FatBytes(fs))
    ensures fs.ioErrors >= old(fs.ioErrors)
    ensures r == 0 || 2 <= r < fs.nFatent || (r == 0xFFFF_FFFF && fs.ioErrors > old(fs.ioErrors))
    ensures r == 0 ==> NoRun(InUseMap(fs), StartFlag(fs.nFatent, clst), fs.nFatent - 2, ncl)
    ensures 2 <= r < fs.nFatent ==> FirstRun(InUseMap(fs), StartFlag(fs.nFatent, clst), ncl, r - 2)
  {
    hide Quot, Rem, Bytes, FatFs.Valid, FatFs.View, FatBytes, BitBytes, UsedBits, HasBitmap, FirstRun, NoRun, Scanning, Wrap, AtFlag, BitSet;
    Layout(fs);
    var total := fs.nFatent - 2;
    var start := StartFlag(fs.nFatent, clst);
    ghost var u, v := InUseMap(fs), fs.View();
    ScanStart(u, start, ncl);
    var scl: nat, val: nat, ctr: nat := start, start, 0;
    ghost var n: nat := 0;  // flags met so far
    while true
      invariant fs.Valid() && HasBitmap(fs) && fs.SameView(v, fs.View()) && fs.ioErrors >= old(fs.ioErrors)
      invariant BitBytes(fs) == old(BitBytes(fs)) && FatBytes(fs) == old(FatBytes(fs))
      invariant n < total && val == Wrap(start, n, total) && Scanning(u, start, n, ctr, ncl, scl)
      decreases total - n
    {
      WrapStep(u, start, n);
      var res := SeekBit(fs, fs.bitbase + Quot(val / 8, fs.ss), val);
      if res != FrOk { return 0xFFFF_FFFF; }
      var i: nat, bit: nat := Rem(val / 8, fs.ss), val % 8;  // bm is 1 << bit, and 0 once bit is 8
      ghost var n0 := n;
      EnterFlag(fs, val, i, bit);
      while i < fs.ss
        invariant n < total && n0 <= n && val == Wrap(start, n, total) && Scanning(u, start, n, ctr, ncl, scl)
        invariant i < fs.ss ==> AtFlag(fs, val, i, bit)
        invariant n > n0 || i < fs.ss
        modifies {}
        decreases total - n, fs.ss - i
      {
        NextFlag(fs, val, i, bit);
        ghost var n1 := n;
        while bit < 8
          invariant n < total && n1 <= n && val == Wrap(start, n, total) && Scanning(u, start, n, ctr, ncl, scl)
          invariant n > n1 || (i < fs.ss && bit < 8)
          invariant if i < fs.ss then (if bit < 8 then AtFlag(fs, val, i, bit) else bit == 8 && (i + 1 < fs.ss ==> AtFlag(fs, val, i + 1, 0))) else bit == 8
          modifies {}
          decreases total - n
        {
          WrapStep(u, start, n);
          ScanStep(u, start, n, ctr, ncl, scl);
          NextFlag(fs, val, i, bit);
          FlagInWindow(fs, val, i, bit);
          var bv := BitSet(fs.win[i], bit);
          bit, val := bit + 1, val + 1;
          if val >= total {
            val, bit, i := 0, 8, fs.ss;
          }
          if !bv {
            ctr := ctr + 1;
            if ctr == ncl { RunBegins(u, start, ncl, scl); return scl + 2; }
          } else {
            scl, ctr := val, 0;
          }
          n := n + 1;
          if val == start {
            ScanEnds(u, start, ctr, ncl, scl);
            return 0;
          }
        }
        bit := 0;
        i := i + 1;
      }
    }
  }

  /** Only bitmap sectors differ. */
  ghost predicate SameOutsideBitmap(fs: FatFs, v: seq<seq<byte>>, v': seq<seq<byte>>)
    requires fs.nFatent >= 3
  {
    && |v'| == |v|
    && forall s: nat :: s < |v| && !(fs.bitbase <= s < fs.bitbase + BitSectors(fs)) ==> v'[s] == v[s]
  }

  lemma FlipInMap(b: seq<byte>, k: nat, n: nat)
    requires k < n && forall j :: 0 <= j < n ==> j / 8 < |b|
    ensures UsedBits(FlipUsed(b, k), n) == UsedBits(b, n)[k := !UsedBits(b, n)[k]]
  {
    forall j | 0 <= j < n
      ensures Used(FlipUsed(b, k), j) == if j == k then !Used(b, k) else Used(b, j)
    {
      FlipUsedOne(b, k, j);
    }
  }

  /** Flip the flag under the mask in the window. */
  method FlipFlag(fs: FatFs, i: nat, bit: nat, ghost val: nat)
    requires fs.Valid() && HasBitmap(fs) && val < fs.nFatent - 2 && AtFlag(fs, val, i, bit)
    modifies fs`wflag, fs.win
    ensures fs.Valid() && HasBitmap(fs) && SameOutsideBitmap(fs, old(fs.View()), fs.View())
    ensures InUseMap(fs) == old(InUseMap(fs))[val := !old(InUseMap(fs))[val]]
    ensures FatBytes(fs) == old(FatBytes(fs))
  {
    hide Quot, Rem, Bytes, Area, UsedBits;
    Layout(fs);
    BitCovered(fs);
    WindowBit(fs, val);
    ghost var v, b, p := fs.View(), BitBytes(fs), val / 8;
    AreaAt(v, fs.bitbase, BitSectors(fs), fs.ss, p);
    assert Mask(8) == 256;
    FlipByte(fs.win[i], bit, 8);
    ghost var x := Flip(fs.win[i], bit);
    PokeArea(v, fs.bitbase, BitSectors(fs), fs.ss, p, x);
    fs.win[i] := Flip(fs.win[i], bit);
    fs.wflag := true;
    ghost var v' := WithByte(v, fs.winsect, i, x);
    assert v[fs.winsect] == old(fs.win[..]);
    assert fs.win[..] == v'[fs.winsect];
    assert fs.View() == v';
    SameArea(v, v', fs.fatbase, fs.fsize, fs.ss);
    FlipInMap(b, val, fs.nFatent - 2);
  }

  /** The flags with those from k to k + n - 1 set to bv. */
  function FlagsSet(u: seq<bool>, k: nat, n: nat, bv: bool): (r: seq<bool>)
    ensures |r| == |u|
  {
    seq(|u|, j requires 0 <= j < |u| => if k <= j < k + n then bv else u[j])
  }

  /** n flags from k on have been changed to bv, all of them from the other value. */
  ghost predicate Changed(u: seq<bool>, u': seq<bool>, k: nat, n: nat, bv: bool) {
    && k + n <= |u| && u' == FlagsSet(u, k, n, bv)
    && forall j :: k <= j < k + n ==> u[j] != bv
  }

  /** The flags after change_bitmap, by result: all ncl flags changed, each from
      the other value; or only those before a flag that already had the wanted
      value; or some number of them when a sector could not be accessed. */
  ghost predicate ChangeOutcome(u: seq<bool>, u': seq<bool>, k: nat, ncl: nat, bv: bool, res: FResult) {
    exists n: nat :: n <= ncl && Changed(u, u', k, n, bv) &&
      match res
      case FrOk => n == ncl
      case FrIntErr => n < ncl && k + n < |u| && u[k + n] == bv
      case _ => res == FrDiskErr && n < ncl
  }

  lemma ChangedStart(u: seq<bool>, k: nat, bv: bool)
    requires k <= |u|
    ensures Changed(u, u, k, 0, bv)
  {
  }

  lemma ChangedStep(u: seq<bool>, u': seq<bool>, k: nat, n: nat, bv: bool)
    requires k + n < |u| && Changed(u, u', k, n, bv)
    ensures |u'| == |u| && u'[k + n] == u[k + n]
    ensures u[k + n] != bv ==> Changed(u, u'[k + n := bv], k, n + 1, bv)
  {
  }

  /** Flag val is the first of the bitmap sector sect. */
  ghost predicate StartsSector(fs: FatFs, sect: nat, val: nat) {
    val % 8 == 0 && Rem(val / 8, fs.ss) == 0 && sect == fs.bitbase + Quot(val / 8, fs.ss)
  }

  lemma BitmapTrans(fs: FatFs, a: seq<seq<byte>>, b: seq<seq<byte>>, c: seq<seq<byte>>)
    requires fs.nFatent >= 3 && fs.nFats == 1 && SameOutsideBitmap(fs, a, b)
    requires fs.SameView(b, c) || SameOutsideBitmap(fs, b, c)
    ensures SameOutsideBitmap(fs, a, c)
  {
  }

  /** The two inner loops of change_bitmap: change the flags of the sector in the
      window from byte i, bit on, until all are changed or the sector ends. */
  method ChangeSector(fs: FatFs, i0: nat, bit0: nat, ncl: nat, bv: bool, ghost u: seq<bool>, ghost k: nat, ghost n0: nat)
      returns (done: bool, res: FResult, left: nat, ghost n: nat)
    requires fs.Valid() && HasBitmap(fs) && ncl >= 1 && |u| == fs.nFatent - 2
    requires Changed(u, InUseMap(fs), k, n0, bv) && k + n0 + ncl <= fs.nFatent - 2 && AtFlag(fs, k + n0, i0, bit0)
    modifies fs`wflag, fs.win
    ensures fs.Valid() && HasBitmap(fs) && SameOutsideBitmap(fs, old(fs.View()), fs.View())
    ensures FatBytes(fs) == old(FatBytes(fs))
    ensures Changed(u, InUseMap(fs), k, n, bv) && n0 <= n && left + n == ncl + n0
    ensures done ==> res == FrOk || res == FrIntErr
    ensures done && res == FrOk ==> left == 0
    ensures done && res == FrIntErr ==> left > 0 && k + n < |u| && u[k + n] == bv
    ensures !done ==> left > 0 && n > n0 && StartsSector(fs, fs.winsect + 1, k + n)
  {
    hide Quot, Rem, Bytes, FatFs.Valid, FatFs.View, FatBytes, BitBytes, UsedBits, HasBitmap, AtFlag, BitSet, FlagsSet, Changed, FatFs.SameView, StartsSector;
    Layout(fs);
    ghost var v := fs.View();
    assert fs.nFats == 1 by { OneFat(fs); }
    var i: nat, bit: nat := i0, bit0;
    left, n := ncl, n0;
    NextFlag(fs, k + n, i, bit);
    while i < fs.ss
      invariant fs.Valid() && HasBitmap(fs) && SameOutsideBitmap(fs, v, fs.View()) && FatBytes(fs) == old(FatBytes(fs))
      invariant Changed(u, InUseMap(fs), k, n, bv) && left + n == ncl + n0 && left > 0 && n0 <= n
      invariant if i < fs.ss then AtFlag(fs, k + n, i, bit) else n > n0 && StartsSector(fs, fs.winsect + 1, k + n)
      decreases fs.ss - i
    {
      NextFlag(fs, k + n, i, bit);
      ghost var n1 := n;
      while bit < 8
        invariant fs.Valid() && HasBitmap(fs) && SameOutsideBitmap(fs, v, fs.View()) && FatBytes(fs) == old(FatBytes(fs))
        invariant Changed(u, InUseMap(fs), k, n, bv) && left + n == ncl + n0 && left > 0 && n1 <= n
        invariant bit <= 8 && (bit == 8 ==> n > n1)
        invariant if bit < 8 then AtFlag(fs, k + n, i, bit)
                  else if i + 1 < fs.ss then AtFlag(fs, k + n, i + 1, 0) else StartsSector(fs, fs.winsect + 1, k + n)
      {
        ChangedStep(u, InUseMap(fs), k, n, bv);
        FlagInWindow(fs, k + n, i, bit);
        NextFlag(fs, k + n, i, bit);
        if bv == BitSet(fs.win[i], bit) { return true, FrIntErr, left, n; }
        ghost var v2 := fs.View();
        FlipFlag(fs, i, bit, k + n);
        BitmapTrans(fs, v, v2, fs.View());
        left := left - 1;
        n := n + 1;
        if left == 0 { return true, FrOk, left, n; }
        bit := bit + 1;
      }
      bit := 0;
      i := i + 1;
    }
    return false, FrOk, left, n;
  }

  lemma OneFat(fs: FatFs)
    requires HasBitmap(fs)
    ensures fs.nFats == 1
  {
  }

  /** The sector, byte and bit that change_bitmap looks at for flag val. */
  ghost predicate AtSector(fs: FatFs, sect: nat, i: nat, bit: nat, val: nat) {
    bit == val % 8 && i == Rem(val / 8, fs.ss) && sect == fs.bitbase + Quot(val / 8, fs.ss)
  }

  lemma SectorEnter(fs: FatFs, sect: nat, i: nat, bit: nat, val: nat)
    requires bit == val % 8 && i == Rem(val / 8, fs.ss) && sect == fs.bitbase + Quot(val / 8, fs.ss)
    ensures AtSector(fs, sect, i, bit, val)
  {
  }

  /** Bring the sector of flag val into the window. */
  method SeekFlag(fs: FatFs, sect: nat, i: nat, bit: nat, ghost val: nat) returns (res: FResult)
    requires fs.Valid() && HasBitmap(fs) && val < fs.nFatent - 2 && AtSector(fs, sect, i, bit, val)
    modifies fs`disk, fs`wflag, fs`winsect, fs`ioErrors, fs.win
    ensures fs.Valid() && HasBitmap(fs) && fs.SameView(old(fs.View()), fs.View())
    ensures BitBytes(fs) == old(BitBytes(fs)) && FatBytes(fs) == old(FatBytes(fs))
    ensures fs.ioErrors >= old(fs.ioErrors)
    ensures res == FrOk || (res == FrDiskErr && fs.ioErrors > old(fs.ioErrors))
    ensures res == FrOk ==> fs.winsect == sect && AtFlag(fs, val, i, bit)
  {
    hide Quot, Rem, Bytes, FatFs.Valid, FatFs.View, FatBytes, BitBytes, UsedBits;
    Layout(fs);
    res := SeekBit(fs, sect, val);
  }

  lemma SectorNext(fs: FatFs, sect: nat, val: nat)
    requires StartsSector(fs, sect, val)
    ensures AtSector(fs, sect, 0, 0, val)
  {
  }

  lemma Outcome(u: seq<bool>, u': seq<bool>, k: nat, n: nat, ncl: nat, bv: bool, res: FResult)
    requires Changed(u, u', k, n, bv) && n <= ncl
    requires match res
             case FrOk => n == ncl
             case FrIntErr => n < ncl && k + n < |u| && u[k + n] == bv
             case _ => res == FrDiskErr && n < ncl
    ensures ChangeOutcome(u, u', k, ncl, bv, res)
  {
  }

  lemma BitmapRefl(fs: FatFs, v: seq<seq<byte>>)
    requires fs.nFatent >= 3
    ensures SameOutsideBitmap(fs, v, v)
  {
  }

  /** Set or clear the flags of ncl clusters.  A flag that already has the
      wanted value is an inconsistency: the flags before it have been changed. */
  method ChangeBitmap(fs: FatFs, clst: nat, ncl: nat, bv: bool) returns (res: FResult)
    requires fs.Valid() && HasBitmap(fs) && 2 <= clst && ncl >= 1 && clst + ncl <= fs.nFatent
    modifies fs`disk, fs`wflag, fs`winsect, fs`ioErrors, fs.win
    ensures fs.Valid() && HasBitmap(fs) && SameOutsideBitmap(fs, old(fs.View()), fs.View())
    ensures FatBytes(fs) == old(FatBytes(fs))
    ensures ChangeOutcome(old(InUseMap(fs)), InUseMap(fs), clst - 2, ncl, bv, res)
    ensures fs.ioErrors >= old(fs.ioErrors) && (res == FrDiskErr ==> fs.ioErrors > old(fs.ioErrors))
  {
    assert fs.nFats == 1;
    hide Quot, Rem, Bytes, FatFs.Valid, FatFs.View, FatBytes, BitBytes, UsedBits, HasBitmap, AtFlag, BitSet, FlagsSet, Changed, FatFs.SameView, SameOutsideBitmap, AtSector, StartsSector, ChangeOutcome;
    Layout(fs);
    ghost var u, v, k := InUseMap(fs), fs.View(), clst - 2;
    ChangedStart(u, k, bv);
    BitmapRefl(fs, v);
    var at := clst - 2;
    var sect: nat, i: nat, bit: nat := fs.bitbase + Quot(at / 8, fs.ss), Rem(at / 8, fs.ss), at % 8;
    var left, done := ncl, false;
    SectorEnter(fs, sect, i, bit, at);
    ghost var n: nat := 0;  // flags changed so far
    while true
      invariant fs.Valid() && HasBitmap(fs) && SameOutsideBitmap(fs, v, fs.View()) && FatBytes(fs) == old(FatBytes(fs)) && fs.ioErrors >= old(fs.ioErrors)
      invariant Changed(u, InUseMap(fs), k, n, bv) && left + n == ncl && left > 0
      invariant AtSector(fs, sect, i, bit, k + n)
      decreases left
    {
      ghost var v1 := fs.View();
      res := SeekFlag(fs, sect, i, bit, k + n);
      BitmapTrans(fs, v, v1, fs.View());
      if res != FrOk {
        Outcome(u, InUseMap(fs), k, n, ncl, bv, FrDiskErr);
        return FrDiskErr;
      }
      sect := sect + 1;
      ghost var v2 := fs.View();
      done, res, left, n := ChangeSector(fs, i, bit, left, bv, u, k, n);
      BitmapTrans(fs, v, v2, fs.View());
      if done {
        Outcome(u, InUseMap(fs), k, n, ncl, bv, res);
        return;
      }
      i, bit := 0, 0;
      SectorNext(fs, sect, k + n);
    }
  }

  /** Only sectors of the FAT and the bitmap differ: no data sector. */
  ghost predicate MetaOnly(fs: FatFs, v: seq<seq<byte>>, v': seq<seq<byte>>)
    requires fs.nFatent >= 3
  {
    && |v'| == |v|
    && forall s: nat :: s < |v| && !fs.InFat(s) && !(fs.bitbase <= s < fs.bitbase + BitSectors(fs)) ==> v'[s] == v[s]
  }

  lemma MetaTrans(fs: FatFs, a: seq<seq<byte>>, b: seq<seq<byte>>, c: seq<seq<byte>>)
    requires fs.nFatent >= 3 && MetaOnly(fs, a, b) && MetaOnly(fs, b, c)
    ensures MetaOnly(fs, a, c)
  {
  }

  lemma MetaRefl(fs: FatFs, v: seq<seq<byte>>)
    requires fs.nFatent >= 3
    ensures MetaOnly(fs, v, v)
  {
  }

  lemma MetaFrom(fs: FatFs, v: seq<seq<byte>>, v': seq<seq<byte>>)
    requires HasBitmap(fs) && (fs.SameView(v, v') || fs.SameOutsideFat(v, v') || SameOutsideBitmap(fs, v, v'))
    ensures MetaOnly(fs, v, v')
  {
  }
}
