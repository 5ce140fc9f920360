/** A file as bytes: where the sectors of a cluster chain lie on the volume, and
    what rewriting some of them does to the byte sequence. */
module FileBytes {
  import opened FatTable
  import opened Volume
  import opened FatAccess

  /* ---- Sectors of a chain ---- */

  /** clst2sect for a cluster number in range. */
  function ClusterSector(fs: FatFs, c: nat): nat
    requires c >= 2
  {
    fs.database + fs.csize * (c - 2)
  }

  /** Which cluster of the chain holds the j-th sector, and where in it.  (The
      source masks with csize - 1; the cluster size is a power of two.) */
  function Nth(fs: FatFs, j: nat): nat
    requires fs.csize > 0
  {
    j / fs.csize
  }

  function Off(fs: FatFs, j: nat): nat
    requires fs.csize > 0
  {
    j % fs.csize
  }

  /** The clusters of the chain are distinct data clusters, and the data area
      lies behind the FATs and inside a device of n sectors. */
  ghost predicate Placed(fs: FatFs, chain: seq<nat>, n: nat) {
    && fs.csize > 0 && SectorSize(fs.ss) && fs.nFatent >= 3 && fs.database > 0
    && fs.database + fs.csize * (fs.nFatent - 2) <= n <= NO_SECTOR
    && fs.fatbase + fs.fsize <= fs.database && (fs.nFats == 2 ==> fs.fatbase + fs.fsize + fs.fsize <= fs.database)
    && (forall k :: 0 <= k < |chain| ==> 2 <= chain[k] < fs.nFatent)
    && (forall k, l :: 0 <= k < l < |chain| ==> chain[k] != chain[l])
  }

  /** How many sectors the chain has. */
  function SectorCount(fs: FatFs, chain: seq<nat>): nat {
    |chain| * fs.csize
  }

  lemma {:induction false} MulLe(d: nat, a: nat, b: nat)
    requires a <= b
    ensures d * a <= d * b
  {
    if a < b {
      MulLe(d, a, b - 1);
      assert d * b == d * (b - 1) + d;
    }
  }

  lemma MulStep(d: nat, a: nat, b: nat)
    ensures a < b ==> d * a + d <= d * b
    ensures a <= b ==> d * a <= d * b
  {
    if a < b {
      MulLe(d, a + 1, b);
      assert d * (a + 1) == d * a + d;
    }
  }

  lemma DivModUnique(x: nat, d: nat, q: nat, r: nat)
    requires d > 0 && x == d * q + r && r < d
    ensures x / d == q && x % d == r
  {
    assert x == d * (x / d) + x % d;
    MulStep(d, x / d, q);
    MulStep(d, q, x / d);
  }

  lemma InChain(fs: FatFs, chain: seq<nat>, j: nat)
    requires fs.csize > 0
    ensures j < SectorCount(fs, chain) <==> Nth(fs, j) < |chain|
    ensures Off(fs, j) < fs.csize
  {
    assert j == fs.csize * (j / fs.csize) + j % fs.csize;
    MulStep(fs.csize, j / fs.csize, |chain|);
    MulStep(fs.csize, |chain|, j / fs.csize);
  }

  /** The next sectors up to the cluster end. */
  lemma SameCluster(fs: FatFs, j: nat, k: nat)
    requires fs.csize > 0
    ensures Off(fs, j) + k < fs.csize ==> Nth(fs, j + k) == Nth(fs, j) && Off(fs, j + k) == Off(fs, j) + k
    ensures Off(fs, j) + k == fs.csize ==> Nth(fs, j + k) == Nth(fs, j) + 1 && Off(fs, j + k) == 0
  {
    assert j == fs.csize * (j / fs.csize) + j % fs.csize;
    if j % fs.csize + k < fs.csize {
      DivModUnique(j + k, fs.csize, j / fs.csize, j % fs.csize + k);
    } else if j % fs.csize + k == fs.csize {
      assert fs.csize * (j / fs.csize + 1) == fs.csize * (j / fs.csize) + fs.csize;
      DivModUnique(j + k, fs.csize, j / fs.csize + 1, 0);
    }
  }

  lemma SameSpot(fs: FatFs, j: nat, k: nat)
    requires fs.csize > 0
    ensures Nth(fs, j) == Nth(fs, k) && Off(fs, j) == Off(fs, k) ==> j == k
  {
    assert j == fs.csize * (j / fs.csize) + j % fs.csize && k == fs.csize * (k / fs.csize) + k % fs.csize;
  }

  /** The sector that holds the j-th sector of the chain. */
  function SectorAt(fs: FatFs, chain: seq<nat>, j: nat): nat
    requires fs.csize > 0 && j < SectorCount(fs, chain)
    requires forall k :: 0 <= k < |chain| ==> chain[k] >= 2
  {
    InChain(fs, chain, j);
    ClusterSector(fs, chain[Nth(fs, j)]) + Off(fs, j)
  }

  lemma ClusterInData(fs: FatFs, c: nat, o: nat, n: nat)
    requires 2 <= c < fs.nFatent && o < fs.csize && fs.database + fs.csize * (fs.nFatent - 2) <= n
    ensures fs.database <= ClusterSector(fs, c) + o < n
  {
    MulStep(fs.csize, c - 2, fs.nFatent - 2);
  }

  lemma SectorInData(fs: FatFs, chain: seq<nat>, n: nat, j: nat)
    requires Placed(fs, chain, n) && j < SectorCount(fs, chain)
    ensures fs.database <= SectorAt(fs, chain, j) < n
    ensures !fs.InFat(SectorAt(fs, chain, j)) && !fs.Mirror(SectorAt(fs, chain, j))
  {
    hide ClusterSector, SectorCount, Nth, Off;
    InChain(fs, chain, j);
    ClusterInData(fs, chain[Nth(fs, j)], Off(fs, j), n);
  }

  lemma ClustersApart(fs: FatFs, c: nat, o: nat, d: nat, p: nat)
    requires c >= 2 && d >= 2 && o < fs.csize && p < fs.csize
    ensures ClusterSector(fs, c) + o == ClusterSector(fs, d) + p ==> c == d && o == p
  {
    MulStep(fs.csize, c - 2, d - 2);
    MulStep(fs.csize, d - 2, c - 2);
  }

  lemma SectorsDistinct(fs: FatFs, chain: seq<nat>, n: nat, j: nat, k: nat)
    requires Placed(fs, chain, n) && j < SectorCount(fs, chain) && k < SectorCount(fs, chain)
    ensures SectorAt(fs, chain, j) == SectorAt(fs, chain, k) ==> j == k
  {
    hide ClusterSector, SectorCount, Nth, Off;
    InChain(fs, chain, j);
    InChain(fs, chain, k);
    ClustersApart(fs, chain[Nth(fs, j)], Off(fs, j), chain[Nth(fs, k)], Off(fs, k));
    SameSpot(fs, j, k);
  }

  /** Consecutive sectors of one cluster. */
  lemma SectorRun(fs: FatFs, chain: seq<nat>, j: nat, k: nat)
    requires fs.csize > 0 && j < SectorCount(fs, chain) && Off(fs, j) + k < fs.csize
    requires forall k :: 0 <= k < |chain| ==> chain[k] >= 2
    ensures j + k < SectorCount(fs, chain)
    ensures SectorAt(fs, chain, j + k) == SectorAt(fs, chain, j) + k
  {
    hide ClusterSector, SectorCount, Nth, Off;
    InChain(fs, chain, j);
    SameCluster(fs, j, k);
    InChain(fs, chain, j + k);
  }

  /** The file offset at which the k-th cluster starts. */
  function ByteStart(fs: FatFs, k: nat): nat {
    Bytes(k * fs.csize, fs.ss)
  }

  lemma ClusterStep(fs: FatFs, k: nat)
    requires SectorSize(fs.ss)
    ensures ByteStart(fs, 0) == 0
    ensures ByteStart(fs, k + 1) == ByteStart(fs, k) + Bytes(fs.csize, fs.ss)
    ensures fs.csize > 0 ==> Bytes(fs.csize, fs.ss) > 0
  {
    assert (k + 1) * fs.csize == k * fs.csize + fs.csize;
  }

  /** Where a byte of the k-th cluster is. */
  lemma ByteOfCluster(fs: FatFs, k: nat, o: nat)
    requires SectorSize(fs.ss) && fs.csize > 0 && o < Bytes(fs.csize, fs.ss)
    ensures Nth(fs, Quot(ByteStart(fs, k) + o, fs.ss)) == k
    ensures Off(fs, Quot(ByteStart(fs, k) + o, fs.ss)) == Quot(o, fs.ss)
    ensures Rem(ByteStart(fs, k) + o, fs.ss) == Rem(o, fs.ss)
  {
    hide Quot, Rem;
    var c := k * fs.csize;
    ByteAddress(o, fs.csize, fs.ss);
    UniqueAddress(Bytes(c, fs.ss) + o, c + Quot(o, fs.ss), Rem(o, fs.ss), fs.ss);
    DivModUnique(c + Quot(o, fs.ss), fs.csize, k, Quot(o, fs.ss));
  }

  /** The cluster start below a byte, and the byte's offset in its cluster. */
  lemma ClusterOfByte(fs: FatFs, i: nat)
    requires SectorSize(fs.ss) && fs.csize > 0
    ensures var k := Nth(fs, Quot(i, fs.ss)); ByteStart(fs, k) <= i < ByteStart(fs, k) + Bytes(fs.csize, fs.ss)
  {
    hide Quot, Rem;
    var q := Quot(i, fs.ss);
    ByteAddress(i, 0, fs.ss);
    assert q == fs.csize * (q / fs.csize) + q % fs.csize;
    var k := q / fs.csize;
    assert k * fs.csize == fs.csize * k;
  }

  ghost predicate Sized(fs: FatFs, st: seq<seq<byte>>) {
    forall s :: 0 <= s < |st| ==> |st[s]| == fs.ss
  }

  /** The sectors of a chain, in file order. */
  ghost function FileSectors(fs: FatFs, st: seq<seq<byte>>, chain: seq<nat>): (f: seq<seq<byte>>)
    requires Placed(fs, chain, |st|) && Sized(fs, st)
    ensures |f| == SectorCount(fs, chain)
    ensures Sized(fs, f)
  {
    hide SectorCount, SectorAt;
    assert forall j :: 0 <= j < SectorCount(fs, chain) ==> SectorAt(fs, chain, j) < |st| by {
      forall j | 0 <= j < SectorCount(fs, chain) ensures SectorAt(fs, chain, j) < |st| { SectorInData(fs, chain, |st|, j); }
    }
    seq(SectorCount(fs, chain), j requires 0 <= j < SectorCount(fs, chain) => st[SectorAt(fs, chain, j)])
  }

  lemma FileSectorsAt(fs: FatFs, st: seq<seq<byte>>, chain: seq<nat>, j: nat)
    requires Placed(fs, chain, |st|) && Sized(fs, st) && j < SectorCount(fs, chain)
    ensures SectorAt(fs, chain, j) < |st|
    ensures FileSectors(fs, st, chain)[j] == st[SectorAt(fs, chain, j)]
  {
    hide SectorCount, SectorAt;
    SectorInData(fs, chain, |st|, j);
  }

  /** Changes outside the chain's sectors do not show. */
  lemma SameFileSectors(fs: FatFs, st: seq<seq<byte>>, st': seq<seq<byte>>, chain: seq<nat>)
    requires Placed(fs, chain, |st|) && Sized(fs, st) && |st'| == |st| && Sized(fs, st')
    requires forall j :: 0 <= j < SectorCount(fs, chain) ==>
               SectorAt(fs, chain, j) < |st| && st'[SectorAt(fs, chain, j)] == st[SectorAt(fs, chain, j)]
    ensures FileSectors(fs, st', chain) == FileSectors(fs, st, chain)
  {
    hide SectorCount, SectorAt, FileSectors, Nth, Off;
    forall j | 0 <= j < SectorCount(fs, chain)
      ensures FileSectors(fs, st', chain)[j] == FileSectors(fs, st, chain)[j]
    {
      FileSectorsAt(fs, st, chain, j);
      FileSectorsAt(fs, st', chain, j);
    }
  }

  /** Storing consecutive sectors within one cluster of the chain. */
  lemma StoreRun(fs: FatFs, st: seq<seq<byte>>, st': seq<seq<byte>>, chain: seq<nat>, j: nat, run: seq<seq<byte>>)
    requires Placed(fs, chain, |st|) && Sized(fs, st) && |st'| == |st| && Sized(fs, st')
    requires j < SectorCount(fs, chain) && Off(fs, j) + |run| <= fs.csize && |run| > 0
    requires SectorAt(fs, chain, j) + |run| <= |st|
    requires st' == Splice(st, SectorAt(fs, chain, j), run)
    ensures j + |run| <= SectorCount(fs, chain)
    ensures FileSectors(fs, st', chain) == Splice(FileSectors(fs, st, chain), j, run)
  {
    hide SectorCount, SectorAt, FileSectors, Nth, Off;
    SectorRun(fs, chain, j, |run| - 1);
    forall k | 0 <= k < SectorCount(fs, chain)
      ensures FileSectors(fs, st', chain)[k] == Splice(FileSectors(fs, st, chain), j, run)[k]
    {
      FileSectorsAt(fs, st, chain, k);
      FileSectorsAt(fs, st', chain, k);
      var s, base := SectorAt(fs, chain, k), SectorAt(fs, chain, j);
      if base <= s < base + |run| {
        SectorRun(fs, chain, j, s - base);
        SectorsDistinct(fs, chain, |st|, k, j + (s - base));
      } else if j <= k < j + |run| {
        SectorRun(fs, chain, j, k - j);
      }
    }
  }

  /** A longer chain starts with the same sectors. */
  lemma GrowFileSectors(fs: FatFs, st: seq<seq<byte>>, chain: seq<nat>, c: nat)
    requires Placed(fs, chain + [c], |st|) && Sized(fs, st)
    ensures Placed(fs, chain, |st|)
    ensures SectorCount(fs, chain + [c]) == SectorCount(fs, chain) + fs.csize
    ensures FileSectors(fs, st, chain + [c])[..SectorCount(fs, chain)] == FileSectors(fs, st, chain)
    ensures forall j {:trigger SectorAt(fs, chain + [c], j)} :: 0 <= j < SectorCount(fs, chain) ==> SectorAt(fs, chain + [c], j) == SectorAt(fs, chain, j)
  {
    hide FileSectors;
    assert forall k :: 0 <= k < |chain| ==> chain[k] == (chain + [c])[k];
    assert SectorCount(fs, chain + [c]) == SectorCount(fs, chain) + fs.csize by {
      assert (|chain| + 1) * fs.csize == |chain| * fs.csize + fs.csize;
    }
    hide SectorCount, ClusterSector, Nth, Off;
    forall j | 0 <= j < SectorCount(fs, chain)
      ensures SectorAt(fs, chain + [c], j) == SectorAt(fs, chain, j)
      ensures FileSectors(fs, st, chain + [c])[..SectorCount(fs, chain)][j] == FileSectors(fs, st, chain)[j]
    {
      InChain(fs, chain, j);
      FileSectorsAt(fs, st, chain, j);
      FileSectorsAt(fs, st, chain + [c], j);
    }
  }

  function Splice<T>(s: seq<T>, at: nat, run: seq<T>): (r: seq<T>)
    requires at + |run| <= |s|
    ensures |r| == |s|
  {
    s[..at] + run + s[at + |run|..]
  }

  /* ---- Sectors as bytes ---- */

  /** The bytes of a list of sectors. */
  function Flat(f: seq<seq<byte>>, ss: nat): (b: seq<byte>)
    requires SectorSize(ss) && forall s :: 0 <= s < |f| ==> |f[s]| == ss
    ensures |b| == Bytes(|f|, ss)
  {
    Area(f, 0, |f|, ss)
  }

  /** c with the bytes d put at position at; it may grow. */
  function Overwrite(c: seq<byte>, at: nat, d: seq<byte>): seq<byte>
    requires at <= |c|
  {
    c[..at] + d + if at + |d| < |c| then c[at + |d|..] else []
  }

  lemma OverwriteTwice(c: seq<byte>, at: nat, d: seq<byte>, e: seq<byte>)
    requires at <= |c|
    ensures |Overwrite(c, at, d)| >= at + |d|
    ensures Overwrite(Overwrite(c, at, d), at + |d|, e) == Overwrite(c, at, d + e)
  {
  }

  lemma SameSector(i: nat, at: nat, ss: nat)
    requires SectorSize(ss)
    ensures Quot(i, ss) == Quot(at, ss) ==> Rem(i, ss) - Rem(at, ss) == i - at
    ensures at <= i && Rem(at, ss) + (i - at) < ss ==> Quot(i, ss) == Quot(at, ss)
  {
    hide Quot, Rem;
    ByteAddress(i, 0, ss);
    ByteAddress(at, 0, ss);
    if at <= i && Rem(at, ss) + (i - at) < ss {
      UniqueAddress(i, Quot(at, ss), Rem(at, ss) + (i - at), ss);
    }
  }

  lemma FlatAt(f: seq<seq<byte>>, ss: nat, i: nat)
    requires SectorSize(ss) && forall s :: 0 <= s < |f| ==> |f[s]| == ss
    requires i < Bytes(|f|, ss)
    ensures Quot(i, ss) < |f| && Rem(i, ss) < ss
    ensures Flat(f, ss)[i] == f[Quot(i, ss)][Rem(i, ss)]
  {
    hide Quot, Rem, Bytes, Area;
    AreaAt(f, 0, |f|, ss, i);
  }

  /** Storing d within one sector.  The rest of the stored sector must be as
      before unless it lies at or past the end of the data. */
  lemma PatchFlat(f: seq<seq<byte>>, ss: nat, size: nat, at: nat, d: seq<byte>, sector: seq<byte>)
    requires SectorSize(ss) && forall s :: 0 <= s < |f| ==> |f[s]| == ss
    requires at <= size <= Bytes(|f|, ss) && |d| > 0 && |sector| == ss
    requires Quot(at, ss) < |f| && Rem(at, ss) + |d| <= ss
    requires sector[Rem(at, ss)..Rem(at, ss) + |d|] == d
    requires sector[..Rem(at, ss)] == f[Quot(at, ss)][..Rem(at, ss)]
    requires size <= at + |d| || sector[Rem(at, ss) + |d|..] == f[Quot(at, ss)][Rem(at, ss) + |d|..]
    ensures at + |d| <= Bytes(|f|, ss)
    ensures var size' := if at + |d| > size then at + |d| else size;
            Flat(f[Quot(at, ss) := sector], ss)[..size'] == Overwrite(Flat(f, ss)[..size], at, d)
  {
    hide Quot, Rem, Bytes, Flat;
    var j, o := Quot(at, ss), Rem(at, ss);
    var f' := f[j := sector];
    var size' := if at + |d| > size then at + |d| else size;
    SameSector(at + |d| - 1, at, ss);
    ByteAddress(at + |d| - 1, |f|, ss);
    forall i | 0 <= i < size'
      ensures Flat(f', ss)[..size'][i] == Overwrite(Flat(f, ss)[..size], at, d)[i]
    {
      FlatAt(f, ss, i);
      FlatAt(f', ss, i);
      SameSector(i, at, ss);
      if Quot(i, ss) == j {
        var r := Rem(i, ss);
        if r < o {
          assert sector[..o][r] == f[j][..o][r];
        } else if r < o + |d| {
          assert sector[o..o + |d|][r - o] == d[r - o];
        } else {
          assert sector[o + |d|..][r - o - |d|] == f[j][o + |d|..][r - o - |d|];
        }
      }
    }
  }

  /** Storing whole sectors. */
  lemma SpliceFlat(f: seq<seq<byte>>, ss: nat, size: nat, at: nat, run: seq<seq<byte>>)
    requires SectorSize(ss) && (forall s :: 0 <= s < |f| ==> |f[s]| == ss) && (forall s :: 0 <= s < |run| ==> |run[s]| == ss)
    requires at <= size <= Bytes(|f|, ss) && Rem(at, ss) == 0 && Quot(at, ss) + |run| <= |f|
    ensures at + Bytes(|run|, ss) <= Bytes(|f|, ss)
    ensures var end := at + Bytes(|run|, ss);
            Flat(Splice(f, Quot(at, ss), run), ss)[..if end > size then end else size] == Overwrite(Flat(f, ss)[..size], at, Flat(run, ss))
  {
    hide Quot, Rem, Flat;
    var j := Quot(at, ss);
    var f' := Splice(f, j, run);
    ByteAddress(at, 0, ss);
    var end := at + Bytes(|run|, ss);
    var size' := if end > size then end else size;
    forall i | 0 <= i < size'
      ensures Flat(f', ss)[..size'][i] == Overwrite(Flat(f, ss)[..size], at, Flat(run, ss))[i]
    {
      FlatAt(f, ss, i);
      FlatAt(f', ss, i);
      ByteAddress(i, 0, ss);
      if at <= i < end {
        UniqueAddress(i - at, Quot(i, ss) - j, Rem(i, ss), ss);
        FlatAt(run, ss, i - at);
      }
    }
  }

  /** Bytes cut into sectors. */
  function Chop(d: seq<byte>, n: nat, ss: nat): (f: seq<seq<byte>>)
    requires SectorSize(ss) && |d| == Bytes(n, ss)
    ensures |f| == n && forall s :: 0 <= s < n ==> |f[s]| == ss
  {
    seq(n, k requires 0 <= k < n => d[Bytes(k, ss)..Bytes(k, ss) + ss])
  }

  lemma ChopFlat(d: seq<byte>, n: nat, ss: nat)
    requires SectorSize(ss) && |d| == Bytes(n, ss)
    ensures Flat(Chop(d, n, ss), ss) == d
  {
    hide Quot, Rem, Flat;
    forall i | 0 <= i < |d|
      ensures Flat(Chop(d, n, ss), ss)[i] == d[i]
    {
      FlatAt(Chop(d, n, ss), ss, i);
      ByteAddress(i, n, ss);
    }
  }

  lemma FlatPrefix(f: seq<seq<byte>>, n: nat, ss: nat)
    requires SectorSize(ss) && (forall s :: 0 <= s < |f| ==> |f[s]| == ss) && n <= |f|
    ensures Bytes(n, ss) <= Bytes(|f|, ss)
    ensures Flat(f[..n], ss) == Flat(f, ss)[..Bytes(n, ss)]
  {
    hide Quot, Rem, Flat;
    forall i | 0 <= i < Bytes(n, ss)
      ensures Flat(f[..n], ss)[i] == Flat(f, ss)[i]
    {
      FlatAt(f[..n], ss, i);
      FlatAt(f, ss, i);
    }
  }

  /* ---- Contents of a chain on a volume ---- */

  /** The first size bytes stored in a chain. */
  ghost function Stored(fs: FatFs, st: seq<seq<byte>>, chain: seq<nat>, size: nat): (c: seq<byte>)
    requires Placed(fs, chain, |st|) && Sized(fs, st) && size <= Bytes(SectorCount(fs, chain), fs.ss)
    ensures |c| == size
  {
    Flat(FileSectors(fs, st, chain), fs.ss)[..size]
  }

  /** FAT updates do not touch stored bytes. */
  lemma StoredOutsideFat(fs: FatFs, st: seq<seq<byte>>, st': seq<seq<byte>>, chain: seq<nat>, size: nat)
    requires Placed(fs, chain, |st|) && Sized(fs, st) && Sized(fs, st') && size <= Bytes(SectorCount(fs, chain), fs.ss)
    requires fs.SameOutsideFat(st, st')
    ensures Stored(fs, st', chain, size) == Stored(fs, st, chain, size)
  {
    hide SectorCount, SectorAt, FileSectors, Flat, Bytes;
    forall j | 0 <= j < SectorCount(fs, chain)
      ensures SectorAt(fs, chain, j) < |st| && st'[SectorAt(fs, chain, j)] == st[SectorAt(fs, chain, j)]
    {
      SectorInData(fs, chain, |st|, j);
    }
    SameFileSectors(fs, st, st', chain);
  }

  lemma StoredInLonger(fs: FatFs, st: seq<seq<byte>>, chain: seq<nat>, c: nat, size: nat)
    requires Placed(fs, chain + [c], |st|) && Sized(fs, st) && size <= Bytes(SectorCount(fs, chain), fs.ss)
    ensures Placed(fs, chain, |st|)
    ensures SectorCount(fs, chain) <= SectorCount(fs, chain + [c])
    ensures Bytes(SectorCount(fs, chain), fs.ss) <= Bytes(SectorCount(fs, chain + [c]), fs.ss)
    ensures Stored(fs, st, chain + [c], size) == Stored(fs, st, chain, size)
  {
    hide SectorCount, SectorAt, FileSectors, Flat;
    GrowFileSectors(fs, st, chain, c);
    FlatPrefix(FileSectors(fs, st, chain + [c]), SectorCount(fs, chain), fs.ss);
  }

  /** Storing whole sectors from position at on. */
  lemma StoredRun(fs: FatFs, st: seq<seq<byte>>, st': seq<seq<byte>>, chain: seq<nat>, size: nat, at: nat, run: seq<seq<byte>>)
    requires Placed(fs, chain, |st|) && Sized(fs, st) && Sized(fs, st') && Sized(fs, run) && |st'| == |st|
    requires at <= size <= Bytes(SectorCount(fs, chain), fs.ss) && Rem(at, fs.ss) == 0
    requires Quot(at, fs.ss) + |run| <= SectorCount(fs, chain)
    requires FileSectors(fs, st', chain) == Splice(FileSectors(fs, st, chain), Quot(at, fs.ss), run)
    ensures var end := at + Bytes(|run|, fs.ss);
            var size' := if end > size then end else size;
            size' <= Bytes(SectorCount(fs, chain), fs.ss)
            && Stored(fs, st', chain, size') == Overwrite(Stored(fs, st, chain, size), at, Flat(run, fs.ss))
  {
    hide SectorCount, SectorAt, FileSectors, Flat, Quot, Rem, Bytes;
    SpliceFlat(FileSectors(fs, st, chain), fs.ss, size, at, run);
  }

  lemma StoredAt(fs: FatFs, st: seq<seq<byte>>, chain: seq<nat>, size: nat, i: nat)
    requires Placed(fs, chain, |st|) && Sized(fs, st) && i < size <= Bytes(SectorCount(fs, chain), fs.ss)
    ensures var j := Quot(i, fs.ss);
            && j < SectorCount(fs, chain) && SectorAt(fs, chain, j) < |st| && Rem(i, fs.ss) < fs.ss
            && Stored(fs, st, chain, size)[i] == st[SectorAt(fs, chain, j)][Rem(i, fs.ss)]
  {
    hide SectorCount, SectorAt, FileSectors, Flat, Quot, Rem, Bytes;
    FlatAt(FileSectors(fs, st, chain), fs.ss, i);
    FileSectorsAt(fs, st, chain, Quot(i, fs.ss));
  }

  /** Byte o of sector j of the k-th cluster of a file.  The clusters lie one behind
      the other from sector database on, each of csize sectors; the first has number 2. */
  lemma StoredPlace(fs: FatFs, st: seq<seq<byte>>, chain: seq<nat>, size: nat, k: nat, j: nat, o: nat)
    requires Placed(fs, chain, |st|) && Sized(fs, st) && size <= Bytes(SectorCount(fs, chain), fs.ss)
    requires k < |chain| && j < fs.csize && o < fs.ss && (k * fs.csize + j) * fs.ss + o < size
    ensures var s := fs.database + (chain[k] - 2) * fs.csize + j;
            0 <= s < |st| && |st[s]| == fs.ss && Stored(fs, st, chain, size)[(k * fs.csize + j) * fs.ss + o] == st[s][o]
  {
    hide Stored, Bytes, Quot, Rem, ClusterSector, SectorCount;
    var q := k * fs.csize + j;
    var i := q * fs.ss + o;
    SectorArithmetic(q, fs.ss);
    UniqueAddress(i, q, o, fs.ss);
    StoredAt(fs, st, chain, size, i);
    DivModUnique(q, fs.csize, k, j);
    ClusterPlace(fs, chain[k]);
  }

  lemma ClusterPlace(fs: FatFs, c: nat)
    requires c >= 2
    ensures ClusterSector(fs, c) == fs.database + (c - 2) * fs.csize
  {
  }

  /** A file whose clusters are consecutive is one run of sectors of the device. */
  lemma StoredContiguous(fs: FatFs, st: seq<seq<byte>>, chain: seq<nat>, size: nat, j: nat, o: nat)
    requires Placed(fs, chain, |st|) && Sized(fs, st) && size <= Bytes(SectorCount(fs, chain), fs.ss) && |chain| > 0
    requires forall k :: 0 <= k < |chain| ==> chain[k] == chain[0] + k
    requires o < fs.ss && j * fs.ss + o < size
    ensures var s := fs.database + (chain[0] - 2) * fs.csize + j;
            0 <= s < |st| && |st[s]| == fs.ss && Stored(fs, st, chain, size)[j * fs.ss + o] == st[s][o]
  {
    hide Stored, Bytes, SectorCount;
    var k, r := j / fs.csize, j % fs.csize;
    assert j == k * fs.csize + r by { assert j == fs.csize * k + r; }
    SectorsReached(fs, chain, size, j, o);
    assert (chain[0] + k - 2) * fs.csize == (chain[0] - 2) * fs.csize + k * fs.csize;
    StoredPlace(fs, st, chain, size, k, r, o);
  }

  lemma SectorsReached(fs: FatFs, chain: seq<nat>, size: nat, j: nat, o: nat)
    requires SectorSize(fs.ss) && fs.csize > 0 && size <= Bytes(SectorCount(fs, chain), fs.ss) && o < fs.ss && j * fs.ss + o < size
    ensures j / fs.csize < |chain|
  {
    SectorArithmetic(SectorCount(fs, chain), fs.ss);
    hide Bytes, SectorCount;
    MulStep(fs.ss, SectorCount(fs, chain), j);
    InChain(fs, chain, j);
  }

  /** Whatever happens to n sectors of one cluster, bytes elsewhere stay. */
  lemma StoredElsewhere(fs: FatFs, st: seq<seq<byte>>, st': seq<seq<byte>>, chain: seq<nat>, size: nat, at: nat, n: nat)
    requires Placed(fs, chain, |st|) && Sized(fs, st) && Sized(fs, st') && |st'| == |st|
    requires size <= Bytes(SectorCount(fs, chain), fs.ss) && Rem(at, fs.ss) == 0
    requires var j := Quot(at, fs.ss);
             && j < SectorCount(fs, chain) && Off(fs, j) + n <= fs.csize
             && forall s :: 0 <= s < |st| && !(SectorAt(fs, chain, j) <= s < SectorAt(fs, chain, j) + n) ==> st'[s] == st[s]
    ensures forall i :: 0 <= i < size && !(at <= i < at + Bytes(n, fs.ss)) ==> Stored(fs, st', chain, size)[i] == Stored(fs, st, chain, size)[i]
  {
    hide SectorCount, SectorAt, Stored, Quot, Rem, Nth, Off;
    var j := Quot(at, fs.ss);
    forall i | 0 <= i < size && !(at <= i < at + Bytes(n, fs.ss))
      ensures Stored(fs, st', chain, size)[i] == Stored(fs, st, chain, size)[i]
    {
      StoredAt(fs, st, chain, size, i);
      StoredAt(fs, st', chain, size, i);
      ByteAddress(i, 0, fs.ss);
      ByteAddress(at, 0, fs.ss);
      var s, base := SectorAt(fs, chain, Quot(i, fs.ss)), SectorAt(fs, chain, j);
      if base <= s < base + n {
        SectorRun(fs, chain, j, s - base);
        SectorsDistinct(fs, chain, |st|, Quot(i, fs.ss), j + (s - base));
      }
    }
  }

  /** Storing d within one sector. */
  lemma StoredPatch(fs: FatFs, st: seq<seq<byte>>, chain: seq<nat>, size: nat, at: nat, d: seq<byte>, sector: seq<byte>)
    requires Placed(fs, chain, |st|) && Sized(fs, st) && at <= size <= Bytes(SectorCount(fs, chain), fs.ss)
    requires |d| > 0 && |sector| == fs.ss && Rem(at, fs.ss) + |d| <= fs.ss
    requires var j, o := Quot(at, fs.ss), Rem(at, fs.ss);
             && j < SectorCount(fs, chain) && SectorAt(fs, chain, j) < |st|
             && sector[o..o + |d|] == d && sector[..o] == st[SectorAt(fs, chain, j)][..o]
             && (size <= at + |d| || sector[o + |d|..] == st[SectorAt(fs, chain, j)][o + |d|..])
    ensures var size' := if at + |d| > size then at + |d| else size;
            size' <= Bytes(SectorCount(fs, chain), fs.ss)
            && Stored(fs, st[SectorAt(fs, chain, Quot(at, fs.ss)) := sector], chain, size') == Overwrite(Stored(fs, st, chain, size), at, d)
  {
    hide SectorCount, SectorAt, FileSectors, Flat, Quot, Rem, Bytes, Nth, Off;
    var j := Quot(at, fs.ss);
    var f, st' := FileSectors(fs, st, chain), st[SectorAt(fs, chain, j) := sector];
    InChain(fs, chain, j);
    FileSectorsAt(fs, st, chain, j);
    assert st' == Splice(st, SectorAt(fs, chain, j), [sector]);
    StoreRun(fs, st, st', chain, j, [sector]);
    assert Splice(f, j, [sector]) == f[j := sector];
    PatchFlat(f, fs.ss, size, at, d, sector);
  }

  /** Whole sectors of one cluster are a slice of the stored bytes. */
  lemma StoredSlice(fs: FatFs, st: seq<seq<byte>>, chain: seq<nat>, size: nat, at: nat, n: nat)
    requires Placed(fs, chain, |st|) && Sized(fs, st) && size <= Bytes(SectorCount(fs, chain), fs.ss)
    requires Rem(at, fs.ss) == 0 && at + Bytes(n, fs.ss) <= size
    requires var j := Quot(at, fs.ss);
             && j < SectorCount(fs, chain) && Off(fs, j) + n <= fs.csize && SectorAt(fs, chain, j) + n <= |st|
    ensures var sect := SectorAt(fs, chain, Quot(at, fs.ss));
            Flat(st[sect..sect + n], fs.ss) == Stored(fs, st, chain, size)[at..at + Bytes(n, fs.ss)]
  {
    hide SectorCount, SectorAt, Stored, Flat, Quot, Rem, Nth, Off;
    var j := Quot(at, fs.ss);
    var sect := SectorAt(fs, chain, j);
    ByteAddress(at, 0, fs.ss);
    var slice := Stored(fs, st, chain, size)[at..at + Bytes(n, fs.ss)];
    forall i | 0 <= i < |slice|
      ensures Flat(st[sect..sect + n], fs.ss)[i] == slice[i]
    {
      FlatAt(st[sect..sect + n], fs.ss, i);
      ByteAddress(i, n, fs.ss);
      UniqueAddress(at + i, j + Quot(i, fs.ss), Rem(i, fs.ss), fs.ss);
      StoredAt(fs, st, chain, size, at + i);
      SectorRun(fs, chain, j, Quot(i, fs.ss));
    }
  }

  /** Bytes within one sector. */
  lemma StoredWithin(fs: FatFs, st: seq<seq<byte>>, chain: seq<nat>, size: nat, at: nat, n: nat)
    requires Placed(fs, chain, |st|) && Sized(fs, st) && size <= Bytes(SectorCount(fs, chain), fs.ss)
    requires 0 < n && Rem(at, fs.ss) + n <= fs.ss && at + n <= size
    ensures var j, o := Quot(at, fs.ss), Rem(at, fs.ss);
            && j < SectorCount(fs, chain) && SectorAt(fs, chain, j) < |st|
            && st[SectorAt(fs, chain, j)][o..o + n] == Stored(fs, st, chain, size)[at..at + n]
  {
    hide SectorCount, SectorAt, Stored, Flat, Quot, Rem, Nth, Off, Bytes;
    var j, o := Quot(at, fs.ss), Rem(at, fs.ss);
    StoredAt(fs, st, chain, size, at);
    var slice := Stored(fs, st, chain, size)[at..at + n];
    forall i | 0 <= i < |slice|
      ensures st[SectorAt(fs, chain, j)][o..o + n][i] == slice[i]
    {
      SameSector(at + i, at, fs.ss);
      StoredAt(fs, st, chain, size, at + i);
    }
  }
}
