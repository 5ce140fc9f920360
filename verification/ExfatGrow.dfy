/** The clusters of an exFAT file under f_write, from any position on: followed while
    there are some, then allocated, with the late links written in the end. */
module ExfatGrow {
  import opened FatTable
  import opened Volume
  import opened FatAccess
  import opened Bitmap
  import opened LazyChain
  import opened Exfat
  import B = FileBytes

  /** A size within the last of k clusters of bcs bytes. */
  predicate SizeFits(size: nat, k: nat, bcs: nat) {
    if k == 0 then size == 0 else bcs * (k - 1) < size <= bcs * k
  }

  /** Bytes in a cluster. */
  function ClusterBytes(fs: FatFs): nat {
    Bytes(fs.csize, fs.ss)
  }

  lemma Regroup(a: nat, b: nat, c: nat)
    ensures a * b * c == c * a * b
  {
  }

  lemma BytesTimes(c: nat, m: nat, ss: nat)
    requires SectorSize(ss)
    ensures Bytes(c, ss) * m == Bytes(m * c, ss)
  {
    SectorArithmetic(c, ss);
    SectorArithmetic(m * c, ss);
    hide Bytes;
    Regroup(c, ss, m);
  }

  lemma ClusterBytesFit(fs: FatFs, size: nat, k: nat)
    requires SectorSize(fs.ss) && fs.csize > 0 && k > 0 && size > 0 && SizeFits(size, k, ClusterBytes(fs))
    ensures Quot(size - 1, fs.ss) / fs.csize == k - 1
  {
    BytesTimes(fs.csize, k - 1, fs.ss);
    BytesTimes(fs.csize, k, fs.ss);
    hide Bytes;
    SizeTellsLast(size, k, fs.csize, fs.ss);
  }

  lemma SizePositive(size: nat, k: nat, bcs: nat)
    requires k > 0 && SizeFits(size, k, bcs)
    ensures size > 0
  {
  }

  /** The bytes that go into the last cluster, or into a new one. */
  lemma NextPart(size: nat, k: nat, bcs: nat, n: nat)
    requires bcs > 0 && SizeFits(size, k, bcs) && n > 0
    ensures size % bcs == 0 <==> size == bcs * k
    ensures var w := if n < bcs - size % bcs then n else bcs - size % bcs;
            0 < w <= n && SizeFits(size + w, if size % bcs == 0 then k + 1 else k, bcs)
  {
    if k > 0 {
      var r := size - bcs * (k - 1);
      assert bcs * k == bcs * (k - 1) + bcs;
      if r < bcs {
        B.DivModUnique(size, bcs, k - 1, r);
      } else {
        B.DivModUnique(size, bcs, k, 0);
      }
    }
    assert bcs * (k + 1) == bcs * k + bcs;
  }

  /** FAT and flags of other objects are as before. */
  ghost predicate Spared(fat: seq<nat>, u: seq<bool>, fat': seq<nat>, u': seq<bool>, cs: seq<nat>) {
    && SameElsewhere(fat, fat', cs)
    && |u'| == |u| && forall k :: 0 <= k < |u| && k + 2 !in cs ==> u'[k] == u[k]
  }

  lemma SparedGrow(fat: seq<nat>, u: seq<bool>, fat1: seq<nat>, u1: seq<bool>, cs: seq<nat>, fat2: seq<nat>, ncl: nat)
    requires Spared(fat, u, fat1, u1, cs) && SameElsewhere(fat1, fat2, cs) && 2 <= ncl < |u| + 2
    ensures Spared(fat, u, fat2, u1[ncl - 2 := true], cs + [ncl])
  {
    assert forall k :: k in cs ==> k in cs + [ncl];
    assert ncl in cs + [ncl];
  }

  lemma SparedSame(fat: seq<nat>, u: seq<bool>, fat1: seq<nat>, u1: seq<bool>, cs: seq<nat>, fat2: seq<nat>)
    requires Spared(fat, u, fat1, u1, cs) && SameElsewhere(fat1, fat2, cs)
    ensures Spared(fat, u, fat2, u1, cs)
  {
  }

  /** The file owns the clusters cs and its size ends in the last of them. */
  ghost predicate Grown(obj: FfObj, cs: seq<nat>)
    requires obj.fs.Valid() && HasBitmap(obj.fs)
    reads obj`stat, obj`sclust, obj`objsize, obj`nCont, obj`nFrag, obj.fs`disk, obj.fs`winsect, obj.fs`wflag, obj.fs.win
  {
    && (if cs == [] then obj.nFrag == 0 && obj.sclust == 0
        else Represents(Fat(obj.fs), obj.Chain(), cs) && AllInUse(InUseMap(obj.fs), cs))
    && SizeFits(obj.objsize, |cs|, ClusterBytes(obj.fs))
  }

  lemma GrownOwns(obj: FfObj, cs: seq<nat>)
    requires obj.fs.Valid() && HasBitmap(obj.fs) && Grown(obj, cs)
    ensures obj.Owns(cs) && obj.fs.csize > 0 && SectorSize(obj.fs.ss) && obj.fs.nFatent >= 3 && ClusterBytes(obj.fs) > 0
    ensures cs != [] ==> LinkKnown(obj.Chain(), |cs|, |cs| - 1) && 2 <= Last(cs) < obj.fs.nFatent
    ensures SizeFits(obj.objsize, |cs|, ClusterBytes(obj.fs))
  {
    hide FatFs.Valid, InUseMap, Fat, Quot, Bytes;
    TypeLimit(obj.fs);
    PositiveBytes(obj.fs);
    if cs != [] {
      SizePositive(obj.objsize, |cs|, ClusterBytes(obj.fs));
      ClusterBytesFit(obj.fs, obj.objsize, |cs|);
      ChainBounds(Fat(obj.fs), obj.Chain(), cs);
    }
  }

  lemma PositiveBytes(fs: FatFs)
    requires fs.Geometry()
    ensures ClusterBytes(fs) > 0 && fs.csize > 0 && SectorSize(fs.ss)
  {
  }

  /** The position fptr lies in, or at the end of, the k-th of the clusters cs (at the
      start of the file for k = 0).  f_lseek has written the late links of the last
      fragment, so some are missing only if the position is in the last cluster. */
  ghost predicate Positioned(obj: FfObj, cs: seq<nat>, fptr: nat, k: nat, clust: nat)
    reads obj`nFrag, obj`objsize
  {
    && k <= |cs| && SizeFits(fptr, k, ClusterBytes(obj.fs)) && fptr <= obj.objsize
    && (obj.nFrag == 0 || k == |cs|) && clust == if k == 0 then 0 else cs[k - 1]
  }

  /** The size after a write up to position at, which has entered the k-th of n clusters. */
  lemma SizeKept(size: nat, n: nat, at: nat, k: nat, bcs: nat)
    requires bcs > 0 && k <= n && SizeFits(size, n, bcs) && SizeFits(at, k, bcs)
    ensures SizeFits(if at > size then at else size, n, bcs)
    ensures at > size ==> k == n
  {
    if k < n {
      assert bcs * (n - 1) == bcs * k + bcs * (n - 1 - k);
    }
  }

  /** What create_chain at the end of the clusters cs yields. */
  lemma CreatedAtEnd(fat: seq<nat>, u: seq<bool>, s: Status, fat': seq<nat>, u': seq<bool>, s': Status, cs: seq<nat>, ncl: nat)
    requires |fat| == |fat'| && |u| == |u'| == |fat| - 2 && CreatedEx(fat, u, s, fat', u', s', cs, LastOf(cs), ncl)
    requires cs != [] ==> AllInUse(u, cs)
    ensures SameElsewhere(fat, fat', cs)
    ensures ncl == 0 ==> fat' == fat && u' == u && s' == s
    ensures ncl != 0 && ncl != DISK_ERROR ==>
              && 2 <= ncl < |fat| && u' == u[ncl - 2 := true] && AllInUse(u', cs + [ncl])
              && Represents(fat', if cs == [] then s'.(sclust := ncl) else s', cs + [ncl])
    ensures ncl == DISK_ERROR ==> AtMostOneTaken(u, u')
  {
    hide Represents, SameElsewhere, AtMostOneTaken;
  }

  /** And within them. */
  lemma CreatedInside(fat: seq<nat>, u: seq<bool>, s: Status, fat': seq<nat>, u': seq<bool>, s': Status, cs: seq<nat>, i: nat, ncl: nat)
    requires |fat| == |fat'| && |u| == |u'| == |fat| - 2 && CreatedEx(fat, u, s, fat', u', s', cs, i, ncl) && i + 1 < |cs|
    ensures SameElsewhere(fat, fat', cs)
    ensures ncl != DISK_ERROR ==> ncl == cs[i + 1] && fat' == fat && u' == u && s' == s
    ensures ncl == DISK_ERROR ==> AtMostOneTaken(u, u')
  {
    hide Represents, SameElsewhere, AtMostOneTaken;
  }

  /** The status once the first cluster is known. */
  lemma FirstKnown(fat: seq<nat>, s: Status, cs: seq<nat>)
    requires Represents(fat, s, cs)
    ensures |cs| > 0 && s.sclust == cs[0] >= 2
  {
  }

  lemma ClustersFrom2(fat: seq<nat>, s: Status, cs: seq<nat>)
    requires Represents(fat, s, cs)
    ensures forall i :: 0 <= i < |cs| ==> cs[i] >= 2
  {
  }

  /** create_chain from the k-th of the clusters cs: the next of them, or behind the
      last one a new cluster, which becomes the first of a file that has none. */
  method NextCluster(obj: FfObj, clust: nat, ghost cs: seq<nat>, ghost k: nat) returns (ncl: nat)
    requires obj.fs.Valid() && HasBitmap(obj.fs) && Grown(obj, cs) && k <= |cs| && (k == 0 ==> cs == [])
    requires clust == (if k == 0 then 0 else cs[k - 1]) && (obj.nFrag == 0 || k == |cs|)
    modifies obj`stat, obj`nCont, obj`nFrag, obj`sclust, obj.fs`disk, obj.fs`wflag, obj.fs`winsect, obj.fs`ioErrors
    modifies obj.fs`lastClst, obj.fs`freeClst, obj.fs.win
    ensures obj.fs.Valid() && HasBitmap(obj.fs) && MetaOnly(obj.fs, old(obj.fs.View()), obj.fs.View())
    ensures obj.fs.ioErrors >= old(obj.fs.ioErrors) && (ncl == DISK_ERROR ==> obj.fs.ioErrors > old(obj.fs.ioErrors))
    ensures SameElsewhere(old(Fat(obj.fs)), Fat(obj.fs), cs)
    ensures ncl == DISK_ERROR ==> AtMostOneTaken(old(InUseMap(obj.fs)), InUseMap(obj.fs))
    ensures k < |cs| && ncl != DISK_ERROR ==>
              && ncl == cs[k] >= 2 && Grown(obj, cs) && obj.nFrag == 0
              && InUseMap(obj.fs) == old(InUseMap(obj.fs)) && obj.fs.freeClst == old(obj.fs.freeClst)
    ensures k == |cs| ==> FreeKept(old(obj.fs.freeClst), old(InUseMap(obj.fs)), obj.fs.freeClst, InUseMap(obj.fs), ncl)
    ensures k == |cs| && ncl == 0 ==> Grown(obj, cs) && InUseMap(obj.fs) == old(InUseMap(obj.fs))
    ensures k == |cs| && ncl != 0 && ncl != DISK_ERROR ==>
              && 2 <= ncl < obj.fs.nFatent && InUseMap(obj.fs) == old(InUseMap(obj.fs))[ncl - 2 := true]
              && Represents(Fat(obj.fs), obj.Chain(), cs + [ncl]) && AllInUse(InUseMap(obj.fs), cs + [ncl])
  {
    hide FatFs.Valid, FatFs.View, HasBitmap, InUseMap, Fat, FfObj.Owns, Represents, AllInUse, SameElsewhere, MetaOnly, CreatedEx, FreeKept,
      AtMostOneTaken, ClusterBytes, SizeFits;
    GrownOwns(obj, cs);
    ghost var fat, u, s := Fat(obj.fs), InUseMap(obj.fs), obj.Chain();
    if cs != [] {
      FirstKnown(fat, s, cs);
      ClustersFrom2(fat, s, cs);
    }
    ncl := CreateChainEx(obj, clust, cs, if k == 0 then 0 else k - 1);
    if k < |cs| {
      CreatedInside(fat, u, s, Fat(obj.fs), InUseMap(obj.fs), obj.Chain(), cs, k - 1, ncl);
    } else {
      CreatedAtEnd(fat, u, s, Fat(obj.fs), InUseMap(obj.fs), obj.Chain(), cs, ncl);
    }
    if ncl == 0 || ncl == DISK_ERROR { return; }
    if k == |cs| > 0 { FirstKnown(Fat(obj.fs), obj.Chain(), cs + [ncl]); }
    if obj.sclust == 0 { obj.sclust := ncl; }
  }

  /** The volume as the growth of a file started from it. */
  datatype Before = Before(fat: seq<nat>, u: seq<bool>, view: seq<seq<byte>>, free: nat)

  ghost function Start(fs: FatFs): Before
    requires fs.Valid() && HasBitmap(fs)
    reads fs`disk, fs`winsect, fs`wflag, fs`freeClst, fs.win
  {
    Before(Fat(fs), InUseMap(fs), fs.View(), fs.freeClst)
  }

  /** Since b only metadata of the clusters cs have changed, and the counter of
      free clusters is right if it was. */
  ghost predicate Tidy(b: Before, a: Before, cs: seq<nat>, fs: FatFs)
    requires fs.nFatent >= 3
  {
    && Spared(b.fat, b.u, a.fat, a.u, cs) && MetaOnly(fs, b.view, a.view)
    && (FreeInfo(b.free, b.u) ==> FreeInfo(a.free, a.u))
  }

  lemma TidyStart(b: Before, cs: seq<nat>, fs: FatFs)
    requires fs.nFatent >= 3
    ensures Tidy(b, b, cs, fs)
  {
  }

  lemma TidyStep(b: Before, a: Before, a': Before, cs: seq<nat>, ncl: nat, fs: FatFs)
    requires fs.nFatent >= 3 && Tidy(b, a, cs, fs) && MetaOnly(fs, a.view, a'.view) && ncl != DISK_ERROR
    requires FreeKept(a.free, a.u, a'.free, a'.u, ncl) && SameElsewhere(a.fat, a'.fat, cs)
    requires if ncl == 0 then a'.u == a.u else 2 <= ncl < |a.u| + 2 && a'.u == a.u[ncl - 2 := true]
    ensures Tidy(b, a', if ncl == 0 then cs else cs + [ncl], fs)
  {
    MetaTrans(fs, b.view, a.view, a'.view);
    if ncl == 0 {
      SparedSame(b.fat, b.u, a.fat, a.u, cs, a'.fat);
    } else {
      SparedGrow(b.fat, b.u, a.fat, a.u, cs, a'.fat, ncl);
    }
  }

  lemma NoneLeft(b: Before, a: Before, a': Before, cs: seq<nat>, fs: FatFs)
    requires fs.nFatent >= 3 && Tidy(b, a, cs, fs) && FreeKept(a.free, a.u, a'.free, a'.u, 0) && a'.u == a.u
    ensures FreeInfo(b.free, b.u) ==> ClearFlags(a'.u) == 0
  {
  }

  /** Since b no other object has lost or changed anything: at most one flag is set for
      no one. */
  ghost predicate Strained(b: Before, a: Before, cs: seq<nat>, fs: FatFs)
    requires fs.nFatent >= 3
  {
    && SameElsewhere(b.fat, a.fat, cs) && MetaOnly(fs, b.view, a.view) && |a.u| == |b.u|
    && (forall k :: 0 <= k < |b.u| && b.u[k] ==> a.u[k])
    && exists x: nat :: SameFlagsBut(b.u, a.u, cs, x)
  }

  /** The flags of others are the same, apart from flag x. */
  ghost predicate SameFlagsBut(u: seq<bool>, u': seq<bool>, cs: seq<nat>, x: nat) {
    |u'| == |u| && forall k :: 0 <= k < |u| && k + 2 !in cs && k != x ==> u'[k] == u[k]
  }

  lemma TidyUntilFailed(b: Before, a: Before, a': Before, cs: seq<nat>, fs: FatFs)
    requires fs.nFatent >= 3 && Tidy(b, a, cs, fs) && MetaOnly(fs, a.view, a'.view) && (cs != [] ==> AllInUse(a.u, cs))
    requires AtMostOneTaken(a.u, a'.u) && SameElsewhere(a.fat, a'.fat, cs)
    ensures Strained(b, a', cs, fs)
  {
    MetaTrans(fs, b.view, a.view, a'.view);
    SparedSame(b.fat, b.u, a.fat, a.u, cs, a'.fat);
    hide MetaOnly;
    var x: nat :| a'.u == a.u || (x < |a.u| && !a.u[x] && a'.u == a.u[x := true]);
    assert SameFlagsBut(b.u, a'.u, cs, x);
    forall k | 0 <= k < |b.u| && b.u[k]
      ensures a'.u[k]
    {
      if k + 2 in cs { assert a.u[k + 2 - 2]; }
    }
  }

  lemma GrownInUse(obj: FfObj, cs: seq<nat>)
    requires obj.fs.Valid() && HasBitmap(obj.fs) && Grown(obj, cs)
    ensures cs != [] ==> AllInUse(InUseMap(obj.fs), cs)
  {
  }

  lemma TidySame(b: Before, a: Before, a': Before, cs: seq<nat>, fs: FatFs)
    requires fs.nFatent >= 3 && Tidy(b, a, cs, fs) && MetaOnly(fs, a.view, a'.view)
    requires a'.free == a.free && a'.u == a.u && SameElsewhere(a.fat, a'.fat, cs)
    ensures Tidy(b, a', cs, fs)
  {
    MetaTrans(fs, b.view, a.view, a'.view);
    SparedSame(b.fat, b.u, a.fat, a.u, cs, a'.fat);
  }

  /** The step of f_write at a cluster boundary: enter the first cluster, the next one
      of the chain, or a new one. */
  method EnterCluster(obj: FfObj, fptr: nat, clust0: nat, ghost cs0: seq<nat>, ghost k: nat, ghost b: Before)
      returns (ncl: nat, ghost cs: seq<nat>)
    requires obj.fs.Valid() && HasBitmap(obj.fs) && Grown(obj, cs0) && Positioned(obj, cs0, fptr, k, clust0)
    requires fptr == ClusterBytes(obj.fs) * k && Tidy(b, Start(obj.fs), cs0, obj.fs)
    modifies obj`stat, obj`nCont, obj`nFrag, obj`sclust, obj.fs`disk, obj.fs`wflag, obj.fs`winsect, obj.fs`ioErrors
    modifies obj.fs`lastClst, obj.fs`freeClst, obj.fs.win
    ensures obj.fs.Valid() && HasBitmap(obj.fs) && obj.fs.ioErrors >= old(obj.fs.ioErrors)
    ensures ncl == DISK_ERROR ==> obj.fs.ioErrors > old(obj.fs.ioErrors) && cs == cs0 && Strained(b, Start(obj.fs), cs, obj.fs)
    ensures ncl != DISK_ERROR ==> Tidy(b, Start(obj.fs), cs, obj.fs)
    ensures ncl == 0 ==> k == |cs0| && cs == cs0 && Grown(obj, cs) && (FreeInfo(b.free, b.u) ==> ClearFlags(InUseMap(obj.fs)) == 0)
    ensures ncl != DISK_ERROR && ncl != 0 ==>
              && cs == (if k < |cs0| then cs0 else cs0 + [ncl]) && ncl == cs[k] >= 2
              && (cs == cs0 ==> Grown(obj, cs)) && (obj.nFrag == 0 || k + 1 == |cs|)
              && Represents(Fat(obj.fs), obj.Chain(), cs) && AllInUse(InUseMap(obj.fs), cs)
  {
    hide FatFs.Valid, FatFs.View, HasBitmap, InUseMap, Fat, Represents, AllInUse, SameElsewhere, MetaOnly, ClusterBytes, SizeFits, Tidy, ClearFlags,
      Strained, AtMostOneTaken, FreeKept;
    var fs := obj.fs;
    GrownOwns(obj, cs0);
    GrownMeans(obj, cs0);
    GrownInUse(obj, cs0);
    AtStart(fptr, k, ClusterBytes(fs));
    ghost var a := Start(fs);
    cs := cs0;
    if fptr == 0 && obj.sclust != 0 {
      FirstKnown(Fat(fs), obj.Chain(), cs);
      ClusterInRange(obj, cs, 1, obj.sclust);
      TypeLimit(fs);
      return obj.sclust, cs;
    }
    ncl := NextCluster(obj, clust0, cs0, k);
    if ncl == DISK_ERROR {
      TidyUntilFailed(b, a, Start(fs), cs, fs);
    } else if k < |cs0| {
      TidySame(b, a, Start(fs), cs, fs);
    } else {
      TidyStep(b, a, Start(fs), cs0, ncl, fs);
      if ncl == 0 {
        NoneLeft(b, a, Start(fs), cs0, fs);
      } else {
        cs := cs0 + [ncl];
      }
    }
  }

  lemma AtStart(fptr: nat, k: nat, bcs: nat)
    requires bcs > 0 && SizeFits(fptr, k, bcs)
    ensures fptr == 0 <==> k == 0
  {
  }

  /** One round of f_write as far as clusters go: at a cluster boundary enter one, then
      let the position, and if need be the size, grow within the cluster. */
  method GrowPart(obj: FfObj, fptr: nat, clust0: nat, n: nat, ghost cs0: seq<nat>, ghost k0: nat, ghost b: Before)
      returns (res: FResult, w: nat, clust: nat, ghost cs: seq<nat>, ghost k: nat)
    requires obj.fs.Valid() && HasBitmap(obj.fs) && Grown(obj, cs0) && Positioned(obj, cs0, fptr, k0, clust0) && n > 0
    requires Tidy(b, Start(obj.fs), cs0, obj.fs)
    modifies obj`stat, obj`nCont, obj`nFrag, obj`sclust, obj`objsize, obj.fs`disk, obj.fs`wflag, obj.fs`winsect, obj.fs`ioErrors
    modifies obj.fs`lastClst, obj.fs`freeClst, obj.fs.win
    ensures obj.fs.Valid() && HasBitmap(obj.fs) && obj.fs.ioErrors >= old(obj.fs.ioErrors)
    ensures res == FrOk || (res == FrDiskErr && obj.fs.ioErrors > old(obj.fs.ioErrors))
    ensures res == FrDiskErr ==> cs == cs0 && Strained(b, Start(obj.fs), cs, obj.fs)
    ensures res == FrOk ==> cs0 <= cs && k0 <= k && |cs| == Larger(|cs0|, k) && Grown(obj, cs) && Positioned(obj, cs, fptr + w, k, clust)
    ensures res == FrOk ==> w <= n && obj.objsize == Larger(old(obj.objsize), fptr + w) && Tidy(b, Start(obj.fs), cs, obj.fs)
    ensures res == FrOk && w == 0 ==>
              fptr == ClusterBytes(obj.fs) * |cs| && (FreeInfo(b.free, b.u) ==> ClearFlags(InUseMap(obj.fs)) == 0)
  {
    hide FatFs.Valid, FatFs.View, HasBitmap, InUseMap, Fat, Represents, AllInUse, SameElsewhere, MetaOnly, ClusterBytes, SizeFits, Tidy, ClearFlags, Strained;
    var fs := obj.fs;
    GrownOwns(obj, cs0);
    var bcs := ClusterBytes(fs);
    NextPart(fptr, k0, bcs, n);
    res, w, clust, cs, k := FrOk, 0, clust0, cs0, k0;
    ghost var size := obj.objsize;
    w := bcs - fptr % bcs;
    if n < w { w := n; }
    if fptr % bcs == 0 {
      var ncl;
      ncl, cs := EnterCluster(obj, fptr, clust0, cs0, k0, b);
      if ncl == DISK_ERROR { res := FrDiskErr; return; }
      if ncl == 0 { w := 0; return; }
      clust, k := ncl, k0 + 1;
    }
    EntersLast(size, |cs0|, fptr, w, k0, k, |cs|, bcs);
    if fptr + w > obj.objsize { obj.objsize := fptr + w; }
  }

  lemma EntersLast(size: nat, n0: nat, fptr: nat, w: nat, k0: nat, k: nat, n: nat, bcs: nat)
    requires bcs > 0 && k0 <= n0 && SizeFits(size, n0, bcs) && fptr <= size && SizeFits(fptr + w, k, bcs)
    requires (k == k0 && n == n0) || (k == k0 + 1 && fptr == bcs * k0 && n == Larger(n0, k))
    ensures SizeFits(Larger(size, fptr + w), n, bcs)
  {
    if n == n0 {
      SizeKept(size, n0, fptr + w, k, bcs);
    } else {
      assert size <= bcs * n0 == fptr;
    }
  }

  function Larger(a: nat, b: nat): nat {
    if b > a then b else a
  }

  /** The clusters that f_write enters for n bytes from position fptr on, within the
      file or at its end: left of the bytes find no room. */
  method GrowFile(obj: FfObj, fptr0: nat, clust0: nat, n: nat, ghost cs0: seq<nat>, ghost k0: nat)
      returns (res: FResult, left: nat, clust: nat, ghost cs: seq<nat>, ghost k: nat)
    requires obj.fs.Valid() && HasBitmap(obj.fs) && Grown(obj, cs0) && Positioned(obj, cs0, fptr0, k0, clust0)
    modifies obj`stat, obj`nCont, obj`nFrag, obj`sclust, obj`objsize, obj.fs`disk, obj.fs`wflag, obj.fs`winsect, obj.fs`ioErrors
    modifies obj.fs`lastClst, obj.fs`freeClst, obj.fs.win
    ensures obj.fs.Valid() && HasBitmap(obj.fs) && obj.fs.ioErrors >= old(obj.fs.ioErrors)
    ensures res == FrOk || (res == FrDiskErr && obj.fs.ioErrors > old(obj.fs.ioErrors))
    ensures cs0 <= cs && left <= n
    ensures res == FrDiskErr ==> Strained(old(Start(obj.fs)), Start(obj.fs), cs, obj.fs)
    ensures res == FrOk ==> |cs| == Larger(|cs0|, k) && Grown(obj, cs) && Positioned(obj, cs, fptr0 + (n - left), k, clust)
    ensures res == FrOk ==> obj.objsize == Larger(old(obj.objsize), fptr0 + (n - left)) && Tidy(old(Start(obj.fs)), Start(obj.fs), cs, obj.fs)
    ensures res == FrOk && left > 0 ==> fptr0 + (n - left) == ClusterBytes(obj.fs) * |cs|
    ensures res == FrOk && left > 0 && old(FreeInfo(obj.fs.freeClst, InUseMap(obj.fs))) ==> ClearFlags(InUseMap(obj.fs)) == 0
  {
    hide FatFs.Valid, FatFs.View, HasBitmap, InUseMap, Fat, Grown, Tidy, FreeInfo, ClearFlags, Strained, ClusterBytes, SizeFits;
    TypeLimit(obj.fs);
    ghost var b := Start(obj.fs);
    TidyStart(b, cs0, obj.fs);
    res, left, clust, cs, k := FrOk, n, clust0, cs0, k0;
    var fptr := fptr0;
    while left > 0
      invariant obj.fs.Valid() && HasBitmap(obj.fs) && obj.fs.ioErrors >= old(obj.fs.ioErrors) && res == FrOk
      invariant cs0 <= cs && |cs| == Larger(|cs0|, k) && Grown(obj, cs) && Positioned(obj, cs, fptr, k, clust)
      invariant left <= n && fptr == fptr0 + (n - left) && obj.objsize == Larger(old(obj.objsize), fptr) && Tidy(b, Start(obj.fs), cs, obj.fs)
    {
      var w;
      ghost var k1 := k;
      res, w, clust, cs, k := GrowPart(obj, fptr, clust, left, cs, k, b);
      if res != FrOk || w == 0 { return; }
      left, fptr := left - w, fptr + w;
    }
  }

  /** The chain of a file after f_sync: nothing is late any more. */
  ghost predicate Settled(obj: FfObj, cs: seq<nat>)
    requires obj.fs.Valid() && HasBitmap(obj.fs)
    reads obj`stat, obj`sclust, obj`objsize, obj`nCont, obj`nFrag, obj.fs`disk, obj.fs`winsect, obj.fs`wflag, obj.fs.win
  {
    && Grown(obj, cs) && obj.nFrag == 0
    && (cs != [] ==> if obj.stat == CONTIGUOUS then Consecutive(cs, 0, |cs|) else obj.stat == ON_FAT && IsChain(Fat(obj.fs), cs))
  }

  lemma CompletedSettles(obj: FfObj, cs: seq<nat>, fat: seq<nat>, s: Status)
    requires obj.fs.Valid() && HasBitmap(obj.fs) && Represents(fat, s, cs)
    requires ChainCompleted(fat, s, Fat(obj.fs), obj.Chain(), cs, true) && AllInUse(InUseMap(obj.fs), cs)
    requires SizeFits(obj.objsize, |cs|, ClusterBytes(obj.fs))
    ensures Settled(obj, cs) && SameElsewhere(fat, Fat(obj.fs), cs)
  {
    hide FatFs.Valid, HasBitmap, InUseMap, Fat, ClusterBytes, SizeFits, IsChain;
  }

  lemma GrownMeans(obj: FfObj, cs: seq<nat>)
    requires obj.fs.Valid() && HasBitmap(obj.fs) && Grown(obj, cs)
    ensures SizeFits(obj.objsize, |cs|, ClusterBytes(obj.fs)) && (cs == [] <==> obj.sclust == 0)
    ensures if cs == [] then Settled(obj, cs)
            else Represents(Fat(obj.fs), obj.Chain(), cs) && AllInUse(InUseMap(obj.fs), cs) && Last(cs) < obj.fs.nFatent
  {
    GrownOwns(obj, cs);
    if cs != [] { FirstKnown(Fat(obj.fs), obj.Chain(), cs); }
    hide FatFs.Valid, HasBitmap, InUseMap, Fat, ClusterBytes, SizeFits;
  }

  /** f_sync: write the late links. */
  method SyncChain(obj: FfObj, clust: nat, ghost cs: seq<nat>, ghost b: Before) returns (res: FResult)
    requires obj.fs.Valid() && HasBitmap(obj.fs) && Grown(obj, cs) && clust < obj.fs.nFatent && (obj.nFrag > 0 && cs != [] ==> clust == Last(cs))
    requires Tidy(b, Start(obj.fs), cs, obj.fs)
    modifies obj`stat, obj`nFrag, obj.fs`disk, obj.fs`wflag, obj.fs`winsect, obj.fs`ioErrors, obj.fs.win
    ensures obj.fs.Valid() && HasBitmap(obj.fs) && obj.fs.ioErrors >= old(obj.fs.ioErrors)
    ensures res == FrOk || (res == FrDiskErr && obj.fs.ioErrors > old(obj.fs.ioErrors))
    ensures res == FrOk ==> Settled(obj, cs) && Tidy(b, Start(obj.fs), cs, obj.fs)
    ensures res == FrDiskErr ==> Strained(b, Start(obj.fs), cs, obj.fs)
    ensures InUseMap(obj.fs) == old(InUseMap(obj.fs))
  {
    hide FatFs.Valid, FatFs.View, HasBitmap, InUseMap, Fat, Grown, Settled, Tidy, Represents, AllInUse, ClusterBytes, SizeFits, ChainCompleted, MetaOnly, SameElsewhere, Strained, AtMostOneTaken;
    TypeLimit(obj.fs);
    GrownMeans(obj, cs);
    res := FrOk;
    if obj.sclust == 0 { return; }  // no links to write
    ghost var a, s := Start(obj.fs), obj.Chain();
    res := CompleteChain(obj, clust, cs);
    if res == FrOk {
      CompletedSettles(obj, cs, a.fat, s);
      TidySame(b, a, Start(obj.fs), cs, obj.fs);
    } else {
      CompletionFailed(a.fat, s, Fat(obj.fs), obj.Chain(), cs);
      NoneTaken(a.u);
      TidyUntilFailed(b, a, Start(obj.fs), cs, obj.fs);
    }
  }

  lemma CompletionFailed(fat: seq<nat>, s: Status, fat': seq<nat>, s': Status, cs: seq<nat>)
    requires ChainCompleted(fat, s, fat', s', cs, false)
    ensures SameElsewhere(fat, fat', cs)
  {
  }

  /** Write n bytes from any position of a file on and sync: the file owns its old
      clusters and, as far as the bytes need them, new ones in the order of allocation,
      contiguous or as a chain on the FAT; no other object is touched, and bytes are
      left over only when the volume is full.  A failed device call leaves the other
      objects as they were, with at most one flag set for no one. */
  method GrowAndSync(obj: FfObj, fptr: nat, clust0: nat, n: nat, ghost cs0: seq<nat>, ghost k0: nat)
      returns (res: FResult, left: nat, ghost cs: seq<nat>)
    requires obj.fs.Valid() && HasBitmap(obj.fs) && Grown(obj, cs0) && Positioned(obj, cs0, fptr, k0, clust0)
    modifies obj`stat, obj`nCont, obj`nFrag, obj`sclust, obj`objsize, obj.fs`disk, obj.fs`wflag, obj.fs`winsect, obj.fs`ioErrors
    modifies obj.fs`lastClst, obj.fs`freeClst, obj.fs.win
    ensures obj.fs.Valid() && HasBitmap(obj.fs) && cs0 <= cs
    ensures res == FrOk || (res == FrDiskErr && obj.fs.ioErrors > old(obj.fs.ioErrors))
    ensures res == FrDiskErr ==> Strained(old(Start(obj.fs)), Start(obj.fs), cs, obj.fs)
    ensures res == FrOk ==> Settled(obj, cs) && Tidy(old(Start(obj.fs)), Start(obj.fs), cs, obj.fs)
    ensures res == FrOk ==> left <= n && obj.objsize == Larger(old(obj.objsize), fptr + (n - left))
    ensures res == FrOk && left > 0 ==> fptr + (n - left) == ClusterBytes(obj.fs) * |cs|
    ensures res == FrOk && left > 0 && old(FreeInfo(obj.fs.freeClst, InUseMap(obj.fs))) ==> ClearFlags(InUseMap(obj.fs)) == 0
  {
    hide FatFs.Valid, FatFs.View, HasBitmap, InUseMap, Fat, Grown, Settled, Tidy, FreeInfo, ClearFlags, Strained, ClusterBytes, SizeFits;
    TypeLimit(obj.fs);
    ghost var b := Start(obj.fs);
    var clust;
    ghost var k;
    res, left, clust, cs, k := GrowFile(obj, fptr, clust0, n, cs0, k0);
    if res == FrOk {
      ClusterInRange(obj, cs, k, clust);
      res := SyncChain(obj, clust, cs, b);
    }
  }

  lemma ClusterInRange(obj: FfObj, cs: seq<nat>, k: nat, clust: nat)
    requires obj.fs.Valid() && HasBitmap(obj.fs) && Grown(obj, cs) && k <= |cs| && clust == if k == 0 then 0 else cs[k - 1]
    ensures clust < obj.fs.nFatent
  {
    hide FatFs.Valid, InUseMap, Fat;
    TypeLimit(obj.fs);
  }
}
