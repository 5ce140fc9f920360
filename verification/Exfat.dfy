/** Cluster chains of exFAT objects: reading the next cluster, stretching a chain
    and writing the late links to the FAT. */
module Exfat {
  import opened FatTable
  import opened Volume
  import opened FatAccess
  import opened Bitmap
  import opened LazyChain

  const DISK_ERROR: nat := 0xFFFF_FFFF
  const INTERNAL_ERROR: nat := 1
  const NO_MORE := 0x7FFF_FFFF  // end of chain made up for links not on the FAT

  /** The object identifier FFOBJID. */
  class FfObj {
    const fs: FatFs
    var stat: nat
    var sclust: nat
    var objsize: nat
    var nCont: nat
    var nFrag: nat

    constructor (fs: FatFs, stat: nat, sclust: nat, objsize: nat)
      ensures this.fs == fs && this.stat == stat && this.sclust == sclust && this.objsize == objsize
      ensures nCont == nFrag == 0
    {
      this.fs, this.stat, this.sclust, this.objsize := fs, stat, sclust, objsize;
      nCont, nFrag := 0, 0;
    }

    ghost function Chain(): Status
      reads `stat, `sclust, `nCont, `nFrag
    {
      Status(stat, sclust, nCont, nFrag)
    }

    /** The object owns the clusters cs (none when it has no chain yet). */
    ghost predicate Owns(cs: seq<nat>)
      requires fs.Valid() && HasBitmap(fs)
      reads `stat, `sclust, `objsize, `nCont, `nFrag, fs`disk, fs`winsect, fs`wflag, fs.win
    {
      if cs == [] then nFrag == 0 else
        && Represents(Fat(fs), Chain(), cs)
        && (objsize > 0 || stat == ON_FAT)
        && (stat == CONTIGUOUS ==> LastIndex() == |cs| - 1)
        && forall k :: k in cs ==> 2 <= k < fs.nFatent && InUseMap(fs)[k - 2]
    }

    /** The index of the last cluster, as the object size tells it. */
    function LastIndex(): nat
      reads `objsize
    {
      if objsize == 0 || fs.csize == 0 then 0 else Quot(objsize - 1, fs.ss) / fs.csize
    }
  }

  /** The link from the i-th cluster can be told from FAT and status. */
  ghost predicate LinkKnown(s: Status, n: nat, i: nat) {
    i + 1 == n || s.stat == CONTIGUOUS || s.nFrag == 0 || (s.stat == FRAGMENTED && i < s.nCont)
  }

  /** The value that stands for the link of the i-th cluster. */
  ghost predicate IsLink(cs: seq<nat>, i: nat, val: nat, nFatent: nat) {
    i < |cs| && if i + 1 < |cs| then val == cs[i + 1] else nFatent <= val < DISK_ERROR
  }

  lemma IndexOfCluster(fat: seq<nat>, s: Status, cs: seq<nat>, i: nat)
    requires Represents(fat, s, cs) && i < |cs|
    ensures 2 <= cs[i] < |fat| && s.sclust >= 2
    ensures s.stat == CONTIGUOUS ==> cs[i] == s.sclust + i && (i + 1 < |cs| ==> cs[i + 1] == cs[i] + 1)
    ensures s.stat == FRAGMENTED ==> s.sclust + s.nCont < |fat| && (i < s.nCont <==> s.sclust <= cs[i] < s.sclust + s.nCont)
    ensures s.stat == FRAGMENTED && i < s.nCont ==> i + 1 < |cs| && cs[i + 1] == cs[i] + 1
    ensures s.stat == CONTIGUOUS || s.stat == FRAGMENTED || s.stat == ON_FAT
  {
    FragmentFits(fat, s, cs);
    assert s.stat == FRAGMENTED ==> cs[s.nCont] == s.sclust + s.nCont;
    if s.stat == FRAGMENTED && s.sclust <= cs[i] < s.sclust + s.nCont {
      assert cs[cs[i] - s.sclust] == cs[i];
    }
  }

  /** What get_fat finds at the end of a chain without a growing edge. */
  ghost function EndValue(fat: seq<nat>, s: Status, clst: nat): nat
    requires clst < |fat|
  {
    if s.stat == CONTIGUOUS then NO_MORE else fat[clst]
  }

  /** The successor of the i-th cluster of cs can be read, for an object that has
      a size (or not) and whose size tells the index last: the status tells it
      inside a contiguous chain or first fragment, the FAT elsewhere. */
  ghost predicate Readable(fat: seq<nat>, s: Status, sized: bool, last: nat, cs: seq<nat>, i: nat) {
    && i < |cs| && 2 <= cs[i] < |fat| && s.sclust >= 2 && (sized || s.stat == ON_FAT)
    && (s.stat == CONTIGUOUS || s.stat == FRAGMENTED || s.stat == ON_FAT)
    && (s.stat == CONTIGUOUS ==> last == |cs| - 1 && cs[i] == s.sclust + i && (i < last ==> cs[i + 1] == cs[i] + 1))
    && (s.stat == FRAGMENTED ==> s.sclust + s.nCont < |fat| && (i < s.nCont <==> s.sclust <= cs[i] < s.sclust + s.nCont))
    && (s.stat == FRAGMENTED && i < s.nCont ==> i + 1 < |cs| && cs[i + 1] == cs[i] + 1)
    && (s.stat == ON_FAT || (s.stat == FRAGMENTED && i >= s.nCont) ==>
          if s.nFrag > 0 then i + 1 == |cs| else if i + 1 < |cs| then fat[cs[i]] == cs[i + 1] else fat[cs[i]] >= |fat|)
  }

  lemma KnownIsReadable(fat: seq<nat>, s: Status, sized: bool, last: nat, cs: seq<nat>, i: nat)
    requires Represents(fat, s, cs) && i < |cs| && LinkKnown(s, |cs|, i)
    requires (sized || s.stat == ON_FAT) && (s.stat == CONTIGUOUS ==> last == |cs| - 1)
    ensures Readable(fat, s, sized, last, cs, i)
  {
    IndexOfCluster(fat, s, cs, i);
  }

  lemma EntryBound(fs: FatFs, k: nat)
    requires fs.Valid() && k < fs.nFatent && fs.fsType == ExFat
    ensures Fat(fs)[k] < 0x8000_0000
  {
    hide Quot, Rem, Bytes, FatBytes;
    Layout(fs);
    SpanCovers(fs.fsType, k, fs.nFatent);
  }

  lemma OwnsReadable(obj: FfObj, cs: seq<nat>, i: nat)
    requires obj.fs.Valid() && HasBitmap(obj.fs) && obj.Owns(cs) && i < |cs| && LinkKnown(obj.Chain(), |cs|, i)
    ensures Readable(Fat(obj.fs), obj.Chain(), obj.objsize > 0, obj.LastIndex(), cs, i)
  {
    hide FatFs.Valid, HasBitmap, InUseMap, Fat, Quot;
    KnownIsReadable(Fat(obj.fs), obj.Chain(), obj.objsize > 0, obj.LastIndex(), cs, i);
  }

  /** get_fat on an exFAT volume: the link of a cluster of the object, taken from
      the status for a contiguous chain or fragment and from the FAT otherwise. */
  method GetFatEx(obj: FfObj, clst: nat, ghost cs: seq<nat>, ghost i: nat) returns (val: nat)
    requires obj.fs.Valid() && HasBitmap(obj.fs) && obj.sclust < 0x1_0000_0000
    modifies obj.fs`disk, obj.fs`wflag, obj.fs`winsect, obj.fs`ioErrors, obj.fs.win
    ensures obj.fs.Valid() && HasBitmap(obj.fs) && obj.fs.SameView(old(obj.fs.View()), obj.fs.View())
    ensures Fat(obj.fs) == old(Fat(obj.fs)) && InUseMap(obj.fs) == old(InUseMap(obj.fs))
    ensures clst < 2 || clst >= obj.fs.nFatent ==> val == 1
    ensures obj.fs.ioErrors >= old(obj.fs.ioErrors) && (val == DISK_ERROR ==> obj.fs.ioErrors > old(obj.fs.ioErrors))
    ensures Readable(Fat(obj.fs), obj.Chain(), obj.objsize > 0, obj.LastIndex(), cs, i) && clst == cs[i] && val != DISK_ERROR ==>
              && IsLink(cs, i, val, obj.fs.nFatent)
              && (i + 1 == |cs| && obj.nFrag == 0 ==> val == EndValue(Fat(obj.fs), obj.Chain(), clst))
  {
    var fs := obj.fs;
    assert fs.fsType == ExFat;
    hide FatBytes, FatFs.Valid, FatFs.View, HasBitmap, UsedBits, BitBytes, Table, Quot, FatFs.SameOutsideFat, Represents, FfObj.Owns;
    Layout(fs);
    if clst < fs.nFatent {
      EntryBound(fs, clst);
    }
    if clst < 2 || clst >= fs.nFatent {
      return 1;
    }
    if (obj.objsize != 0 && obj.sclust != 0) || obj.stat == ON_FAT {
      var cofs := if clst >= obj.sclust then clst - obj.sclust else clst + 0x1_0000_0000 - obj.sclust;
      var clen := obj.LastIndex();
      if obj.stat == CONTIGUOUS && cofs <= clen {
        return if cofs == clen then NO_MORE else clst + 1;
      }
      if obj.stat == FRAGMENTED && cofs < obj.nCont {
        return clst + 1;
      }
      if obj.stat != CONTIGUOUS {
        if obj.nFrag != 0 {
          return NO_MORE;
        }
        val := GetEntry(fs, clst);
        BitmapUntouched(fs);
        return;
      }
    }
    return 1;
  }

  lemma CutSmall(v: nat)
    requires v < 0x8000_0000
    ensures Cut(ExFat, v) == v
  {
  }

  lemma TypeLimit(fs: FatFs)
    requires fs.Valid() && HasBitmap(fs)
    ensures fs.fsType == ExFat && 3 <= fs.nFatent <= 0x7FFF_FFFF
  {
  }

  /** Since view v and flags u, only FAT sectors have changed. */
  ghost predicate OnlyFat(fs: FatFs, v: seq<seq<byte>>, u: seq<bool>)
    requires fs.Valid()
    reads fs`disk, fs`winsect, fs`wflag, fs.win
  {
    HasBitmap(fs) && fs.SameOutsideFat(v, fs.View()) && InUseMap(fs) == u
  }

  lemma OnlyFatNow(fs: FatFs)
    requires fs.Valid() && HasBitmap(fs)
    ensures OnlyFat(fs, fs.View(), InUseMap(fs))
  {
  }

  lemma OnlyFatMeans(fs: FatFs, v: seq<seq<byte>>, u: seq<bool>)
    requires fs.Valid() && OnlyFat(fs, v, u)
    ensures HasBitmap(fs) && fs.SameOutsideFat(v, fs.View()) && InUseMap(fs) == u
    ensures fs.fsType == ExFat && fs.nFatent <= 0x7FFF_FFFF
  {
  }

  /** put_fat on the exFAT volume: one entry changes and the bitmap stays. */
  method PutLink(fs: FatFs, clst: nat, val: nat, ghost v: seq<seq<byte>>, ghost u: seq<bool>) returns (res: FResult)
    requires fs.Valid() && OnlyFat(fs, v, u) && val < 0x1_0000_0000
    modifies fs`disk, fs`wflag, fs`winsect, fs`ioErrors, fs.win
    ensures fs.Valid() && OnlyFat(fs, v, u) && fs.ioErrors >= old(fs.ioErrors)
    ensures res == FrOk || res == FrIntErr || (res == FrDiskErr && fs.ioErrors > old(fs.ioErrors))
    ensures res == FrIntErr <==> clst < 2 || clst >= fs.nFatent
    ensures res == FrOk ==> Fat(fs) == old(Fat(fs))[clst := Cut(ExFat, val)]
    ensures res != FrOk ==> Fat(fs) == old(Fat(fs))
  {
    hide FatBytes, FatFs.Valid, FatFs.View, HasBitmap, InUseMap, FatFs.SameOutsideFat, Fat, Table, PutEntry, Span, Cut;
    OnlyFatMeans(fs, v, u);
    FatOfBytes(fs);
    ghost var v1 := fs.View();
    res := PutFat(fs, clst, val);
    BitmapUntouched(fs);
    FatOfBytes(fs);
    fs.SameOutsideTrans(v, v1, fs.View());
  }

  lemma FatOfBytes(fs: FatFs)
    requires fs.Valid()
    ensures Span(fs.fsType, fs.nFatent) <= |FatBytes(fs)|
    ensures Fat(fs) == Table(fs.fsType, FatBytes(fs), fs.nFatent)
  {
    Layout(fs);
  }

  lemma FillFirstStep(fat: seq<nat>, scl: nat, j: nat)
    ensures FillFirst(fat, scl, 0) == fat
    ensures scl + j < |fat| ==> FillFirst(fat, scl, j)[scl + j := scl + j + 1] == FillFirst(fat, scl, j + 1)
  {
  }

  /** FillLast with the last m links still missing. */
  function FillPart(fat: seq<nat>, lcl: nat, n: nat, m: nat, term: nat): (r: seq<nat>)
    requires m <= n <= lcl < |fat|
    ensures |r| == |fat|
  {
    seq(|fat|, k requires 0 <= k < |fat| => if lcl < k + n && k + m <= lcl then (if k == lcl then term else k + 1) else fat[k])
  }

  lemma FillPartEnds(fat: seq<nat>, lcl: nat, n: nat, term: nat)
    requires n <= lcl < |fat|
    ensures FillPart(fat, lcl, n, n, term) == fat
    ensures FillPart(fat, lcl, n, 0, term) == FillLast(fat, lcl, n, term)
    ensures OnlyFragment(fat, FillLast(fat, lcl, n, term), lcl, n)
  {
  }

  lemma FillPartStep(fat: seq<nat>, lcl: nat, n: nat, m: nat, term: nat)
    requires 0 < m <= n <= lcl < |fat|
    ensures FillPart(fat, lcl, n, m, term)[lcl - m + 1 := if m > 1 then lcl - m + 2 else term] == FillPart(fat, lcl, n, m - 1, term)
    ensures OnlyFragment(fat, FillPart(fat, lcl, n, m, term), lcl, n)
  {
  }

  /** Only the entries of the n clusters that end at lcl may differ. */
  ghost predicate OnlyFragment(fat: seq<nat>, fat': seq<nat>, lcl: nat, n: nat) {
    |fat'| == |fat| && forall k :: 0 <= k < |fat| && !(lcl < k + n && k <= lcl) ==> fat'[k] == fat[k]
  }

  /** Only the entries of the n clusters from scl on may differ. */
  ghost predicate OnlyRun(fat: seq<nat>, fat': seq<nat>, scl: nat, n: nat) {
    |fat'| == |fat| && forall k :: 0 <= k < |fat| && !(scl <= k < scl + n) ==> fat'[k] == fat[k]
  }

  lemma RunLinked(fat: seq<nat>, scl: nat, j: nat, n: nat)
    requires j <= n
    ensures OnlyRun(fat, FillFirst(fat, scl, j), scl, n)
  {
  }

  /** The loop of fill_first_frag: link n clusters from cl on to their successors. */
  method LinkRun(fs: FatFs, scl: nat, len: nat, ghost v: seq<seq<byte>>, ghost u: seq<bool>) returns (res: FResult)
    requires fs.Valid() && OnlyFat(fs, v, u) && scl + len + 1 < 0x1_0000_0000
    modifies fs`disk, fs`wflag, fs`winsect, fs`ioErrors, fs.win
    ensures fs.Valid() && OnlyFat(fs, v, u) && fs.ioErrors >= old(fs.ioErrors)
    ensures res == FrOk || res == FrIntErr || (res == FrDiskErr && fs.ioErrors > old(fs.ioErrors))
    ensures res == FrOk ==> Fat(fs) == FillFirst(old(Fat(fs)), scl, len)
    ensures OnlyRun(old(Fat(fs)), Fat(fs), scl, len)
    ensures res == FrIntErr ==> len > 0 && (scl < 2 || scl + len > fs.nFatent)
  {
    hide *;
    OnlyFatMeans(fs, v, u);
    ghost var fat := Fat(fs);
    var cl: nat, n: nat := scl, len;
    FillFirstStep(fat, scl, 0);
    while n != 0
      invariant fs.Valid() && OnlyFat(fs, v, u) && fs.ioErrors >= old(fs.ioErrors)
      invariant cl + n == scl + len && n <= len
      invariant Fat(fs) == FillFirst(fat, scl, len - n)
      invariant n < len ==> scl >= 2 && cl <= fs.nFatent
      decreases n
    {
      RunLinked(fat, scl, len - n, len);
      res := PutLink(fs, cl, cl + 1, v, u);
      if res != FrOk { return; }
      CutSmall(cl + 1);
      FillFirstStep(fat, scl, len - n);
      cl, n := cl + 1, n - 1;
    }
    RunLinked(fat, scl, len, len);
    return FrOk;
  }

  /** fill_first_frag: put the links of the first fragment on the FAT. */
  method FillFirstFrag(obj: FfObj) returns (res: FResult)
    requires obj.fs.Valid() && HasBitmap(obj.fs) && (obj.stat == FRAGMENTED ==> obj.sclust + obj.nCont + 1 < 0x1_0000_0000)
    modifies obj`stat, obj.fs`disk, obj.fs`wflag, obj.fs`winsect, obj.fs`ioErrors, obj.fs.win
    ensures obj.fs.Valid() && OnlyFat(obj.fs, old(obj.fs.View()), old(InUseMap(obj.fs)))
    ensures obj.fs.ioErrors >= old(obj.fs.ioErrors)
    ensures res == FrOk || res == FrIntErr || (res == FrDiskErr && obj.fs.ioErrors > old(obj.fs.ioErrors))
    ensures old(obj.stat) != FRAGMENTED ==> res == FrOk && Fat(obj.fs) == old(Fat(obj.fs)) && obj.stat == old(obj.stat)
    ensures res == FrOk && old(obj.stat) == FRAGMENTED ==>
              obj.stat == ON_FAT && Fat(obj.fs) == FillFirst(old(Fat(obj.fs)), obj.sclust, obj.nCont)
    ensures res != FrOk ==> obj.stat == FRAGMENTED && OnlyRun(old(Fat(obj.fs)), Fat(obj.fs), obj.sclust, obj.nCont)
    ensures res == FrIntErr ==> obj.nCont > 0 && (obj.sclust < 2 || obj.sclust + obj.nCont > obj.fs.nFatent)
  {
    hide FatFs.Valid, FatFs.View, HasBitmap, InUseMap, OnlyFat, Fat, FillFirst, OnlyRun;
    OnlyFatNow(obj.fs);
    if obj.stat == FRAGMENTED {
      res := LinkRun(obj.fs, obj.sclust, obj.nCont, obj.fs.View(), InUseMap(obj.fs));
      if res != FrOk { return; }
      obj.stat := ON_FAT;
    }
    return FrOk;
  }

  /** One round of fill_last_frag: m links are missing before it. */
  method FillOne(fs: FatFs, lcl: nat, m: nat, term: nat, ghost fat: seq<nat>, ghost n: nat, ghost v: seq<seq<byte>>, ghost u: seq<bool>)
      returns (res: FResult)
    requires fs.Valid() && OnlyFat(fs, v, u) && |fat| == fs.nFatent && 0 < m <= n <= lcl < |fat| && term < 0x1_0000_0000
    requires Fat(fs) == FillPart(fat, lcl, n, m, Cut(ExFat, term))
    modifies fs`disk, fs`wflag, fs`winsect, fs`ioErrors, fs.win
    ensures fs.Valid() && OnlyFat(fs, v, u) && fs.ioErrors >= old(fs.ioErrors)
    ensures res == FrOk || res == FrIntErr || (res == FrDiskErr && fs.ioErrors > old(fs.ioErrors))
    ensures Fat(fs) == FillPart(fat, lcl, n, if res == FrOk then m - 1 else m, Cut(ExFat, term))
    ensures res == FrIntErr ==> lcl < m + 1
  {
    hide *;
    OnlyFatMeans(fs, v, u);
    FillPartStep(fat, lcl, n, m, Cut(ExFat, term));
    CutSmall(lcl - m + 2);
    res := PutLink(fs, lcl - m + 1, if m > 1 then lcl - m + 2 else term, v, u);
  }

  /** fill_last_frag: put the links of the last fragment, which ends at lcl, on
      the FAT, the last one leading to term. */
  method FillLastFrag(obj: FfObj, lcl: nat, term: nat) returns (res: FResult)
    requires obj.fs.Valid() && HasBitmap(obj.fs) && obj.nFrag <= lcl < obj.fs.nFatent && term < 0x1_0000_0000
    modifies obj`nFrag, obj.fs`disk, obj.fs`wflag, obj.fs`winsect, obj.fs`ioErrors, obj.fs.win
    ensures obj.fs.Valid() && OnlyFat(obj.fs, old(obj.fs.View()), old(InUseMap(obj.fs)))
    ensures obj.fs.ioErrors >= old(obj.fs.ioErrors)
    ensures res == FrOk || res == FrIntErr || (res == FrDiskErr && obj.fs.ioErrors > old(obj.fs.ioErrors))
    ensures res == FrOk ==> obj.nFrag == 0 && Fat(obj.fs) == FillLast(old(Fat(obj.fs)), lcl, old(obj.nFrag), Cut(ExFat, term))
    ensures OnlyFragment(old(Fat(obj.fs)), Fat(obj.fs), lcl, old(obj.nFrag))
    ensures res == FrIntErr ==> lcl < old(obj.nFrag) + 1
    ensures old(obj.nFrag) == 0 ==> res == FrOk
    ensures obj.nFrag <= old(obj.nFrag)
  {
    ghost var v, u, n0 := obj.fs.View(), InUseMap(obj.fs), obj.nFrag;
    hide *;
    OnlyFatNow(obj.fs);
    OnlyFatMeans(obj.fs, v, u);
    ghost var fat, eoc := Fat(obj.fs), Cut(ExFat, term);
    FillPartEnds(fat, lcl, n0, eoc);
    while obj.nFrag > 0
      invariant obj.fs.Valid() && OnlyFat(obj.fs, v, u) && obj.nFrag <= n0 && obj.fs.ioErrors >= old(obj.fs.ioErrors)
      invariant Fat(obj.fs) == FillPart(fat, lcl, n0, obj.nFrag, eoc)
    {
      FillPartStep(fat, lcl, n0, obj.nFrag, eoc);
      res := FillOne(obj.fs, lcl, obj.nFrag, term, fat, n0, v, u);
      if res != FrOk { return; }
      obj.nFrag := obj.nFrag - 1;
    }
    return FrOk;
  }

  lemma OneFlag(u: seq<bool>, u': seq<bool>, k: nat, res: FResult)
    requires ChangeOutcome(u, u', k, 1, true, res) && k < |u| && !u[k]
    ensures res == FrOk || res == FrDiskErr
    ensures res == FrOk ==> u' == u[k := true]
    ensures res == FrDiskErr ==> u' == u
  {
  }

  /** The clear flag nearest to cluster scl going upwards is the next cluster
      when that one is free. */
  lemma NextIfFree(u: seq<bool>, scl: nat, k: nat)
    requires FirstFree(u, scl, k) && scl + 1 < |u| && u[scl] && !u[scl + 1]
    ensures k == scl + 1
  {
    var n: nat :| n < |u| && k == Wrap(scl, n, |u|) && k < |u| && !u[k] && AllUsed(u, scl, n);
    assert Wrap(scl, 0, |u|) == scl && Wrap(scl, 1, |u|) == scl + 1;
  }

  /** Mark a free cluster in use. */
  method MarkUsed(fs: FatFs, ncl: nat) returns (res: FResult)
    requires fs.Valid() && HasBitmap(fs) && 2 <= ncl < fs.nFatent && !InUseMap(fs)[ncl - 2]
    modifies fs`disk, fs`wflag, fs`winsect, fs`ioErrors, fs.win
    ensures fs.Valid() && HasBitmap(fs) && MetaOnly(fs, old(fs.View()), fs.View())
    ensures Fat(fs) == old(Fat(fs)) && fs.ioErrors >= old(fs.ioErrors)
    ensures res == FrOk || (res == FrDiskErr && fs.ioErrors > old(fs.ioErrors))
    ensures InUseMap(fs) == if res == FrOk then old(InUseMap(fs))[ncl - 2 := true] else old(InUseMap(fs))
  {
    hide *;
    FatOfBytes(fs);
    ghost var u, v := InUseMap(fs), fs.View();
    res := ChangeBitmap(fs, ncl, 1, true);
    MetaFrom(fs, v, fs.View());
    OneFlag(u, InUseMap(fs), ncl - 2, res);
    FatOfBytes(fs);
  }

  /** Find a free cluster from scl on and mark it in use: 0 when there is none. */
  method TakeCluster(fs: FatFs, scl: nat) returns (ncl: nat)
    requires fs.Valid() && HasBitmap(fs)
    modifies fs`disk, fs`wflag, fs`winsect, fs`ioErrors, fs.win
    ensures fs.Valid() && HasBitmap(fs) && MetaOnly(fs, old(fs.View()), fs.View())
    ensures Fat(fs) == old(Fat(fs)) && fs.ioErrors >= old(fs.ioErrors)
    ensures ncl == 0 || 2 <= ncl < fs.nFatent || (ncl == DISK_ERROR && fs.ioErrors > old(fs.ioErrors))
    ensures ncl == 0 ==> Full(InUseMap(fs))
    ensures InUseMap(fs) == if 2 <= ncl < fs.nFatent then old(InUseMap(fs))[ncl - 2 := true] else old(InUseMap(fs))
    ensures 2 <= ncl < fs.nFatent ==> FirstFree(old(InUseMap(fs)), StartFlag(fs.nFatent, scl), ncl - 2)
  {
    TypeLimit(fs);
    hide *;
    FatOfBytes(fs);
    ghost var u, v := InUseMap(fs), fs.View();
    ncl := FindBitmap(fs, scl, 1);
    StartInMap(fs, scl);
    RunOfOne(u, StartFlag(fs.nFatent, scl));
    FatOfBytes(fs);
    ghost var v1 := fs.View();
    MetaFrom(fs, v, v1);
    if ncl != 0 && ncl != DISK_ERROR {
      FreeFlag(u, StartFlag(fs.nFatent, scl), ncl - 2);
      var res := MarkUsed(fs, ncl);
      MetaTrans(fs, v, v1, fs.View());
      if res != FrOk { ncl := DISK_ERROR; }
    }
  }

  lemma StartInMap(fs: FatFs, scl: nat)
    requires fs.Valid() && HasBitmap(fs)
    ensures StartFlag(fs.nFatent, scl) < |InUseMap(fs)| == fs.nFatent - 2
  {
    hide Quot, Rem, Bytes, FatFs.Mirrored;
  }

  lemma FreeFlag(u: seq<bool>, start: nat, k: nat)
    requires FirstFree(u, start, k)
    ensures k < |u| && !u[k]
  {
  }

  /** The chain-status update of create_chain for a stretched chain: afterwards
      status and FAT are those of Append. */
  method StretchStatus(obj: FfObj, clst: nat, ncl: nat) returns (res: FResult)
    requires obj.fs.Valid() && HasBitmap(obj.fs) && 2 <= clst < obj.fs.nFatent && ncl < obj.fs.nFatent
    requires obj.nFrag <= clst && (obj.stat == CONTIGUOUS ==> obj.sclust <= clst)
    modifies obj`stat, obj`nCont, obj`nFrag, obj.fs`disk, obj.fs`wflag, obj.fs`winsect, obj.fs`ioErrors, obj.fs.win
    ensures obj.fs.Valid() && OnlyFat(obj.fs, old(obj.fs.View()), old(InUseMap(obj.fs)))
    ensures obj.fs.ioErrors >= old(obj.fs.ioErrors)
    ensures res == FrOk || res == FrIntErr || (res == FrDiskErr && obj.fs.ioErrors > old(obj.fs.ioErrors))
    ensures res == FrOk ==> (Fat(obj.fs), obj.Chain()) == Append(old(Fat(obj.fs)), old(obj.Chain()), clst, ncl)
    ensures OnlyFragment(old(Fat(obj.fs)), Fat(obj.fs), clst, if old(obj.nFrag) == 0 then 1 else old(obj.nFrag))
    ensures res == FrIntErr ==> clst < 2 || clst <= old(obj.nFrag)
  {
    var fs := obj.fs;
    TypeLimit(fs);
    hide FatBytes, FatFs.Valid, FatFs.View, HasBitmap, InUseMap, OnlyFat, Fat, FillLast, Cut, Table;
    OnlyFatNow(fs);
    CutSmall(ncl);
    res := FrOk;
    if obj.stat == CONTIGUOUS && ncl != clst + 1 {
      obj.nCont := clst - obj.sclust;
      obj.stat := FRAGMENTED;
    }
    if obj.stat != CONTIGUOUS {
      if ncl == clst + 1 {
        obj.nFrag := if obj.nFrag > 0 then obj.nFrag + 1 else 2;
      } else {
        if obj.nFrag == 0 { obj.nFrag := 1; }
        res := FillLastFrag(obj, clst, ncl);
        if res == FrOk { obj.nFrag := 1; }
      }
    }
  }

  ghost function ClearFlags(u: seq<bool>): nat {
    |set k: nat | k < |u| && !u[k]|
  }

  /** free_clst is unknown or the exact number of free clusters. */
  ghost predicate FreeInfo(free: nat, u: seq<bool>) {
    free > |u| || free == ClearFlags(u)
  }

  lemma TakeFlag(u: seq<bool>, k: nat)
    requires k < |u| && !u[k]
    ensures ClearFlags(u) > 0 && ClearFlags(u[k := true]) == ClearFlags(u) - 1
  {
    var u' := u[k := true];
    assert (set j: nat | j < |u| && !u[j]) == (set j: nat | j < |u'| && !u'[j]) + {k};
  }

  lemma FreeInfoTaken(free: nat, u: seq<bool>, ncl: nat)
    requires 2 <= ncl < |u| + 2 && !u[ncl - 2] && free != 0
    ensures FreeKept(free, u, if free <= |u| then free - 1 else free, u[ncl - 2 := true], ncl)
  {
    TakeFlag(u, ncl - 2);
  }

  lemma NoClearFlag(u: seq<bool>)
    ensures ClearFlags(u) == 0 <==> Full(u)
  {
    if k: nat :| k < |u| && !u[k] {
      TakeFlag(u, k);
    }
    if Full(u) {
      assert (set k: nat | k < |u| && !u[k]) == {};
    }
  }

  /** Only the entries of the clusters cs may differ. */
  ghost predicate SameElsewhere(fat: seq<nat>, fat': seq<nat>, cs: seq<nat>) {
    |fat'| == |fat| && forall k :: 0 <= k < |fat| && k !in cs ==> fat'[k] == fat[k]
  }

  /** How create_chain relates FAT, flags and status before (plain) and after
      (primed), by result ncl: the i-th cluster of cs is followed by ncl. */
  ghost predicate CreatedEx(fat: seq<nat>, u: seq<bool>, s: Status, fat': seq<nat>, u': seq<bool>, s': Status,
                            cs: seq<nat>, i: nat, ncl: nat)
    requires |fat| == |fat'| && |u| == |u'| == |fat| - 2
  {
    && SameElsewhere(fat, fat', cs)
    && (ncl == DISK_ERROR ==> AtMostOneTaken(u, u'))
    && if i + 1 < |cs| then
         ncl != DISK_ERROR ==> ncl == cs[i + 1] && fat' == fat && u' == u && s' == s
       else if ncl == 0 then
         fat' == fat && u' == u && s' == s
       else
         ncl != DISK_ERROR ==>
           && 2 <= ncl < |fat| && ncl !in cs && !u[ncl - 2] && u' == u[ncl - 2 := true]
           && Represents(fat', if cs == [] then s'.(sclust := ncl) else s', cs + [ncl])
           && (cs != [] && 2 <= Last(cs) + 1 < |fat| && !u[Last(cs) - 1] ==> ncl == Last(cs) + 1)
  }

  /** The flags are the same, but for one that was clear and is set. */
  ghost predicate AtMostOneTaken(u: seq<bool>, u': seq<bool>) {
    u' == u || exists k: nat :: k < |u| && !u[k] && u' == u[k := true]
  }

  lemma NoneTaken(u: seq<bool>)
    ensures AtMostOneTaken(u, u)
  {
  }

  lemma OneTaken(u: seq<bool>, k: nat)
    requires k < |u| && !u[k]
    ensures AtMostOneTaken(u, u[k := true])
  {
  }

  lemma SameElsewhereRefl(fat: seq<nat>, cs: seq<nat>)
    ensures SameElsewhere(fat, fat, cs)
  {
  }

  lemma CreatedNone(fat: seq<nat>, u: seq<bool>, s: Status, fat': seq<nat>, u': seq<bool>, s': Status, cs: seq<nat>, i: nat, ncl: nat)
    requires |fat| == |fat'| && |u| == |u'| == |fat| - 2
    requires SameElsewhere(fat, fat', cs) && AtMostOneTaken(u, u')
    requires ncl == DISK_ERROR || (ncl == 0 && i + 1 >= |cs| && fat' == fat && u' == u && s' == s)
    ensures CreatedEx(fat, u, s, fat', u', s', cs, i, ncl)
  {
  }

  lemma GrownFirst(fat: seq<nat>, u: seq<bool>, s: Status, s': Status, ncl: nat)
    requires |u| == |fat| - 2 && 2 <= ncl < |fat| && !u[ncl - 2] && s'.stat == CONTIGUOUS && s'.nFrag == 0
    ensures CreatedEx(fat, u, s, fat, u[ncl - 2 := true], s', [], 0, ncl)
  {
    assert [] + [ncl] == [ncl];
  }

  ghost predicate AllInUse(u: seq<bool>, cs: seq<nat>) {
    forall k :: k in cs ==> 2 <= k < |u| + 2 && u[k - 2]
  }

  lemma GrownLast(fat: seq<nat>, u: seq<bool>, s: Status, cs: seq<nat>, ncl: nat)
    requires |u| == |fat| - 2 && Represents(fat, s, cs) && AllInUse(u, cs)
    requires 2 <= ncl && FirstFree(u, Last(cs) - 2, ncl - 2)
    ensures s.nFrag <= Last(cs) && ncl < |fat|
    ensures var (fat', s') := Append(fat, s, Last(cs), ncl);
            |fat'| == |fat| && CreatedEx(fat, u, s, fat', u[ncl - 2 := true], s', cs, |cs| - 1, ncl)
  {
    ChainBounds(fat, s, cs);
    hide Represents, FirstFree, Append;
    FreeFlag(u, Last(cs) - 2, ncl - 2);
    AppendRepresents(fat, s, cs, ncl);
    assert Last(cs) in cs;
    if Last(cs) + 1 < |fat| && !u[Last(cs) - 1] {
      NextIfFree(u, Last(cs) - 2, ncl - 2);
    }
  }

  lemma FragmentInChain(fat: seq<nat>, s: Status, cs: seq<nat>, fat': seq<nat>)
    requires Represents(fat, s, cs) && OnlyFragment(fat, fat', Last(cs), if s.nFrag == 0 then 1 else s.nFrag)
    ensures SameElsewhere(fat, fat', cs)
  {
    FragmentFits(fat, s, cs);
    forall k | 0 <= k < |fat| && k !in cs
      ensures fat'[k] == fat[k]
    {
      assert Last(cs) in cs;
      if s.nFrag > 0 {
        InLastFragment(cs, s.nFrag, k);
      }
    }
  }

  function LastOf(cs: seq<nat>): nat {
    if cs == [] then 0 else |cs| - 1
  }

  /** ncl is the free cluster found from the last cluster clst of cs on. */
  ghost predicate Taken(fat: seq<nat>, u: seq<bool>, s: Status, cs: seq<nat>, clst: nat, ncl: nat) {
    && |u| + 2 == |fat| && 2 <= ncl < |fat| && !u[ncl - 2]
    && if cs == [] then clst == 0 && s.nFrag == 0
       else 2 <= clst == Last(cs) && Represents(fat, s, cs) && AllInUse(u, cs) && FirstFree(u, clst - 2, ncl - 2)
  }

  lemma TakenFrom(fat: seq<nat>, u: seq<bool>, s: Status, cs: seq<nat>, clst: nat, scl: nat, ncl: nat)
    requires |u| + 2 == |fat| && 2 <= ncl < |fat| && FirstFree(u, StartFlag(|fat|, scl), ncl - 2)
    requires if cs == [] then clst == 0 && s.nFrag == 0
             else 2 <= clst == scl == Last(cs) < |fat| && Represents(fat, s, cs) && AllInUse(u, cs)
    ensures Taken(fat, u, s, cs, clst, ncl)
  {
    FreeFlag(u, StartFlag(|fat|, scl), ncl - 2);
  }

  lemma TakenMeans(fat: seq<nat>, u: seq<bool>, s: Status, cs: seq<nat>, clst: nat, ncl: nat)
    requires Taken(fat, u, s, cs, clst, ncl)
    ensures |u| + 2 == |fat| && 2 <= ncl < |fat| && !u[ncl - 2]
    ensures cs == [] ==> clst == 0 && s.nFrag == 0
    ensures cs != [] ==> Represents(fat, s, cs) && AllInUse(u, cs) && 2 <= clst == Last(cs) < |fat| && FirstFree(u, clst - 2, ncl - 2)
    ensures cs != [] ==> s.nFrag < clst && (s.stat == CONTIGUOUS ==> s.sclust <= clst)
  {
    if cs != [] {
      ChainBounds(fat, s, cs);
      FragmentBelow(fat, s, cs);
    }
  }

  /** Update the chain status after cluster ncl, free under flags u, was taken. */
  method UpdateStatus(obj: FfObj, clst: nat, ncl: nat, ghost cs: seq<nat>, ghost u: seq<bool>) returns (res: FResult)
    requires obj.fs.Valid() && HasBitmap(obj.fs) && |u| == obj.fs.nFatent - 2 && 2 <= ncl < obj.fs.nFatent
    requires Taken(Fat(obj.fs), u, obj.Chain(), cs, clst, ncl) && InUseMap(obj.fs) == u[ncl - 2 := true]
    modifies obj`stat, obj`nCont, obj`nFrag, obj.fs`disk, obj.fs`wflag, obj.fs`winsect, obj.fs`ioErrors, obj.fs.win
    ensures obj.fs.Valid() && HasBitmap(obj.fs) && InUseMap(obj.fs) == u[ncl - 2 := true]
    ensures MetaOnly(obj.fs, old(obj.fs.View()), obj.fs.View()) && obj.fs.ioErrors >= old(obj.fs.ioErrors)
    ensures res == FrOk || obj.fs.ioErrors > old(obj.fs.ioErrors)
    ensures CreatedEx(old(Fat(obj.fs)), u, old(obj.Chain()), Fat(obj.fs), InUseMap(obj.fs), obj.Chain(), cs, LastOf(cs),
                      if res == FrOk then ncl else DISK_ERROR)
  {
    var fs := obj.fs;
    TypeLimit(fs);
    hide *;
    ghost var fat, s, v := Fat(fs), obj.Chain(), fs.View();
    TakenMeans(fat, u, s, cs, clst, ncl);
    MetaRefl(fs, v);
    res := FrOk;
    if clst == 0 {
      obj.stat := CONTIGUOUS;
      StatusOf(obj);
      GrownFirst(fat, u, s, obj.Chain(), ncl);
    } else {
      res := AppendCluster(obj, clst, ncl);
      StretchOutcome(fat, u, s, Fat(fs), obj.Chain(), cs, clst, ncl, res == FrOk);
    }
  }

  /** The chain-status update for a stretched chain whose last fragment is in range. */
  method AppendCluster(obj: FfObj, clst: nat, ncl: nat) returns (res: FResult)
    requires obj.fs.Valid() && HasBitmap(obj.fs) && 2 <= clst < obj.fs.nFatent && ncl < obj.fs.nFatent
    requires obj.nFrag < clst && (obj.stat == CONTIGUOUS ==> obj.sclust <= clst)
    modifies obj`stat, obj`nCont, obj`nFrag, obj.fs`disk, obj.fs`wflag, obj.fs`winsect, obj.fs`ioErrors, obj.fs.win
    ensures obj.fs.Valid() && HasBitmap(obj.fs) && InUseMap(obj.fs) == old(InUseMap(obj.fs))
    ensures MetaOnly(obj.fs, old(obj.fs.View()), obj.fs.View()) && obj.fs.ioErrors >= old(obj.fs.ioErrors)
    ensures res == FrOk || (res == FrDiskErr && obj.fs.ioErrors > old(obj.fs.ioErrors))
    ensures res == FrOk ==> (Fat(obj.fs), obj.Chain()) == Append(old(Fat(obj.fs)), old(obj.Chain()), clst, ncl)
    ensures OnlyFragment(old(Fat(obj.fs)), Fat(obj.fs), clst, if old(obj.nFrag) == 0 then 1 else old(obj.nFrag))
  {
    hide *;
    StatusOf(obj);
    ghost var v, u := obj.fs.View(), InUseMap(obj.fs);
    res := StretchStatus(obj, clst, ncl);
    OnlyFatMeans(obj.fs, v, u);
    MetaFrom(obj.fs, v, obj.fs.View());
  }

  lemma StretchOutcome(fat: seq<nat>, u: seq<bool>, s: Status, fat': seq<nat>, s': Status, cs: seq<nat>, clst: nat, ncl: nat, ok: bool)
    requires Taken(fat, u, s, cs, clst, ncl) && clst != 0 && |fat'| == |fat| && |u| == |fat| - 2 && 2 <= ncl < |fat|
    requires OnlyFragment(fat, fat', clst, if s.nFrag == 0 then 1 else s.nFrag)
    requires ok ==> clst < |fat| && s.nFrag <= clst && (fat', s') == Append(fat, s, clst, ncl)
    ensures CreatedEx(fat, u, s, fat', u[ncl - 2 := true], s', cs, LastOf(cs), if ok then ncl else DISK_ERROR)
  {
    hide OnlyFragment, Append, CreatedEx, Taken, SameElsewhere, AtMostOneTaken;
    TakenMeans(fat, u, s, cs, clst, ncl);
    TakenChain(fat, u, s, cs, clst, ncl);
    OneTaken(u, ncl - 2);
    FragmentInChain(fat, s, cs, fat');
    if ok {
      GrownLast(fat, u, s, cs, ncl);
    } else {
      CreatedNone(fat, u, s, fat', u[ncl - 2 := true], s', cs, |cs| - 1, DISK_ERROR);
    }
  }

  lemma TakenChain(fat: seq<nat>, u: seq<bool>, s: Status, cs: seq<nat>, clst: nat, ncl: nat)
    requires Taken(fat, u, s, cs, clst, ncl) && clst != 0
    ensures cs != [] && Represents(fat, s, cs) && LastOf(cs) == |cs| - 1
  {
  }

  /** What owning the clusters cs says about FAT, flags and status. */
  lemma OwnsMeans(obj: FfObj, cs: seq<nat>, i: nat)
    requires obj.fs.Valid() && HasBitmap(obj.fs) && obj.Owns(cs)
    ensures cs == [] ==> obj.nFrag == 0
    ensures cs != [] ==>
              && Represents(Fat(obj.fs), obj.Chain(), cs) && AllInUse(InUseMap(obj.fs), cs)
              && |cs| > 0 && 2 <= Last(cs) < obj.fs.nFatent && 2 <= obj.sclust < obj.fs.nFatent
              && (i < |cs| ==> 2 <= cs[i] < obj.fs.nFatent) && (i + 1 < |cs| ==> 2 <= cs[i + 1] < obj.fs.nFatent)
    ensures cs != [] && i + 1 >= |cs| && i < |cs| ==> cs[i] == Last(cs)
  {
    hide FatFs.Valid, HasBitmap, InUseMap, Fat;
    if cs != [] {
      ChainBounds(Fat(obj.fs), obj.Chain(), cs);
    }
  }

  /** The part of create_chain that takes a free cluster and updates the chain
      status: clst is the last cluster of the object, 0 for a new chain. */
  method GrowEx(obj: FfObj, clst: nat, scl: nat, ghost cs: seq<nat>) returns (ncl: nat)
    requires obj.fs.Valid() && HasBitmap(obj.fs) && obj.Owns(cs)
    requires if cs == [] then clst == 0 else clst == scl == Last(cs)
    modifies obj`stat, obj`nCont, obj`nFrag, obj.fs`disk, obj.fs`wflag, obj.fs`winsect, obj.fs`ioErrors, obj.fs.win
    ensures obj.fs.Valid() && HasBitmap(obj.fs) && MetaOnly(obj.fs, old(obj.fs.View()), obj.fs.View())
    ensures obj.fs.ioErrors >= old(obj.fs.ioErrors) && (ncl == DISK_ERROR ==> obj.fs.ioErrors > old(obj.fs.ioErrors))
    ensures CreatedEx(old(Fat(obj.fs)), old(InUseMap(obj.fs)), old(obj.Chain()),
                      Fat(obj.fs), InUseMap(obj.fs), obj.Chain(), cs, LastOf(cs), ncl)
    ensures ncl == 0 ==> Full(InUseMap(obj.fs))
  {
    var fs := obj.fs;
    hide *;
    TypeLimit(fs);
    OwnsMeans(obj, cs, 0);
    ghost var fat, u, s, v := Fat(fs), InUseMap(fs), obj.Chain(), fs.View();
    ncl := TakeCluster(fs, scl);
    ghost var v1 := fs.View();
    SameElsewhereRefl(fat, cs);
    NoneTaken(u);
    if ncl != 0 && ncl != DISK_ERROR {
      TakenFrom(fat, u, s, cs, clst, scl, ncl);
      var res := UpdateStatus(obj, clst, ncl, cs, u);
      MetaTrans(fs, v, v1, fs.View());
      if res != FrOk {
        ncl := DISK_ERROR;  // the fragment lies in range, so only the disk can fail
      }
    } else {
      CreatedNone(fat, u, s, Fat(fs), InUseMap(fs), obj.Chain(), cs, LastOf(cs), ncl);
    }
  }

  /** The first cluster of the last fragment has a number, too. */
  lemma FragmentBelow(fat: seq<nat>, s: Status, cs: seq<nat>)
    requires Represents(fat, s, cs)
    ensures |cs| > 0 && s.nFrag < Last(cs)
  {
    FragmentFits(fat, s, cs);
    assert s.nFrag > 0 ==> cs[|cs| - s.nFrag] == Last(cs) - (s.nFrag - 1);
  }

  lemma ChainBounds(fat: seq<nat>, s: Status, cs: seq<nat>)
    requires Represents(fat, s, cs)
    ensures |cs| > 0 && 2 <= Last(cs) < |fat| && s.nFrag <= Last(cs) && (s.stat == CONTIGUOUS ==> s.sclust <= Last(cs))
  {
    FragmentFits(fat, s, cs);
  }

  lemma GrownFlags(fat: seq<nat>, u: seq<bool>, s: Status, fat': seq<nat>, u': seq<bool>, s': Status, cs: seq<nat>, ncl: nat)
    requires |fat| == |fat'| && |u| == |u'| == |fat| - 2 && CreatedEx(fat, u, s, fat', u', s', cs, LastOf(cs), ncl)
    ensures ncl != DISK_ERROR && ncl != 0 ==> 2 <= ncl < |fat| && !u[ncl - 2] && u' == u[ncl - 2 := true] && ClearFlags(u) > 0
    ensures ncl == 0 ==> u' == u
  {
    if ncl != DISK_ERROR && ncl != 0 {
      TakeFlag(u, ncl - 2);
    }
  }

  /** create_chain from the test of free_clst on. */
  method AllocateEx(obj: FfObj, clst: nat, scl: nat, ghost cs: seq<nat>) returns (ncl: nat)
    requires obj.fs.Valid() && HasBitmap(obj.fs) && obj.Owns(cs)
    requires if cs == [] then clst == 0 else clst == scl == Last(cs)
    modifies obj`stat, obj`nCont, obj`nFrag, obj.fs`disk, obj.fs`wflag, obj.fs`winsect, obj.fs`ioErrors
    modifies obj.fs`lastClst, obj.fs`freeClst, obj.fs.win
    ensures obj.fs.Valid() && HasBitmap(obj.fs) && MetaOnly(obj.fs, old(obj.fs.View()), obj.fs.View())
    ensures obj.fs.ioErrors >= old(obj.fs.ioErrors) && (ncl == DISK_ERROR ==> obj.fs.ioErrors > old(obj.fs.ioErrors))
    ensures CreatedEx(old(Fat(obj.fs)), old(InUseMap(obj.fs)), old(obj.Chain()),
                      Fat(obj.fs), InUseMap(obj.fs), obj.Chain(), cs, LastOf(cs), ncl)
    ensures FreeKept(old(obj.fs.freeClst), old(InUseMap(obj.fs)), obj.fs.freeClst, InUseMap(obj.fs), ncl)
  {
    var fs := obj.fs;
    hide *;
    ghost var fat, u, s, free := Fat(fs), InUseMap(fs), obj.Chain(), fs.freeClst;
    NothingFree(free, u);
    TypeLimit(fs);
    if fs.freeClst == 0 {
      MetaRefl(fs, fs.View());
      SameElsewhereRefl(fat, cs);
      NoneTaken(u);
      CreatedNone(fat, u, s, fat, u, s, cs, LastOf(cs), 0);
      return 0;
    }
    ncl := GrowEx(obj, clst, scl, cs);
    GrownFlags(fat, u, s, Fat(fs), InUseMap(fs), obj.Chain(), cs, ncl);
    if ncl == 0 || ncl == DISK_ERROR { return; }
    FreeInfoTaken(free, u, ncl);
    CountTaken(fs, ncl);
  }

  /** Remember the last allocated cluster and count it. */
  method CountTaken(fs: FatFs, ncl: nat)
    requires fs.Valid() && HasBitmap(fs) && fs.freeClst != 0
    modifies fs`lastClst, fs`freeClst
    ensures fs.Valid() && HasBitmap(fs) && Fat(fs) == old(Fat(fs)) && InUseMap(fs) == old(InUseMap(fs)) && fs.View() == old(fs.View())
    ensures fs.lastClst == ncl
    ensures fs.freeClst == if old(fs.freeClst) <= fs.nFatent - 2 then old(fs.freeClst) - 1 else old(fs.freeClst)
  {
    hide FatFs.Valid, HasBitmap, InUseMap, Fat;
    fs.lastClst := ncl;
    if fs.freeClst <= fs.nFatent - 2 { fs.freeClst := fs.freeClst - 1; }
  }

  /** The free-cluster counter stays right, and the result is 0 exactly when no
      cluster is free. */
  ghost predicate FreeKept(free: nat, u: seq<bool>, free': nat, u': seq<bool>, ncl: nat) {
    FreeInfo(free, u) && ncl != DISK_ERROR ==>
      && FreeInfo(free', u')
      && (ncl == 0 <==> ClearFlags(u) == 0)
  }

  lemma NothingFree(free: nat, u: seq<bool>)
    ensures free == 0 || Full(u) ==> FreeKept(free, u, free, u, 0)
    ensures forall free': nat, u' :: FreeKept(free, u, free', u', DISK_ERROR)
  {
    NoClearFlag(u);
  }

  /** create_chain on an exFAT volume, called with the i-th of the clusters cs
      that the object owns, or with 0 when it owns none. */
  method CreateChainEx(obj: FfObj, clst: nat, ghost cs: seq<nat>, ghost i: nat) returns (ncl: nat)
    requires obj.fs.Valid() && HasBitmap(obj.fs) && obj.Owns(cs)
    requires if cs == [] then clst == i == 0 else i < |cs| && clst == cs[i] && LinkKnown(obj.Chain(), |cs|, i)
    modifies obj`stat, obj`nCont, obj`nFrag, obj.fs`disk, obj.fs`wflag, obj.fs`winsect, obj.fs`ioErrors
    modifies obj.fs`lastClst, obj.fs`freeClst, obj.fs.win
    ensures obj.fs.Valid() && HasBitmap(obj.fs) && MetaOnly(obj.fs, old(obj.fs.View()), obj.fs.View())
    ensures obj.fs.ioErrors >= old(obj.fs.ioErrors) && (ncl == DISK_ERROR ==> obj.fs.ioErrors > old(obj.fs.ioErrors))
    ensures CreatedEx(old(Fat(obj.fs)), old(InUseMap(obj.fs)), old(obj.Chain()),
                      Fat(obj.fs), InUseMap(obj.fs), obj.Chain(), cs, i, ncl)
    ensures i + 1 >= |cs| ==> FreeKept(old(obj.fs.freeClst), old(InUseMap(obj.fs)), obj.fs.freeClst, InUseMap(obj.fs), ncl)
    ensures i + 1 < |cs| ==> obj.fs.freeClst == old(obj.fs.freeClst)
  {
    var fs := obj.fs;
    hide *;
    TypeLimit(fs);
    OwnsMeans(obj, cs, i);
    ghost var fat, u, s, v := Fat(fs), InUseMap(fs), obj.Chain(), fs.View();
    MetaRefl(fs, v);
    ghost var v1 := v;
    var cs0, scl;
    if clst == 0 {
      scl := fs.lastClst;
      if scl == 0 || scl >= fs.nFatent { scl := 1; }
    } else {
      OwnsReadable(obj, cs, i);
      cs0 := GetFatEx(obj, clst, cs, i);
      v1 := fs.View();
      MetaFrom(fs, v, v1);
      if cs0 < 2 { return INTERNAL_ERROR; }
      if cs0 == DISK_ERROR || cs0 < fs.nFatent {
        Followed(fat, u, s, cs, i, cs0);
        NothingFree(fs.freeClst, u);
        return cs0;
      }
      scl := clst;
    }
    ncl := AllocateEx(obj, clst, scl, cs);
    MetaTrans(fs, v, v1, fs.View());
  }

  lemma Followed(fat: seq<nat>, u: seq<bool>, s: Status, cs: seq<nat>, i: nat, ncl: nat)
    requires |u| == |fat| - 2
    requires ncl == DISK_ERROR || (i + 1 < |cs| && ncl == cs[i + 1])
    ensures CreatedEx(fat, u, s, fat, u, s, cs, i, ncl)
  {
  }

  /** Completing a chain leaves a contiguous one alone; any other then stands on
      the FAT, cluster by cluster in the order of allocation.  A failure has changed
      entries of its own clusters at most. */
  ghost predicate ChainCompleted(fat: seq<nat>, s: Status, fat': seq<nat>, s': Status, cs: seq<nat>, ok: bool) {
    if s.stat == CONTIGUOUS then ok && fat' == fat && s' == s
    else SameElsewhere(fat, fat', cs) && (ok ==> IsChain(fat', cs) && s' == s.(stat := ON_FAT, nFrag := 0) && Represents(fat', s', cs))
  }

  /** fill_last_frag for an object whose first fragment is on the FAT. */
  method CompleteLast(obj: FfObj, clust: nat, ghost cs: seq<nat>, ghost fat: seq<nat>, ghost s: Status) returns (res: FResult)
    requires obj.fs.Valid() && HasBitmap(obj.fs) && Represents(fat, s, cs) && clust < obj.fs.nFatent == |fat|
    requires s.nFrag > 0 ==> clust == Last(cs)
    requires if s.stat == FRAGMENTED then obj.Chain() == s.(stat := ON_FAT) && Fat(obj.fs) == FillFirst(fat, s.sclust, s.nCont)
             else obj.Chain() == s && Fat(obj.fs) == fat
    modifies obj`nFrag, obj.fs`disk, obj.fs`wflag, obj.fs`winsect, obj.fs`ioErrors, obj.fs.win
    ensures obj.fs.Valid() && HasBitmap(obj.fs) && InUseMap(obj.fs) == old(InUseMap(obj.fs))
    ensures MetaOnly(obj.fs, old(obj.fs.View()), obj.fs.View())
    ensures obj.fs.ioErrors >= old(obj.fs.ioErrors)
    ensures res == FrOk || (res == FrDiskErr && obj.fs.ioErrors > old(obj.fs.ioErrors))
    ensures ChainCompleted(fat, s, Fat(obj.fs), obj.Chain(), cs, res == FrOk)
  {
    var fs := obj.fs;
    hide *;
    ghost var v, u, fat1, s1 := fs.View(), InUseMap(fs), Fat(fs), obj.Chain();
    TypeLimit(fs);
    StatusOf(obj);
    FirstBound(fat, s, cs);
    SmallFragment(s, cs, clust);
    res := FillLastFrag(obj, clust, END_OF_CHAIN);
    OnlyFatMeans(fs, v, u);
    MetaFrom(fs, v, fs.View());
    StatusOf(obj);
    if res == FrOk {
      Completed(fat, s, fat1, s1, Fat(fs), obj.Chain(), cs, clust);
    } else {
      NotContiguous(fat, s, cs);
      LastFailed(fat, s, fat1, Fat(fs), cs, clust);
      NotCompleted(fat, s, Fat(fs), obj.Chain(), cs);
    }
  }

  lemma StatusOf(obj: FfObj)
    ensures obj.Chain() == Status(obj.stat, obj.sclust, obj.nCont, obj.nFrag)
  {
  }

  lemma SmallFragment(s: Status, cs: seq<nat>, clust: nat)
    requires |cs| > 0 && s.nFrag < Last(cs) && (s.nFrag > 0 ==> clust == Last(cs))
    ensures s.nFrag <= clust && (s.nFrag > 0 ==> s.nFrag + 1 <= clust)
  {
  }

  lemma NotContiguous(fat: seq<nat>, s: Status, cs: seq<nat>)
    requires Represents(fat, s, cs)
    ensures s.nFrag > 0 ==> s.stat != CONTIGUOUS
  {
  }

  /** Write the late links, as f_sync does before it stores the chain status. */
  method CompleteChain(obj: FfObj, clust: nat, ghost cs: seq<nat>) returns (res: FResult)
    requires obj.fs.Valid() && HasBitmap(obj.fs) && Represents(Fat(obj.fs), obj.Chain(), cs)
    requires clust < obj.fs.nFatent && (obj.nFrag > 0 ==> clust == Last(cs))
    modifies obj`stat, obj`nFrag, obj.fs`disk, obj.fs`wflag, obj.fs`winsect, obj.fs`ioErrors, obj.fs.win
    ensures obj.fs.Valid() && HasBitmap(obj.fs) && InUseMap(obj.fs) == old(InUseMap(obj.fs))
    ensures MetaOnly(obj.fs, old(obj.fs.View()), obj.fs.View())
    ensures obj.fs.ioErrors >= old(obj.fs.ioErrors)
    ensures res == FrOk || (res == FrDiskErr && obj.fs.ioErrors > old(obj.fs.ioErrors))
    ensures ChainCompleted(old(Fat(obj.fs)), old(obj.Chain()), Fat(obj.fs), obj.Chain(), cs, res == FrOk)
  {
    var fs := obj.fs;
    hide *;
    ghost var fat, s, v, u := Fat(fs), obj.Chain(), fs.View(), InUseMap(fs);
    TypeLimit(fs);
    StatusOf(obj);
    FirstBound(fat, s, cs);
    OnlyFatNow(fs);
    res := FillFirstFrag(obj);
    OnlyFatMeans(fs, v, u);
    StatusOf(obj);
    ghost var v1 := fs.View();
    MetaFrom(fs, v, v1);
    if res == FrOk {
      res := CompleteLast(obj, clust, cs, fat, s);
      MetaTrans(fs, v, v1, fs.View());
    } else {
      FirstFailed(fat, s, Fat(fs), cs);
      NotCompleted(fat, s, Fat(fs), obj.Chain(), cs);
    }
  }

  /** The run of the first fragment consists of clusters of the chain. */
  lemma FirstFailed(fat: seq<nat>, s: Status, fat': seq<nat>, cs: seq<nat>)
    requires Represents(fat, s, cs) && s.stat == FRAGMENTED && OnlyRun(fat, fat', s.sclust, s.nCont)
    ensures SameElsewhere(fat, fat', cs) && s.stat != CONTIGUOUS
  {
    FragmentFits(fat, s, cs);
    forall k | 0 <= k < |fat| && k !in cs
      ensures fat'[k] == fat[k]
    {
      InFirstFragment(cs, s.sclust, s.nCont, k);
    }
  }

  lemma InFirstFragment(cs: seq<nat>, scl: nat, n: nat, k: nat)
    requires n < |cs| && forall i :: 0 <= i <= n ==> cs[i] == scl + i
    ensures scl <= k <= scl + n ==> k in cs
  {
    if scl <= k <= scl + n {
      assert cs[k - scl] == k;
    }
  }

  lemma LastFailed(fat: seq<nat>, s: Status, fat1: seq<nat>, fat': seq<nat>, cs: seq<nat>, clust: nat)
    requires Represents(fat, s, cs) && s.nFrag > 0 && clust == Last(cs) && OnlyFragment(fat1, fat', clust, s.nFrag)
    requires fat1 == if s.stat == FRAGMENTED then FillFirst(fat, s.sclust, s.nCont) else fat
    ensures SameElsewhere(fat, fat', cs)
  {
    if s.stat == FRAGMENTED {
      RunLinked(fat, s.sclust, s.nCont, s.nCont);
      FirstFailed(fat, s, fat1, cs);
    }
    FragmentFits(fat, s, cs);
    forall k | 0 <= k < |fat| && k !in cs
      ensures fat'[k] == fat[k]
    {
      InLastFragment(cs, s.nFrag, k);
      assert fat1[k] == fat[k];
    }
  }

  lemma FirstBound(fat: seq<nat>, s: Status, cs: seq<nat>)
    requires Represents(fat, s, cs)
    ensures s.stat == FRAGMENTED ==> 2 <= s.sclust && s.sclust + s.nCont < |fat|
    ensures s.stat == CONTIGUOUS ==> s.nFrag == 0
    ensures |cs| > 0 && s.nFrag < Last(cs)
  {
    FragmentFits(fat, s, cs);
    FragmentBelow(fat, s, cs);
    assert s.stat == FRAGMENTED ==> cs[s.nCont] == s.sclust + s.nCont;
  }

  lemma NotCompleted(fat: seq<nat>, s: Status, fat': seq<nat>, s': Status, cs: seq<nat>)
    requires s.stat != CONTIGUOUS && SameElsewhere(fat, fat', cs)
    ensures ChainCompleted(fat, s, fat', s', cs, false)
  {
  }

  /** FilledIsChain for fill_last_frag called with any cluster when there is no
      last fragment to fill. */
  lemma Completed(fat: seq<nat>, s: Status, fat1: seq<nat>, s1: Status, fat2: seq<nat>, s2: Status, cs: seq<nat>, clust: nat)
    requires Represents(fat, s, cs) && clust < |fat| <= EntryLimit(ExFat) && (s.nFrag > 0 ==> clust == Last(cs))
    requires if s.stat == FRAGMENTED then s1 == s.(stat := ON_FAT) && fat1 == FillFirst(fat, s.sclust, s.nCont) else s1 == s && fat1 == fat
    requires s.nFrag <= clust && s2 == s1.(nFrag := 0) && fat2 == FillLast(fat1, clust, s.nFrag, Cut(ExFat, END_OF_CHAIN))
    ensures ChainCompleted(fat, s, fat2, s2, cs, true)
  {
    FragmentFits(fat, s, cs);
    EndMarkIsPastTable(ExFat);
    if s.nFrag == 0 {
      assert FillLast(fat1, clust, 0, END_OF_CHAIN) == fat1;
    }
    if s.stat != CONTIGUOUS {
      FilledIsChain(fat, s, cs, Cut(ExFat, END_OF_CHAIN));
      IsChainRepresented(fat2, s2, cs);
    }
  }

  lemma IsChainRepresented(fat: seq<nat>, s: Status, cs: seq<nat>)
    requires IsChain(fat, cs) && Distinct(cs) && s.stat == ON_FAT && s.nFrag == 0 && s.sclust == cs[0]
    ensures Represents(fat, s, cs)
  {
  }

  /** The object size that f_write keeps (somewhere in the last cluster) tells
      get_fat the index of the last cluster. */
  lemma SizeTellsLast(objsize: nat, n: nat, csize: nat, ss: nat)
    requires SectorSize(ss) && csize > 0 && n > 0
    requires Bytes((n - 1) * csize, ss) < objsize <= Bytes(n * csize, ss)
    ensures Quot(objsize - 1, ss) / csize == n - 1
  {
    hide Quot, Rem, Bytes;
    ByteAddress(objsize - 1, (n - 1) * csize, ss);
    ByteAddress(objsize - 1, n * csize, ss);
    var q := Quot(objsize - 1, ss);
    assert (n - 1) * csize <= q < n * csize;
    DivUnique(q, n - 1, csize);
  }

  lemma DivUnique(q: nat, n: nat, c: nat)
    requires c > 0 && n * c <= q < (n + 1) * c
    ensures q / c == n
  {
    DivBounds(q, c);
    var d := q / c;
    MulOrder(d + 1, n, c);
    MulOrder(n + 1, d, c);
  }

  lemma DivBounds(q: nat, c: nat)
    requires c > 0
    ensures q / c * c <= q < (q / c + 1) * c
  {
  }

  lemma MulOrder(a: nat, b: nat, c: nat)
    ensures a <= b ==> a * c <= b * c
  {
  }

  /* ---- Counting free clusters ---- */

  /** Number of clear flags among the first n. */
  function ClearBelow(u: seq<bool>, n: nat): nat
    requires n <= |u|
  {
    if n == 0 then 0 else ClearBelow(u, n - 1) + if u[n - 1] then 0 else 1
  }

  function ClearSet(u: seq<bool>, n: nat): set<nat> {
    set k: nat | k < n && k < |u| && !u[k]
  }

  lemma {:induction false} ClearBelowSet(u: seq<bool>, n: nat)
    requires n <= |u|
    ensures ClearBelow(u, n) == |ClearSet(u, n)|
  {
    if n == 0 {
      assert ClearSet(u, n) == {};
    } else {
      ClearBelowSet(u, n - 1);
      assert ClearSet(u, n) == ClearSet(u, n - 1) + if u[n - 1] then {} else {n - 1};
    }
  }

  /** The bits of ~x. */
  lemma {:induction false} ComplementBit(x: nat, i: nat, w: nat)
    requires i < w && x < Mask(w)
    ensures BitSet(Mask(w) - 1 - x, i) == !BitSet(x, i)
  {
    if i > 0 {
      ComplementBit(x / 2, i - 1, w - 1);
      assert (Mask(w) - 1 - x) / 2 == Mask(w - 1) - 1 - x / 2;
    }
  }

  /** y shifted right t times. */
  function Halved(y: nat, t: nat): nat {
    if t == 0 then y else Halved(y, t - 1) / 2
  }

  lemma {:induction false} HalvedBit(y: nat, t: nat, j: nat)
    ensures BitSet(Halved(y, t), j) == BitSet(y, t + j)
  {
    if t > 0 {
      HalvedBit(y, t - 1, j + 1);
    }
  }

  /** The bits of x are the flags from k on, as far as there are any. */
  ghost predicate ByteHolds(x: nat, u: seq<bool>, k: nat) {
    forall j :: 0 <= j < 8 && k + j < |u| ==> BitSet(x, j) == u[k + j]
  }

  /** Count the clear bits of one byte, as far as there are clusters. */
  method CountByte(x: nat, clst: nat, nfree0: nat, ghost u: seq<bool>, ghost k: nat) returns (nfree: nat, left: nat)
    requires x < 0x100 && k + clst == |u| && nfree0 == ClearBelow(u, k)
    requires ByteHolds(x, u, k)
    ensures left == (if clst < 8 then 0 else clst - 8) && nfree == ClearBelow(u, |u| - left)
  {
    nfree, left := nfree0, clst;
    var b: nat, bm: nat := 8, 0xFF - x;
    hide BitSet, ByteHolds, Halved;
    ghost var y := bm;
    HalvedStep(y, 0);
    while b > 0 && left > 0
      invariant b <= 8 && left + (8 - b) == clst && nfree == ClearBelow(u, |u| - left)
      invariant bm == Halved(y, 8 - b)
      decreases b
    {
      ByteBit(x, u, k, 8 - b);
      HalvedStep(y, 8 - b);
      nfree := nfree + bm % 2;
      bm := bm / 2;
      b, left := b - 1, left - 1;
    }
  }

  lemma HalvedStep(y: nat, t: nat)
    ensures Halved(y, 0) == y && Halved(y, t + 1) == Halved(y, t) / 2
  {
  }

  /** A clear flag is a set bit of ~x. */
  lemma ByteBit(x: nat, u: seq<bool>, k: nat, t: nat)
    requires x < 0x100 && ByteHolds(x, u, k) && t < 8 && k + t < |u|
    ensures Halved(0xFF - x, t) % 2 == if u[k + t] then 0 else 1
  {
    assert BitSet(x, t) == u[k + t];
    HalvedBit(0xFF - x, t, 0);
    assert BitSet(Halved(0xFF - x, t), 0) == (Halved(0xFF - x, t) % 2 == 1);
    hide BitSet, Halved;
    assert Mask(8) == 0x100 by {
      assert Mask(2) == 4;
      assert Mask(4) == 16;
      assert Mask(6) == 64;
    }
    ComplementBit(x, t, 8);
  }

  lemma ByteBits(fs: FatFs, k: nat, clst: nat)
    requires fs.Valid() && HasBitmap(fs) && k % 8 == 0 && 0 < clst && k + clst == fs.nFatent - 2
    requires fs.winsect == fs.bitbase + Quot(k / 8, fs.ss)
    ensures Rem(k / 8, fs.ss) < fs.win.Length
    ensures ByteHolds(fs.win[Rem(k / 8, fs.ss)] as nat, InUseMap(fs), k)
  {
    hide Quot, Rem, BitSet, FatFs.Valid, HasBitmap, BitBytes, UsedBits;
    WindowBit(fs, k);
    var x := fs.win[Rem(k / 8, fs.ss)] as nat;
    forall j | 0 <= j < 8 && k + j < |InUseMap(fs)|
      ensures BitSet(x, j) == InUseMap(fs)[k + j]
    {
      assert (k + j) / 8 == k / 8 && (k + j) % 8 == j;
      WindowBit(fs, k + j);
    }
  }

  /** The scan of f_getfree over the allocation bitmap. */
  method CountBitmap(fs: FatFs) returns (res: FResult, nfree: nat)
    requires fs.Valid() && HasBitmap(fs)
    modifies fs`disk, fs`wflag, fs`winsect, fs`ioErrors, fs.win
    ensures fs.Valid() && HasBitmap(fs) && fs.SameView(old(fs.View()), fs.View())
    ensures FatBytes(fs) == old(FatBytes(fs)) && InUseMap(fs) == old(InUseMap(fs))
    ensures res == FrOk ==> nfree == ClearFlags(InUseMap(fs))
    ensures fs.ioErrors >= old(fs.ioErrors)
    ensures res == FrOk || (res == FrDiskErr && fs.ioErrors > old(fs.ioErrors))
  {
    hide Quot, Rem, Bytes, FatFs.Valid, FatFs.View, FatBytes, BitBytes, UsedBits, HasBitmap, BitSet;
    Layout(fs);
    ghost var u, v, k := InUseMap(fs), fs.View(), 0;
    res, nfree := FrOk, 0;
    var clst: nat, sect: nat, i: nat := fs.nFatent - 2, fs.bitbase, 0;
    StartOfSector(fs.ss);
    while clst > 0
      invariant k + clst == |u| == fs.nFatent - 2 && k >= 0 && (clst > 0 ==> k % 8 == 0)
      invariant fs.Valid() && HasBitmap(fs) && fs.SameView(v, fs.View()) && fs.ioErrors >= old(fs.ioErrors)
      invariant BitBytes(fs) == old(BitBytes(fs)) && FatBytes(fs) == old(FatBytes(fs))
      invariant clst > 0 ==> i == Rem(k / 8, fs.ss) && sect == fs.bitbase + Quot(k / 8, fs.ss) + if i == 0 then 0 else 1
      invariant clst > 0 && i != 0 ==> fs.winsect == fs.bitbase + Quot(k / 8, fs.ss)
      invariant res == FrOk && nfree == ClearBelow(u, k)
    {
      if i == 0 {
        res := SeekBit(fs, sect, k);
        if res != FrOk { return; }
        sect := sect + 1;
      }
      ByteBits(fs, k, clst);
      ghost var before := clst;
      nfree, clst := CountByte(fs.win[i] as nat, clst, nfree, u, k);
      NextByte(k / 8, fs.ss);
      ghost var k0 := k;
      k := k + (before - clst);
      assert clst > 0 ==> k / 8 == k0 / 8 + 1;
      i := if i + 1 == fs.ss then 0 else i + 1;  // (i + 1) % SS(fs)
    }
    ClearBelowSet(u, |u|);
    assert ClearSet(u, |u|) == set k: nat | k < |u| && !u[k];
  }

  /** f_getfree on an exFAT volume. */
  method GetFreeEx(fs: FatFs) returns (res: FResult, nclst: nat)
    requires fs.Valid() && HasBitmap(fs)
    modifies fs`disk, fs`wflag, fs`winsect, fs`ioErrors, fs`freeClst, fs.win
    ensures fs.Valid() && HasBitmap(fs) && Fat(fs) == old(Fat(fs)) && InUseMap(fs) == old(InUseMap(fs))
    ensures fs.ioErrors >= old(fs.ioErrors)
    ensures res == FrOk || (res == FrDiskErr && fs.ioErrors > old(fs.ioErrors))
    ensures res == FrOk && old(FreeInfo(fs.freeClst, InUseMap(fs))) ==> nclst == fs.freeClst == ClearFlags(InUseMap(fs))
    ensures res != FrOk ==> fs.freeClst == old(fs.freeClst)
  {
    hide FatBytes, FatFs.Valid, FatFs.View, ClearFlags, HasBitmap, BitBytes, UsedBits;
    Layout(fs);
    res := FrOk;
    if fs.freeClst <= fs.nFatent - 2 {
      nclst := fs.freeClst;
    } else {
      res, nclst := CountBitmap(fs);
      if res == FrOk {
        fs.freeClst := nclst;
      }
    }
  }
}
