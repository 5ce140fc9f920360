/** exFAT cluster chains whose links are written late.  A chain that is
    contiguous has no links on the FAT; the first and the last fragment of a
    growing chain are only counted, and filled in afterwards. */
module LazyChain {
  import opened FatTable

  /** The chain status of an object (stat, sclust, n_cont, n_frag in FFOBJID). */
  datatype Status = Status(stat: nat, sclust: nat, nCont: nat, nFrag: nat)

  const CONTIGUOUS: nat := 2  // no links on the FAT
  const FRAGMENTED: nat := 3  // first fragment not yet on the FAT
  const ON_FAT: nat := 0      // all links on the FAT

  predicate Consecutive(cs: seq<nat>, lo: nat, hi: nat)
    requires hi <= |cs|
  {
    forall i :: 0 <= lo < i < hi ==> cs[i] == cs[i - 1] + 1
  }

  predicate Distinct(cs: seq<nat>) {
    forall i, j :: 0 <= i < j < |cs| ==> cs[i] != cs[j]
  }

  /** What status and FAT together say: the object owns exactly the clusters cs, in order. */
  ghost predicate Represents(fat: seq<nat>, s: Status, cs: seq<nat>) {
    && |cs| > 0 && s.sclust == cs[0] && Distinct(cs)
    && (forall i :: 0 <= i < |cs| ==> 2 <= cs[i] < |fat|)
    && (s.stat == CONTIGUOUS || s.stat == FRAGMENTED || s.stat == ON_FAT)
    && (s.stat == CONTIGUOUS ==> s.nFrag == 0 && Consecutive(cs, 0, |cs|))
    && (s.stat != CONTIGUOUS ==> s.nFrag <= |cs| && Consecutive(cs, |cs| - s.nFrag, |cs|))
    && (s.stat == FRAGMENTED ==> s.nCont + 1 + (if s.nFrag == 0 then 1 else s.nFrag) <= |cs| && Consecutive(cs, 0, s.nCont + 1))
    && (s.stat != CONTIGUOUS ==> Linked(fat, cs, if s.stat == FRAGMENTED then s.nCont else 0, |cs| - s.nFrag))
    && (s.stat != CONTIGUOUS && s.nFrag == 0 ==> fat[Last(cs)] >= |fat|)
  }

  /** The links of the clusters lo..hi-1 are on the FAT. */
  ghost predicate Linked(fat: seq<nat>, cs: seq<nat>, lo: nat, hi: nat) {
    forall i {:trigger fat[cs[i]]} :: lo <= i < hi && i + 1 < |cs| ==> cs[i] < |fat| && fat[cs[i]] == cs[i + 1]
  }

  /** fill_last_frag: link the n clusters ending at lcl and end them with term. */
  function FillLast(fat: seq<nat>, lcl: nat, n: nat, term: nat): (r: seq<nat>)
    requires n <= lcl + 1 && lcl < |fat|
    ensures |r| == |fat|
  {
    seq(|fat|, k requires 0 <= k < |fat| => if lcl < k + n && k < lcl then k + 1 else if k == lcl && n > 0 then term else fat[k])
  }

  /** fill_first_frag: link the n clusters from scl on to their successors. */
  function FillFirst(fat: seq<nat>, scl: nat, n: nat): (r: seq<nat>)
    ensures |r| == |fat|
  {
    seq(|fat|, k requires 0 <= k < |fat| => if scl <= k < scl + n then k + 1 else fat[k])
  }

  /** The chain-status part of create_chain on exFAT when ncl is appended after
      the last cluster clst. */
  function Append(fat: seq<nat>, s: Status, clst: nat, ncl: nat): (seq<nat>, Status)
    requires clst < |fat| && s.nFrag <= clst
  {
    var s1 := if s.stat == CONTIGUOUS && ncl != clst + 1 then s.(nCont := SubNat(clst, s.sclust), stat := FRAGMENTED) else s;
    if s1.stat == CONTIGUOUS then (fat, s1)
    else if ncl == clst + 1 then (fat, s1.(nFrag := if s1.nFrag > 0 then s1.nFrag + 1 else 2))
    else (FillLast(fat, clst, if s1.nFrag == 0 then 1 else s1.nFrag, ncl), s1.(nFrag := 1))
  }

  function SubNat(a: nat, b: nat): nat {
    if a >= b then a - b else 0
  }

  lemma ConsecutiveOffset(cs: seq<nat>, lo: nat, hi: nat, i: nat)
    requires hi <= |cs| && lo <= i < hi && Consecutive(cs, lo, hi)
    ensures cs[i] == cs[lo] + (i - lo)
  {
    if i > lo {
      ConsecutiveOffset(cs, lo, hi, i - 1);
    }
  }

  /** A fragment holds no more clusters than there are numbers below its last. */
  lemma FragmentFits(fat: seq<nat>, s: Status, cs: seq<nat>)
    requires Represents(fat, s, cs)
    ensures s.nFrag <= Last(cs)
    ensures s.nFrag > 0 ==> forall i :: |cs| - s.nFrag <= i < |cs| ==> cs[i] == Last(cs) - (|cs| - 1 - i)
    ensures s.stat == FRAGMENTED ==> forall i :: 0 <= i <= s.nCont ==> cs[i] == s.sclust + i
    ensures s.stat == CONTIGUOUS ==> forall i :: 0 <= i < |cs| ==> cs[i] == s.sclust + i
  {
    if s.nFrag > 0 {
      var m := |cs| - s.nFrag;
      forall i | m <= i < |cs|
        ensures cs[i] == Last(cs) - (|cs| - 1 - i)
      {
        ConsecutiveOffset(cs, m, |cs|, i);
        ConsecutiveOffset(cs, m, |cs|, |cs| - 1);
      }
    }
    if s.stat == FRAGMENTED {
      forall i | 0 <= i <= s.nCont ensures cs[i] == s.sclust + i { ConsecutiveOffset(cs, 0, s.nCont + 1, i); }
    }
    if s.stat == CONTIGUOUS {
      forall i | 0 <= i < |cs| ensures cs[i] == s.sclust + i { ConsecutiveOffset(cs, 0, |cs|, i); }
    }
  }

  /** The clusters numbered like the last fragment are those of the last fragment. */
  lemma InLastFragment(cs: seq<nat>, n: nat, k: nat)
    requires 0 < n <= |cs| && Distinct(cs)
    requires forall i :: |cs| - n <= i < |cs| ==> cs[i] == Last(cs) - (|cs| - 1 - i)
    ensures k <= Last(cs) < k + n ==> k in cs
    ensures forall i :: 0 <= i < |cs| ==> (cs[i] <= Last(cs) < cs[i] + n <==> i >= |cs| - n)
  {
    if k <= Last(cs) < k + n {
      assert cs[|cs| - 1 - (Last(cs) - k)] == k;
    }
    forall i | 0 <= i < |cs|
      ensures cs[i] <= Last(cs) < cs[i] + n <==> i >= |cs| - n
    {
      if cs[i] <= Last(cs) < cs[i] + n {
        var h := |cs| - 1 - (Last(cs) - cs[i]);
        assert cs[h] == cs[i];
      }
    }
  }

  /** Linking the last fragment to a further cluster completes the links up to it. */
  lemma FillLastLinks(fat: seq<nat>, cs: seq<nat>, lo: nat, n: nat, ncl: nat)
    requires 0 < n <= |cs| && lo <= |cs| && Distinct(cs) && (forall i :: 0 <= i < |cs| ==> cs[i] < |fat|)
    requires n <= Last(cs) + 1 && forall i :: |cs| - n <= i < |cs| ==> cs[i] == Last(cs) - (|cs| - 1 - i)
    requires Linked(fat, cs, lo, |cs| - n)
    ensures Linked(FillLast(fat, Last(cs), n, ncl), cs + [ncl], lo, |cs|)
    ensures forall k :: 0 <= k < |fat| && k !in cs ==> FillLast(fat, Last(cs), n, ncl)[k] == fat[k]
  {
    var fat' := FillLast(fat, Last(cs), n, ncl);
    forall i | lo <= i < |cs|
      ensures fat'[cs[i]] == (cs + [ncl])[i + 1]
    {
      InLastFragment(cs, n, cs[i]);
      if i < |cs| - n {
        assert fat[cs[i]] == cs[i + 1];
      }
    }
    forall k | 0 <= k < |fat| && k !in cs
      ensures fat'[k] == fat[k]
    {
      InLastFragment(cs, n, k);
    }
  }

  lemma AppendDistinct(cs: seq<nat>, ncl: nat)
    requires Distinct(cs) && ncl !in cs
    ensures Distinct(cs + [ncl])
  {
  }

  /** The next cluster number extends the last fragment (or starts one of two). */
  lemma AppendAdjacent(fat: seq<nat>, s: Status, cs: seq<nat>, ncl: nat)
    requires Represents(fat, s, cs) && ncl == Last(cs) + 1 < |fat| && ncl !in cs && s.stat != CONTIGUOUS
    ensures Represents(fat, s.(nFrag := if s.nFrag > 0 then s.nFrag + 1 else 2), cs + [ncl])
  {
    var cs' := cs + [ncl];
    AppendDistinct(cs, ncl);
    assert forall i :: 0 <= i < |cs| ==> cs'[i] == cs[i];
    var lo := if s.stat == FRAGMENTED then s.nCont else 0;
    assert Linked(fat, cs', lo, |cs| - (if s.nFrag == 0 then 1 else s.nFrag));
  }

  /** Any other cluster number starts a new last fragment, after the one before
      it has been linked. */
  lemma AppendScattered(fat: seq<nat>, s: Status, cs: seq<nat>, ncl: nat, n: nat)
    requires Represents(fat, s, cs) && 2 <= ncl < |fat| && ncl !in cs && s.stat != CONTIGUOUS
    requires n == if s.nFrag == 0 then 1 else s.nFrag
    ensures n <= Last(cs) + 1
    ensures Represents(FillLast(fat, Last(cs), n, ncl), s.(nFrag := 1), cs + [ncl])
    ensures forall k :: 0 <= k < |fat| && k !in cs ==> FillLast(fat, Last(cs), n, ncl)[k] == fat[k]
  {
    FragmentFits(fat, s, cs);
    var cs' := cs + [ncl];
    AppendDistinct(cs, ncl);
    assert forall i :: 0 <= i < |cs| ==> cs'[i] == cs[i];
    FillLastLinks(fat, cs, if s.stat == FRAGMENTED then s.nCont else 0, n, ncl);
  }

  /** A contiguous chain becomes fragmented: only its last link goes on the FAT. */
  lemma AppendSplits(fat: seq<nat>, s: Status, cs: seq<nat>, ncl: nat)
    requires Represents(fat, s, cs) && 2 <= ncl < |fat| && ncl !in cs && s.stat == CONTIGUOUS
    ensures Last(cs) == s.sclust + |cs| - 1
    ensures Represents(FillLast(fat, Last(cs), 1, ncl), s.(stat := FRAGMENTED, nCont := |cs| - 1, nFrag := 1), cs + [ncl])
    ensures forall k :: 0 <= k < |fat| && k !in cs ==> FillLast(fat, Last(cs), 1, ncl)[k] == fat[k]
  {
    FragmentFits(fat, s, cs);
    var cs' := cs + [ncl];
    AppendDistinct(cs, ncl);
    assert forall i :: 0 <= i < |cs| ==> cs'[i] == cs[i];
    FillLastLinks(fat, cs, |cs| - 1, 1, ncl);
  }

  /** Appending keeps the representation, for adjacent and scattered clusters
      alike, and touches no FAT entry of another object. */
  lemma AppendRepresents(fat: seq<nat>, s: Status, cs: seq<nat>, ncl: nat)
    requires Represents(fat, s, cs) && 2 <= ncl < |fat| && ncl !in cs
    ensures s.nFrag <= Last(cs)
    ensures var (fat', s') := Append(fat, s, Last(cs), ncl);
            && |fat'| == |fat| && Represents(fat', s', cs + [ncl])
            && (forall k :: 0 <= k < |fat| && k !in cs ==> fat'[k] == fat[k])
            && (s'.stat == CONTIGUOUS <==> s.stat == CONTIGUOUS && ncl == Last(cs) + 1)
  {
    hide Linked, FillLast;
    FragmentFits(fat, s, cs);
    if s.stat == CONTIGUOUS {
      if ncl != Last(cs) + 1 {
        AppendSplits(fat, s, cs, ncl);
      } else {
        AppendDistinct(cs, ncl);
        assert forall i :: 0 <= i < |cs| ==> (cs + [ncl])[i] == cs[i];
      }
    } else if ncl == Last(cs) + 1 {
      AppendAdjacent(fat, s, cs, ncl);
    } else {
      AppendScattered(fat, s, cs, ncl, if s.nFrag == 0 then 1 else s.nFrag);
    }
  }

  lemma FirstFilled(fat: seq<nat>, s: Status, cs: seq<nat>)
    requires Represents(fat, s, cs) && s.stat != CONTIGUOUS
    ensures var fat1 := if s.stat == FRAGMENTED then FillFirst(fat, s.sclust, s.nCont) else fat;
            && Linked(fat1, cs, 0, |cs| - s.nFrag)
            && (forall k :: 0 <= k < |fat| && k !in cs ==> fat1[k] == fat[k])
            && (s.nFrag == 0 ==> fat1[Last(cs)] == fat[Last(cs)])
  {
    FragmentFits(fat, s, cs);
    if s.stat == FRAGMENTED {
      var fat1 := FillFirst(fat, s.sclust, s.nCont);
      forall i | 0 <= i < |cs|
        ensures s.sclust <= cs[i] < s.sclust + s.nCont <==> i < s.nCont
      {
        if s.sclust <= cs[i] < s.sclust + s.nCont {
          assert cs[cs[i] - s.sclust] == cs[i];
        }
      }
      forall k | 0 <= k < |fat|
        ensures s.sclust <= k < s.sclust + s.nCont ==> k in cs
      {
        if s.sclust <= k < s.sclust + s.nCont {
          assert cs[k - s.sclust] == k;
        }
      }
    }
  }

  /** Filling in the first and then the last fragment leaves the whole chain on
      the FAT, equal to the clusters in the order they were allocated. */
  lemma FilledIsChain(fat: seq<nat>, s: Status, cs: seq<nat>, term: nat)
    requires Represents(fat, s, cs) && s.stat != CONTIGUOUS && term >= |fat|
    ensures s.nFrag <= Last(cs)
    ensures var fat1 := if s.stat == FRAGMENTED then FillFirst(fat, s.sclust, s.nCont) else fat;
            var fat2 := FillLast(fat1, Last(cs), s.nFrag, term);
            IsChain(fat2, cs) && forall k :: 0 <= k < |fat| && k !in cs ==> fat2[k] == fat[k]
  {
    FragmentFits(fat, s, cs);
    FirstFilled(fat, s, cs);
    var fat1 := if s.stat == FRAGMENTED then FillFirst(fat, s.sclust, s.nCont) else fat;
    ChainOfLinks(fat1, cs, s.nFrag, term);
  }

  lemma ChainOfLinks(fat: seq<nat>, cs: seq<nat>, n: nat, term: nat)
    requires 0 < |cs| && n <= |cs| && Distinct(cs) && (forall i :: 0 <= i < |cs| ==> 2 <= cs[i] < |fat|) && term >= |fat|
    requires n <= Last(cs) && (n > 0 ==> forall i :: |cs| - n <= i < |cs| ==> cs[i] == Last(cs) - (|cs| - 1 - i))
    requires Linked(fat, cs, 0, |cs| - n) && (n == 0 ==> fat[Last(cs)] >= |fat|)
    ensures IsChain(FillLast(fat, Last(cs), n, term), cs)
    ensures forall k :: 0 <= k < |fat| && k !in cs ==> FillLast(fat, Last(cs), n, term)[k] == fat[k]
  {
    var fat2 := FillLast(fat, Last(cs), n, term);
    if n > 0 {
      FillLastLinks(fat, cs, 0, n, term);
      forall i | 0 <= i < |cs|
        ensures fat2[cs[i]] == if i + 1 < |cs| then cs[i + 1] else term
      {
        assert (cs + [term])[i] == cs[i];
      }
    } else {
      assert fat2 == fat;
    }
  }

  /** Appending the clusters ns one after the other. */
  ghost function AppendAll(fat: seq<nat>, s: Status, cs: seq<nat>, ns: seq<nat>): (seq<nat>, Status)
    requires Represents(fat, s, cs) && Distinct(cs + ns) && forall n :: n in ns ==> 2 <= n < |fat|
    decreases |ns|
  {
    if ns == [] then (fat, s) else
      NextFits(fat, s, cs, ns);
      var (fat', s') := Append(fat, s, Last(cs), ns[0]);
      AppendAll(fat', s', cs + [ns[0]], ns[1..])
  }

  lemma NextFits(fat: seq<nat>, s: Status, cs: seq<nat>, ns: seq<nat>)
    requires Represents(fat, s, cs) && Distinct(cs + ns) && ns != [] && forall n :: n in ns ==> 2 <= n < |fat|
    ensures cs + [ns[0]] + ns[1..] == cs + ns && forall n :: n in ns[1..] ==> n in ns
    ensures Last(cs) < |fat| && s.nFrag <= Last(cs)
    ensures var (fat', s') := Append(fat, s, Last(cs), ns[0]);
            && |fat'| == |fat| && Represents(fat', s', cs + [ns[0]])
            && (forall k :: 0 <= k < |fat| && k !in cs ==> fat'[k] == fat[k])
            && (s'.stat == CONTIGUOUS <==> s.stat == CONTIGUOUS && ns[0] == Last(cs) + 1)
  {
    forall i | 0 <= i < |cs|
      ensures cs[i] != ns[0]
    {
      assert (cs + ns)[i] == cs[i] && (cs + ns)[|cs|] == ns[0];
    }
    hide Represents, Append, Distinct;
    assert ns[0] in ns;
    RepresentsRange(fat, s, cs);
    AppendRepresents(fat, s, cs, ns[0]);
    assert cs + [ns[0]] + ns[1..] == cs + ns;
  }

  lemma RepresentsRange(fat: seq<nat>, s: Status, cs: seq<nat>)
    requires Represents(fat, s, cs)
    ensures |cs| > 0 && 2 <= Last(cs) < |fat|
  {
  }

  /** Over every run of allocations status and FAT together keep standing for
      the clusters in the order they were returned, the FAT entries of all other
      clusters stay, and the object counts as contiguous exactly as long as the
      cluster numbers are consecutive. */
  lemma {:induction false} RunRepresents(fat: seq<nat>, s: Status, cs: seq<nat>, ns: seq<nat>)
    requires Represents(fat, s, cs) && Distinct(cs + ns) && forall n :: n in ns ==> 2 <= n < |fat|
    ensures var (fat', s') := AppendAll(fat, s, cs, ns);
            && |fat'| == |fat| && Represents(fat', s', cs + ns)
            && (forall k :: 0 <= k < |fat| && k !in cs + ns ==> fat'[k] == fat[k])
            && (s.stat == CONTIGUOUS ==> (s'.stat == CONTIGUOUS <==> Consecutive(cs + ns, 0, |cs + ns|)))
    decreases |ns|
  {
    if ns == [] {
      assert cs + ns == cs;
    } else {
      NextFits(fat, s, cs, ns);
      var (fat1, s1) := Append(fat, s, Last(cs), ns[0]);
      RunRepresents(fat1, s1, cs + [ns[0]], ns[1..]);
      if s.stat == CONTIGUOUS && s1.stat != CONTIGUOUS {
        RunStaysFragmented(fat1, s1, cs + [ns[0]], ns[1..]);
        assert (cs + ns)[|cs|] == ns[0] && (cs + ns)[|cs| - 1] == Last(cs);
      }
    }
  }

  lemma {:induction false} RunStaysFragmented(fat: seq<nat>, s: Status, cs: seq<nat>, ns: seq<nat>)
    requires Represents(fat, s, cs) && Distinct(cs + ns) && forall n :: n in ns ==> 2 <= n < |fat|
    requires s.stat != CONTIGUOUS
    ensures AppendAll(fat, s, cs, ns).1.stat != CONTIGUOUS
    decreases |ns|
  {
    if ns != [] {
      NextFits(fat, s, cs, ns);
      var (fat1, s1) := Append(fat, s, Last(cs), ns[0]);
      RunStaysFragmented(fat1, s1, cs + [ns[0]], ns[1..]);
    }
  }

  /** FAT and status of a new object after the clusters cs were allocated. */
  ghost function Grown(fat: seq<nat>, cs: seq<nat>): (seq<nat>, Status)
    requires |cs| > 0 && Distinct(cs) && forall i :: 0 <= i < |cs| ==> 2 <= cs[i] < |fat|
  {
    assert [cs[0]] + cs[1..] == cs;
    AppendAll(fat, Status(CONTIGUOUS, cs[0], 0, 0), [cs[0]], cs[1..])
  }

  /** A chain grown through any mix of adjacent and scattered allocations and
      then filled in is a FAT chain of exactly those clusters in order, unless
      it is contiguous and needs no FAT chain. */
  lemma GrownIsChain(fat: seq<nat>, cs: seq<nat>, term: nat)
    requires |cs| > 0 && Distinct(cs) && (forall i :: 0 <= i < |cs| ==> 2 <= cs[i] < |fat|) && term >= |fat|
    ensures var (fat', s) := Grown(fat, cs);
            && |fat'| == |fat| && s.sclust == cs[0] && s.nFrag <= Last(cs)
            && (s.stat == CONTIGUOUS <==> Consecutive(cs, 0, |cs|))
            && (s.stat != CONTIGUOUS ==>
                  var fat1 := if s.stat == FRAGMENTED then FillFirst(fat', s.sclust, s.nCont) else fat';
                  IsChain(FillLast(fat1, Last(cs), s.nFrag, term), cs))
  {
    assert [cs[0]] + cs[1..] == cs;
    RunRepresents(fat, Status(CONTIGUOUS, cs[0], 0, 0), [cs[0]], cs[1..]);
    var (fat', s) := Grown(fat, cs);
    assert Represents(fat', s, cs);
    FragmentFits(fat', s, cs);
    if s.stat != CONTIGUOUS {
      FilledIsChain(fat', s, cs, term);
    }
  }
}
