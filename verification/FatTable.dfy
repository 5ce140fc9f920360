/** The file allocation table as a value: how its bytes encode the entries, and
    what it means for the entries to form disjoint chains.  Masks and shifts by
    constants in the C code appear here as `%` and `/` on naturals. */
module FatTable {
  type byte = x: int | 0 <= x < 256

  datatype FsType = Fat12 | Fat16 | Fat32 | ExFat

  const END_OF_CHAIN := 0xFFFF_FFFF

  /* ---- Encoding of one entry ---- */

  function Word(b: seq<byte>, p: nat): nat
    requires p + 2 <= |b|
  {
    b[p] as int + 0x100 * b[p + 1] as int
  }

  function DWord(b: seq<byte>, p: nat): nat
    requires p + 4 <= |b|
  {
    b[p] as int + 0x100 * b[p + 1] as int + 0x1_0000 * b[p + 2] as int + 0x100_0000 * b[p + 3] as int
  }

  /** Number of leading FAT bytes that hold the entries below n. */
  function Span(t: FsType, n: nat): nat {
    match t
    case Fat12 => n + n / 2 + n % 2
    case Fat16 => 2 * n
    case _ => 4 * n
  }

  function Entry(t: FsType, b: seq<byte>, k: nat): nat
    requires Span(t, k + 1) <= |b|
  {
    match t
    case Fat12 =>
      var w := Word(b, k + k / 2);
      if k % 2 == 1 then w / 0x10 else w % 0x1000
    case Fat16 => Word(b, 2 * k)
    case Fat32 => DWord(b, 4 * k) % 0x1000_0000
    case ExFat => DWord(b, 4 * k) % 0x8000_0000
  }

  /** The leading bytes end with the last byte of the last entry. */
  lemma SpanIsTight(t: FsType, n: nat)
    ensures Span(t, 0) == 0 && Span(t, n + 1) == LastByte(t, n) + 1
  {
  }

  /** The number that bytes stand for, the lowest one first. */
  function LittleEndian(b: seq<byte>): nat {
    if b == [] then 0 else b[0] as int + 0x100 * LittleEndian(b[1..])
  }

  lemma WordsOnBytes(b: seq<byte>, p: nat)
    requires p + 2 <= |b|
    ensures Word(b, p) == LittleEndian(b[p..p + 2])
    ensures p + 4 <= |b| ==> DWord(b, p) == LittleEndian(b[p..p + 4])
  {
    assert b[p..p + 2] == [b[p], b[p + 1]] && LittleEndian([b[p + 1]]) == b[p + 1] as int;
    if p + 4 <= |b| {
      assert b[p..p + 4] == [b[p], b[p + 1], b[p + 2], b[p + 3]];
      assert LittleEndian([b[p + 3]]) == b[p + 3] as int;
      assert LittleEndian([b[p + 2], b[p + 3]]) == b[p + 2] as int + 0x100 * b[p + 3] as int;
    }
  }

  /** How the entries lie on the bytes of the FAT, lowest byte first: two in three bytes
      on FAT12, a word each on FAT16, four bytes each otherwise, of which FAT32 uses 28
      bits and exFAT 31. */
  lemma EntriesOnBytes(b: seq<byte>, k: nat)
    ensures 3 * k + 3 <= |b| ==> LittleEndian(b[3 * k..3 * k + 3]) == Entry(Fat12, b, 2 * k) + 0x1000 * Entry(Fat12, b, 2 * k + 1)
    ensures 2 * k + 2 <= |b| ==> Entry(Fat16, b, k) == LittleEndian(b[2 * k..2 * k + 2])
    ensures 4 * k + 4 <= |b| ==> Entry(Fat32, b, k) == LittleEndian(b[4 * k..4 * k + 4]) % 0x1000_0000
    ensures 4 * k + 4 <= |b| ==> Entry(ExFat, b, k) == LittleEndian(b[4 * k..4 * k + 4]) % 0x8000_0000
  {
    if 2 * k + 2 <= |b| { WordsOnBytes(b, 2 * k); }
    if 4 * k + 4 <= |b| { WordsOnBytes(b, 4 * k); }
    if 3 * k + 3 <= |b| { PairOnBytes(b, k); }
  }

  lemma PairOnBytes(b: seq<byte>, k: nat)
    requires 3 * k + 3 <= |b|
    ensures LittleEndian(b[3 * k..3 * k + 3]) == Entry(Fat12, b, 2 * k) + 0x1000 * Entry(Fat12, b, 2 * k + 1)
  {
    var x, y, z := b[3 * k], b[3 * k + 1], b[3 * k + 2];
    assert b[3 * k..3 * k + 3] == [x, y, z];
    assert LittleEndian([z]) == z as int && LittleEndian([y, z]) == y as int + 0x100 * z as int;
    Entry12(b, 2 * k);
    Entry12(b, 2 * k + 1);
  }

  /** What is left of a value stored in an entry of this width. */
  function Cut(t: FsType, v: nat): nat {
    match t
    case Fat12 => v % 0x1000
    case Fat16 => v % 0x1_0000
    case Fat32 => v % 0x1000_0000
    case ExFat => v % 0x8000_0000
  }

  function PutWord(b: seq<byte>, p: nat, v: nat): seq<byte>
    requires p + 2 <= |b|
  {
    b[p := v % 0x100][p + 1 := v / 0x100 % 0x100]
  }

  function PutDWord(b: seq<byte>, p: nat, v: nat): seq<byte>
    requires p + 4 <= |b|
  {
    b[p := v % 0x100][p + 1 := v / 0x100 % 0x100][p + 2 := v / 0x1_0000 % 0x100][p + 3 := v / 0x100_0000 % 0x100]
  }

  /** The first and the last byte that hold a part of entry k. */
  function FirstByte(t: FsType, k: nat): nat {
    match t
    case Fat12 => k + k / 2
    case Fat16 => 2 * k
    case _ => 4 * k
  }

  function LastByte(t: FsType, k: nat): nat {
    match t
    case Fat12 => k + k / 2 + 1
    case Fat16 => 2 * k + 1
    case _ => 4 * k + 3
  }

  /** A FAT12 entry of which only the first byte of v has been stored. */
  function HalfEntry(e: nat, k: nat, v: nat): nat {
    if k % 2 == 1 then e / 0x10 * 0x10 + v % 0x10 else e / 0x100 * 0x100 + v % 0x100
  }

  /** The FAT bytes then. */
  function HalfPut(b: seq<byte>, k: nat, v: nat): (r: seq<byte>)
    requires k + k / 2 < |b|
    ensures |r| == |b|
  {
    var p := k + k / 2;
    b[p := if k % 2 == 1 then b[p] % 0x10 + v % 0x10 * 0x10 else v % 0x100]
  }

  /** The FAT bytes after storing v in entry k. */
  function PutEntry(t: FsType, b: seq<byte>, k: nat, v: nat): seq<byte>
    requires Span(t, k + 1) <= |b|
  {
    match t
    case Fat12 =>
      var p := k + k / 2;
      var b1 := b[p := if k % 2 == 1 then b[p] % 0x10 + v % 0x10 * 0x10 else v % 0x100];
      b1[p + 1 := if k % 2 == 1 then v / 0x10 % 0x100 else b[p + 1] / 0x10 * 0x10 + v / 0x100 % 0x10]
    case Fat16 => PutWord(b, 2 * k, v)
    case Fat32 => PutDWord(b, 4 * k, v % 0x1000_0000 + DWord(b, 4 * k) / 0x1000_0000 * 0x1000_0000)
    case ExFat => PutDWord(b, 4 * k, v)
  }

  lemma DWordPut(b: seq<byte>, p: nat, v: nat, q: nat)
    requires p + 4 <= |b| && q + 4 <= |b| && v < 0x1_0000_0000
    requires q == p || q + 4 <= p || p + 4 <= q
    ensures DWord(PutDWord(b, p, v), q) == if q == p then v else DWord(b, q)
  {
    if q == p {
      assert v == v / 0x100 * 0x100 + v % 0x100;
      assert v / 0x1_0000 == v / 0x100 / 0x100;
      assert v / 0x100_0000 == v / 0x1_0000 / 0x100;
    }
  }

  lemma WordPut(b: seq<byte>, p: nat, v: nat, q: nat)
    requires p + 2 <= |b| && q + 2 <= |b|
    requires q == p || q + 2 <= p || p + 2 <= q
    ensures Word(PutWord(b, p, v), q) == if q == p then v % 0x1_0000 else Word(b, q)
  {
    if q == p {
      assert v / 0x1_0000 == v / 0x100 / 0x100;
    }
  }

  lemma LowNibble(x: nat, v: nat)
    ensures (x % 0x10 + v % 0x10 * 0x10) / 0x10 == v % 0x10
    ensures (x % 0x10 + v % 0x10 * 0x10) % 0x10 == x % 0x10
  {
  }

  lemma HighNibble(x: nat, v: nat)
    requires x < 0x100
    ensures (x / 0x10 * 0x10 + v % 0x10) / 0x10 == x / 0x10
    ensures (x / 0x10 * 0x10 + v % 0x10) % 0x10 == v % 0x10
  {
  }

  lemma TwelveBits(v: nat)
    ensures v % 0x1000 == v % 0x10 + 0x10 * (v / 0x10 % 0x100)
    ensures v % 0x1000 == v % 0x100 + 0x100 * (v / 0x100 % 0x10)
  {
    assert v == v / 0x10 * 0x10 + v % 0x10;
    assert v / 0x1000 == v / 0x10 / 0x100;
    assert v / 0x10 == v / 0x10 / 0x100 * 0x100 + v / 0x10 % 0x100;
    assert v / 0x1000 == v / 0x100 / 0x10;
    assert v / 0x100 == v / 0x100 / 0x10 * 0x10 + v / 0x100 % 0x10;
  }

  /** A FAT12 entry depends on one whole byte and the near nibble of the other. */
  lemma Entry12(b: seq<byte>, k: nat)
    requires Span(Fat12, k + 1) <= |b|
    ensures k % 2 == 1 ==> Entry(Fat12, b, k) == b[k + k / 2] as int / 0x10 + 0x10 * b[k + k / 2 + 1] as int
    ensures k % 2 == 0 ==> Entry(Fat12, b, k) == b[k + k / 2] as int + 0x100 * (b[k + k / 2 + 1] as int % 0x10)
  {
    var lo: int, hi: int := b[k + k / 2] as int, b[k + k / 2 + 1] as int;
    assert (lo + 0x100 * hi) / 0x10 == lo / 0x10 + 0x10 * hi;
    assert (lo + 0x100 * hi) % 0x1000 == lo + 0x100 * (hi % 0x10);
  }

  lemma Put12(b: seq<byte>, k: nat, v: nat, j: nat)
    requires Span(Fat12, k + 1) <= |b| && Span(Fat12, j + 1) <= |b|
    ensures Entry(Fat12, PutEntry(Fat12, b, k, v), j) == if j == k then v % 0x1000 else Entry(Fat12, b, j)
  {
    var p, q := k + k / 2, j + j / 2;
    var b' := PutEntry(Fat12, b, k, v);
    Entry12(b, j);
    Entry12(b', j);
    TwelveBits(v);
    LowNibble(b[p], v);
    HighNibble(b[p + 1], v / 0x100);
    if j == k || (j + 1 == k && j % 2 == 0) || (k + 1 == j && k % 2 == 0) {
    } else {
      assert b'[q] == b[q] && b'[q + 1] == b[q + 1];
    }
  }

  /** A stored value is read back cut to the entry width, every other entry
      keeps its value (FAT12 neighbours share a byte), and the reserved top
      four bits of a FAT32 entry survive. */
  lemma PutThenGet(t: FsType, b: seq<byte>, k: nat, v: nat, j: nat)
    requires Span(t, k + 1) <= |b| && Span(t, j + 1) <= |b| && v < 0x1_0000_0000
    ensures Entry(t, PutEntry(t, b, k, v), j) == if j == k then Cut(t, v) else Entry(t, b, j)
    ensures t == Fat32 ==> DWord(PutEntry(t, b, k, v), 4 * j) / 0x1000_0000 == DWord(b, 4 * j) / 0x1000_0000
  {
    hide PutWord, PutDWord, Word, DWord;
    match t
    case Fat12 => Put12(b, k, v, j);
    case Fat16 => WordPut(b, 2 * k, v, 2 * j);
    case Fat32 =>
      var top := DWord(b, 4 * k) / 0x1000_0000;
      assert (v % 0x1000_0000 + top * 0x1000_0000) / 0x1000_0000 == top;
      DWordBound(b, 4 * k);
      DWordPut(b, 4 * k, v % 0x1000_0000 + top * 0x1000_0000, 4 * j);
    case ExFat =>
      DWordPut(b, 4 * k, v, 4 * j);
  }

  lemma DWordBound(b: seq<byte>, p: nat)
    requires p + 4 <= |b|
    ensures DWord(b, p) < 0x1_0000_0000
  {
  }

  /** The entries below n as a sequence. */
  function Table(t: FsType, b: seq<byte>, n: nat): seq<nat>
    requires Span(t, n) <= |b|
    ensures |Table(t, b, n)| == n
  {
    seq(n, k requires 0 <= k < n => Entry(t, b, k))
  }

  lemma PutTable(t: FsType, b: seq<byte>, n: nat, k: nat, v: nat)
    requires Span(t, n) <= |b| && k < n && v < 0x1_0000_0000
    ensures |PutEntry(t, b, k, v)| == |b|
    ensures Table(t, PutEntry(t, b, k, v), n) == Table(t, b, n)[k := Cut(t, v)]
  {
    forall j | 0 <= j < n
      ensures Entry(t, PutEntry(t, b, k, v), j) == if j == k then Cut(t, v) else Entry(t, b, j)
    {
      PutThenGet(t, b, k, v, j);
    }
  }

  /** Half a FAT12 update changes no other entry. */
  lemma HalfTable(b: seq<byte>, n: nat, k: nat, v: nat)
    requires Span(Fat12, n) <= |b| && k < n
    ensures k + k / 2 + 1 < |b|
    ensures Table(Fat12, HalfPut(b, k, v), n) == Table(Fat12, b, n)[k := HalfEntry(Table(Fat12, b, n)[k], k, v)]
  {
    var b' := HalfPut(b, k, v);
    forall j | 0 <= j < n
      ensures Entry(Fat12, b', j) == if j == k then HalfEntry(Entry(Fat12, b, k), k, v) else Entry(Fat12, b, j)
    {
      HalfOne(b, k, v, j);
    }
  }

  lemma HalfOne(b: seq<byte>, k: nat, v: nat, j: nat)
    requires Span(Fat12, k + 1) <= |b| && Span(Fat12, j + 1) <= |b|
    ensures Entry(Fat12, HalfPut(b, k, v), j) == if j == k then HalfEntry(Entry(Fat12, b, k), k, v) else Entry(Fat12, b, j)
  {
    var p, b' := k + k / 2, HalfPut(b, k, v);
    Entry12(b, j);
    Entry12(b', j);
    hide Entry, PutEntry, Word;
    FarBytes(k, j);
    LowNibble(b[p], v);
    if j == k { HalfValue(b[p], b[p + 1], v); }
  }

  lemma HalfValue(lo: byte, hi: byte, v: nat)
    ensures (lo as int / 0x10 + 0x10 * hi as int) / 0x10 == hi as int
    ensures (lo as int + 0x100 * (hi as int % 0x10)) / 0x100 == hi as int % 0x10
  {
  }

  /** The first byte of a FAT12 entry is part of another one only if it is the even
      one before it. */
  lemma FarBytes(k: nat, j: nat)
    ensures j + j / 2 == k + k / 2 ==> j == k
    ensures j + j / 2 + 1 == k + k / 2 ==> j + 1 == k && k % 2 == 1 && j % 2 == 0
  {
  }

  /* ---- Chains ---- */

  /** c is the cluster chain that starts at c[0]: each entry names the next
      cluster and the last one lies at or past the table end (end of chain). */
  ghost predicate IsChain(fat: seq<nat>, c: seq<nat>) {
    && |c| > 0
    && (forall i :: 0 <= i < |c| ==> 2 <= c[i] < |fat|)
    && (forall i :: 0 <= i < |c| - 1 ==> fat[c[i]] == c[i + 1])
    && fat[c[|c| - 1]] >= |fat|
  }

  /** A chain visits no cluster twice. */
  lemma {:induction false} ChainNoRepeat(fat: seq<nat>, c: seq<nat>, i: nat, j: nat)
    requires IsChain(fat, c) && i < j < |c|
    ensures c[i] != c[j]
    decreases |c| - j
  {
    assert fat[c[i]] == c[i + 1];
    if j < |c| - 1 {
      ChainNoRepeat(fat, c, i + 1, j + 1);
    }
  }

  lemma ChainInUse(fat: seq<nat>, c: seq<nat>, k: nat)
    requires IsChain(fat, c) && k in c
    ensures 2 <= k < |fat| && fat[k] != 0
  {
    var i :| 0 <= i < |c| && c[i] == k;
    if i < |c| - 1 {
      assert fat[c[i]] == c[i + 1];
    }
  }

  lemma ChainFrame(fat: seq<nat>, fat': seq<nat>, c: seq<nat>)
    requires IsChain(fat, c) && |fat'| == |fat|
    requires forall k :: k in c && k < |fat| ==> fat'[k] == fat[k]
    ensures IsChain(fat', c)
  {
    assert forall i :: 0 <= i < |c| ==> c[i] in c;
  }

  ghost predicate Apart(c: seq<nat>, d: seq<nat>) {
    forall k :: k in c ==> k !in d
  }

  ghost predicate Covers(chains: set<seq<nat>>, k: nat) {
    exists c :: c in chains && k in c
  }

  /** The clusters in use are exactly those of the given pairwise disjoint chains. */
  ghost predicate Chains(fat: seq<nat>, chains: set<seq<nat>>) {
    && (forall c :: c in chains ==> IsChain(fat, c))
    && (forall c, d :: c in chains && d in chains && c != d ==> Apart(c, d))
    && (forall k :: 2 <= k < |fat| && fat[k] != 0 ==> Covers(chains, k))
  }

  function Last(c: seq<nat>): nat
    requires |c| > 0
  {
    c[|c| - 1]
  }

  ghost function FreeSet(fat: seq<nat>): set<nat> {
    set k: nat | 2 <= k < |fat| && fat[k] == 0
  }

  ghost function FreeCount(fat: seq<nat>): nat {
    |FreeSet(fat)|
  }

  lemma NoneFree(fat: seq<nat>)
    ensures FreeCount(fat) == 0 <==> forall k :: 2 <= k < |fat| ==> fat[k] != 0
  {
    if k :| 2 <= k < |fat| && fat[k] == 0 {
      assert k in FreeSet(fat);
    }
  }

  /** Number of zero entries among the first n. */
  function ZeroBelow(fat: seq<nat>, n: nat): nat
    requires n <= |fat|
  {
    if n == 0 then 0 else ZeroBelow(fat, n - 1) + if fat[n - 1] == 0 then 1 else 0
  }

  lemma {:induction false} ZeroBelowAll(fat: seq<nat>)
    requires |fat| >= 2
    ensures ZeroBelow(fat, |fat|) == FreeCount(fat) + ZeroBelow(fat, 2)
  {
    if |fat| == 2 {
      assert FreeSet(fat) == {};
    } else {
      var n := |fat| - 1;
      ZeroBelowAll(fat[..n]);
      ZeroBelowPrefix(fat, n, n);
      ZeroBelowPrefix(fat, n, 2);
      assert FreeSet(fat) == FreeSet(fat[..n]) + if fat[n] == 0 then {n} else {};
    }
  }

  lemma {:induction false} ZeroBelowPrefix(fat: seq<nat>, n: nat, i: nat)
    requires i <= n <= |fat|
    ensures ZeroBelow(fat[..n], i) == ZeroBelow(fat, i)
  {
    if i > 0 {
      ZeroBelowPrefix(fat, n, i - 1);
    }
  }

  lemma ReturnFree(fat: seq<nat>, k: nat)
    requires 2 <= k < |fat| && fat[k] != 0
    ensures FreeCount(fat[k := 0]) == FreeCount(fat) + 1
  {
    assert FreeSet(fat[k := 0]) == FreeSet(fat) + {k};
  }

  lemma RelinkKeepsFree(fat: seq<nat>, k: nat, v: nat)
    ensures 2 <= k < |fat| && fat[k] != 0 && v != 0 ==> FreeCount(fat[k := v]) == FreeCount(fat)
  {
    if 2 <= k < |fat| && fat[k] != 0 && v != 0 {
      assert FreeSet(fat[k := v]) == FreeSet(fat);
    }
  }

  lemma {:induction false} FreeBound(fat: seq<nat>)
    requires |fat| >= 2
    ensures FreeCount(fat) <= |fat| - 2
    ensures (exists k :: 2 <= k < |fat| && fat[k] != 0) ==> FreeCount(fat) < |fat| - 2
  {
    if |fat| == 2 {
      assert FreeSet(fat) == {};
    } else {
      var n := |fat| - 1;
      FreeBound(fat[..n]);
      assert FreeSet(fat) == FreeSet(fat[..n]) + if fat[n] == 0 then {n} else {};
      if k :| 2 <= k < n && fat[k] != 0 {
        assert fat[..n][k] != 0;
      }
    }
  }

  /* ---- Stretching a chain ---- */

  /** The table after cluster n, free until now, is appended to the chain ending
      at clst (or starts a chain of its own when clst is 0). */
  function Stretched(fat: seq<nat>, clst: nat, n: nat, eoc: nat): seq<nat>
    requires clst < |fat| && n < |fat|
  {
    var marked := fat[n := eoc];
    if clst == 0 then marked else marked[clst := n]
  }

  lemma StretchTakesOne(fat: seq<nat>, clst: nat, n: nat, eoc: nat)
    requires clst < |fat| && 2 <= n < |fat| && fat[n] == 0 && eoc != 0 && (clst != 0 ==> fat[clst] != 0)
    ensures FreeCount(Stretched(fat, clst, n, eoc)) == FreeCount(fat) - 1
    ensures FreeCount(fat) > 0
  {
    assert FreeSet(Stretched(fat, clst, n, eoc)) == FreeSet(fat) - {n};
    assert n in FreeSet(fat);
  }

  lemma StretchOne(fat: seq<nat>, c: seq<nat>, n: nat, eoc: nat)
    requires IsChain(fat, c) && 2 <= n < |fat| && fat[n] == 0 && eoc >= |fat|
    ensures IsChain(Stretched(fat, Last(c), n, eoc), c + [n])
    ensures n !in c
  {
    if n in c {
      ChainInUse(fat, c, n);
    }
    forall i | 0 <= i < |c| - 1
      ensures c[i] != Last(c)
    {
      ChainNoRepeat(fat, c, i, |c| - 1);
    }
  }

  /** Replacing one chain by another (or adding one) keeps a table a set of
      disjoint chains, when no other chain is touched. */
  lemma Replace(fat: seq<nat>, fat': seq<nat>, chains: set<seq<nat>>, c: seq<nat>, c': seq<nat>)
    requires Chains(fat, chains) && |fat'| == |fat| && IsChain(fat', c')
    requires forall d :: d in chains && d != c ==> IsChain(fat', d) && Apart(d, c')
    requires forall k :: 2 <= k < |fat| && fat'[k] != 0 ==> k in c' || (fat[k] != 0 && k !in c)
    ensures Chains(fat', chains - {c} + {c'})
  {
    hide IsChain;
    var chains' := chains - {c} + {c'};
    forall k | 2 <= k < |fat'| && fat'[k] != 0
      ensures Covers(chains', k)
    {
      if k in c' {
        assert c' in chains';
      } else {
        assert Covers(chains, k);
        var d :| d in chains && k in d;
        assert d in chains';
      }
    }
  }

  lemma OthersStay(fat: seq<nat>, fat': seq<nat>, chains: set<seq<nat>>, c: seq<nat>, d: seq<nat>)
    requires Chains(fat, chains) && d in chains && d != c && |fat'| == |fat|
    requires c in chains || c == []
    requires forall k :: 2 <= k < |fat| && fat[k] != 0 && k !in c ==> fat'[k] == fat[k]
    ensures IsChain(fat', d)
    ensures forall k :: k in d ==> 2 <= k < |fat| && fat[k] != 0 && k !in c
  {
    forall k | k in d
      ensures 2 <= k < |fat| && fat[k] != 0 && k !in c
    {
      ChainInUse(fat, d, k);
      assert c in chains ==> Apart(d, c);
    }
    ChainFrame(fat, fat', d);
  }

  /** Appending to one chain keeps the table a set of disjoint chains: that
      chain grows by exactly the new cluster and all others stay as they were. */
  lemma StretchKeepsChains(fat: seq<nat>, chains: set<seq<nat>>, c: seq<nat>, n: nat, eoc: nat)
    requires Chains(fat, chains) && c in chains
    requires 2 <= n < |fat| && fat[n] == 0 && eoc >= |fat|
    ensures Chains(Stretched(fat, Last(c), n, eoc), chains - {c} + {c + [n]})
  {
    var fat' := Stretched(fat, Last(c), n, eoc);
    StretchOne(fat, c, n, eoc);
    forall d | d in chains && d != c
      ensures IsChain(fat', d) && Apart(d, c + [n])
    {
      assert Last(c) in c;
      OthersStay(fat, fat', chains, c, d);
    }
    forall k | 2 <= k < |fat| && fat'[k] != 0
      ensures k in c + [n] || (fat[k] != 0 && k !in c)
    {
      assert Last(c) in c;
      assert k in c + [n] <==> k in c || k == n;
    }
    Replace(fat, fat', chains, c, c + [n]);
  }

  lemma StartKeepsChains(fat: seq<nat>, chains: set<seq<nat>>, n: nat, eoc: nat)
    requires Chains(fat, chains)
    requires 2 <= n < |fat| && fat[n] == 0 && eoc >= |fat|
    ensures Chains(Stretched(fat, 0, n, eoc), chains + {[n]})
  {
    var fat' := Stretched(fat, 0, n, eoc);
    forall d | d in chains && d != []
      ensures IsChain(fat', d) && Apart(d, [n])
    {
      OthersStay(fat, fat', chains, [], d);
    }
    assert [] !in chains;
    assert chains - {[]} + {[n]} == chains + {[n]};
    Replace(fat, fat', chains, [], [n]);
  }

  /* ---- Removing a chain ---- */

  datatype Walk = Walk(fat: seq<nat>, ok: bool, freed: nat)

  ghost function InUse(fat: seq<nat>): set<nat> {
    set k: nat | k < |fat| && fat[k] != 0
  }

  /** Freeing entries from k along the links, on any table contents: it stops at
      a free entry, at an end of chain, or fails at the reserved value 1.  Every
      visited entry is zeroed, so even a cyclic table is walked only once. */
  ghost function Release(fat: seq<nat>, k: nat): Walk
    requires 2 <= k < |fat|
    decreases |InUse(fat)|
  {
    if fat[k] == 0 then Walk(fat, true, 0)
    else if fat[k] == 1 then Walk(fat, false, 0)
    else
      var fat' := fat[k := 0];
      assert InUse(fat') == InUse(fat) - {k};
      if fat[k] < |fat| then
        var w := Release(fat', fat[k]);
        w.(freed := w.freed + 1)
      else Walk(fat', true, 1)
  }

  lemma ReleaseStep(fat: seq<nat>, k: nat)
    requires 2 <= k < |fat| && fat[k] != 0
    ensures |InUse(fat[k := 0])| < |InUse(fat)|
    ensures FreeCount(fat[k := 0]) == FreeCount(fat) + 1
    ensures fat[k] != 1 && fat[k] < |fat| ==>
              Release(fat, k).fat == Release(fat[k := 0], fat[k]).fat && Release(fat, k).ok == Release(fat[k := 0], fat[k]).ok
    ensures fat[k] >= |fat| && fat[k] != 1 ==> Release(fat, k).fat == fat[k := 0] && Release(fat, k).ok
  {
    assert InUse(fat[k := 0]) == InUse(fat) - {k};
    ReturnFree(fat, k);
  }

  function Zeroed(fat: seq<nat>, s: seq<nat>): (r: seq<nat>)
    ensures |r| == |fat|
  {
    seq(|fat|, k requires 0 <= k < |fat| => if k in s then 0 else fat[k])
  }

  /** On a proper chain the walk from its i-th cluster frees exactly the suffix. */
  lemma {:induction false} ReleaseSuffix(fat: seq<nat>, c: seq<nat>)
    requires IsChain(fat, c)
    ensures Release(fat, c[0]) == Walk(Zeroed(fat, c), true, |c|)
    decreases |c|
  {
    var fat' := fat[c[0] := 0];
    if |c| == 1 {
      assert Zeroed(fat, c) == fat';
    } else {
      forall i | 0 < i < |c|
        ensures c[i] != c[0]
      {
        ChainNoRepeat(fat, c, 0, i);
      }
      assert IsChain(fat', c[1..]);
      ReleaseSuffix(fat', c[1..]);
      assert Zeroed(fat', c[1..]) == Zeroed(fat, c) by {
        assert forall k :: k in c <==> k == c[0] || k in c[1..];
      }
    }
  }

  lemma {:induction false} ReleaseCount(fat: seq<nat>, k: nat)
    requires 2 <= k < |fat|
    ensures |Release(fat, k).fat| == |fat|
    ensures FreeCount(Release(fat, k).fat) == FreeCount(fat) + Release(fat, k).freed
    decreases |InUse(fat)|
  {
    if fat[k] >= 2 {
      var fat' := fat[k := 0];
      assert InUse(fat') == InUse(fat) - {k};
      ReturnFree(fat, k);
      if fat[k] < |fat| {
        ReleaseCount(fat', fat[k]);
      }
    }
  }

  /** The table after the chain c is cut before its i-th cluster. */
  function Truncated(fat: seq<nat>, c: seq<nat>, i: nat, eoc: nat): seq<nat>
    requires i <= |c| && forall j :: 0 <= j < |c| ==> c[j] < |fat|
  {
    Zeroed(if i == 0 then fat else fat[c[i - 1] := eoc], c[i..])
  }

  /** Releasing a chain from its i-th cluster on, after ending the prefix, is
      exactly cutting it there. */
  lemma ReleaseTruncates(fat: seq<nat>, c: seq<nat>, i: nat, eoc: nat)
    requires IsChain(fat, c) && i < |c| && eoc >= |fat|
    ensures Release(if i == 0 then fat else fat[c[i - 1] := eoc], c[i]) == Walk(Truncated(fat, c, i, eoc), true, |c| - i)
  {
    var s := c[i..];
    assert forall j :: 0 <= j < |s| ==> s[j] == c[i + j];
    assert IsChain(fat, s);
    if i == 0 {
      ReleaseSuffix(fat, s);
    } else {
      forall j | 0 <= j < |s|
        ensures s[j] != c[i - 1]
      {
        ChainNoRepeat(fat, c, i - 1, i + j);
      }
      ChainFrame(fat, fat[c[i - 1] := eoc], s);
      ReleaseSuffix(fat[c[i - 1] := eoc], s);
    }
  }

  lemma SplitMember(c: seq<nat>, i: nat, k: nat)
    requires i <= |c|
    ensures k in c <==> k in c[..i] || k in c[i..]
  {
    assert c == c[..i] + c[i..];
  }

  lemma SplitApart(fat: seq<nat>, c: seq<nat>, i: nat)
    requires IsChain(fat, c) && i <= |c|
    ensures Apart(c[..i], c[i..])
  {
    forall h, j | 0 <= h < i <= j < |c|
      ensures c[h] != c[j]
    {
      ChainNoRepeat(fat, c, h, j);
    }
  }

  lemma TruncateOne(fat: seq<nat>, c: seq<nat>, i: nat, eoc: nat)
    requires IsChain(fat, c) && 0 < i < |c| && eoc >= |fat|
    ensures IsChain(Truncated(fat, c, i, eoc), c[..i])
  {
    var fat' := Truncated(fat, c, i, eoc);
    SplitApart(fat, c, i);
    forall j | 0 <= j < i
      ensures fat'[c[j]] == if j == i - 1 then eoc else c[j + 1]
    {
      assert c[j] in c[..i];
      if j < i - 1 {
        ChainNoRepeat(fat, c, j, i - 1);
      }
    }
  }

  /** Which entries of the cut table are in use. */
  lemma TruncateFrees(fat: seq<nat>, c: seq<nat>, i: nat, eoc: nat)
    requires IsChain(fat, c) && i < |c| && eoc >= |fat|
    ensures forall k :: k in c[i..] ==> k in c
    ensures forall k :: 2 <= k < |fat| && fat[k] != 0 && k !in c ==> Truncated(fat, c, i, eoc)[k] == fat[k]
    ensures forall k :: 2 <= k < |fat| && Truncated(fat, c, i, eoc)[k] != 0 ==> k !in c[i..] && fat[k] != 0
    ensures FreeSet(Truncated(fat, c, i, eoc)) == FreeSet(fat) + set k | k in c[i..]
  {
    forall k | k in c
      ensures 2 <= k < |fat| && fat[k] != 0
    {
      ChainInUse(fat, c, k);
    }
    assert i > 0 ==> c[i - 1] in c;
    assert forall k :: k in c[i..] ==> k in c;
  }

  lemma DropChain(fat: seq<nat>, fat': seq<nat>, chains: set<seq<nat>>, c: seq<nat>)
    requires Chains(fat, chains) && c in chains && |fat'| == |fat|
    requires forall d :: d in chains && d != c ==> IsChain(fat', d)
    requires forall k :: 2 <= k < |fat| && fat'[k] != 0 ==> k !in c && fat[k] != 0
    ensures Chains(fat', chains - {c})
  {
    hide IsChain, Apart;
    forall k | 2 <= k < |fat'| && fat'[k] != 0
      ensures Covers(chains - {c}, k)
    {
      assert Covers(chains, k);
      var d :| d in chains && k in d;
      assert d in chains - {c};
    }
  }

  lemma OthersSurviveCut(fat: seq<nat>, chains: set<seq<nat>>, c: seq<nat>, i: nat, eoc: nat, d: seq<nat>)
    requires Chains(fat, chains) && c in chains && i < |c| && eoc >= |fat| && d in chains && d != c
    ensures IsChain(Truncated(fat, c, i, eoc), d) && Apart(d, c[..i])
  {
    TruncateFrees(fat, c, i, eoc);
    OthersStay(fat, Truncated(fat, c, i, eoc), chains, c, d);
    assert forall k :: k in c[..i] ==> k in c;
  }

  /** Cutting one chain keeps the table a set of disjoint chains: exactly the
      suffix is freed, the prefix (if any) becomes a chain, and all other chains
      stay as they were. */
  lemma TruncateKeepsChains(fat: seq<nat>, chains: set<seq<nat>>, c: seq<nat>, i: nat, eoc: nat)
    requires Chains(fat, chains) && c in chains && i < |c| && eoc >= |fat|
    ensures Chains(Truncated(fat, c, i, eoc), chains - {c} + if i == 0 then {} else {c[..i]})
  {
    var fat' := Truncated(fat, c, i, eoc);
    forall d | d in chains && d != c
      ensures IsChain(fat', d) && Apart(d, c[..i])
    {
      OthersSurviveCut(fat, chains, c, i, eoc, d);
    }
    if i == 0 {
      RemoveAll(fat, chains, c, eoc);
    } else {
      TruncateOne(fat, c, i, eoc);
      TruncateFrees(fat, c, i, eoc);
      CutChain(fat, fat', chains, c, i);
    }
  }

  lemma RemoveAll(fat: seq<nat>, chains: set<seq<nat>>, c: seq<nat>, eoc: nat)
    requires Chains(fat, chains) && c in chains && eoc >= |fat|
    requires forall d :: d in chains && d != c ==> IsChain(Truncated(fat, c, 0, eoc), d)
    ensures Chains(Truncated(fat, c, 0, eoc), chains - {c} + {})
  {
    TruncateFrees(fat, c, 0, eoc);
    assert c[0..] == c;
    DropChain(fat, Truncated(fat, c, 0, eoc), chains, c);
    assert chains - {c} + {} == chains - {c};
  }

  lemma CutChain(fat: seq<nat>, fat': seq<nat>, chains: set<seq<nat>>, c: seq<nat>, i: nat)
    requires Chains(fat, chains) && c in chains && 0 < i < |c| && |fat'| == |fat|
    requires IsChain(fat', c[..i])
    requires forall d :: d in chains && d != c ==> IsChain(fat', d) && Apart(d, c[..i])
    requires forall k :: 2 <= k < |fat| && fat'[k] != 0 ==> k !in c[i..] && fat[k] != 0
    ensures Chains(fat', chains - {c} + {c[..i]})
  {
    forall k | 2 <= k < |fat| && fat'[k] != 0
      ensures k in c[..i] || (fat[k] != 0 && k !in c)
    {
      SplitMember(c, i, k);
    }
    Replace(fat, fat', chains, c, c[..i]);
  }
}
