/** Long file names on FAT volumes: a name is cut into parts of 13 units, each in
    a directory entry of its own, stored last part first before the short entry. */
module Lfn {
  type Byte = x: nat | x < 0x100
  type Unit = x: nat | x < 0x1_0000
  type Entry = e: seq<Byte> | |e| == 32 witness seq(32, _ => 0)

  const MAX_LFN: nat := 255
  const LAST: nat := 0x40
  const AM_VOL: nat := 0x08
  const AM_LFN: nat := 0x0F
  const DELETED: nat := 0xE5
  const DOT: nat := 0x2E
  const NO_ORDER: nat := 0xFF

  /** Where unit s of a part lies in its entry: 1, 3, .. 9, 14, 16, .. 24, 28, 30. */
  function LfnOfs(s: nat): (r: nat)
    requires s < 13
    ensures 1 <= r <= 30
  {
    if s < 5 then 1 + 2 * s else if s < 11 then 4 + 2 * s else 6 + 2 * s
  }

  /** The bytes of an entry that hold its part of the name. */
  function NameArea(e: Entry): (a: seq<Byte>)
    ensures |a| == 26
  {
    e[1..11] + e[14..26] + e[28..32]
  }

  /** Unit s of a part is the s-th little-endian word there. */
  function UnitOf(e: Entry, s: nat): Unit
    requires s < 13
  {
    var low: nat, high: nat := NameArea(e)[2 * s], NameArea(e)[2 * s + 1];
    low + 0x100 * high
  }

  /** The places of the source lead to the words. */
  lemma WordPlace(e: Entry, s: nat)
    requires s < 13
    ensures e[LfnOfs(s)] == NameArea(e)[2 * s] && e[LfnOfs(s) + 1] == NameArea(e)[2 * s + 1]
    ensures var low: nat, high: nat := e[LfnOfs(s)], e[LfnOfs(s) + 1]; UnitOf(e, s) == low + 0x100 * high
  {
  }

  method LoadUnit(dir: Entry, s: nat) returns (uc: Unit)
    requires s < 13
    ensures uc == UnitOf(dir, s)
  {
    WordPlace(dir, s);
    var low: nat, high: nat := dir[LfnOfs(s)], dir[LfnOfs(s) + 1];
    uc := low + 0x100 * high;
  }

  function Order(e: Entry): nat {
    if IsLast(e) then e[0] - LAST else e[0]
  }

  predicate IsLast(e: Entry) {
    e[0] / LAST % 2 == 1
  }

  predicate IsLfn(e: Entry) {
    e[11] % 64 == AM_LFN
  }

  /** A name that can be stored. */
  predicate Name(name: seq<Unit>) {
    |name| <= MAX_LFN && forall i :: 0 <= i < |name| ==> name[i] != 0 && name[i] != 0xFFFF
  }

  /** The working buffer, with a terminated name at its start. */
  predicate Holds(buf: seq<Unit>, name: seq<Unit>) {
    |buf| == MAX_LFN + 1 && Name(name) && buf[|name|] == 0 && forall i :: 0 <= i < |name| ==> buf[i] == name[i]
  }

  lemma WordStored(e: Entry, s: nat, wc: Unit, e': Entry, t: nat)
    requires s < 13 && t < 13 && forall k :: 0 <= k < 32 ==> e'[k] == if k == LfnOfs(s) then wc % 0x100 else if k == LfnOfs(s) + 1 then wc / 0x100 else e[k]
    ensures UnitOf(e', t) == if t == s then wc else UnitOf(e, t)
  {
    WordPlace(e, t);
    WordPlace(e', t);
    hide UnitOf;
  }

  lemma WordApart(e: Entry, x: Byte, t: nat)
    requires t < 13
    ensures UnitOf(e[0 := x], t) == UnitOf(e, t)
  {
    assert NameArea(e[0 := x]) == NameArea(e);
  }

  method StoreUnit(dir: array<Byte>, s: nat, wc: Unit)
    requires dir.Length == 32 && s < 13
    modifies dir
    ensures forall t :: 0 <= t < 13 ==> UnitOf(dir[..], t) == if t == s then wc else UnitOf(old(dir[..]), t)
    ensures dir[0] == old(dir[0]) && dir[11] == old(dir[11]) && dir[12] == old(dir[12]) && dir[13] == old(dir[13])
    ensures dir[26] == old(dir[26]) && dir[27] == old(dir[27])
  {
    hide UnitOf;
    ghost var before := dir[..];
    dir[LfnOfs(s)] := wc % 0x100;
    dir[LfnOfs(s) + 1] := wc / 0x100;
    forall t | 0 <= t < 13
      ensures UnitOf(dir[..], t) == if t == s then wc else UnitOf(before, t)
    {
      WordStored(before, s, wc, dir[..], t);
    }
  }

  /* ---- One part ---- */

  /** What lies at position k of the sequence of parts of a name. */
  function Cell(name: seq<Unit>, k: nat): Unit {
    if k < |name| then name[k] else if k == |name| then 0 else 0xFFFF
  }

  /** Number of parts of a name. */
  function Parts(len: nat): nat {
    (len + 12) / 13
  }

  predicate IsPart(e: Entry, name: seq<Unit>, ord: nat, sum: nat) {
    && 1 <= ord <= Parts(|name|)
    && e[0] == ord + (if ord == Parts(|name|) then LAST else 0)
    && e[11] == AM_LFN && e[12] == 0 && e[13] == sum && e[26] == 0 && e[27] == 0
    && forall s :: 0 <= s < 13 ==> UnitOf(e, s) == Cell(name, 13 * (ord - 1) + s)
  }

  /** put_lfn. */
  method PutLfn(lfn: array<Unit>, dir: array<Byte>, ord: nat, sum: Byte, ghost name: seq<Unit>)
    requires lfn.Length == MAX_LFN + 1 && dir.Length == 32 && Holds(lfn[..], name) && 1 <= ord <= Parts(|name|)
    modifies dir
    ensures IsPart(dir[..], name, ord, sum)
    ensures var area := dir[1..11] + dir[14..26] + dir[28..32];
            forall s :: 0 <= s < 13 ==> area[2 * s] as int + 0x100 * area[2 * s + 1] as int == Cell(name, 13 * (ord - 1) + s)
  {
    hide UnitOf, Cell;
    dir[13] := sum;
    dir[11] := AM_LFN;
    dir[12] := 0;
    dir[26], dir[27] := 0, 0;
    var i: nat := (ord - 1) * 13;
    var s: nat, wc: Unit := 0, 0;
    while s < 13
      invariant s <= 13 && dir[13] == sum && dir[11] == AM_LFN && dir[12] == 0 && dir[26] == 0 && dir[27] == 0
      invariant if wc == 0xFFFF then s > 0 && 13 * (ord - 1) + s > |name| else i == 13 * (ord - 1) + s <= |name|
      invariant forall t :: 0 <= t < s ==> UnitOf(dir[..], t) == Cell(name, 13 * (ord - 1) + t)
    {
      CellIs(lfn[..], name, 13 * (ord - 1) + s);
      if wc != 0xFFFF {
        wc := lfn[i];
        i := i + 1;
      }
      StoreUnit(dir, s, wc);
      if wc == 0 {
        wc := 0xFFFF;
      }
      s := s + 1;
    }
    var order: Byte := ord;
    CellIs(lfn[..], name, 13 * ord);
    if wc == 0xFFFF || lfn[i] == 0 {
      order := order + LAST;
    }
    ghost var before := dir[..];
    dir[0] := order;
    assert dir[..] == before[0 := order];
    forall t | 0 <= t < 13
      ensures UnitOf(dir[..], t) == Cell(name, 13 * (ord - 1) + t)
    {
      WordApart(before, order, t);
    }
    AreaWords(dir[..], name, ord);
  }

  lemma CellIs(buf: seq<Unit>, name: seq<Unit>, k: nat)
    requires Holds(buf, name)
    ensures k <= |name| ==> k <= MAX_LFN && buf[k] == Cell(name, k) && (buf[k] == 0 <==> k == |name|) && buf[k] != 0xFFFF
    ensures k > |name| ==> Cell(name, k) == 0xFFFF
  {
  }

  /** A unit of an entry on its bytes. */
  lemma WordIs(e: Entry, s: nat)
    requires s < 13
    ensures var area := e[1..11] + e[14..26] + e[28..32]; UnitOf(e, s) == area[2 * s] as int + 0x100 * area[2 * s + 1] as int
  {
  }

  lemma AreaWords(e: Entry, name: seq<Unit>, ord: nat)
    requires ord >= 1 && forall t :: 0 <= t < 13 ==> UnitOf(e, t) == Cell(name, 13 * (ord - 1) + t)
    ensures var area := e[1..11] + e[14..26] + e[28..32];
            forall s :: 0 <= s < 13 ==> area[2 * s] as int + 0x100 * area[2 * s + 1] as int == Cell(name, 13 * (ord - 1) + s)
  {
    hide Cell, UnitOf;
    var area := e[1..11] + e[14..26] + e[28..32];
    forall s | 0 <= s < 13
      ensures area[2 * s] as int + 0x100 * area[2 * s + 1] as int == Cell(name, 13 * (ord - 1) + s)
    {
      WordIs(e, s);
    }
  }

  lemma AreaCaptured(buf: seq<Unit>, e: Entry)
    requires Captured(buf, e)
    ensures var area := e[1..11] + e[14..26] + e[28..32];
            forall s :: 0 <= s < 13 && s <= EndOf(e, 0) ==> buf[13 * (Order(e) - 1) + s] == area[2 * s] as int + 0x100 * area[2 * s + 1] as int
  {
    hide EndOf, UnitOf, Order, IsLast, WellFilled;
    var area := e[1..11] + e[14..26] + e[28..32];
    forall s | 0 <= s < 13 && s <= EndOf(e, 0)
      ensures buf[13 * (Order(e) - 1) + s] == area[2 * s] as int + 0x100 * area[2 * s + 1] as int
    {
      WordIs(e, s);
    }
  }

  /** First position at which a part ends, or 13. */
  function EndOf(e: Entry, s: nat): (r: nat)
    requires s <= 13
    ensures s <= r <= 13 && (r < 13 ==> UnitOf(e, r) == 0) && forall t :: s <= t < r ==> UnitOf(e, t) != 0
    decreases 13 - s
  {
    if s == 13 || UnitOf(e, s) == 0 then s else EndOf(e, s + 1)
  }

  /** Filled after its end, and without a cluster number. */
  predicate WellFilled(e: Entry) {
    e[26] == 0 && e[27] == 0 && forall t :: EndOf(e, 0) < t < 13 ==> UnitOf(e, t) == 0xFFFF
  }

  /** An entry that pick_lfn accepts: well filled, and its units fit the buffer. */
  predicate Fits(e: Entry) {
    WellFilled(e) && Order(e) >= 1 && 13 * (Order(e) - 1) + (if EndOf(e, 0) < 13 then EndOf(e, 0) else 12) <= MAX_LFN
    && (EndOf(e, 0) == 13 && IsLast(e) ==> 13 * Order(e) <= MAX_LFN)
  }

  /** The units of an entry are in the buffer, terminated if it is the last part. */
  predicate Captured(buf: seq<Unit>, e: Entry) {
    && |buf| == MAX_LFN + 1 && Fits(e)
    && (forall s :: 0 <= s < 13 && s <= EndOf(e, 0) ==> buf[13 * (Order(e) - 1) + s] == UnitOf(e, s))
    && (EndOf(e, 0) == 13 && IsLast(e) ==> buf[13 * Order(e)] == 0)
  }

  /** pick_lfn. */
  method PickLfn(lfn: array<Unit>, dir: Entry) returns (ok: bool)
    requires lfn.Length == MAX_LFN + 1
    modifies lfn
    ensures ok <==> Fits(dir)
    ensures ok ==> Captured(lfn[..], dir) && Order(dir) >= 1
    ensures ok ==> var area := dir[1..11] + dir[14..26] + dir[28..32];
                   forall s :: 0 <= s < 13 && s <= EndOf(dir, 0) ==> lfn[13 * (Order(dir) - 1) + s] == area[2 * s] as int + 0x100 * area[2 * s + 1] as int
    ensures forall k :: 0 <= k <= MAX_LFN && (k < 13 * (Order(dir) - 1) || k > 13 * Order(dir) || (k == 13 * Order(dir) && !IsLast(dir))) ==> lfn[k] == old(lfn[k])
  {
    hide UnitOf, EndOf, IsLast, Order;
    if dir[26] != 0 || dir[27] != 0 {
      return false;
    }
    var i := (Order(dir) - 1) * 13;
    if i < 0 {
      i := i + 0x1_0000_0000; // unsigned
    }
    ghost var base, end := 13 * (Order(dir) - 1), EndOf(dir, 0);
    var wc: Unit, s: nat := 1, 0;
    while s < 13
      invariant s <= 13 && (wc == 0 <==> s > end) && (s > 0 ==> 0 <= base && i <= MAX_LFN + 1)
      invariant i == (if base < 0 then base + 0x1_0000_0000 else base) + (if s <= end then s else end + 1)
      invariant forall t :: 0 <= t < s && t <= end ==> base + t <= MAX_LFN && lfn[base + t] == UnitOf(dir, t)
      invariant forall t :: end < t < s ==> UnitOf(dir, t) == 0xFFFF
      invariant forall k :: 0 <= k <= MAX_LFN && (k < base || k >= base + 13) ==> lfn[k] == old(lfn[k])
    {
      var uc := LoadUnit(dir, s);
      if wc != 0 {
        if i >= MAX_LFN + 1 {
          return false;
        }
        wc := uc;
        lfn[i] := uc;
        i := i + 1;
      } else {
        if uc != 0xFFFF {
          return false;
        }
      }
      s := s + 1;
    }
    if IsLast(dir) && wc != 0 {
      if i >= MAX_LFN + 1 {
        return false;
      }
      lfn[i] := 0;
    }
    AreaCaptured(lfn[..], dir);
    return true;
  }

  /** Case folding; only the end of a name folds to the end of a name. */
  ghost predicate Folds(up: Unit -> Unit) {
    forall c: Unit :: up(c) == 0 <==> c == 0
  }

  /** An entry that cmp_lfn accepts. */
  predicate Matches(up: Unit -> Unit, buf: seq<Unit>, e: Entry) {
    var ord := e[0] % LAST;
    && WellFilled(e) && |buf| == MAX_LFN + 1 && ord >= 1
    && (forall s :: 0 <= s < 13 && s <= EndOf(e, 0) ==> 13 * (ord - 1) + s <= MAX_LFN && up(UnitOf(e, s)) == up(buf[13 * (ord - 1) + s]))
    && (EndOf(e, 0) == 13 && IsLast(e) && 13 * ord <= MAX_LFN ==> buf[13 * ord] == 0)
  }

  /** cmp_lfn. */
  method CmpLfn(up: Unit -> Unit, lfn: array<Unit>, dir: Entry) returns (ok: bool)
    requires lfn.Length == MAX_LFN + 1
    ensures ok <==> Matches(up, lfn[..], dir)
    ensures ok ==> dir[0] % LAST >= 1
  {
    hide UnitOf, EndOf, IsLast, Order;
    if dir[26] != 0 || dir[27] != 0 {
      return false;
    }
    var i := (dir[0] % LAST - 1) * 13;
    if i < 0 {
      i := i + 0x1_0000_0000; // unsigned
    }
    ghost var base, end := 13 * (dir[0] % LAST - 1), EndOf(dir, 0);
    var wc: Unit, s: nat := 1, 0;
    while s < 13
      invariant s <= 13 && (wc == 0 <==> s > end) && (s > 0 ==> 0 <= base && i <= MAX_LFN + 1)
      invariant i == (if base < 0 then base + 0x1_0000_0000 else base) + (if s <= end then s else end + 1)
      invariant forall t :: 0 <= t < s && t <= end ==> base + t <= MAX_LFN && up(UnitOf(dir, t)) == up(lfn[base + t])
      invariant forall t :: end < t < s ==> UnitOf(dir, t) == 0xFFFF
    {
      var uc := LoadUnit(dir, s);
      if wc != 0 {
        if i >= MAX_LFN + 1 || up(uc) != up(lfn[i]) {
          return false;
        }
        i := i + 1;
        wc := uc;
      } else {
        if uc != 0xFFFF {
          return false;
        }
      }
      s := s + 1;
    }
    if IsLast(dir) && wc != 0 && lfn[i] != 0 {
      return false;
    }
    return true;
  }

  /* ---- Checksum of the short entry ---- */

  function SumTo(e: Entry, n: nat): Byte
    requires n <= 11
  {
    if n == 0 then 0 else (SumTo(e, n - 1) / 2 + SumTo(e, n - 1) % 2 * 0x80 + e[n - 1]) % 0x100
  }

  function Checksum(e: Entry): Byte {
    SumTo(e, 11)
  }

  /** sum_sfn. */
  method SumSfn(dir: Entry) returns (sum: Byte)
    ensures sum == Checksum(dir)
  {
    sum := 0;
    var n: nat := 11;
    while n > 0
      invariant n <= 11 && sum == SumTo(dir, 11 - n)
    {
      var s: nat, c: nat := sum, dir[11 - n];
      sum := (s / 2 + s * 0x80 % 0x100 + c) % 0x100;
      assert s * 0x80 % 0x100 == s % 2 * 0x80;
      n := n - 1;
    }
  }

  lemma {:induction false} ChecksumOfName(a: Entry, b: Entry, n: nat)
    requires n <= 11 && a[..11] == b[..11]
    ensures SumTo(a, n) == SumTo(b, n)
  {
    if n > 0 {
      ChecksumOfName(a, b, n - 1);
      assert a[..11][n - 1] == b[..11][n - 1];
    }
  }

  /* ---- Sequences of parts ---- */

  /** Entries k - n to k of a directory are accepted parts with one checksum and
      descending orders, from a last part down to order ord + 1. */
  ghost predicate Run(dir: seq<Entry>, lo: nat, k: nat, n: nat, ord: nat, sum: nat, ok: Entry -> bool)
    requires k <= |dir|
    decreases n
  {
    && n >= 1 && k >= lo + n
    && var e := dir[k - 1];
       IsLfn(e) && e[13] == sum && Order(e) == ord + 1 && ok(e)
       && if n == 1 then IsLast(e) else !IsLast(e) && Run(dir, lo, k - 1, n - 1, ord + 1, sum, ok)
  }

  lemma {:induction false} RunUnique(dir: seq<Entry>, lo: nat, k: nat, n: nat, ord: nat, sum: nat, n': nat, ord': nat, sum': nat, ok: Entry -> bool)
    requires k <= |dir| && Run(dir, lo, k, n, ord, sum, ok) && Run(dir, lo, k, n', ord', sum', ok)
    ensures n == n' && ord == ord' && sum == sum'
    decreases n
  {
    if n > 1 {
      RunUnique(dir, lo, k - 1, n - 1, ord + 1, sum, n' - 1, ord' + 1, sum', ok);
    }
  }

  lemma {:induction false} RunOrders(dir: seq<Entry>, lo: nat, k: nat, n: nat, ord: nat, sum: nat, ok: Entry -> bool, j: nat)
    requires k <= |dir| && Run(dir, lo, k, n, ord, sum, ok) && k - n <= j < k
    ensures Order(dir[j]) == ord + (k - j) && ok(dir[j]) && dir[j][13] == sum && (IsLast(dir[j]) <==> j == k - n)
    decreases n
  {
    if j < k - 1 {
      RunOrders(dir, lo, k - 1, n - 1, ord + 1, sum, ok, j);
    }
  }

  ghost predicate AnyRun(dir: seq<Entry>, lo: nat, k: nat, ok: Entry -> bool)
    requires k <= |dir|
  {
    exists n: nat, ord: nat, sum: nat :: Run(dir, lo, k, n, ord, sum, ok)
  }

  /** The scanners' state: the order reached, or NO_ORDER outside a sequence. */
  ghost predicate Tracks(dir: seq<Entry>, lo: nat, k: nat, blk: nat, ord: nat, sum: nat, ok: Entry -> bool)
    requires k <= |dir|
  {
    if ord == NO_ORDER then !AnyRun(dir, lo, k, ok)
    else blk <= k && Run(dir, lo, k, k - blk, ord, sum, ok)
  }

  /** Acceptable orders are small. */
  ghost predicate Small(ok: Entry -> bool) {
    forall e :: ok(e) ==> 1 <= e[0] % LAST <= 20
  }

  lemma TrackStart(dir: seq<Entry>, lo: nat, blk: nat, sum: nat, ok: Entry -> bool)
    requires lo <= |dir|
    ensures Tracks(dir, lo, lo, blk, NO_ORDER, sum, ok)
  {
  }

  lemma TrackReset(dir: seq<Entry>, lo: nat, k: nat, blk: nat, sum: nat, ok: Entry -> bool)
    requires lo <= k < |dir| && Small(ok) && (!IsLfn(dir[k]) || dir[k][0] == DELETED || !ok(dir[k]))
    ensures Tracks(dir, lo, k + 1, blk, NO_ORDER, sum, ok)
  {
  }

  /** One entry of a sequence. */
  lemma TrackStep(dir: seq<Entry>, lo: nat, k: nat, blk: nat, ord: nat, sum: nat, ok: Entry -> bool)
    requires lo <= k < |dir| && Small(ok) && IsLfn(dir[k]) && Tracks(dir, lo, k, blk, ord, sum, ok)
    ensures var e := dir[k];
            var blk', ord', sum' := if IsLast(e) then k else blk, if IsLast(e) then Order(e) else ord, if IsLast(e) then e[13] else sum;
            Tracks(dir, lo, k + 1, blk', if Order(e) == ord' && sum' == e[13] && ok(e) then ord' - 1 else NO_ORDER, sum', ok)
  {
    var e := dir[k];
    if IsLast(e) {
      assert ok(e) ==> Run(dir, lo, k + 1, 1, Order(e) - 1, e[13], ok);
    } else if Order(e) == ord && sum == e[13] && ok(e) {
      assert Run(dir, lo, k + 1, k + 1 - blk, ord - 1, sum, ok);
    } else if AnyRun(dir, lo, k + 1, ok) {
      var n: nat, o: nat, s: nat :| Run(dir, lo, k + 1, n, o, s, ok);
      RunBefore(dir, lo, k, n, o, s, blk, ord, sum, ok);
    }
  }

  lemma RunBefore(dir: seq<Entry>, lo: nat, k: nat, n: nat, o: nat, s: nat, blk: nat, ord: nat, sum: nat, ok: Entry -> bool)
    requires k < |dir| && Run(dir, lo, k + 1, n, o, s, ok) && !IsLast(dir[k]) && Tracks(dir, lo, k, blk, ord, sum, ok)
    ensures Order(dir[k]) == ord && sum == dir[k][13] && ok(dir[k])
  {
    assert Run(dir, lo, k, n - 1, o + 1, s, ok) && AnyRun(dir, lo, k, ok);
    RunUnique(dir, lo, k, n - 1, o + 1, s, k - blk, ord, sum, ok);
  }

  /** A whole sequence with the given checksum lies before entry k. */
  ghost predicate LongName(dir: seq<Entry>, lo: nat, k: nat, sum: nat, ok: Entry -> bool)
    requires k <= |dir|
  {
    exists n: nat :: Run(dir, lo, k, n, 0, sum, ok)
  }

  lemma TrackDone(dir: seq<Entry>, lo: nat, k: nat, blk: nat, ord: nat, sum: nat, s: nat, ok: Entry -> bool)
    requires k <= |dir| && Tracks(dir, lo, k, blk, ord, sum, ok)
    ensures ord == 0 && sum == s <==> LongName(dir, lo, k, s, ok)
  {
    if LongName(dir, lo, k, s, ok) {
      var n: nat :| Run(dir, lo, k, n, 0, s, ok);
      assert AnyRun(dir, lo, k, ok);
      RunUnique(dir, lo, k, n, 0, s, k - blk, ord, sum, ok);
    }
  }

  /** The test that dir_read makes; it passes over parts when it looks for a label. */
  ghost function Reads(vol: bool): Entry -> bool {
    (e: Entry) => !vol && Fits(e)
  }

  lemma ReadsSmall(vol: bool)
    ensures Small(Reads(vol))
  {
    hide EndOf, WellFilled;
  }

  /** The test that dir_find makes; it passes over parts if the name has no long form. */
  ghost function Accepts(up: Unit -> Unit, buf: seq<Unit>, noLfn: bool): Entry -> bool {
    (e: Entry) => !noLfn && Matches(up, buf, e)
  }

  lemma MatchesSmall(up: Unit -> Unit, buf: seq<Unit>, noLfn: bool)
    ensures Small(Accepts(up, buf, noLfn))
  {
    hide EndOf, WellFilled;
    forall e: Entry | Matches(up, buf, e)
      ensures 1 <= e[0] % LAST <= 20
    {
      var u := UnitOf(e, 0);
    }
  }

  /** All parts of a sequence are in the buffer. */
  ghost predicate AllCaptured(buf: seq<Unit>, dir: seq<Entry>, blk: nat, k: nat)
    requires k <= |dir|
  {
    forall j :: blk <= j < k ==> Captured(buf, dir[j])
  }

  lemma CapturedStep(dir: seq<Entry>, lo: nat, k: nat, blk: nat, ord: nat, sum: nat, ok: Entry -> bool, before: seq<Unit>, after: seq<Unit>)
    requires k < |dir| && blk <= k && Run(dir, lo, k, k - blk, ord, sum, ok) && Order(dir[k]) == ord && !IsLast(dir[k])
    requires AllCaptured(before, dir, blk, k) && Captured(after, dir[k]) && |before| == |after|
    requires forall i :: 13 * ord <= i < |before| ==> before[i] == after[i]
    ensures AllCaptured(after, dir, blk, k + 1)
  {
    forall j | blk <= j < k
      ensures Captured(after, dir[j])
    {
      RunOrders(dir, lo, k, k - blk, ord, sum, ok, j);
      hide Run, EndOf, Fits, UnitOf, Order, IsLast;
      assert Captured(before, dir[j]);
    }
  }

  /** A file or directory (or a label, when these are asked for). */
  predicate Live(e: Entry, vol: bool) {
    e[0] != 0 && e[0] != DELETED && e[0] != DOT && (e[11] % 32 == AM_VOL) == vol && !IsLfn(e)
  }

  lemma TracksRun(dir: seq<Entry>, lo: nat, k: nat, blk: nat, ord: nat, sum: nat, ok: Entry -> bool)
    requires k <= |dir| && Tracks(dir, lo, k, blk, ord, sum, ok) && ord != NO_ORDER
    ensures blk <= k && Run(dir, lo, k, k - blk, ord, sum, ok)
  {
  }

  /** dir_read's treatment of a part. */
  method ReadPart(lfn: array<Unit>, ghost dir: seq<Entry>, ghost lo: nat, k: nat, e: Entry, blk: nat, ord: nat, sum: nat)
    returns (blk': nat, ord': nat, sum': nat)
    requires lfn.Length == MAX_LFN + 1 && lo <= k < |dir| && e == dir[k] && IsLfn(e)
    requires Tracks(dir, lo, k, blk, ord, sum, Reads(false)) && (ord != NO_ORDER ==> AllCaptured(lfn[..], dir, blk, k))
    modifies lfn
    ensures Tracks(dir, lo, k + 1, blk', ord', sum', Reads(false)) && (ord' != NO_ORDER ==> AllCaptured(lfn[..], dir, blk', k + 1))
  {
    hide Tracks, Run, Fits, Captured, Small;
    ReadsSmall(false);
    TrackStep(dir, lo, k, blk, ord, sum, Reads(false));
    blk', ord', sum' := blk, ord, sum;
    var c: nat := e[0];
    if c / LAST % 2 == 1 {
      sum' := e[13];
      c := c - LAST;
      ord' := c;
      blk' := k;
    }
    ghost var before := lfn[..];
    var ok := false;
    if c == ord' && sum' == e[13] {
      ok := PickLfn(lfn, e);
      if ok && blk' != k {
        assert !IsLast(e);
        TracksRun(dir, lo, k, blk, ord, sum, Reads(false));
        CapturedStep(dir, lo, k, blk, ord, sum, Reads(false), before, lfn[..]);
      }
    }
    ord' := if ok then ord' - 1 else NO_ORDER;
  }

  /** Entry k is live, and the scan from entry lo reaches it. */
  predicate FirstLive(dir: seq<Entry>, lo: nat, k: nat, vol: bool) {
    lo <= k < |dir| && Live(dir[k], vol) && forall j :: lo <= j < k ==> dir[j][0] != 0 && !Live(dir[j], vol)
  }

  /** dir_read from entry start; blk is the start of the long name, or -1. */
  method DirRead(lfn: array<Unit>, dir: seq<Entry>, start: nat, vol: bool) returns (found: bool, at: nat, blk: int)
    requires lfn.Length == MAX_LFN + 1 && start <= |dir|
    modifies lfn
    ensures if found then FirstLive(dir, start, at, vol) else forall k: nat :: !FirstLive(dir, start, k, vol)
    ensures found ==> (blk >= 0 <==> LongName(dir, start, at, Checksum(dir[at]), Reads(vol)))
    ensures found && blk >= 0 ==> !vol && start <= blk < at && Run(dir, start, at, at - blk, 0, Checksum(dir[at]), Reads(vol))
                                  && AllCaptured(lfn[..], dir, blk, at)
  {
    hide Tracks, Run, Fits, Captured, Small, LongName, Reads, SumTo;
    ReadsSmall(vol);
    var b: nat, ord: nat, sum: nat := 0, NO_ORDER, 0xFF;
    at := start;
    TrackStart(dir, start, b, sum, Reads(vol));
    while at < |dir|
      invariant start <= at <= |dir| && Tracks(dir, start, at, b, ord, sum, Reads(vol)) && (vol ==> ord == NO_ORDER)
      invariant ord != NO_ORDER ==> AllCaptured(lfn[..], dir, b, at)
      invariant forall j :: start <= j < at ==> dir[j][0] != 0 && !Live(dir[j], vol)
    {
      var e := dir[at];
      if e[0] == 0 {
        return false, at, -1;
      }
      var attr := e[11] % 64;
      if e[0] == DELETED || e[0] == DOT || (attr % 32 == AM_VOL) != vol {
        NotRead(e, vol);
        TrackReset(dir, start, at, b, sum, Reads(vol));
        ord := NO_ORDER;
      } else {
        if attr == AM_LFN {
          b, ord, sum := ReadPart(lfn, dir, start, at, e, b, ord, sum);
        } else {
          var s := SumSfn(e);
          TrackDone(dir, start, at, b, ord, sum, s, Reads(vol));
          blk := b;
          if ord != 0 || sum != s {
            blk := -1;
          } else {
            TracksRun(dir, start, at, b, ord, sum, Reads(vol));
            RunFits(dir, start, at, at - b, 0, sum, vol);
          }
          return true, at, blk;
        }
      }
      at := at + 1;
    }
    return false, at, -1;
  }

  lemma NotRead(e: Entry, vol: bool)
    requires e[0] == DELETED || e[0] == DOT || (e[11] % 64 % 32 == AM_VOL) != vol
    ensures (!IsLfn(e) || e[0] == DELETED || !Reads(vol)(e)) && !Live(e, vol)
  {
    hide EndOf, WellFilled;
  }

  lemma RunFits(dir: seq<Entry>, lo: nat, k: nat, n: nat, ord: nat, sum: nat, vol: bool)
    requires k <= |dir| && Run(dir, lo, k, n, ord, sum, Reads(vol))
    ensures !vol && n >= 1 && lo + n <= k
  {
    hide Fits;
  }

  /* ---- Finding a name ---- */

  predicate FileEntry(e: Entry) {
    e[0] != 0 && e[0] != DELETED && e[11] % 64 / AM_VOL % 2 == 0
  }

  /** Entry k has the long name that is asked for, or its short form. */
  ghost predicate Hit(up: Unit -> Unit, buf: seq<Unit>, fn: seq<Byte>, noLfn: bool, loss: bool, dir: seq<Entry>, k: nat)
    requires k < |dir|
  {
    FileEntry(dir[k]) && (LongName(dir, 0, k, Checksum(dir[k]), Accepts(up, buf, noLfn)) || (!loss && dir[k][..11] == fn))
  }

  ghost predicate FirstHit(up: Unit -> Unit, buf: seq<Unit>, fn: seq<Byte>, noLfn: bool, loss: bool, dir: seq<Entry>, k: nat) {
    k < |dir| && Hit(up, buf, fn, noLfn, loss, dir, k) && forall j :: 0 <= j < k ==> dir[j][0] != 0 && !Hit(up, buf, fn, noLfn, loss, dir, j)
  }

  /** dir_find's treatment of a part. */
  method FindPart(up: Unit -> Unit, lfn: array<Unit>, noLfn: bool, ghost dir: seq<Entry>, k: nat, e: Entry, blk: nat, ord: nat, sum: nat)
    returns (blk': nat, ord': nat, sum': nat)
    requires lfn.Length == MAX_LFN + 1 && k < |dir| && e == dir[k] && IsLfn(e) && e[0] != 0
    requires Tracks(dir, 0, k, blk, ord, sum, Accepts(up, lfn[..], noLfn)) && (noLfn ==> ord == NO_ORDER)
    ensures Tracks(dir, 0, k + 1, blk', ord', sum', Accepts(up, lfn[..], noLfn)) && (noLfn ==> ord' == NO_ORDER)
  {
    hide Tracks, Run, Matches, Small;
    MatchesSmall(up, lfn[..], noLfn);
    blk', ord', sum' := blk, ord, sum;
    if !noLfn {
      TrackStep(dir, 0, k, blk, ord, sum, Accepts(up, lfn[..], noLfn));
      var c: nat := e[0];
      if c / LAST % 2 == 1 {
        sum' := e[13];
        c := c - LAST;
        ord' := c;
        blk' := k;
      }
      var ok := false;
      if c == ord' && sum' == e[13] {
        ok := CmpLfn(up, lfn, e);
      }
      ord' := if ok then ord' - 1 else NO_ORDER;
    } else {
      TrackReset(dir, 0, k, blk, sum, Accepts(up, lfn[..], noLfn));
    }
  }

  /** dir_find for the name in the buffer, whose short form is fn. */
  method DirFind(up: Unit -> Unit, lfn: array<Unit>, fn: seq<Byte>, noLfn: bool, loss: bool, dir: seq<Entry>) returns (found: bool, at: nat)
    requires lfn.Length == MAX_LFN + 1 && |dir| > 0 && |fn| == 11
    ensures if found then FirstHit(up, lfn[..], fn, noLfn, loss, dir, at) else forall k: nat :: !FirstHit(up, lfn[..], fn, noLfn, loss, dir, k)
  {
    hide Tracks, Run, Matches, Small, LongName, Accepts, SumTo;
    MatchesSmall(up, lfn[..], noLfn);
    var b: nat, ord: nat, sum: nat := 0, NO_ORDER, 0xFF;
    at := 0;
    TrackStart(dir, 0, b, sum, Accepts(up, lfn[..], noLfn));
    while at < |dir|
      invariant at <= |dir| && Tracks(dir, 0, at, b, ord, sum, Accepts(up, lfn[..], noLfn)) && (noLfn ==> ord == NO_ORDER)
      invariant forall j :: 0 <= j < at ==> dir[j][0] != 0 && !Hit(up, lfn[..], fn, noLfn, loss, dir, j)
    {
      var e := dir[at];
      if e[0] == 0 {
        return false, at;
      }
      var a := e[11] % 64;
      if e[0] == DELETED || (a / AM_VOL % 2 == 1 && a != AM_LFN) {
        TrackReset(dir, 0, at, b, sum, Accepts(up, lfn[..], noLfn));
        ord := NO_ORDER;
      } else {
        if a == AM_LFN {
          b, ord, sum := FindPart(up, lfn, noLfn, dir, at, e, b, ord, sum);
        } else {
          var s := SumSfn(e);
          TrackDone(dir, 0, at, b, ord, sum, s, Accepts(up, lfn[..], noLfn));
          if ord == 0 && sum == s {
            return true, at;
          }
          if !loss && e[..11] == fn {
            return true, at;
          }
          TrackReset(dir, 0, at, b, sum, Accepts(up, lfn[..], noLfn));
          ord := NO_ORDER;
        }
      }
      at := at + 1;
    }
    return false, at;
  }

  /* ---- Registering a name ---- */

  /** The whole name lies in the entries before entry at, all with one checksum. */
  predicate Stored(dir: seq<Entry>, at: nat, name: seq<Unit>, sum: nat) {
    Parts(|name|) <= at <= |dir| && forall j :: at - Parts(|name|) <= j < at ==> IsPart(dir[j], name, at - j, sum)
  }

  /** The short entry as it is created. */
  predicate IsShort(e: Entry, fn: seq<Byte>, nt: Byte) {
    |fn| == 11 && e[..11] == fn && e[12] == nt && e[11] == 0 && forall i :: 13 <= i < 32 ==> e[i] == 0
  }

  method ShortEntry(fn: seq<Byte>, nt: Byte) returns (e: Entry)
    requires |fn| == 11
    ensures IsShort(e, fn, nt)
  {
    var dir := new Byte[32](_ => 0);
    for i := 0 to 11
      invariant dir[..i] == fn[..i] && forall k :: i <= k < 32 ==> dir[k] == 0
    {
      dir[i] := fn[i];
    }
    dir[12] := nt;
    assert dir[..11] == fn;
    return dir[..];
  }

  lemma EndOfName(buf: seq<Unit>, name: seq<Unit>, len: nat)
    requires Holds(buf, name) && len <= |name| && buf[len] == 0
    ensures len == |name|
  {
  }

  /** dir_register after dir_alloc has found room from entry first on: the parts of
      the name in the buffer, last part first, if it needs them, and the short entry. */
  method DirRegister(lfn: array<Unit>, dir: array<Entry>, first: nat, fn: seq<Byte>, nt: Byte, long: bool, ghost name: seq<Unit>) returns (at: nat)
    requires lfn.Length == MAX_LFN + 1 && Holds(lfn[..], name) && |fn| == 11
    requires first + (if long then Parts(|name|) else 0) < dir.Length
    modifies dir
    ensures at == first + (if long then Parts(|name|) else 0) && IsShort(dir[at], fn, nt)
    ensures long ==> Stored(dir[..], at, name, Checksum(dir[at]))
    ensures forall k :: 0 <= k < dir.Length && !(first <= k <= at) ==> dir[k] == old(dir[k])
  {
    hide SumTo;
    var len: nat := 0;
    while lfn[len] != 0
      invariant len <= |name|
      decreases |name| - len
    {
      assert lfn[..][len] != 0;
      len := len + 1;
    }
    EndOfName(lfn[..], name, len);
    var nEnt: nat := if long then (len + 12) / 13 else 0;
    var short := ShortEntry(fn, nt);
    var sum := SumSfn(short);
    at := first;
    while nEnt > 0
      invariant nEnt <= Parts(|name|) && at + nEnt == first + (if long then Parts(|name|) else 0)
      invariant forall j :: first <= j < at ==> IsPart(dir[j], name, at + nEnt - j, sum)
      invariant forall k :: 0 <= k < dir.Length && !(first <= k < at) ==> dir[k] == old(dir[k])
    {
      var slot := new Byte[32](_ => 0);
      PutLfn(lfn, slot, nEnt, sum, name);
      dir[at] := slot[..];
      at := at + 1;
      nEnt := nEnt - 1;
    }
    dir[at] := short;
  }

  /* ---- Reading back ---- */

  lemma PartEnd(e: Entry, name: seq<Unit>, ord: nat, sum: nat)
    requires Name(name) && IsPart(e, name, ord, sum)
    ensures EndOf(e, 0) == (if 13 * ord <= |name| then 13 else |name| - 13 * (ord - 1))
    ensures WellFilled(e) && IsLfn(e) && Order(e) == ord && e[0] % LAST == ord && (IsLast(e) <==> ord == Parts(|name|))
  {
    hide UnitOf, EndOf;
    var end := if 13 * ord <= |name| then 13 else |name| - 13 * (ord - 1);
    assert forall t :: 0 <= t < end ==> UnitOf(e, t) != 0;
    if end < 13 {
      assert UnitOf(e, end) == 0;
    }
    EndIs(e, 0, end);
  }

  lemma {:induction false} EndIs(e: Entry, s: nat, r: nat)
    requires s <= r <= 13 && (r < 13 ==> UnitOf(e, r) == 0) && forall t :: s <= t < r ==> UnitOf(e, t) != 0
    ensures EndOf(e, s) == r
    decreases 13 - s
  {
    hide UnitOf;
    if s < r {
      EndIs(e, s + 1, r);
    }
  }

  lemma PartFits(e: Entry, name: seq<Unit>, ord: nat, sum: nat)
    requires Name(name) && IsPart(e, name, ord, sum)
    ensures Fits(e)
  {
    PartEnd(e, name, ord, sum);
    hide EndOf, UnitOf, IsLast, Order, WellFilled;
  }

  /** The first i parts (from the last part down) of a stored name are a sequence. */
  lemma {:induction false} StoredRun(dir: seq<Entry>, lo: nat, at: nat, name: seq<Unit>, sum: nat, ok: Entry -> bool, i: nat)
    requires Name(name) && Stored(dir, at, name, sum) && lo + Parts(|name|) <= at && 1 <= i <= Parts(|name|)
    requires forall j :: at - Parts(|name|) <= j < at ==> ok(dir[j])
    ensures Run(dir, lo, at - Parts(|name|) + i, i, Parts(|name|) - i, sum, ok)
  {
    var k := at - Parts(|name|) + i - 1;
    PartEnd(dir[k], name, at - k, sum);
    hide EndOf, UnitOf, IsLast, Order, WellFilled;
    if i > 1 {
      StoredRun(dir, lo, at, name, sum, ok, i - 1);
    }
  }

  /** A stored name that the scan passes is seen as a long name. */
  lemma StoredIsRead(dir: seq<Entry>, lo: nat, at: nat, name: seq<Unit>, sum: nat)
    requires Name(name) && name != [] && Stored(dir, at, name, sum) && lo + Parts(|name|) <= at
    ensures Run(dir, lo, at, Parts(|name|), 0, sum, Reads(false)) && LongName(dir, lo, at, sum, Reads(false))
  {
    hide EndOf, UnitOf, Run, Fits, IsPart;
    forall j | at - Parts(|name|) <= j < at
      ensures Fits(dir[j])
    {
      PartFits(dir[j], name, at - j, sum);
    }
    StoredRun(dir, lo, at, name, sum, Reads(false), Parts(|name|));
  }

  /** Captured parts of a stored name are the name, terminated. */
  lemma StoredCaptured(buf: seq<Unit>, dir: seq<Entry>, at: nat, name: seq<Unit>, sum: nat)
    requires Name(name) && name != [] && Stored(dir, at, name, sum) && AllCaptured(buf, dir, at - Parts(|name|), at)
    ensures Holds(buf, name)
  {
    hide Captured, IsPart, Cell;
    CapturedCell(buf, dir[at - 1], name, 1, sum, 0);
    forall i | 0 <= i <= |name|
      ensures |buf| == MAX_LFN + 1 && buf[i] == Cell(name, i)
    {
      var ord := PartOf(|name|, i);
      CapturedCell(buf, dir[at - ord], name, ord, sum, i);
    }
    CellsHold(buf, name);
  }

  lemma CapturedCell(buf: seq<Unit>, e: Entry, name: seq<Unit>, ord: nat, sum: nat, i: nat)
    requires Name(name) && IsPart(e, name, ord, sum) && Captured(buf, e) && 13 * (ord - 1) <= i <= |name| && (i < 13 * ord || (i == |name| == 13 * ord))
    ensures |buf| == MAX_LFN + 1 && buf[i] == Cell(name, i)
  {
    PartEnd(e, name, ord, sum);
    hide UnitOf, EndOf, IsLast, Order, Fits;
    if i < 13 * ord {
      assert UnitOf(e, i - 13 * (ord - 1)) == Cell(name, 13 * (ord - 1) + (i - 13 * (ord - 1)));
    }
  }

  lemma CellsHold(buf: seq<Unit>, name: seq<Unit>)
    requires Name(name) && |buf| == MAX_LFN + 1 && forall i :: 0 <= i <= |name| ==> buf[i] == Cell(name, i)
    ensures Holds(buf, name)
  {
  }

  /** Registering a name and reading the directory from any entry before it: if the
      scan gets as far as the new short entry, it has the name back. */
  method RegisterThenRead(lfn: array<Unit>, dir: array<Entry>, first: nat, fn: seq<Byte>, nt: Byte, start: nat, ghost name: seq<Unit>)
    returns (registered: nat, found: bool, at: nat, blk: int)
    requires lfn.Length == MAX_LFN + 1 && Holds(lfn[..], name) && name != [] && |fn| == 11
    requires start <= first && first + Parts(|name|) < dir.Length
    modifies dir, lfn
    ensures registered == first + Parts(|name|)
    ensures found && at == registered ==> blk == first && Holds(lfn[..], name)
    ensures start == first && fn[0] != 0 && fn[0] != DELETED && fn[0] != DOT ==> found && at == registered
  {
    hide Run, Captured, SumTo, Fits, IsPart;
    registered := DirRegister(lfn, dir, first, fn, nt, true, name);
    found, at, blk := DirRead(lfn, dir[..], start, false);
    ghost var d, sum := dir[..], Checksum(dir[registered]);
    StoredIsRead(d, start, registered, name, sum);
    if found && at == registered {
      RunUnique(d, start, at, at - blk, 0, sum, Parts(|name|), 0, sum, Reads(false));
      StoredCaptured(lfn[..], d, registered, name, sum);
    }
    PassesParts(d, registered, name, sum);
    if start == first && fn[0] != 0 && fn[0] != DELETED && fn[0] != DOT {
      assert d[registered][..11][0] == fn[0];
      assert FirstLive(d, start, registered, false);
    }
  }

  lemma PassesParts(dir: seq<Entry>, at: nat, name: seq<Unit>, sum: nat)
    requires Name(name) && Stored(dir, at, name, sum)
    ensures forall j :: at - Parts(|name|) <= j < at ==> dir[j][0] != 0 && !Live(dir[j], false)
  {
    forall j | at - Parts(|name|) <= j < at
      ensures dir[j][0] != 0 && !Live(dir[j], false)
    {
      PartEnd(dir[j], name, at - j, sum);
    }
  }

  /* ---- Finding a stored name ---- */

  /** Equal up to case. */
  ghost predicate SameFolded(up: Unit -> Unit, a: seq<Unit>, b: seq<Unit>) {
    |a| == |b| && forall i :: 0 <= i < |a| ==> up(a[i]) == up(b[i])
  }

  lemma CellsFold(up: Unit -> Unit, buf: seq<Unit>, name: seq<Unit>, asked: seq<Unit>)
    requires Name(name) && Holds(buf, asked) && SameFolded(up, name, asked)
    ensures |buf| == MAX_LFN + 1 && buf[|name|] == 0 && forall i :: 0 <= i <= |name| ==> up(buf[i]) == up(Cell(name, i))
  {
  }

  lemma PartMatches(up: Unit -> Unit, buf: seq<Unit>, e: Entry, name: seq<Unit>, ord: nat, sum: nat)
    requires |name| <= MAX_LFN && 1 <= ord <= Parts(|name|) && WellFilled(e) && e[0] % LAST == ord && (IsLast(e) <==> ord == Parts(|name|))
    requires EndOf(e, 0) == (if 13 * ord <= |name| then 13 else |name| - 13 * (ord - 1))
    requires forall s :: 0 <= s < 13 ==> UnitOf(e, s) == Cell(name, 13 * (ord - 1) + s)
    requires |buf| == MAX_LFN + 1 && buf[|name|] == 0 && forall i :: 0 <= i <= |name| ==> up(buf[i]) == up(Cell(name, i))
    ensures Matches(up, buf, e)
  {
    hide UnitOf, EndOf, IsLast, WellFilled, Cell;
  }

  lemma PartCells(e: Entry, name: seq<Unit>, ord: nat, sum: nat)
    requires IsPart(e, name, ord, sum)
    ensures 1 <= ord <= Parts(|name|) && forall s :: 0 <= s < 13 ==> UnitOf(e, s) == Cell(name, 13 * (ord - 1) + s)
  {
  }

  lemma MatchedCell(up: Unit -> Unit, buf: seq<Unit>, e: Entry, name: seq<Unit>, ord: nat, sum: nat, i: nat)
    requires Folds(up) && Name(name) && IsPart(e, name, ord, sum) && Matches(up, buf, e) && |buf| == MAX_LFN + 1
    requires 13 * (ord - 1) <= i <= |name| && (i < 13 * ord || i == |name| == 13 * ord)
    ensures up(buf[i]) == up(Cell(name, i))
  {
    PartEnd(e, name, ord, sum);
    hide UnitOf, EndOf, IsLast, Order, WellFilled;
    if i < 13 * ord {
      assert UnitOf(e, i - 13 * (ord - 1)) == Cell(name, 13 * (ord - 1) + (i - 13 * (ord - 1)));
    }
  }

  lemma CellsSame(up: Unit -> Unit, buf: seq<Unit>, name: seq<Unit>, asked: seq<Unit>)
    requires Folds(up) && Name(name) && Holds(buf, asked) && forall i :: 0 <= i <= |name| ==> up(buf[i]) == up(Cell(name, i))
    ensures SameFolded(up, name, asked)
  {
    var k := if |asked| < |name| then |asked| else |name|;
    assert up(buf[k]) == up(Cell(name, k));
  }

  /** A stored name is found by exactly the names equal to it up to case, whatever
      the buffer holds behind the name asked for. */
  lemma StoredIsFound(up: Unit -> Unit, buf: seq<Unit>, dir: seq<Entry>, lo: nat, at: nat, name: seq<Unit>, sum: nat, asked: seq<Unit>)
    requires Folds(up) && Name(name) && name != [] && Stored(dir, at, name, sum) && lo + Parts(|name|) <= at && Holds(buf, asked)
    ensures LongName(dir, lo, at, sum, Accepts(up, buf, false)) <==> SameFolded(up, name, asked)
  {
    hide Run, Matches, IsPart, Cell, EndOf, UnitOf, IsLast, WellFilled, Folds, SameFolded, Holds;
    var n, ok := Parts(|name|), Accepts(up, buf, false);
    if SameFolded(up, name, asked) {
      CellsFold(up, buf, name, asked);
      forall j | at - n <= j < at
        ensures ok(dir[j])
      {
        PartEnd(dir[j], name, at - j, sum);
        PartCells(dir[j], name, at - j, sum);
        PartMatches(up, buf, dir[j], name, at - j, sum);
      }
      StoredRun(dir, lo, at, name, sum, ok, n);
    }
    if LongName(dir, lo, at, sum, ok) {
      var m: nat :| Run(dir, lo, at, m, 0, sum, ok);
      AllMatched(up, buf, dir, lo, at, name, sum, asked, m);
    }
  }

  lemma RunLength(dir: seq<Entry>, lo: nat, at: nat, name: seq<Unit>, sum: nat, ok: Entry -> bool, m: nat)
    requires Name(name) && name != [] && Stored(dir, at, name, sum) && Run(dir, lo, at, m, 0, sum, ok)
    ensures m == Parts(|name|)
  {
    hide Run, IsPart, EndOf, UnitOf, WellFilled, IsLast;
    var least := if m < Parts(|name|) then m else Parts(|name|);
    RunSize(dir, lo, at, m, 0, sum, ok);
    RunOrders(dir, lo, at, m, 0, sum, ok, at - least);
    PartEnd(dir[at - least], name, least, sum);
  }

  lemma RunSize(dir: seq<Entry>, lo: nat, k: nat, n: nat, ord: nat, sum: nat, ok: Entry -> bool)
    requires k <= |dir| && Run(dir, lo, k, n, ord, sum, ok)
    ensures n >= 1 && lo + n <= k
  {
  }

  lemma AllMatched(up: Unit -> Unit, buf: seq<Unit>, dir: seq<Entry>, lo: nat, at: nat, name: seq<Unit>, sum: nat, asked: seq<Unit>, m: nat)
    requires Folds(up) && Name(name) && name != [] && Stored(dir, at, name, sum) && lo + Parts(|name|) <= at && Holds(buf, asked)
    requires Run(dir, lo, at, m, 0, sum, Accepts(up, buf, false))
    ensures SameFolded(up, name, asked)
  {
    var n, ok := Parts(|name|), Accepts(up, buf, false);
    RunSize(dir, lo, at, m, 0, sum, ok);
    hide Run, Matches, IsPart, Cell, EndOf, UnitOf, IsLast, WellFilled, Folds, SameFolded, Name;
    RunLength(dir, lo, at, name, sum, ok, m);
    forall i | 0 <= i <= |name|
      ensures up(buf[i]) == up(Cell(name, i))
    {
      var ord := PartOf(|name|, i);
      PartOfRun(dir, lo, at, name, sum, ok, ord);
      MatchedCell(up, buf, dir[at - ord], name, ord, sum, i);
    }
    CellsSame(up, buf, name, asked);
  }

  /** The part that holds position i, or the last one for the end of the name. */
  function PartOf(len: nat, i: nat): (ord: nat)
    requires 0 < len && i <= len
    ensures 1 <= ord <= Parts(len) && 13 * (ord - 1) <= i && (i < 13 * ord || i == len == 13 * ord)
  {
    if i == 13 * Parts(len) then Parts(len) else i / 13 + 1
  }

  lemma PartOfRun(dir: seq<Entry>, lo: nat, at: nat, name: seq<Unit>, sum: nat, ok: Entry -> bool, ord: nat)
    requires Stored(dir, at, name, sum) && Run(dir, lo, at, Parts(|name|), 0, sum, ok) && 1 <= ord <= Parts(|name|)
    ensures IsPart(dir[at - ord], name, ord, sum) && ok(dir[at - ord])
  {
    hide IsPart;
    RunOrders(dir, lo, at, Parts(|name|), 0, sum, ok, at - ord);
  }

  /** Registering a name and looking for another: the new short entry is a hit for
      the long name asked for exactly if the two are equal up to case, and then the
      search ends there or earlier. */
  method RegisterThenFind(up: Unit -> Unit, lfn: array<Unit>, asked: array<Unit>, dir: array<Entry>, first: nat, fn: seq<Byte>, nt: Byte,
                          ghost name: seq<Unit>, ghost other: seq<Unit>)
    returns (registered: nat, found: bool, at: nat)
    requires Folds(up) && lfn.Length == asked.Length == MAX_LFN + 1 && Holds(lfn[..], name) && name != [] && Holds(asked[..], other)
    requires |fn| == 11 && fn[0] != 0 && fn[0] != DELETED && first + Parts(|name|) < dir.Length
    requires forall k :: 0 <= k < first ==> dir[k][0] != 0
    modifies dir
    ensures registered == first + Parts(|name|)
    ensures LongName(dir[..], 0, registered, Checksum(dir[registered]), Accepts(up, asked[..], false)) <==> SameFolded(up, name, other)
    ensures SameFolded(up, name, other) ==> found && at <= registered
    ensures found && at == registered ==> SameFolded(up, name, other)
  {
    hide Run, Matches, SumTo, LongName, Accepts, IsPart;
    registered := DirRegister(lfn, dir, first, fn, nt, true, name);
    ghost var d := dir[..];
    StoredIsFound(up, asked[..], d, 0, registered, name, Checksum(d[registered]), other);
    PassesParts(d, registered, name, Checksum(d[registered]));
    assert d[registered][..11][0] == fn[0];
    assert forall k :: 0 <= k <= registered ==> d[k][0] != 0;
    found, at := DirFind(up, asked, fn, false, true, dir[..]);
    if SameFolded(up, name, other) {
      assert Hit(up, asked[..], fn, false, true, d, registered);
      HitIsFound(up, asked[..], fn, d, registered);
    }
  }

  lemma {:induction false} HitIsFound(up: Unit -> Unit, buf: seq<Unit>, fn: seq<Byte>, dir: seq<Entry>, k: nat)
    requires k < |dir| && Hit(up, buf, fn, false, true, dir, k) && forall j :: 0 <= j <= k ==> dir[j][0] != 0
    ensures exists i: nat :: i <= k && FirstHit(up, buf, fn, false, true, dir, i)
  {
    hide Hit;
    if j: nat :| j < k && Hit(up, buf, fn, false, true, dir, j) {
      HitIsFound(up, buf, fn, dir, j);
    } else {
      assert FirstHit(up, buf, fn, false, true, dir, k);
    }
  }
}
