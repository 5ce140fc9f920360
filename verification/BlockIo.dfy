/** The disk interface of the file system: sectors on a block device that moves
    whole transfer blocks. */
module BlockIo {
  type Byte = x: nat | x < 0x100

  const TRANSFER: nat := 4096

  /** Sectors per transfer block, for the sector sizes that are powers of two. */
  predicate Geometry(ss: nat, n: nat) {
    (ss == 512 && n == 8) || (ss == 1024 && n == 4) || (ss == 2048 && n == 2) || (ss == 4096 && n == 1)
  }

  /** Transfer blocks that the sectors from s on touch: up to the rounded-up end, from the rounded-down start. */
  function Blocks(n: nat, s: nat, count: nat): int
    requires SmallPower(n)
  {
    Div(s + count + n - 1, n) - Div(s, n)
  }

  function Int32(x: int): int {
    var w := x % 0x1_0000_0000;
    if w >= 0x8000_0000 then w - 0x1_0000_0000 else w
  }

  predicate SmallPower(n: nat) {
    n == 1 || n == 2 || n == 4 || n == 8
  }

  /** DIV_POWER_OF_2 and MOD_POWER_OF_2: a shift that rounds down and a mask. */
  function Div(x: int, n: nat): int
    requires SmallPower(n)
  {
    x / n
  }

  function Mod(x: int, n: nat): nat
    requires SmallPower(n)
  {
    x % n
  }

  lemma Quotient(x: int, n: nat, q: int, r: nat)
    requires SmallPower(n) && r < n && x == n * q + r
    ensures Div(x, n) == q && Mod(x, n) == r
  {
    if n == 8 {
    } else if n == 4 {
    } else if n == 2 {
    }
  }

  lemma Divided(x: nat, n: nat)
    requires SmallPower(n)
    ensures x == n * Div(x, n) + Mod(x, n) && Mod(x, n) < n && Div(x, n) >= 0
  {
    if n == 8 {
    } else if n == 4 {
    } else if n == 2 {
    }
  }

  lemma RoundedUp(x: nat, n: nat)
    requires SmallPower(n)
    ensures Div(x + n - 1, n) == Div(x, n) + if Mod(x, n) > 0 then 1 else 0
  {
    hide Div, Mod, SmallPower;
    Divided(x, n);
    Quotient(x + n - 1, n, Div(x, n) + (if Mod(x, n) > 0 then 1 else 0), if Mod(x, n) > 0 then Mod(x, n) - 1 else n - 1);
  }

  lemma Counted(n: nat, s: nat, c: nat)
    requires SmallPower(n)
    ensures var head, tail := Mod(n - Mod(s, n), n), Mod(s + c, n);
            (if head != 0 then 1 else 0) + (if tail != 0 then 1 else 0) + Div(c - head - tail, n) == Div(s + c + n - 1, n) - Div(s, n)
            && (head == 0 <==> Mod(s, n) == 0) && head + tail < 2 * n
  {
    hide Div, Mod, SmallPower;
    Divided(s, n);
    Divided(s + c, n);
    RoundedUp(s + c, n);
    var b := Mod(s, n);
    Quotient(n - b, n, if b == 0 then 1 else 0, if b == 0 then 0 else n - b);
    Quotient(c - Mod(n - b, n) - Mod(s + c, n), n, Div(s + c, n) - Div(s, n) - (if b == 0 then 0 else 1), 0);
  }

  /** The block count as computed from an unaligned head, an unaligned tail and the
      aligned sectors between them, whose number can be negative. */
  method BlockCount(ss: nat, n: nat, sector: nat, count: nat) returns (head: nat, tail: nat, sddfCount: int)
    requires Geometry(ss, n) && count < 0x7FFF_FFFF && sector + count <= 0x1_0000_0000
    ensures sddfCount == Blocks(n, sector, count)
    ensures head == 0 && tail == 0 <==> Mod(sector, n) == 0 && Mod(sector + count, n) == 0
  {
    hide Div, Mod;
    Counted(n, sector, count);
    sddfCount := 0;
    head := Mod(n - Mod(sector, n), n);
    tail := Mod(sector + count, n);
    if head != 0 {
      sddfCount := sddfCount + 1;
    }
    if tail != 0 {
      sddfCount := sddfCount + 1;
    }
    var aligned := Int32(count - head - tail);
    sddfCount := sddfCount + Div(aligned, n); // the arithmetic shift rounds down
  }

  /** A transfer of whole blocks' worth of sectors needs one block more than its
      size exactly if it starts within a block. */
  lemma BlocksOfWhole(n: nat, s: nat, m: nat)
    requires SmallPower(n)
    ensures Blocks(n, s, m * n) == m + if Mod(s, n) == 0 then 0 else 1
  {
    hide Div, Mod, SmallPower;
    Divided(s, n);
    RoundedUp(s + m * n, n);
    Quotient(s + m * n, n, Div(s, n) + m, Mod(s, n));
  }

  /** Sectors in bytes. */
  function Size(ss: nat, count: nat): nat {
    ss * count
  }

  lemma BytesOf(ss: nat, n: nat, s: nat)
    requires Geometry(ss, n) && SmallPower(n)
    ensures ss * s == TRANSFER * Div(s, n) + ss * Mod(s, n) && Mod(s, n) < n && Div(s, n) >= 0
    ensures ss * Mod(s, n) < TRANSFER && (Mod(s, n) == 0 <==> ss * Mod(s, n) == 0)
  {
    hide Div, Mod, SmallPower;
    Divided(s, n);
    if ss == 512 {
    } else if ss == 1024 {
    } else if ss == 2048 {
    }
  }

  /** Where the requested bytes lie in the transferred blocks. */
  lemma Placement(ss: nat, n: nat, s: nat, count: nat, disk: nat)
    requires Geometry(ss, n) && SmallPower(n) && disk % TRANSFER == 0 && Size(ss, s + count) <= disk
    ensures Div(s, n) >= 0 && TRANSFER * Div(s, n) + Size(ss, Mod(s, n)) == Size(ss, s)
    ensures Size(ss, s) + Size(ss, count) == Size(ss, s + count)
    ensures 0 <= Blocks(n, s, count) && Size(ss, Mod(s, n)) + Size(ss, count) <= TRANSFER * Blocks(n, s, count)
    ensures TRANSFER * Div(s, n) + TRANSFER * Blocks(n, s, count) <= disk
    ensures Mod(s, n) == 0 ==> Size(ss, Mod(s, n)) == 0
    ensures Mod(s, n) == 0 && Mod(s + count, n) == 0 ==> TRANSFER * Blocks(n, s, count) == Size(ss, count)
  {
    hide Div, Mod, SmallPower;
    BytesOf(ss, n, s);
    BytesOf(ss, n, s + count);
    RoundedUp(s + count, n);
    assert ss * (s + count) == ss * s + ss * count;
    hide Geometry;
  }

  /* ---- The device and the shared data region ---- */

  /** Bytes with a stretch of others put in at a position. */
  function Patched(a: seq<Byte>, at: nat, b: seq<Byte>): (r: seq<Byte>)
    requires at + |b| <= |a|
    ensures |r| == |a|
  {
    a[..at] + b + a[at + |b|..]
  }

  /** A stretch of bytes. */
  function Part(a: seq<Byte>, at: nat, len: nat): (r: seq<Byte>)
    requires at + len <= |a|
    ensures |r| == len
  {
    a[at..at + len]
  }

  /** memcpy. */
  method Copy(src: array<Byte>, from: nat, dst: array<Byte>, to: nat, len: nat)
    requires src != dst && from + len <= src.Length && to + len <= dst.Length
    modifies dst
    ensures dst[..] == Patched(old(dst[..]), to, Part(src[..], from, len))
  {
    forall k | 0 <= k < len {
      dst[to + k] := src[from + k];
    }
    ghost var was := old(dst[..]);
    assert dst[..] == was[..to] + src[..][from..from + len] + was[to + len..];
  }

  /** What was put in a stretch lies there. */
  lemma PatchedPart(a: seq<Byte>, at: nat, b: seq<Byte>, off: nat, n: nat)
    requires at + |b| <= |a| && off + n <= |b|
    ensures Part(Patched(a, at, b), at + off, n) == Part(b, off, n)
  {
    var r := Patched(a, at, b);
    forall k | 0 <= k < n
      ensures Part(r, at + off, n)[k] == Part(b, off, n)[k]
    {
      PatchedAt(a, at, b, at + off + k);
    }
  }

  lemma PartAt(a: seq<Byte>, at: nat, len: nat, k: nat)
    requires at + len <= |a| && k < len
    ensures Part(a, at, len)[k] == a[at + k]
  {
  }

  lemma PartPart(a: seq<Byte>, at: nat, len: nat, off: nat, n: nat)
    requires at + len <= |a| && off + n <= len
    ensures Part(Part(a, at, len), off, n) == Part(a, at + off, n)
  {
    forall k | 0 <= k < n
      ensures Part(Part(a, at, len), off, n)[k] == Part(a, at + off, n)[k]
    {
      PartAt(a, at, len, off + k);
    }
  }

  lemma WholePart(a: seq<Byte>)
    ensures Part(a, 0, |a|) == a
  {
  }

  /** Patching within a stretch, and putting a patched stretch back. */
  lemma PatchedInside(a: seq<Byte>, at: nat, len: nat, off: nat, b: seq<Byte>)
    requires at + len <= |a| && off + |b| <= len
    ensures Part(Patched(a, at + off, b), at, len) == Patched(Part(a, at, len), off, b)
    ensures Patched(a, at, Patched(Part(a, at, len), off, b)) == Patched(a, at + off, b)
  {
    var inner := Patched(Part(a, at, len), off, b);
    forall i | 0 <= i < len
      ensures Part(Patched(a, at + off, b), at, len)[i] == inner[i]
    {
      PatchedAt(a, at + off, b, at + i);
      PatchedAt(Part(a, at, len), off, b, i);
    }
    forall i | 0 <= i < |a|
      ensures Patched(a, at, inner)[i] == Patched(a, at + off, b)[i]
    {
      PatchedAt(a, at + off, b, i);
      PatchedAt(a, at, inner, i);
      if at <= i < at + len {
        PatchedAt(Part(a, at, len), off, b, i - at);
      }
    }
  }

  lemma PatchedAt(a: seq<Byte>, at: nat, b: seq<Byte>, i: nat)
    requires at + |b| <= |a| && i < |a|
    ensures Patched(a, at, b)[i] == if at <= i < at + |b| then b[i - at] else a[i]
  {
  }

  /** What a read puts into the buffer and a write onto the device, in bytes: sector s
      is the ss bytes from ss * s on. */
  lemma TransferBytes(disk: seq<Byte>, buff: seq<Byte>, ss: nat, sector: nat, count: nat)
    requires Size(ss, sector) + Size(ss, count) <= |disk| && Size(ss, count) <= |buff|
    ensures 0 <= ss * sector <= ss * sector + ss * count <= |disk| && ss * count <= |buff|
    ensures Patched(buff, 0, Part(disk, Size(ss, sector), Size(ss, count))) == disk[ss * sector..ss * sector + ss * count] + buff[ss * count..]
    ensures Patched(disk, Size(ss, sector), Part(buff, 0, Size(ss, count))) == disk[..ss * sector] + buff[..ss * count] + disk[ss * sector + ss * count..]
  {
  }

  class Disk {
    const ss: nat             // sector size
    const n: nat              // sectors per transfer block
    const slot: nat           // where the thread's part of the data region starts
    const maxCluster: nat     // and how long it is
    const disk: array<Byte>
    const data: array<Byte>

    ghost predicate Valid() {
      Geometry(ss, n) && SmallPower(n) && disk != data && disk.Length % TRANSFER == 0 && slot + maxCluster <= data.Length
    }

    constructor (ss: nat, n: nat, slot: nat, maxCluster: nat, disk: array<Byte>, data: array<Byte>)
      requires Geometry(ss, n) && disk != data && disk.Length % TRANSFER == 0 && slot + maxCluster <= data.Length
      ensures Valid() && this.ss == ss && this.n == n && this.slot == slot && this.maxCluster == maxCluster && this.disk == disk && this.data == data
    {
      this.ss, this.n, this.slot, this.maxCluster, this.disk, this.data := ss, n, slot, maxCluster, disk, data;
    }

    /** The sectors exist, and the transfer fits the thread's part of the data region
        (an assertion of the code). */
    ghost predicate InRange(sector: nat, count: nat)
      requires Valid()
    {
      && count < 0x7FFF_FFFF && sector + count <= 0x1_0000_0000 && Size(ss, sector + count) <= disk.Length
      && TRANSFER * Blocks(n, sector, count) <= maxCluster
    }

    /** A request to the device; one that fails moves no data. */
    method Request(write: bool, block: nat, count: nat, fail: bool) returns (ok: bool)
      requires Valid() && TRANSFER * count <= maxCluster && TRANSFER * block + TRANSFER * count <= disk.Length
      modifies disk, data
      ensures ok == !fail
      ensures disk[..] == if write && ok then Patched(old(disk[..]), TRANSFER * block, Part(old(data[..]), slot, TRANSFER * count)) else old(disk[..])
      ensures data[..] == if !write && ok then Patched(old(data[..]), slot, Part(old(disk[..]), TRANSFER * block, TRANSFER * count)) else old(data[..])
    {
      ok := !fail;
      if ok {
        if write {
          Copy(data, slot, disk, TRANSFER * block, TRANSFER * count);
        } else {
          Copy(disk, TRANSFER * block, data, slot, TRANSFER * count);
        }
      }
    }

    /** disk_read: exactly the requested sectors. */
    method DiskRead(buff: array<Byte>, sector: nat, count: nat, fail: bool) returns (ok: bool)
      requires Valid() && InRange(sector, count) && buff != disk && buff != data && Size(ss, count) <= buff.Length
      modifies buff, data, disk
      ensures ok == !fail && disk[..] == old(disk[..]) && Size(ss, sector) + Size(ss, count) <= disk.Length
      ensures ok ==> buff[..] == Patched(old(buff[..]), 0, Part(old(disk[..]), Size(ss, sector), Size(ss, count)))
    {
      Placement(ss, n, sector, count, disk.Length);
      hide Geometry, Div, Mod, Blocks, Size, Patched, Part;
      var sddfSector: nat := Div(sector, n);
      var head, tail, sddfCount := BlockCount(ss, n, sector, count);
      var off := Size(ss, Mod(sector, n));
      ghost var before := data[..];
      ok := Request(false, sddfSector, sddfCount, fail);
      Copy(data, slot + off, buff, 0, Size(ss, count));
      if ok {
        ghost var part := Part(disk[..], TRANSFER * sddfSector, TRANSFER * sddfCount);
        PatchedPart(before, slot, part, off, Size(ss, count));
        PartPart(disk[..], TRANSFER * sddfSector, TRANSFER * sddfCount, off, Size(ss, count));
      }
    }

    /** disk_write: the requested sectors change and nothing else does. */
    method DiskWrite(buff: array<Byte>, sector: nat, count: nat, failRead: bool, failWrite: bool) returns (ok: bool)
      requires Valid() && InRange(sector, count) && buff != disk && buff != data && Size(ss, count) <= buff.Length
      modifies disk, data
      ensures ok <==> !failWrite && !(failRead && ss != TRANSFER && (Mod(sector, n) != 0 || Mod(sector + count, n) != 0))
      ensures Size(ss, sector) + Size(ss, count) <= disk.Length
      ensures disk[..] == if ok then Patched(old(disk[..]), Size(ss, sector), Part(buff[..], 0, Size(ss, count))) else old(disk[..])
    {
      Placement(ss, n, sector, count, disk.Length);
      hide Geometry, Div, Mod, Blocks, Size, Patched, Part;
      if ss == TRANSFER {
        Single(ss, n, sector, count);
        ok := WriteWhole(buff, sector, count, failWrite);
      } else {
        var sddfSector: nat := Div(sector, n);
        var head, tail, sddfCount := BlockCount(ss, n, sector, count);
        if head == 0 && tail == 0 {
          ok := WriteWhole(buff, sddfSector, sddfCount, failWrite);
        } else {
          ok := ReadModifyWrite(buff, sddfSector, sddfCount, Size(ss, Mod(sector, n)), Size(ss, count), failRead, failWrite);
        }
      }
    }

    /** A write of whole blocks needs no read. */
    method WriteWhole(buff: array<Byte>, block: nat, count: nat, fail: bool) returns (ok: bool)
      requires Valid() && TRANSFER * count <= maxCluster && TRANSFER * block + TRANSFER * count <= disk.Length
      requires buff != disk && buff != data && TRANSFER * count <= buff.Length
      modifies disk, data
      ensures ok == !fail
      ensures disk[..] == if ok then Patched(old(disk[..]), TRANSFER * block, Part(buff[..], 0, TRANSFER * count)) else old(disk[..])
    {
      hide Geometry, Patched, Part;
      ghost var before, b := data[..], Part(buff[..], 0, TRANSFER * count);
      Copy(buff, 0, data, slot, TRANSFER * count);
      PatchedPart(before, slot, b, 0, TRANSFER * count);
      WholePart(b);
      ok := Request(true, block, count, fail);
    }

    /** Read the blocks, change the bytes within them, and write them. */
    method ReadModifyWrite(buff: array<Byte>, block: nat, count: nat, off: nat, len: nat, failRead: bool, failWrite: bool) returns (ok: bool)
      requires Valid() && TRANSFER * count <= maxCluster && TRANSFER * block + TRANSFER * count <= disk.Length
      requires buff != disk && buff != data && len <= buff.Length && off + len <= TRANSFER * count
      modifies disk, data
      ensures ok == (!failRead && !failWrite)
      ensures disk[..] == if ok then Patched(old(disk[..]), TRANSFER * block + off, Part(buff[..], 0, len)) else old(disk[..])
    {
      hide Geometry, Patched, Part;
      ghost var d, at, size, b, before := disk[..], TRANSFER * block, TRANSFER * count, Part(buff[..], 0, len), data[..];
      ok := Request(false, block, count, failRead);
      if !ok {
        return;
      }
      ghost var a := data[..];
      PatchedPart(before, slot, Part(d, at, size), 0, size);
      WholePart(Part(d, at, size));
      Copy(buff, 0, data, slot + off, len);
      PatchedInside(a, slot, size, off, b);
      PatchedInside(d, at, size, off, b);
      ok := Request(true, block, count, failWrite);
    }
  }

  lemma Single(ss: nat, n: nat, s: nat, count: nat)
    requires Geometry(ss, n) && ss == TRANSFER
    ensures n == 1 && Blocks(n, s, count) == count && Size(ss, s) == TRANSFER * s && Size(ss, count) == TRANSFER * count
  {
  }

  /** Read back after a write: the written sectors come from the buffer, the others
      are as before. */
  lemma SectorAfterWrite(disk: seq<Byte>, ss: nat, sector: nat, count: nat, b: seq<Byte>, k: nat)
    requires |b| == Size(ss, count) && Size(ss, sector) + |b| <= |disk| && Size(ss, k) + ss <= |disk|
    ensures sector <= k < sector + count ==> Size(ss, k - sector) + ss <= |b| && Part(Patched(disk, Size(ss, sector), b), Size(ss, k), ss) == Part(b, Size(ss, k - sector), ss)
    ensures !(sector <= k < sector + count) ==> Part(Patched(disk, Size(ss, sector), b), Size(ss, k), ss) == Part(disk, Size(ss, k), ss)
  {
    var r := Patched(disk, Size(ss, sector), b);
    if sector <= k < sector + count {
      Within(ss, k - sector, count);
      assert Size(ss, k) == Size(ss, sector) + Size(ss, k - sector);
      hide Size;
      PatchedPart(disk, Size(ss, sector), b, Size(ss, k - sector), ss);
    } else {
      if k < sector {
        Within(ss, k, sector);
      } else {
        Behind(ss, sector, count, k);
      }
      hide Size;
      forall i | 0 <= i < ss
        ensures Part(r, Size(ss, k), ss)[i] == Part(disk, Size(ss, k), ss)[i]
      {
        PatchedAt(disk, Size(ss, sector), b, Size(ss, k) + i);
      }
    }
  }

  lemma Within(ss: nat, k: nat, count: nat)
    requires k < count
    ensures Size(ss, k) + ss <= Size(ss, count)
  {
    assert ss * count == ss * k + ss + ss * (count - k - 1);
  }

  lemma Behind(ss: nat, sector: nat, count: nat, k: nat)
    requires sector + count <= k
    ensures Size(ss, sector) + Size(ss, count) <= Size(ss, k)
  {
    assert ss * k == ss * sector + ss * count + ss * (k - sector - count);
  }
}
