/** A directory byte by byte, as another system would write it. */
module LfnExample {
  import opened Lfn

  /** n equal bytes. */
  function Times(n: nat, x: Byte): (b: seq<Byte>)
    ensures |b| == n
  {
    seq(n, _ => x)
  }

  /** A volume label, the entry of the directory itself, a deleted file, and the file
      readme.markdown with its long name in two parts and its short name README~1.MAR. */
  const LABEL: Entry := [0x4C, 0x49, 0x4F, 0x4E, 0x53] + Times(6, 0x20) + [0x08] + Times(20, 0)
  const ITSELF: Entry := [0x2E] + Times(10, 0x20) + [0x10] + Times(20, 0)
  const GONE: Entry := [0xE5, 0x4C, 0x44] + Times(5, 0x20) + [0x54, 0x58, 0x54, 0x20] + Times(20, 0)
  const PART2: Entry := [0x42] + ([0x77, 0, 0x6E, 0, 0, 0] + Times(4, 0xFF)) + [0x0F, 0, 0x9C] + Times(12, 0xFF) + [0, 0] + Times(4, 0xFF)
  const PART1: Entry := [0x01] + README + [0x0F, 0, 0x9C] + MARK + [0, 0] + DO
  const README: seq<Byte> := [0x72, 0, 0x65, 0, 0x61, 0, 0x64, 0, 0x6D, 0]
  const MARK: seq<Byte> := [0x65, 0, 0x2E, 0, 0x6D, 0, 0x61, 0, 0x72, 0, 0x6B, 0]
  const DO: seq<Byte> := [0x64, 0, 0x6F, 0]
  const NAME11: seq<Byte> := [0x52, 0x45, 0x41, 0x44, 0x4D, 0x45, 0x7E, 0x31, 0x4D, 0x41, 0x52]
  const SHORT: Entry := NAME11 + [0x20] + Times(20, 0)
  const END: Entry := Times(32, 0)

  const DIRECTORY: seq<Entry> := [LABEL, ITSELF, GONE, PART2, PART1, SHORT, END]
  const NAME: seq<Unit> := [0x72, 0x65, 0x61, 0x64, 0x6D, 0x65, 0x2E, 0x6D, 0x61, 0x72, 0x6B, 0x64, 0x6F, 0x77, 0x6E]

  lemma SumNext(e: Entry, n: nat, sum: Byte)
    requires n < 11 && SumTo(e, n) == sum
    ensures SumTo(e, n + 1) == (sum / 2 + sum % 2 * 0x80 + e[n]) % 0x100
  {
  }

  lemma ShortBytes()
    ensures SHORT[..11] == NAME11 && SHORT[11] == 0x20
  {
  }

  lemma ShortSum()
    ensures Checksum(SHORT) == 0x9C
  {
    ShortBytes();
    hide SumTo, SHORT;
    SumNone(SHORT);
    assert forall n :: 0 <= n < 11 ==> SHORT[n] == SHORT[..11][n];
    SumNext(SHORT, 0, 0);
    SumNext(SHORT, 1, 0x52);
    SumNext(SHORT, 2, 0x6E);
    SumNext(SHORT, 3, 0x78);
    SumNext(SHORT, 4, 0x80);
    SumNext(SHORT, 5, 0x8D);
    SumNext(SHORT, 6, 0x0B);
    SumNext(SHORT, 7, 0x03);
    SumNext(SHORT, 8, 0xB2);
    SumNext(SHORT, 9, 0xA6);
    SumNext(SHORT, 10, 0x94);
  }

  lemma SumNone(e: Entry)
    ensures SumTo(e, 0) == 0
  {
  }

  lemma Part1Area()
    ensures NameArea(PART1) == README + MARK + DO
    ensures PART1[0] == 0x01 && PART1[11] == 0x0F && PART1[12] == 0 && PART1[13] == 0x9C && PART1[26] == 0 && PART1[27] == 0
  {
    assert PART1[1..11] == README && PART1[14..26] == MARK && PART1[28..32] == DO;
  }

  lemma Part2Area()
    ensures NameArea(PART2) == [0x77, 0, 0x6E, 0, 0, 0] + Times(20, 0xFF)
    ensures PART2[0] == 0x42 && PART2[11] == 0x0F && PART2[12] == 0 && PART2[13] == 0x9C && PART2[26] == 0 && PART2[27] == 0
  {
    assert PART2[1..11] == [0x77, 0, 0x6E, 0, 0, 0] + Times(4, 0xFF) && PART2[14..26] == Times(12, 0xFF) && PART2[28..32] == Times(4, 0xFF);
    assert Times(4, 0xFF) + Times(12, 0xFF) + Times(4, 0xFF) == Times(20, 0xFF);
  }

  lemma Part1Is()
    ensures IsPart(PART1, NAME, 1, 0x9C)
  {
    Part1Area();
    hide NameArea, PART1;
  }

  lemma Part2Is()
    ensures IsPart(PART2, NAME, 2, 0x9C)
  {
    Part2Area();
    hide NameArea, PART2;
  }

  lemma Markers()
    ensures LABEL[0] == 0x4C && LABEL[11] == 0x08 && ITSELF[0] == 0x2E && ITSELF[11] == 0x10 && GONE[0] == 0xE5
    ensures PART2[0] == 0x42 && PART2[11] == 0x0F && PART1[0] == 0x01 && PART1[11] == 0x0F
    ensures SHORT[0] == 0x52 && SHORT[11] == 0x20
  {
    Part1Area();
    Part2Area();
    hide NameArea;
  }

  lemma NameIsStored()
    ensures Name(NAME) && Stored(DIRECTORY, 5, NAME, 0x9C)
  {
    Part1Is();
    Part2Is();
    hide IsPart, PART1, PART2, LABEL, ITSELF, GONE, SHORT, END;
  }

  lemma OneFile(k: nat)
    ensures FirstLive(DIRECTORY, 0, 5, false)
    ensures FirstLive(DIRECTORY, 0, k, false) ==> k == 5
  {
    Markers();
    hide PART1, PART2, LABEL, ITSELF, GONE, SHORT, END;
  }

  /** dir_read finds the file and its long name. */
  method List(lfn: array<Unit>) returns (found: bool, at: nat, blk: int)
    requires lfn.Length == 256
    modifies lfn
    ensures found && at == 5 && blk == 3 && lfn[..16] == NAME + [0]
  {
    hide PART1, PART2, LABEL, ITSELF, GONE, SHORT, END, DIRECTORY, Run, Fits, Captured, SumTo, IsPart, FirstLive;
    NameIsStored();
    ShortSum();
    OneFile(0);
    found, at, blk := DirRead(lfn, DIRECTORY, 0, false);
    OneFile(at);
    SumOfShort(at);
    StoredIsRead(DIRECTORY, 0, 5, NAME, 0x9C);
    RunUnique(DIRECTORY, 0, 5, at - blk, 0, 0x9C, 2, 0, 0x9C, Reads(false));
    StoredCaptured(lfn[..], DIRECTORY, 5, NAME, 0x9C);
    assert lfn[..16] == NAME + [0];
  }

  lemma SumOfShort(at: nat)
    ensures |DIRECTORY| == 7 && (at == 5 ==> Checksum(DIRECTORY[at]) == 0x9C)
  {
    ShortSum();
    hide PART1, PART2, LABEL, ITSELF, GONE, SHORT, END;
  }

  /** Upper case for the letters a to z. */
  function Upper(c: Unit): Unit {
    if 0x61 <= c <= 0x7A then c - 0x20 else c
  }

  const ASKED: seq<Unit> := [0x52, 0x65, 0x61, 0x64, 0x4D, 0x65, 0x2E, 0x4D, 0x61, 0x72, 0x6B, 0x44, 0x6F, 0x77, 0x6E]

  lemma NoHitBefore(buf: seq<Unit>, fn: seq<Byte>, j: nat)
    requires j < 5
    ensures j < |DIRECTORY| && DIRECTORY[j][0] != 0 && !Hit(Upper, buf, fn, false, true, DIRECTORY, j)
  {
    Markers();
    hide PART1, PART2, LABEL, ITSELF, GONE, SHORT, END, Matches;
  }

  lemma FileHit()
    ensures FileEntry(DIRECTORY[5]) && DIRECTORY[5][0] != 0
  {
    Markers();
    hide PART1, PART2, LABEL, ITSELF, GONE, SHORT, END;
  }

  lemma AskedFolds()
    ensures Folds(Upper) && SameFolded(Upper, NAME, ASKED)
  {
  }

  /** dir_find finds it by ReadMe.MarkDown. */
  method Find(lfn: array<Unit>, fn: seq<Byte>) returns (found: bool, at: nat)
    requires lfn.Length == 256 && |fn| == 11 && Holds(lfn[..], ASKED)
    ensures found && at == 5
  {
    hide PART1, PART2, LABEL, ITSELF, GONE, SHORT, END, DIRECTORY, Run, SumTo, IsPart, Hit, Matches, LongName, Accepts;
    NameIsStored();
    SumOfShort(5);
    AskedFolds();
    StoredIsFound(Upper, lfn[..], DIRECTORY, 0, 5, NAME, 0x9C, ASKED);
    FileHit();
    HitAt(lfn[..], fn);
    forall j: nat | j < 5
      ensures DIRECTORY[j][0] != 0 && !Hit(Upper, lfn[..], fn, false, true, DIRECTORY, j)
    {
      NoHitBefore(lfn[..], fn, j);
    }
    assert FirstHit(Upper, lfn[..], fn, false, true, DIRECTORY, 5);
    hide FirstHit;
    found, at := DirFind(Upper, lfn, fn, false, true, DIRECTORY);
    OneHit(lfn[..], fn, at);
  }

  lemma OneHit(buf: seq<Unit>, fn: seq<Byte>, at: nat)
    requires FirstHit(Upper, buf, fn, false, true, DIRECTORY, 5)
    ensures FirstHit(Upper, buf, fn, false, true, DIRECTORY, at) ==> at == 5
  {
    hide DIRECTORY, Hit;
  }

  lemma HitAt(buf: seq<Unit>, fn: seq<Byte>)
    requires |DIRECTORY| == 7 && FileEntry(DIRECTORY[5]) && Checksum(DIRECTORY[5]) == 0x9C
    requires LongName(DIRECTORY, 0, 5, 0x9C, Accepts(Upper, buf, false))
    ensures Hit(Upper, buf, fn, false, true, DIRECTORY, 5)
  {
    hide DIRECTORY, LongName, Accepts, SumTo;
  }
}
