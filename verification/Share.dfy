/** The table of open objects: many readers or one writer for each. */
module Share {
  const LOCK: nat := 48
  const WRITER: nat := 0x100

  datatype Status = Ok | Locked | TooManyOpenFiles | IntErr

  /** A slot of Files[]; fs is 0 in a free one. */
  datatype Slot = Slot(fs: nat, clu: nat, ofs: nat, ctr: nat)

  /** A file or directory: its volume, and where its entry or its data is. */
  datatype Obj = Obj(fs: nat, clu: nat, ofs: nat)

  /** How an object is open. */
  datatype Mode = Readers(n: nat) | Writer

  function Key(s: Slot): Obj {
    Obj(s.fs, s.clu, s.ofs)
  }

  function Sem(m: Mode): nat {
    match m
    case Readers(n) => n
    case Writer => WRITER
  }

  predicate Proper(m: Mode) {
    m.Readers? ==> 1 <= m.n <= WRITER
  }

  /** The slots hold exactly the open objects, each once, with its semaphore value. */
  ghost predicate Tracks(q: seq<Slot>, open: map<Obj, Mode>) {
    && Distinct(q)
    && (forall i :: 0 <= i < |q| && q[i].fs != 0 ==> Key(q[i]) in open && q[i].ctr == Sem(open[Key(q[i])]))
    && (forall o :: o in open ==> o.fs != 0 && Proper(open[o]) && HasKey(q, o))
  }

  predicate HasKey(q: seq<Slot>, o: Obj) {
    exists i :: 0 <= i < |q| && Key(q[i]) == o
  }

  /** First slot of an object, or the length. */
  function Find(q: seq<Slot>, o: Obj): (i: nat)
    ensures i <= |q| && (i < |q| ==> Key(q[i]) == o) && forall k :: 0 <= k < i ==> Key(q[k]) != o
  {
    if q == [] || Key(q[0]) == o then 0 else
      var i := Find(q[1..], o);
      assert forall k :: 0 < k < i + 1 ==> q[k] == q[1..][k - 1];
      i + 1
  }

  predicate HasBlank(q: seq<Slot>) {
    exists i :: 0 <= i < |q| && q[i].fs == 0
  }

  /* ---- Room ---- */

  ghost predicate Distinct(q: seq<Slot>) {
    forall i, j :: 0 <= i < j < |q| && q[i].fs != 0 ==> Key(q[i]) != Key(q[j])
  }

  ghost function KeysTo(q: seq<Slot>, n: nat): set<Obj>
    requires n <= |q|
  {
    if n == 0 then {} else KeysTo(q, n - 1) + if q[n - 1].fs != 0 then {Key(q[n - 1])} else {}
  }

  lemma {:induction false} KeyIn(q: seq<Slot>, n: nat, o: Obj)
    requires n <= |q|
    ensures o in KeysTo(q, n) <==> exists i :: 0 <= i < n && q[i].fs != 0 && Key(q[i]) == o
  {
    if n > 0 {
      KeyIn(q, n - 1, o);
    }
  }

  lemma {:induction false} CountKeys(q: seq<Slot>, n: nat)
    requires Distinct(q) && n <= |q|
    ensures |KeysTo(q, n)| <= n && (|KeysTo(q, n)| == n <==> forall i :: 0 <= i < n ==> q[i].fs != 0)
  {
    if n > 0 {
      CountKeys(q, n - 1);
      KeyIn(q, n - 1, Key(q[n - 1]));
    }
  }

  /** There is a free slot exactly if fewer objects are open than there are slots. */
  lemma RoomIff(q: seq<Slot>, open: map<Obj, Mode>)
    requires Tracks(q, open)
    ensures HasBlank(q) <==> |open| < |q|
  {
    CountKeys(q, |q|);
    forall o
      ensures o in KeysTo(q, |q|) <==> o in open.Keys
    {
      KeyIn(q, |q|, o);
    }
    assert KeysTo(q, |q|) == open.Keys;
  }

  /* ---- Sharing as it is meant ---- */

  /** May the object be opened (acc 0 for reading, 1 for writing) or, with 2, deleted? */
  function Allowed(open: map<Obj, Mode>, o: Obj, acc: nat): Status {
    if o in open then
      if acc != 0 || open[o] == Writer then Locked else Ok
    else if acc != 2 && |open| >= 48 then TooManyOpenFiles else Ok
  }

  /** What is granted is never in conflict with what is open, and nothing is refused
      without need: an open object is neither written nor deleted, one that is written is
      not read, and only a new object needs one of the 48 slots. */
  lemma AllowedRightly(open: map<Obj, Mode>, o: Obj, acc: nat)
    requires acc <= 2
    ensures Allowed(open, o, acc) == Ok <==>
              if acc == 2 then o !in open
              else if acc == 1 then o !in open && |open| < 48
              else if o in open then open[o].Readers? else |open| < 48
    ensures Allowed(open, o, acc) == Locked <==> o in open && (acc >= 1 || open[o].Writer?)
  {
  }

  function Opened(open: map<Obj, Mode>, o: Obj, acc: nat): map<Obj, Mode> {
    open[o := if acc != 0 then Writer else Readers(if o in open && open[o].Readers? then open[o].n + 1 else 1)]
  }

  function Closed(open: map<Obj, Mode>, o: Obj): map<Obj, Mode> {
    if o in open && open[o].Readers? && open[o].n > 1 then open[o := Readers(open[o].n - 1)] else open - {o}
  }

  /** Closing undoes a permitted opening. */
  lemma CloseUndoesOpen(open: map<Obj, Mode>, o: Obj, acc: nat)
    requires acc <= 1 && Allowed(open, o, acc) == Ok && (o in open ==> Proper(open[o]))
    ensures Closed(Opened(open, o, acc), o) == open
  {
  }

  /* ---- Sharing as it is coded: the value for a writer is also that for 256 readers ---- */

  predicate Overflown(open: map<Obj, Mode>, o: Obj) {
    o in open && open[o] == Readers(256)
  }

  function CodeAllowed(open: map<Obj, Mode>, o: Obj, acc: nat): Status {
    if Overflown(open, o) then Locked else Allowed(open, o, acc)
  }

  function CodeClosed(open: map<Obj, Mode>, o: Obj): map<Obj, Mode> {
    if Overflown(open, o) then open - {o} else Closed(open, o)
  }

  datatype Event = Open(o: Obj, acc: nat) | Close(o: Obj)

  function Step(open: map<Obj, Mode>, e: Event): map<Obj, Mode> {
    match e
    case Open(o, acc) => if acc <= 1 && Allowed(open, o, acc) == Ok then Opened(open, o, acc) else open
    case Close(o) => Closed(open, o)
  }

  function CodeStep(open: map<Obj, Mode>, e: Event): map<Obj, Mode> {
    match e
    case Open(o, acc) => if acc <= 1 && CodeAllowed(open, o, acc) == Ok then Opened(open, o, acc) else open
    case Close(o) => CodeClosed(open, o)
  }

  /** The state after the first n events. */
  function Run(es: seq<Event>, n: nat): map<Obj, Mode>
    requires n <= |es|
  {
    if n == 0 then map[] else Step(Run(es, n - 1), es[n - 1])
  }

  function CodeRun(es: seq<Event>, n: nat): map<Obj, Mode>
    requires n <= |es|
  {
    if n == 0 then map[] else CodeStep(CodeRun(es, n - 1), es[n - 1])
  }

  /** One event is handled as it is meant to exactly if its object has fewer than
      256 readers, or it is an open for writing, which is refused anyway. */
  lemma StepsAgree(open: map<Obj, Mode>, e: Event)
    ensures CodeStep(open, e) == Step(open, e) <==> !(Overflown(open, e.o) && (e.Close? || e.acc == 0))
  {
    if Overflown(open, e.o) && e.Open? && e.acc == 0 {
      assert Opened(open, e.o, 0)[e.o] == Readers(WRITER + 1);
    }
    if Overflown(open, e.o) && e.Close? {
      assert e.o in Closed(open, e.o);
    }
  }

  /** A run in which no object ever has 256 readers goes as it is meant to. */
  lemma {:induction false} RunsAgree(es: seq<Event>, n: nat)
    requires n <= |es| && forall k: nat, o :: k <= n ==> !Overflown(Run(es, k), o)
    ensures CodeRun(es, n) == Run(es, n)
  {
    hide Overflown, Step, CodeStep;
    if n > 0 {
      RunsAgree(es, n - 1);
      StepsAgree(Run(es, n - 1), es[n - 1]);
    }
  }

  function Reads(o: Obj, n: nat): seq<Event> {
    seq(n, _ => Open(o, 0))
  }

  lemma {:induction false} ManyReaders(es: seq<Event>, o: Obj, n: nat)
    requires n <= |es| && n <= WRITER && forall i :: 0 <= i < n ==> es[i] == Open(o, 0)
    ensures CodeRun(es, n) == Run(es, n) == if n == 0 then map[] else map[o := Readers(n)]
  {
    if n > 0 {
      ManyReaders(es, o, n - 1);
    }
  }

  /** 256 readers, of which one leaves, do not keep a writer out. */
  lemma ReadersAndWriter(o: Obj)
    ensures var es := Reads(o, 256) + [Close(o), Open(o, 1)];
            CodeRun(es, |es|) == map[o := Writer] && Run(es, |es|) == map[o := Readers(255)]
  {
    var es := Reads(o, WRITER) + [Close(o), Open(o, 1)];
    ManyReaders(es, o, WRITER);
    assert es[WRITER] == Close(o) && es[WRITER + 1] == Open(o, 1);
    var m: map<Obj, Mode> := map[o := Readers(WRITER)];
    assert CodeStep(m, Close(o)) == map[] && Step(m, Close(o)) == map[o := Readers(WRITER - 1)];
    assert CodeRun(es, WRITER + 1) == map[] && Run(es, WRITER + 1) == map[o := Readers(WRITER - 1)];
  }

  class Table {
    const files: array<Slot>
    ghost var open: map<Obj, Mode>

    ghost predicate Valid()
      reads this, files
    {
      files.Length == LOCK && Tracks(files[..], open)
    }

    constructor ()
      ensures Valid() && open == map[] && fresh(files)
    {
      files := new Slot[LOCK](_ => Slot(0, 0, 0, 0));
      open := map[];
    }

    /** chk_share. */
    method ChkShare(o: Obj, acc: nat) returns (res: Status)
      requires Valid() && o.fs != 0 && acc <= 2
      ensures res == CodeAllowed(open, o, acc)
    {
      RoomIff(files[..], open);
      var blank, i: nat := false, 0;
      while i < LOCK
        invariant i <= LOCK && forall k :: 0 <= k < i ==> Key(files[k]) != o
        invariant blank <==> exists k :: 0 <= k < i && files[..][k].fs == 0
      {
        if files[i].fs != 0 {
          if files[i].fs == o.fs && files[i].clu == o.clu && files[i].ofs == o.ofs {
            break;
          }
        } else {
          blank := true;
          assert files[..][i].fs == 0;
        }
        i := i + 1;
      }
      if i == LOCK {
        assert forall k :: 0 <= k < LOCK ==> Key(files[..][k]) != o;
        return if !blank && acc != 2 then TooManyOpenFiles else Ok;
      }
      assert Key(files[..][i]) == o;
      return if acc != 0 || files[i].ctr == WRITER then Locked else Ok;
    }

    /** enq_share. */
    method EnqShare() returns (room: bool)
      requires Valid()
      ensures room <==> |open| < LOCK
    {
      RoomIff(files[..], open);
      var i := FreeSlot();
      return i != LOCK;
    }

    /** The object's semaphore has the value that marks a writer. */
    ghost predicate Marked(o: Obj)
      reads `open
    {
      o in open && Sem(open[o]) == WRITER
    }

    /** inc_share.  It is for chk_share to refuse a read open of a marked object:
        here it would count the mark up. */
    method IncShare(o: Obj, acc: nat) returns (id: nat)
      requires Valid() && o.fs != 0 && acc <= 1
      modifies files, `open
      ensures id == 0 <==> if o in old(open) then acc == 1 else |old(open)| >= LOCK
      ensures id == 0 ==> files[..] == old(files[..]) && open == old(open)
      ensures id != 0 ==> id <= LOCK && Key(files[id - 1]) == o
      ensures id != 0 && acc == 0 && old(Marked(o)) ==>
                files[..] == old(files[..])[id - 1 := Slot(o.fs, o.clu, o.ofs, WRITER + 1)] && open == old(open)
      ensures id != 0 && !(acc == 0 && old(Marked(o))) ==> open == Opened(old(open), o, acc)
      ensures !(acc == 0 && old(Marked(o))) ==> Valid()
    {
      ghost var q := files[..];
      RoomIff(q, open);
      Seen(q, open, o);
      hide Tracks, Opened;
      var i: nat := 0;
      while i < LOCK && !(files[i].fs == o.fs && files[i].clu == o.clu && files[i].ofs == o.ofs)
        invariant i <= LOCK && forall k :: 0 <= k < i ==> Key(q[k]) != o
      {
        i := i + 1;
      }
      assert i < LOCK ==> Key(q[i]) == o;
      if i == LOCK {
        i := FreeSlot();
        if i == LOCK {
          return 0;
        }
        files[i] := Slot(o.fs, o.clu, o.ofs, 0);
      } else {
        CtrPositive(q, open, i);
      }
      if acc >= 1 && files[i].ctr != 0 {
        return 0;
      }
      Count(o, acc, i, q);
      return i + 1;
    }

    /** Set the semaphore value of the object in slot i; q are the slots before. */
    method Count(o: Obj, acc: nat, i: nat, ghost q: seq<Slot>)
      requires Tracks(q, open) && o.fs != 0 && acc <= 1 && files.Length == LOCK == |q| && i < LOCK && (acc >= 1 ==> o !in open)
      requires if o in open then Key(q[i]) == o else q[i].fs == 0
      requires files[..] == q[i := Slot(o.fs, o.clu, o.ofs, if o in open then q[i].ctr else 0)]
      modifies files, `open
      ensures Key(files[i]) == o
      ensures acc == 0 && old(Marked(o)) ==> files[..] == q[i := Slot(o.fs, o.clu, o.ofs, WRITER + 1)] && open == old(open)
      ensures !(acc == 0 && old(Marked(o))) ==> open == Opened(old(open), o, acc) && Valid()
    {
      CtrOf(q, open, o, i);
      hide Tracks, Opened, Sem;
      assert files[i] == files[..][i];
      files[i] := files[i].(ctr := if acc != 0 then WRITER else files[i].ctr + 1);
      assert files[..] == q[i := files[i]];
      if !(acc == 0 && Marked(o)) {
        NotMarked(o);
        Registered(q, open, o, acc, i);
        open := Opened(open, o, acc);
      }
    }

    lemma NotMarked(o: Obj)
      requires !Marked(o)
      ensures o in open ==> open[o] != Writer && !Overflown(open, o)
    {
    }

    method FreeSlot() returns (i: nat)
      requires files.Length == LOCK
      ensures i <= LOCK && (i < LOCK ==> files[i].fs == 0) && (i == LOCK <==> !HasBlank(files[..]))
    {
      i := 0;
      while i < LOCK && files[i].fs != 0
        invariant i <= LOCK && forall k :: 0 <= k < i ==> files[..][k].fs != 0
      {
        i := i + 1;
      }
      assert i < LOCK ==> files[..][i].fs == 0;
    }

    /** dec_share; on a free slot it changes nothing that counts. */
    method DecShare(id: nat) returns (res: Status)
      requires Valid()
      modifies files, `open
      ensures Valid()
      ensures res == (if 1 <= id <= LOCK then Ok else IntErr)
      ensures open == if res == Ok && old(files[id - 1].fs) != 0 then CodeClosed(old(open), old(Key(files[id - 1]))) else old(open)
    {
      if id == 0 || id - 1 >= LOCK {
        return IntErr;
      }
      var i: nat := id - 1;
      ghost var q := files[..];
      var n: nat := files[i].ctr;
      if n == WRITER {
        n := 0;
      }
      if n > 0 {
        n := n - 1;
      }
      files[i] := files[i].(ctr := n);
      if n == 0 {
        files[i] := files[i].(fs := 0);
      }
      assert files[..] == q[i := files[i]];
      if q[i].fs == 0 {
        StillFree(q, open, i, n);
      } else {
        Released(q, open, i);
        open := CodeClosed(open, Key(q[i]));
      }
      return Ok;
    }

    /** clear_share. */
    method ClearShare(fs: nat)
      requires Valid() && fs != 0
      modifies files, `open
      ensures Valid() && open == map o | o in old(open) && o.fs != fs :: old(open)[o]
    {
      for i := 0 to LOCK
        modifies files
        invariant forall k :: 0 <= k < i ==> files[k] == if old(files[k]).fs == fs then old(files[k]).(fs := 0) else old(files[k])
        invariant forall k :: i <= k < LOCK ==> files[k] == old(files[k])
      {
        if files[i].fs == fs {
          files[i] := files[i].(fs := 0);
        }
      }
      hide Tracks;
      Cleared(old(files[..]), open, fs, files[..]);
      open := map o | o in open && o.fs != fs :: open[o];
    }

    /** The calls that f_open makes: exactly the permitted opens are granted. */
    method OpenObject(o: Obj, acc: nat) returns (res: Status, id: nat)
      requires Valid() && o.fs != 0 && acc <= 1
      modifies files, `open
      ensures Valid() && res == CodeAllowed(old(open), o, acc) && open == CodeStep(old(open), Open(o, acc))
      ensures if res == Ok then 1 <= id <= LOCK && Key(files[id - 1]) == o else id == 0
    {
      id := 0;
      res := ChkShare(o, acc);
      if res == Ok {
        id := IncShare(o, acc);
      }
    }
  }

  lemma Seen(q: seq<Slot>, open: map<Obj, Mode>, o: Obj)
    requires Tracks(q, open) && o.fs != 0
    ensures o in open <==> HasKey(q, o)
  {
  }

  lemma CtrOf(q: seq<Slot>, open: map<Obj, Mode>, o: Obj, i: nat)
    requires Tracks(q, open) && i < |q| && o.fs != 0 && (o in open ==> Key(q[i]) == o)
    ensures o in open ==> q[i].ctr == Sem(open[o])
  {
  }

  lemma CtrPositive(q: seq<Slot>, open: map<Obj, Mode>, i: nat)
    requires Tracks(q, open) && i < |q| && q[i].fs != 0
    ensures q[i].ctr > 0
  {
  }

  lemma Registered(q: seq<Slot>, open: map<Obj, Mode>, o: Obj, acc: nat, i: nat)
    requires Tracks(q, open) && o.fs != 0 && acc <= 1 && i < |q| && (o in open ==> acc == 0 && open[o] != Writer && !Overflown(open, o))
    requires if o in open then Key(q[i]) == o else q[i].fs == 0
    ensures Tracks(q[i := Slot(o.fs, o.clu, o.ofs, if acc != 0 then WRITER else if o in open then q[i].ctr + 1 else 1)], Opened(open, o, acc))
  {
    var slot := Slot(o.fs, o.clu, o.ofs, if acc != 0 then WRITER else if o in open then q[i].ctr + 1 else 1);
    KeysKept(q, open, slot, i);
    hide Distinct, HasKey;
  }

  /** Another object in a free slot, or the same in its own. */
  lemma KeysKept(q: seq<Slot>, open: map<Obj, Mode>, slot: Slot, i: nat)
    requires Tracks(q, open) && i < |q| && slot.fs != 0
    requires if Key(slot) in open then Key(q[i]) == Key(slot) else q[i].fs == 0
    ensures Distinct(q[i := slot]) && HasKey(q[i := slot], Key(slot)) && forall p :: p in open ==> HasKey(q[i := slot], p)
  {
    var q' := q[i := slot];
    assert Key(q'[i]) == Key(slot);
    forall p | p in open
      ensures HasKey(q', p)
    {
      var k :| 0 <= k < |q| && Key(q[k]) == p;
      assert Key(q'[k]) == p;
    }
  }

  lemma Released(q: seq<Slot>, open: map<Obj, Mode>, i: nat)
    requires Tracks(q, open) && i < |q| && q[i].fs != 0
    ensures var n := if q[i].ctr == WRITER then 0 else q[i].ctr - 1;
            n >= 0 && Tracks(q[i := q[i].(ctr := n, fs := if n == 0 then 0 else q[i].fs)], CodeClosed(open, Key(q[i])))
  {
    var n := if q[i].ctr == WRITER then 0 else q[i].ctr - 1;
    var o, q' := Key(q[i]), q[i := q[i].(ctr := n, fs := if n == 0 then 0 else q[i].fs)];
    forall p | p in CodeClosed(open, o)
      ensures HasKey(q', p)
    {
      var k :| 0 <= k < |q| && Key(q[k]) == p;
      assert Key(q'[k]) == p;
    }
  }

  lemma StillFree(q: seq<Slot>, open: map<Obj, Mode>, i: nat, n: nat)
    requires Tracks(q, open) && i < |q| && q[i].fs == 0
    ensures Tracks(q[i := q[i].(ctr := n, fs := 0)], open)
  {
    var q' := q[i := q[i].(ctr := n, fs := 0)];
    forall p | p in open
      ensures HasKey(q', p)
    {
      var k :| 0 <= k < |q| && Key(q[k]) == p;
      assert Key(q'[k]) == p;
    }
  }

  lemma Cleared(q: seq<Slot>, open: map<Obj, Mode>, fs: nat, q': seq<Slot>)
    requires Tracks(q, open) && fs != 0 && |q'| == |q|
    requires forall k :: 0 <= k < |q| ==> q'[k] == if q[k].fs == fs then q[k].(fs := 0) else q[k]
    ensures Tracks(q', map o | o in open && o.fs != fs :: open[o])
  {
    forall p | p in open && p.fs != fs
      ensures HasKey(q', p)
    {
      var k :| 0 <= k < |q| && Key(q[k]) == p;
      assert Key(q'[k]) == p;
    }
  }
}
