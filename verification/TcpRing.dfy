/** The receive side of a TCP socket: a ring of bytes that the network stack's
    callback fills and reads drain. */
module TcpRing {
  type Byte = x: nat | x < 0x100

  const SOCKET_BUF_SIZE: nat := 0x20_0000

  datatype State = Unallocated | Allocated | Connected | Closing | ClosedByPeer

  /** A pbuf chain as the bytes in it, or the null pointer that ends a stream. */
  datatype Pbuf = Null | Pbuf(bytes: seq<Byte>)

  datatype Outcome = Accepted | NoMemory

  datatype Received = Copied(n: nat) | NotConnected | Again | Blocked

  /** Where byte i of the ring lies. */
  function Place(head: nat, i: nat): nat {
    if head + i < SOCKET_BUF_SIZE then head + i else head + i - SOCKET_BUF_SIZE
  }

  lemma PlaceIsModulo(head: nat, i: nat)
    requires head < SOCKET_BUF_SIZE && i <= SOCKET_BUF_SIZE
    ensures Place(head, i) == (head + i) % SOCKET_BUF_SIZE < SOCKET_BUF_SIZE
  {
  }

  predicate Shape(buf: seq<Byte>, head: nat, len: nat) {
    |buf| == SOCKET_BUF_SIZE && head < SOCKET_BUF_SIZE && len <= SOCKET_BUF_SIZE
  }

  /** The unread bytes, oldest first. */
  function Unread(buf: seq<Byte>, head: nat, len: nat): (r: seq<Byte>)
    requires Shape(buf, head, len)
    ensures |r| == len
  {
    seq(len, i requires 0 <= i < len => buf[Place(head, i)])
  }

  /** A stretch written behind the unread bytes, up to the end of the buffer or to
      the oldest byte, is appended to them. */
  lemma Append(buf: seq<Byte>, head: nat, len: nat, chunk: seq<Byte>, buf': seq<Byte>)
    requires Shape(buf, head, len) && len + |chunk| <= SOCKET_BUF_SIZE && |buf'| == |buf|
    requires Place(head, len) + |chunk| <= SOCKET_BUF_SIZE
    requires forall k :: 0 <= k < |buf| ==> buf'[k] == if Place(head, len) <= k < Place(head, len) + |chunk| then chunk[k - Place(head, len)] else buf[k]
    ensures Unread(buf', head, len + |chunk|) == Unread(buf, head, len) + chunk
  {
    var all := Unread(buf', head, len + |chunk|);
    forall i | 0 <= i < len + |chunk|
      ensures all[i] == (Unread(buf, head, len) + chunk)[i]
    {
      assert all[i] == buf'[Place(head, i)];
    }
  }

  /** Moving the head on drops the oldest bytes. */
  lemma Drop(buf: seq<Byte>, head: nat, len: nat, n: nat)
    requires Shape(buf, head, len) && n <= len && head + n <= SOCKET_BUF_SIZE
    ensures Place(head, n) < SOCKET_BUF_SIZE && Unread(buf, Place(head, n), len - n) == Unread(buf, head, len)[n..]
    ensures buf[head..head + n] == Unread(buf, head, len)[..n]
  {
    forall i | 0 <= i < len - n
      ensures Unread(buf, Place(head, n), len - n)[i] == Unread(buf, head, len)[n..][i]
    {
    }
  }

  function Min(a: nat, b: nat): nat {
    if a <= b then a else b
  }

  function Max(a: nat, b: nat): nat {
    if a <= b then b else a
  }

  /** What a reader with an empty ring waits for: bytes that fit, or the end. */
  predicate Wakes(p: Pbuf) {
    p.Null? || 0 < |p.bytes| <= 0x20_0000
  }

  predicate NoneWakes(ps: seq<Pbuf>) {
    forall p :: p in ps ==> !Wakes(p)
  }

  class Socket {
    var state: State
    const rxBuf: array<Byte>
    var rxHead: nat
    var rxLen: nat
    ghost var accepted: seq<Byte>   // all bytes accepted on this connection
    ghost var returned: seq<Byte>   // all bytes that reads returned

    /** What was returned is a prefix of what was accepted, and the ring is the rest. */
    ghost predicate Valid()
      reads this, rxBuf
    {
      Shape(rxBuf[..], rxHead, rxLen) && accepted == returned + Unread(rxBuf[..], rxHead, rxLen)
    }

    constructor ()
      ensures Valid() && fresh(rxBuf) && state == Connected && accepted == returned == []
    {
      state := Connected;
      rxBuf := new Byte[SOCKET_BUF_SIZE](_ => 0);
      rxHead, rxLen, accepted, returned := 0, 0, [], [];
    }

    /** pbuf_copy_partial into the buffer. */
    method CopyIn(p: seq<Byte>, from: nat, to: nat, n: nat)
      requires from + n <= |p| && to + n <= rxBuf.Length
      modifies rxBuf
      ensures forall k :: 0 <= k < rxBuf.Length ==> rxBuf[k] == if to <= k < to + n then p[from + (k - to)] else old(rxBuf[k])
    {
      forall i | 0 <= i < n {
        rxBuf[to + i] := p[from + i];
      }
    }

    /** The copy loop of socket_recv_callback. */
    method Fill(p: seq<Byte>)
      requires Shape(rxBuf[..], rxHead, rxLen) && rxLen + |p| <= SOCKET_BUF_SIZE
      modifies `rxLen, rxBuf
      ensures Shape(rxBuf[..], rxHead, rxLen) && rxLen == old(rxLen) + |p|
      ensures Unread(rxBuf[..], rxHead, rxLen) == old(Unread(rxBuf[..], rxHead, rxLen)) + p
    {
      hide Unread;
      var copied: nat, remaining: nat := 0, |p|;
      ghost var before := Unread(rxBuf[..], rxHead, rxLen);
      Nothing(before, p);
      while remaining != 0
        invariant Shape(rxBuf[..], rxHead, rxLen) && copied + remaining == |p| && rxLen == old(rxLen) + copied
        invariant Unread(rxBuf[..], rxHead, rxLen) == before + p[..copied]
        decreases remaining
      {
        PlaceIsModulo(rxHead, rxLen);
        var rxTail := (rxHead + rxLen) % SOCKET_BUF_SIZE;
        var toCopy := Min(remaining, SOCKET_BUF_SIZE - Max(rxLen, rxTail));
        ghost var buf := rxBuf[..];
        CopyIn(p, copied, rxTail, toCopy);
        Append(buf, rxHead, rxLen, p[copied..copied + toCopy], rxBuf[..]);
        Joined(before, p, copied, toCopy);
        rxLen := rxLen + toCopy;
        copied := copied + toCopy;
        remaining := remaining - toCopy;
      }
      assert p[..copied] == p;
    }

    /** socket_recv_callback: all of a segment is accepted, or none of it. */
    method RecvCallback(p: Pbuf) returns (err: Outcome)
      requires Valid() && state in {Connected, Allocated, Closing}
      modifies this, rxBuf
      ensures Valid()
      ensures err == if state == Connected && p.Pbuf? && |old(accepted)| - |old(returned)| + |p.bytes| > 0x20_0000 then NoMemory else Accepted
      ensures state == if old(state) == Connected then (if p.Null? then ClosedByPeer else Connected) else if p.Null? then Unallocated else old(state)
      ensures state == Connected ==> returned == old(returned) && accepted == old(accepted) + if err == Accepted then p.bytes else []
      ensures state == ClosedByPeer ==> returned == old(returned) && accepted == old(accepted)
      ensures state == Unallocated ==> accepted == returned == []
      ensures state in {Allocated, Closing} ==> returned == old(returned) && accepted == old(accepted)
    {
      err := Accepted;
      if state == Connected {
        if p.Pbuf? {
          var capacity := SOCKET_BUF_SIZE - rxLen;
          if capacity < |p.bytes| {
            assert accepted + [] == accepted;
            return NoMemory;
          }
          Fill(p.bytes);
          accepted := accepted + p.bytes;
        } else {
          state := ClosedByPeer;
        }
      } else {
        if p.Null? {
          state, rxHead, rxLen := Unallocated, 0, 0;
          accepted, returned := [], [];
        }
      }
    }

    /** memcpy out of the buffer. */
    method CopyOut(buf: array<Byte>, at: nat, from: nat, n: nat)
      requires buf != rxBuf && at + n <= buf.Length && from + n <= rxBuf.Length
      modifies buf
      ensures buf[..] == Spliced(old(buf[..]), at, rxBuf[..][from..from + n])
    {
      forall i | 0 <= i < n {
        buf[at + i] := rxBuf[from + i];
      }
      ghost var was := old(buf[..]);
      assert buf[..] == was[..at] + rxBuf[..][from..from + n] + was[at + n..];
    }

    /** The copy loop of tcp_socket_recv. */
    method Drain(buf: array<Byte>, len: nat) returns (copied: nat)
      requires Shape(rxBuf[..], rxHead, rxLen) && buf != rxBuf && len <= buf.Length
      modifies `rxHead, `rxLen, buf
      ensures Shape(rxBuf[..], rxHead, rxLen) && copied == Min(len, old(rxLen)) && rxLen == old(rxLen) - copied
      ensures buf[..] == Mixed(old(Unread(rxBuf[..], rxHead, rxLen)), old(buf[..]), copied)
      ensures Unread(rxBuf[..], rxHead, rxLen) == old(Unread(rxBuf[..], rxHead, rxLen))[copied..]
    {
      hide Unread, Mixed, Spliced;
      ghost var before, orig := Unread(rxBuf[..], rxHead, rxLen), buf[..];
      MixedNone(before, orig);
      copied := 0;
      while copied != len
        invariant Shape(rxBuf[..], rxHead, rxLen) && copied <= len && rxLen + copied == old(rxLen)
        invariant Unread(rxBuf[..], rxHead, rxLen) == before[copied..]
        invariant buf[..] == Mixed(before, orig, copied)
        decreases len - copied
      {
        var toCopy := Min(len - copied, Min(rxLen, SOCKET_BUF_SIZE - rxHead));
        if toCopy == 0 {
          break;
        }
        ghost var was := buf[..];
        CopyOut(buf, copied, rxHead, toCopy);
        DrainStep(rxBuf[..], rxHead, rxLen, before, orig, copied, toCopy);
        PlaceIsModulo(rxHead, toCopy);
        rxHead := (rxHead + toCopy) % SOCKET_BUF_SIZE;
        rxLen := rxLen - toCopy;
        copied := copied + toCopy;
      }
    }

    /** The wait of tcp_socket_recv for something to read, or for the end. */
    method Wait(arriving: seq<Pbuf>) returns (blocked: bool, used: nat)
      requires Valid() && state == Connected && rxLen == 0
      modifies this, rxBuf
      ensures Valid() && used <= |arriving| && returned == old(returned)
      ensures blocked <==> NoneWakes(arriving)
      ensures blocked ==> used == |arriving| && state == Connected && accepted == old(accepted) && rxLen == 0
      ensures !blocked ==>
                && used > 0 && NoneWakes(arriving[..used - 1]) && Wakes(arriving[used - 1])
                && state == (if arriving[used - 1].Null? then ClosedByPeer else Connected)
                && accepted == old(accepted) + if arriving[used - 1].Null? then [] else arriving[used - 1].bytes
    {
      used := 0;
      while rxLen == 0 && state == Connected
        modifies this, rxBuf
        invariant Valid() && used <= |arriving| && state in {Connected, ClosedByPeer} && returned == old(returned)
        invariant rxLen == 0 && state == Connected ==> NoneWakes(arriving[..used]) && accepted == old(accepted)
        invariant rxLen > 0 || state != Connected ==>
                    && used > 0 && NoneWakes(arriving[..used - 1]) && Wakes(arriving[used - 1])
                    && state == (if arriving[used - 1].Null? then ClosedByPeer else Connected)
                    && accepted == old(accepted) + if arriving[used - 1].Null? then [] else arriving[used - 1].bytes
        decreases |arriving| - used
      {
        if used == |arriving| {
          assert arriving[..used] == arriving;
          return true, used;
        }
        ghost var before := accepted;
        var err := RecvCallback(arriving[used]);
        assert arriving[..used + 1] == arriving[..used] + [arriving[used]];
        assert before + [] == before;
        used := used + 1;
      }
      return false, used;
    }

    /** tcp_socket_recv; arriving is what the stack delivers while the reader waits.
        The reader stays blocked exactly when nothing that arrives wakes it. */
    method Recv(buf: array<Byte>, len: nat, nonblock: bool, arriving: seq<Pbuf>) returns (r: Received, used: nat)
      requires Valid() && buf != rxBuf && len <= buf.Length
      modifies this, rxBuf, buf
      ensures Valid() && used <= |arriving|
      ensures r == NotConnected <==> old(state) != Connected
      ensures r == Again <==> old(state) == Connected && old(rxLen) == 0 && nonblock
      ensures r == Blocked <==> old(state) == Connected && old(rxLen) == 0 && !nonblock && NoneWakes(arriving)
      ensures r == Blocked ==> used == |arriving| && state == Connected && returned == accepted == old(accepted)
      ensures used > 0 ==> old(rxLen) == 0 && !nonblock && NoneWakes(arriving[..used - 1])
      ensures used == 0 ==> accepted == old(accepted) && state == old(state)
      ensures r.Copied? && used > 0 ==>
                && Wakes(arriving[used - 1])
                && state == (if arriving[used - 1].Null? then ClosedByPeer else Connected)
                && accepted == old(accepted) + if arriving[used - 1].Null? then [] else arriving[used - 1].bytes
      ensures r.Copied? ==> r.n == Min(len, |accepted| - |old(returned)|) && returned == old(returned) + buf[..r.n]
      ensures r.Copied? ==> buf[r.n..] == old(buf[..])[r.n..]
      ensures !r.Copied? ==> returned == old(returned) && buf[..] == old(buf[..])
      ensures r.Copied? && r.n == 0 && len > 0 ==> state == ClosedByPeer
    {
      used := 0;
      if state != Connected {
        return NotConnected, used;
      }
      if rxLen == 0 {
        if nonblock {
          return Again, used;
        }
        var blocked;
        blocked, used := Wait(arriving);
        if blocked {
          return Blocked, used;
        }
      }
      ghost var unread, orig := Unread(rxBuf[..], rxHead, rxLen), buf[..];
      hide Unread, Mixed;
      var copied := Drain(buf, len);
      Taken(unread, orig, copied, returned);
      AllTaken(returned, unread, copied);
      returned := returned + buf[..copied];
      return Copied(copied), used;
    }
  }

  /** Bytes that are unread when the peer closes cannot be read any more. */
  method UnreadAtClose(p: seq<Byte>, buf: array<Byte>) returns (s: Socket, r: Received)
    requires 0 < |p| <= SOCKET_BUF_SIZE
    modifies buf
    ensures s.Valid() && s.accepted == p && s.returned == [] && r == NotConnected
  {
    s := new Socket();
    var err := s.RecvCallback(Pbuf(p));
    assert [] + p == p;
    err := s.RecvCallback(Null);
    var used;
    r, used := s.Recv(buf, 0, true, []);
  }

  lemma Nothing(a: seq<Byte>, p: seq<Byte>)
    ensures a + p[..0] == a
  {
  }

  lemma Joined(a: seq<Byte>, p: seq<Byte>, i: nat, n: nat)
    requires i + n <= |p|
    ensures a + p[..i] + p[i..i + n] == a + p[..i + n]
  {
  }

  /** The first i bytes of one sequence, then those of another. */
  function Mixed(a: seq<Byte>, orig: seq<Byte>, i: nat): seq<Byte>
    requires i <= |a| && i <= |orig|
  {
    a[..i] + orig[i..]
  }

  function Spliced(b: seq<Byte>, at: nat, chunk: seq<Byte>): seq<Byte>
    requires at + |chunk| <= |b|
  {
    b[..at] + chunk + b[at + |chunk|..]
  }

  lemma MixedNone(a: seq<Byte>, orig: seq<Byte>)
    ensures Mixed(a, orig, 0) == orig && a[0..] == a
  {
  }

  lemma DrainStep(rx: seq<Byte>, head: nat, len: nat, a: seq<Byte>, orig: seq<Byte>, i: nat, n: nat)
    requires Shape(rx, head, len) && n <= len && head + n <= SOCKET_BUF_SIZE
    requires i + n <= |a| && i + n <= |orig| && Unread(rx, head, len) == a[i..]
    ensures Place(head, n) < SOCKET_BUF_SIZE && Unread(rx, Place(head, n), len - n) == a[i + n..]
    ensures |Mixed(a, orig, i)| == |orig| && Spliced(Mixed(a, orig, i), i, rx[head..head + n]) == Mixed(a, orig, i + n)
  {
    Drop(rx, head, len, n);
    hide Unread;
    assert a[i..][n..] == a[i + n..];
    assert a[i..][..n] == a[i..i + n];
    SplicedMixed(a, orig, i, n);
  }

  lemma SplicedMixed(a: seq<Byte>, orig: seq<Byte>, i: nat, n: nat)
    requires i + n <= |a| && i + n <= |orig|
    ensures |Mixed(a, orig, i)| == |orig| && Spliced(Mixed(a, orig, i), i, a[i..i + n]) == Mixed(a, orig, i + n)
  {
    var m := Mixed(a, orig, i);
    assert m[..i] == a[..i] && m[i + n..] == orig[i + n..];
    assert a[..i] + a[i..i + n] == a[..i + n];
  }

  lemma Taken(a: seq<Byte>, orig: seq<Byte>, n: nat, done: seq<Byte>)
    requires n <= |a| && n <= |orig|
    ensures |Mixed(a, orig, n)| == |orig| && Mixed(a, orig, n)[..n] == a[..n] && Mixed(a, orig, n)[n..] == orig[n..] && done + a == done + a[..n] + a[n..]
  {
  }

  lemma AllTaken(done: seq<Byte>, a: seq<Byte>, n: nat)
    requires n <= |a|
    ensures n == |a| ==> done + a[..n] == done + a
  {
    assert n == |a| ==> a[..n] == a;
  }
}
