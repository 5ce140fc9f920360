/** Subnets of addresses in host byte order, and what they are bit by bit. */
module Subnets {
  /** Subnet value n means that addresses must match on the highest n bits. */
  function SubnetMask(n: nat): bv32
    requires n <= 32
  {
    0xFFFF_FFFF << (32 - n)
  }

  function Masked(ip: bv32, n: nat): bv32 {
    if n <= 32 then SubnetMask(n) & ip else 0
  }

  lemma MaskedTwice(ip: bv32, n: nat)
    ensures Masked(Masked(ip, n), n) == Masked(ip, n)
  {
    if n <= 32 {
      var m := SubnetMask(n);
      hide SubnetMask;
      assert m & (m & ip) == m & ip;
    }
  }

  /* ---- Bits ---- */

  function Shr(a: bv32, k: nat): bv32
    requires k <= 32
  {
    a >> k
  }

  predicate Odd(a: bv32) {
    a & 1 == 1
  }

  /** Bit i, counted from the lowest one. */
  predicate Bit(a: bv32, i: nat)
    requires i < 32
  {
    Odd(Shr(a, i))
  }

  /** The highest n bits of two addresses are the same. */
  ghost predicate Agree(a: bv32, b: bv32, n: nat) {
    n <= 32 && forall i {:trigger Bit(a, i)} {:trigger Bit(b, i)} :: 32 - n <= i < 32 ==> (Bit(a, i) <==> Bit(b, i))
  }

  /** The shift amounts as bit vectors. */
  lemma Amount(k: nat)
    requires k < 32
    ensures k as bv6 < 32 && (k + 1) as bv6 == (k as bv6) + 1
  {
  }

  lemma AmountOrder(j: nat, k: nat)
    requires k <= 32 && j <= 32
    ensures (j as bv6) <= (k as bv6) <==> j <= k
  {
  }

  function ShiftBy(a: bv32, s: bv6): bv32
    requires s <= 32
  {
    a >> s
  }

  lemma ShiftIs(a: bv32, k: nat)
    requires k <= 32
    ensures k as bv6 <= 32 && Shr(a, k) == ShiftBy(a, k as bv6)
  {
  }

  function Half(a: bv32): bv32 {
    a >> 1
  }

  lemma ShiftOne(a: bv32, s: bv6)
    requires s < 32
    ensures ShiftBy(a, s + 1) == Half(ShiftBy(a, s))
  {
  }

  lemma ShiftMore(a: bv32, k: nat)
    requires k < 32
    ensures Shr(a, k + 1) == Half(Shr(a, k))
  {
    hide Shr, ShiftBy, Half;
    Amount(k);
    ShiftIs(a, k);
    ShiftIs(a, k + 1);
    ShiftOne(a, k as bv6);
  }

  lemma ShiftNone(a: bv32)
    ensures Shr(a, 0) == a && Shr(a, 32) == 0
  {
  }

  function And(a: bv32, b: bv32): bv32 {
    a & b
  }

  lemma HalfAnd(a: bv32, b: bv32)
    ensures Half(And(a, b)) == And(Half(a), Half(b))
  {
  }

  lemma OddAnd(a: bv32, b: bv32)
    ensures Odd(And(a, b)) <==> Odd(a) && Odd(b)
  {
  }

  lemma HalfAndOdd(a: bv32, b: bv32)
    requires Half(a) == Half(b) && (Odd(a) <==> Odd(b))
    ensures a == b
  {
  }

  lemma {:induction false} ShiftedAnd(a: bv32, b: bv32, k: nat)
    requires k <= 32
    ensures Shr(And(a, b), k) == And(Shr(a, k), Shr(b, k))
  {
    hide Shr, Odd, Half, And;
    if k == 0 {
      ShiftNone(a);
      ShiftNone(b);
      ShiftNone(And(a, b));
    } else {
      ShiftedAnd(a, b, k - 1);
      ShiftMore(a, k - 1);
      ShiftMore(b, k - 1);
      ShiftMore(And(a, b), k - 1);
      HalfAnd(Shr(a, k - 1), Shr(b, k - 1));
    }
  }

  /** Addresses are determined by their bits. */
  lemma {:induction false} ShiftedSame(a: bv32, b: bv32, k: nat)
    requires k <= 32 && Agree(a, b, 32 - k)
    ensures Shr(a, k) == Shr(b, k)
    decreases 32 - k
  {
    hide Shr, Odd, Half, And;
    if k == 32 {
      ShiftNone(a);
      ShiftNone(b);
    } else {
      ShiftedSame(a, b, k + 1);
      ShiftMore(a, k);
      ShiftMore(b, k);
      assert Bit(a, k) <==> Bit(b, k);
      HalfAndOdd(Shr(a, k), Shr(b, k));
    }
  }

  lemma SameBits(a: bv32, b: bv32)
    requires Agree(a, b, 32)
    ensures a == b
  {
    hide Bit, Shr;
    ShiftedSame(a, b, 0);
    ShiftNone(a);
    ShiftNone(b);
  }

  /* ---- Masks ---- */

  lemma MaskBitAt(s: bv6, j: bv6)
    requires s <= 32 && j < 32
    ensures ((0xFFFF_FFFF as bv32 << s) >> j) & 1 == if j >= s then 1 else 0
  {
  }

  lemma MaskBit(n: nat, i: nat)
    requires n <= 32 && i < 32
    ensures Bit(SubnetMask(n), i) <==> i >= 32 - n
  {
    AmountOrder(32 - n, i);
    AmountOrder(32, i);
    AmountOrder(32 - n, 32);
    MaskBitAt((32 - n) as bv6, i as bv6);
  }

  lemma MaskedIs(a: bv32, n: nat)
    requires n <= 32
    ensures Masked(a, n) == And(SubnetMask(n), a)
  {
    hide SubnetMask;
  }

  /** Masking keeps the highest n bits and clears the others. */
  lemma MaskedBits(a: bv32, n: nat, i: nat)
    requires n <= 32 && i < 32
    ensures Bit(Masked(a, n), i) <==> i >= 32 - n && Bit(a, i)
  {
    hide Shr, Odd, Half, And, SubnetMask, Masked;
    MaskedIs(a, n);
    MaskBit(n, i);
    ShiftedAnd(SubnetMask(n), a, i);
    OddAnd(Shr(SubnetMask(n), i), Shr(a, i));
  }

  /** Masked addresses are the same exactly when the highest n bits are. */
  lemma MaskedAgree(a: bv32, b: bv32, n: nat)
    requires n <= 32
    ensures Masked(a, n) == Masked(b, n) <==> Agree(a, b, n)
  {
    hide Masked, Bit, Shr;
    var x, y := Masked(a, n), Masked(b, n);
    forall i | 0 <= i < 32
      ensures Bit(x, i) <==> i >= 32 - n && Bit(a, i)
      ensures Bit(y, i) <==> i >= 32 - n && Bit(b, i)
    {
      MaskedBits(a, n, i);
      MaskedBits(b, n, i);
    }
    if Agree(a, b, n) {
      SameBits(x, y);
    }
  }

  /* ---- Special addresses ---- */

  /** Multicast addresses begin with the bits 1110. */
  lemma MulticastBits(a: bv32)
    ensures a & 0xF000_0000 == 0xE000_0000 <==> Bit(a, 31) && Bit(a, 30) && Bit(a, 29) && !Bit(a, 28)
  {
  }

  function Or(a: bv32, b: bv32): bv32 {
    a | b
  }

  lemma HalfOr(a: bv32, b: bv32)
    ensures Half(Or(a, b)) == Or(Half(a), Half(b))
  {
  }

  lemma OddOr(a: bv32, b: bv32)
    ensures Odd(Or(a, b)) <==> Odd(a) || Odd(b)
  {
  }

  lemma {:induction false} ShiftedOr(a: bv32, b: bv32, k: nat)
    requires k <= 32
    ensures Shr(Or(a, b), k) == Or(Shr(a, k), Shr(b, k))
  {
    hide Shr, Odd, Half, Or;
    if k == 0 {
      ShiftNone(a);
      ShiftNone(b);
      ShiftNone(Or(a, b));
    } else {
      ShiftedOr(a, b, k - 1);
      ShiftMore(a, k - 1);
      ShiftMore(b, k - 1);
      ShiftMore(Or(a, b), k - 1);
      HalfOr(Shr(a, k - 1), Shr(b, k - 1));
    }
  }

  /** The mask of the host bits. */
  function HostMask(n: nat): bv32
    requires n <= 32
  {
    !SubnetMask(n)
  }

  lemma HostBitAt(s: bv6, j: bv6)
    requires s <= 32 && j < 32
    ensures (!(0xFFFF_FFFF as bv32 << s) >> j) & 1 == if j >= s then 0 else 1
  {
  }

  lemma HostBit(n: nat, i: nat)
    requires n <= 32 && i < 32
    ensures Bit(HostMask(n), i) <==> i < 32 - n
  {
    AmountOrder(32 - n, i);
    AmountOrder(32, i);
    AmountOrder(32 - n, 32);
    HostBitAt((32 - n) as bv6, i as bv6);
  }

  /** The broadcast address of the subnet of hop: the same highest n bits, and all
      others set. */
  ghost predicate IsBroadcast(hop: bv32, n: nat, dst: bv32) {
    Agree(hop, dst, n) && forall i :: 0 <= i < 32 - n ==> Bit(dst, i)
  }

  function BroadcastOf(hop: bv32, n: nat): bv32
    requires n <= 32
  {
    !SubnetMask(n) | hop
  }

  lemma BroadcastIsOr(hop: bv32, n: nat)
    requires n <= 32
    ensures BroadcastOf(hop, n) == Or(HostMask(n), hop)
  {
    hide SubnetMask;
  }

  lemma BroadcastBits(hop: bv32, n: nat, dst: bv32)
    requires n <= 32
    ensures BroadcastOf(hop, n) == dst <==> IsBroadcast(hop, n, dst)
  {
    BroadcastIsOr(hop, n);
    var x := Or(HostMask(n), hop);
    hide Shr, Odd, Half, Or, HostMask, SubnetMask, Bit, BroadcastOf;
    forall i | 0 <= i < 32
      ensures Bit(x, i) <==> i < 32 - n || Bit(hop, i)
    {
      OrBit(hop, n, i);
    }
    if IsBroadcast(hop, n, dst) {
      SameBits(x, dst);
    }
  }

  lemma OrBit(hop: bv32, n: nat, i: nat)
    requires n <= 32 && i < 32
    ensures Bit(Or(HostMask(n), hop), i) <==> i < 32 - n || Bit(hop, i)
  {
    hide Shr, Odd, Half, Or, HostMask;
    HostBit(n, i);
    ShiftedOr(HostMask(n), hop, i);
    OddOr(Shr(HostMask(n), i), Shr(hop, i));
  }
}
