/** The bits of an IPv4 address as mjl_prefixtree.c takes them: the first bit is
    the most significant one. */
module Ip4Bits {

  type Ip = bv32

  // The number of a bit, or a length, as the amount of a shift.
  function Amount(i: nat): (w: bv6)
    requires i <= 32
    ensures w <= 32 && (i < 32 ==> w < 32) && (i > 0 ==> w > 0)
  {
    i as bv6
  }

  /** ip4_bit and prefix4_bit. */
  predicate IpBit(a: Ip, bit: nat)
    requires bit < 32
  {
    ((a >> (31 - Amount(bit))) & 1) != 0
  }

  /** uint32_mask[len]: the first len bits are set. */
  function Mask(len: nat): bv32
    requires len <= 32
  {
    if len == 0 then 0 else 0xFFFF_FFFF << (32 - Amount(len))
  }

  /** The addresses have their first n bits in common. */
  ghost predicate Agree(a: Ip, b: Ip, n: nat)
    requires n <= 32
  {
    forall i: nat :: i < n ==> IpBit(a, i) == IpBit(b, i)
  }

  datatype Prefix = Prefix(net: Ip, len: nat)

  function Xor(a: bv32, b: bv32): bv32 {
    a ^ b
  }

  function Not(a: bv32): bv32 {
    !a
  }

  // The bits of an address that are set after the length of a prefix.
  function HostWord(net: Ip, len: nat): bv32
    requires len <= 32
  {
    net & Not(Mask(len))
  }

  // The bits in which an address differs from a prefix.
  function InWord(p: Prefix, ip: Ip): bv32
    requires p.len <= 32
  {
    Xor(ip, p.net) & Mask(p.len)
  }

  /** prefix4_isvalid. */
  predicate IsValid(net: Ip, len: nat) {
    len <= 32 && HostWord(net, len) == 0
  }

  /** prefix4_ip_in. */
  predicate IpIn(p: Prefix, ip: Ip)
    requires p.len <= 32
  {
    InWord(p, ip) == 0
  }

  // The portable count of leading zeroes in prefix4_fbd.
  function Clz(v0: bv32): (r: bv6)
    requires v0 != 0
    ensures r < 32
  {
    var (v1, r1) := if v0 & 0xFFFF_0000 != 0 then (v0 >> 16, 16 as bv6) else (v0, 0);
    var (v2, r2) := if v1 & 0xFF00 != 0 then (v1 >> 8, r1 + 8) else (v1, r1);
    var (v3, r3) := if v2 & 0xF0 != 0 then (v2 >> 4, r2 + 4) else (v2, r2);
    var (v4, r4) := if v3 & 0xC != 0 then (v3 >> 2, r3 + 2) else (v3, r3);
    31 - (if v4 & 0x2 != 0 then r4 + 1 else r4)
  }

  /** prefix4_fbd: the first bit in which two addresses differ, or 32. */
  function Fbd(a: Ip, b: Ip): nat {
    if Xor(a, b) == 0 then 32 else Clz(Xor(a, b)) as int
  }

  // ---------- Words ----------

  lemma AmountOrder(i: nat, j: nat)
    requires i <= 32 && j <= 32
    ensures Amount(i) < Amount(j) <==> i < j
  {
  }

  lemma AmountBack(x: bv6)
    requires x <= 32
    ensures (x as int) <= 32 && Amount(x as int) == x && (x < 32 ==> (x as int) < 32)
  {
  }

  // Bit i of a word.
  predicate Has(v: bv32, i: bv6)
    requires i < 32
  {
    v & (0x8000_0000 >> i) != 0
  }

  lemma BitOfWord(a: bv32, i: bv6)
    requires i < 32
    ensures ((a >> (31 - i)) & 1 != 0) <==> Has(a, i)
  {
  }

  lemma MaskOfWord(l: bv6, i: bv6)
    requires 0 < l <= 32 && i < 32
    ensures Has(0xFFFF_FFFF << (32 - l), i) <==> i < l
  {
  }

  lemma HasAnd(m: bv32, x: bv32, i: bv6)
    requires i < 32
    ensures Has(m & x, i) <==> Has(m, i) && Has(x, i)
  {
  }

  lemma HasNot(m: bv32, i: bv6)
    requires i < 32
    ensures Has(!m, i) <==> !Has(m, i)
  {
  }

  lemma HasNotWord(m: bv32, i: bv6)
    requires i < 32
    ensures Has(Not(m), i) <==> !Has(m, i)
  {
    hide Has;
    HasNot(m, i);
  }

  lemma HasXorWord(m: bv32, x: bv32, i: bv6)
    requires i < 32
    ensures Has(Xor(m, x), i) <==> Has(m, i) != Has(x, i)
  {
    hide Has;
    HasXor(m, x, i);
  }

  lemma HasXor(m: bv32, x: bv32, i: bv6)
    requires i < 32
    ensures Has(m ^ x, i) <==> Has(m, i) != Has(x, i)
  {
  }

  lemma ClzHas(v: bv32)
    requires v != 0
    ensures Has(v, Clz(v))
  {
  }

  lemma ClzFirst(v: bv32, i: bv6)
    requires v != 0 && i < Clz(v)
    ensures !Has(v, i)
  {
  }

  lemma BitIs(a: Ip, i: nat)
    requires i < 32
    ensures IpBit(a, i) <==> Has(a, Amount(i))
  {
    hide Amount, Has;
    BitOfWord(a, Amount(i));
  }

  lemma MaskBit(len: nat, i: nat)
    requires len <= 32 && i < 32
    ensures Has(Mask(len), Amount(i)) <==> i < len
  {
    hide Amount, Has;
    AmountOrder(i, len);
    if len > 0 {
      MaskOfWord(Amount(len), Amount(i));
    } else {
      ZeroHas(Amount(i));
    }
  }

  lemma ZeroHas(i: bv6)
    requires i < 32
    ensures !Has(0, i)
  {
  }

  // ---------- What the operations mean ----------

  lemma XorBit(a: Ip, b: Ip, i: nat)
    requires i < 32
    ensures Has(Xor(a, b), Amount(i)) <==> IpBit(a, i) != IpBit(b, i)
  {
    hide Amount, Has, IpBit, Xor;
    BitIs(a, i);
    BitIs(b, i);
    HasXorWord(a, b, Amount(i));
  }

  lemma XorBack(a: bv32, b: bv32)
    ensures Xor(Xor(a, b), b) == a && Xor(0, b) == b && Xor(b, b) == 0
  {
  }

  lemma XorZero(a: bv32, b: bv32)
    ensures Xor(a, b) == 0 <==> a == b
  {
    hide Xor;
    XorBack(a, b);
  }

  // The first bit that is set in a word that is not zero.
  lemma FirstBit(v: bv32)
    requires v != 0
    ensures var n := Clz(v) as int;
            n < 32 && Has(v, Amount(n)) && forall i: nat :: i < n ==> !Has(v, Amount(i))
  {
    hide Amount, Has, Clz;
    AmountBack(Clz(v));
    ClzHas(v);
    var n := Clz(v) as int;
    forall i: nat | i < n ensures !Has(v, Amount(i)) {
      AmountOrder(i, n);
      ClzFirst(v, Amount(i));
    }
  }

  /** prefix4_fbd gives the number of bits in common. */
  lemma FbdAgrees(a: Ip, b: Ip)
    ensures var n := Fbd(a, b);
            n <= 32 && Agree(a, b, n) && (n < 32 ==> IpBit(a, n) != IpBit(b, n)) && (n == 32 ==> a == b)
  {
    hide Amount, Has, Clz, IpBit, Xor;
    XorZero(a, b);
    var v, n := Xor(a, b), Fbd(a, b);
    if v != 0 {
      FirstBit(v);
      XorBit(a, b, n);
      forall i: nat | i < n ensures IpBit(a, i) == IpBit(b, i) {
        XorBit(a, b, i);
      }
    }
  }

  lemma InBit(p: Prefix, ip: Ip, i: nat)
    requires p.len <= 32 && i < 32
    ensures Has(InWord(p, ip), Amount(i)) <==> i < p.len && IpBit(p.net, i) != IpBit(ip, i)
  {
    hide Amount, Has, IpBit, Mask, Xor;
    XorBit(ip, p.net, i);
    MaskBit(p.len, i);
    InHas(p, ip, Amount(i));
  }

  lemma InHas(p: Prefix, ip: Ip, i: bv6)
    requires p.len <= 32 && i < 32
    ensures Has(InWord(p, ip), i) <==> Has(Xor(ip, p.net), i) && Has(Mask(p.len), i)
  {
    hide Has, Mask, Xor;
    HasAnd(Xor(ip, p.net), Mask(p.len), i);
  }

  /** An address is in a prefix when it has all its bits in common with it. */
  lemma IpInAgrees(p: Prefix, ip: Ip)
    requires p.len <= 32
    ensures IpIn(p, ip) <==> Agree(p.net, ip, p.len)
  {
    hide Amount, Has, Clz, IpBit, InWord;
    var x := InWord(p, ip);
    if x == 0 {
      forall i: nat | i < p.len ensures IpBit(p.net, i) == IpBit(ip, i) {
        InBit(p, ip, i);
        ZeroHas(Amount(i));
      }
    } else {
      FirstBit(x);
      InBit(p, ip, Clz(x) as int);
    }
  }

  lemma HostBit(net: Ip, len: nat, i: nat)
    requires len <= 32 && i < 32
    ensures Has(HostWord(net, len), Amount(i)) <==> i >= len && IpBit(net, i)
  {
    hide Amount, Has, IpBit, Mask, HostWord;
    BitIs(net, i);
    MaskBit(len, i);
    HostHas(net, len, Amount(i));
  }

  lemma HostHas(net: Ip, len: nat, i: bv6)
    requires len <= 32 && i < 32
    ensures Has(HostWord(net, len), i) <==> Has(net, i) && !Has(Mask(len), i)
  {
    hide Has, Mask, Not;
    HasNotWord(Mask(len), i);
    HasAnd(net, Not(Mask(len)), i);
  }

  /** A prefix is valid when no bit after its length is set. */
  lemma ValidBits(net: Ip, len: nat)
    requires len <= 32
    ensures IsValid(net, len) <==> forall i: nat :: len <= i < 32 ==> !IpBit(net, i)
  {
    hide Amount, Has, Clz, IpBit, HostWord;
    var x := HostWord(net, len);
    if x == 0 {
      forall i: nat | len <= i < 32 ensures !IpBit(net, i) {
        HostBit(net, len, i);
        ZeroHas(Amount(i));
      }
    } else {
      FirstBit(x);
      HostBit(net, len, Clz(x) as int);
    }
  }

  /** Two valid prefixes of one length with these bits in common are the same. */
  lemma ValidSame(a: Ip, b: Ip, len: nat)
    requires IsValid(a, len) && IsValid(b, len) && Agree(a, b, len)
    ensures a == b
  {
    assert len <= 32;
    hide Amount, Has, Clz, IpBit, Mask, IsValid, Fbd;
    FbdAgrees(a, b);
    ValidBits(a, len);
    ValidBits(b, len);
  }
}
