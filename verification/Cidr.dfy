/** CIDR blocks of credential allowlists: masks against intervals. */
module Cidr {
  import opened Bits

  datatype Address = V4(bits: nat) | V6(bits: nat)

  function WidthOf(a: Address): nat {
    if a.V4? then 32 else 128
  }

  predicate ValidAddress(a: Address) {
    a.bits < Pow2(WidthOf(a))
  }

  /** The top `prefix` of `width` bits, by a mask in a 128-bit register. */
  function ApplyMask(value: nat, prefix: nat, width: nat): nat {
    if prefix == 0 then 0
    else if prefix >= width then value
    else BitAnd(value, Shl(Pow2(128) - 1, width - prefix, 128))
  }

  function Mask(a: Address, prefix: nat): Address {
    match a
    case V4(bits) => V4(ApplyMask(bits, prefix, 32) % Pow2(32))
    case V6(bits) => V6(ApplyMask(bits, prefix, 128))
  }

  datatype Block = Block(base: Address, prefix: nat)

  /** The block of a parsed specification: host bits are dropped. */
  function MakeBlock(a: Address, prefix: nat): Block {
    Block(Mask(a, prefix), prefix)
  }

  predicate Contains(b: Block, ip: Address) {
    (b.base.V4? <==> ip.V4?) && Mask(ip, b.prefix) == b.base
  }

  // ----- the interval -----

  predicate Specified(a: Address, prefix: nat) {
    ValidAddress(a) && prefix <= WidthOf(a)
  }

  function Size(a: Address, prefix: nat): nat
    requires prefix <= WidthOf(a)
  {
    Pow2(WidthOf(a) - prefix)
  }

  /** All ones, shifted left in an `n`-bit register. */
  lemma {:induction false} NetMask(h: nat, n: nat)
    requires h <= n
    ensures Pow2(h) <= Pow2(n) && Shl(Pow2(n) - 1, h, n) == Pow2(n) - Pow2(h)
  {
    hide Pow2;
    Pow2Monotone(h, n);
    OnesShifted(Pow2(n), Pow2(h));
  }

  lemma {:induction false} OnesShifted(top: nat, p: nat)
    requires 1 <= p <= top
    ensures (top - 1) * p % top == top - p
  {
    assert (top - 1) * p == (p - 1) * top + (top - p);
    MulDiv(p - 1, top, top - p);
  }

  lemma {:induction false} MaskInRegister(value: nat, h: nat, width: nat, n: nat)
    requires h <= width <= n && value < Pow2(width)
    ensures BitAnd(value, Shl(Pow2(n) - 1, h, n)) == value - value % Pow2(h)
  {
    hide Pow2, Shl, BitAnd;
    NetMask(h, n);
    Pow2Monotone(width, n);
    AndHigh(value, h, n);
  }

  /** Masking clears the low bits and nothing else. */
  lemma {:induction false} MaskMeaning(value: nat, prefix: nat, width: nat)
    requires prefix <= width <= 128 && value < Pow2(width)
    ensures ApplyMask(value, prefix, width) == value - value % Pow2(width - prefix)
  {
    if prefix == 0 {
      SmallMod(value, Pow2(width));
    } else if prefix >= width {
      assert Pow2(0) == 1;
    } else {
      hide Pow2, Shl, BitAnd;
      MaskInRegister(value, width - prefix, width, 128);
    }
  }

  lemma {:induction false} ModBelow(x: nat, d: nat)
    requires d > 0
    ensures 0 <= x % d < d && x % d <= x
  {
    var q, r := x / d, x % d;
    QuotientNat(x, d);
    assert x == q * d + r;
    ProductSign(q, d);
  }

  lemma {:induction false} AddressMask(a: Address, prefix: nat)
    requires Specified(a, prefix)
    ensures Mask(a, prefix).bits == a.bits - a.bits % Size(a, prefix)
    ensures Mask(a, prefix).V4? == a.V4? && ValidAddress(Mask(a, prefix))
  {
    hide Pow2, ApplyMask;
    MaskMeaning(a.bits, prefix, WidthOf(a));
    ModBelow(a.bits, Size(a, prefix));
    SmallMod(ApplyMask(a.bits, prefix, WidthOf(a)), Pow2(WidthOf(a)));
  }

  lemma {:induction false} SameMultiple(x: nat, base: nat, d: nat)
    requires d > 0 && base % d == 0
    ensures x - x % d == base <==> base <= x < base + d
  {
    var q, r := x / d, x % d;
    assert x == q * d + r;
    var c := base / d;
    assert base == c * d;
    if base <= x < base + d {
      assert x == c * d + (x - base);
      MulDiv(c, d, x - base);
    }
  }

  lemma {:induction false} MaskedMultiple(x: nat, d: nat)
    requires d > 0
    ensures x - x % d >= 0 && (x - x % d) % d == 0
  {
    var q, r := x / d, x % d;
    ModBelow(x, d);
    assert x - r == q * d + 0;
    MulDiv(q, d, 0);
  }

  /** Membership is lying between the base and the base plus the block size minus one, in the same family. */
  lemma {:induction false} ContainsInterval(a: Address, prefix: nat, ip: Address)
    requires Specified(a, prefix) && ValidAddress(ip)
    ensures Contains(MakeBlock(a, prefix), ip) <==>
            (a.V4? <==> ip.V4?) && Mask(a, prefix).bits <= ip.bits <= Mask(a, prefix).bits + Size(a, prefix) - 1
  {
    hide Pow2, Mask;
    AddressMask(a, prefix);
    if a.V4? <==> ip.V4? {
      AddressMask(ip, prefix);
      MaskedMultiple(a.bits, Size(a, prefix));
      SameMultiple(ip.bits, Mask(a, prefix).bits, Size(a, prefix));
    }
  }

  /** Masking twice is masking once; the base is in its block. */
  lemma {:induction false} MaskTwice(a: Address, prefix: nat)
    requires Specified(a, prefix)
    ensures Mask(Mask(a, prefix), prefix) == Mask(a, prefix)
    ensures Contains(MakeBlock(a, prefix), a)
  {
    hide Pow2, Mask;
    AddressMask(a, prefix);
    AddressMask(Mask(a, prefix), prefix);
    MaskedMultiple(a.bits, Size(a, prefix));
  }

  lemma {:induction false} CoarserMask(x: nat, y: nat, small: nat, factor: nat, big: nat)
    requires small > 0 && factor > 0 && big > 0 && big == small * factor && x - x % small == y - y % small
    ensures x - x % big == y - y % big
  {
    Coarser(x, small, factor);
    Coarser(y, small, factor);
  }

  /** The coarse mask of a number is the coarse mask of its fine mask. */
  lemma {:induction false} Coarser(x: nat, small: nat, factor: nat)
    requires small > 0 && factor > 0
    ensures small * factor > 0 && x - x % small >= 0
    ensures x - x % (small * factor) == (x - x % small) - (x - x % small) % (small * factor)
  {
    var big := small * factor;
    ModBelow(x, small);
    var q, r := x / big, x % big;
    assert x == q * big + r;
    var s, t := r / small, r % small;
    assert r == s * small + t;
    assert q * big == q * factor * small;
    assert x == (q * factor + s) * small + t;
    MulDiv(q * factor + s, small, t);
    QuotientNat(r, small);
    ProductSign(s, small);
    assert x - t == q * big + s * small;
    MulDiv(q, big, s * small);
  }

  /** Two blocks of one family are nested or disjoint. */
  lemma {:induction false} NestedOrDisjoint(a: Address, p: nat, b: Address, q: nat)
    requires Specified(a, p) && Specified(b, q) && (a.V4? <==> b.V4?) && p <= q
    ensures || (forall ip :: ValidAddress(ip) && Contains(MakeBlock(b, q), ip) ==> Contains(MakeBlock(a, p), ip))
            || (forall ip :: ValidAddress(ip) ==> !(Contains(MakeBlock(a, p), ip) && Contains(MakeBlock(b, q), ip)))
  {
    hide Pow2, Mask;
    if exists x :: ValidAddress(x) && Contains(MakeBlock(a, p), x) && Contains(MakeBlock(b, q), x) {
      var x :| ValidAddress(x) && Contains(MakeBlock(a, p), x) && Contains(MakeBlock(b, q), x);
      forall y | ValidAddress(y) && Contains(MakeBlock(b, q), y)
        ensures Contains(MakeBlock(a, p), y)
      {
        CommonMember(a, p, b, q, x, y);
      }
    }
  }

  lemma {:induction false} SizeFactor(w: nat, p: nat, q: nat)
    requires p <= q <= w
    ensures Pow2(w - p) == Pow2(w - q) * Pow2(q - p)
  {
    Pow2Add(w - q, q - p);
  }

  lemma {:induction false} SameFamily(a: Address, p: nat, x: Address)
    requires Specified(a, p) && Contains(MakeBlock(a, p), x)
    ensures (a.V4? <==> x.V4?) && WidthOf(a) == WidthOf(x)
  {
    hide Pow2;
  }

  lemma {:induction false} CommonMember(a: Address, p: nat, b: Address, q: nat, x: Address, y: Address)
    requires Specified(a, p) && Specified(b, q) && (a.V4? <==> b.V4?) && p <= q
    requires ValidAddress(x) && ValidAddress(y)
    requires Contains(MakeBlock(a, p), x) && Contains(MakeBlock(b, q), x) && Contains(MakeBlock(b, q), y)
    ensures Contains(MakeBlock(a, p), y)
  {
    hide Pow2, Mask;
    SameFamily(a, p, x);
    SameFamily(b, q, x);
    SameFamily(b, q, y);
    MasksAgree(x, y, p, q);
  }

  /** Addresses that agree on a long prefix agree on every shorter one. */
  lemma {:induction false} MasksAgree(x: Address, y: Address, p: nat, q: nat)
    requires Specified(x, q) && Specified(y, q) && p <= q && (x.V4? <==> y.V4?) && Mask(x, q) == Mask(y, q)
    ensures Mask(x, p) == Mask(y, p)
  {
    hide Pow2, Mask;
    AddressMask(x, p);
    AddressMask(x, q);
    AddressMask(y, p);
    AddressMask(y, q);
    var w := WidthOf(x);
    SizeFactor(w, p, q);
    CoarserMask(x.bits, y.bits, Pow2(w - q), Pow2(q - p), Pow2(w - p));
    assert Mask(x, p).bits == Mask(y, p).bits;
  }

  lemma {:induction false} QuotientDecides(x: nat, y: nat, d: nat)
    requires d > 0
    ensures x - x % d == y - y % d <==> x / d == y / d
  {
    var p, r := Divided(x, d);
    var q, t := Divided(y, d);
    if p * d == q * d {
      MulDiv(p, d, 0);
      MulDiv(q, d, 0);
    }
  }

  /** An address is in a block exactly when it shares the leading bits: of 32 for IPv4, of 128 for IPv6. */
  lemma {:induction false} SharedPrefix(a: Address, prefix: nat, ip: Address)
    requires ValidAddress(a) && ValidAddress(ip) && prefix <= if a.V4? then 32 else 128
    ensures a.V4? && ip.V4? ==>
              (Contains(MakeBlock(a, prefix), ip) <==> ip.bits / Pow2(32 - prefix) == a.bits / Pow2(32 - prefix))
    ensures a.V6? && ip.V6? ==>
              (Contains(MakeBlock(a, prefix), ip) <==> ip.bits / Pow2(128 - prefix) == a.bits / Pow2(128 - prefix))
    ensures a.V4? != ip.V4? ==> !Contains(MakeBlock(a, prefix), ip)
  {
    hide Pow2, Mask;
    AddressMask(a, prefix);
    if a.V4? == ip.V4? {
      AddressMask(ip, prefix);
      QuotientDecides(ip.bits, a.bits, Size(a, prefix));
    }
  }
}
