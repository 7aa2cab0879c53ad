/** Bit operations on natural numbers, and what they mean in arithmetic. */
module Bits {

  function Pow2(n: nat): (p: nat)
    ensures p >= 1
  {
    if n == 0 then 1 else 2 * Pow2(n - 1)
  }

  /** Bitwise and. */
  function BitAnd(a: nat, b: nat): nat {
    if a == 0 || b == 0 then 0
    else 2 * BitAnd(a / 2, b / 2) + (if a % 2 == 1 && b % 2 == 1 then 1 else 0)
  }

  /** Bitwise or. */
  function BitOr(a: nat, b: nat): nat {
    if a == 0 then b
    else if b == 0 then a
    else 2 * BitOr(a / 2, b / 2) + (if a % 2 == 1 || b % 2 == 1 then 1 else 0)
  }

  /** Left shift in a register of `width` bits: what leaves at the top is lost. */
  function Shl(x: nat, k: nat, width: nat): nat {
    x * Pow2(k) % Pow2(width)
  }

  function Shr(x: nat, k: nat): nat {
    QuotientNat(x, Pow2(k));
    x / Pow2(k)
  }

  lemma {:induction false} QuotientNat(x: nat, d: nat)
    requires d > 0
    ensures x / d >= 0
  {
    var q, r := x / d, x % d;
    assert x == q * d + r;
    if q < 0 {
      ProductSign(-1 - q, d);
    }
  }

  lemma {:induction false} Pow2Add(a: nat, b: nat)
    ensures Pow2(a + b) == Pow2(a) * Pow2(b)
  {
    if a > 0 {
      Pow2Add(a - 1, b);
      assert Pow2(a + b) == 2 * Pow2(a - 1 + b);
    }
  }

  lemma {:induction false} Pow2Monotone(a: nat, b: nat)
    requires a <= b
    ensures Pow2(a) <= Pow2(b)
    decreases b - a
  {
    if a < b {
      Pow2Monotone(a, b - 1);
    }
  }

  lemma {:induction false} MulDiv(q: int, d: int, r: int)
    requires 0 <= r < d
    ensures (q * d + r) / d == q && (q * d + r) % d == r
  {
    var x := q * d + r;
    var a, b := x / d, x % d;
    assert x == a * d + b;
    assert (a - q) * d == r - b;
    SmallMultiple(a - q, d, r - b);
  }

  lemma {:induction false} SmallMod(x: nat, d: nat)
    requires x < d
    ensures x % d == x
  {
  }

  lemma {:induction false} SmallMultiple(k: int, d: int, e: int)
    requires d > 0 && k * d == e && -d < e < d
    ensures k == 0
  {
    if k >= 1 {
      ProductSign(k - 1, d);
    } else if k <= -1 {
      ProductSign(-1 - k, d);
    }
  }

  lemma {:induction false} ProductSign(a: int, b: int)
    requires a >= 0 && b >= 0
    ensures a * b >= 0
  {
  }

  /** Halving a number that is split at bit `k`. */
  lemma {:induction false} HalfSplit(x: nat, p: nat)
    requires p > 0
    ensures x % (2 * p) == 2 * (x / 2 % p) + x % 2
  {
    var q, r := x / 2 / p, x / 2 % p;
    assert x / 2 == q * p + r;
    assert q * (2 * p) == 2 * (q * p);
    assert x == q * (2 * p) + (2 * r + x % 2);
    MulDiv(q, 2 * p, 2 * r + x % 2);
  }

  lemma {:induction false} ModShift(n: int, k: int, d: int)
    requires d > 0
    ensures (n + k * d) % d == n % d
  {
    assert n == n / d * d + n % d;
    assert n + k * d == (n / d + k) * d + n % d;
    MulDiv(n / d + k, d, n % d);
  }

  /** The low `k` bits by masking. */
  lemma {:induction false} AndLow(x: nat, k: nat)
    ensures BitAnd(x, Pow2(k) - 1) == x % Pow2(k)
  {
    hide BitAnd;
    if k == 0 {
      AndZero(x);
    } else {
      AndLow(x / 2, k - 1);
      AndOdd(x, Pow2(k - 1) - 1);
      HalfSplit(x, Pow2(k - 1));
    }
  }

  lemma {:induction false} AndOdd(x: nat, m: nat)
    ensures BitAnd(x, 2 * m + 1) == 2 * BitAnd(x / 2, m) + x % 2
  {
    assert (2 * m + 1) / 2 == m && (2 * m + 1) % 2 == 1;
  }

  lemma {:induction false} HighStep(x: nat, p: nat)
    requires p > 0
    ensures x - x % (2 * p) == 2 * (x / 2 - x / 2 % p)
  {
    HalfSplit(x, p);
  }

  /** Masking with the ones from `p` up to `top` clears what lies below `p`. */
  ghost predicate Clears(x: nat, top: nat, p: nat) {
    0 < p <= top && BitAnd(x, top - p) == x - x % p
  }

  lemma {:induction false} ClearsStep(x: nat, top: nat, p: nat)
    requires Clears(x / 2, top, p)
    ensures Clears(x, 2 * top, 2 * p)
  {
    hide BitAnd;
    AndEven(x, top - p);
    HighStep(x, p);
  }

  lemma {:induction false} ClearsWhole(x: nat, p: nat)
    requires x < p
    ensures Clears(x, p, p)
  {
    hide BitAnd;
    AndZero(x);
    SmallMod(x, p);
  }

  lemma {:induction false} ClearsNothing(x: nat, w: nat)
    requires x < Pow2(w)
    ensures Clears(x, Pow2(w), 1)
  {
    hide BitAnd, Pow2;
    AndAll(x, w);
  }

  lemma {:induction false} ClearsHigh(x: nat, k: nat, w: nat)
    requires k <= w && x < Pow2(w)
    ensures Clears(x, Pow2(w), Pow2(k))
  {
    hide Clears, Pow2;
    if k == w {
      ClearsWhole(x, Pow2(w));
    } else if k == 0 {
      AndAll(x, w);
      ClearsNothing(x, w);
    } else {
      Pow2Step(w);
      Pow2Step(k);
      HalfBelow(x, Pow2(w - 1));
      ClearsHigh(x / 2, k - 1, w - 1);
      ClearsStep(x, Pow2(w - 1), Pow2(k - 1));
    }
  }

  lemma {:induction false} AndZero(x: nat)
    ensures BitAnd(x, 0) == 0 && BitAnd(0, x) == 0
  {
  }

  lemma {:induction false} AndEven(x: nat, m: nat)
    ensures BitAnd(x, 2 * m) == 2 * BitAnd(x / 2, m)
  {
  }

  lemma {:induction false} Pow2Step(n: nat)
    requires n > 0
    ensures Pow2(n) == 2 * Pow2(n - 1)
  {
  }

  /** The bits from `k` on by masking with a run of ones that ends at `w`. */
  lemma {:induction false} AndHigh(x: nat, k: nat, w: nat)
    requires k <= w && x < Pow2(w)
    ensures Pow2(k) <= Pow2(w)
    ensures BitAnd(x, Pow2(w) - Pow2(k)) == x - x % Pow2(k)
  {
    hide BitAnd, Pow2;
    ClearsHigh(x, k, w);
  }

  lemma {:induction false} HalfBelow(x: nat, p: nat)
    requires x < 2 * p
    ensures x / 2 < p
  {
  }

  lemma {:induction false} AndAll(x: nat, w: nat)
    requires x < Pow2(w)
    ensures Pow2(0) == 1 && x % 1 == 0 && BitAnd(x, Pow2(w) - 1) == x
  {
    AndLow(x, w);
    SmallMod(x, Pow2(w));
    hide BitAnd;
  }

  /** Or fills in bits that were shifted in as zero. */
  lemma {:induction false} OrDisjoint(q: nat, k: nat, b: nat)
    requires b < Pow2(k)
    ensures BitOr(q * Pow2(k), b) == q * Pow2(k) + b
  {
    var a := q * Pow2(k);
    if k > 0 && a > 0 && b > 0 {
      var p := Pow2(k - 1);
      assert a == 2 * (q * p);
      OrDisjoint(q, k - 1, b / 2);
    }
  }

  lemma {:induction false} ModOfMod(x: nat, a: nat, b: nat)
    requires a > 0 && b > 0
    ensures a * b > 0 && x % (a * b) % a == x % a
  {
    var q, r := x / (a * b), x % (a * b);
    assert x == q * (a * b) + r;
    var s, t := r / a, r % a;
    assert r == s * a + t;
    assert x == (q * b + s) * a + t;
    MulDiv(q * b + s, a, t);
  }

  lemma {:induction false} QuotientBelow(s: int, a: int, t: int, b: int)
    requires a > 0 && 0 <= t && s * a + t < a * b
    ensures s < b
  {
    if s >= b {
      ProductSign(s - b, a);
    }
  }

  lemma {:induction false} DivThenMod(x: nat, a: nat, b: nat)
    requires a > 0 && b > 0
    ensures a * b > 0 && x / a % b == x % (a * b) / a
  {
    ProductPositive(a, b);
    var q, r := Divided(x, a * b);
    var s, t := Divided(r, a);
    QuotientBelow(s, a, t, b);
    SplitTwice(q, a, b, s, t);
  }

  lemma {:induction false} ProductPositive(a: int, b: int)
    requires a > 0 && b > 0
    ensures a * b > 0
  {
  }

  lemma {:induction false} Divided(x: nat, d: nat) returns (q: nat, r: nat)
    requires d > 0
    ensures x / d == q && x % d == r && x == q * d + r && r < d
  {
    q, r := x / d, x % d;
  }

  /** A number written as `q` whole products, `s` multiples of `a` and a rest. */
  lemma {:induction false} SplitTwice(q: int, a: nat, b: nat, s: int, t: int)
    requires 0 <= t < a && 0 <= s < b
    ensures (q * (a * b) + (s * a + t)) / a % b == s
  {
    Regroup(q, a, b, s, t);
    MulDiv(q * b + s, a, t);
    MulDiv(q, b, s);
  }

  lemma {:induction false} Regroup(q: int, a: int, b: int, s: int, t: int)
    ensures q * (a * b) + (s * a + t) == (q * b + s) * a + t
  {
    assert q * (a * b) == (q * b) * a;
  }

  /** Scaling number and modulus scales the remainder. */
  lemma {:induction false} ScaleMod(x: nat, p: nat, s: nat)
    requires p > 0 && s > 0
    ensures p * s > 0 && x * s % (p * s) == x % p * s
  {
    var q, r := x / p, x % p;
    assert x == q * p + r;
    assert x * s == (q * p) * s + r * s;
    assert (q * p) * s == q * (p * s);
    ProductSign(r, s);
    ProductSign(p - 1 - r, s);
    assert (p - 1 - r) * s == p * s - s - r * s;
    MulDiv(q, p * s, r * s);
  }
}
