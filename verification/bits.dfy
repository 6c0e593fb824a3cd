/** Python-style integer bit operations on unbounded naturals.

    The codec is written against Python's arbitrary-precision integers and
    masks results after the fact. This module gives `&`, `|` and `^` one
    shared recursive definition on `nat`, and derives from a single splitting
    lemma every fact the codec needs: a mask keeps the low bits, `|` of
    disjoint bit ranges is `+`, `^` with all-ones complements, and so on.
 */
module Bits {

  /** One byte as Python's `bytes` yields it: an int in 0..255. */
  type Byte = x: int | 0 <= x < 256

  function Pow2(k: nat): (p: nat)
    ensures p >= 1
  {
    if k == 0 then 1 else Pow2(k - 1) + Pow2(k - 1)
  }

  /** The powers of two the codec works with. */
  lemma Pow2Values()
    ensures Pow2(3) == 8 && Pow2(8) == 0x100 && Pow2(11) == 0x800
    ensures Pow2(15) == 0x8000 && Pow2(16) == 0x1_0000 && Pow2(24) == 0x100_0000
    ensures Pow2(26) == 0x400_0000 && Pow2(27) == 0x800_0000
    ensures Pow2(31) == 0x8000_0000 && Pow2(32) == 0x1_0000_0000
  {
  }

  /** The three bitwise operators, described by what they do to one bit. */
  datatype BitOp = AndBits | OrBits | XorBits {
    function Combine(x: nat, y: nat): nat
    {
      match this
      case AndBits => if x == 1 && y == 1 then 1 else 0
      case OrBits => if x == 1 || y == 1 then 1 else 0
      case XorBits => if x != y then 1 else 0
    }
  }

  /** Applies `op` bit by bit, least significant bit first. */
  function Bitwise(op: BitOp, a: nat, b: nat): nat
    decreases a + b
  {
    if a == 0 && b == 0 then 0
    else 2 * Bitwise(op, a / 2, b / 2) + op.Combine(a % 2, b % 2)
  }

  /** Python's `a & b` on non-negative integers. */
  function And(a: nat, b: nat): nat { Bitwise(AndBits, a, b) }

  /** Python's `a | b` on non-negative integers. */
  function Or(a: nat, b: nat): nat { Bitwise(OrBits, a, b) }

  /** Python's `a ^ b` on non-negative integers. */
  function Xor(a: nat, b: nat): nat { Bitwise(XorBits, a, b) }

  /** Python's `~x & 0xFF` for any int `x`: Python's `~x` is `-x - 1`, and
      masking with 0xFF takes the floor remainder mod 256, which for a
      positive divisor is Dafny's `%`. */
  function Invert8(x: int): (r: Byte)
    ensures r == 255 - x % 256
    ensures 0 <= x < 256 ==> r == 255 - x
  {
    (-x - 1) % 256
  }

  // ---------------------------------------------------------------------------
  // Division and remainder

  lemma MulBounds(d: int, x: int)
    requires d > 0
    ensures x >= 1 ==> d * x >= d
    ensures x <= -1 ==> d * x <= -d
  {
  }

  lemma DivBasics(a: nat, p: nat)
    requires p >= 1
    ensures 0 <= a / p && 0 <= a % p < p
    ensures a == p * (a / p) + a % p
  {
  }

  lemma DivModUnique(a: int, d: int, q: int, r: int)
    requires d > 0 && 0 <= r < d && a == q * d + r
    ensures a / d == q && a % d == r
  {
    var q0, r0 := a / d, a % d;
    assert a == d * q + r;
    assert d * (q0 - q) == r - r0;
    MulBounds(d, q0 - q);
  }

  lemma MulDistrib(a: int, b: int, c: int)
    ensures a * (b + c) == a * b + a * c
  {
  }

  lemma MulAssoc(a: int, b: int, c: int)
    ensures a * (b * c) == c * (a * b)
  {
  }

  /** Dividing by `p` then by `q` is dividing by `p * q`, and the digits
      below `p * q` split into the digit below `p` and the next one. */
  lemma DivMod(a: nat, p: nat, q: nat)
    requires p > 0 && q > 0
    ensures a / p / q == a / (p * q)
    ensures (a % (p * q)) / p == (a / p) % q
    ensures a % (p * q) % p == a % p
  {
    var a1, r := a / p, a % p;
    var q1, r1 := a1 / q, a1 % q;
    var pq := p * q;
    assert a == p * a1 + r;
    assert a1 == q * q1 + r1;
    assert p * a1 == q1 * pq + p * r1 by {
      MulDistrib(p, q * q1, r1);
      MulAssoc(p, q, q1);
    }
    assert p * r1 + r < pq by {
      MulDistrib(p, r1, q - 1 - r1);
      MulDistrib(p, q - 1, 1);
    }
    DivModUnique(a, pq, q1, p * r1 + r);
    assert p * r1 == r1 * p;
    DivModUnique(p * r1 + r, p, r1, r);
  }

  // ---------------------------------------------------------------------------
  // Structure of Bitwise

  lemma Unfold(op: BitOp, a: nat, b: nat)
    ensures Bitwise(op, a, b) == 2 * Bitwise(op, a / 2, b / 2) + op.Combine(a % 2, b % 2)
  {
  }

  lemma OnBits(op: BitOp, x: nat, y: nat)
    requires x < 2 && y < 2
    ensures Bitwise(op, x, y) == op.Combine(x, y)
  {
    Unfold(op, x, y);
  }

  /** A bitwise result splits at bit `k` into the result on the high parts
      and the result on the low parts. */
  lemma {:induction false} Split(op: BitOp, a: nat, b: nat, k: nat)
    ensures Bitwise(op, a, b)
         == Bitwise(op, a / Pow2(k), b / Pow2(k)) * Pow2(k) + Bitwise(op, a % Pow2(k), b % Pow2(k))
  {
    if k > 0 {
      var p, big := Pow2(k - 1), Pow2(k);
      DivBasics(a, big);
      DivBasics(b, big);
      Split(op, a / 2, b / 2, k - 1);
      HalveThenDivide(a, p, big);
      HalveThenDivide(b, p, big);
      Unfold(op, a, b);
      Unfold(op, a % big, b % big);
      var high := Bitwise(op, a / big, b / big);
      Regroup(high, p, big);
    }
  }

  /** Halving and then dividing by `p` divides by `2p`; the remainder mod `2p`
      is the low bit followed by the remainder of the half mod `p`. */
  lemma HalveThenDivide(a: nat, p: nat, big: nat)
    requires p >= 1 && big == p + p
    ensures a / 2 / p == a / big
    ensures a % big / 2 == a / 2 % p
    ensures a % big % 2 == a % 2
  {
    DivMod(a, 2, p);
    assert 2 * p == big;
  }

  lemma Regroup(high: int, p: int, big: int)
    requires big == p + p
    ensures high * big == 2 * (high * p)
  {
  }

  /** Operating on two k-bit values gives a k-bit value. */
  lemma {:induction false} Bound(op: BitOp, a: nat, b: nat, k: nat)
    requires a < Pow2(k) && b < Pow2(k)
    ensures Bitwise(op, a, b) < Pow2(k)
  {
    if k > 0 {
      Bound(op, a / 2, b / 2, k - 1);
    }
  }

  lemma {:induction false} WithZero(op: BitOp, a: nat)
    ensures Bitwise(op, a, 0) == (if op == AndBits then 0 else a)
    ensures Bitwise(op, 0, a) == (if op == AndBits then 0 else a)
    decreases a
  {
    if a > 0 {
      WithZero(op, a / 2);
    }
  }

  /** `x & (2^k - 1)` keeps `x`, and `x ^ (2^k - 1)` complements it, for a k-bit `x`. */
  lemma {:induction false} WithOnes(x: nat, k: nat)
    requires x < Pow2(k)
    ensures And(x, Pow2(k) - 1) == x
    ensures Xor(x, Pow2(k) - 1) == Pow2(k) - 1 - x
  {
    if k > 0 {
      WithOnes(x / 2, k - 1);
      assert (Pow2(k) - 1) / 2 == Pow2(k - 1) - 1;
      Unfold(AndBits, x, Pow2(k) - 1);
      Unfold(XorBits, x, Pow2(k) - 1);
    }
  }

  // ---------------------------------------------------------------------------
  // Facts the codec uses; each takes `p == 2^k` so that callers work with the
  // literal power of two.

  /** `hi << k | lo` with `lo < 2^k` joins disjoint bit ranges, so it is `+`
      (and so is `^`); both operand orders. */
  lemma JoinDisjoint(op: BitOp, hi: nat, lo: nat, k: nat, p: nat)
    requires p == Pow2(k)
    requires op != AndBits && lo < p
    ensures Bitwise(op, hi * p, lo) == hi * p + lo
    ensures Bitwise(op, lo, hi * p) == hi * p + lo
  {
    DivModUnique(hi * p, p, hi, 0);
    DivModUnique(lo, p, 0, lo);
    Split(op, hi * p, lo, k);
    Split(op, lo, hi * p, k);
    WithZero(op, hi);
    WithZero(op, lo);
  }

  /** `x & (2^k - 1)` is `x mod 2^k`. */
  lemma AndLowMask(x: nat, k: nat, p: nat)
    requires p == Pow2(k)
    ensures And(x, p - 1) == x % p
  {
    DivModUnique(p - 1, p, 0, p - 1);
    DivBasics(x, p);
    Split(AndBits, x, p - 1, k);
    WithZero(AndBits, x / p);
    WithOnes(x % p, k);
  }

  /** `x & 2^k` is `2^k` when bit `k` of `x` is set and 0 otherwise. */
  lemma AndSingleBit(x: nat, k: nat, p: nat)
    requires p == Pow2(k)
    ensures And(x, p) == x / p % 2 * p
  {
    DivModUnique(p, p, 1, 0);
    DivBasics(x, p);
    Split(AndBits, x, p, k);
    WithZero(AndBits, x % p);
    var y := x / p;
    Unfold(AndBits, y, 1);
    WithZero(AndBits, y / 2);
  }

  /** `x ^ (2^k - 1)` complements a k-bit `x`. */
  lemma XorAllOnes(x: nat, k: nat, p: nat)
    requires p == Pow2(k) && x < p
    ensures Xor(x, p - 1) == p - 1 - x
  {
    WithOnes(x, k);
  }

  /** Bits at and above `k` never influence `^` below `k`. */
  lemma XorMod(a: nat, b: nat, k: nat, p: nat)
    requires p == Pow2(k)
    ensures Xor(a, b) % p == Xor(a % p, b % p)
  {
    DivBasics(a, p);
    DivBasics(b, p);
    Split(XorBits, a, b, k);
    Bound(XorBits, a % p, b % p, k);
    DivModUnique(Xor(a, b), p, Xor(a / p, b / p), Xor(a % p, b % p));
  }

  /** `^` of two k-bit values is a k-bit value. */
  lemma XorBound(a: nat, b: nat, k: nat, p: nat)
    requires p == Pow2(k) && a < p && b < p
    ensures Xor(a, b) < p
  {
    Bound(XorBits, a, b, k);
  }

  /** `x ^ 2^k` flips bit `k` of a (k+1)-bit `x`. */
  lemma XorTopBit(x: nat, k: nat, p: nat)
    requires p == Pow2(k) && x < 2 * p
    ensures Xor(x, p) == if x >= p then x - p else x + p
  {
    DivModUnique(p, p, 1, 0);
    Split(XorBits, x, p, k);
    WithZero(XorBits, x % p);
    if x >= p {
      DivModUnique(x, p, 1, x - p);
    } else {
      DivModUnique(x, p, 0, x);
    }
    OnBits(XorBits, x / p, 1);
  }

  /** XOR with a mask above bit `k` acts on the bits of `x` above `k` only. */
  lemma XorShifted(x: nat, c: nat, k: nat, p: nat)
    requires p == Pow2(k)
    ensures Xor(x, c * p) == Xor(x / p, c) * p + x % p
  {
    DivModUnique(c * p, p, c, 0);
    DivBasics(x, p);
    Split(XorBits, x, c * p, k);
    WithZero(XorBits, x % p);
  }

  /** XOR with a mask below bit `k` leaves the bits of `x` at and above `k` alone. */
  lemma XorLow(x: nat, m: nat, k: nat, p: nat)
    requires p == Pow2(k) && m < p
    ensures Xor(x, m) == x / p * p + Xor(x % p, m)
  {
    DivModUnique(m, p, 0, m);
    DivBasics(x, p);
    Split(XorBits, x, m, k);
    WithZero(XorBits, x / p);
  }
}
