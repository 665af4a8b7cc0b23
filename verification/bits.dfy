/** Non-negative integers read as little-endian bit strings.

    The decoder works on Python `int`s with `&`, `|`, `^`, `<<` and `>>`.
    Every value those operators see in the modelled code is non-negative, so
    the operators are defined here on `nat` by recursion on the binary
    expansion, and the facts the rest of the model needs are proved once. */
module Bits {

  /** A value that fits in one octet. */
  type byte = x: int | 0 <= x < 256

  /** 2^k, i.e. Python's `1 << k`. */
  function Pow2(k: nat): (p: nat)
    ensures p >= 1
  {
    if k == 0 then 1 else 2 * Pow2(k - 1)
  }

  /** The powers of two the byte and Golay code use. */
  lemma SmallPowers()
    ensures Pow2(0) == 1 && Pow2(1) == 2 && Pow2(4) == 16 && Pow2(8) == 256
    ensures Pow2(12) == 0x1000 && Pow2(16) == 0x1_0000
  {
    assert Pow2(4) == 16;
    assert Pow2(8) == 256;
    assert Pow2(12) == 0x1000;
  }

  /** Bit k of x, i.e. Python's `(x >> k) & 1` (see BitIsShiftedLowBit). */
  function Bit(x: nat, k: nat): (b: nat)
    ensures b < 2
  {
    if k == 0 then x % 2 else Bit(x / 2, k - 1)
  }

  /** Python's `a ^ b` on non-negative integers. */
  function Xor(a: nat, b: nat): nat
    decreases a + b
  {
    if a == 0 then b
    else if b == 0 then a
    else 2 * Xor(a / 2, b / 2) + (if a % 2 == b % 2 then 0 else 1)
  }

  /** `a ^ b` on two bytes, itself a byte. */
  function XorByte(a: byte, b: byte): (r: byte)
    ensures r == Xor(a, b)
  {
    SmallPowers();
    XorBound(a, b, 8);
    Xor(a, b)
  }

  /** Python's `a & b` on non-negative integers. */
  function And(a: nat, b: nat): nat
    decreases a
  {
    if a == 0 || b == 0 then 0
    else 2 * And(a / 2, b / 2) + (if a % 2 == 1 && b % 2 == 1 then 1 else 0)
  }

  /** Python's `a | b` on non-negative integers. */
  function Or(a: nat, b: nat): nat
    decreases a + b
  {
    if a == 0 then b
    else if b == 0 then a
    else 2 * Or(a / 2, b / 2) + (if a % 2 == 1 || b % 2 == 1 then 1 else 0)
  }

  /** Number of one bits in the binary form of x. */
  function Ones(x: nat): nat
  {
    if x == 0 then 0 else x % 2 + Ones(x / 2)
  }

  // ---------------------------------------------------------------------
  // One-step unfoldings that hold for every argument, zero included.

  lemma OnesStep(x: nat)
    ensures Ones(x) == x % 2 + Ones(x / 2)
  {
  }

  lemma XorStep(a: nat, b: nat)
    ensures Xor(a, b) == 2 * Xor(a / 2, b / 2) + (if a % 2 == b % 2 then 0 else 1)
  {
    if a == 0 {
      assert Xor(a / 2, b / 2) == b / 2;
    } else if b == 0 {
      assert Xor(a / 2, b / 2) == a / 2;
    }
  }

  lemma AndStep(a: nat, b: nat)
    ensures And(a, b) == 2 * And(a / 2, b / 2) + (if a % 2 == 1 && b % 2 == 1 then 1 else 0)
  {
    if a == 0 || b == 0 {
      assert And(a / 2, b / 2) == 0;
    }
  }

  lemma OrStep(a: nat, b: nat)
    ensures Or(a, b) == 2 * Or(a / 2, b / 2) + (if a % 2 == 1 || b % 2 == 1 then 1 else 0)
  {
    if a == 0 {
      assert Or(a / 2, b / 2) == b / 2;
    } else if b == 0 {
      assert Or(a / 2, b / 2) == a / 2;
    }
  }

  // ---------------------------------------------------------------------
  // Exclusive or

  lemma {:induction false} XorZero(a: nat)
    ensures Xor(a, 0) == a && Xor(0, a) == a
  {
  }

  lemma {:induction false} XorSelf(a: nat)
    ensures Xor(a, a) == 0
    decreases a
  {
    if a != 0 {
      XorSelf(a / 2);
    }
  }

  lemma {:induction false} XorComm(a: nat, b: nat)
    ensures Xor(a, b) == Xor(b, a)
    decreases a + b
  {
    if a != 0 && b != 0 {
      XorComm(a / 2, b / 2);
    }
  }

  lemma {:induction false} XorAssoc(a: nat, b: nat, c: nat)
    ensures Xor(Xor(a, b), c) == Xor(a, Xor(b, c))
    decreases a + b + c
  {
    if a != 0 || b != 0 || c != 0 {
      XorAssoc(a / 2, b / 2, c / 2);
      XorHalves(a, b);
      XorHalves(b, c);
      XorHalves(Xor(a, b), c);
      XorHalves(a, Xor(b, c));
      SameHalves(Xor(Xor(a, b), c), Xor(a, Xor(b, c)));
    }
  }

  /** Xor splits into the xor of the high parts and of the low bits. */
  lemma XorHalves(a: nat, b: nat)
    ensures Xor(a, b) / 2 == Xor(a / 2, b / 2)
    ensures Xor(a, b) % 2 == (a % 2 + b % 2) % 2
  {
    XorStep(a, b);
    var c := if a % 2 == b % 2 then 0 else 1;
    Halve(Xor(a / 2, b / 2), c);
    SumMod2(a % 2, b % 2);
  }

  /** The exclusive or of two bits is their sum modulo 2. */
  lemma XorOfBits(c: nat, p: nat)
    requires c < 2 && p < 2
    ensures Xor(c, p) == (c + p) % 2
  {
    if c == 1 && p == 1 {
      assert Xor(c, p) == 2 * Xor(0, 0) + 0;
    }
  }

  /** Reducing one addend modulo 2 first does not change the sum's parity. */
  lemma AddMod2(a: int, b: int)
    ensures (a + b % 2) % 2 == (a + b) % 2
  {
    var q := b / 2;
    assert b == 2 * q + b % 2;
    assert a + b == 2 * q + (a + b % 2);
  }

  /** The sum of two bits modulo 2 is their exclusive or. */
  lemma SumMod2(x: int, y: int)
    requires 0 <= x < 2 && 0 <= y < 2
    ensures (x + y) % 2 == if x == y then 0 else 1
  {
  }

  /** The high part and the low bit of 2q + c. */
  lemma Halve(q: int, c: int)
    requires 0 <= c < 2
    ensures (2 * q + c) / 2 == q && (2 * q + c) % 2 == c
  {
    LemmaFundamentalDivMod(2 * q + c, 2, q, c);
  }

  /** Two numbers with the same low bit and the same high part are equal. */
  lemma SameHalves(x: nat, y: nat)
    requires x / 2 == y / 2 && x % 2 == y % 2
    ensures x == y
  {
  }

  /** Applying the same mask twice restores the value. */
  lemma XorCancel(a: nat, b: nat)
    ensures Xor(Xor(a, b), b) == a
  {
    XorAssoc(a, b, b);
    XorSelf(b);
    XorZero(a);
  }

  /** Exclusive or is zero exactly on equal operands. */
  lemma XorZeroIff(a: nat, b: nat)
    ensures Xor(a, b) == 0 <==> a == b
  {
    XorSelf(a);
    if Xor(a, b) == 0 {
      XorCancel(a, b);
      XorZero(b);
    }
  }

  /** The exclusive or of two k-bit values is a k-bit value. */
  lemma {:induction false} XorBound(a: nat, b: nat, k: nat)
    requires a < Pow2(k) && b < Pow2(k)
    ensures Xor(a, b) < Pow2(k)
    decreases k
  {
    if k > 0 && a != 0 && b != 0 {
      XorBound(a / 2, b / 2, k - 1);
    }
  }

  /** Bit k of an exclusive or is the exclusive or of the two bits. */
  lemma {:induction false} XorBit(a: nat, b: nat, k: nat)
    ensures Bit(Xor(a, b), k) == (if Bit(a, k) == Bit(b, k) then 0 else 1)
    decreases k
  {
    XorHalves(a, b);
    if k > 0 {
      XorBit(a / 2, b / 2, k - 1);
      BitStep(a, k);
      BitStep(b, k);
      BitStep(Xor(a, b), k);
    } else {
      BitZero(a);
      BitZero(b);
      BitZero(Xor(a, b));
    }
  }

  /** Bit 0 is the low bit. */
  lemma BitZero(x: nat)
    ensures Bit(x, 0) == x % 2
  {
  }

  /** Bit k of x is bit k - 1 of x / 2. */
  lemma BitStep(x: nat, k: nat)
    requires k > 0
    ensures Bit(x, k) == Bit(x / 2, k - 1)
  {
  }

  /** Bit k is the low bit of x shifted right by k. */
  lemma {:induction false} BitIsShiftedLowBit(x: nat, k: nat)
    ensures Bit(x, k) == (x / Pow2(k)) % 2
    decreases k
  {
    if k > 0 {
      BitIsShiftedLowBit(x / 2, k - 1);
      DivPow2(x, k);
    }
  }

  /** Keeping the low k bits commutes with exclusive or. */
  lemma {:induction false} XorLow(a: nat, b: nat, k: nat)
    ensures Xor(a, b) % Pow2(k) == Xor(a % Pow2(k), b % Pow2(k))
    decreases k
  {
    var p := Pow2(k);
    if k == 0 {
      assert p == 1;
      XorZero(0);
    } else {
      var x := Xor(a, b);
      var y := Xor(a % p, b % p);
      XorLow(a / 2, b / 2, k - 1);
      XorHalves(a, b);
      XorHalves(a % p, b % p);
      ModPow2(a, k);
      ModPow2(b, k);
      ModPow2(x, k);
      var q := Pow2(k - 1);
      assert (a % p) / 2 == (a / 2) % q && (b % p) / 2 == (b / 2) % q;
      assert y / 2 == Xor((a / 2) % q, (b / 2) % q);
      assert y / 2 == (x % p) / 2;
      assert (a % p) % 2 == a % 2 && (b % p) % 2 == b % 2;
      assert y % 2 == (x % p) % 2;
      SameHalves(x % p, y);
    }
  }

  // ---------------------------------------------------------------------
  // Powers of two

  /** x / 2^k steps down one bit at a time. */
  lemma DivPow2(x: nat, k: nat)
    requires k > 0
    ensures x / Pow2(k) == (x / 2) / Pow2(k - 1)
  {
    DivDiv(x, 2, Pow2(k - 1));
  }

  /** x % 2^k is the low bit plus twice the remaining k-1 low bits. */
  lemma ModPow2(x: nat, k: nat)
    requires k > 0
    ensures x % Pow2(k) == 2 * ((x / 2) % Pow2(k - 1)) + x % 2
    ensures (x % Pow2(k)) / 2 == (x / 2) % Pow2(k - 1)
    ensures (x % Pow2(k)) % 2 == x % 2
  {
    var p := Pow2(k - 1);
    var q := (x / 2) / p;
    var m := (x / 2) % p;
    assert x / 2 == q * p + m;
    assert x == 2 * (q * p + m) + x % 2;
    assert x == q * (2 * p) + (2 * m + x % 2);
    assert 0 <= 2 * m + x % 2 < 2 * p;
    LemmaFundamentalDivMod(x, 2 * p, q, 2 * m + x % 2);
  }

  lemma DivDiv(x: nat, a: nat, b: nat)
    requires a > 0 && b > 0
    ensures x / a / b == x / (a * b)
  {
    var q := x / a / b;
    var r := (x / a) % b;
    assert x / a == q * b + r;
    assert x == (q * b + r) * a + x % a;
    assert x == q * (a * b) + (r * a + x % a);
    assert r * a + x % a < a * b by {
      assert r * a <= (b - 1) * a;
    }
    LemmaFundamentalDivMod(x, a * b, q, r * a + x % a);
  }

  /** Division with remainder is unique. */
  lemma LemmaFundamentalDivMod(x: int, d: int, q: int, r: int)
    requires d > 0 && 0 <= r < d && x == q * d + r
    ensures x / d == q && x % d == r
  {
    var q0 := x / d;
    var r0 := x % d;
    var t := q - q0;
    assert t * d == r0 - r by {
      assert q * d + r == q0 * d + r0;
      assert q * d - q0 * d == (q - q0) * d;
    }
    if t >= 1 {
      MulAtLeast(t, d);
    }
  }

  /** Doubling one factor doubles the product. */
  lemma Double(a: int, p: int)
    ensures a * (2 * p) == 2 * (a * p) && (2 * a) * p == 2 * (a * p)
  {
  }

  lemma MulAddRight(x: int, y: int, p: int)
    ensures (x + y) * p == x * p + y * p
  {
  }

  lemma MulAtLeast(t: int, d: int)
    requires t >= 1 && d > 0
    ensures t * d >= d
  {
    assert t * d == (t - 1) * d + d;
    assert (t - 1) * d >= 0;
  }

  lemma Pow2Add(a: nat, b: nat)
    ensures Pow2(a + b) == Pow2(a) * Pow2(b)
  {
    if a > 0 {
      Pow2Add(a - 1, b);
    }
  }

  // ---------------------------------------------------------------------
  // And, Or

  /** `x & (2^k - 1)` keeps the low k bits. */
  lemma {:induction false} AndLowMask(x: nat, k: nat)
    ensures And(x, Pow2(k) - 1) == x % Pow2(k)
    decreases k
  {
    if k > 0 {
      AndLowMask(x / 2, k - 1);
      AndStep(x, Pow2(k) - 1);
      ModPow2(x, k);
    }
  }

  /** And never exceeds either operand. */
  lemma {:induction false} AndBound(a: nat, b: nat)
    ensures And(a, b) <= a && And(a, b) <= b
    decreases a
  {
    if a != 0 && b != 0 {
      AndBound(a / 2, b / 2);
    }
  }

  /** When b fits below bit k, `(a << k) | b` is `a * 2^k + b`. */
  lemma {:induction false} OrShifted(a: nat, b: nat, k: nat)
    requires b < Pow2(k)
    ensures Or(a * Pow2(k), b) == a * Pow2(k) + b
    decreases k
  {
    if k > 0 {
      var m := a * Pow2(k - 1);
      assert a * Pow2(k) == 2 * m;
      OrShifted(a, b / 2, k - 1);
      OrStep(2 * m, b);
      assert (2 * m) / 2 == m && (2 * m) % 2 == 0;
    } else {
      assert b == 0;
    }
  }

  /** Or-ing bit c into position k below a multiple of 2^(k + 1) adds
      it: `(a << (k + 1)) | (c << k)`. */
  lemma {:induction false} OrBitBelow(a: nat, c: nat, k: nat)
    requires c < 2
    ensures Or(a * Pow2(k + 1), c * Pow2(k)) == a * Pow2(k + 1) + c * Pow2(k)
    decreases k
  {
    if k == 0 {
      OrShifted(a, c, 1);
    } else {
      var x := a * Pow2(k);
      var y := c * Pow2(k - 1);
      assert Pow2(k + 1) == 2 * Pow2(k);
      Double(a, Pow2(k));
      Double(c, Pow2(k - 1));
      OrBitBelow(a, c, k - 1);
      OrStep(2 * x, 2 * y);
      assert (2 * x) / 2 == x && (2 * x) % 2 == 0;
      assert (2 * y) / 2 == y && (2 * y) % 2 == 0;
    }
  }

  /** An or is zero exactly when both operands are. */
  lemma OrZeroIff(a: nat, b: nat)
    ensures Or(a, b) == 0 <==> a == 0 && b == 0
  {
    if a != 0 && b != 0 {
      OrStep(a, b);
      if a % 2 == 0 && b % 2 == 0 {
        OrZeroIff(a / 2, b / 2);
      }
    }
  }

  /** `x | 0` and `0 | x` are x. */
  lemma OrZero(x: nat)
    ensures Or(x, 0) == x && Or(0, x) == x
  {
  }

  // ---------------------------------------------------------------------
  // Population count

  lemma {:induction false} OnesZeroIff(x: nat)
    ensures Ones(x) == 0 <==> x == 0
    decreases x
  {
    if x != 0 {
      OnesZeroIff(x / 2);
    }
  }

  /** A number below 2^k has at most k one bits. */
  lemma {:induction false} OnesBound(x: nat, k: nat)
    requires x < Pow2(k)
    ensures Ones(x) <= k
    decreases k
  {
    if k > 0 && x != 0 {
      OnesBound(x / 2, k - 1);
    }
  }

  /** A power of two has exactly one bit set. */
  lemma {:induction false} OnesPow2(k: nat)
    ensures Ones(Pow2(k)) == 1
    decreases k
  {
    if k > 0 {
      OnesPow2(k - 1);
      assert Pow2(k) / 2 == Pow2(k - 1);
    }
  }

  /** Popcount is additive over a split at bit k. */
  lemma {:induction false} OnesSplit(a: nat, b: nat, k: nat)
    requires b < Pow2(k)
    ensures Ones(a * Pow2(k) + b) == Ones(a) + Ones(b)
    decreases k
  {
    if k > 0 {
      var p := Pow2(k - 1);
      var m := a * p;
      Double(a, p);
      OnesSplit(a, b / 2, k - 1);
      var x := 2 * (m + b / 2) + b % 2;
      assert a * Pow2(k) + b == x;
      Halve(m + b / 2, b % 2);
      OnesStep(x);
      OnesStep(b);
    } else {
      assert b == 0;
    }
  }

  /** The one bits of `(a << k) | b`, for b below bit k, are those of a and b. */
  lemma OnesOfOrShifted(a: nat, b: nat, k: nat)
    requires b < Pow2(k)
    ensures Ones(Or(a * Pow2(k), b)) == Ones(a) + Ones(b)
  {
    OrShifted(a, b, k);
    OnesSplit(a, b, k);
  }

  /** Dropping high bits never adds one bits. */
  lemma {:induction false} OnesLow(x: nat, k: nat)
    ensures Ones(x % Pow2(k)) <= Ones(x)
    decreases k
  {
    if k > 0 {
      OnesLow(x / 2, k - 1);
      ModPow2(x, k);
      var m := x % Pow2(k);
      if m == 0 {
        OnesZeroIff(m);
      } else {
        assert Ones(m) == m % 2 + Ones(m / 2);
      }
    }
  }
}
