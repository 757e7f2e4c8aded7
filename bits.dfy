/**
 * Non-negative integers used as bit-vectors of unbounded width, the way the
 * jump-polynomial code uses Python integers: bit `i` of `x` is `(x >> i) & 1`,
 * `x ^ y` is the bit-wise exclusive or, `x << 1` is `2 * x`.
 */
module Bits {

  /** 2^k. */
  function Pow2(k: nat): (r: nat)
    ensures r >= 1
  {
    if k == 0 then 1 else 2 * Pow2(k - 1)
  }

  /** Bit-wise exclusive or (Python's `^` on non-negative integers). */
  function Xor(a: nat, b: nat): nat
    decreases a + b
  {
    if a == 0 then b
    else if b == 0 then a
    else 2 * Xor(a / 2, b / 2) + XorDigit(a % 2, b % 2)
  }

  /** Exclusive or of two binary digits. */
  function XorDigit(x: nat, y: nat): nat
  {
    if x == y then 0 else 1
  }

  /** Right shift (Python's `x >> i`). */
  function Shr(x: nat, i: nat): nat
  {
    if i == 0 then x else Shr(x / 2, i - 1)
  }

  /** Bit `i` of `x` (Python's `(x >> i) & 1`). */
  function Bit(x: nat, i: nat): nat
  {
    Shr(x, i) % 2
  }

  /** b^e (Python's `b ** e`). */
  function Pow(b: nat, e: nat): nat
  {
    if e == 0 then 1 else b * Pow(b, e - 1)
  }

  /** The low w bits of x (Python's `x & (2**w - 1)`). */
  function Low(x: nat, w: nat): nat
  {
    if w == 0 then 0 else 2 * Low(x / 2, w - 1) + x % 2
  }

  /** Number of binary digits of `x` (Python's `x.bit_length()`). */
  function BitLength(x: nat): nat
  {
    if x == 0 then 0 else 1 + BitLength(x / 2)
  }

  // ---------------------------------------------------------------------
  // Exclusive or

  /** Xor works digit by digit: its lowest bit is the sum mod 2 of the lowest bits. */
  lemma XorStep(a: nat, b: nat)
    ensures Xor(a, b) == 2 * Xor(a / 2, b / 2) + XorDigit(a % 2, b % 2)
  {
    if a == 0 {
      assert Xor(a / 2, b / 2) == b / 2;
    } else if b == 0 {
      assert Xor(a / 2, b / 2) == a / 2;
    }
  }

  lemma XorDigits(a: nat, b: nat)
    ensures Xor(a, b) % 2 == XorDigit(a % 2, b % 2)
    ensures Xor(a, b) / 2 == Xor(a / 2, b / 2)
  {
    XorStep(a, b);
  }

  lemma XorZero(a: nat)
    ensures Xor(a, 0) == a && Xor(0, a) == a
  {
  }

  lemma {:induction false} XorSelf(a: nat)
    ensures Xor(a, a) == 0
    decreases a
  {
    if a != 0 {
      XorSelf(a / 2);
      XorStep(a, a);
    }
  }

  lemma {:induction false} XorComm(a: nat, b: nat)
    ensures Xor(a, b) == Xor(b, a)
    decreases a + b
  {
    if a != 0 && b != 0 {
      XorComm(a / 2, b / 2);
    }
  }

  lemma {:induction false} XorAssoc(a: nat, b: nat, c: nat)
    ensures Xor(Xor(a, b), c) == Xor(a, Xor(b, c))
    decreases a + b + c
  {
    if a + b + c != 0 {
      XorAssoc(a / 2, b / 2, c / 2);
      XorDigits(a, b);
      XorDigits(b, c);
      XorStep(Xor(a, b), c);
      XorStep(a, Xor(b, c));
    }
  }

  /** Shifting left distributes over xor: `(a ^ b) << 1 == (a << 1) ^ (b << 1)`. */
  lemma XorDouble(a: nat, b: nat)
    ensures Xor(2 * a, 2 * b) == 2 * Xor(a, b)
  {
    XorStep(2 * a, 2 * b);
  }

  /** Xor of two numbers below 2^m stays below 2^m. */
  lemma {:induction false} XorBound(a: nat, b: nat, m: nat)
    requires a < Pow2(m) && b < Pow2(m)
    ensures Xor(a, b) < Pow2(m)
  {
    if m != 0 {
      XorBound(a / 2, b / 2, m - 1);
      XorStep(a, b);
    }
  }

  /** Two numbers whose top bit is bit m cancel it: the xor is below 2^m. */
  lemma {:induction false} XorTopCancel(a: nat, b: nat, m: nat)
    requires Pow2(m) <= a < Pow2(m + 1) && Pow2(m) <= b < Pow2(m + 1)
    ensures Xor(a, b) < Pow2(m)
  {
    if m == 0 {
      assert a == 1 && b == 1;
    } else {
      XorTopCancel(a / 2, b / 2, m - 1);
      XorStep(a, b);
    }
  }

  /** Regrouping four terms: `(w ^ x) ^ (y ^ z) == (w ^ y) ^ (x ^ z)`. */
  lemma XorSwap(w: nat, x: nat, y: nat, z: nat)
    ensures Xor(Xor(w, x), Xor(y, z)) == Xor(Xor(w, y), Xor(x, z))
  {
    calc {
      Xor(Xor(w, x), Xor(y, z));
      { XorAssoc(w, x, Xor(y, z)); }
      Xor(w, Xor(x, Xor(y, z)));
      { XorAssoc(x, y, z); XorComm(x, y); XorAssoc(y, x, z); }
      Xor(w, Xor(y, Xor(x, z)));
      { XorAssoc(w, y, Xor(x, z)); }
      Xor(Xor(w, y), Xor(x, z));
    }
  }

  /** Equal numbers are exactly those whose xor is zero. */
  lemma {:induction false} XorZeroEq(a: nat, b: nat)
    ensures Xor(a, b) == 0 <==> a == b
    decreases a + b
  {
    if a == b {
      XorSelf(a);
    } else if a != 0 && b != 0 {
      XorZeroEq(a / 2, b / 2);
      XorStep(a, b);
    }
  }

  /** A low digit xor-ed onto an even number is added to it. */
  lemma XorLowDigit(x: nat, d: nat)
    requires d < 2
    ensures Xor(2 * x, d) == 2 * x + d
  {
    XorStep(2 * x, d);
  }

  /** Xor with a number below 2^m leaves a number at least 2^m at least 2^m. */
  lemma {:induction false} XorHigh(x: nat, y: nat, m: nat)
    requires y < Pow2(m) <= x
    ensures Xor(x, y) >= Pow2(m)
  {
    if m != 0 {
      XorHigh(x / 2, y / 2, m - 1);
      XorStep(x, y);
    }
  }

  // ---------------------------------------------------------------------
  // Shifts and bits

  lemma {:induction false} ShrSucc(x: nat, j: nat)
    ensures Shr(x, j + 1) == Shr(x, j) / 2
    decreases j
  {
    if j != 0 {
      ShrSucc(x / 2, j - 1);
    }
  }

  /** `x >> j` is twice `x >> (j + 1)` plus bit j. */
  lemma ShrBit(x: nat, j: nat)
    ensures Shr(x, j) == 2 * Shr(x, j + 1) + Bit(x, j)
  {
    ShrSucc(x, j);
  }

  /** `x >> m` is zero exactly when x is below 2^m. */
  lemma {:induction false} ShrZero(x: nat, m: nat)
    ensures Shr(x, m) == 0 <==> x < Pow2(m)
    decreases m
  {
    if m != 0 {
      ShrZero(x / 2, m - 1);
    }
  }

  /** For x below 2^(m+1), bit m tells whether x reaches 2^m. */
  lemma {:induction false} TopBit(x: nat, m: nat)
    requires x < Pow2(m + 1)
    ensures Shr(x, m) <= 1
    ensures Bit(x, m) == 1 <==> x >= Pow2(m)
    decreases m
  {
    if m != 0 {
      TopBit(x / 2, m - 1);
    }
  }

  /** A number with bit length L lies in [2^(L-1), 2^L). */
  lemma {:induction false} BitLengthBounds(x: nat)
    requires x >= 1
    ensures BitLength(x) >= 1
    ensures Pow2(BitLength(x) - 1) <= x < Pow2(BitLength(x))
  {
    if x >= 2 {
      BitLengthBounds(x / 2);
    }
  }

  lemma {:induction false} ShrShr(x: nat, a: nat, b: nat)
    ensures Shr(Shr(x, a), b) == Shr(x, a + b)
    decreases a
  {
    if a != 0 {
      ShrShr(x / 2, a - 1, b);
    }
  }

  /** x splits into its low w bits and what is above them. */
  lemma {:induction false} LowShr(x: nat, w: nat)
    ensures x == Low(x, w) + Pow2(w) * Shr(x, w)
    ensures Low(x, w) < Pow2(w)
    decreases w
  {
    if w != 0 {
      LowShr(x / 2, w - 1);
      HalfSplit(x, Low(x / 2, w - 1), Pow2(w - 1), Shr(x / 2, w - 1));
    }
  }

  /** Doubling a split of x / 2 and adding the last bit splits x. */
  lemma HalfSplit(x: nat, l: nat, p: nat, s: nat)
    requires x / 2 == l + p * s && l < p
    ensures x == (2 * l + x % 2) + (2 * p) * s && 2 * l + x % 2 < 2 * p
  {
    assert 2 * (l + p * s) == 2 * l + (2 * p) * s;
  }

  // ---------------------------------------------------------------------
  // Powers of two

  lemma Pow2Twice(e: nat)
    ensures Pow2(e + e) == Pow2(2 * e)
  {
  }

  /** Pow2 is strictly monotone, read backwards. */
  lemma Pow2Below(a: nat, b: nat)
    ensures Pow2(a) < Pow2(b) ==> a < b
  {
    if b <= a {
      Pow2MonotoneLe(b, a);
    }
  }

  lemma {:induction false} Pow2MonotoneLe(a: nat, b: nat)
    requires a <= b
    ensures Pow2(a) <= Pow2(b)
    decreases b
  {
    if a < b {
      Pow2MonotoneLe(a, b - 1);
    }
  }

  lemma {:induction false} Pow2Monotone(a: nat, b: nat)
    requires a < b
    ensures Pow2(a) < Pow2(b)
    decreases b
  {
    if a < b - 1 {
      Pow2Monotone(a, b - 1);
    }
  }

  lemma {:induction false} Pow2Add(a: nat, b: nat)
    ensures Pow2(a + b) == Pow2(a) * Pow2(b)
    decreases a
  {
    if a != 0 {
      Pow2Add(a - 1, b);
      var p, q := Pow2(a - 1), Pow2(b);
      assert Pow2(a + b) == 2 * (p * q);
      assert 2 * (p * q) == (2 * p) * q;
    }
  }
}
