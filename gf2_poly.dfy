/**
 * Polynomials over GF(2) encoded as natural numbers: bit k of the number is
 * the coefficient of z^k, so addition is `Xor`, multiplication by z is
 * doubling and z^d is `Pow2(d)`.
 */
module Gf2Poly {
  import opened Bits

  /** The product of two polynomials (carry-less multiplication). */
  function CMul(a: nat, b: nat): nat
  {
    if a == 0 then 0 else Xor(if a % 2 == 1 then b else 0, 2 * CMul(a / 2, b))
  }

  /** `a` and `b` differ by a multiple of `p` in GF(2)[z]. */
  ghost predicate Congruent(a: nat, b: nat, p: nat)
  {
    exists q: nat :: Xor(a, b) == CMul(q, p)
  }

  // ---------------------------------------------------------------------
  // Ring laws of the product

  lemma CMulStep(a: nat, b: nat)
    ensures CMul(a, b) == Xor(if a % 2 == 1 then b else 0, 2 * CMul(a / 2, b))
  {
  }

  lemma CMulDoubleLeft(a: nat, b: nat)
    ensures CMul(2 * a, b) == 2 * CMul(a, b)
  {
    if a != 0 {
      XorZero(2 * CMul(a, b));
    }
  }

  lemma {:induction false} CMulZeroRight(a: nat)
    ensures CMul(a, 0) == 0
  {
    if a != 0 {
      CMulZeroRight(a / 2);
    }
  }

  lemma {:induction false} CMulOneRight(a: nat)
    ensures CMul(a, 1) == a
  {
    if a != 0 {
      CMulOneRight(a / 2);
      XorComm(a % 2, 2 * (a / 2));
      XorLowDigit(a / 2, a % 2);
    }
  }

  lemma {:induction false} CMulDoubleRight(a: nat, b: nat)
    ensures CMul(a, 2 * b) == 2 * CMul(a, b)
  {
    if a != 0 {
      CMulDoubleRight(a / 2, b);
      XorDouble(if a % 2 == 1 then b else 0, 2 * CMul(a / 2, b));
    }
  }

  /** The product distributes over addition on the left. */
  lemma {:induction false} CMulXorLeft(a: nat, b: nat, c: nat)
    ensures CMul(Xor(a, b), c) == Xor(CMul(a, c), CMul(b, c))
    decreases a + b
  {
    if a == 0 {
    } else if b == 0 {
      XorZero(CMul(a, c));
    } else {
      var x := Xor(a, b);
      XorDigits(a, b);
      CMulXorLeft(a / 2, b / 2, c);
      var ca := if a % 2 == 1 then c else 0;
      var cb := if b % 2 == 1 then c else 0;
      var cx := if x % 2 == 1 then c else 0;
      assert cx == Xor(ca, cb) by {
        XorSelf(c);
      }
      calc {
        CMul(x, c);
        { CMulStep(x, c); }
        Xor(cx, 2 * CMul(x / 2, c));
        Xor(cx, 2 * Xor(CMul(a / 2, c), CMul(b / 2, c)));
        { XorDouble(CMul(a / 2, c), CMul(b / 2, c)); }
        Xor(Xor(ca, cb), Xor(2 * CMul(a / 2, c), 2 * CMul(b / 2, c)));
        { XorSwap(ca, cb, 2 * CMul(a / 2, c), 2 * CMul(b / 2, c)); }
        Xor(Xor(ca, 2 * CMul(a / 2, c)), Xor(cb, 2 * CMul(b / 2, c)));
        { CMulStep(a, c); CMulStep(b, c); }
        Xor(CMul(a, c), CMul(b, c));
      }
    }
  }

  /** The product distributes over addition on the right. */
  lemma {:induction false} CMulXorRight(a: nat, b: nat, c: nat)
    ensures CMul(a, Xor(b, c)) == Xor(CMul(a, b), CMul(a, c))
  {
    if a != 0 {
      CMulXorRight(a / 2, b, c);
      var d := a % 2 == 1;
      calc {
        CMul(a, Xor(b, c));
        Xor(if d then Xor(b, c) else 0, 2 * CMul(a / 2, Xor(b, c)));
        { XorDouble(CMul(a / 2, b), CMul(a / 2, c)); }
        Xor(if d then Xor(b, c) else 0, Xor(2 * CMul(a / 2, b), 2 * CMul(a / 2, c)));
        Xor(Xor(if d then b else 0, if d then c else 0), Xor(2 * CMul(a / 2, b), 2 * CMul(a / 2, c)));
        { XorSwap(if d then b else 0, if d then c else 0, 2 * CMul(a / 2, b), 2 * CMul(a / 2, c)); }
        Xor(CMul(a, b), CMul(a, c));
      }
    } else {
      XorZero(0);
    }
  }

  lemma {:induction false} CMulComm(a: nat, b: nat)
    ensures CMul(a, b) == CMul(b, a)
  {
    if a == 0 {
      CMulZeroRight(b);
    } else {
      CMulComm(a / 2, b);
      var h := a / 2;
      var lo := if a % 2 == 1 then b else 0;
      calc {
        CMul(b, a);
        { XorLowDigit(h, a % 2); }
        CMul(b, Xor(2 * h, a % 2));
        { CMulXorRight(b, 2 * h, a % 2); }
        Xor(CMul(b, 2 * h), CMul(b, a % 2));
        { CMulDoubleRight(b, h); CMulZeroRight(b); CMulOneRight(b); }
        Xor(2 * CMul(b, h), lo);
        { XorComm(2 * CMul(b, h), lo); }
        Xor(lo, 2 * CMul(h, b));
        CMul(a, b);
      }
    }
  }

  lemma {:induction false} CMulAssoc(a: nat, b: nat, c: nat)
    ensures CMul(CMul(a, b), c) == CMul(a, CMul(b, c))
  {
    if a != 0 {
      CMulAssoc(a / 2, b, c);
      var lo := if a % 2 == 1 then b else 0;
      calc {
        CMul(CMul(a, b), c);
        CMul(Xor(lo, 2 * CMul(a / 2, b)), c);
        { CMulXorLeft(lo, 2 * CMul(a / 2, b), c); }
        Xor(CMul(lo, c), CMul(2 * CMul(a / 2, b), c));
        { CMulDoubleLeft(CMul(a / 2, b), c); }
        Xor(CMul(lo, c), 2 * CMul(a / 2, CMul(b, c)));
        CMul(a, CMul(b, c));
      }
    }
  }

  /** z^i times z^j is z^(i+j). */
  lemma {:induction false} CMulPow2(i: nat, j: nat)
    ensures CMul(Pow2(i), Pow2(j)) == Pow2(i + j)
  {
    if i == 0 {
      XorZero(Pow2(j));
    } else {
      CMulPow2(i - 1, j);
      CMulDoubleLeft(Pow2(i - 1), Pow2(j));
    }
  }

  /** A nonzero multiple of a polynomial of degree k has degree at least k. */
  lemma {:induction false} CMulLowerBound(q: nat, p: nat, k: nat)
    requires q >= 1
    requires Pow2(k) <= p < Pow2(k + 1)
    ensures CMul(q, p) >= Pow2(k)
  {
    if q == 1 {
      XorZero(p);
    } else {
      CMulLowerBound(q / 2, p, k);
      var lo := if q % 2 == 1 then p else 0;
      XorComm(lo, 2 * CMul(q / 2, p));
      XorHigh(2 * CMul(q / 2, p), lo, k + 1);
    }
  }

  // ---------------------------------------------------------------------
  // Congruence modulo p

  lemma CongRefl(a: nat, p: nat)
    ensures Congruent(a, a, p)
  {
    XorSelf(a);
    assert Xor(a, a) == CMul(0, p);
  }

  lemma CongSym(a: nat, b: nat, p: nat)
    requires Congruent(a, b, p)
    ensures Congruent(b, a, p)
  {
    var q: nat :| Xor(a, b) == CMul(q, p);
    XorComm(a, b);
    assert Xor(b, a) == CMul(q, p);
  }

  lemma CongTrans(a: nat, b: nat, c: nat, p: nat)
    requires Congruent(a, b, p) && Congruent(b, c, p)
    ensures Congruent(a, c, p)
  {
    var q1: nat :| Xor(a, b) == CMul(q1, p);
    var q2: nat :| Xor(b, c) == CMul(q2, p);
    calc {
      Xor(a, c);
      { XorZero(c); XorSelf(b); }
      Xor(a, Xor(Xor(b, b), c));
      { XorAssoc(b, b, c); }
      Xor(a, Xor(b, Xor(b, c)));
      { XorAssoc(a, b, Xor(b, c)); }
      Xor(Xor(a, b), Xor(b, c));
      { CMulXorLeft(q1, q2, p); }
      CMul(Xor(q1, q2), p);
    }
  }

  /** Congruence is compatible with addition. */
  lemma CongXor(a: nat, b: nat, c: nat, d: nat, p: nat)
    requires Congruent(a, b, p) && Congruent(c, d, p)
    ensures Congruent(Xor(a, c), Xor(b, d), p)
  {
    var q1: nat :| Xor(a, b) == CMul(q1, p);
    var q2: nat :| Xor(c, d) == CMul(q2, p);
    XorSwap(a, c, b, d);
    CMulXorLeft(q1, q2, p);
    assert Xor(Xor(a, c), Xor(b, d)) == CMul(Xor(q1, q2), p);
  }

  /** Congruence is compatible with multiplication by z. */
  lemma CongDouble(a: nat, b: nat, p: nat)
    requires Congruent(a, b, p)
    ensures Congruent(2 * a, 2 * b, p)
  {
    var q: nat :| Xor(a, b) == CMul(q, p);
    XorDouble(a, b);
    CMulDoubleLeft(q, p);
    assert Xor(2 * a, 2 * b) == CMul(2 * q, p);
  }

  /** Adding the modulus does not change the residue. */
  lemma CongModulus(a: nat, p: nat)
    ensures Congruent(Xor(a, p), a, p)
  {
    calc {
      Xor(Xor(a, p), a);
      { XorComm(Xor(a, p), a); XorAssoc(a, a, p); }
      Xor(Xor(a, a), p);
      { XorSelf(a); }
      p;
      { XorZero(p); }
      CMul(1, p);
    }
  }

  /** Congruence is compatible with multiplication. */
  lemma CongMul(a: nat, b: nat, c: nat, d: nat, p: nat)
    requires Congruent(a, b, p) && Congruent(c, d, p)
    ensures Congruent(CMul(a, c), CMul(b, d), p)
  {
    CongMulLeft(a, b, c, p);
    CongMulLeft(c, d, b, p);
    CMulComm(c, b);
    CMulComm(d, b);
    CongTrans(CMul(a, c), CMul(b, c), CMul(b, d), p);
  }

  lemma CongMulLeft(a: nat, b: nat, c: nat, p: nat)
    requires Congruent(a, b, p)
    ensures Congruent(CMul(a, c), CMul(b, c), p)
  {
    var q: nat :| Xor(a, b) == CMul(q, p);
    calc {
      Xor(CMul(a, c), CMul(b, c));
      { CMulXorLeft(a, b, c); }
      CMul(CMul(q, p), c);
      { CMulComm(q, p); CMulAssoc(p, q, c); CMulComm(p, CMul(q, c)); }
      CMul(CMul(q, c), p);
    }
  }

  /**
   * Residues are unique: two polynomials of degree below k that are
   * congruent modulo a polynomial of degree exactly k are equal.
   */
  lemma CongUnique(a: nat, b: nat, p: nat, k: nat)
    requires a < Pow2(k) && b < Pow2(k)
    requires Pow2(k) <= p < Pow2(k + 1)
    requires Congruent(a, b, p)
    ensures a == b
  {
    var q: nat :| Xor(a, b) == CMul(q, p);
    XorBound(a, b, k);
    if q >= 1 {
      CMulLowerBound(q, p, k);
    }
    XorZeroEq(a, b);
  }
}
