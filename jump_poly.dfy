/**
 * Jump polynomials for xorwow: z^d mod p(z) over GF(2), computed by
 * square-and-multiply on integers whose bit k is the coefficient of z^k.
 * The characteristic polynomial p of the transition matrix is an input.
 */
module XorwowJumpPoly {
  import opened Bits
  import opened Gf2Poly
  import opened XorwowParams

  /** The degree of a non-zero polynomial (sympy's `degree()`). */
  function Degree(cp: nat): (k: nat)
    ensures cp >= 1 ==> Pow2(k) <= cp < Pow2(k + 1)
    ensures cp >= 4 ==> k >= 2
  {
    if cp == 0 then 0
    else
      BitLengthBounds(cp);
      Pow2Below(2, BitLength(cp));
      BitLength(cp) - 1
  }

  /** `r` is z^d reduced modulo cp: degree below that of cp, congruent to z^d. */
  ghost predicate IsJumpPoly(r: nat, cp: nat, d: nat)
  {
    r < Pow2(Degree(cp)) && Congruent(r, Pow2(d), cp)
  }

  /**
   * Multiplication by z modulo cp as the code writes it: read the top
   * coefficient (bit n = degree - 1), shift left, and cancel the new
   * degree-k term with cp if it was set.
   */
  function MulZ(x: nat, cp: nat, n: nat): nat
  {
    if Bit(x, n) == 1 then Xor(2 * x, cp) else 2 * x
  }

  /** The shift-and-cancel step multiplies by z modulo cp and keeps the degree below k. */
  lemma MulZStep(x: nat, cp: nat)
    requires cp >= 4 && x < Pow2(Degree(cp))
    ensures MulZ(x, cp, Degree(cp) - 1) < Pow2(Degree(cp))
    ensures Congruent(MulZ(x, cp, Degree(cp) - 1), 2 * x, cp)
  {
    var k := Degree(cp);
    TopBit(x, k - 1);
    if Bit(x, k - 1) == 1 {
      XorTopCancel(2 * x, cp, k);
      CongModulus(2 * x, cp);
    } else {
      CongRefl(2 * x, cp);
    }
  }

  /**
   * One step of the Horner loop: with u = jp >> (j+1), a residue of u*jp
   * becomes a residue of (jp >> j)*jp.
   */
  lemma HornerStep(tmp: nat, jp: nat, j: nat, cp: nat)
    requires cp >= 4 && tmp < Pow2(Degree(cp)) && jp < Pow2(Degree(cp))
    requires Congruent(tmp, CMul(Shr(jp, j + 1), jp), cp)
    ensures var t := MulZ(tmp, cp, Degree(cp) - 1);
            var t' := if Bit(jp, j) == 1 then Xor(t, jp) else t;
            t' < Pow2(Degree(cp)) && Congruent(t', CMul(Shr(jp, j), jp), cp)
  {
    var k := Degree(cp);
    var u := Shr(jp, j + 1);
    var t := MulZ(tmp, cp, k - 1);
    MulZStep(tmp, cp);
    CongDouble(tmp, CMul(u, jp), cp);
    CongTrans(t, 2 * tmp, 2 * CMul(u, jp), cp);
    ShrBit(jp, j);
    CMulStep(Shr(jp, j), jp);
    if Bit(jp, j) == 1 {
      XorBound(t, jp, k);
      CongRefl(jp, cp);
      CongXor(t, 2 * CMul(u, jp), jp, jp, cp);
      XorComm(2 * CMul(u, jp), jp);
    } else {
      XorZero(2 * CMul(u, jp));
    }
  }

  /** Squaring a residue of z^e gives a residue of z^(2e). */
  lemma SquareStep(tmp: nat, jp: nat, e: nat, cp: nat)
    requires Congruent(tmp, CMul(jp, jp), cp)
    requires Congruent(jp, Pow2(e), cp)
    ensures Congruent(tmp, Pow2(2 * e), cp)
  {
    var z := Pow2(e);
    CongMul(jp, z, jp, z, cp);
    assert CMul(z, z) == Pow2(2 * e) by {
      CMulPow2(e, e);
      Pow2Twice(e);
    }
    CongTrans(tmp, CMul(jp, jp), CMul(z, z), cp);
  }

  /**
   * The squaring loop of `calc_jump_poly`: Horner's rule over the bits of
   * jp, from the most significant down, reducing modulo p after every shift.
   */
  method SquareMod(jp: nat, cp: nat) returns (tmp: nat)
    requires cp >= 4 && jp < Pow2(Degree(cp))
    ensures tmp < Pow2(Degree(cp))
    ensures Congruent(tmp, CMul(jp, jp), cp)
  {
    var k := Degree(cp);
    var n := k - 1;
    tmp := 0;
    var j: int := n;
    ShrZero(jp, k);
    CongRefl(0, cp);
    while j >= 0
      invariant -1 <= j <= n
      invariant tmp < Pow2(k)
      invariant Congruent(tmp, CMul(Shr(jp, j + 1), jp), cp)
    {
      HornerStep(tmp, jp, j, cp);
      var a_n := Bit(tmp, n);
      tmp := 2 * tmp;
      if a_n == 1 {
        tmp := Xor(tmp, cp);
      }
      if Bit(jp, j) == 1 {
        tmp := Xor(tmp, jp);
      }
      j := j - 1;
    }
  }

  /** The multiply-by-z step of `calc_jump_poly`: shift left, reducing modulo p on overflow. */
  method MulByZ(jp: nat, cp: nat) returns (r: nat)
    requires cp >= 4 && jp < Pow2(Degree(cp))
    ensures r < Pow2(Degree(cp))
    ensures Congruent(r, 2 * jp, cp)
  {
    var n := Degree(cp) - 1;
    MulZStep(jp, cp);
    var a_n := Bit(jp, n);
    r := 2 * jp;
    if a_n == 1 {
      r := Xor(r, cp);
    }
  }

  /**
   * One pass of the outer loop of `calc_jump_poly`: square jp, then multiply
   * by z when bit i of d is set, so that jp goes from z^(d >> (i+1)) to
   * z^(d >> i) modulo p.
   */
  method SquareMultiply(jp: nat, cp: nat, jumpSize: nat, i: nat) returns (r: nat)
    requires cp >= 4 && jp < Pow2(Degree(cp))
    requires Congruent(jp, Pow2(Shr(jumpSize, i + 1)), cp)
    ensures r < Pow2(Degree(cp))
    ensures Congruent(r, Pow2(Shr(jumpSize, i)), cp)
  {
    // Square, reducing after every shift
    var tmp := SquareMod(jp, cp);
    var e := Shr(jumpSize, i + 1);
    SquareStep(tmp, jp, e, cp);
    r := tmp;

    // Multiply by z when bit i of d is set
    ShrBit(jumpSize, i);
    if Bit(jumpSize, i) == 1 {
      CongDouble(tmp, Pow2(2 * e), cp);
      r := MulByZ(tmp, cp);
      CongTrans(r, 2 * tmp, Pow2(2 * e + 1), cp);
      assert Shr(jumpSize, i) == 2 * e + 1;
    } else {
      assert Shr(jumpSize, i) == 2 * e;
    }
  }

  /**
   * `calc_jump_poly`: z^d mod p by square-and-multiply. For d below the
   * degree of p the answer is z^d itself, returned without reduction.
   */
  method CalcJumpPoly(cp: nat, jumpSize: nat) returns (jp: nat)
    requires cp >= 4
    ensures IsJumpPoly(jp, cp, jumpSize)
    ensures jumpSize < Degree(cp) ==> jp == Pow2(jumpSize)
  {
    var k := Degree(cp);
    var n := k - 1;
    if jumpSize <= n {
      CongRefl(Pow2(jumpSize), cp);
      // Pow2 is monotone: z^d has degree d < k
      assert Pow2(jumpSize) < Pow2(k) by { Pow2Monotone(jumpSize, k); }
      return Pow2(jumpSize);
    }

    // Start with jp(z) = z, skipping the most significant bit of d
    jp := 2;
    var len := BitLength(jumpSize);
    BitLengthBounds(jumpSize);
    TopBit(jumpSize, len - 1);
    assert Pow2(1) < Pow2(k) by { Pow2Monotone(1, k); }
    CongRefl(2, cp);
    assert Shr(jumpSize, len - 1) == 1 && Pow2(1) == 2;
    var i: int := len - 2;
    while i >= 0
      invariant -1 <= i <= len - 2
      invariant jp < Pow2(k)
      invariant Congruent(jp, Pow2(Shr(jumpSize, i + 1)), cp)
    {
      jp := SquareMultiply(jp, cp, jumpSize, i);
      i := i - 1;
    }
  }

  /** There is only one reduced residue of z^d: whatever computes it gives the same polynomial. */
  lemma JumpPolyUnique(r1: nat, r2: nat, cp: nat, d: nat)
    requires cp >= 1
    requires IsJumpPoly(r1, cp, d) && IsJumpPoly(r2, cp, d)
    ensures r1 == r2
  {
    CongSym(r2, Pow2(d), cp);
    CongTrans(r1, Pow2(d), r2, cp);
    CongUnique(r1, r2, cp, Degree(cp));
  }

  /**
   * `calc_jump_polys`: the jump polynomials for d = start * exp^i, i < size,
   * each computed on its own by `calc_jump_poly`.
   */
  method CalcJumpPolys(cp: nat, size: nat, start: nat, exp: nat := 4) returns (result: seq<nat>)
    requires cp >= 4
    ensures |result| == size
    ensures forall i :: 0 <= i < size ==> IsJumpPoly(result[i], cp, JumpSize(start, exp, i))
    ensures forall i :: 0 <= i < size && JumpSize(start, exp, i) < Degree(cp) ==> result[i] == Pow2(JumpSize(start, exp, i))
  {
    result := [];
    var jumpSize := start;
    assert JumpSize(start, exp, 0) == start;
    for t := 0 to size
      invariant |result| == t
      invariant jumpSize == JumpSize(start, exp, t)
      invariant forall i :: 0 <= i < t ==> IsJumpPoly(result[i], cp, JumpSize(start, exp, i))
      invariant forall i :: 0 <= i < t && JumpSize(start, exp, i) < Degree(cp) ==> result[i] == Pow2(JumpSize(start, exp, i))
    {
      var jp := CalcJumpPoly(cp, jumpSize);
      result := result + [jp];
      JumpSizeNext(start, exp, t);
      jumpSize := jumpSize * exp;
    }
  }
}
