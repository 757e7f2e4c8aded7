/**
 * `calc_jump_matrices`: the GF(2) jump matrices T^(start * exp^m), each
 * row cut into five 32-bit words, first column as most significant bit.
 */
module XorwowJumpMatrices {
  import opened Bits
  import opened Text
  import opened NumpyMatrix
  import G = Gf2Matrix
  import opened XorwowParams
  import opened XorwowTransition

  /** `''.join(str(x) for x in v)`. */
  function DigitString(v: seq<nat>): string
  {
    if v == [] then "" else Decimal(v[0]) + DigitString(v[1..])
  }

  /** A GF(2) row as a string of binary digits, first entry first. */
  function BitString(u: G.Row): (s: string)
    ensures |s| == |u|
    ensures forall t :: 0 <= t < |u| ==> s[t] == if u[t] then '1' else '0'
  {
    seq(|u|, t requires 0 <= t < |u| => if u[t] then '1' else '0')
  }

  /** Word k of row r of the GF(2) matrix M: columns k*nb .. k*nb+nb-1 read as a binary number. */
  function Word(M: G.Matrix, r: nat, k: nat): nat
    requires G.IsShape(M, NK, NK) && r < NK && k < NW
  {
    ParseBinary(BitString(M[r][k * NB..(k + 1) * NB]))
  }

  /** The GF(2) jump matrix T^(start * exp^m). */
  function JumpMatrix(start: nat, exp: nat, m: nat): (M: G.Matrix)
    ensures G.IsShape(M, NK, NK)
  {
    G.Pow(Parity(T()), JumpSize(start, exp, m), NK)
  }

  // ---------------------------------------------------------------------
  // Word layout

  /**
   * Reading binary digits back: bit |u|-1-t of the number is entry t, so the
   * first entry is the most significant bit, and the number has |u| bits.
   */
  lemma {:induction false} ParseBitString(u: G.Row)
    ensures ParseBinary(BitString(u)) < Pow2(|u|)
    ensures forall t :: 0 <= t < |u| ==> Bit(ParseBinary(BitString(u)), |u| - 1 - t) == if u[t] then 1 else 0
  {
    if u != [] {
      var n := |u|;
      var s := BitString(u);
      var p := u[..n - 1];
      assert s[..n - 1] == BitString(p);
      ParseBitString(p);
      var b := if u[n - 1] then 1 else 0;
      var x := ParseBinary(s);
      var y := ParseBinary(BitString(p));
      assert x == 2 * y + b;
      assert x / 2 == y && x % 2 == b;
      assert Shr(x, 1) == y;
      assert Pow2(n) == 2 * Pow2(n - 1);
      forall t | 0 <= t < n
        ensures Bit(x, n - 1 - t) == if u[t] then 1 else 0
      {
        if t < n - 1 {
          ShrShr(x, 1, n - 2 - t);
          assert p[t] == u[t];
        }
      }
    }
  }

  /** Every word is below 2^32, and its bit 31-t is column k*32 + t of row r. */
  lemma WordBits(M: G.Matrix, r: nat, k: nat)
    requires G.IsShape(M, NK, NK) && r < NK && k < NW
    ensures Word(M, r, k) < Pow2(NB)
    ensures forall c :: k * NB <= c < (k + 1) * NB ==> Bit(Word(M, r, k), (k + 1) * NB - 1 - c) == if M[r][c] then 1 else 0
  {
    assert (k + 1) * NB == k * NB + NB <= NK;
    var u := M[r][k * NB..(k + 1) * NB];
    ParseBitString(u);
    forall c | k * NB <= c < (k + 1) * NB
      ensures Bit(Word(M, r, k), (k + 1) * NB - 1 - c) == if M[r][c] then 1 else 0
    {
      WordBit(M, r, k, u, c);
    }
  }

  lemma WordBit(M: G.Matrix, r: nat, k: nat, u: G.Row, c: nat)
    requires G.IsShape(M, NK, NK) && r < NK && k < NW
    requires u == M[r][k * NB..(k + 1) * NB]
    requires forall t :: 0 <= t < |u| ==> Bit(ParseBinary(BitString(u)), |u| - 1 - t) == if u[t] then 1 else 0
    requires k * NB <= c < (k + 1) * NB
    ensures Bit(Word(M, r, k), (k + 1) * NB - 1 - c) == if M[r][c] then 1 else 0
  {
    var t := c - k * NB;
    assert M[r][c] == u[t] && (k + 1) * NB - 1 - c == |u| - 1 - t;
  }

  /** The 0/1 digits of a lifted GF(2) row are its binary string. */
  lemma {:induction false} DigitStringLift(u: G.Row)
    ensures DigitString(LiftRow(u)) == BitString(u)
  {
    if u != [] {
      assert LiftRow(u)[1..] == LiftRow(u[1..]);
      DigitStringLift(u[1..]);
    }
  }

  /** Packing the numpy form of M gives M's words. */
  lemma PackLift(M: G.Matrix, r: nat, k: nat)
    requires G.IsShape(M, NK, NK) && r < NK && k < NW
    ensures IsShape(FromGf(M), NK, NK)
    ensures ParseBinary(DigitString(FromGf(M)[r][k * NB..(k + 1) * NB])) == Word(M, r, k)
  {
    assert FromGf(M)[r][k * NB..(k + 1) * NB] == LiftRow(M[r][k * NB..(k + 1) * NB]);
    DigitStringLift(M[r][k * NB..(k + 1) * NB]);
  }

  /** Each table entry is the previous one raised to exp. */
  lemma JumpMatrixNext(start: nat, exp: nat, m: nat)
    ensures JumpMatrix(start, exp, m + 1) == G.Pow(JumpMatrix(start, exp, m), exp, NK)
  {
    JumpSizeNext(start, exp, m);
    G.PowMul(Parity(T()), JumpSize(start, exp, m), exp, NK);
  }

  /** `matrix_power(T, start) % 2` is the numpy form of T^start over GF(2). */
  lemma StartMatrix(start: nat, exp: nat)
    ensures Rem2(MatrixPower(T(), start, NK)) == FromGf(JumpMatrix(start, exp, 0))
  {
    Rem2Parity(MatrixPower(T(), start, NK));
    MatrixPowerParity(T(), start, NK);
  }

  /** `matrix_power(J, exp) % 2` moves the numpy form of entry m to that of entry m+1. */
  lemma NextMatrix(start: nat, exp: nat, m: nat)
    ensures IsShape(FromGf(JumpMatrix(start, exp, m)), NK, NK)
    ensures Rem2(MatrixPower(FromGf(JumpMatrix(start, exp, m)), exp, NK)) == FromGf(JumpMatrix(start, exp, m + 1))
  {
    var J := FromGf(JumpMatrix(start, exp, m));
    Rem2Parity(MatrixPower(J, exp, NK));
    MatrixPowerParity(J, exp, NK);
    ParityFromGf(JumpMatrix(start, exp, m));
    JumpMatrixNext(start, exp, m);
  }

  // ---------------------------------------------------------------------
  // The computation

  /** (i', j', k') comes before (i, j, k) in the order the loops visit words. */
  predicate Before(i': nat, j': nat, k': nat, i: nat, j: nat, k: nat)
  {
    i' < i || (i' == i && (j' < j || (j' == j && k' < k)))
  }

  /** The innermost loop of `calc_jump_matrices`: the five words of row i*32 + j of J. */
  method PackRow(result: array4<nat>, m: nat, i: nat, j: nat, J: IntMatrix, ghost M: G.Matrix)
    requires G.IsShape(M, NK, NK) && J == FromGf(M)
    requires m < result.Length0 && result.Length1 == NW && result.Length2 == NB && result.Length3 == NW
    requires i < NW && j < NB
    modifies result
    ensures forall k :: 0 <= k < NW ==> result[m, i, j, k] == Word(M, i * NB + j, k)
    ensures forall m', i', j', k :: 0 <= m' < result.Length0 && 0 <= i' < NW && 0 <= j' < NB && 0 <= k < NW && (m', i', j') != (m, i, j) ==>
      result[m', i', j', k] == old(result[m', i', j', k])
  {
    var r := i * NB + j;
    for k := 0 to NW
      invariant forall k' :: 0 <= k' < k ==> result[m, i, j, k'] == Word(M, r, k')
      invariant forall m', i', j', k' :: 0 <= m' < result.Length0 && 0 <= i' < NW && 0 <= j' < NB && 0 <= k' < NW && (m', i', j') != (m, i, j) ==>
        result[m', i', j', k'] == old(result[m', i', j', k'])
    {
      var word := PackWord(J, r, k, M);
      result[m, i, j, k] := word;
    }
  }

  /** The innermost statement: word k of row r, parsed from its decimal digit string. */
  method PackWord(J: IntMatrix, r: nat, k: nat, ghost M: G.Matrix) returns (word: nat)
    requires G.IsShape(M, NK, NK) && J == FromGf(M) && r < NK && k < NW
    ensures word == Word(M, r, k)
  {
    PackLift(M, r, k);
    word := ParseBinary(DigitString(J[r][k * NB..(k + 1) * NB]));
  }

  /** The three inner loops of `calc_jump_matrices`: pack J into entry m of the result. */
  method PackMatrix(result: array4<nat>, m: nat, J: IntMatrix, ghost M: G.Matrix)
    requires G.IsShape(M, NK, NK) && J == FromGf(M)
    requires m < result.Length0 && result.Length1 == NW && result.Length2 == NB && result.Length3 == NW
    modifies result
    ensures forall i, j, k :: 0 <= i < NW && 0 <= j < NB && 0 <= k < NW ==>
      result[m, i, j, k] == Word(M, i * NB + j, k)
    ensures forall m', i, j, k :: 0 <= m' < result.Length0 && m' != m && 0 <= i < NW && 0 <= j < NB && 0 <= k < NW ==>
      result[m', i, j, k] == old(result[m', i, j, k])
  {
    for i := 0 to NW
      invariant forall i', j', k' :: 0 <= i' < i && 0 <= j' < NB && 0 <= k' < NW ==>
        result[m, i', j', k'] == Word(M, i' * NB + j', k')
      invariant forall m', i', j', k' :: 0 <= m' < result.Length0 && m' != m && 0 <= i' < NW && 0 <= j' < NB && 0 <= k' < NW ==>
        result[m', i', j', k'] == old(result[m', i', j', k'])
    {
      for j := 0 to NB
        invariant forall i', j', k' :: 0 <= i' < NW && 0 <= j' < NB && 0 <= k' < NW && (i' < i || (i' == i && j' < j)) ==>
          result[m, i', j', k'] == Word(M, i' * NB + j', k')
        invariant forall m', i', j', k' :: 0 <= m' < result.Length0 && m' != m && 0 <= i' < NW && 0 <= j' < NB && 0 <= k' < NW ==>
          result[m', i', j', k'] == old(result[m', i', j', k'])
      {
        PackRow(result, m, i, j, J, M);
      }
    }
  }

  /**
   * `calc_jump_matrices(size, start, exp)`: word (m, i, j, k) of the result
   * is word k of row i*32 + j of T^(start * exp^m) over GF(2).
   */
  method CalcJumpMatrices(size: nat, start: nat, exp: nat := 4) returns (result: array4<nat>)
    ensures fresh(result)
    ensures result.Length0 == size && result.Length1 == NW && result.Length2 == NB && result.Length3 == NW
    ensures forall m, i, j, k :: 0 <= m < size && 0 <= i < NW && 0 <= j < NB && 0 <= k < NW ==>
      result[m, i, j, k] == Word(JumpMatrix(start, exp, m), i * NB + j, k)
  {
    result := new nat[size, NW, NB, NW];
    var J := Rem2(MatrixPower(T(), start, NK));
    StartMatrix(start, exp);
    for m := 0 to size
      invariant J == FromGf(JumpMatrix(start, exp, m))
      invariant forall m', i, j, k :: 0 <= m' < m && 0 <= i < NW && 0 <= j < NB && 0 <= k < NW ==>
        result[m', i, j, k] == Word(JumpMatrix(start, exp, m'), i * NB + j, k)
    {
      PackMatrix(result, m, J, JumpMatrix(start, exp, m));
      NextMatrix(start, exp, m);
      J := Rem2(MatrixPower(J, exp, NK));
    }
  }

  /** The jump sizes of the two tables: 4^m, and 4^m * 2^67. */
  lemma TableJumpSizes(m: nat)
    ensures JumpSize(1, 4, m) == Pow(4, m)
    ensures JumpSize(Pow2(67), 4, m) == Pow(4, m) * Pow2(67)
  {
    assert Pow2(67) * Pow(4, m) == Pow(4, m) * Pow2(67);
  }

  /**
   * The two tables the script builds: `jump` holds T^1, T^4, ..., T^262144
   * (exponents 4^m, m < 10), `jump_subsequence` holds T^(4^m * 2^67).
   */
  method JumpTables() returns (jump: array4<nat>, jumpSubsequence: array4<nat>)
    ensures fresh(jump) && fresh(jumpSubsequence)
    ensures jump.Length0 == 10 && jump.Length1 == NW && jump.Length2 == NB && jump.Length3 == NW
    ensures jumpSubsequence.Length0 == 10 && jumpSubsequence.Length1 == NW
    ensures jumpSubsequence.Length2 == NB && jumpSubsequence.Length3 == NW
    ensures forall m, i, j, k :: 0 <= m < 10 && 0 <= i < NW && 0 <= j < NB && 0 <= k < NW ==>
      jump[m, i, j, k] == Word(G.Pow(Parity(T()), Pow(4, m), NK), i * NB + j, k)
    ensures forall m, i, j, k :: 0 <= m < 10 && 0 <= i < NW && 0 <= j < NB && 0 <= k < NW ==>
      jumpSubsequence[m, i, j, k] == Word(G.Pow(Parity(T()), Pow(4, m) * Pow2(67), NK), i * NB + j, k)
    ensures forall i, j, k :: 0 <= i < NW && 0 <= j < NB && 0 <= k < NW ==>
      jump[0, i, j, k] == Word(Parity(T()), i * NB + j, k)
    ensures Pow(4, 9) == 262144
  {
    jump := CalcJumpMatrices(10, 1);
    jumpSubsequence := CalcJumpMatrices(10, Pow2(67));
    forall m | 0 <= m < 10
      ensures JumpSize(1, 4, m) == Pow(4, m) && JumpSize(Pow2(67), 4, m) == Pow(4, m) * Pow2(67)
    {
      TableJumpSizes(m);
    }
    G.PowOne(Parity(T()), NK);
  }
}
