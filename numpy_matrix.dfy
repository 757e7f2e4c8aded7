/**
 * The numpy operations the jump-ahead scripts apply to `uint32` matrices:
 * `np.eye`, `A + B` and `A @ B` with 32-bit wrap-around, `matrix_power`
 * and `% 2`. Their parities are the GF(2) operations of `Gf2Matrix`.
 */
module NumpyMatrix {
  import G = Gf2Matrix

  type IntMatrix = seq<seq<nat>>

  /** `uint32` arithmetic wraps modulo 2^32. */
  const U32: nat := 0x1_0000_0000

  predicate IsShape(M: IntMatrix, m: nat, n: nat)
  {
    |M| == m && forall i :: 0 <= i < m ==> |M[i]| == n
  }

  /** Column j of B. */
  function Column(B: IntMatrix, j: nat): (c: seq<nat>)
    requires forall k :: 0 <= k < |B| ==> j < |B[k]|
    ensures |c| == |B|
    ensures forall k :: 0 <= k < |B| ==> c[k] == B[k][j]
  {
    seq(|B|, k requires 0 <= k < |B| => B[k][j])
  }

  /** The exact sum of products u[k] * v[k]. */
  function Dot(u: seq<nat>, v: seq<nat>): nat
    requires |u| == |v|
  {
    if u == [] then 0 else u[0] * v[0] + Dot(u[1..], v[1..])
  }

  /** `A @ B` on `uint32`: each entry is the sum of products, wrapped. */
  function MatMul(A: IntMatrix, B: IntMatrix, p: nat, n: nat): (C: IntMatrix)
    requires forall i :: 0 <= i < |A| ==> |A[i]| == p
    requires IsShape(B, p, n)
    ensures IsShape(C, |A|, n)
    ensures forall i, j :: 0 <= i < |A| && 0 <= j < n ==> C[i][j] == Dot(A[i], Column(B, j)) % U32
  {
    seq(|A|, i requires 0 <= i < |A| =>
      seq(n, j requires 0 <= j < n => Dot(A[i], Column(B, j)) % U32))
  }

  /** `A + B` on `uint32`. */
  function MatAdd(A: IntMatrix, B: IntMatrix, n: nat): (C: IntMatrix)
    requires IsShape(A, |A|, n) && IsShape(B, |A|, n)
    ensures IsShape(C, |A|, n)
    ensures forall i, j :: 0 <= i < |A| && 0 <= j < n ==> C[i][j] == (A[i][j] + B[i][j]) % U32
  {
    seq(|A|, i requires 0 <= i < |A| =>
      seq(n, j requires 0 <= j < n => (A[i][j] + B[i][j]) % U32))
  }

  /** `np.eye(n, k=k)`: ones where the column index exceeds the row index by k. */
  function Eye(n: nat, k: int): (E: IntMatrix)
    ensures IsShape(E, n, n)
  {
    seq(n, i => seq(n, j => if j - i == k then 1 else 0))
  }

  /** `np.zeros((n, n))`. */
  function ZeroMatrix(n: nat): (Z: IntMatrix)
    ensures IsShape(Z, n, n)
    ensures forall i, j :: 0 <= i < n && 0 <= j < n ==> Z[i][j] == 0
  {
    seq(n, i => seq(n, j => 0))
  }

  /** `matrix_power(M, e)`: the identity for e == 0, else e factors of M. */
  function MatrixPower(M: IntMatrix, e: nat, n: nat): (P: IntMatrix)
    requires IsShape(M, n, n)
    ensures IsShape(P, n, n)
  {
    if e == 0 then Eye(n, 0) else MatMul(MatrixPower(M, e - 1, n), M, n, n)
  }

  /** `M % 2`. */
  function Rem2(M: IntMatrix): (R: IntMatrix)
    ensures |R| == |M|
    ensures forall i :: 0 <= i < |M| ==> |R[i]| == |M[i]|
  {
    seq(|M|, i requires 0 <= i < |M| => seq(|M[i]|, j requires 0 <= j < |M[i]| => M[i][j] % 2))
  }

  function RowParity(u: seq<nat>): (r: G.Row)
    ensures |r| == |u|
    ensures forall k :: 0 <= k < |u| ==> r[k] == (u[k] % 2 == 1)
  {
    seq(|u|, k requires 0 <= k < |u| => u[k] % 2 == 1)
  }

  /** The GF(2) matrix of the parities of M's entries. */
  function Parity(M: IntMatrix): (P: G.Matrix)
    ensures |P| == |M|
    ensures forall i :: 0 <= i < |M| ==> P[i] == RowParity(M[i])
  {
    seq(|M|, i requires 0 <= i < |M| => RowParity(M[i]))
  }

  /** A GF(2) row as 0/1 integers. */
  function LiftRow(u: G.Row): (v: seq<nat>)
    ensures |v| == |u|
    ensures forall j :: 0 <= j < |u| ==> v[j] == if u[j] then 1 else 0
  {
    seq(|u|, j requires 0 <= j < |u| => if u[j] then 1 else 0)
  }

  /** A GF(2) matrix as a 0/1 integer matrix. */
  function FromGf(P: G.Matrix): (M: IntMatrix)
    ensures |M| == |P|
    ensures forall i :: 0 <= i < |P| ==> M[i] == LiftRow(P[i])
  {
    seq(|P|, i requires 0 <= i < |P| => LiftRow(P[i]))
  }

  // ---------------------------------------------------------------------
  // Parities

  /** `M % 2` is the 0/1 form of M's GF(2) reduction, and carries the same parities. */
  lemma Rem2Parity(M: IntMatrix)
    ensures Rem2(M) == FromGf(Parity(M))
    ensures Parity(Rem2(M)) == Parity(M)
  {
    forall i | 0 <= i < |M|
      ensures Rem2(M)[i] == FromGf(Parity(M))[i]
      ensures Parity(Rem2(M))[i] == Parity(M)[i]
    {
    }
  }

  lemma ParityFromGf(P: G.Matrix)
    ensures Parity(FromGf(P)) == P
  {
    forall i | 0 <= i < |P|
      ensures Parity(FromGf(P))[i] == P[i]
    {
    }
  }

  /** Wrapping modulo 2^32 keeps the parity. */
  lemma WrapParity(x: nat)
    ensures (x % U32) % 2 == x % 2
  {
    var q := x / U32;
    assert x == U32 * q + x % U32;
    assert U32 * q == 2 * (0x8000_0000 * q);
  }

  lemma ProductParity(a: nat, b: nat)
    ensures (a * b) % 2 == (if a % 2 == 1 && b % 2 == 1 then 1 else 0)
  {
    var qa, qb := a / 2, b / 2;
    assert a == 2 * qa + a % 2;
    assert b == 2 * qb + b % 2;
    assert a * b == 2 * (2 * qa * qb + qa * (b % 2) + qb * (a % 2)) + (a % 2) * (b % 2);
  }

  lemma SumParity(a: nat, b: nat)
    ensures ((a + b) % 2 == 1) == ((a % 2 == 1) != (b % 2 == 1))
  {
  }

  /** The parity of the k-sum u * column j is entry j of the GF(2) row product. */
  lemma {:induction false} DotParity(u: seq<nat>, B: IntMatrix, j: nat, n: nat)
    requires IsShape(B, |u|, n) && j < n
    ensures G.IsShape(Parity(B), |u|, n)
    ensures (Dot(u, Column(B, j)) % 2 == 1) == G.RowTimes(RowParity(u), Parity(B), n)[j]
    decreases |u|
  {
    if u != [] {
      assert Column(B, j)[1..] == Column(B[1..], j);
      assert RowParity(u)[1..] == RowParity(u[1..]);
      assert Parity(B)[1..] == Parity(B[1..]);
      DotParity(u[1..], B[1..], j, n);
      ProductParity(u[0], B[0][j]);
      SumParity(u[0] * B[0][j], Dot(u[1..], Column(B[1..], j)));
    }
  }

  /** `(A @ B) % 2` is the GF(2) product of `A % 2` and `B % 2`. */
  lemma MatMulParity(A: IntMatrix, B: IntMatrix, m: nat, p: nat, n: nat)
    requires IsShape(A, m, p) && IsShape(B, p, n)
    ensures G.IsShape(Parity(A), m, p) && G.IsShape(Parity(B), p, n)
    ensures Parity(MatMul(A, B, p, n)) == G.Mul(Parity(A), Parity(B), p, n)
  {
    var C := MatMul(A, B, p, n);
    forall i | 0 <= i < m
      ensures Parity(C)[i] == G.Mul(Parity(A), Parity(B), p, n)[i]
    {
      forall j | 0 <= j < n
        ensures RowParity(C[i])[j] == G.RowTimes(RowParity(A[i]), Parity(B), n)[j]
      {
        WrapParity(Dot(A[i], Column(B, j)));
        DotParity(A[i], B, j, n);
      }
    }
  }

  /** `(A + B) % 2` is the GF(2) sum of `A % 2` and `B % 2`. */
  lemma MatAddParity(A: IntMatrix, B: IntMatrix, m: nat, n: nat)
    requires IsShape(A, m, n) && IsShape(B, m, n)
    ensures G.IsShape(Parity(A), m, n) && G.IsShape(Parity(B), m, n)
    ensures Parity(MatAdd(A, B, n)) == G.Add(Parity(A), Parity(B), n)
  {
    var C := MatAdd(A, B, n);
    forall i | 0 <= i < m
      ensures Parity(C)[i] == G.Add(Parity(A), Parity(B), n)[i]
    {
      forall j | 0 <= j < n
        ensures RowParity(C[i])[j] == G.XorRow(RowParity(A[i]), RowParity(B[i]))[j]
      {
        WrapParity(A[i][j] + B[i][j]);
        SumParity(A[i][j], B[i][j]);
      }
    }
  }

  lemma EyeParity(n: nat)
    ensures Parity(Eye(n, 0)) == G.Identity(n)
  {
    forall i | 0 <= i < n
      ensures Parity(Eye(n, 0))[i] == G.Identity(n)[i]
    {
    }
  }

  /**
   * `matrix_power(M, e) % 2` is the e-th power of `M % 2` over GF(2): the
   * product with xor as addition, as the scripts' comment promises.
   */
  lemma {:induction false} MatrixPowerParity(M: IntMatrix, e: nat, n: nat)
    requires IsShape(M, n, n)
    ensures G.IsShape(Parity(M), n, n)
    ensures Parity(MatrixPower(M, e, n)) == G.Pow(Parity(M), e, n)
  {
    if e == 0 {
      EyeParity(n);
    } else {
      MatrixPowerParity(M, e - 1, n);
      MatMulParity(MatrixPower(M, e - 1, n), M, n, n, n);
    }
  }
}
