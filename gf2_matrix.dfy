/**
 * Matrices over GF(2) as sequences of rows of booleans. The product is
 * formed the way the jump-ahead code describes it: row i of A * B is the
 * exclusive or of the rows of B selected by the set entries of row i of A.
 */
module Gf2Matrix {

  type Row = seq<bool>
  type Matrix = seq<Row>

  /** M has m rows, each of n entries. */
  predicate IsShape(M: Matrix, m: nat, n: nat)
  {
    |M| == m && forall i :: 0 <= i < m ==> |M[i]| == n
  }

  function Zeros(n: nat): (r: Row)
    ensures |r| == n
    ensures forall j :: 0 <= j < n ==> !r[j]
  {
    seq(n, j => false)
  }

  /** Entry-wise sum over GF(2). */
  function XorRow(u: Row, v: Row): (r: Row)
    requires |u| == |v|
    ensures |r| == |u|
    ensures forall j :: 0 <= j < |u| ==> r[j] == (u[j] != v[j])
  {
    seq(|u|, j requires 0 <= j < |u| => u[j] != v[j])
  }

  /** v if b is set, the zero row otherwise: the term b * v of a combination. */
  function Select(b: bool, v: Row): (r: Row)
    ensures |r| == |v|
  {
    if b then v else Zeros(|v|)
  }

  /** The row vector u times B: the xor of the rows B[k] with u[k] set. */
  function RowTimes(u: Row, B: Matrix, n: nat): (r: Row)
    requires IsShape(B, |u|, n)
    ensures |r| == n
    decreases |u|
  {
    if u == [] then Zeros(n)
    else XorRow(Select(u[0], B[0]), RowTimes(u[1..], B[1..], n))
  }

  /** Matrix product of an m x p matrix A and a p x n matrix B. */
  function Mul(A: Matrix, B: Matrix, p: nat, n: nat): (C: Matrix)
    requires forall i :: 0 <= i < |A| ==> |A[i]| == p
    requires IsShape(B, p, n)
    ensures IsShape(C, |A|, n)
    ensures forall i :: 0 <= i < |A| ==> C[i] == RowTimes(A[i], B, n)
  {
    seq(|A|, i requires 0 <= i < |A| => RowTimes(A[i], B, n))
  }

  /** Entry-wise sum of two matrices over GF(2). */
  function Add(A: Matrix, B: Matrix, n: nat): (C: Matrix)
    requires IsShape(A, |A|, n) && IsShape(B, |A|, n)
    ensures IsShape(C, |A|, n)
    ensures forall i :: 0 <= i < |A| ==> C[i] == XorRow(A[i], B[i])
  {
    seq(|A|, i requires 0 <= i < |A| => XorRow(A[i], B[i]))
  }

  /** The unit vector e_i (all zeros when i is outside 0 .. n-1). */
  function Unit(n: nat, i: int): (r: Row)
    ensures |r| == n
    ensures forall j :: 0 <= j < n ==> r[j] == (j == i)
  {
    seq(n, j => j == i)
  }

  function Identity(n: nat): (I: Matrix)
    ensures IsShape(I, n, n)
    ensures forall i :: 0 <= i < n ==> I[i] == Unit(n, i)
  {
    seq(n, i requires 0 <= i < n => Unit(n, i))
  }

  /** M^e, multiplying by M on the right e times, starting from the identity. */
  function Pow(M: Matrix, e: nat, n: nat): (P: Matrix)
    requires IsShape(M, n, n)
    ensures IsShape(P, n, n)
  {
    if e == 0 then Identity(n) else Mul(Pow(M, e - 1, n), M, n, n)
  }

  // ---------------------------------------------------------------------
  // Rows

  lemma XorRowSwap(a: Row, b: Row, c: Row, d: Row)
    requires |a| == |b| == |c| == |d|
    ensures XorRow(XorRow(a, b), XorRow(c, d)) == XorRow(XorRow(a, c), XorRow(b, d))
  {
  }

  lemma XorRowZero(a: Row)
    ensures XorRow(Zeros(|a|), a) == a
    ensures XorRow(a, Zeros(|a|)) == a
  {
  }

  lemma SelectXor(b: bool, c: bool, v: Row)
    ensures Select(b != c, v) == XorRow(Select(b, v), Select(c, v))
  {
  }

  /** The zero vector selects nothing. */
  lemma {:induction false} RowTimesZeros(B: Matrix, m: nat, n: nat)
    requires IsShape(B, m, n)
    ensures RowTimes(Zeros(m), B, n) == Zeros(n)
    decreases m
  {
    if m != 0 {
      assert Zeros(m)[1..] == Zeros(m - 1);
      RowTimesZeros(B[1..], m - 1, n);
      XorRowZero(Zeros(n));
    }
  }

  lemma RowTimesSelect(b: bool, v: Row, C: Matrix, n: nat)
    requires IsShape(C, |v|, n)
    ensures RowTimes(Select(b, v), C, n) == Select(b, RowTimes(v, C, n))
  {
    if !b {
      RowTimesZeros(C, |v|, n);
    }
  }

  /** u * B is linear in u. */
  lemma {:induction false} RowTimesXor(u: Row, v: Row, B: Matrix, n: nat)
    requires |u| == |v|
    requires IsShape(B, |u|, n)
    ensures RowTimes(XorRow(u, v), B, n) == XorRow(RowTimes(u, B, n), RowTimes(v, B, n))
    decreases |u|
  {
    if u != [] {
      var w := XorRow(u, v);
      assert w[1..] == XorRow(u[1..], v[1..]);
      RowTimesXor(u[1..], v[1..], B[1..], n);
      SelectXor(u[0], v[0], B[0]);
      XorRowSwap(Select(u[0], B[0]), Select(v[0], B[0]),
                 RowTimes(u[1..], B[1..], n), RowTimes(v[1..], B[1..], n));
    }
  }

  /** (u * B) * C == u * (B * C). */
  lemma {:induction false} RowTimesAssoc(u: Row, B: Matrix, C: Matrix, p: nat, n: nat)
    requires IsShape(B, |u|, p) && IsShape(C, p, n)
    ensures RowTimes(RowTimes(u, B, p), C, n) == RowTimes(u, Mul(B, C, p, n), n)
    decreases |u|
  {
    if u == [] {
      RowTimesZeros(C, p, n);
    } else {
      var BC := Mul(B, C, p, n);
      assert BC[1..] == Mul(B[1..], C, p, n);
      RowTimesXor(Select(u[0], B[0]), RowTimes(u[1..], B[1..], p), C, n);
      RowTimesSelect(u[0], B[0], C, n);
      RowTimesAssoc(u[1..], B[1..], C, p, n);
    }
  }

  /** Matrix product is associative. */
  lemma MulAssoc(A: Matrix, B: Matrix, C: Matrix, m: nat, p: nat, q: nat, n: nat)
    requires IsShape(A, m, p) && IsShape(B, p, q) && IsShape(C, q, n)
    ensures Mul(Mul(A, B, p, q), C, q, n) == Mul(A, Mul(B, C, q, n), p, n)
  {
    forall i | 0 <= i < m
      ensures Mul(Mul(A, B, p, q), C, q, n)[i] == Mul(A, Mul(B, C, q, n), p, n)[i]
    {
      RowTimesAssoc(A[i], B, C, q, n);
    }
  }

  // ---------------------------------------------------------------------
  // Identity

  /** A unit vector selects a single row. */
  lemma {:induction false} RowTimesUnit(m: nat, i: nat, B: Matrix, n: nat)
    requires i < m
    requires IsShape(B, m, n)
    ensures RowTimes(Unit(m, i), B, n) == B[i]
    decreases m
  {
    var u := Unit(m, i);
    if i == 0 {
      assert u[1..] == Zeros(m - 1);
      RowTimesZeros(B[1..], m - 1, n);
      XorRowZero(B[0]);
    } else {
      assert u[1..] == Unit(m - 1, i - 1);
      RowTimesUnit(m - 1, i - 1, B[1..], n);
      XorRowZero(B[i]);
    }
  }

  /** Combining the unit rows e_o, e_(o+1), ... by u places u at offset o. */
  lemma {:induction false} RowTimesUnits(u: Row, B: Matrix, o: int, n: nat)
    requires IsShape(B, |u|, n)
    requires forall k :: 0 <= k < |u| ==> B[k] == Unit(n, o + k)
    ensures forall j :: 0 <= j < n ==> RowTimes(u, B, n)[j] == (o <= j < o + |u| && u[j - o])
    decreases |u|
  {
    if u != [] {
      RowTimesUnits(u[1..], B[1..], o + 1, n);
    }
  }

  lemma MulIdentityLeft(B: Matrix, m: nat, n: nat)
    requires IsShape(B, m, n)
    ensures Mul(Identity(m), B, m, n) == B
  {
    forall i | 0 <= i < m
      ensures Mul(Identity(m), B, m, n)[i] == B[i]
    {
      RowTimesUnit(m, i, B, n);
    }
  }

  lemma MulIdentityRight(A: Matrix, m: nat, n: nat)
    requires IsShape(A, m, n)
    ensures Mul(A, Identity(n), n, n) == A
  {
    forall i | 0 <= i < m
      ensures Mul(A, Identity(n), n, n)[i] == A[i]
    {
      RowTimesUnits(A[i], Identity(n), 0, n);
    }
  }

  // ---------------------------------------------------------------------
  // Powers

  /** M^1 == M. */
  lemma PowOne(M: Matrix, n: nat)
    requires IsShape(M, n, n)
    ensures Pow(M, 1, n) == M
  {
    MulIdentityLeft(M, n, n);
  }

  /** M^(a+b) == M^a * M^b. */
  lemma {:induction false} PowAdd(M: Matrix, a: nat, b: nat, n: nat)
    requires IsShape(M, n, n)
    ensures Pow(M, a + b, n) == Mul(Pow(M, a, n), Pow(M, b, n), n, n)
    decreases b
  {
    if b == 0 {
      MulIdentityRight(Pow(M, a, n), n, n);
    } else {
      PowAdd(M, a, b - 1, n);
      assert a + b - 1 == a + (b - 1);
      MulAssoc(Pow(M, a, n), Pow(M, b - 1, n), M, n, n, n, n);
    }
  }

  /** (M^a)^b == M^(a*b). */
  lemma {:induction false} PowMul(M: Matrix, a: nat, b: nat, n: nat)
    requires IsShape(M, n, n)
    ensures Pow(Pow(M, a, n), b, n) == Pow(M, a * b, n)
    decreases b
  {
    if b != 0 {
      PowMul(M, a, b - 1, n);
      assert a * b == a * (b - 1) + a;
      PowAdd(M, a * (b - 1), a, n);
    }
  }
}
