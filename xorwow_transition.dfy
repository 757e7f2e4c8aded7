/**
 * The xorwow transition matrix T: a 5 x 5 grid of 32 x 32 `uint32` blocks
 * built from the shift matrices L and R with numpy.
 */
module XorwowTransition {
  import opened NumpyMatrix
  import opened Blocks
  import opened XorwowParams

  /** `np.eye(nb, k=1)`: ones at (i, i+1). */
  function L(): (M: IntMatrix)
    ensures IsShape(M, NB, NB)
  {
    Eye(NB, 1)
  }

  /** `np.eye(nb, k=-1)`: ones at (i+1, i). */
  function R(): (M: IntMatrix)
    ensures IsShape(M, NB, NB)
  {
    Eye(NB, -1)
  }

  function I(): (M: IntMatrix)
    ensures IsShape(M, NB, NB)
  {
    Eye(NB, 0)
  }

  function O(): (M: IntMatrix)
    ensures IsShape(M, NB, NB)
  {
    ZeroMatrix(NB)
  }

  /** `A = (I + L^a) @ (I + R^b)`. */
  function A(): (M: IntMatrix)
    ensures IsShape(M, NB, NB)
  {
    MatMul(MatAdd(I(), MatrixPower(L(), ShiftA, NB), NB), MatAdd(I(), MatrixPower(R(), ShiftB, NB), NB), NB, NB)
  }

  /** `B = I + R^c`. */
  function B(): (M: IntMatrix)
    ensures IsShape(M, NB, NB)
  {
    MatAdd(I(), MatrixPower(R(), ShiftC, NB), NB)
  }

  /** The block layout of T; C, D and E are zero blocks. */
  function Grid(): (grid: seq<seq<IntMatrix>>)
    ensures IsGrid(grid, NW, NW, NB)
  {
    [[O(), O(), O(), O(), A()],
     [I(), O(), O(), O(), O()],
     [O(), I(), O(), O(), O()],
     [O(), O(), I(), O(), O()],
     [O(), O(), O(), I(), B()]]
  }

  /** `T = np.block(...)`. */
  function T(): (M: IntMatrix)
    ensures IsShape(M, NK, NK)
  {
    BlockShape(Grid(), NW, NB);
    Block(Grid(), NW, NB)
  }

  /** L has ones exactly at (i, i+1) and R exactly at (i+1, i). */
  lemma ShiftMatrices(i: nat, j: nat)
    requires i < NB && j < NB
    ensures L()[i][j] == (if j == i + 1 then 1 else 0)
    ensures R()[i][j] == (if i == j + 1 then 1 else 0)
  {
  }

  /**
   * Block (0, 4) of T is A, blocks (1, 0), (2, 1), (3, 2), (4, 3) are the
   * identity, block (4, 4) is B, and every other entry is zero.
   */
  lemma TBlocks(bi: nat, bj: nat, i: nat, j: nat)
    requires bi < NW && bj < NW && i < NB && j < NB
    ensures bi * NB + i < NK && bj * NB + j < NK
    ensures T()[bi * NB + i][bj * NB + j] ==
      if bi == 0 && bj == 4 then A()[i][j]
      else if bi == 4 && bj == 4 then B()[i][j]
      else if bi == bj + 1 then (if i == j then 1 else 0)
      else 0
  {
    BlockAt(Grid(), NW, NB, bi, bj, i, j);
  }
}
