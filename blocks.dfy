/**
 * `np.block` on a grid of equally sized square blocks: the blocks of a
 * grid row are placed side by side, and the grid rows are stacked.
 */
module Blocks {

  /** Concatenation of a sequence of sequences. */
  function Flatten<X>(ps: seq<seq<X>>): seq<X>
  {
    if ps == [] then [] else ps[0] + Flatten(ps[1..])
  }

  /** The blocks bs placed side by side; each has nb rows. */
  function HStack<X>(bs: seq<seq<seq<X>>>, nb: nat): seq<seq<X>>
    requires forall C :: 0 <= C < |bs| ==> |bs[C]| == nb
  {
    seq(nb, r requires 0 <= r < nb => Flatten(seq(|bs|, C requires 0 <= C < |bs| => bs[C][r])))
  }

  /** grid has m rows of g blocks, each nb x nb. */
  ghost predicate IsGrid<X>(grid: seq<seq<seq<seq<X>>>>, m: nat, g: nat, nb: nat)
  {
    && |grid| == m
    && (forall R :: 0 <= R < m ==> |grid[R]| == g)
    && (forall R, C :: 0 <= R < m && 0 <= C < g ==> |grid[R][C]| == nb)
    && (forall R, C, i :: 0 <= R < m && 0 <= C < g && 0 <= i < nb ==> |grid[R][C][i]| == nb)
  }

  /** `np.block(grid)`. */
  function Block<X>(grid: seq<seq<seq<seq<X>>>>, g: nat, nb: nat): seq<seq<X>>
    requires IsGrid(grid, |grid|, g, nb)
  {
    Flatten(seq(|grid|, R requires 0 <= R < |grid| => HStack(grid[R], nb)))
  }

  /** Element i of piece k of a concatenation of pieces of length w sits at k*w + i. */
  lemma {:induction false} FlattenAt<X>(ps: seq<seq<X>>, w: nat, k: nat, i: nat)
    requires forall t :: 0 <= t < |ps| ==> |ps[t]| == w
    requires k < |ps| && i < w
    ensures |Flatten(ps)| == |ps| * w
    ensures k * w + i < |Flatten(ps)| && Flatten(ps)[k * w + i] == ps[k][i]
    decreases k
  {
    FlattenLength(ps, w);
    IndexBound(k, w, i, |ps|);
    if k != 0 {
      assert k * w == w + (k - 1) * w;
      FlattenAt(ps[1..], w, k - 1, i);
    }
  }

  /** k*w + i indexes a sequence of n pieces of length w. */
  lemma IndexBound(k: nat, w: nat, i: nat, n: nat)
    requires k < n && i < w
    ensures k * w + i < n * w
  {
    assert k * w + i < (k + 1) * w;
    assert (k + 1) * w <= n * w by {
      assert n * w == (k + 1) * w + (n - k - 1) * w;
    }
  }

  lemma {:induction false} FlattenLength<X>(ps: seq<seq<X>>, w: nat)
    requires forall t :: 0 <= t < |ps| ==> |ps[t]| == w
    ensures |Flatten(ps)| == |ps| * w
  {
    if ps != [] {
      FlattenLength(ps[1..], w);
      assert |ps| * w == w + |ps[1..]| * w;
    }
  }

  /** Rows of equal length stay so when stacked. */
  lemma {:induction false} FlattenRows<X>(ps: seq<seq<seq<X>>>, len: nat)
    requires forall t, k :: 0 <= t < |ps| && 0 <= k < |ps[t]| ==> |ps[t][k]| == len
    ensures forall r :: 0 <= r < |Flatten(ps)| ==> |Flatten(ps)[r]| == len
  {
    if ps != [] {
      FlattenRows(ps[1..], len);
    }
  }

  /** Row r of blocks placed side by side: entry C*nb + j is entry (r, j) of block C. */
  lemma HStackAt<X>(bs: seq<seq<seq<X>>>, nb: nat, r: nat, C: nat, j: nat)
    requires forall C' :: 0 <= C' < |bs| ==> |bs[C']| == nb
    requires forall C', i :: 0 <= C' < |bs| && 0 <= i < nb ==> |bs[C'][i]| == nb
    requires r < nb
    ensures |HStack(bs, nb)[r]| == |bs| * nb
    ensures C < |bs| && j < nb ==> C * nb + j < |bs| * nb
    ensures C < |bs| && j < nb ==> HStack(bs, nb)[r][C * nb + j] == bs[C][r][j]
  {
    var pieces := seq(|bs|, C' requires 0 <= C' < |bs| => bs[C'][r]);
    assert HStack(bs, nb)[r] == Flatten(pieces);
    FlattenLength(pieces, nb);
    if C < |bs| && j < nb {
      IndexBound(C, nb, j, |bs|);
      FlattenAt(pieces, nb, C, j);
    }
  }

  /** The assembled matrix is (m*nb) x (g*nb), every row of g*nb entries. */
  lemma BlockShape<X>(grid: seq<seq<seq<seq<X>>>>, g: nat, nb: nat)
    requires IsGrid(grid, |grid|, g, nb)
    ensures |Block(grid, g, nb)| == |grid| * nb
    ensures forall r :: 0 <= r < |Block(grid, g, nb)| ==> |Block(grid, g, nb)[r]| == g * nb
  {
    var rows := seq(|grid|, R requires 0 <= R < |grid| => HStack(grid[R], nb));
    FlattenLength(rows, nb);
    forall R, i | 0 <= R < |rows| && 0 <= i < |rows[R]|
      ensures |rows[R][i]| == g * nb
    {
      HStackAt(grid[R], nb, i, 0, 0);
    }
    FlattenRows(rows, g * nb);
  }

  /** Entry (i, j) of block (R, C) of the grid is entry (R*nb + i, C*nb + j) of the assembled matrix. */
  lemma BlockAt<X>(grid: seq<seq<seq<seq<X>>>>, g: nat, nb: nat, R: nat, C: nat, i: nat, j: nat)
    requires IsGrid(grid, |grid|, g, nb)
    requires R < |grid| && C < g && i < nb && j < nb
    ensures |Block(grid, g, nb)| == |grid| * nb
    ensures R * nb + i < |Block(grid, g, nb)| && C * nb + j < |Block(grid, g, nb)[R * nb + i]|
    ensures Block(grid, g, nb)[R * nb + i][C * nb + j] == grid[R][C][i][j]
  {
    var rows := seq(|grid|, R' requires 0 <= R' < |grid| => HStack(grid[R'], nb));
    FlattenAt(rows, nb, R, i);
    HStackAt(grid[R], nb, i, C, j);
  }
}
