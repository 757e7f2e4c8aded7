/**
 * `print_jump_matrices`: a table of jump matrices as a C array literal,
 * nested braces for matrices, blocks and rows, and decimal words separated
 * by ", ".
 */
module XorwowJumpMatrixText {
  import opened Text

  type Table = seq<seq<seq<seq<nat>>>>

  /** `str(x)` for each word. */
  function Decimals(xs: seq<nat>): (r: seq<string>)
    ensures |r| == |xs|
    ensures forall i :: 0 <= i < |xs| ==> r[i] == Decimal(xs[i])
  {
    if xs == [] then [] else [Decimal(xs[0])] + Decimals(xs[1..])
  }

  /** `f'{{{", ".join(items)}}}'`. */
  function Braced(items: seq<string>): string
  {
    "{" + Join(items, ", ") + "}"
  }

  function RowText(row: seq<nat>): string
  {
    Braced(Decimals(row))
  }

  function BlockText(block: seq<seq<nat>>): string
  {
    Braced(seq(|block|, r requires 0 <= r < |block| => RowText(block[r])))
  }

  function MatrixText(matrix: seq<seq<seq<nat>>>): string
  {
    Braced(seq(|matrix|, b requires 0 <= b < |matrix| => BlockText(matrix[b])))
  }

  /** The braced list of all matrices of the table. */
  function TableText(jump: Table): string
  {
    Braced(seq(|jump|, m requires 0 <= m < |jump| => MatrixText(jump[m])))
  }

  /** The printed definition, with the newline `print` ends it with. */
  function PrintJumpMatrices(jump: Table, name: string): string
  {
    "static unsigned int const " + name + "[] = " + TableText(jump) + ";\n"
  }

  /** The nested lists of a result array, in the order `for matrix in jump` visits them. */
  function Contents(a: array4<nat>): (t: Table)
    reads a
    ensures |t| == a.Length0
    ensures forall m :: 0 <= m < a.Length0 ==> |t[m]| == a.Length1
    ensures forall m, i :: 0 <= m < a.Length0 && 0 <= i < a.Length1 ==> |t[m][i]| == a.Length2
    ensures forall m, i, j :: 0 <= m < a.Length0 && 0 <= i < a.Length1 && 0 <= j < a.Length2 ==> |t[m][i][j]| == a.Length3
    ensures forall m, i, j, k :: 0 <= m < a.Length0 && 0 <= i < a.Length1 && 0 <= j < a.Length2 && 0 <= k < a.Length3 ==>
      t[m][i][j][k] == a[m, i, j, k]
  {
    seq(a.Length0, m requires 0 <= m < a.Length0 reads a =>
      seq(a.Length1, i requires 0 <= i < a.Length1 reads a =>
        seq(a.Length2, j requires 0 <= j < a.Length2 reads a =>
          seq(a.Length3, k requires 0 <= k < a.Length3 reads a => a[m, i, j, k]))))
  }

  // ---------------------------------------------------------------------
  // Reading the text back

  lemma DecimalsConcat(ws: seq<seq<nat>>)
    ensures Decimals(Concat(ws)) == Concat(seq(|ws|, i requires 0 <= i < |ws| => Decimals(ws[i])))
  {
    if ws != [] {
      DecimalsAppend(ws[0], Concat(ws[1..]));
      DecimalsConcat(ws[1..]);
      var ds := seq(|ws|, i requires 0 <= i < |ws| => Decimals(ws[i]));
      assert ds[1..] == seq(|ws| - 1, i requires 0 <= i < |ws| - 1 => Decimals(ws[1..][i]));
    }
  }

  lemma DecimalsAppend(a: seq<nat>, b: seq<nat>)
    ensures Decimals(a + b) == Decimals(a) + Decimals(b)
  {
  }

  /**
   * One level of braces: if each item strips to the comma-joined decimal
   * words of a non-empty group, the braced list strips to the words of all
   * groups in order.
   */
  lemma StripBraced(ts: seq<string>, ws: seq<seq<nat>>)
    requires |ts| == |ws|
    requires forall i :: 0 <= i < |ws| ==> |ws[i]| >= 1 && Strip(ts[i]) == Join(Decimals(ws[i]), ",")
    ensures Strip(Braced(ts)) == Join(Decimals(Concat(ws)), ",")
  {
    StripConcat("{" + Join(ts, ", "), "}");
    StripConcat("{", Join(ts, ", "));
    StripJoin(ts);
    var ds := seq(|ws|, i requires 0 <= i < |ws| => Decimals(ws[i]));
    assert StripEach(ts) == seq(|ds|, i requires 0 <= i < |ds| => Join(ds[i], ","));
    JoinGroups(ds, ",");
    DecimalsConcat(ws);
  }

  /** A row strips to its words in decimal, separated by commas. */
  lemma StripRow(row: seq<nat>)
    ensures Strip(RowText(row)) == Join(Decimals(row), ",")
  {
    var ws := seq(|row|, i requires 0 <= i < |row| => [row[i]]);
    forall i | 0 <= i < |row|
      ensures Strip(Decimals(row)[i]) == Join(Decimals(ws[i]), ",")
    {
      StripDigits(Decimal(row[i]));
    }
    StripBraced(Decimals(row), ws);
    assert Concat(ws) == row by {
      ConcatSingletons(row);
    }
  }

  lemma {:induction false} ConcatSingletons(row: seq<nat>)
    ensures Concat(seq(|row|, i requires 0 <= i < |row| => [row[i]])) == row
  {
    if row != [] {
      var ws := seq(|row|, i requires 0 <= i < |row| => [row[i]]);
      assert ws[1..] == seq(|row| - 1, i requires 0 <= i < |row| - 1 => [row[1..][i]]);
      ConcatSingletons(row[1..]);
    }
  }

  /** A block strips to its rows' words, comma-separated, row after row. */
  lemma StripBlock(block: seq<seq<nat>>)
    requires forall r :: 0 <= r < |block| ==> |block[r]| >= 1
    ensures Strip(BlockText(block)) == Join(Decimals(Concat(block)), ",")
  {
    forall r | 0 <= r < |block|
      ensures Strip(RowText(block[r])) == Join(Decimals(block[r]), ",")
    {
      StripRow(block[r]);
    }
    StripBraced(seq(|block|, r requires 0 <= r < |block| => RowText(block[r])), block);
  }

  /** A matrix strips to the words of its blocks in order. */
  lemma StripMatrix(matrix: seq<seq<seq<nat>>>)
    requires forall b, r :: 0 <= b < |matrix| && 0 <= r < |matrix[b]| ==> |matrix[b][r]| >= 1
    requires forall b :: 0 <= b < |matrix| ==> |matrix[b]| >= 1
    ensures Strip(MatrixText(matrix)) == Join(Decimals(Concat(seq(|matrix|, b requires 0 <= b < |matrix| => Concat(matrix[b])))), ",")
  {
    var ws := seq(|matrix|, b requires 0 <= b < |matrix| => Concat(matrix[b]));
    forall b | 0 <= b < |matrix|
      ensures |ws[b]| >= 1 && Strip(BlockText(matrix[b])) == Join(Decimals(ws[b]), ",")
    {
      StripBlock(matrix[b]);
      ConcatNonEmpty(matrix[b]);
    }
    StripBraced(seq(|matrix|, b requires 0 <= b < |matrix| => BlockText(matrix[b])), ws);
  }

  lemma ConcatNonEmpty<T>(ys: seq<seq<T>>)
    requires |ys| >= 1 && |ys[0]| >= 1
    ensures |Concat(ys)| >= 1
  {
  }

  /** The words of a matrix in the order the printer visits them: block by block, row by row. */
  function MatrixWords(matrix: seq<seq<seq<nat>>>): seq<nat>
  {
    Concat(seq(|matrix|, b requires 0 <= b < |matrix| => Concat(matrix[b])))
  }

  /**
   * Without its braces and blanks, the printed table is every word in
   * decimal, separated by commas, matrix after matrix, block after block,
   * row after row.
   */
  lemma StripTable(jump: Table)
    requires forall m :: 0 <= m < |jump| ==> |jump[m]| >= 1
    requires forall m, b :: 0 <= m < |jump| && 0 <= b < |jump[m]| ==> |jump[m][b]| >= 1
    requires forall m, b, r :: 0 <= m < |jump| && 0 <= b < |jump[m]| && 0 <= r < |jump[m][b]| ==> |jump[m][b][r]| >= 1
    ensures Strip(TableText(jump)) == Join(Decimals(Concat(seq(|jump|, m requires 0 <= m < |jump| => MatrixWords(jump[m])))), ",")
  {
    var ws := seq(|jump|, m requires 0 <= m < |jump| => MatrixWords(jump[m]));
    forall m | 0 <= m < |jump|
      ensures |ws[m]| >= 1 && Strip(MatrixText(jump[m])) == Join(Decimals(ws[m]), ",")
    {
      StripMatrix(jump[m]);
      ConcatNonEmpty(jump[m][0]);
      ConcatNonEmpty(seq(|jump[m]|, b requires 0 <= b < |jump[m]| => Concat(jump[m][b])));
    }
    StripBraced(seq(|jump|, m requires 0 <= m < |jump| => MatrixText(jump[m])), ws);
  }
}
