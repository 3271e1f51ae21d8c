/** The arithmetic of row-major offsets. */
module RowMajor {

  lemma MulMonotone(x: nat, y: nat, size: nat)
    requires x <= y
    ensures x * size <= y * size
  {
  }

  lemma MulLess(i: nat, n: nat, size: nat, rest: nat)
    requires i < n && rest < size
    ensures i * size + rest < n * size
  {
    MulMonotone(i + 1, n, size);
    assert (i + 1) * size == i * size + size;
  }

  /** Where a cell of a matrix with `cols` columns stands. */
  function Cell(row: nat, col: nat, cols: nat): nat {
    row * cols + col
  }

  lemma CellInRange(row: nat, col: nat, rows: nat, cols: nat)
    requires row < rows && col < cols
    ensures Cell(row, col, cols) < rows * cols
  {
    MulLess(row, rows, cols, col);
  }

  /** Different cells stand in different places. */
  lemma CellInjective(row: nat, col: nat, row': nat, col': nat, cols: nat)
    requires col < cols && col' < cols && Cell(row, col, cols) == Cell(row', col', cols)
    ensures row == row' && col == col'
  {
    if row < row' {
      MulLess(row, row', cols, col);
    } else if row' < row {
      MulLess(row', row, cols, col');
    }
  }
}
