/** Index arithmetic of a rows-by-cols grid stored row by row in a string:
    cell (r, c) lives at position r * cols + c. */
module Grid {

  /** Math.ceil(n / d) for a positive divisor, on exact integers. */
  function CeilDiv(n: nat, d: nat): (q: nat)
    requires d > 0
    ensures n <= q * d < n + d
  {
    var q := (n + d - 1) / d;
    assert n + d - 1 == q * d + (n + d - 1) % d;
    q
  }

  /** The position of cell (r, c) in a grid w cells wide stored row by row. */
  function Cell(r: nat, c: nat, w: nat): nat {
    r * w + c
  }

  /** A cell of the grid lies inside it. */
  lemma CellInside(r: nat, c: nat, rows: nat, cols: nat)
    requires r < rows && c < cols
    ensures Cell(r, c, cols) < rows * cols
  {
    assert (r + 1) * cols <= rows * cols by {
      assert rows * cols - (r + 1) * cols == (rows - r - 1) * cols;
    }
  }

  /** Products by a positive factor keep strict order in both directions. */
  lemma MulCancelLess(a: int, b: int, n: int)
    requires n > 0 && a * n < b * n
    ensures a < b
  {
    assert (b - a) * n == b * n - a * n;
  }

  /** Position r * cols + c with c < cols has row r and column c. */
  lemma CellCoordinates(r: nat, c: nat, cols: nat)
    requires c < cols
    ensures Cell(r, c, cols) / cols == r && Cell(r, c, cols) % cols == c
  {
    var j := r * cols + c;
    var q, m := j / cols, j % cols;
    assert j == q * cols + m;
    MulCancelLess(q, r + 1, cols);
    MulCancelLess(r, q + 1, cols);
  }

  /** Every position of the grid has a row and a column inside it. */
  lemma PositionInside(j: nat, rows: nat, cols: nat)
    requires cols > 0 && j < rows * cols
    ensures j / cols < rows && j % cols < cols
    ensures j == Cell(j / cols, j % cols, cols)
  {
    assert (j / cols) * cols <= j;
    MulCancelLess(j / cols, rows, cols);
  }

  /** The length rows * cols divides into exactly rows rows. */
  lemma ExactRows(rows: nat, cols: nat)
    requires cols > 0
    ensures (rows * cols) / cols == rows && (rows * cols) % cols == 0
  {
    CellCoordinates(rows, 0, cols);
  }

  /** Block i of n blocks of width w ends inside the n * w positions. */
  lemma BlockInside(i: nat, n: nat, w: nat)
    requires i < n
    ensures Cell(i, 0, w) + w <= n * w
  {
    MulAddOne(i, n - i - 1, w);
  }

  /** (a + 1 + d) * w splits into a * w + w + d * w. */
  lemma MulAddOne(a: nat, d: nat, w: nat)
    ensures (a + 1 + d) * w == a * w + w + d * w
  {
  }

  /** A length that cols divides is rows * cols for rows = length / cols. */
  lemma ExactDivision(n: nat, cols: nat)
    requires cols > 0 && n % cols == 0
    ensures n == (n / cols) * cols
  {
  }

  /** A length that is already rows * cols needs exactly rows rows. */
  lemma CeilDivExact(rows: nat, cols: nat)
    requires cols > 0
    ensures CeilDiv(rows * cols, cols) == rows
  {
    var q := CeilDiv(rows * cols, cols);
    MulAddOne(q, 0, cols);
    MulAddOne(rows, 0, cols);
    MulCancelLess(q, rows + 1, cols);
    MulCancelLess(rows, q + 1, cols);
  }

  /** A positive factor keeps strict order. */
  lemma MulStrict(a: nat, b: nat, n: nat)
    requires a < b && n > 0
    ensures a * n < b * n
  {
    MulAddOne(a, b - a - 1, n);
  }
}
