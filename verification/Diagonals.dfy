/** `eye`, `tri`, `tril`, `triu` and `diag` on matrices of exact numbers in row-major order. */
module Diagonals {
  import opened RowMajor
  import opened Wrappers

  datatype Matrix = Matrix(rows: nat, cols: nat, data: seq<real>)

  /** An array by its number of dimensions. */
  datatype Tensor = Vector(data: seq<real>) | Plane(m: Matrix) | Other(ndim: nat)

  datatype LinalgError = LinalgShapeError

  /** What stands in each cell, as a function of row and column. */
  type Cells = (int, int) -> real

  predicate Valid(m: Matrix) {
    |m.data| == m.rows * m.cols
  }

  function Elem(m: Matrix, row: nat, col: nat): real
    requires Valid(m) && row < m.rows && col < m.cols
  {
    CellInRange(row, col, m.rows, m.cols);
    m.data[Cell(row, col, m.cols)]
  }

  /** The buffer holds `f` at every cell. */
  ghost predicate Holds(data: seq<real>, rows: nat, cols: nat, f: Cells) {
    && |data| == rows * cols
    && forall row: nat, col: nat {:trigger Cell(row, col, cols)} ::
         row < rows && col < cols && Cell(row, col, cols) < |data| ==> data[Cell(row, col, cols)] == f(row, col)
  }

  ghost predicate IsMatrix(m: Matrix, rows: nat, cols: nat, f: Cells) {
    m.rows == rows && m.cols == cols && Holds(m.data, rows, cols, f)
  }

  lemma {:induction false} ElemOf(m: Matrix, rows: nat, cols: nat, f: Cells, row: nat, col: nat)
    requires IsMatrix(m, rows, cols, f) && row < rows && col < cols
    ensures Valid(m) && Elem(m, row, col) == f(row, col)
  {
    CellInRange(row, col, rows, cols);
  }

  /** The functions agree inside the matrix. */
  ghost predicate AgreeOn(rows: nat, cols: nat, f: Cells, g: Cells) {
    forall r: nat, c: nat {:trigger f(r, c)} {:trigger g(r, c)} :: r < rows && c < cols ==> f(r, c) == g(r, c)
  }

  lemma {:induction false} HoldsAlike(data: seq<real>, rows: nat, cols: nat, f: Cells, g: Cells)
    requires Holds(data, rows, cols, f) && AgreeOn(rows, cols, f, g)
    ensures Holds(data, rows, cols, g)
  {
  }

  function Put(f: Cells, row: int, col: int, x: real): Cells {
    (r, c) => if r == row && c == col then x else f(r, c)
  }

  /** Writing one cell changes that cell only. */
  lemma {:induction false} WriteCell(data: seq<real>, rows: nat, cols: nat, f: Cells, row: nat, col: nat, x: real)
    requires Holds(data, rows, cols, f) && row < rows && col < cols
    ensures Cell(row, col, cols) < |data| && Holds(data[Cell(row, col, cols) := x], rows, cols, Put(f, row, col, x))
  {
    CellInRange(row, col, rows, cols);
    var after := data[Cell(row, col, cols) := x];
    var g := Put(f, row, col, x);
    forall r: nat, c: nat | r < rows && c < cols && Cell(r, c, cols) < |after|
      ensures after[Cell(r, c, cols)] == g(r, c)
    {
      if Cell(r, c, cols) == Cell(row, col, cols) {
        CellInjective(r, c, row, col, cols);
      }
    }
  }

  /** A `vec![0.0; rows * cols]` that is filled in. */
  class Grid {
    const rows: nat
    const cols: nat
    const values: array<real>

    constructor (rows: nat, cols: nat)
      ensures this.rows == rows && this.cols == cols && fresh(values)
      ensures Holds(values[..], rows, cols, Zero())
    {
      this.rows, this.cols := rows, cols;
      values := new real[rows * cols](_ => 0.0);
    }

    method Write(row: nat, col: nat, x: real, ghost f: Cells)
      requires row < rows && col < cols && Holds(values[..], rows, cols, f)
      modifies values
      ensures Holds(values[..], rows, cols, Put(f, row, col, x))
    {
      WriteCell(values[..], rows, cols, f, row, col, x);
      values[row * cols + col] := x;
      assert values[..] == old(values[..])[Cell(row, col, cols) := x];
    }
  }

  function Zero(): Cells {
    (r, c) => 0.0
  }

  // ----- indicator matrices -----

  /** Ones on diagonal `k`. */
  function EyeCells(k: int): Cells {
    (r, c) => if c == r + k then 1.0 else 0.0
  }

  /** Ones at and below diagonal `k`. */
  function TriCells(k: int): Cells {
    (r, c) => if c <= r + k then 1.0 else 0.0
  }

  /** The cells before a place, in row-major order; zeros from there on. */
  function Before(f: Cells, row: int, col: int): Cells {
    (r, c) => if r < row || (r == row && c < col) then f(r, c) else 0.0
  }

  method Eye(n: nat, mCols: Option<nat>, k: int) returns (m: Matrix)
    ensures IsMatrix(m, n, if mCols.Some? then mCols.value else n, EyeCells(k))
  {
    var cols := if mCols.Some? then mCols.value else n;
    var grid := new Grid(n, cols);
    ghost var f := EyeCells(k);
    HoldsAlike(grid.values[..], n, cols, Zero(), Before(f, 0, 0));
    for row := 0 to n
      invariant Holds(grid.values[..], n, cols, Before(f, row, 0))
    {
      var col := row + k;
      ghost var before := Before(f, row, 0);
      if 0 <= col < cols {
        grid.Write(row, col, 1.0, before);
        before := Put(before, row, col, 1.0);
      }
      HoldsAlike(grid.values[..], n, cols, before, Before(f, row + 1, 0));
    }
    HoldsAlike(grid.values[..], n, cols, Before(f, n, 0), f);
    m := Matrix(n, cols, grid.values[..]);
  }

  method Tri(n: nat, mCols: Option<nat>, k: int) returns (m: Matrix)
    ensures IsMatrix(m, n, if mCols.Some? then mCols.value else n, TriCells(k))
  {
    var cols := if mCols.Some? then mCols.value else n;
    var grid := new Grid(n, cols);
    ghost var f := TriCells(k);
    HoldsAlike(grid.values[..], n, cols, Zero(), Before(f, 0, 0));
    for row := 0 to n
      invariant Holds(grid.values[..], n, cols, Before(f, row, 0))
    {
      for col := 0 to cols
        invariant Holds(grid.values[..], n, cols, Before(f, row, col))
      {
        ghost var before := Before(f, row, col);
        if col <= row + k {
          grid.Write(row, col, 1.0, before);
          before := Put(before, row, col, 1.0);
        }
        HoldsAlike(grid.values[..], n, cols, before, Before(f, row, col + 1));
      }
      HoldsAlike(grid.values[..], n, cols, Before(f, row, cols), Before(f, row + 1, 0));
    }
    HoldsAlike(grid.values[..], n, cols, Before(f, n, 0), f);
    m := Matrix(n, cols, grid.values[..]);
  }

  // ----- triangles -----

  function ElemOrZero(m: Matrix, row: int, col: int): real
    requires Valid(m)
  {
    if 0 <= row < m.rows && 0 <= col < m.cols then Elem(m, row, col) else 0.0
  }

  /** The entries at and below diagonal `k`. */
  function LowerCells(m: Matrix, k: int): Cells
    requires Valid(m)
  {
    (r, c) => if c <= r + k then ElemOrZero(m, r, c) else 0.0
  }

  /** The entries at and above diagonal `k`. */
  function UpperCells(m: Matrix, k: int): Cells
    requires Valid(m)
  {
    (r, c) => if c >= r + k then ElemOrZero(m, r, c) else 0.0
  }

  method Tril(t: Tensor, k: int) returns (r: Result<Matrix, LinalgError>)
    requires t.Plane? ==> Valid(t.m)
    ensures if t.Plane? then r.Ok? && IsMatrix(r.value, t.m.rows, t.m.cols, LowerCells(t.m, k))
            else r == Err(LinalgShapeError)
  {
    if !t.Plane? {
      return Err(LinalgShapeError);
    }
    var m := t.m;
    var grid := new Grid(m.rows, m.cols);
    ghost var f := LowerCells(m, k);
    HoldsAlike(grid.values[..], m.rows, m.cols, Zero(), Before(f, 0, 0));
    for row := 0 to m.rows
      invariant Holds(grid.values[..], m.rows, m.cols, Before(f, row, 0))
    {
      for col := 0 to m.cols
        invariant Holds(grid.values[..], m.rows, m.cols, Before(f, row, col))
      {
        ghost var before := Before(f, row, col);
        if col <= row + k {
          grid.Write(row, col, Elem(m, row, col), before);
          before := Put(before, row, col, Elem(m, row, col));
        }
        HoldsAlike(grid.values[..], m.rows, m.cols, before, Before(f, row, col + 1));
      }
      HoldsAlike(grid.values[..], m.rows, m.cols, Before(f, row, m.cols), Before(f, row + 1, 0));
    }
    HoldsAlike(grid.values[..], m.rows, m.cols, Before(f, m.rows, 0), f);
    r := Ok(Matrix(m.rows, m.cols, grid.values[..]));
  }

  method Triu(t: Tensor, k: int) returns (r: Result<Matrix, LinalgError>)
    requires t.Plane? ==> Valid(t.m)
    ensures if t.Plane? then r.Ok? && IsMatrix(r.value, t.m.rows, t.m.cols, UpperCells(t.m, k))
            else r == Err(LinalgShapeError)
  {
    if !t.Plane? {
      return Err(LinalgShapeError);
    }
    var m := t.m;
    var grid := new Grid(m.rows, m.cols);
    ghost var f := UpperCells(m, k);
    HoldsAlike(grid.values[..], m.rows, m.cols, Zero(), Before(f, 0, 0));
    for row := 0 to m.rows
      invariant Holds(grid.values[..], m.rows, m.cols, Before(f, row, 0))
    {
      for col := 0 to m.cols
        invariant Holds(grid.values[..], m.rows, m.cols, Before(f, row, col))
      {
        ghost var before := Before(f, row, col);
        if col >= row + k {
          grid.Write(row, col, Elem(m, row, col), before);
          before := Put(before, row, col, Elem(m, row, col));
        }
        HoldsAlike(grid.values[..], m.rows, m.cols, before, Before(f, row, col + 1));
      }
      HoldsAlike(grid.values[..], m.rows, m.cols, Before(f, row, m.cols), Before(f, row + 1, 0));
    }
    HoldsAlike(grid.values[..], m.rows, m.cols, Before(f, m.rows, 0), f);
    r := Ok(Matrix(m.rows, m.cols, grid.values[..]));
  }

  // ----- diagonals -----

  function Abs(k: int): nat {
    if k >= 0 then k else -k
  }

  /** The vector on diagonal `k`, as far as its element `i`. */
  function DiagonalCells(v: seq<real>, k: int, i: nat): Cells {
    (r, c) => var at := if k >= 0 then r else c; if c - r == k && 0 <= at < i && at < |v| then v[at] else 0.0
  }

  method DiagConstruct(v: seq<real>, k: int) returns (m: Matrix)
    ensures IsMatrix(m, |v| + Abs(k), |v| + Abs(k), DiagonalCells(v, k, |v|))
  {
    var side := |v| + Abs(k);
    var grid := new Grid(side, side);
    HoldsAlike(grid.values[..], side, side, Zero(), DiagonalCells(v, k, 0));
    for i := 0 to |v|
      invariant Holds(grid.values[..], side, side, DiagonalCells(v, k, i))
    {
      var row, col := i, i;
      if k >= 0 {
        col := i + k;
      } else {
        row := i + Abs(k);
      }
      grid.Write(row, col, v[i], DiagonalCells(v, k, i));
      HoldsAlike(grid.values[..], side, side, Put(DiagonalCells(v, k, i), row, col, v[i]), DiagonalCells(v, k, i + 1));
    }
    m := Matrix(side, side, grid.values[..]);
  }

  function StartRow(k: int): nat {
    if k >= 0 then 0 else -k
  }

  function StartCol(k: int): nat {
    if k >= 0 then k else 0
  }

  function Shorter(x: int, y: int): nat {
    if x <= 0 || y <= 0 then 0 else if x <= y then x else y
  }

  /** How many cells of the matrix lie on diagonal `k`. */
  function DiagonalLength(m: Matrix, k: int): nat {
    Shorter(m.rows - StartRow(k), m.cols - StartCol(k))
  }

  /** Diagonal `k` of the matrix. */
  function Diagonal(m: Matrix, k: int): (d: seq<real>)
    requires Valid(m)
    ensures |d| == DiagonalLength(m, k)
  {
    seq(DiagonalLength(m, k), i requires 0 <= i < DiagonalLength(m, k) => Elem(m, StartRow(k) + i, StartCol(k) + i))
  }

  method DiagExtract(m: Matrix, k: int) returns (out: seq<real>)
    requires Valid(m)
    ensures out == Diagonal(m, k)
  {
    out := [];
    var row, col := StartRow(k), StartCol(k);
    while row < m.rows && col < m.cols
      invariant row == StartRow(k) + |out| && col == StartCol(k) + |out| && |out| <= DiagonalLength(m, k)
      invariant forall i :: 0 <= i < |out| ==> out[i] == Diagonal(m, k)[i]
      decreases m.rows - row
    {
      out := out + [Elem(m, row, col)];
      row, col := row + 1, col + 1;
    }
  }

  method Diag(t: Tensor, k: int) returns (r: Result<Tensor, LinalgError>)
    requires t.Plane? ==> Valid(t.m)
    ensures match t
            case Vector(v) =>
              r.Ok? && r.value.Plane? && IsMatrix(r.value.m, |v| + Abs(k), |v| + Abs(k), DiagonalCells(v, k, |v|))
            case Plane(m) => r == Ok(Vector(Diagonal(m, k)))
            case Other(_) => r == Err(LinalgShapeError)
  {
    match t
    case Vector(v) =>
      var m := DiagConstruct(v, k);
      r := Ok(Plane(m));
    case Plane(m) =>
      var d := DiagExtract(m, k);
      r := Ok(Vector(d));
    case Other(_) =>
      r := Err(LinalgShapeError);
  }

  // ----- laws -----

  /** Extracting the diagonal a vector was placed on gives the vector. */
  lemma {:induction false} ExtractConstructed(v: seq<real>, k: int, m: Matrix)
    requires IsMatrix(m, |v| + Abs(k), |v| + Abs(k), DiagonalCells(v, k, |v|))
    ensures Valid(m) && Diagonal(m, k) == v
  {
    var d := Diagonal(m, k);
    forall i | 0 <= i < |v| ensures d[i] == v[i] {
      ElemOf(m, m.rows, m.cols, DiagonalCells(v, k, |v|), StartRow(k) + i, StartCol(k) + i);
    }
  }

  /** Any other diagonal of that matrix is zero. */
  lemma {:induction false} OtherDiagonalsAreZero(v: seq<real>, k: int, m: Matrix, j: int)
    requires IsMatrix(m, |v| + Abs(k), |v| + Abs(k), DiagonalCells(v, k, |v|)) && j != k
    ensures Valid(m) && forall i :: 0 <= i < DiagonalLength(m, j) ==> Diagonal(m, j)[i] == 0.0
  {
    forall i | 0 <= i < DiagonalLength(m, j) ensures Diagonal(m, j)[i] == 0.0 {
      ElemOf(m, m.rows, m.cols, DiagonalCells(v, k, |v|), StartRow(j) + i, StartCol(j) + i);
    }
  }

  /** `tril(m, k)` and `triu(m, k + 1)` divide the entries of `m` between them. */
  lemma {:induction false} TrianglesPartition(m: Matrix, k: int, lower: Matrix, upper: Matrix, row: nat, col: nat)
    requires Valid(m) && row < m.rows && col < m.cols
    requires IsMatrix(lower, m.rows, m.cols, LowerCells(m, k)) && IsMatrix(upper, m.rows, m.cols, UpperCells(m, k + 1))
    ensures Valid(lower) && Valid(upper)
    ensures if col <= row + k then Elem(lower, row, col) == Elem(m, row, col) && Elem(upper, row, col) == 0.0
            else Elem(lower, row, col) == 0.0 && Elem(upper, row, col) == Elem(m, row, col)
  {
    ElemOf(lower, m.rows, m.cols, LowerCells(m, k), row, col);
    ElemOf(upper, m.rows, m.cols, UpperCells(m, k + 1), row, col);
  }

  /** Below and above diagonal `k` share exactly that diagonal. */
  lemma {:induction false} TrianglesMeet(m: Matrix, k: int, lower: Matrix, both: Matrix, row: nat, col: nat)
    requires Valid(m) && row < m.rows && col < m.cols
    requires IsMatrix(lower, m.rows, m.cols, LowerCells(m, k)) && Valid(lower)
    requires IsMatrix(both, m.rows, m.cols, UpperCells(lower, k))
    ensures Valid(both) && Elem(both, row, col) == if col - row == k then Elem(m, row, col) else 0.0
  {
    ElemOf(lower, m.rows, m.cols, LowerCells(m, k), row, col);
    ElemOf(both, m.rows, m.cols, UpperCells(lower, k), row, col);
  }

  /** `tril` is the product with `tri`, and `eye` the difference of neighbouring `tri`s. */
  lemma {:induction false} IndicatorsAgree(m: Matrix, k: int, lower: Matrix, tri: Matrix, below: Matrix, eye: Matrix,
      row: nat, col: nat)
    requires Valid(m) && row < m.rows && col < m.cols
    requires IsMatrix(lower, m.rows, m.cols, LowerCells(m, k)) && IsMatrix(tri, m.rows, m.cols, TriCells(k))
    requires IsMatrix(below, m.rows, m.cols, TriCells(k - 1)) && IsMatrix(eye, m.rows, m.cols, EyeCells(k))
    ensures Valid(lower) && Valid(tri) && Valid(below) && Valid(eye)
    ensures Elem(lower, row, col) == Elem(m, row, col) * Elem(tri, row, col)
    ensures Elem(eye, row, col) == Elem(tri, row, col) - Elem(below, row, col)
  {
    ElemOf(lower, m.rows, m.cols, LowerCells(m, k), row, col);
    ElemOf(tri, m.rows, m.cols, TriCells(k), row, col);
    ElemOf(below, m.rows, m.cols, TriCells(k - 1), row, col);
    ElemOf(eye, m.rows, m.cols, EyeCells(k), row, col);
  }

  /** A matrix is determined by its cells. */
  lemma {:induction false} CellsDetermine(m: Matrix, m': Matrix, rows: nat, cols: nat, f: Cells)
    requires IsMatrix(m, rows, cols, f) && IsMatrix(m', rows, cols, f)
    ensures m == m'
  {
    forall i | 0 <= i < rows * cols ensures m.data[i] == m'.data[i] {
      CellOf(i, rows, cols);
      assert m.data[Cell(i / cols, i % cols, cols)] == f(i / cols, i % cols);
    }
  }

  lemma CellOf(i: nat, rows: nat, cols: nat)
    requires i < rows * cols
    ensures cols > 0 && i / cols < rows && i % cols < cols && Cell(i / cols, i % cols, cols) == i
  {
  }

  // ----- offsets and cells in plain numbers -----

  /** Row after row: the cell in row `r` and column `c` is at `r * cols + c`. */
  lemma {:induction false} RowsInOrder(m: Matrix, rows: nat, cols: nat, f: Cells, r: nat, c: nat)
    requires IsMatrix(m, rows, cols, f) && r < rows && c < cols
    ensures |m.data| == rows * cols && r * cols + c < rows * cols && m.data[r * cols + c] == f(r, c)
  {
    CellInRange(r, c, rows, cols);
    assert Cell(r, c, cols) == r * cols + c;
  }

  /** What each matrix holds in row `r` and column `c`. */
  lemma {:induction false} CellsAre(m: Matrix, v: seq<real>, k: int, r: nat, c: nat)
    requires Valid(m) && r < m.rows && c < m.cols
    ensures r * m.cols + c < |m.data|
    ensures EyeCells(k)(r, c) == (if c - r == k then 1.0 else 0.0)
    ensures TriCells(k)(r, c) == (if c - r <= k then 1.0 else 0.0)
    ensures LowerCells(m, k)(r, c) == (if c - r <= k then m.data[r * m.cols + c] else 0.0)
    ensures UpperCells(m, k)(r, c) == (if c - r >= k then m.data[r * m.cols + c] else 0.0)
    ensures DiagonalCells(v, k, |v|)(r, c) ==
            if c - r != k then 0.0
            else if r <= c then (if r < |v| then v[r] else 0.0) else if c < |v| then v[c] else 0.0
  {
    CellInRange(r, c, m.rows, m.cols);
    assert Cell(r, c, m.cols) == r * m.cols + c;
  }

  /** Every cell of diagonal `k`, and no other, is extracted, from the top left on. */
  lemma {:induction false} DiagonalIs(m: Matrix, k: int, r: nat, c: nat)
    requires Valid(m) && c - r == k
    ensures var i := if r <= c then r else c;
            && (i < |Diagonal(m, k)| <==> r < m.rows && c < m.cols)
            && (i < |Diagonal(m, k)| ==> r * m.cols + c < |m.data| && Diagonal(m, k)[i] == m.data[r * m.cols + c])
  {
    var i := if r <= c then r else c;
    assert StartRow(k) + i == r && StartCol(k) + i == c;
    if r < m.rows && c < m.cols {
      CellInRange(r, c, m.rows, m.cols);
      assert Cell(r, c, m.cols) == r * m.cols + c;
      assert Diagonal(m, k)[i] == Elem(m, r, c);
    }
  }
}
