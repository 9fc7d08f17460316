/**
 * Raster geometry shared by every engine: the byte offset of a pixel in a
 * row-major BGRA buffer, and the row-major walk over grid cells.
 *
 * Every engine walks cells with two nested loops `i := 0, grid, 2*grid, ...`
 * (rows) and `j := 0, grid, 2*grid, ...` (columns); the last cell of a row or
 * column is clipped at the image edge. Cells are numbered in visiting order:
 * cell r*Cols + c has its anchor (top-left pixel) at (r*grid, c*grid).
 */
module Geometry {

  /** Byte offset of pixel (x, y) (row x, column y) in a buffer `width` pixels wide. */
  function Offset(x: int, y: int, width: nat): int {
    (x * width + y) * 4
  }

  predicate InImage(x: int, y: int, width: nat, height: nat) {
    0 <= x < height && 0 <= y < width
  }

  /** Pixel (x, y) lies in the unclipped cell anchored at (i, j); callers add InImage. */
  predicate InCell(x: int, y: int, i: int, j: int, grid: nat) {
    i <= x < i + grid && j <= y < j + grid
  }

  /** Row-major order: pixel (x, y) is visited before position (i, j). */
  predicate Before(x: int, y: int, i: int, j: int) {
    x < i || (x == i && y < j)
  }

  /** Number of cell columns visited by `for (j = 0; j < width; j += grid)`. */
  function Cols(width: nat, grid: nat): nat
    requires grid >= 1
  {
    (width + grid - 1) / grid
  }

  function Rows(height: nat, grid: nat): nat
    requires grid >= 1
  {
    (height + grid - 1) / grid
  }

  function CellCount(width: nat, height: nat, grid: nat): nat
    requires grid >= 1
  {
    Rows(height, grid) * Cols(width, grid)
  }

  /** Visiting number of the cell holding pixel (x, y). */
  function CellOf(x: nat, y: nat, width: nat, grid: nat): nat
    requires grid >= 1
  {
    MulMono(0, x / grid, Cols(width, grid));
    (x / grid) * Cols(width, grid) + y / grid
  }

  function AnchorRow(k: nat, width: nat, grid: nat): nat
    requires grid >= 1 && width >= 1
  {
    (k / Cols(width, grid)) * grid
  }

  function AnchorCol(k: nat, width: nat, grid: nat): nat
    requires grid >= 1 && width >= 1
  {
    (k % Cols(width, grid)) * grid
  }

  /** End (exclusive) of a cell side that starts at `start`, clipped at `limit`. */
  function CellEnd(start: int, grid: nat, limit: nat): int {
    if start + grid < limit then start + grid else limit
  }

  /** Number of pixels of the clipped cell anchored at image pixel (i, j). */
  function CellPixels(i: nat, j: nat, width: nat, height: nat, grid: nat): (n: nat)
    requires InImage(i, j, width, height) && grid >= 1
    ensures n >= 1
  {
    var rows, cols := CellEnd(i, grid, height) - i, CellEnd(j, grid, width) - j;
    MulMono(1, rows, cols);
    rows * cols
  }

  /** Integer division of naturals (C# truncation and Dafny's Euclidean division agree here). */
  function Quot(a: nat, n: nat): nat
    requires n >= 1
  {
    a / n
  }

  // ---------------------------------------------------------------------------
  // Arithmetic facts

  lemma MulMono(a: int, b: int, g: nat)
    requires a <= b
    ensures a * g <= b * g
  {
  }

  lemma MulSucc(m: int, a: int)
    ensures (m + 1) * a == m * a + a
  {
  }

  lemma OffsetInBuffer(x: int, y: int, width: nat, height: nat)
    requires InImage(x, y, width, height)
    ensures 0 <= Offset(x, y, width) && Offset(x, y, width) + 4 <= width * height * 4
  {
    MulMono(x + 1, height, width);
  }

  /** Two different pixels of a row-major buffer own disjoint groups of four bytes. */
  lemma OffsetsDisjoint(x: int, y: int, x': int, y': int, width: nat)
    requires 0 <= y < width && 0 <= y' < width
    requires (x, y) != (x', y')
    ensures Offset(x, y, width) + 4 <= Offset(x', y', width) || Offset(x', y', width) + 4 <= Offset(x, y, width)
  {
    if x < x' {
      MulMono(x + 1, x', width);
    } else if x' < x {
      MulMono(x' + 1, x, width);
    }
  }

  /** Every byte below width*height*4 belongs to exactly one pixel's group of four. */
  lemma ByteOwner(k: int, width: nat, height: nat) returns (x: nat, y: nat)
    requires 0 <= k < width * height * 4
    ensures InImage(x, y, width, height)
    ensures Offset(x, y, width) <= k < Offset(x, y, width) + 4
  {
    var p := k / 4;
    assert width > 0;
    x, y := p / width, p % width;
    assert p == x * width + y;
    if x >= height {
      MulMono(height, x, width);
      assert false;
    }
  }

  lemma DivRange(x: int, r: int, g: nat)
    requires g >= 1 && x >= 0
    ensures r * g <= x < r * g + g <==> x / g == r
  {
    var q := x / g;
    assert q * g <= x < q * g + g;
    if q < r {
      MulMono(q + 1, r, g);
    } else if r < q {
      MulMono(r + 1, q, g);
    }
  }

  /** The residue of y when it lies in the q-th block of grid columns. */
  lemma ModOf(y: nat, q: nat, grid: nat)
    requires grid >= 1 && q * grid <= y < q * grid + grid
    ensures y / grid == q && y % grid == y - q * grid
  {
    DivRange(y, q, grid);
  }

  /** Stepping a residue: i + 1 wraps to 0 exactly when i is the last of its block of grid. */
  lemma NextResidue(i: nat, grid: nat)
    requires grid >= 1
    ensures (i + 1) % grid == if grid - i % grid == 1 then 0 else i % grid + 1
  {
    var q := i / grid;
    DivRange(i, q, grid);
    if grid - i % grid == 1 {
      DivRange(i + 1, q + 1, grid);
    } else {
      DivRange(i + 1, q, grid);
    }
  }

  lemma ColsBound(c: nat, width: nat, grid: nat)
    requires grid >= 1
    ensures c < Cols(width, grid) <==> c * grid < width
  {
    var n := width + grid - 1;
    DivRange(n, n / grid, grid);
    if c < Cols(width, grid) {
      MulMono(c + 1, n / grid, grid);
    } else {
      MulMono(n / grid, c, grid);
    }
  }

  lemma RowsBound(r: nat, height: nat, grid: nat)
    requires grid >= 1
    ensures r < Rows(height, grid) <==> r * grid < height
  {
    ColsBound(r, height, grid);
  }

  lemma MixedRadix(a: nat, b: nat, r: nat, c: nat, n: nat)
    requires b < n && c < n
    ensures a * n + b == r * n + c <==> a == r && b == c
  {
    if a < r {
      MulMono(a + 1, r, n);
    } else if r < a {
      MulMono(r + 1, a, n);
    }
  }

  /** Cell r*Cols + c is exactly the set of image pixels inside the cell anchored at (r*grid, c*grid). */
  lemma CellOfInCell(x: nat, y: nat, r: nat, c: nat, width: nat, height: nat, grid: nat)
    requires grid >= 1 && InImage(x, y, width, height)
    requires c < Cols(width, grid)
    ensures InCell(x, y, r * grid, c * grid, grid) <==> CellOf(x, y, width, grid) == r * Cols(width, grid) + c
  {
    DivRange(x, r, grid);
    DivRange(y, c, grid);
    DivRange(y, y / grid, grid);
    ColsBound(y / grid, width, grid);
    MixedRadix(x / grid, y / grid, r, c, Cols(width, grid));
  }

  lemma CellOfBound(x: nat, y: nat, width: nat, height: nat, grid: nat)
    requires grid >= 1 && InImage(x, y, width, height)
    ensures CellOf(x, y, width, grid) < CellCount(width, height, grid)
  {
    var r, c := x / grid, y / grid;
    var rows, cols := Rows(height, grid), Cols(width, grid);
    assert c < cols by {
      DivRange(y, c, grid);
      ColsBound(c, width, grid);
    }
    assert r < rows by {
      DivRange(x, r, grid);
      RowsBound(r, height, grid);
    }
    MulMono(r + 1, rows, cols);
    MulSucc(r, cols);
    assert CellOf(x, y, width, grid) == r * cols + c;
  }

  /** The anchor of cell r*Cols + c is (r*grid, c*grid). */
  lemma AnchorOf(r: nat, c: nat, width: nat, grid: nat)
    requires grid >= 1 && c < Cols(width, grid)
    ensures width >= 1
    ensures AnchorRow(r * Cols(width, grid) + c, width, grid) == r * grid
    ensures AnchorCol(r * Cols(width, grid) + c, width, grid) == c * grid
  {
    var n := Cols(width, grid);
    var k := r * n + c;
    MixedRadix(k / n, k % n, r, c, n);
  }

  /** The anchor of every visited cell lies in the image. */
  lemma AnchorInImage(k: nat, width: nat, height: nat, grid: nat)
    requires grid >= 1 && k < CellCount(width, height, grid)
    ensures width >= 1
    ensures InImage(AnchorRow(k, width, grid), AnchorCol(k, width, grid), width, height)
  {
    var n := Cols(width, grid);
    assert n >= 1;
    ColsBound(0, width, grid);
    var r, c := k / n, k % n;
    if r >= Rows(height, grid) {
      MulMono(Rows(height, grid), r, n);
      assert false;
    }
    RowsBound(r, height, grid);
    ColsBound(c, width, grid);
  }
}
