/**
 * The grid overlay: white lines painted in place into the image buffer,
 * either along the cell edges (square grid) or along the cell edges plus the
 * staircase diagonal of every cell (triangle grid).
 */
module GridOverlay {
  import opened Geometry
  import opened MosaicCalculations

  /** The three families of lines the overlay loops draw. */
  datatype LineKind = Verticals | Horizontals | Diagonals

  /** Pixel (x, y) lies on a line of the given family for cells of side `grid`. */
  predicate OnLine(kind: LineKind, x: int, y: int, grid: nat)
    requires grid >= 1
  {
    match kind
    case Verticals => y >= grid && y % grid == 0
    case Horizontals => x >= grid && x % grid == 0
    case Diagonals => y % grid == x % grid
  }

  /** Pixel (x, y) lies on a line of one of the families in `kinds`. */
  predicate Whitened(kinds: set<LineKind>, x: int, y: int, grid: nat)
    requires grid >= 1
  {
    || (Verticals in kinds && OnLine(Verticals, x, y, grid))
    || (Horizontals in kinds && OnLine(Horizontals, x, y, grid))
    || (Diagonals in kinds && OnLine(Diagonals, x, y, grid))
  }

  const SquareLines := {Verticals, Horizontals}
  const TriangleLines := {Verticals, Horizontals, Diagonals}

  /**
   * t is s with the lines of `kinds` painted white: every line pixel is
   * white, every other pixel keeps its colour, and no alpha byte nor any byte
   * past the image changes.
   */
  ghost predicate IsOverlay(t: seq<byte>, s: seq<byte>, width: nat, height: nat, grid: nat, kinds: set<LineKind>)
    requires grid >= 1
  {
    && KeepsAlphaAndTail(t, s, width, height)
    && forall x, y {:trigger PixelAt(t, x, y, width, height)} :: InImage(x, y, width, height) ==>
         PixelAt(t, x, y, width, height) == if Whitened(kinds, x, y, grid) then White else PixelAt(s, x, y, width, height)
  }

  /** The state of a line-drawing loop at position (i, j): the line pixels visited so far are white. */
  ghost predicate OverlaidBefore(t: seq<byte>, s: seq<byte>, width: nat, height: nat, grid: nat, kind: LineKind, i: int, j: int)
    requires grid >= 1
  {
    && KeepsAlphaAndTail(t, s, width, height)
    && forall x, y {:trigger PixelAt(t, x, y, width, height)} :: InImage(x, y, width, height) ==>
         PixelAt(t, x, y, width, height) ==
           if Before(x, y, i, j) && OnLine(kind, x, y, grid) then White else PixelAt(s, x, y, width, height)
  }

  // ---------------------------------------------------------------------------
  // Arithmetic of the loop steps

  /** No column strictly between j and j + grid has j's residue. */
  lemma BetweenResidues(j: nat, y: nat, grid: nat)
    requires grid >= 1 && j < y < j + grid
    ensures y % grid != j % grid
  {
    var q := j / grid;
    ModOf(j, q, grid);
    var r := j - q * grid;
    if y < q * grid + grid {
      ModOf(y, q, grid);
    } else {
      ModOf(y, q + 1, grid);
    }
  }

  /** A left-to-right scan of row i may jump from j to j2 when no line pixel lies strictly between. */
  lemma SkipColumns(t: seq<byte>, s: seq<byte>, width: nat, height: nat, grid: nat, kind: LineKind, i: int, j: int, j2: int)
    requires grid >= 1 && j <= j2
    requires OverlaidBefore(t, s, width, height, grid, kind, i, j)
    requires forall y :: j <= y < j2 ==> !OnLine(kind, i, y, grid)
    ensures OverlaidBefore(t, s, width, height, grid, kind, i, j2)
  {
  }

  /** A scan may jump from the end of row i to the start of row i2 when no line pixel lies in the rows between. */
  lemma SkipRows(t: seq<byte>, s: seq<byte>, width: nat, height: nat, grid: nat, kind: LineKind, i: int, j: int, i2: int)
    requires grid >= 1 && i < i2 && j >= width
    requires OverlaidBefore(t, s, width, height, grid, kind, i, j)
    requires forall x, y :: i < x < i2 ==> !OnLine(kind, x, y, grid)
    ensures OverlaidBefore(t, s, width, height, grid, kind, i2, 0)
  {
  }

  /** Painting the line pixel at the scan position (i, j) white advances the scan by one pixel. */
  lemma PaintStep(t: seq<byte>, u: seq<byte>, s: seq<byte>, width: nat, height: nat, grid: nat, kind: LineKind, i: int, j: int)
    requires grid >= 1 && InImage(i, j, width, height) && OnLine(kind, i, j, grid)
    requires OverlaidBefore(u, s, width, height, grid, kind, i, j)
    requires KeepsAlphaAndTail(t, s, width, height) && |u| == |t|
    requires PixelAt(t, i, j, width, height) == White
    requires forall x, y :: InImage(x, y, width, height) && (x, y) != (i, j) ==> PixelAt(t, x, y, width, height) == PixelAt(u, x, y, width, height)
    ensures OverlaidBefore(t, s, width, height, grid, kind, i, j + 1)
  {
  }

  /** Painting the line pixel (i, j) of a vertical or diagonal family lets the scan of row i jump to j + grid. */
  lemma StrideStep(t: seq<byte>, u: seq<byte>, s: seq<byte>, width: nat, height: nat, grid: nat, kind: LineKind, i: int, j: nat)
    requires grid >= 1 && kind != Horizontals && InImage(i, j, width, height) && OnLine(kind, i, j, grid)
    requires OverlaidBefore(u, s, width, height, grid, kind, i, j)
    requires KeepsAlphaAndTail(t, s, width, height) && |u| == |t|
    requires PixelAt(t, i, j, width, height) == White
    requires forall x, y :: InImage(x, y, width, height) && (x, y) != (i, j) ==> PixelAt(t, x, y, width, height) == PixelAt(u, x, y, width, height)
    ensures OverlaidBefore(t, s, width, height, grid, kind, i, j + grid)
    ensures (j + grid) % grid == j % grid
  {
    PaintStep(t, u, s, width, height, grid, kind, i, j);
    forall y | j + 1 <= y < j + grid
      ensures !OnLine(kind, i, y, grid)
    {
      BetweenResidues(j, y, grid);
    }
    SkipColumns(t, s, width, height, grid, kind, i, j + 1, j + grid);
    NextStep(j, grid);
  }

  /** A finished scan is the overlay of its one family of lines. */
  lemma ScanDone(t: seq<byte>, s: seq<byte>, width: nat, height: nat, grid: nat, kind: LineKind, i: int)
    requires grid >= 1 && i >= height
    requires OverlaidBefore(t, s, width, height, grid, kind, i, 0)
    ensures IsOverlay(t, s, width, height, grid, {kind})
  {
  }

  // ---------------------------------------------------------------------------
  // Properties of overlays

  /** Drawing the lines of K1 and then those of K2 draws the lines of K1 + K2. */
  lemma OverlayCompose(t: seq<byte>, u: seq<byte>, s: seq<byte>, width: nat, height: nat, grid: nat, k1: set<LineKind>, k2: set<LineKind>)
    requires grid >= 1
    requires IsOverlay(u, s, width, height, grid, k1) && IsOverlay(t, u, width, height, grid, k2)
    ensures IsOverlay(t, s, width, height, grid, k1 + k2)
  {
    KeepsTransitive(t, u, s, width, height);
  }

  /** Painting the same lines a second time changes nothing. */
  lemma OverlayIdempotent(s: seq<byte>, t: seq<byte>, u: seq<byte>, width: nat, height: nat, grid: nat, kinds: set<LineKind>)
    requires grid >= 1
    requires IsOverlay(t, s, width, height, grid, kinds) && IsOverlay(u, t, width, height, grid, kinds)
    ensures u == t
  {
    forall x, y | InImage(x, y, width, height)
      ensures PixelAt(u, x, y, width, height) == PixelAt(t, x, y, width, height)
    {
    }
    SameImage(u, t, width, height);
  }

  /**
   * The square lines are the cell edges: a pixel is on one exactly when it is
   * in the top row or left column of its grid cell and that cell is not in
   * the image's first cell row or column.
   */
  lemma SquareLinesAreCellEdges(x: nat, y: nat, width: nat, grid: nat)
    requires grid >= 1 && y < width
    ensures Whitened(SquareLines, x, y, grid) <==>
      || (y == AnchorCol(CellOf(x, y, width, grid), width, grid) && y >= grid)
      || (x == AnchorRow(CellOf(x, y, width, grid), width, grid) && x >= grid)
  {
    CellAnchor(x, y, width, grid);
    DivRange(x, x / grid, grid);
    DivRange(y, y / grid, grid);
  }

  /**
   * The diagonals run through the top-left corner of every cell: a pixel is on
   * one exactly when it is as far right of its cell's anchor as it is below it.
   */
  lemma DiagonalsAreCellDiagonals(x: nat, y: nat, width: nat, grid: nat)
    requires grid >= 1 && y < width
    ensures OnLine(Diagonals, x, y, grid) <==>
      y - AnchorCol(CellOf(x, y, width, grid), width, grid) == x - AnchorRow(CellOf(x, y, width, grid), width, grid)
  {
    CellAnchor(x, y, width, grid);
    DivRange(x, x / grid, grid);
    DivRange(y, y / grid, grid);
  }

  /** The anchor of the cell holding (x, y) is (x rounded down to the grid, y rounded down to the grid). */
  lemma CellAnchor(x: nat, y: nat, width: nat, grid: nat)
    requires grid >= 1 && y < width
    ensures AnchorRow(CellOf(x, y, width, grid), width, grid) == (x / grid) * grid
    ensures AnchorCol(CellOf(x, y, width, grid), width, grid) == (y / grid) * grid
  {
    var c := y / grid;
    DivRange(y, c, grid);
    ColsBound(c, width, grid);
    AnchorOf(x / grid, c, width, grid);
  }

  /** Column 0 and row 0 of the image never carry a square line. */
  lemma FirstRowAndColumnClear(x: nat, y: nat, grid: nat)
    requires grid >= 1 && (x == 0 || y == 0)
    ensures Whitened(SquareLines, x, y, grid) <==> (x == 0 && y >= grid && y % grid == 0) || (y == 0 && x >= grid && x % grid == 0)
  {
  }

  // ---------------------------------------------------------------------------
  // The GridLines class

  class GridLines {
    /** The buffer the lines are drawn into; it is the caller's buffer, not a copy. */
    const ImagePixels: array<byte>

    constructor(sourcePixels: array<byte>)
      ensures ImagePixels == sourcePixels
    {
      ImagePixels := sourcePixels;
    }

    /** The vertical lines (columns grid, 2 grid, ...), then the horizontal ones (rows grid, 2 grid, ...). */
    method CreateSquareGridLines(imageWidth: nat, imageHeight: nat, grid: nat)
      requires grid >= 1 && ImagePixels.Length >= imageWidth * imageHeight * 4
      modifies ImagePixels
      ensures IsOverlay(ImagePixels[..], old(ImagePixels[..]), imageWidth, imageHeight, grid, SquareLines)
    {
      ghost var orig := ImagePixels[..];
      DrawVerticals(imageWidth, imageHeight, grid);
      ghost var mid := ImagePixels[..];
      DrawHorizontals(imageWidth, imageHeight, grid);
      OverlayCompose(ImagePixels[..], mid, orig, imageWidth, imageHeight, grid, {Verticals}, {Horizontals});
      assert {Verticals} + {Horizontals} == SquareLines;
    }

    /** The staircase diagonals, then the same two loops as the square grid. */
    method CreateTriangleGridLines(imageWidth: nat, imageHeight: nat, grid: nat)
      requires grid >= 1 && ImagePixels.Length >= imageWidth * imageHeight * 4
      modifies ImagePixels
      ensures IsOverlay(ImagePixels[..], old(ImagePixels[..]), imageWidth, imageHeight, grid, TriangleLines)
    {
      ghost var orig := ImagePixels[..];
      DrawDiagonals(imageWidth, imageHeight, grid);
      ghost var mid1 := ImagePixels[..];
      DrawVerticals(imageWidth, imageHeight, grid);
      ghost var mid2 := ImagePixels[..];
      OverlayCompose(mid2, mid1, orig, imageWidth, imageHeight, grid, {Diagonals}, {Verticals});
      DrawHorizontals(imageWidth, imageHeight, grid);
      OverlayCompose(ImagePixels[..], mid2, orig, imageWidth, imageHeight, grid, {Diagonals} + {Verticals}, {Horizontals});
      assert {Diagonals} + {Verticals} + {Horizontals} == TriangleLines;
    }

    /** First loop of both methods: rows 0 .. height-1, columns grid, 2 grid, ... */
    method DrawVerticals(imageWidth: nat, imageHeight: nat, grid: nat)
      requires grid >= 1 && ImagePixels.Length >= imageWidth * imageHeight * 4
      modifies ImagePixels
      ensures IsOverlay(ImagePixels[..], old(ImagePixels[..]), imageWidth, imageHeight, grid, {Verticals})
    {
      ghost var orig := ImagePixels[..];
      var i := 0;
      while i < imageHeight
        invariant 0 <= i <= imageHeight
        invariant OverlaidBefore(ImagePixels[..], orig, imageWidth, imageHeight, grid, Verticals, i, 0)
      {
        SkipColumns(ImagePixels[..], orig, imageWidth, imageHeight, grid, Verticals, i, 0, grid);
        var j := grid;
        while j < imageWidth
          invariant grid <= j && j % grid == 0
          invariant OverlaidBefore(ImagePixels[..], orig, imageWidth, imageHeight, grid, Verticals, i, j)
        {
          ghost var before := ImagePixels[..];
          PaintPixel(ImagePixels, i, j, White, imageWidth, imageHeight, orig);
          StrideStep(ImagePixels[..], before, orig, imageWidth, imageHeight, grid, Verticals, i, j);
          j := j + grid;
        }
        SkipRows(ImagePixels[..], orig, imageWidth, imageHeight, grid, Verticals, i, j, i + 1);
        i := i + 1;
      }
      ScanDone(ImagePixels[..], orig, imageWidth, imageHeight, grid, Verticals, i);
    }

    /** Second loop of both methods: rows grid, 2 grid, ..., every column. */
    method DrawHorizontals(imageWidth: nat, imageHeight: nat, grid: nat)
      requires grid >= 1 && ImagePixels.Length >= imageWidth * imageHeight * 4
      modifies ImagePixels
      ensures IsOverlay(ImagePixels[..], old(ImagePixels[..]), imageWidth, imageHeight, grid, {Horizontals})
    {
      ghost var orig := ImagePixels[..];
      var i := grid;
      while i < imageHeight
        invariant grid <= i && i % grid == 0
        invariant OverlaidBefore(ImagePixels[..], orig, imageWidth, imageHeight, grid, Horizontals, i, 0)
      {
        var j := 0;
        while j < imageWidth
          invariant 0 <= j <= imageWidth
          invariant OverlaidBefore(ImagePixels[..], orig, imageWidth, imageHeight, grid, Horizontals, i, j)
        {
          ghost var before := ImagePixels[..];
          PaintPixel(ImagePixels, i, j, White, imageWidth, imageHeight, orig);
          PaintStep(ImagePixels[..], before, orig, imageWidth, imageHeight, grid, Horizontals, i, j);
          j := j + 1;
        }
        forall x, y | i < x < i + grid
          ensures !OnLine(Horizontals, x, y, grid)
        {
          BetweenResidues(i, x, grid);
        }
        SkipRows(ImagePixels[..], orig, imageWidth, imageHeight, grid, Horizontals, i, j, i + grid);
        NextStep(i, grid);
        i := i + grid;
      }
      ScanDone(ImagePixels[..], orig, imageWidth, imageHeight, grid, Horizontals, i);
    }

    /**
     * The diagonal loop of CreateTriangleGridLines: row i starts at column
     * wCount and steps by grid; wCount counts up modulo grid from row to row.
     */
    method DrawDiagonals(imageWidth: nat, imageHeight: nat, grid: nat)
      requires grid >= 1 && ImagePixels.Length >= imageWidth * imageHeight * 4
      modifies ImagePixels
      ensures IsOverlay(ImagePixels[..], old(ImagePixels[..]), imageWidth, imageHeight, grid, {Diagonals})
    {
      ghost var orig := ImagePixels[..];
      var wCount := 0;
      var i := 0;
      while i < imageHeight
        invariant 0 <= i <= imageHeight
        invariant 0 <= wCount < grid && wCount == i % grid
        invariant OverlaidBefore(ImagePixels[..], orig, imageWidth, imageHeight, grid, Diagonals, i, 0)
      {
        forall y | 0 <= y < wCount
          ensures !OnLine(Diagonals, i, y, grid)
        {
          ModOf(y, 0, grid);
        }
        SkipColumns(ImagePixels[..], orig, imageWidth, imageHeight, grid, Diagonals, i, 0, wCount);
        ModOf(wCount, 0, grid);
        var j := wCount;
        while j < imageWidth
          invariant wCount <= j && j % grid == wCount
          invariant OverlaidBefore(ImagePixels[..], orig, imageWidth, imageHeight, grid, Diagonals, i, j)
        {
          ghost var before := ImagePixels[..];
          PaintPixel(ImagePixels, i, j, White, imageWidth, imageHeight, orig);
          StrideStep(ImagePixels[..], before, orig, imageWidth, imageHeight, grid, Diagonals, i, j);
          j := j + grid;
        }
        NextResidue(i, grid);
        if grid - wCount == 1 {
          wCount := 0;
        } else {
          wCount := wCount + 1;
        }
        SkipRows(ImagePixels[..], orig, imageWidth, imageHeight, grid, Diagonals, i, j, i + 1);
        i := i + 1;
      }
      ScanDone(ImagePixels[..], orig, imageWidth, imageHeight, grid, Diagonals, i);
    }
  }

  /** Stepping by grid keeps the residue. */
  lemma NextStep(j: nat, grid: nat)
    requires grid >= 1
    ensures (j + grid) % grid == j % grid
  {
    DivRange(j, j / grid, grid);
    DivRange(j + grid, j / grid + 1, grid);
  }
}
