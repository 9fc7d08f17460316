/**
 * The solid mosaics. The square mosaic fills every clipped grid cell with the
 * colour FindAverageGridColor returns for it (accumulators carried from cell to
 * cell). The triangle mosaic splits every cell along its diagonal and fills
 * each half with the truncated mean of that half's pixels.
 */
module SolidMosaics {
  import opened Geometry
  import opened MosaicCalculations

  // ---------------------------------------------------------------------------
  // Means of colour lists

  /** Channel-wise sum of a colour list, accumulated front to back. */
  function SumColors(colors: seq<Color>): Acc {
    if |colors| == 0 then Acc(0, 0, 0)
    else
      var a := SumColors(colors[..|colors| - 1]);
      var c := colors[|colors| - 1];
      Acc(a.red + c.r, a.green + c.g, a.blue + c.b)
  }

  /** Extending the summed prefix by one colour adds that colour's channels. */
  lemma SumStep(colors: seq<Color>, k: nat)
    requires k < |colors|
    ensures SumColors(colors[..k + 1]).red == SumColors(colors[..k]).red + colors[k].r
    ensures SumColors(colors[..k + 1]).green == SumColors(colors[..k]).green + colors[k].g
    ensures SumColors(colors[..k + 1]).blue == SumColors(colors[..k]).blue + colors[k].b
  {
    assert colors[..k + 1][..k] == colors[..k];
  }

  lemma {:induction false} SumColorsBound(colors: seq<Color>)
    ensures SumColors(colors).red <= 255 * |colors|
    ensures SumColors(colors).green <= 255 * |colors|
    ensures SumColors(colors).blue <= 255 * |colors|
  {
    if |colors| > 0 {
      SumColorsBound(colors[..|colors| - 1]);
    }
  }

  lemma {:induction false} SumUniform(colors: seq<Color>, c: Color)
    requires forall k :: 0 <= k < |colors| ==> colors[k] == c
    ensures SumColors(colors).red == |colors| * c.r
    ensures SumColors(colors).green == |colors| * c.g
    ensures SumColors(colors).blue == |colors| * c.b
  {
    if |colors| > 0 {
      SumUniform(colors[..|colors| - 1], c);
      MulSucc(|colors| - 1, c.r);
      MulSucc(|colors| - 1, c.g);
      MulSucc(|colors| - 1, c.b);
    }
  }

  lemma DivAtMost(a: nat, n: nat, m: nat)
    requires n >= 1 && a <= m * n
    ensures a / n <= m
  {
    DivRange(a, a / n, n);
    if a / n > m {
      MulMono(m + 1, a / n, n);
    }
  }

  /** Per-channel truncated mean of a non-empty colour list. */
  function MeanColor(colors: seq<Color>): Color
    requires |colors| > 0
  {
    var a := SumColors(colors);
    var n := |colors|;
    SumColorsBound(colors);
    DivAtMost(a.red, n, 255);
    DivAtMost(a.green, n, 255);
    DivAtMost(a.blue, n, 255);
    Color(Quot(a.red, n), Quot(a.green, n), Quot(a.blue, n))
  }

  /**
   * What calculateAverageTriangleColor returns when its accumulators enter
   * holding acc: the list's sum is added to them, each channel is divided by
   * the list's length, and the result goes through RgbToInt and the byte unpack.
   */
  function CarriedMean(acc: Acc, colors: seq<Color>): Color
    requires |colors| > 0
  {
    var a := SumColors(colors);
    var n := |colors|;
    FromPackedRgb(RgbToInt(Quot(acc.red + a.red, n), Quot(acc.green + a.green, n), Quot(acc.blue + a.blue, n)))
  }

  lemma CarriedMeanOf(acc: Acc, colors: seq<Color>, sumRed: nat, sumGreen: nat, sumBlue: nat)
    requires |colors| > 0
    requires sumRed == acc.red + SumColors(colors).red
    requires sumGreen == acc.green + SumColors(colors).green
    requires sumBlue == acc.blue + SumColors(colors).blue
    ensures CarriedMean(acc, colors) == FromPackedRgb(RgbToInt(Quot(sumRed, |colors|), Quot(sumGreen, |colors|), Quot(sumBlue, |colors|)))
  {
  }

  /** With zeroed accumulators, the packed and unpacked average is exactly the mean. */
  lemma CarriedMeanFromZero(colors: seq<Color>)
    requires |colors| > 0
    ensures CarriedMean(Acc(0, 0, 0), colors) == MeanColor(colors)
  {
    var m := MeanColor(colors);
    var a, n := SumColors(colors), |colors|;
    assert m == Color(a.red / n, a.green / n, a.blue / n);
    CarriedMeanOf(Acc(0, 0, 0), colors, a.red, a.green, a.blue);
    PackRoundTrip(m.r, m.g, m.b);
  }

  /** The mean of a list of one repeated colour is that colour. */
  lemma MeanOfUniform(colors: seq<Color>, c: Color)
    requires |colors| > 0
    requires forall k :: 0 <= k < |colors| ==> colors[k] == c
    ensures MeanColor(colors) == c
  {
    SumUniform(colors, c);
    MulDiv(|colors|, c.r);
    MulDiv(|colors|, c.g);
    MulDiv(|colors|, c.b);
  }

  // ---------------------------------------------------------------------------
  // Triangle halves

  /**
   * The split test of the triangle mosaic: with the cell's shift (hShift,
   * wShift), pixel (x, y) goes to the right (upper) half when it is at least as
   * far right as it is down.
   */
  predicate InRightHalf(x: int, y: int, hShift: int, wShift: int) {
    y - wShift >= x - hShift
  }

  /** The pixels of row x, columns j .. yEnd-1, that fall in the chosen half, left to right. */
  function HalfRow(s: seq<byte>, width: nat, height: nat, hShift: int, wShift: int, right: bool,
                   j: nat, x: nat, yEnd: nat): seq<Color>
    requires |s| >= width * height * 4 && x < height && j <= yEnd <= width
    decreases yEnd
  {
    if yEnd == j then []
    else
      HalfRow(s, width, height, hShift, wShift, right, j, x, yEnd - 1)
      + (if InRightHalf(x, yEnd - 1, hShift, wShift) == right then [PixelAt(s, x, yEnd - 1, width, height)] else [])
  }

  /** The pixels of rows i .. xEnd-1, columns j .. jEnd-1, that fall in the chosen half, in row-major order. */
  function HalfRows(s: seq<byte>, width: nat, height: nat, hShift: int, wShift: int, right: bool,
                    i: nat, j: nat, jEnd: nat, xEnd: nat): seq<Color>
    requires |s| >= width * height * 4 && i <= xEnd <= height && j <= jEnd <= width
    decreases xEnd
  {
    if xEnd == i then []
    else
      HalfRows(s, width, height, hShift, wShift, right, i, j, jEnd, xEnd - 1)
      + HalfRow(s, width, height, hShift, wShift, right, j, xEnd - 1, jEnd)
  }

  /** The list addPixelsToLeftAndRightTriangleLists builds for one half of the clipped cell anchored at (i, j). */
  function HalfColors(s: seq<byte>, width: nat, height: nat, grid: nat, i: nat, j: nat, right: bool): seq<Color>
    requires grid >= 1 && |s| >= width * height * 4 && i <= height && j <= width
  {
    HalfRows(s, width, height, i, j, right, i, j, CellEnd(j, grid, width), CellEnd(i, grid, height))
  }

  lemma {:induction false} HalfRowNonEmpty(s: seq<byte>, width: nat, height: nat, hShift: int, wShift: int, right: bool,
                                           j: nat, x: nat, yEnd: nat, y: nat)
    requires |s| >= width * height * 4 && x < height && j <= yEnd <= width
    requires j <= y < yEnd && InRightHalf(x, y, hShift, wShift) == right
    ensures |HalfRow(s, width, height, hShift, wShift, right, j, x, yEnd)| > 0
  {
    if y < yEnd - 1 {
      HalfRowNonEmpty(s, width, height, hShift, wShift, right, j, x, yEnd - 1, y);
    }
  }

  lemma {:induction false} HalfRowsNonEmpty(s: seq<byte>, width: nat, height: nat, hShift: int, wShift: int, right: bool,
                                            i: nat, j: nat, jEnd: nat, xEnd: nat, x: nat, y: nat)
    requires |s| >= width * height * 4 && i <= xEnd <= height && j <= jEnd <= width
    requires i <= x < xEnd && j <= y < jEnd && InRightHalf(x, y, hShift, wShift) == right
    ensures |HalfRows(s, width, height, hShift, wShift, right, i, j, jEnd, xEnd)| > 0
  {
    if x < xEnd - 1 {
      HalfRowsNonEmpty(s, width, height, hShift, wShift, right, i, j, jEnd, xEnd - 1, x, y);
    } else {
      HalfRowNonEmpty(s, width, height, hShift, wShift, right, j, x, jEnd, y);
    }
  }

  lemma {:induction false} HalfRowEmpty(s: seq<byte>, width: nat, height: nat, hShift: int, wShift: int, right: bool,
                                        j: nat, x: nat, yEnd: nat)
    requires |s| >= width * height * 4 && x < height && j <= yEnd <= width
    requires forall y :: j <= y < yEnd ==> InRightHalf(x, y, hShift, wShift) != right
    ensures HalfRow(s, width, height, hShift, wShift, right, j, x, yEnd) == []
  {
    if yEnd > j {
      HalfRowEmpty(s, width, height, hShift, wShift, right, j, x, yEnd - 1);
    }
  }

  /** The right half always holds the cell's anchor, so its list is never empty. */
  lemma RightHalfNonEmpty(s: seq<byte>, width: nat, height: nat, grid: nat, i: nat, j: nat)
    requires grid >= 1 && |s| >= width * height * 4 && InImage(i, j, width, height)
    ensures |HalfColors(s, width, height, grid, i, j, true)| > 0
  {
    HalfRowsNonEmpty(s, width, height, i, j, true, i, j, CellEnd(j, grid, width), CellEnd(i, grid, height), i, j);
  }

  /** The left half's list is empty exactly when the clipped cell is one row tall. */
  lemma LeftHalfEmptyIff(s: seq<byte>, width: nat, height: nat, grid: nat, i: nat, j: nat)
    requires grid >= 1 && |s| >= width * height * 4 && InImage(i, j, width, height)
    ensures HalfColors(s, width, height, grid, i, j, false) == [] <==> CellEnd(i, grid, height) - i == 1
  {
    var jEnd, xEnd := CellEnd(j, grid, width), CellEnd(i, grid, height);
    if xEnd - i == 1 {
      HalfRowEmpty(s, width, height, i, j, false, j, i, jEnd);
      assert HalfRows(s, width, height, i, j, false, i, j, jEnd, i) == [];
    } else {
      HalfRowsNonEmpty(s, width, height, i, j, false, i, j, jEnd, xEnd, i + 1, j);
    }
  }

  lemma {:induction false} HalfRowFrame(t: seq<byte>, s: seq<byte>, width: nat, height: nat, hShift: int, wShift: int, right: bool,
                                        j: nat, x: nat, yEnd: nat)
    requires |s| >= width * height * 4 && |t| >= width * height * 4 && x < height && j <= yEnd <= width
    requires forall y :: j <= y < yEnd ==> PixelAt(t, x, y, width, height) == PixelAt(s, x, y, width, height)
    ensures HalfRow(t, width, height, hShift, wShift, right, j, x, yEnd) == HalfRow(s, width, height, hShift, wShift, right, j, x, yEnd)
  {
    if yEnd > j {
      HalfRowFrame(t, s, width, height, hShift, wShift, right, j, x, yEnd - 1);
    }
  }

  /** The half lists depend only on the pixels of the rectangle they scan. */
  lemma {:induction false} HalfRowsFrame(t: seq<byte>, s: seq<byte>, width: nat, height: nat, hShift: int, wShift: int, right: bool,
                                         i: nat, j: nat, jEnd: nat, xEnd: nat)
    requires |s| >= width * height * 4 && |t| >= width * height * 4 && i <= xEnd <= height && j <= jEnd <= width
    requires forall x, y :: i <= x < xEnd && j <= y < jEnd ==> PixelAt(t, x, y, width, height) == PixelAt(s, x, y, width, height)
    ensures HalfRows(t, width, height, hShift, wShift, right, i, j, jEnd, xEnd) == HalfRows(s, width, height, hShift, wShift, right, i, j, jEnd, xEnd)
  {
    if xEnd > i {
      HalfRowsFrame(t, s, width, height, hShift, wShift, right, i, j, jEnd, xEnd - 1);
      HalfRowFrame(t, s, width, height, hShift, wShift, right, j, xEnd - 1, jEnd);
    }
  }

  lemma {:induction false} HalfRowUniform(s: seq<byte>, width: nat, height: nat, hShift: int, wShift: int, right: bool,
                                          j: nat, x: nat, yEnd: nat, c: Color)
    requires |s| >= width * height * 4 && x < height && j <= yEnd <= width
    requires forall y :: j <= y < yEnd ==> PixelAt(s, x, y, width, height) == c
    ensures forall k :: 0 <= k < |HalfRow(s, width, height, hShift, wShift, right, j, x, yEnd)| ==>
      HalfRow(s, width, height, hShift, wShift, right, j, x, yEnd)[k] == c
  {
    if yEnd > j {
      HalfRowUniform(s, width, height, hShift, wShift, right, j, x, yEnd - 1, c);
    }
  }

  /** In a rectangle of one colour, every listed pixel has that colour. */
  lemma {:induction false} HalfRowsUniform(s: seq<byte>, width: nat, height: nat, hShift: int, wShift: int, right: bool,
                                           i: nat, j: nat, jEnd: nat, xEnd: nat, c: Color)
    requires |s| >= width * height * 4 && i <= xEnd <= height && j <= jEnd <= width
    requires forall x, y :: i <= x < xEnd && j <= y < jEnd ==> PixelAt(s, x, y, width, height) == c
    ensures forall k :: 0 <= k < |HalfRows(s, width, height, hShift, wShift, right, i, j, jEnd, xEnd)| ==>
      HalfRows(s, width, height, hShift, wShift, right, i, j, jEnd, xEnd)[k] == c
  {
    if xEnd > i {
      HalfRowsUniform(s, width, height, hShift, wShift, right, i, j, jEnd, xEnd - 1, c);
      HalfRowUniform(s, width, height, hShift, wShift, right, j, xEnd - 1, jEnd, c);
    }
  }

  // ---------------------------------------------------------------------------
  // The finished images, pixel by pixel

  /** Pixel (x, y) lies in its own cell: the cell anchored at (x, y) rounded down to the grid. */
  lemma OwnCell(x: nat, y: nat, width: nat, height: nat, grid: nat)
    requires grid >= 1 && InImage(x, y, width, height)
    ensures InImage((x / grid) * grid, (y / grid) * grid, width, height)
    ensures (x / grid) * grid <= x < CellEnd((x / grid) * grid, grid, height)
    ensures (y / grid) * grid <= y < CellEnd((y / grid) * grid, grid, width)
  {
    DivRange(x, x / grid, grid);
    DivRange(y, y / grid, grid);
  }

  /** The square mosaic's colour for pixel (x, y): the carried average of its cell. */
  function SquarePixel(s: seq<byte>, width: nat, height: nat, grid: nat, x: nat, y: nat): Color
    requires grid >= 1 && |s| >= width * height * 4 && InImage(x, y, width, height)
  {
    CellOfBound(x, y, width, height, grid);
    GridCellColor(CellsOf(s, width, height, grid), CellOf(x, y, width, grid))
  }

  /** The triangle mosaic's colour for pixel (x, y): the mean of its own half of its own cell. */
  function TrianglePixel(s: seq<byte>, width: nat, height: nat, grid: nat, x: nat, y: nat): Color
    requires grid >= 1 && |s| >= width * height * 4 && InImage(x, y, width, height)
  {
    var i, j := (x / grid) * grid, (y / grid) * grid;
    OwnCell(x, y, width, height, grid);
    var right := InRightHalf(x, y, i, j);
    HalfRowsNonEmpty(s, width, height, i, j, right, i, j, CellEnd(j, grid, width), CellEnd(i, grid, height), x, y);
    MeanColor(HalfColors(s, width, height, grid, i, j, right))
  }

  datatype Style = Square | Triangle

  function MosaicPixel(style: Style, s: seq<byte>, width: nat, height: nat, grid: nat, x: nat, y: nat): Color
    requires grid >= 1 && |s| >= width * height * 4 && InImage(x, y, width, height)
  {
    match style
    case Square => SquarePixel(s, width, height, grid, x, y)
    case Triangle => TrianglePixel(s, width, height, grid, x, y)
  }

  /**
   * t is s with cells 0 .. k-1 (in visiting order) painted in the given style
   * and every later cell untouched; no alpha byte nor any byte past the image
   * changes. With k = CellCount this is the whole mosaic.
   */
  ghost predicate PaintedBefore(t: seq<byte>, s: seq<byte>, width: nat, height: nat, grid: nat, style: Style, k: nat)
    requires grid >= 1
  {
    && KeepsAlphaAndTail(t, s, width, height)
    && forall x: nat, y: nat {:trigger PixelAt(t, x, y, width, height)} :: InImage(x, y, width, height) ==>
         PixelAt(t, x, y, width, height) ==
           if CellOf(x, y, width, grid) < k then MosaicPixel(style, s, width, height, grid, x, y) else PixelAt(s, x, y, width, height)
  }

  /**
   * The state of a cell-painting loop at position (hp, wp): the pixels of the
   * cell anchored at (i, j) visited so far carry their half's colour (right or
   * left, split with the shift (hShift, wShift)); every other pixel is as in s.
   */
  ghost predicate CellPaintedBefore(t: seq<byte>, s: seq<byte>, width: nat, height: nat, grid: nat, i: int, j: int,
                                    hShift: int, wShift: int, right: Color, left: Color, hp: int, wp: int)
  {
    && KeepsAlphaAndTail(t, s, width, height)
    && forall x, y {:trigger PixelAt(t, x, y, width, height)} :: InImage(x, y, width, height) ==>
         PixelAt(t, x, y, width, height) ==
           if InCell(x, y, i, j, grid) && Before(x, y, hp, wp) then (if InRightHalf(x, y, hShift, wShift) then right else left)
           else PixelAt(s, x, y, width, height)
  }

  /** The whole cell anchored at (i, j) carries its halves' colours. */
  ghost predicate CellFilled(t: seq<byte>, s: seq<byte>, width: nat, height: nat, grid: nat, i: int, j: int,
                             hShift: int, wShift: int, right: Color, left: Color)
  {
    CellPaintedBefore(t, s, width, height, grid, i, j, hShift, wShift, right, left, i + grid, j)
  }

  /** The cell numbered k = r * Cols + c is the one anchored at (r * grid, c * grid); its pixels are untouched before it is painted. */
  lemma CellUnvisited(t: seq<byte>, s: seq<byte>, width: nat, height: nat, grid: nat, style: Style, k: nat, r: nat, c: nat)
    requires grid >= 1 && |s| >= width * height * 4
    requires PaintedBefore(t, s, width, height, grid, style, k)
    requires InImage(r * grid, c * grid, width, height) && k == r * Cols(width, grid) + c
    ensures k < CellCount(width, height, grid)
    ensures CellsOf(s, width, height, grid)[k] == Cell(PixelAt(s, r * grid, c * grid, width, height), CellPixels(r * grid, c * grid, width, height, grid))
    ensures forall x, y {:trigger PixelAt(t, x, y, width, height)} :: InImage(x, y, width, height) && InCell(x, y, r * grid, c * grid, grid) ==>
      PixelAt(t, x, y, width, height) == PixelAt(s, x, y, width, height)
  {
    ColsBound(c, width, grid);
    CellOfInCell(r * grid, c * grid, r, c, width, height, grid);
    CellOfBound(r * grid, c * grid, width, height, grid);
    AnchorOf(r, c, width, grid);
    CellsOfAt(s, width, height, grid, k);
    forall x, y | InImage(x, y, width, height) && InCell(x, y, r * grid, c * grid, grid)
      ensures PixelAt(t, x, y, width, height) == PixelAt(s, x, y, width, height)
    {
      CellOfInCell(x, y, r, c, width, height, grid);
    }
  }

  /** Filling cell k with the colours the style prescribes for it extends the painted prefix by one cell. */
  lemma CellStep(t: seq<byte>, u: seq<byte>, s: seq<byte>, width: nat, height: nat, grid: nat, style: Style,
                 k: nat, r: nat, c: nat, right: Color, left: Color)
    requires grid >= 1 && |s| >= width * height * 4
    requires PaintedBefore(u, s, width, height, grid, style, k)
    requires c < Cols(width, grid) && k == r * Cols(width, grid) + c
    requires CellFilled(t, u, width, height, grid, r * grid, c * grid, r * grid, c * grid, right, left)
    requires forall x, y {:trigger MosaicPixel(style, s, width, height, grid, x, y)} :: InImage(x, y, width, height) && InCell(x, y, r * grid, c * grid, grid) ==>
      MosaicPixel(style, s, width, height, grid, x, y) == if InRightHalf(x, y, r * grid, c * grid) then right else left
    ensures PaintedBefore(t, s, width, height, grid, style, k + 1)
  {
    KeepsTransitive(t, u, s, width, height);
    forall x: nat, y: nat | InImage(x, y, width, height)
      ensures PixelAt(t, x, y, width, height) ==
        if CellOf(x, y, width, grid) < k + 1 then MosaicPixel(style, s, width, height, grid, x, y) else PixelAt(s, x, y, width, height)
    {
      CellOfInCell(x, y, r, c, width, height, grid);
    }
  }

  /** The square style paints cell k in the one colour GridCellColor gives it. */
  lemma SquareCellColor(s: seq<byte>, width: nat, height: nat, grid: nat, k: nat, r: nat, c: nat)
    requires grid >= 1 && |s| >= width * height * 4
    requires c < Cols(width, grid) && k == r * Cols(width, grid) + c && k < CellCount(width, height, grid)
    ensures forall x, y {:trigger SquarePixel(s, width, height, grid, x, y)} :: InImage(x, y, width, height) && InCell(x, y, r * grid, c * grid, grid) ==>
      SquarePixel(s, width, height, grid, x, y) == GridCellColor(CellsOf(s, width, height, grid), k)
  {
    forall x, y | InImage(x, y, width, height) && InCell(x, y, r * grid, c * grid, grid)
      ensures SquarePixel(s, width, height, grid, x, y) == GridCellColor(CellsOf(s, width, height, grid), k)
    {
      CellOfInCell(x, y, r, c, width, height, grid);
    }
  }

  /** The triangle style paints each half of the cell anchored at (r * grid, c * grid) in that half's mean. */
  lemma TriangleCellColor(s: seq<byte>, width: nat, height: nat, grid: nat, r: nat, c: nat, x: nat, y: nat)
    requires grid >= 1 && |s| >= width * height * 4
    requires InImage(x, y, width, height) && InCell(x, y, r * grid, c * grid, grid)
    ensures InImage(r * grid, c * grid, width, height)
    ensures var right := InRightHalf(x, y, r * grid, c * grid);
      && |HalfColors(s, width, height, grid, r * grid, c * grid, right)| > 0
      && TrianglePixel(s, width, height, grid, x, y) == MeanColor(HalfColors(s, width, height, grid, r * grid, c * grid, right))
  {
    DivRange(x, r, grid);
    DivRange(y, c, grid);
    OwnCell(x, y, width, height, grid);
    var i, j := r * grid, c * grid;
    HalfRowsNonEmpty(s, width, height, i, j, InRightHalf(x, y, i, j), i, j, CellEnd(j, grid, width), CellEnd(i, grid, height), x, y);
  }

  /** One step of the square mosaic: cell k filled with its carried average extends the painted prefix. */
  lemma SquareCellPainted(t: seq<byte>, u: seq<byte>, s: seq<byte>, width: nat, height: nat, grid: nat,
                          k: nat, r: nat, c: nat, color: Color)
    requires grid >= 1 && |s| >= width * height * 4
    requires PaintedBefore(u, s, width, height, grid, Square, k)
    requires c < Cols(width, grid) && k == r * Cols(width, grid) + c && k < CellCount(width, height, grid)
    requires color == GridCellColor(CellsOf(s, width, height, grid), k)
    requires CellFilled(t, u, width, height, grid, r * grid, c * grid, r * grid, c * grid, color, color)
    ensures PaintedBefore(t, s, width, height, grid, Square, k + 1)
  {
    SquareCellColor(s, width, height, grid, k, r, c);
    CellStep(t, u, s, width, height, grid, Square, k, r, c, color, color);
  }

  /**
   * What the triangle mosaic reads for cell k: the half lists of the still
   * untouched cell are those of the original image; the right one is never
   * empty and the left one is empty exactly when the cell is one row tall.
   */
  lemma TriangleCellLists(u: seq<byte>, s: seq<byte>, width: nat, height: nat, grid: nat, k: nat, r: nat, c: nat)
    requires grid >= 1 && |s| >= width * height * 4
    requires PaintedBefore(u, s, width, height, grid, Triangle, k)
    requires InImage(r * grid, c * grid, width, height) && k == r * Cols(width, grid) + c
    ensures var i, j := r * grid, c * grid;
      && HalfRows(u, width, height, i, j, true, i, j, CellEnd(j, grid, width), CellEnd(i, grid, height)) == HalfColors(s, width, height, grid, i, j, true)
      && HalfRows(u, width, height, i, j, false, i, j, CellEnd(j, grid, width), CellEnd(i, grid, height)) == HalfColors(s, width, height, grid, i, j, false)
      && |HalfColors(s, width, height, grid, i, j, true)| > 0
      && (|HalfColors(s, width, height, grid, i, j, false)| > 0 <==> CellEnd(i, grid, height) - i != 1)
  {
    var i, j := r * grid, c * grid;
    CellUnvisited(u, s, width, height, grid, Triangle, k, r, c);
    HalfRowsFrame(u, s, width, height, i, j, true, i, j, CellEnd(j, grid, width), CellEnd(i, grid, height));
    HalfRowsFrame(u, s, width, height, i, j, false, i, j, CellEnd(j, grid, width), CellEnd(i, grid, height));
    RightHalfNonEmpty(s, width, height, grid, i, j);
    LeftHalfEmptyIff(s, width, height, grid, i, j);
  }

  /** One step of the triangle mosaic: cell k filled with its halves' means extends the painted prefix. */
  lemma TriangleCellPainted(t: seq<byte>, u: seq<byte>, s: seq<byte>, width: nat, height: nat, grid: nat,
                            k: nat, r: nat, c: nat, rTriangle: seq<Color>, lTriangle: seq<Color>)
    requires grid >= 1 && |s| >= width * height * 4
    requires PaintedBefore(u, s, width, height, grid, Triangle, k)
    requires InImage(r * grid, c * grid, width, height) && c < Cols(width, grid) && k == r * Cols(width, grid) + c
    requires rTriangle == HalfColors(s, width, height, grid, r * grid, c * grid, true) && |rTriangle| > 0
    requires lTriangle == HalfColors(s, width, height, grid, r * grid, c * grid, false) && |lTriangle| > 0
    requires CellFilled(t, u, width, height, grid, r * grid, c * grid, r * grid, c * grid,
                        CarriedMean(Acc(0, 0, 0), rTriangle), MeanColor(lTriangle))
    ensures PaintedBefore(t, s, width, height, grid, Triangle, k + 1)
  {
    var i, j := r * grid, c * grid;
    CarriedMeanFromZero(rTriangle);
    forall x, y | InImage(x, y, width, height) && InCell(x, y, i, j, grid)
      ensures MosaicPixel(Triangle, s, width, height, grid, x, y) ==
        if InRightHalf(x, y, i, j) then MeanColor(rTriangle) else MeanColor(lTriangle)
    {
      TriangleCellColor(s, width, height, grid, r, c, x, y);
    }
    CellStep(t, u, s, width, height, grid, Triangle, k, r, c, MeanColor(rTriangle), MeanColor(lTriangle));
  }

  // ---------------------------------------------------------------------------
  // When the triangle mosaic stops

  /** The first cell row whose clipped cells are one pixel tall, or Rows when there is none. */
  function FirstFlatRow(height: nat, grid: nat): nat
    requires grid >= 1
  {
    if height == 0 || grid == 1 then 0
    else if (height - 1) % grid == 0 then (height - 1) / grid
    else Rows(height, grid)
  }

  /** Whether the triangle mosaic runs to the end: no visited cell is one pixel tall. */
  predicate TriangleCompletes(width: nat, height: nat, grid: nat)
    requires grid >= 1
  {
    width == 0 || FirstFlatRow(height, grid) == Rows(height, grid)
  }

  /** How many cells the triangle mosaic paints before it completes or fails. */
  function TriangleStop(width: nat, height: nat, grid: nat): nat
    requires grid >= 1
  {
    if TriangleCompletes(width, height, grid) then CellCount(width, height, grid)
    else FirstFlatRow(height, grid) * Cols(width, grid)
  }

  lemma FirstFlatRowBound(height: nat, grid: nat)
    requires grid >= 1
    ensures FirstFlatRow(height, grid) <= Rows(height, grid)
  {
    if height > 0 && grid > 1 && (height - 1) % grid == 0 {
      var q := (height - 1) / grid;
      DivRange(height - 1, q, grid);
      RowsBound(q, height, grid);
    }
  }

  /** A cell row is one pixel tall exactly from the first flat row on. */
  lemma FlatRowIff(r: nat, height: nat, grid: nat)
    requires grid >= 1 && r < Rows(height, grid)
    ensures FirstFlatRow(height, grid) <= Rows(height, grid)
    ensures CellEnd(r * grid, grid, height) - r * grid == 1 <==> r >= FirstFlatRow(height, grid)
  {
    RowsBound(r, height, grid);
    if grid > 1 {
      var q := (height - 1) / grid;
      DivRange(height - 1, q, grid);
      RowsBound(q, height, grid);
      if (height - 1) % grid == 0 {
        assert height - 1 == q * grid;
        if q < r {
          MulMono(q + 1, r, grid);
        } else if r < q {
          MulMono(r + 1, q, grid);
        }
        if q + 1 < Rows(height, grid) {
          RowsBound(q + 1, height, grid);
        }
      } else {
        if r * grid == height - 1 {
          DivRange(height - 1, r, grid);
        }
      }
    }
  }

  /** The triangle mosaic completes exactly when the image is empty or its height is not 1 more than a multiple of grid. */
  lemma TriangleCompletesIff(width: nat, height: nat, grid: nat)
    requires grid >= 1
    ensures TriangleCompletes(width, height, grid) <==> width == 0 || height == 0 || (height - 1) % grid != 0
  {
    if height > 0 && (height - 1) % grid == 0 {
      var q := (height - 1) / grid;
      DivRange(height - 1, q, grid);
      RowsBound(q, height, grid);
      assert q < Rows(height, grid);
    }
  }

  /** With one-pixel cells every cell is flat: a non-empty image fails at the very first cell. */
  lemma TriangleGridOneFails(width: nat, height: nat)
    requires width >= 1 && height >= 1
    ensures !TriangleCompletes(width, height, 1) && TriangleStop(width, height, 1) == 0
  {
    TriangleCompletesIff(width, height, 1);
  }

  // ---------------------------------------------------------------------------
  // Properties of the finished mosaics

  /** Every clipped cell of the square mosaic has one colour. */
  lemma SquareCellsUniform(t: seq<byte>, s: seq<byte>, width: nat, height: nat, grid: nat,
                           r: nat, c: nat, x: nat, y: nat, x': nat, y': nat)
    requires grid >= 1 && |s| >= width * height * 4
    requires PaintedBefore(t, s, width, height, grid, Square, CellCount(width, height, grid))
    requires InImage(x, y, width, height) && InCell(x, y, r * grid, c * grid, grid)
    requires InImage(x', y', width, height) && InCell(x', y', r * grid, c * grid, grid)
    ensures PixelAt(t, x, y, width, height) == PixelAt(t, x', y', width, height)
  {
    DivRange(y, c, grid);
    ColsBound(c, width, grid);
    CellOfInCell(x, y, r, c, width, height, grid);
    CellOfInCell(x', y', r, c, width, height, grid);
    CellOfBound(x, y, width, height, grid);
    CellOfBound(x', y', width, height, grid);
  }

  /** Only the first cell of the square mosaic is sure to get its anchor pixel's colour: pixel (0, 0)'s. */
  lemma SquareFirstCellIsAnchor(t: seq<byte>, s: seq<byte>, width: nat, height: nat, grid: nat, x: nat, y: nat)
    requires grid >= 1 && |s| >= width * height * 4
    requires PaintedBefore(t, s, width, height, grid, Square, CellCount(width, height, grid))
    requires InImage(x, y, width, height) && InCell(x, y, 0, 0, grid)
    ensures PixelAt(t, x, y, width, height) == PixelAt(s, 0, 0, width, height)
  {
    var cells := CellsOf(s, width, height, grid);
    ColsBound(0, width, grid);
    CellOfInCell(x, y, 0, 0, width, height, grid);
    CellOfBound(x, y, width, height, grid);
    assert CellOf(x, y, width, grid) == 0;
    assert PixelAt(t, x, y, width, height) == SquarePixel(s, width, height, grid, x, y);
    assert SquarePixel(s, width, height, grid, x, y) == GridCellColor(cells, 0);
    FirstCellAnchor(s, width, height, grid);
    FirstGridCellIsAnchorPixel(cells);
  }

  /** The two halves of a triangle-mosaic cell are each of one colour. */
  lemma TriangleHalvesUniform(t: seq<byte>, s: seq<byte>, width: nat, height: nat, grid: nat,
                              r: nat, c: nat, x: nat, y: nat, x': nat, y': nat)
    requires grid >= 1 && |s| >= width * height * 4
    requires PaintedBefore(t, s, width, height, grid, Triangle, CellCount(width, height, grid))
    requires InImage(x, y, width, height) && InCell(x, y, r * grid, c * grid, grid)
    requires InImage(x', y', width, height) && InCell(x', y', r * grid, c * grid, grid)
    requires InRightHalf(x, y, r * grid, c * grid) == InRightHalf(x', y', r * grid, c * grid)
    ensures PixelAt(t, x, y, width, height) == PixelAt(t, x', y', width, height)
  {
    CellOfBound(x, y, width, height, grid);
    CellOfBound(x', y', width, height, grid);
    TriangleCellColor(s, width, height, grid, r, c, x, y);
    TriangleCellColor(s, width, height, grid, r, c, x', y');
  }

  /** Unlike the square mosaic, a completed triangle mosaic leaves an image of one colour unchanged. */
  lemma TriangleKeepsUniformImage(t: seq<byte>, s: seq<byte>, width: nat, height: nat, grid: nat, c: Color)
    requires grid >= 1 && |s| >= width * height * 4
    requires forall x, y :: InImage(x, y, width, height) ==> PixelAt(s, x, y, width, height) == c
    requires PaintedBefore(t, s, width, height, grid, Triangle, CellCount(width, height, grid))
    ensures forall x, y :: InImage(x, y, width, height) ==> PixelAt(t, x, y, width, height) == c
  {
    forall x: nat, y: nat | InImage(x, y, width, height)
      ensures PixelAt(t, x, y, width, height) == c
    {
      CellOfBound(x, y, width, height, grid);
      UniformTrianglePixel(s, width, height, grid, c, x, y);
    }
  }

  /** In an image of one colour, every pixel's half mean is that colour. */
  lemma UniformTrianglePixel(s: seq<byte>, width: nat, height: nat, grid: nat, c: Color, x: nat, y: nat)
    requires grid >= 1 && |s| >= width * height * 4 && InImage(x, y, width, height)
    requires forall x, y :: InImage(x, y, width, height) ==> PixelAt(s, x, y, width, height) == c
    ensures TrianglePixel(s, width, height, grid, x, y) == c
  {
    OwnCell(x, y, width, height, grid);
    var i, j := (x / grid) * grid, (y / grid) * grid;
    var right := InRightHalf(x, y, i, j);
    HalfRowsUniform(s, width, height, i, j, right, i, j, CellEnd(j, grid, width), CellEnd(i, grid, height), c);
    HalfRowsNonEmpty(s, width, height, i, j, right, i, j, CellEnd(j, grid, width), CellEnd(i, grid, height), x, y);
    MeanOfUniform(HalfColors(s, width, height, grid, i, j, right), c);
  }

  // ---------------------------------------------------------------------------
  // The SolidMosaic class

  class SolidMosaic {
    /** The buffer the mosaic is painted into; it is the caller's buffer, not a copy. */
    const ImagePixels: array<byte>

    constructor(sourcePixels: array<byte>)
      ensures ImagePixels == sourcePixels
    {
      ImagePixels := sourcePixels;
    }

    /**
     * Visits the cells row-major with one set of accumulators, averaging each
     * cell with FindAverageGridColor and filling it with the result.
     */
    method CreateSolidSquareMosaic(imageWidth: nat, imageHeight: nat, grid: nat)
      requires grid >= 1 && ImagePixels.Length >= imageWidth * imageHeight * 4
      modifies ImagePixels
      ensures PaintedBefore(ImagePixels[..], old(ImagePixels[..]), imageWidth, imageHeight, grid, Square, CellCount(imageWidth, imageHeight, grid))
    {
      ghost var orig := ImagePixels[..];
      ghost var cells := CellsOf(orig, imageWidth, imageHeight, grid);
      ghost var cols := Cols(imageWidth, grid);
      var red: nat, green: nat, blue: nat, total: nat := 0, 0, 0, 0;
      ghost var k: nat, r: nat := 0, 0;
      var i := 0;
      while i < imageHeight
        invariant i == r * grid && k == r * cols && r <= Rows(imageHeight, grid)
        invariant total == 0 && k <= |cells| && Acc(red, green, blue) == CarryBefore(cells, k)
        invariant PaintedBefore(ImagePixels[..], orig, imageWidth, imageHeight, grid, Square, k)
      {
        RowsBound(r, imageHeight, grid);
        MulMono(r + 1, Rows(imageHeight, grid), cols);
        MulSucc(r, cols);
        MulSucc(r, grid);
        red, green, blue, total := this.SquareRow(imageWidth, imageHeight, grid, red, green, blue, total, i, orig, cells, cols, k, r, k + cols);
        i := i + grid;
        r, k := r + 1, k + cols;
      }
      RowsBound(r, imageHeight, grid);
    }

    /** One pass of the square mosaic's column loop: the cells k .. next - 1 of row r, left to right. */
    method SquareRow(imageWidth: nat, imageHeight: nat, grid: nat, red: nat, green: nat, blue: nat, total: nat,
                     i: nat, ghost orig: seq<byte>, ghost cells: seq<Cell>, ghost cols: nat, ghost k: nat, ghost r: nat, ghost next: nat)
      returns (red': nat, green': nat, blue': nat, total': nat)
      requires grid >= 1 && ImagePixels.Length >= imageWidth * imageHeight * 4 && |orig| >= imageWidth * imageHeight * 4
      requires cells == CellsOf(orig, imageWidth, imageHeight, grid) && cols == Cols(imageWidth, grid)
      requires i == r * grid && i < imageHeight && k == r * cols && next == k + cols && next <= |cells|
      requires PaintedBefore(ImagePixels[..], orig, imageWidth, imageHeight, grid, Square, k)
      requires total == 0 && Acc(red, green, blue) == CarryBefore(cells, k)
      modifies ImagePixels
      ensures PaintedBefore(ImagePixels[..], orig, imageWidth, imageHeight, grid, Square, next)
      ensures total' == 0 && Acc(red', green', blue') == CarryBefore(cells, next)
    {
      red', green', blue', total' := red, green, blue, total;
      var j := 0;
      ghost var c: nat, n: nat := 0, k;
      while j < imageWidth
        invariant j == c * grid && c <= cols && n == k + c
        invariant total' == 0 && Acc(red', green', blue') == CarryBefore(cells, n)
        invariant PaintedBefore(ImagePixels[..], orig, imageWidth, imageHeight, grid, Square, n)
      {
        ColsBound(c, imageWidth, grid);
        red', green', blue', total' := this.SquareCell(imageWidth, imageHeight, grid, red', green', blue', total', i, j, orig, n, r, c);
        MulSucc(c, grid);
        j := j + grid;
        c, n := c + 1, n + 1;
      }
      ColsBound(c, imageWidth, grid);
      assert n == next;
    }

    /**
     * The body of the square mosaic's cell loop: FindAverageGridColor on the
     * cell anchored at (i, j), then setGridPixelsWithAverageColor with its result.
     */
    method SquareCell(imageWidth: nat, imageHeight: nat, grid: nat, red: nat, green: nat, blue: nat, total: nat,
                      i: nat, j: nat, ghost orig: seq<byte>, ghost k: nat, ghost r: nat, ghost c: nat)
      returns (red': nat, green': nat, blue': nat, total': nat)
      requires grid >= 1 && ImagePixels.Length >= imageWidth * imageHeight * 4 && |orig| >= imageWidth * imageHeight * 4
      requires i == r * grid && j == c * grid && i < imageHeight && c < Cols(imageWidth, grid) && k == r * Cols(imageWidth, grid) + c
      requires PaintedBefore(ImagePixels[..], orig, imageWidth, imageHeight, grid, Square, k)
      requires total == 0 && k <= CellCount(imageWidth, imageHeight, grid)
      requires Acc(red, green, blue) == CarryBefore(CellsOf(orig, imageWidth, imageHeight, grid), k)
      modifies ImagePixels
      ensures k < CellCount(imageWidth, imageHeight, grid)
      ensures PaintedBefore(ImagePixels[..], orig, imageWidth, imageHeight, grid, Square, k + 1)
      ensures total' == 0 && Acc(red', green', blue') == CarryBefore(CellsOf(orig, imageWidth, imageHeight, grid), k + 1)
    {
      ghost var cells := CellsOf(orig, imageWidth, imageHeight, grid);
      ColsBound(c, imageWidth, grid);
      ghost var before := ImagePixels[..];
      CellUnvisited(before, orig, imageWidth, imageHeight, grid, Square, k, r, c);
      var color;
      color, red', green', blue', total' := FindAverageGridColor(ImagePixels, imageWidth, imageHeight, grid, red, green, blue, total, i, j);
      GridCellFromCarry(cells, k, Acc(red', green', blue'));
      this.SetGridPixelsWithAverageColor(imageWidth, imageHeight, grid, i, j, color);
      SquareCellPainted(ImagePixels[..], before, orig, imageWidth, imageHeight, grid, k, r, c, color);
    }

    /** Fills the clipped cell anchored at (i, j) with one colour. */
    method SetGridPixelsWithAverageColor(imageWidth: nat, imageHeight: nat, grid: nat, i: nat, j: nat, color: Color)
      requires grid >= 1 && ImagePixels.Length >= imageWidth * imageHeight * 4
      modifies ImagePixels
      ensures CellFilled(ImagePixels[..], old(ImagePixels[..]), imageWidth, imageHeight, grid, i, j, i, j, color, color)
    {
      ghost var orig := ImagePixels[..];
      var hPixel := i;
      while hPixel < i + grid && hPixel < imageHeight
        invariant i <= hPixel
        invariant CellPaintedBefore(ImagePixels[..], orig, imageWidth, imageHeight, grid, i, j, i, j, color, color, hPixel, j)
      {
        var wPixel := j;
        while wPixel < j + grid && wPixel < imageWidth
          invariant j <= wPixel
          invariant CellPaintedBefore(ImagePixels[..], orig, imageWidth, imageHeight, grid, i, j, i, j, color, color, hPixel, wPixel)
        {
          PaintPixel(ImagePixels, hPixel, wPixel, color, imageWidth, imageHeight, orig);
          wPixel := wPixel + 1;
        }
        hPixel := hPixel + 1;
      }
    }

    /**
     * Visits the cells row-major; for each cell collects the two halves' pixels,
     * then paints each half in its mean. Returns false where the code throws:
     * the division by the empty left list of a one-row cell.
     */
    method CreateSolidTriangleMosaic(imageWidth: nat, imageHeight: nat, grid: nat) returns (completed: bool)
      requires grid >= 1 && ImagePixels.Length >= imageWidth * imageHeight * 4
      modifies ImagePixels
      ensures completed == TriangleCompletes(imageWidth, imageHeight, grid)
      ensures PaintedBefore(ImagePixels[..], old(ImagePixels[..]), imageWidth, imageHeight, grid, Triangle, TriangleStop(imageWidth, imageHeight, grid))
    {
      ghost var orig := ImagePixels[..];
      ghost var cols := Cols(imageWidth, grid);
      ghost var flat := FirstFlatRow(imageHeight, grid);
      var red: nat, green: nat, blue: nat := 0, 0, 0;
      var rTriangle: seq<Color> := [];
      var lTriangle: seq<Color> := [];
      var wShift, hShift := 0, 0;
      ghost var k: nat, r: nat := 0, 0;
      var i := 0;
      while i < imageHeight
        invariant i == r * grid && k == r * cols && r <= Rows(imageHeight, grid)
        invariant imageWidth == 0 || r <= flat
        invariant hShift == i && wShift == 0
        invariant red == 0 && green == 0 && blue == 0 && rTriangle == [] && lTriangle == []
        invariant PaintedBefore(ImagePixels[..], orig, imageWidth, imageHeight, grid, Triangle, k)
      {
        RowsBound(r, imageHeight, grid);
        FlatRowIff(r, imageHeight, grid);
        var j := 0;
        ghost var c: nat := 0;
        while j < imageWidth
          invariant j == c * grid && k == r * cols + c && c <= cols
          invariant r < flat || c == 0
          invariant hShift == i && wShift == j
          invariant red == 0 && green == 0 && blue == 0 && rTriangle == [] && lTriangle == []
          invariant PaintedBefore(ImagePixels[..], orig, imageWidth, imageHeight, grid, Triangle, k)
        {
          ColsBound(c, imageWidth, grid);
          var ok;
          ok, red, green, blue, rTriangle, lTriangle :=
            this.TriangleCell(imageWidth, imageHeight, grid, red, green, blue, rTriangle, lTriangle, wShift, hShift, i, j, orig, k, r, c);
          if !ok {
            assert r == flat && c == 0;
            return false;
          }
          wShift := wShift + grid;
          MulSucc(c, grid);
          j := j + grid;
          c, k := c + 1, k + 1;
        }
        ColsBound(c, imageWidth, grid);
        MulSucc(r, cols);
        MulSucc(r, grid);
        hShift := hShift + grid;
        wShift := 0;
        i := i + grid;
        r := r + 1;
      }
      RowsBound(r, imageHeight, grid);
      FirstFlatRowBound(imageHeight, grid);
      return true;
    }

    /**
     * The body of the triangle mosaic's cell loop: collect the two halves'
     * pixels of the cell anchored at (i, j), then paint each half in its
     * average. Fails, writing nothing, exactly on a one-row cell.
     */
    method TriangleCell(imageWidth: nat, imageHeight: nat, grid: nat, red: nat, green: nat, blue: nat,
                        rTriangle: seq<Color>, lTriangle: seq<Color>, wShift: int, hShift: int,
                        i: nat, j: nat, ghost orig: seq<byte>, ghost k: nat, ghost r: nat, ghost c: nat)
      returns (ok: bool, red': nat, green': nat, blue': nat, rTriangle': seq<Color>, lTriangle': seq<Color>)
      requires grid >= 1 && ImagePixels.Length >= imageWidth * imageHeight * 4 && |orig| >= imageWidth * imageHeight * 4
      requires i == r * grid && j == c * grid && InImage(i, j, imageWidth, imageHeight)
      requires c < Cols(imageWidth, grid) && k == r * Cols(imageWidth, grid) + c
      requires hShift == i && wShift == j
      requires red == 0 && green == 0 && blue == 0 && rTriangle == [] && lTriangle == []
      requires PaintedBefore(ImagePixels[..], orig, imageWidth, imageHeight, grid, Triangle, k)
      modifies ImagePixels
      ensures ok <==> CellEnd(i, grid, imageHeight) - i != 1
      ensures !ok ==> ImagePixels[..] == old(ImagePixels[..])
      ensures ok ==> PaintedBefore(ImagePixels[..], orig, imageWidth, imageHeight, grid, Triangle, k + 1)
      ensures ok ==> red' == 0 && green' == 0 && blue' == 0 && rTriangle' == [] && lTriangle' == []
    {
      ghost var before := ImagePixels[..];
      TriangleCellLists(before, orig, imageWidth, imageHeight, grid, k, r, c);
      var rList, lList := this.AddPixelsToLeftAndRightTriangleLists(imageWidth, imageHeight, grid, rTriangle, lTriangle, wShift, hShift, i, j);
      ok, red', green', blue', rTriangle', lTriangle' :=
        this.SetGridWithLeftAndRightTriangleColors(imageWidth, imageHeight, grid, red, green, blue, rList, lList, wShift, hShift, i, j);
      if ok {
        TriangleCellPainted(ImagePixels[..], before, orig, imageWidth, imageHeight, grid, k, r, c, rList, lList);
      }
    }

    /** Appends the cell's pixels to the right or the left list, row-major, by the split test. */
    method AddPixelsToLeftAndRightTriangleLists(imageWidth: nat, imageHeight: nat, grid: nat,
                                                 rTriangle: seq<Color>, lTriangle: seq<Color>,
                                                 wShift: int, hShift: int, i: nat, j: nat)
      returns (rTriangle': seq<Color>, lTriangle': seq<Color>)
      requires grid >= 1 && ImagePixels.Length >= imageWidth * imageHeight * 4 && i <= imageHeight && j <= imageWidth
      ensures rTriangle' == rTriangle + HalfRows(ImagePixels[..], imageWidth, imageHeight, hShift, wShift, true,
                                                 i, j, CellEnd(j, grid, imageWidth), CellEnd(i, grid, imageHeight))
      ensures lTriangle' == lTriangle + HalfRows(ImagePixels[..], imageWidth, imageHeight, hShift, wShift, false,
                                                 i, j, CellEnd(j, grid, imageWidth), CellEnd(i, grid, imageHeight))
    {
      ghost var img, jEnd := ImagePixels[..], CellEnd(j, grid, imageWidth);
      rTriangle', lTriangle' := rTriangle, lTriangle;
      var hPixel := i;
      while hPixel < i + grid && hPixel < imageHeight
        invariant i <= hPixel <= CellEnd(i, grid, imageHeight)
        invariant rTriangle' == rTriangle + HalfRows(img, imageWidth, imageHeight, hShift, wShift, true, i, j, jEnd, hPixel)
        invariant lTriangle' == lTriangle + HalfRows(img, imageWidth, imageHeight, hShift, wShift, false, i, j, jEnd, hPixel)
      {
        rTriangle', lTriangle' := AddRowToLists(imageWidth, imageHeight, grid, rTriangle', lTriangle', wShift, hShift, hPixel, j);
        assert rTriangle' == rTriangle + (HalfRows(img, imageWidth, imageHeight, hShift, wShift, true, i, j, jEnd, hPixel)
                                          + HalfRow(img, imageWidth, imageHeight, hShift, wShift, true, j, hPixel, jEnd));
        assert lTriangle' == lTriangle + (HalfRows(img, imageWidth, imageHeight, hShift, wShift, false, i, j, jEnd, hPixel)
                                          + HalfRow(img, imageWidth, imageHeight, hShift, wShift, false, j, hPixel, jEnd));
        hPixel := hPixel + 1;
      }
    }

    /** The inner loop of addPixelsToLeftAndRightTriangleLists: one row of the clipped cell, left to right. */
    method AddRowToLists(imageWidth: nat, imageHeight: nat, grid: nat,
                         rTriangle: seq<Color>, lTriangle: seq<Color>,
                         wShift: int, hShift: int, hPixel: nat, j: nat)
      returns (rTriangle': seq<Color>, lTriangle': seq<Color>)
      requires grid >= 1 && ImagePixels.Length >= imageWidth * imageHeight * 4 && hPixel < imageHeight && j <= imageWidth
      ensures rTriangle' == rTriangle + HalfRow(ImagePixels[..], imageWidth, imageHeight, hShift, wShift, true, j, hPixel, CellEnd(j, grid, imageWidth))
      ensures lTriangle' == lTriangle + HalfRow(ImagePixels[..], imageWidth, imageHeight, hShift, wShift, false, j, hPixel, CellEnd(j, grid, imageWidth))
    {
      ghost var img := ImagePixels[..];
      rTriangle', lTriangle' := rTriangle, lTriangle;
      var wPixel := j;
      while wPixel < j + grid && wPixel < imageWidth
        invariant j <= wPixel <= CellEnd(j, grid, imageWidth)
        invariant rTriangle' == rTriangle + HalfRow(img, imageWidth, imageHeight, hShift, wShift, true, j, hPixel, wPixel)
        invariant lTriangle' == lTriangle + HalfRow(img, imageWidth, imageHeight, hShift, wShift, false, j, hPixel, wPixel)
      {
        OffsetInBuffer(hPixel, wPixel, imageWidth, imageHeight);
        ghost var rRow := HalfRow(img, imageWidth, imageHeight, hShift, wShift, true, j, hPixel, wPixel);
        ghost var lRow := HalfRow(img, imageWidth, imageHeight, hShift, wShift, false, j, hPixel, wPixel);
        if wPixel - wShift >= hPixel - hShift {
          var rPixelColor := GetPixelBgra8(ImagePixels[..], hPixel, wPixel, imageWidth);
          assert rPixelColor == PixelAt(img, hPixel, wPixel, imageWidth, imageHeight);
          rTriangle' := rTriangle' + [rPixelColor];
          assert rTriangle' == rTriangle + (rRow + [rPixelColor]);
        } else {
          var lPixelColor := GetPixelBgra8(ImagePixels[..], hPixel, wPixel, imageWidth);
          assert lPixelColor == PixelAt(img, hPixel, wPixel, imageWidth, imageHeight);
          lTriangle' := lTriangle' + [lPixelColor];
          assert lTriangle' == lTriangle + (lRow + [lPixelColor]);
        }
        wPixel := wPixel + 1;
      }
    }

    /**
     * Averages the right list, then the left list (each call clears its list
     * and zeroes the accumulators), then paints each pixel of the cell with its
     * half's average. Returns false, writing nothing, where the code divides by
     * an empty list's count.
     */
    method SetGridWithLeftAndRightTriangleColors(imageWidth: nat, imageHeight: nat, grid: nat,
                                                  red: nat, green: nat, blue: nat,
                                                  rTriangle: seq<Color>, lTriangle: seq<Color>,
                                                  wShift: int, hShift: int, i: nat, j: nat)
      returns (ok: bool, red': nat, green': nat, blue': nat, rTriangle': seq<Color>, lTriangle': seq<Color>)
      requires grid >= 1 && ImagePixels.Length >= imageWidth * imageHeight * 4
      modifies ImagePixels
      ensures ok <==> |rTriangle| > 0 && |lTriangle| > 0
      ensures !ok ==> ImagePixels[..] == old(ImagePixels[..])
      ensures ok ==> red' == 0 && green' == 0 && blue' == 0 && rTriangle' == [] && lTriangle' == []
      ensures ok ==> CellFilled(ImagePixels[..], old(ImagePixels[..]), imageWidth, imageHeight, grid, i, j, hShift, wShift,
                                CarriedMean(Acc(red, green, blue), rTriangle), MeanColor(lTriangle))
    {
      var rightColor, leftColor;
      rightColor, red', green', blue', rTriangle' := CalculateAverageTriangleColor(red, green, blue, rTriangle);
      if rightColor.None? {
        return false, red', green', blue', rTriangle', lTriangle;
      }
      leftColor, red', green', blue', lTriangle' := CalculateAverageTriangleColor(red', green', blue', lTriangle);
      if leftColor.None? {
        return false, red', green', blue', rTriangle', lTriangle';
      }
      CarriedMeanFromZero(lTriangle);
      ok := true;
      var right, left := rightColor.value, leftColor.value;
      ghost var orig := ImagePixels[..];
      var hPixel := i;
      while hPixel < i + grid && hPixel < imageHeight
        invariant i <= hPixel
        invariant CellPaintedBefore(ImagePixels[..], orig, imageWidth, imageHeight, grid, i, j, hShift, wShift, right, left, hPixel, j)
      {
        var wPixel := j;
        while wPixel < j + grid && wPixel < imageWidth
          invariant j <= wPixel
          invariant CellPaintedBefore(ImagePixels[..], orig, imageWidth, imageHeight, grid, i, j, hShift, wShift, right, left, hPixel, wPixel)
        {
          if wPixel - wShift >= hPixel - hShift {
            PaintPixel(ImagePixels, hPixel, wPixel, right, imageWidth, imageHeight, orig);
          } else {
            PaintPixel(ImagePixels, hPixel, wPixel, left, imageWidth, imageHeight, orig);
          }
          wPixel := wPixel + 1;
        }
        hPixel := hPixel + 1;
      }
    }
  }

  /** The foreach loop of calculateAverageTriangleColor: each colour's channels are added onto the accumulators. */
  method AddColors(red: nat, green: nat, blue: nat, colors: seq<Color>) returns (red': nat, green': nat, blue': nat)
    ensures red' == red + SumColors(colors).red
    ensures green' == green + SumColors(colors).green
    ensures blue' == blue + SumColors(colors).blue
  {
    red', green', blue' := red, green, blue;
    for k := 0 to |colors|
      invariant red' == red + SumColors(colors[..k]).red
      invariant green' == green + SumColors(colors[..k]).green
      invariant blue' == blue + SumColors(colors[..k]).blue
    {
      SumStep(colors, k);
      var pixel := colors[k];
      red' := red' + pixel.r;
      green' := green' + pixel.g;
      blue' := blue' + pixel.b;
    }
    assert colors[..|colors|] == colors;
  }

  /**
   * calculateAverageTriangleColor: adds the list onto the accumulators,
   * divides by the list's length (None where that length is 0 and the code
   * throws), packs and unpacks the result, clears the list and zeroes the
   * accumulators.
   */
  method CalculateAverageTriangleColor(red: nat, green: nat, blue: nat, colors: seq<Color>)
    returns (color: Option<Color>, red': nat, green': nat, blue': nat, colors': seq<Color>)
    ensures color.None? <==> |colors| == 0
    ensures |colors| > 0 ==> color == Some(CarriedMean(Acc(red, green, blue), colors))
    ensures |colors| > 0 ==> red' == 0 && green' == 0 && blue' == 0 && colors' == []
  {
    red', green', blue' := AddColors(red, green, blue, colors);
    if |colors| == 0 {
      return None, red', green', blue', colors;
    }
    CarriedMeanOf(Acc(red, green, blue), colors, red', green', blue');
    red' := Quot(red', |colors|);
    green' := Quot(green', |colors|);
    blue' := Quot(blue', |colors|);
    var rgbValue := RgbToInt(red', green', blue');
    color := Some(FromPackedRgb(rgbValue));
    colors' := [];
    red', green', blue' := 0, 0, 0;
  }
}
