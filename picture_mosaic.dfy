/**
 * The picture mosaic: every cell of the image, visited row-major, is
 * overwritten with a 50 x 50 palette tile whose average colour is closest to
 * the cell's colour, under one of three selection policies (see
 * TileSelection). The cell colours come from FindAverageGridColor with one set
 * of accumulators carried across the whole walk, exactly as in the solid square
 * mosaic.
 *
 * A tile is not cropped to its cell: its 2500 pixels are read row by row into
 * a list, and the cell's pixels, also taken row by row, receive that list's
 * entries 0, 1, 2, ... in turn. A cell with more than 2500 pixels runs past the
 * list and the write throws.
 */
module PictureMosaics {
  import opened Geometry
  import opened MosaicCalculations
  import opened TileSelection

  // ---------------------------------------------------------------------------
  // Specification of the tiled image

  /** The tile's pixels in reading order: the list writeClosestImagePixelsToMosaic builds. */
  function TileColors(tile: seq<byte>): seq<Color>
    requires |tile| >= TileBytes
  {
    seq(TilePixels, p requires 0 <= p < TilePixels => TilePixel(tile, p))
  }

  /**
   * Position of pixel (x, y) in the reading order of the cell anchored at
   * (i, j), whose rows are clipped at the image's right edge: the value of
   * the code's running `count` when it reaches (x, y).
   */
  function Slot(x: int, y: int, i: int, j: int, grid: nat, width: nat): int {
    (x - i) * (CellEnd(j, grid, width) - j) + (y - j)
  }

  /**
   * t is s with the pixels of the cell anchored at (i, j) whose slot is below
   * `limit` set to the list entry at their slot; every other pixel, alpha
   * byte and byte past the image is as in s.
   */
  ghost predicate CellPouredBefore(t: seq<byte>, s: seq<byte>, width: nat, height: nat, grid: nat, i: int, j: int,
                                   colors: seq<Color>, limit: int)
  {
    && KeepsAlphaAndTail(t, s, width, height)
    && forall x, y {:trigger PixelAt(t, x, y, width, height)} :: InImage(x, y, width, height) ==>
         PixelAt(t, x, y, width, height) ==
           if InCell(x, y, i, j, grid) && 0 <= Slot(x, y, i, j, grid, width) < limit && Slot(x, y, i, j, grid, width) < |colors|
           then colors[Slot(x, y, i, j, grid, width)]
           else PixelAt(s, x, y, width, height)
  }

  /**
   * The picture mosaic's colour for pixel (x, y) once its cell k has been
   * written with tiles[k]: the tile pixel at the pixel's slot in its cell. A
   * slot past the tile's 2500 pixels is never written.
   */
  function TiledPixel(tiles: seq<seq<byte>>, s: seq<byte>, width: nat, height: nat, grid: nat, x: nat, y: nat): Color
    requires grid >= 1 && |s| >= width * height * 4 && InImage(x, y, width, height)
    requires AllTiles(tiles) && CellOf(x, y, width, grid) < |tiles|
  {
    var n := Slot(x, y, (x / grid) * grid, (y / grid) * grid, grid, width);
    if 0 <= n < TilePixels then TilePixel(tiles[CellOf(x, y, width, grid)], n) else PixelAt(s, x, y, width, height)
  }

  /**
   * t is s with cells 0 .. |tiles|-1 (in visiting order) written with the
   * tiles in order, and every later cell untouched; no alpha byte nor any
   * byte past the image changes.
   */
  ghost predicate TiledBefore(t: seq<byte>, s: seq<byte>, width: nat, height: nat, grid: nat, tiles: seq<seq<byte>>)
    requires grid >= 1
  {
    && KeepsAlphaAndTail(t, s, width, height)
    && AllTiles(tiles)
    && forall x: nat, y: nat {:trigger PixelAt(t, x, y, width, height)} :: InImage(x, y, width, height) ==>
         PixelAt(t, x, y, width, height) ==
           if CellOf(x, y, width, grid) < |tiles| then TiledPixel(tiles, s, width, height, grid, x, y) else PixelAt(s, x, y, width, height)
  }

  /** The colours FindAverageGridColor gives the first n cells of a walk, in visiting order. */
  function ColorsUpTo(cells: seq<Cell>, n: nat): (colors: seq<Color>)
    requires n <= |cells|
    ensures |colors| == n
    decreases n
  {
    if n == 0 then [] else ColorsUpTo(cells, n - 1) + [GridCellColor(cells, n - 1)]
  }

  lemma {:induction false} ColorsUpToAt(cells: seq<Cell>, n: nat, k: nat)
    requires k < n <= |cells|
    ensures ColorsUpTo(cells, n)[k] == GridCellColor(cells, k)
    decreases n
  {
    if k < n - 1 {
      ColorsUpToAt(cells, n - 1, k);
    }
  }

  /** The colour FindAverageGridColor gives each cell of the walk, in visiting order. */
  function CellColors(orig: seq<byte>, width: nat, height: nat, grid: nat): (colors: seq<Color>)
    requires grid >= 1 && |orig| >= width * height * 4
    ensures |colors| == CellCount(width, height, grid)
  {
    ColorsUpTo(CellsOf(orig, width, height, grid), CellCount(width, height, grid))
  }

  /** The accumulators FindAverageGridColor leaves after each of the first n cells of a walk (entry k: after k cells). */
  function CarriesUpTo(cells: seq<Cell>, n: nat): (accs: seq<Acc>)
    requires n <= |cells|
    ensures |accs| == n + 1
    decreases n
  {
    if n == 0 then [Acc(0, 0, 0)]
    else
      var prev := CarriesUpTo(cells, n - 1);
      prev + [AverageStep(prev[n - 1], cells[n - 1].anchor, cells[n - 1].size)]
  }

  lemma {:induction false} CarriesUpToAt(cells: seq<Cell>, n: nat, k: nat)
    requires k <= n <= |cells|
    ensures CarriesUpTo(cells, n)[k] == CarryBefore(cells, k)
    decreases n
  {
    if k < n {
      CarriesUpToAt(cells, n - 1, k);
    } else if n > 0 {
      CarriesUpToAt(cells, n - 1, n - 1);
    }
  }

  /** The accumulators after each number of cells of the walk over an image. */
  function Carries(orig: seq<byte>, width: nat, height: nat, grid: nat): (accs: seq<Acc>)
    requires grid >= 1 && |orig| >= width * height * 4
    ensures |accs| == CellCount(width, height, grid) + 1
  {
    CarriesUpTo(CellsOf(orig, width, height, grid), CellCount(width, height, grid))
  }

  /** The prevent-juxtaposed selections after 0 .. n cells, built one cell at a time. */
  function JuxRuns<T(==)>(search: Search, P: seq<T>, A: seq<Color>, cells: seq<Color>, draws: seq<int>, n: nat): (runs: seq<Selection<T>>)
    requires IsSearch(search)
    requires |P| == |A| && n <= |cells| && n <= |draws|
    ensures |runs| == n + 1
    decreases n
  {
    if n == 0 then [JuxRun(search, P, A, cells, draws, 0)]
    else JuxRuns(search, P, A, cells, draws, n - 1) + [JuxRun(search, P, A, cells, draws, n)]
  }

  lemma {:induction false} JuxRunsAt<T>(search: Search, P: seq<T>, A: seq<Color>, cells: seq<Color>, draws: seq<int>, n: nat, k: nat)
    requires IsSearch(search)
    requires |P| == |A| && k <= n <= |cells| && n <= |draws|
    ensures JuxRuns(search, P, A, cells, draws, n)[k] == JuxRun(search, P, A, cells, draws, k)
    decreases n
  {
    if k < n {
      var prev := JuxRuns(search, P, A, cells, draws, n - 1);
      JuxRunsAt(search, P, A, cells, draws, n - 1, k);
      assert JuxRuns(search, P, A, cells, draws, n)[k] == prev[k];
    }
  }

  /** Cell k of a prevent-juxtaposed walk read off the precomputed runs: what holds of the selection before it, and the selection after it. */
  lemma JuxRunsStep<T>(search: Search, P: seq<T>, A: seq<Color>, cells: seq<Color>, draws: seq<int>, k: nat, st: Selection<T>)
    requires IsSearch(search)
    requires |P| == |A| && k <= |cells| <= |draws|
    requires JuxRuns(search, P, A, cells, draws, |cells|)[k] == st
    ensures |st.palette| == |st.colors| <= |P| && (forall t :: t in st.palette ==> t in P)
    ensures !st.failed ==> |st.chosen| == k
    ensures k < |cells| ==> JuxRuns(search, P, A, cells, draws, |cells|)[k + 1] == JuxStep(search, P, A, st, cells[k], draws[k])
  {
    JuxRunsAt(search, P, A, cells, draws, |cells|, k);
    if k < |cells| {
      JuxRunsAt(search, P, A, cells, draws, |cells|, k + 1);
    }
  }

  /** The plain selections after 0 .. n cells, built one cell at a time. */
  function PlainRuns<T>(search: Search, P: seq<T>, A: seq<Color>, cells: seq<Color>, n: nat): (runs: seq<Selection<T>>)
    requires IsSearch(search)
    requires |P| == |A| && n <= |cells|
    ensures |runs| == n + 1
    decreases n
  {
    if n == 0 then [PlainRun(search, P, A, cells, 0)]
    else PlainRuns(search, P, A, cells, n - 1) + [PlainRun(search, P, A, cells, n)]
  }

  lemma {:induction false} PlainRunsAt<T>(search: Search, P: seq<T>, A: seq<Color>, cells: seq<Color>, n: nat, k: nat)
    requires IsSearch(search)
    requires |P| == |A| && k <= n <= |cells|
    ensures PlainRuns(search, P, A, cells, n)[k] == PlainRun(search, P, A, cells, k)
    decreases n
  {
    if k < n {
      var prev := PlainRuns(search, P, A, cells, n - 1);
      PlainRunsAt(search, P, A, cells, n - 1, k);
      assert PlainRuns(search, P, A, cells, n)[k] == prev[k];
    }
  }

  /** Cell k of a plain walk read off the precomputed runs: the selection before it, and the one after it. */
  lemma PlainRunsStep<T>(search: Search, P: seq<T>, A: seq<Color>, cells: seq<Color>, k: nat, st: Selection<T>)
    requires IsSearch(search)
    requires |P| == |A| && k <= |cells|
    requires PlainRuns(search, P, A, cells, |cells|)[k] == st
    ensures !st.failed ==> |st.chosen| == k
    ensures k < |cells| ==> PlainRuns(search, P, A, cells, |cells|)[k + 1] == PlainStep(search, P, A, st, cells[k])
  {
    PlainRunsAt(search, P, A, cells, |cells|, k);
    if k < |cells| {
      PlainRunsAt(search, P, A, cells, |cells|, k + 1);
    }
  }

  /** The use-all selections after 0 .. n cells, built one cell at a time. */
  function UseAllRuns<T(==)>(search: Search, P: seq<T>, A: seq<Color>, cells: seq<Color>, n: nat): (runs: seq<Selection<T>>)
    requires IsSearch(search)
    requires |P| == |A| && n <= |cells|
    ensures |runs| == n + 1
    decreases n
  {
    if n == 0 then [UseAllRun(search, P, A, cells, 0)]
    else UseAllRuns(search, P, A, cells, n - 1) + [UseAllRun(search, P, A, cells, n)]
  }

  lemma {:induction false} UseAllRunsAt<T>(search: Search, P: seq<T>, A: seq<Color>, cells: seq<Color>, n: nat, k: nat)
    requires IsSearch(search)
    requires |P| == |A| && k <= n <= |cells|
    ensures UseAllRuns(search, P, A, cells, n)[k] == UseAllRun(search, P, A, cells, k)
    decreases n
  {
    if k < n {
      var prev := UseAllRuns(search, P, A, cells, n - 1);
      UseAllRunsAt(search, P, A, cells, n - 1, k);
      assert UseAllRuns(search, P, A, cells, n)[k] == prev[k];
    }
  }

  /** Cell k of a use-all walk read off the precomputed runs: what holds of the selection before it, and the selection after it. */
  lemma UseAllRunsStep<T>(search: Search, P: seq<T>, A: seq<Color>, cells: seq<Color>, k: nat, st: Selection<T>)
    requires IsSearch(search)
    requires |P| == |A| && k <= |cells|
    requires UseAllRuns(search, P, A, cells, |cells|)[k] == st
    ensures |st.palette| == |st.colors| <= |P| && (forall t :: t in st.palette ==> t in P)
    ensures !st.failed ==> |st.chosen| == k
    ensures k < |cells| ==> UseAllRuns(search, P, A, cells, |cells|)[k + 1] == UseAllStep(search, P, A, st, cells[k])
  {
    UseAllRunsAt(search, P, A, cells, |cells|, k);
    assert st == UseAllRun(search, P, A, cells, k);
    UseAllFromPalette(search, P, A, cells, k);
    if k < |cells| {
      UseAllRunsAt(search, P, A, cells, |cells|, k + 1);
      assert UseAllRuns(search, P, A, cells, |cells|)[k + 1] == UseAllRun(search, P, A, cells, k + 1);
    }
  }

  /** The first cell, the largest, has more pixels than a tile: the first write throws. */
  predicate TooLarge(width: nat, height: nat, grid: nat)
    requires grid >= 1
  {
    InImage(0, 0, width, height) && CellPixels(0, 0, width, height, grid) > TilePixels
  }

  /** Number of cells a run selects a tile for before it stops: all of them, or only the first when its write throws. */
  function StopsAt(width: nat, height: nat, grid: nat): (n: nat)
    requires grid >= 1
    ensures n <= CellCount(width, height, grid)
  {
    if TooLarge(width, height, grid) then
      CellOfBound(0, 0, width, height, grid);
      1
    else CellCount(width, height, grid)
  }

  /**
   * A walk that stopped after cell stop - 1 with `chosen` selected: the run
   * failed at that cell, or the cell was the first one and too large for its
   * tile.
   */
  ghost predicate Stopped<T>(st: Selection<T>, stop: nat, width: nat, height: nat, grid: nat, chosen: seq<T>)
    requires grid >= 1
  {
    && stop >= 1 && (TooLarge(width, height, grid) ==> stop == 1)
    && (st.failed || TooLarge(width, height, grid)) && st.chosen == chosen
  }

  /** A plain walk that stopped early has failed for good, or its first cell was too large. */
  lemma PlainStop<T>(search: Search, P: seq<T>, A: seq<Color>, cells: seq<Color>, stop: nat, width: nat, height: nat, grid: nat, chosen: seq<T>)
    requires IsSearch(search) && grid >= 1 && |P| == |A| && |cells| == CellCount(width, height, grid) && stop <= |cells|
    requires Stopped(PlainRun(search, P, A, cells, stop), stop, width, height, grid, chosen)
    ensures PlainRun(search, P, A, cells, |cells|).failed || TooLarge(width, height, grid)
    ensures PlainRun(search, P, A, cells, StopsAt(width, height, grid)).chosen == chosen
  {
  }

  /** The same for the prevent-juxtaposed walk: a failed run stays as it is. */
  lemma JuxStop<T>(search: Search, P: seq<T>, A: seq<Color>, cells: seq<Color>, draws: seq<int>, stop: nat,
                   width: nat, height: nat, grid: nat, chosen: seq<T>)
    requires IsSearch(search) && grid >= 1 && |P| == |A| && |cells| == CellCount(width, height, grid) && stop <= |cells| <= |draws|
    requires Stopped(JuxRun(search, P, A, cells, draws, stop), stop, width, height, grid, chosen)
    ensures JuxRun(search, P, A, cells, draws, |cells|).failed || TooLarge(width, height, grid)
    ensures JuxRun(search, P, A, cells, draws, StopsAt(width, height, grid)).chosen == chosen
  {
    if !TooLarge(width, height, grid) {
      JuxFailedStays(search, P, A, cells, draws, stop, |cells|);
    }
  }

  /** The same for the use-all walk. */
  lemma UseAllStop<T>(search: Search, P: seq<T>, A: seq<Color>, cells: seq<Color>, stop: nat, width: nat, height: nat, grid: nat, chosen: seq<T>)
    requires IsSearch(search) && grid >= 1 && |P| == |A| && |cells| == CellCount(width, height, grid) && stop <= |cells|
    requires Stopped(UseAllRun(search, P, A, cells, stop), stop, width, height, grid, chosen)
    ensures UseAllRun(search, P, A, cells, |cells|).failed || TooLarge(width, height, grid)
    ensures UseAllRun(search, P, A, cells, StopsAt(width, height, grid)).chosen == chosen
  {
    if !TooLarge(width, height, grid) {
      UseAllFailedStays(search, P, A, cells, stop, |cells|);
    }
  }

  /** The average colours CalculateAverageColorOfPalette computes for a palette of tile buffers. */
  function Averages(palette: seq<array<byte>>): (colors: seq<Color>)
    reads set t | t in palette
    requires forall t :: t in palette ==> t.Length >= TileBytes
    ensures |colors| == |palette|
  {
    TilesOfFit(palette);
    PaletteAverages(TilesOf(palette))
  }

  // The three policies with FindIndexOfClosestColor as their search.

  function Plain(P: seq<array<byte>>, A: seq<Color>, cells: seq<Color>, n: nat): Selection<array<byte>>
    requires |P| == |A| && n <= |cells|
  {
    ClosestIsSearch();
    PlainRun(FindIndexOfClosestColor, P, A, cells, n)
  }

  function Jux(P: seq<array<byte>>, A: seq<Color>, cells: seq<Color>, draws: seq<int>, n: nat): Selection<array<byte>>
    requires |P| == |A| && n <= |cells| && n <= |draws|
  {
    ClosestIsSearch();
    JuxRun(FindIndexOfClosestColor, P, A, cells, draws, n)
  }

  function UseAll(P: seq<array<byte>>, A: seq<Color>, cells: seq<Color>, n: nat): Selection<array<byte>>
    requires |P| == |A| && n <= |cells|
  {
    ClosestIsSearch();
    UseAllRun(FindIndexOfClosestColor, P, A, cells, n)
  }

  // ---------------------------------------------------------------------------
  // Lemmas about single cells

  lemma TilesOfFit(palette: seq<array<byte>>)
    requires forall t :: t in palette ==> t.Length >= TileBytes
    ensures AllTiles(TilesOf(palette))
  {
    var tiles := TilesOf(palette);
    forall k | 0 <= k < |tiles| ensures |tiles[k]| >= TileBytes {
      assert palette[k] in palette;
    }
  }

  lemma TilesOfAppend(ts: seq<array<byte>>, t: array<byte>)
    ensures TilesOf(ts + [t]) == TilesOf(ts) + [t[..]]
  {
    var l, r := TilesOf(ts + [t]), TilesOf(ts) + [t[..]];
    assert |l| == |r|;
    forall k | 0 <= k < |l| ensures l[k] == r[k] {
      if k < |ts| {
        assert (ts + [t])[k] == ts[k];
      }
    }
  }

  /** Every pixel of a clipped cell has a slot below the cell's pixel count. */
  lemma SlotInCell(x: nat, y: nat, i: nat, j: nat, width: nat, height: nat, grid: nat)
    requires grid >= 1 && InImage(i, j, width, height) && InImage(x, y, width, height) && InCell(x, y, i, j, grid)
    ensures 0 <= Slot(x, y, i, j, grid, width) < CellPixels(i, j, width, height, grid)
  {
    var cw := CellEnd(j, grid, width) - j;
    var rows := CellEnd(i, grid, height) - i;
    MulMono(0, x - i, cw);
    MulMono(x - i + 1, rows, cw);
    MulSucc(x - i, cw);
  }

  /** No cell has more pixels than the first. */
  lemma CellPixelsAtMostFirst(i: nat, j: nat, width: nat, height: nat, grid: nat)
    requires grid >= 1 && InImage(i, j, width, height)
    ensures InImage(0, 0, width, height)
    ensures CellPixels(i, j, width, height, grid) <= CellPixels(0, 0, width, height, grid)
  {
    var rows, cols := CellEnd(i, grid, height) - i, CellEnd(j, grid, width) - j;
    var rows0, cols0 := CellEnd(0, grid, height), CellEnd(0, grid, width);
    MulMono(rows, rows0, cols);
    assert cols * rows0 <= cols0 * rows0 by { MulMono(cols, cols0, rows0); }
  }

  /** Writing list entry `count` at the pixel whose slot is `count` extends the written prefix of the cell by one. */
  lemma PourStep(t: seq<byte>, u: seq<byte>, s: seq<byte>, width: nat, height: nat, grid: nat, i: nat, j: nat,
                 colors: seq<Color>, hp: nat, wp: nat, count: nat)
    requires grid >= 1 && InImage(hp, wp, width, height) && InCell(hp, wp, i, j, grid)
    requires count == Slot(hp, wp, i, j, grid, width) && count < |colors|
    requires CellPouredBefore(u, s, width, height, grid, i, j, colors, count)
    requires KeepsAlphaAndTail(t, s, width, height) && |u| == |t|
    requires PixelAt(t, hp, wp, width, height) == colors[count]
    requires forall x, y :: InImage(x, y, width, height) && (x, y) != (hp, wp) ==> PixelAt(t, x, y, width, height) == PixelAt(u, x, y, width, height)
    ensures CellPouredBefore(t, s, width, height, grid, i, j, colors, count + 1)
  {
    var cw := CellEnd(j, grid, width) - j;
    forall x, y | InImage(x, y, width, height) && InCell(x, y, i, j, grid)
      ensures Slot(x, y, i, j, grid, width) == count <==> (x, y) == (hp, wp)
    {
      MixedRadix(x - i, y - j, hp - i, wp - j, cw);
    }
  }

  /** Once all of a cell's pixels are written, the limit can be raised to the length of the list. */
  lemma PourWiden(t: seq<byte>, s: seq<byte>, width: nat, height: nat, grid: nat, i: nat, j: nat, colors: seq<Color>, count: nat)
    requires grid >= 1 && InImage(i, j, width, height)
    requires count == CellPixels(i, j, width, height, grid) <= |colors|
    requires CellPouredBefore(t, s, width, height, grid, i, j, colors, count)
    ensures CellPouredBefore(t, s, width, height, grid, i, j, colors, |colors|)
  {
    forall x, y | InImage(x, y, width, height) && InCell(x, y, i, j, grid)
      ensures Slot(x, y, i, j, grid, width) < count
    {
      SlotInCell(x, y, i, j, width, height, grid);
    }
  }

  /**
   * The cell numbered k = r * Cols + c is anchored at (r * grid, c * grid);
   * until it is written its anchor pixel is the original one.
   */
  lemma TiledAnchorUnvisited(t: seq<byte>, s: seq<byte>, width: nat, height: nat, grid: nat, tiles: seq<seq<byte>>, r: nat, c: nat)
    requires grid >= 1 && |s| >= width * height * 4
    requires TiledBefore(t, s, width, height, grid, tiles)
    requires InImage(r * grid, c * grid, width, height) && |tiles| == r * Cols(width, grid) + c
    ensures |tiles| < CellCount(width, height, grid)
    ensures PixelAt(t, r * grid, c * grid, width, height) == PixelAt(s, r * grid, c * grid, width, height)
    ensures CellsOf(s, width, height, grid)[|tiles|] == Cell(PixelAt(s, r * grid, c * grid, width, height), CellPixels(r * grid, c * grid, width, height, grid))
  {
    ColsBound(c, width, grid);
    CellOfInCell(r * grid, c * grid, r, c, width, height, grid);
    CellOfBound(r * grid, c * grid, width, height, grid);
    AnchorOf(r, c, width, grid);
    CellsOfAt(s, width, height, grid, |tiles|);
  }

  /** Writing tile `tile` into the next cell extends the tiled prefix by that tile. */
  lemma TileStep(t: seq<byte>, u: seq<byte>, s: seq<byte>, width: nat, height: nat, grid: nat,
                 tiles: seq<seq<byte>>, tile: seq<byte>, r: nat, c: nat)
    requires grid >= 1 && |s| >= width * height * 4 && |tile| >= TileBytes
    requires TiledBefore(u, s, width, height, grid, tiles)
    requires c < Cols(width, grid) && |tiles| == r * Cols(width, grid) + c
    requires CellPouredBefore(t, u, width, height, grid, r * grid, c * grid, TileColors(tile), TilePixels)
    ensures TiledBefore(t, s, width, height, grid, tiles + [tile])
  {
    KeepsTransitive(t, u, s, width, height);
    var tiles' := tiles + [tile];
    assert AllTiles(tiles');
    forall x: nat, y: nat | InImage(x, y, width, height)
      ensures PixelAt(t, x, y, width, height) ==
        if CellOf(x, y, width, grid) < |tiles'| then TiledPixel(tiles', s, width, height, grid, x, y) else PixelAt(s, x, y, width, height)
    {
      CellOfInCell(x, y, r, c, width, height, grid);
      if InCell(x, y, r * grid, c * grid, grid) {
        ModOf(x, r, grid);
        ModOf(y, c, grid);
        assert Slot(x, y, (x / grid) * grid, (y / grid) * grid, grid, width) == Slot(x, y, r * grid, c * grid, grid, width);
      } else if CellOf(x, y, width, grid) < |tiles| {
        assert TiledPixel(tiles', s, width, height, grid, x, y) == TiledPixel(tiles, s, width, height, grid, x, y);
      }
    }
  }

  // ---------------------------------------------------------------------------
  // Lemmas about whole mosaics

  /**
   * With cells as large as the tiles, a full cell shows its tile unchanged:
   * pixel (x, y) shows tile pixel (x % 50, y % 50).
   */
  lemma FullCellShowsTile(tiles: seq<seq<byte>>, s: seq<byte>, width: nat, height: nat, x: nat, y: nat)
    requires |s| >= width * height * 4 && InImage(x, y, width, height)
    requires AllTiles(tiles) && CellOf(x, y, width, TileSide) < |tiles|
    requires (y / TileSide) * TileSide + TileSide <= width
    ensures TiledPixel(tiles, s, width, height, TileSide, x, y) ==
      TilePixel(tiles[CellOf(x, y, width, TileSide)], (x % TileSide) * TileSide + y % TileSide)
  {
    var q := x / TileSide;
    DivRange(x, q, TileSide);
    DivRange(y, y / TileSide, TileSide);
  }

  /**
   * With cells narrower than the tiles the tile is poured, not cropped: the
   * pixel in the second row and first column of a full-width cell shows tile
   * pixel number `grid`, which lies in the tile's first row (at column grid);
   * a crop would show the tile's second row.
   */
  lemma NarrowCellPoursTile(tiles: seq<seq<byte>>, s: seq<byte>, width: nat, height: nat, grid: nat, x: nat, y: nat)
    requires 2 <= grid < TileSide && |s| >= width * height * 4 && InImage(x, y, width, height)
    requires AllTiles(tiles) && CellOf(x, y, width, grid) < |tiles|
    requires x % grid == 1 && y % grid == 0 && (y / grid) * grid + grid <= width
    ensures TiledPixel(tiles, s, width, height, grid, x, y) == TilePixel(tiles[CellOf(x, y, width, grid)], grid)
    ensures grid / TileSide == 0 && grid % TileSide == grid
  {
    assert x - (x / grid) * grid == 1;
    assert y - (y / grid) * grid == 0;
    ModOf(grid, 0, TileSide);
  }

  // ---------------------------------------------------------------------------
  // The PictureMosaic class

  class PictureMosaic {
    /** The buffer the tiles are written into; it is the caller's buffer, not a copy. */
    const ImagePixels: array<byte>
    /** The tile buffers, in palette order (the list is a copy, the buffers are shared). */
    const MosaicPalette: seq<array<byte>>

    constructor(sourcePixels: array<byte>, sourceImagePalette: seq<array<byte>>)
      ensures ImagePixels == sourcePixels && MosaicPalette == sourceImagePalette
    {
      ImagePixels := sourcePixels;
      MosaicPalette := sourceImagePalette;
    }

    /** Every tile holds 50 x 50 pixels and is a buffer of its own, not the image. */
    predicate TilesFit() {
      forall t :: t in MosaicPalette ==> t.Length >= TileBytes && t != ImagePixels
    }

    /**
     * The state of a cell walk after |chosen| cells, apart from the image:
     * the chosen tiles are palette tiles, the first cell was not too large
     * if anything was written, and the accumulators hold the carry of those
     * cells. The image itself is described by TiledBefore.
     */
    ghost predicate InProgress(width: nat, height: nat, grid: nat, orig: seq<byte>, chosen: seq<array<byte>>,
                               red: nat, green: nat, blue: nat, total: nat)
      requires grid >= 1 && |orig| >= width * height * 4
    {
      && (forall t :: t in chosen ==> t in MosaicPalette)
      && |chosen| <= CellCount(width, height, grid)
      && (|chosen| > 0 ==> !TooLarge(width, height, grid))
      && total == 0 && Acc(red, green, blue) == Carries(orig, width, height, grid)[|chosen|]
    }

    /**
     * CreatePictureMosaic: every cell gets the palette tile whose average is
     * the first closest to the cell's colour. It throws on an empty palette
     * (at the first cell, before any write) and on a first cell larger than a
     * tile (after writing its first 2500 pixels).
     */
    method CreatePictureMosaic(imageWidth: nat, imageHeight: nat, grid: nat) returns (completed: bool)
      requires grid >= 1 && ImagePixels.Length >= imageWidth * imageHeight * 4 && TilesFit()
      modifies ImagePixels
      ensures var cells := CellColors(old(ImagePixels[..]), imageWidth, imageHeight, grid);
              var A := old(Averages(MosaicPalette));
              && (completed <==> !Plain(MosaicPalette, A, cells, |cells|).failed && !TooLarge(imageWidth, imageHeight, grid))
              && TiledBefore(ImagePixels[..], old(ImagePixels[..]), imageWidth, imageHeight, grid,
                             TilesOf(Plain(MosaicPalette, A, cells, StopsAt(imageWidth, imageHeight, grid)).chosen))
    {
      var averages := CalculateAverageColorOfPalette(MosaicPalette);
      assert PaletteFits(MosaicPalette);
      var averageColors := averages.value;
      ClosestIsSearch();
      completed := this.PlainWalk(FindIndexOfClosestColor, imageWidth, imageHeight, grid, averageColors);
    }

    /** CreatePictureMosaic's row loop, for any search that keeps FindIndexOfClosestColor's contract. */
    method PlainWalk(search: Search, imageWidth: nat, imageHeight: nat, grid: nat, averageColors: seq<Color>) returns (completed: bool)
      requires IsSearch(search)
      requires grid >= 1 && ImagePixels.Length >= imageWidth * imageHeight * 4 && TilesFit()
      requires |averageColors| == |MosaicPalette|
      modifies ImagePixels
      ensures var cells := CellColors(old(ImagePixels[..]), imageWidth, imageHeight, grid);
              && (completed <==> !PlainRun(search, MosaicPalette, averageColors, cells, |cells|).failed && !TooLarge(imageWidth, imageHeight, grid))
              && TiledBefore(ImagePixels[..], old(ImagePixels[..]), imageWidth, imageHeight, grid,
                             TilesOf(PlainRun(search, MosaicPalette, averageColors, cells, StopsAt(imageWidth, imageHeight, grid)).chosen))
    {
      ghost var orig := ImagePixels[..];
      ghost var cells := CellColors(orig, imageWidth, imageHeight, grid);
      CarriesUpToAt(CellsOf(orig, imageWidth, imageHeight, grid), CellCount(imageWidth, imageHeight, grid), 0);
      ghost var runs := PlainRuns(search, MosaicPalette, averageColors, cells, |cells|);
      PlainRunsAt(search, MosaicPalette, averageColors, cells, |cells|, 0);
      ghost var cols := Cols(imageWidth, grid);
      var red: nat, green: nat, blue: nat, total: nat := 0, 0, 0, 0;
      ghost var chosen: seq<array<byte>> := [];
      ghost var k: nat, r: nat := 0, 0;
      var i := 0;
      while i < imageHeight
        invariant i == r * grid && k == r * cols && r <= Rows(imageHeight, grid) && k <= |cells|
        invariant Holds(runs[k], MosaicPalette, averageColors, 0, chosen)
        invariant InProgress(imageWidth, imageHeight, grid, orig, chosen, red, green, blue, total)
        invariant TiledBefore(ImagePixels[..], orig, imageWidth, imageHeight, grid, TilesOf(chosen))
      {
        RowsBound(r, imageHeight, grid);
        MulMono(r + 1, Rows(imageHeight, grid), cols);
        MulSucc(r, cols);
        MulSucc(r, grid);
        var ok;
        ghost var stop;
        ok, red, green, blue, total, chosen, stop :=
          this.PlainRow(search, imageWidth, imageHeight, grid, averageColors, red, green, blue, total, i, orig, cells, runs, cols, k, r, k + cols, chosen);
        if !ok {
          PlainRunsAt(search, MosaicPalette, averageColors, cells, |cells|, stop);
          PlainStop(search, MosaicPalette, averageColors, cells, stop, imageWidth, imageHeight, grid, chosen);
          return false;
        }
        i := i + grid;
        r, k := r + 1, k + cols;
      }
      RowsBound(r, imageHeight, grid);
      PlainRunsAt(search, MosaicPalette, averageColors, cells, |cells|, |cells|);
      if TooLarge(imageWidth, imageHeight, grid) {
        CellOfBound(0, 0, imageWidth, imageHeight, grid);
      }
      completed := true;
    }

    /** One pass of CreatePictureMosaic's column loop: cells k .. next - 1 of row r. */
    method PlainRow(search: Search, imageWidth: nat, imageHeight: nat, grid: nat, averageColors: seq<Color>,
                    red: nat, green: nat, blue: nat, total: nat, i: nat,
                    ghost orig: seq<byte>, ghost cells: seq<Color>, ghost runs: seq<Selection<array<byte>>>, ghost cols: nat, ghost k: nat, ghost r: nat, ghost next: nat,
                    ghost chosen: seq<array<byte>>)
      returns (ok: bool, red': nat, green': nat, blue': nat, total': nat, ghost chosen': seq<array<byte>>, ghost stop: nat)
      requires IsSearch(search)
      requires grid >= 1 && ImagePixels.Length >= imageWidth * imageHeight * 4 && |orig| == ImagePixels.Length && TilesFit()
      requires |averageColors| == |MosaicPalette|
      requires cells == CellColors(orig, imageWidth, imageHeight, grid) && cols == Cols(imageWidth, grid)
      requires runs == PlainRuns(search, MosaicPalette, averageColors, cells, |cells|)
      requires i == r * grid && i < imageHeight && k == r * cols && next == k + cols && next <= |cells|
      requires Holds(runs[k], MosaicPalette, averageColors, 0, chosen)
      requires InProgress(imageWidth, imageHeight, grid, orig, chosen, red, green, blue, total)
      requires TiledBefore(ImagePixels[..], orig, imageWidth, imageHeight, grid, TilesOf(chosen))
      modifies ImagePixels
      ensures TiledBefore(ImagePixels[..], orig, imageWidth, imageHeight, grid, TilesOf(chosen'))
      ensures ok ==> Holds(runs[next], MosaicPalette, averageColors, 0, chosen')
      ensures ok ==> InProgress(imageWidth, imageHeight, grid, orig, chosen', red', green', blue', total')
      ensures !ok ==> stop <= |cells| && Stopped(runs[stop], stop, imageWidth, imageHeight, grid, chosen')
    {
      red', green', blue', total', chosen', stop := red, green, blue, total, chosen, 0;
      var j := 0;
      ghost var c: nat, n: nat := 0, k;
      while j < imageWidth
        invariant j == c * grid && c <= cols && n == k + c
        invariant Holds(runs[n], MosaicPalette, averageColors, 0, chosen')
        invariant InProgress(imageWidth, imageHeight, grid, orig, chosen', red', green', blue', total')
        invariant TiledBefore(ImagePixels[..], orig, imageWidth, imageHeight, grid, TilesOf(chosen'))
      {
        ColsBound(c, imageWidth, grid);
        ok, red', green', blue', total', chosen' :=
          this.PlainCell(search, imageWidth, imageHeight, grid, averageColors, red', green', blue', total', i, j, orig, cells, runs, n, r, c, chosen');
        if !ok {
          stop := n + 1;
          return;
        }
        MulSucc(c, grid);
        j := j + grid;
        c, n := c + 1, n + 1;
      }
      ColsBound(c, imageWidth, grid);
      assert n == next;
      ok := true;
    }

    /** The body of CreatePictureMosaic's cell loop: average, search the whole palette, write the tile. */
    method PlainCell(search: Search, imageWidth: nat, imageHeight: nat, grid: nat, averageColors: seq<Color>,
                     red: nat, green: nat, blue: nat, total: nat, i: nat, j: nat,
                     ghost orig: seq<byte>, ghost cells: seq<Color>, ghost runs: seq<Selection<array<byte>>>, ghost k: nat, ghost r: nat, ghost c: nat,
                     ghost chosen: seq<array<byte>>)
      returns (ok: bool, red': nat, green': nat, blue': nat, total': nat, ghost chosen': seq<array<byte>>)
      requires IsSearch(search)
      requires grid >= 1 && ImagePixels.Length >= imageWidth * imageHeight * 4 && |orig| == ImagePixels.Length && TilesFit()
      requires |averageColors| == |MosaicPalette|
      requires cells == CellColors(orig, imageWidth, imageHeight, grid) && runs == PlainRuns(search, MosaicPalette, averageColors, cells, |cells|)
      requires i == r * grid && j == c * grid && InImage(i, j, imageWidth, imageHeight) && k == r * Cols(imageWidth, grid) + c
      requires k <= |cells| && Holds(runs[k], MosaicPalette, averageColors, 0, chosen)
      requires InProgress(imageWidth, imageHeight, grid, orig, chosen, red, green, blue, total)
      requires TiledBefore(ImagePixels[..], orig, imageWidth, imageHeight, grid, TilesOf(chosen))
      modifies ImagePixels
      ensures k < |cells|
      ensures TiledBefore(ImagePixels[..], orig, imageWidth, imageHeight, grid, TilesOf(chosen'))
      ensures ok ==> Holds(runs[k + 1], MosaicPalette, averageColors, 0, chosen')
      ensures ok ==> InProgress(imageWidth, imageHeight, grid, orig, chosen', red', green', blue', total')
      ensures !ok ==> Stopped(runs[k + 1], k + 1, imageWidth, imageHeight, grid, chosen')
    {
      PlainRunsStep(search, MosaicPalette, averageColors, cells, k, Selection(MosaicPalette, averageColors, 0, chosen, false));
      var color;
      color, red', green', blue', total' := this.CellColor(imageWidth, imageHeight, grid, red, green, blue, total, i, j, orig, chosen, r, c);
      match search(averageColors, color)
      case None =>
        ok, chosen' := false, chosen;
      case Some(idx) =>
        var closestImage := MosaicPalette[idx];
        ok := this.TileCell(imageWidth, imageHeight, grid, i, j, closestImage, orig, chosen, r, c);
        chosen' := chosen + [closestImage];
        assert Holds(runs[k + 1], MosaicPalette, averageColors, 0, chosen');
    }

    /**
     * CreatePictureMosaicPreventJuxtaposed, with draws[k] the value
     * Random.Next(2, 7) returns at cell k: the closest tile of a shrinking
     * working copy, which is reset to the whole palette whenever the count of
     * images since the last reset reaches the draw.
     */
    method CreatePictureMosaicPreventJuxtaposed(imageWidth: nat, imageHeight: nat, grid: nat, draws: seq<int>) returns (completed: bool)
      requires grid >= 1 && ImagePixels.Length >= imageWidth * imageHeight * 4 && TilesFit()
      requires |draws| >= CellCount(imageWidth, imageHeight, grid)
      modifies ImagePixels
      ensures var cells := CellColors(old(ImagePixels[..]), imageWidth, imageHeight, grid);
              var A := old(Averages(MosaicPalette));
              && (completed <==> !Jux(MosaicPalette, A, cells, draws, |cells|).failed && !TooLarge(imageWidth, imageHeight, grid))
              && TiledBefore(ImagePixels[..], old(ImagePixels[..]), imageWidth, imageHeight, grid,
                             TilesOf(Jux(MosaicPalette, A, cells, draws, StopsAt(imageWidth, imageHeight, grid)).chosen))
    {
      var averages := CalculateAverageColorOfPalette(MosaicPalette);
      assert PaletteFits(MosaicPalette);
      var averageColors := averages.value;
      ClosestIsSearch();
      completed := this.JuxWalk(FindIndexOfClosestColor, imageWidth, imageHeight, grid, draws, averageColors);
    }

    /** CreatePictureMosaicPreventJuxtaposed's row loop, for any search that keeps FindIndexOfClosestColor's contract. */
    method JuxWalk(search: Search, imageWidth: nat, imageHeight: nat, grid: nat, draws: seq<int>, averageColors: seq<Color>) returns (completed: bool)
      requires IsSearch(search)
      requires grid >= 1 && ImagePixels.Length >= imageWidth * imageHeight * 4 && TilesFit()
      requires |draws| >= CellCount(imageWidth, imageHeight, grid)
      requires |averageColors| == |MosaicPalette|
      modifies ImagePixels
      ensures var cells := CellColors(old(ImagePixels[..]), imageWidth, imageHeight, grid);
              && (completed <==> !JuxRun(search, MosaicPalette, averageColors, cells, draws, |cells|).failed && !TooLarge(imageWidth, imageHeight, grid))
              && TiledBefore(ImagePixels[..], old(ImagePixels[..]), imageWidth, imageHeight, grid,
                             TilesOf(JuxRun(search, MosaicPalette, averageColors, cells, draws, StopsAt(imageWidth, imageHeight, grid)).chosen))
    {
      ghost var orig := ImagePixels[..];
      var copyOfPalette := CreateCopyOfList(MosaicPalette);
      var copyOfColors := CreateCopyOfList(averageColors);
      ghost var cells := CellColors(orig, imageWidth, imageHeight, grid);
      CarriesUpToAt(CellsOf(orig, imageWidth, imageHeight, grid), CellCount(imageWidth, imageHeight, grid), 0);
      ghost var runs := JuxRuns(search, MosaicPalette, averageColors, cells, draws, |cells|);
      JuxRunsAt(search, MosaicPalette, averageColors, cells, draws, |cells|, 0);
      ghost var cols := Cols(imageWidth, grid);
      var red: nat, green: nat, blue: nat, total: nat := 0, 0, 0, 0;
      var usedImages: nat := 0;
      var drawn: nat := 0;
      ghost var chosen: seq<array<byte>> := [];
      ghost var r: nat := 0;
      var i := 0;
      while i < imageHeight
        invariant i == r * grid && drawn == r * cols && r <= Rows(imageHeight, grid) && drawn <= |cells|
        invariant Holds(runs[drawn], copyOfPalette, copyOfColors, usedImages, chosen)
        invariant InProgress(imageWidth, imageHeight, grid, orig, chosen, red, green, blue, total)
        invariant TiledBefore(ImagePixels[..], orig, imageWidth, imageHeight, grid, TilesOf(chosen))
      {
        RowsBound(r, imageHeight, grid);
        MulMono(r + 1, Rows(imageHeight, grid), cols);
        MulSucc(r, cols);
        MulSucc(r, grid);
        var ok;
        ghost var stop;
        ok, red, green, blue, total, copyOfPalette, copyOfColors, usedImages, drawn, chosen, stop :=
          this.JuxRow(search, imageWidth, imageHeight, grid, draws, averageColors, red, green, blue, total,
                      copyOfPalette, copyOfColors, usedImages, drawn, i, orig, cells, runs, cols, r, drawn + cols, chosen);
        if !ok {
          JuxRunsAt(search, MosaicPalette, averageColors, cells, draws, |cells|, stop);
          JuxStop(search, MosaicPalette, averageColors, cells, draws, stop, imageWidth, imageHeight, grid, chosen);
          return false;
        }
        i := i + grid;
        r := r + 1;
      }
      RowsBound(r, imageHeight, grid);
      JuxRunsAt(search, MosaicPalette, averageColors, cells, draws, |cells|, |cells|);
      if TooLarge(imageWidth, imageHeight, grid) {
        CellOfBound(0, 0, imageWidth, imageHeight, grid);
      }
      completed := true;
    }

    /**
     * One pass of CreatePictureMosaicPreventJuxtaposed's column loop: cells
     * drawn .. next - 1 of row r, where `drawn` counts the cells (and random
     * draws) so far.
     */
    method JuxRow(search: Search, imageWidth: nat, imageHeight: nat, grid: nat, draws: seq<int>, averageColors: seq<Color>,
                  red: nat, green: nat, blue: nat, total: nat,
                  copyOfPalette: seq<array<byte>>, copyOfColors: seq<Color>, usedImages: nat, drawn: nat, i: nat,
                  ghost orig: seq<byte>, ghost cells: seq<Color>, ghost runs: seq<Selection<array<byte>>>, ghost cols: nat, ghost r: nat, ghost next: nat,
                  ghost chosen: seq<array<byte>>)
      returns (ok: bool, red': nat, green': nat, blue': nat, total': nat,
               copyOfPalette': seq<array<byte>>, copyOfColors': seq<Color>, usedImages': nat, drawn': nat, ghost chosen': seq<array<byte>>, ghost stop: nat)
      requires IsSearch(search)
      requires grid >= 1 && ImagePixels.Length >= imageWidth * imageHeight * 4 && |orig| == ImagePixels.Length && TilesFit()
      requires |averageColors| == |MosaicPalette| && |draws| >= |cells|
      requires cells == CellColors(orig, imageWidth, imageHeight, grid) && cols == Cols(imageWidth, grid)
      requires runs == JuxRuns(search, MosaicPalette, averageColors, cells, draws, |cells|)
      requires i == r * grid && i < imageHeight && drawn == r * cols && next == drawn + cols && next <= |cells|
      requires Holds(runs[drawn], copyOfPalette, copyOfColors, usedImages, chosen)
      requires InProgress(imageWidth, imageHeight, grid, orig, chosen, red, green, blue, total)
      requires TiledBefore(ImagePixels[..], orig, imageWidth, imageHeight, grid, TilesOf(chosen))
      modifies ImagePixels
      ensures TiledBefore(ImagePixels[..], orig, imageWidth, imageHeight, grid, TilesOf(chosen'))
      ensures ok ==> drawn' == next
      ensures ok ==> Holds(runs[next], copyOfPalette', copyOfColors', usedImages', chosen')
      ensures ok ==> InProgress(imageWidth, imageHeight, grid, orig, chosen', red', green', blue', total')
      ensures !ok ==> stop <= |cells| && Stopped(runs[stop], stop, imageWidth, imageHeight, grid, chosen')
    {
      red', green', blue', total', chosen', stop := red, green, blue, total, chosen, 0;
      copyOfPalette', copyOfColors', usedImages', drawn' := copyOfPalette, copyOfColors, usedImages, drawn;
      var j := 0;
      ghost var c: nat := 0;
      while j < imageWidth
        invariant j == c * grid && c <= cols && drawn' == drawn + c
        invariant Holds(runs[drawn'], copyOfPalette', copyOfColors', usedImages', chosen')
        invariant InProgress(imageWidth, imageHeight, grid, orig, chosen', red', green', blue', total')
        invariant TiledBefore(ImagePixels[..], orig, imageWidth, imageHeight, grid, TilesOf(chosen'))
      {
        ColsBound(c, imageWidth, grid);
        ok, red', green', blue', total', copyOfPalette', copyOfColors', usedImages', chosen' :=
          this.JuxCell(search, imageWidth, imageHeight, grid, draws, averageColors, red', green', blue', total',
                       copyOfPalette', copyOfColors', usedImages', drawn', i, j, orig, cells, runs, r, c, chosen');
        if !ok {
          stop := drawn' + 1;
          return;
        }
        MulSucc(c, grid);
        j := j + grid;
        c, drawn' := c + 1, drawn' + 1;
      }
      ColsBound(c, imageWidth, grid);
      ok := true;
    }

    /**
     * The body of CreatePictureMosaicPreventJuxtaposed's cell loop (cell k):
     * average, search the working copy, count the image, reset the working
     * copy when the count reaches the draw, remove the tile and the index,
     * write.
     */
    method JuxCell(search: Search, imageWidth: nat, imageHeight: nat, grid: nat, draws: seq<int>, averageColors: seq<Color>,
                   red: nat, green: nat, blue: nat, total: nat,
                   copyOfPalette: seq<array<byte>>, copyOfColors: seq<Color>, usedImages: nat, k: nat, i: nat, j: nat,
                   ghost orig: seq<byte>, ghost cells: seq<Color>, ghost runs: seq<Selection<array<byte>>>, ghost r: nat, ghost c: nat,
                   ghost chosen: seq<array<byte>>)
      returns (ok: bool, red': nat, green': nat, blue': nat, total': nat,
               copyOfPalette': seq<array<byte>>, copyOfColors': seq<Color>, usedImages': nat, ghost chosen': seq<array<byte>>)
      requires IsSearch(search)
      requires grid >= 1 && ImagePixels.Length >= imageWidth * imageHeight * 4 && |orig| == ImagePixels.Length && TilesFit()
      requires |averageColors| == |MosaicPalette| && |draws| >= |cells|
      requires cells == CellColors(orig, imageWidth, imageHeight, grid) && runs == JuxRuns(search, MosaicPalette, averageColors, cells, draws, |cells|)
      requires i == r * grid && j == c * grid && InImage(i, j, imageWidth, imageHeight) && k == r * Cols(imageWidth, grid) + c
      requires k <= |cells| && Holds(runs[k], copyOfPalette, copyOfColors, usedImages, chosen)
      requires InProgress(imageWidth, imageHeight, grid, orig, chosen, red, green, blue, total)
      requires TiledBefore(ImagePixels[..], orig, imageWidth, imageHeight, grid, TilesOf(chosen))
      modifies ImagePixels
      ensures k < |cells|
      ensures TiledBefore(ImagePixels[..], orig, imageWidth, imageHeight, grid, TilesOf(chosen'))
      ensures ok ==> Holds(runs[k + 1], copyOfPalette', copyOfColors', usedImages', chosen')
      ensures ok ==> InProgress(imageWidth, imageHeight, grid, orig, chosen', red', green', blue', total')
      ensures !ok ==> Stopped(runs[k + 1], k + 1, imageWidth, imageHeight, grid, chosen')
    {
      JuxRunsStep(search, MosaicPalette, averageColors, cells, draws, k, Selection(copyOfPalette, copyOfColors, usedImages, chosen, false));
      var color;
      color, red', green', blue', total' := this.CellColor(imageWidth, imageHeight, grid, red, green, blue, total, i, j, orig, chosen, r, c);
      var closest;
      closest, copyOfPalette', copyOfColors', usedImages' := this.JuxSelect(search, averageColors, copyOfPalette, copyOfColors, usedImages, draws[k], color, chosen);
      match closest {
      case None =>
        ok, chosen' := false, chosen;
      case Some(closestImage) =>
        ok := this.TileCell(imageWidth, imageHeight, grid, i, j, closestImage, orig, chosen, r, c);
        chosen' := chosen + [closestImage];
      }
    }

    /**
     * The selection in a cell of CreatePictureMosaicPreventJuxtaposed: the
     * closest tile of the working copy; when the count of images since the
     * last reset reaches the draw, both copies are reset to the whole
     * palette; then the chosen entry is removed from both.
     */
    method JuxSelect(search: Search, averageColors: seq<Color>, copyOfPalette: seq<array<byte>>, copyOfColors: seq<Color>,
                     usedImages: nat, draw: int, color: Color, ghost chosen: seq<array<byte>>)
      returns (closest: Option<array<byte>>, copyOfPalette': seq<array<byte>>, copyOfColors': seq<Color>, usedImages': nat)
      requires IsSearch(search) && |averageColors| == |MosaicPalette|
      requires |copyOfPalette| == |copyOfColors| <= |MosaicPalette| && forall t :: t in copyOfPalette ==> t in MosaicPalette
      ensures var st := JuxStep(search, MosaicPalette, averageColors, Selection(copyOfPalette, copyOfColors, usedImages, chosen, false), color, draw);
              && (closest.None? <==> st.failed)
              && (closest.Some? ==> closest.value in MosaicPalette &&
                                    Holds(st, copyOfPalette', copyOfColors', usedImages', chosen + [closest.value]))
    {
      copyOfPalette', copyOfColors', usedImages' := copyOfPalette, copyOfColors, usedImages;
      match search(copyOfColors, color)
      case None =>
        closest := None;
      case Some(idx) =>
        var closestImage := copyOfPalette[idx];
        assert closestImage in MosaicPalette;
        usedImages' := usedImages + 1;
        if usedImages' >= draw {
          copyOfPalette' := CreateCopyOfList(MosaicPalette);
          copyOfColors' := CreateCopyOfList(averageColors);
          usedImages' := 0;
        }
        copyOfPalette' := RemoveFirst(copyOfPalette', closestImage);
        copyOfColors' := RemoveAt(copyOfColors', idx);
        closest := Some(closestImage);
    }

    /**
     * CreatePictureMosaicUsingAllImagesBeforeRepeat: the closest tile of a
     * shrinking working copy, refilled with the whole palette when it is
     * empty at the start of a cell.
     */
    method CreatePictureMosaicUsingAllImagesBeforeRepeat(imageWidth: nat, imageHeight: nat, grid: nat) returns (completed: bool)
      requires grid >= 1 && ImagePixels.Length >= imageWidth * imageHeight * 4 && TilesFit()
      modifies ImagePixels
      ensures var cells := CellColors(old(ImagePixels[..]), imageWidth, imageHeight, grid);
              var A := old(Averages(MosaicPalette));
              && (completed <==> !UseAll(MosaicPalette, A, cells, |cells|).failed && !TooLarge(imageWidth, imageHeight, grid))
              && TiledBefore(ImagePixels[..], old(ImagePixels[..]), imageWidth, imageHeight, grid,
                             TilesOf(UseAll(MosaicPalette, A, cells, StopsAt(imageWidth, imageHeight, grid)).chosen))
    {
      var averages := CalculateAverageColorOfPalette(MosaicPalette);
      assert PaletteFits(MosaicPalette);
      var averageColors := averages.value;
      ClosestIsSearch();
      completed := this.UseAllWalk(FindIndexOfClosestColor, imageWidth, imageHeight, grid, averageColors);
    }

    /** CreatePictureMosaicUsingAllImagesBeforeRepeat's row loop, for any search that keeps FindIndexOfClosestColor's contract. */
    method UseAllWalk(search: Search, imageWidth: nat, imageHeight: nat, grid: nat, averageColors: seq<Color>) returns (completed: bool)
      requires IsSearch(search)
      requires grid >= 1 && ImagePixels.Length >= imageWidth * imageHeight * 4 && TilesFit()
      requires |averageColors| == |MosaicPalette|
      modifies ImagePixels
      ensures var cells := CellColors(old(ImagePixels[..]), imageWidth, imageHeight, grid);
              && (completed <==> !UseAllRun(search, MosaicPalette, averageColors, cells, |cells|).failed && !TooLarge(imageWidth, imageHeight, grid))
              && TiledBefore(ImagePixels[..], old(ImagePixels[..]), imageWidth, imageHeight, grid,
                             TilesOf(UseAllRun(search, MosaicPalette, averageColors, cells, StopsAt(imageWidth, imageHeight, grid)).chosen))
    {
      ghost var orig := ImagePixels[..];
      var copyOfPalette := CreateCopyOfList(MosaicPalette);
      var copyOfColors := CreateCopyOfList(averageColors);
      ghost var cells := CellColors(orig, imageWidth, imageHeight, grid);
      CarriesUpToAt(CellsOf(orig, imageWidth, imageHeight, grid), CellCount(imageWidth, imageHeight, grid), 0);
      ghost var runs := UseAllRuns(search, MosaicPalette, averageColors, cells, |cells|);
      UseAllRunsAt(search, MosaicPalette, averageColors, cells, |cells|, 0);
      ghost var cols := Cols(imageWidth, grid);
      var red: nat, green: nat, blue: nat, total: nat := 0, 0, 0, 0;
      ghost var chosen: seq<array<byte>> := [];
      ghost var k: nat, r: nat := 0, 0;
      assert Holds(runs[0], copyOfPalette, copyOfColors, 0, chosen);
      var i := 0;
      while i < imageHeight
        invariant i == r * grid && k == r * cols && r <= Rows(imageHeight, grid) && k <= |cells|
        invariant Holds(runs[k], copyOfPalette, copyOfColors, 0, chosen)
        invariant InProgress(imageWidth, imageHeight, grid, orig, chosen, red, green, blue, total)
        invariant TiledBefore(ImagePixels[..], orig, imageWidth, imageHeight, grid, TilesOf(chosen))
      {
        RowsBound(r, imageHeight, grid);
        MulMono(r + 1, Rows(imageHeight, grid), cols);
        MulSucc(r, cols);
        MulSucc(r, grid);
        var ok;
        ghost var stop;
        ok, red, green, blue, total, copyOfPalette, copyOfColors, chosen, stop :=
          this.UseAllRow(search, imageWidth, imageHeight, grid, averageColors, red, green, blue, total,
                         copyOfPalette, copyOfColors, i, orig, cells, runs, cols, k, r, k + cols, chosen);
        if !ok {
          UseAllRunsAt(search, MosaicPalette, averageColors, cells, |cells|, stop);
          UseAllStop(search, MosaicPalette, averageColors, cells, stop, imageWidth, imageHeight, grid, chosen);
          return false;
        }
        i := i + grid;
        r, k := r + 1, k + cols;
      }
      RowsBound(r, imageHeight, grid);
      UseAllRunsAt(search, MosaicPalette, averageColors, cells, |cells|, |cells|);
      if TooLarge(imageWidth, imageHeight, grid) {
        CellOfBound(0, 0, imageWidth, imageHeight, grid);
      }
      completed := true;
    }

    /** One pass of CreatePictureMosaicUsingAllImagesBeforeRepeat's column loop: cells k .. next - 1 of row r. */
    method UseAllRow(search: Search, imageWidth: nat, imageHeight: nat, grid: nat, averageColors: seq<Color>,
                     red: nat, green: nat, blue: nat, total: nat,
                     copyOfPalette: seq<array<byte>>, copyOfColors: seq<Color>, i: nat,
                     ghost orig: seq<byte>, ghost cells: seq<Color>, ghost runs: seq<Selection<array<byte>>>, ghost cols: nat, ghost k: nat, ghost r: nat, ghost next: nat,
                     ghost chosen: seq<array<byte>>)
      returns (ok: bool, red': nat, green': nat, blue': nat, total': nat,
               copyOfPalette': seq<array<byte>>, copyOfColors': seq<Color>, ghost chosen': seq<array<byte>>, ghost stop: nat)
      requires IsSearch(search)
      requires grid >= 1 && ImagePixels.Length >= imageWidth * imageHeight * 4 && |orig| == ImagePixels.Length && TilesFit()
      requires |averageColors| == |MosaicPalette|
      requires cells == CellColors(orig, imageWidth, imageHeight, grid) && cols == Cols(imageWidth, grid)
      requires runs == UseAllRuns(search, MosaicPalette, averageColors, cells, |cells|)
      requires i == r * grid && i < imageHeight && k == r * cols && next == k + cols && next <= |cells|
      requires Holds(runs[k], copyOfPalette, copyOfColors, 0, chosen)
      requires InProgress(imageWidth, imageHeight, grid, orig, chosen, red, green, blue, total)
      requires TiledBefore(ImagePixels[..], orig, imageWidth, imageHeight, grid, TilesOf(chosen))
      modifies ImagePixels
      ensures TiledBefore(ImagePixels[..], orig, imageWidth, imageHeight, grid, TilesOf(chosen'))
      ensures ok ==> Holds(runs[next], copyOfPalette', copyOfColors', 0, chosen')
      ensures ok ==> InProgress(imageWidth, imageHeight, grid, orig, chosen', red', green', blue', total')
      ensures !ok ==> stop <= |cells| && Stopped(runs[stop], stop, imageWidth, imageHeight, grid, chosen')
    {
      red', green', blue', total', chosen', stop := red, green, blue, total, chosen, 0;
      copyOfPalette', copyOfColors' := copyOfPalette, copyOfColors;
      var j := 0;
      ghost var c: nat, n: nat := 0, k;
      while j < imageWidth
        invariant j == c * grid && c <= cols && n == k + c
        invariant Holds(runs[n], copyOfPalette', copyOfColors', 0, chosen')
        invariant InProgress(imageWidth, imageHeight, grid, orig, chosen', red', green', blue', total')
        invariant TiledBefore(ImagePixels[..], orig, imageWidth, imageHeight, grid, TilesOf(chosen'))
      {
        ColsBound(c, imageWidth, grid);
        ok, red', green', blue', total', copyOfPalette', copyOfColors', chosen' :=
          this.UseAllCell(search, imageWidth, imageHeight, grid, averageColors, red', green', blue', total',
                          copyOfPalette', copyOfColors', i, j, orig, cells, runs, n, r, c, chosen');
        if !ok {
          stop := n + 1;
          return;
        }
        MulSucc(c, grid);
        j := j + grid;
        c, n := c + 1, n + 1;
      }
      ColsBound(c, imageWidth, grid);
      assert n == next;
      ok := true;
    }

    /**
     * The body of CreatePictureMosaicUsingAllImagesBeforeRepeat's cell loop:
     * average, refill an empty working copy, search it, remove the tile and
     * the index, write.
     */
    method UseAllCell(search: Search, imageWidth: nat, imageHeight: nat, grid: nat, averageColors: seq<Color>,
                      red: nat, green: nat, blue: nat, total: nat,
                      copyOfPalette: seq<array<byte>>, copyOfColors: seq<Color>, i: nat, j: nat,
                      ghost orig: seq<byte>, ghost cells: seq<Color>, ghost runs: seq<Selection<array<byte>>>, ghost k: nat, ghost r: nat, ghost c: nat,
                      ghost chosen: seq<array<byte>>)
      returns (ok: bool, red': nat, green': nat, blue': nat, total': nat,
               copyOfPalette': seq<array<byte>>, copyOfColors': seq<Color>, ghost chosen': seq<array<byte>>)
      requires IsSearch(search)
      requires grid >= 1 && ImagePixels.Length >= imageWidth * imageHeight * 4 && |orig| == ImagePixels.Length && TilesFit()
      requires |averageColors| == |MosaicPalette|
      requires cells == CellColors(orig, imageWidth, imageHeight, grid) && runs == UseAllRuns(search, MosaicPalette, averageColors, cells, |cells|)
      requires i == r * grid && j == c * grid && InImage(i, j, imageWidth, imageHeight) && k == r * Cols(imageWidth, grid) + c
      requires k <= |cells| && Holds(runs[k], copyOfPalette, copyOfColors, 0, chosen)
      requires InProgress(imageWidth, imageHeight, grid, orig, chosen, red, green, blue, total)
      requires TiledBefore(ImagePixels[..], orig, imageWidth, imageHeight, grid, TilesOf(chosen))
      modifies ImagePixels
      ensures k < |cells|
      ensures TiledBefore(ImagePixels[..], orig, imageWidth, imageHeight, grid, TilesOf(chosen'))
      ensures ok ==> Holds(runs[k + 1], copyOfPalette', copyOfColors', 0, chosen')
      ensures ok ==> InProgress(imageWidth, imageHeight, grid, orig, chosen', red', green', blue', total')
      ensures !ok ==> Stopped(runs[k + 1], k + 1, imageWidth, imageHeight, grid, chosen')
    {
      UseAllRunsStep(search, MosaicPalette, averageColors, cells, k, Selection(copyOfPalette, copyOfColors, 0, chosen, false));
      var color;
      color, red', green', blue', total' := this.CellColor(imageWidth, imageHeight, grid, red, green, blue, total, i, j, orig, chosen, r, c);
      copyOfPalette', copyOfColors' := copyOfPalette, copyOfColors;
      if |copyOfColors'| == 0 {
        copyOfColors' := CreateCopyOfList(averageColors);
        copyOfPalette' := CreateCopyOfList(MosaicPalette);
      }
      match search(copyOfColors', color)
      case None =>
        ok, chosen' := false, chosen;
      case Some(idx) =>
        var closestImage := copyOfPalette'[idx];
        copyOfPalette' := RemoveFirst(copyOfPalette', closestImage);
        copyOfColors' := RemoveAt(copyOfColors', idx);
        ok := this.TileCell(imageWidth, imageHeight, grid, i, j, closestImage, orig, chosen, r, c);
        chosen' := chosen + [closestImage];
        assert Holds(runs[k + 1], copyOfPalette', copyOfColors', 0, chosen');
    }

    /**
     * FindAverageGridColor for the next cell of a walk: its colour in the
     * walk's colour list, and the carry for the cell after it. The anchor
     * pixel it reads has not been written yet.
     */
    method CellColor(imageWidth: nat, imageHeight: nat, grid: nat, red: nat, green: nat, blue: nat, total: nat,
                     i: nat, j: nat, ghost orig: seq<byte>, ghost chosen: seq<array<byte>>, ghost r: nat, ghost c: nat)
      returns (color: Color, red': nat, green': nat, blue': nat, total': nat)
      requires grid >= 1 && ImagePixels.Length >= imageWidth * imageHeight * 4 && |orig| == ImagePixels.Length
      requires i == r * grid && j == c * grid && InImage(i, j, imageWidth, imageHeight) && |chosen| == r * Cols(imageWidth, grid) + c
      requires TiledBefore(ImagePixels[..], orig, imageWidth, imageHeight, grid, TilesOf(chosen))
      requires |chosen| <= CellCount(imageWidth, imageHeight, grid)
      requires total == 0 && Acc(red, green, blue) == Carries(orig, imageWidth, imageHeight, grid)[|chosen|]
      ensures |chosen| < CellCount(imageWidth, imageHeight, grid)
      ensures color == CellColors(orig, imageWidth, imageHeight, grid)[|chosen|]
      ensures total' == 0 && Acc(red', green', blue') == Carries(orig, imageWidth, imageHeight, grid)[|chosen| + 1]
    {
      ghost var cells := CellsOf(orig, imageWidth, imageHeight, grid);
      CarriesUpToAt(cells, |cells|, |chosen|);
      TiledAnchorUnvisited(ImagePixels[..], orig, imageWidth, imageHeight, grid, TilesOf(chosen), r, c);
      color, red', green', blue', total' := FindAverageGridColor(ImagePixels, imageWidth, imageHeight, grid, red, green, blue, total, i, j);
      GridCellFromCarry(cells, |chosen|, Acc(red', green', blue'));
      ColorsUpToAt(cells, |cells|, |chosen|);
      CarriesUpToAt(cells, |cells|, |chosen| + 1);
    }

    /**
     * writeClosestImagePixelsToMosaic with a fresh empty list, seen at image
     * level: the next cell now holds the tile. Only the first cell can be
     * too large, so only its write can throw.
     */
    method TileCell(imageWidth: nat, imageHeight: nat, grid: nat, i: nat, j: nat, closestImage: array<byte>,
                    ghost orig: seq<byte>, ghost chosen: seq<array<byte>>, ghost r: nat, ghost c: nat)
      returns (ok: bool)
      requires grid >= 1 && ImagePixels.Length >= imageWidth * imageHeight * 4 && |orig| == ImagePixels.Length && TilesFit()
      requires closestImage in MosaicPalette && forall t :: t in chosen ==> t in MosaicPalette
      requires i == r * grid && j == c * grid && InImage(i, j, imageWidth, imageHeight) && |chosen| == r * Cols(imageWidth, grid) + c
      requires TiledBefore(ImagePixels[..], orig, imageWidth, imageHeight, grid, TilesOf(chosen))
      requires |chosen| > 0 ==> !TooLarge(imageWidth, imageHeight, grid)
      modifies ImagePixels
      ensures ok <==> |chosen| > 0 || !TooLarge(imageWidth, imageHeight, grid)
      ensures TiledBefore(ImagePixels[..], orig, imageWidth, imageHeight, grid, TilesOf(chosen + [closestImage]))
    {
      ghost var before := ImagePixels[..];
      ghost var tile := closestImage[..];
      ok := this.WriteClosestImagePixelsToMosaic(imageWidth, imageHeight, grid, i, j, closestImage, []);
      assert [] + TileColors(tile) == TileColors(tile);
      ColsBound(c, imageWidth, grid);
      TileStep(ImagePixels[..], before, orig, imageWidth, imageHeight, grid, TilesOf(chosen), tile, r, c);
      TilesOfAppend(chosen, closestImage);
      CellPixelsAtMostFirst(i, j, imageWidth, imageHeight, grid);
    }

    /**
     * Reads the tile's 2500 pixels row by row onto the end of colorList,
     * then walks the clipped cell anchored at (i, j) row by row writing list
     * entry 0, 1, 2, ... into its pixels. Returns false where the code
     * throws: at the first pixel whose slot is past the end of the list.
     */
    method WriteClosestImagePixelsToMosaic(imageWidth: nat, imageHeight: nat, grid: nat, i: nat, j: nat,
                                           closestImage: array<byte>, colorList: seq<Color>) returns (ok: bool)
      requires grid >= 1 && ImagePixels.Length >= imageWidth * imageHeight * 4 && InImage(i, j, imageWidth, imageHeight)
      requires closestImage.Length >= TileBytes && closestImage != ImagePixels
      modifies ImagePixels
      ensures var colors := colorList + TileColors(closestImage[..]);
              && (ok <==> CellPixels(i, j, imageWidth, imageHeight, grid) <= |colors|)
              && CellPouredBefore(ImagePixels[..], old(ImagePixels[..]), imageWidth, imageHeight, grid, i, j, colors, |colors|)
    {
      var list := ReadTile(closestImage, colorList);
      ok := this.PourCell(imageWidth, imageHeight, grid, i, j, list);
    }

    /** The last two loops of writeClosestImagePixelsToMosaic: the list poured into the clipped cell, row by row. */
    method PourCell(imageWidth: nat, imageHeight: nat, grid: nat, i: nat, j: nat, list: seq<Color>) returns (ok: bool)
      requires grid >= 1 && ImagePixels.Length >= imageWidth * imageHeight * 4 && InImage(i, j, imageWidth, imageHeight)
      modifies ImagePixels
      ensures ok <==> CellPixels(i, j, imageWidth, imageHeight, grid) <= |list|
      ensures CellPouredBefore(ImagePixels[..], old(ImagePixels[..]), imageWidth, imageHeight, grid, i, j, list, |list|)
    {
      ghost var orig := ImagePixels[..];
      ghost var cw := CellEnd(j, grid, imageWidth) - j;
      var count: nat := 0;
      var hPixel := i;
      while hPixel < i + grid && hPixel < imageHeight
        invariant i <= hPixel <= CellEnd(i, grid, imageHeight)
        invariant count == (hPixel - i) * cw && count <= |list|
        invariant CellPouredBefore(ImagePixels[..], orig, imageWidth, imageHeight, grid, i, j, list, count)
      {
        ok, count := this.WriteRow(imageWidth, imageHeight, grid, i, j, hPixel, list, count, orig);
        if !ok {
          return;
        }
        hPixel := hPixel + 1;
      }
      assert hPixel == CellEnd(i, grid, imageHeight);
      assert count == CellPixels(i, j, imageWidth, imageHeight, grid);
      ok := true;
      PourWiden(ImagePixels[..], orig, imageWidth, imageHeight, grid, i, j, list, count);
    }

    /** The first two loops of writeClosestImagePixelsToMosaic: the tile's pixels, row by row, appended to colorList. */
    static method ReadTile(closestImage: array<byte>, colorList: seq<Color>) returns (list: seq<Color>)
      requires closestImage.Length >= TileBytes
      ensures list == colorList + TileColors(closestImage[..])
    {
      ghost var tile := closestImage[..];
      list := colorList;
      for heightPixel := 0 to TileSide
        invariant list == colorList + TileColors(tile)[..heightPixel * TileSide]
      {
        for widthPixel := 0 to TileSide
          invariant list == colorList + TileColors(tile)[..heightPixel * TileSide + widthPixel]
        {
          var pixelColor := GetPixelBgra8(closestImage[..], heightPixel, widthPixel, TileSide);
          assert pixelColor == TileColors(tile)[heightPixel * TileSide + widthPixel];
          list := list + [pixelColor];
        }
      }
    }

    /** The inner loop of writeClosestImagePixelsToMosaic: row hPixel of the clipped cell, left to right. */
    method WriteRow(imageWidth: nat, imageHeight: nat, grid: nat, i: nat, j: nat, hPixel: nat,
                    list: seq<Color>, count: nat, ghost orig: seq<byte>)
      returns (ok: bool, count': nat)
      requires grid >= 1 && ImagePixels.Length >= imageWidth * imageHeight * 4 && InImage(i, j, imageWidth, imageHeight)
      requires i <= hPixel < CellEnd(i, grid, imageHeight)
      requires count == (hPixel - i) * (CellEnd(j, grid, imageWidth) - j) && count <= |list|
      requires CellPouredBefore(ImagePixels[..], orig, imageWidth, imageHeight, grid, i, j, list, count)
      modifies ImagePixels
      ensures ok ==> count' == (hPixel + 1 - i) * (CellEnd(j, grid, imageWidth) - j) && count' <= |list|
      ensures !ok ==> count' == |list| < CellPixels(i, j, imageWidth, imageHeight, grid)
      ensures CellPouredBefore(ImagePixels[..], orig, imageWidth, imageHeight, grid, i, j, list, count')
    {
      count' := count;
      var wPixel := j;
      while wPixel < j + grid && wPixel < imageWidth
        invariant j <= wPixel <= CellEnd(j, grid, imageWidth)
        invariant count' == count + (wPixel - j) && count' <= |list|
        invariant CellPouredBefore(ImagePixels[..], orig, imageWidth, imageHeight, grid, i, j, list, count')
      {
        if count' >= |list| {
          // colorList[count] throws
          SlotInCell(hPixel, wPixel, i, j, imageWidth, imageHeight, grid);
          return false, count';
        }
        ghost var before := ImagePixels[..];
        PaintPixel(ImagePixels, hPixel, wPixel, list[count'], imageWidth, imageHeight, orig);
        PourStep(ImagePixels[..], before, orig, imageWidth, imageHeight, grid, i, j, list, hPixel, wPixel, count');
        count' := count' + 1;
        wPixel := wPixel + 1;
      }
      MulSucc(hPixel - i, CellEnd(j, grid, imageWidth) - j);
      ok := true;
    }
  }
}
