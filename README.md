# Mosaic maker: pixel engines

A model of the image engines of the GroupJ mosaic maker, a C# UWP app. The app
turns a picture into a mosaic. All of its engines work in place on one
decoded BGRA pixel buffer: byte `(x * width + y) * 4` is the blue byte of
pixel (x, y), with x the row and y the column. The engines are:

- **MosaicCalculations**:
  - pixel read and write;
  - the packing of a colour into an `int` and back (`RgbToInt`, then `BitConverter.GetBytes`);
  - the per-channel difference between two colours, and the closest-colour search;
  - the average colours of a palette of 50 x 50 tiles;
  - the colour of a grid cell (`FindAverageGridColor`);
  - the black/white conversion;
  - the list copies.
- **GridLines**: a white square grid or a white triangle grid painted over the image.
- **SolidMosaic**:
  - the square mosaic paints every cell with one colour;
  - the triangle mosaic splits every cell along its diagonal and paints each half with that half's mean colour.
- **PictureMosaic**: every cell is overwritten with a palette tile, chosen by one of three policies:
  - the closest tile every time;
  - the closest of a working copy that is reset at random intervals ("prevent juxtaposed");
  - the closest of a working copy that is used up before it is refilled ("all images before repeat").

The Dafny modules follow the C# classes:

| module | what it holds |
|---|---|
| `Geometry` | Buffer offsets and the row-major walk over clipped grid cells. Cell `r * Cols + c` is anchored at `(r * grid, c * grid)`. |
| `MosaicCalculations` | The static helpers. |
| `GridOverlay` | The `GridLines` class. |
| `SolidMosaics` | The `SolidMosaic` class and its averaging. |
| `TileSelection` | The three tile-selection policies, as state machines over the cell colours in visiting order. |
| `PictureMosaics` | The `PictureMosaic` class. |

Each C# method that loops is a Dafny method with the same loops.

- `GridLines`, `SolidMosaic` and `PictureMosaic` are each a Dafny `class` holding the shared buffer. The static `MosaicCalculations` keeps no state, so it is a module of functions and methods.
- Each method is proved against a specification of the whole resulting image:
  - `IsOverlay` for the grid lines;
  - `IsBwOf` for the conversion;
  - `PaintedBefore` for the solid mosaics;
  - `TiledBefore` for the picture mosaics.

  Each of these says which colour every pixel ends with. It also says that
  no alpha byte and no byte past the image changes.
- The running `red`/`green`/`blue`/`total` accumulators are passed by reference in the code. They are modelled exactly:
  - a walk's cell colours are `GridCellColor(CellsOf(image), k)`;
  - the carry from one cell to the next is `CarryBefore`.

The code's behaviour is kept, including its surprises. Each surprise is proved as a lemma:

- `FindAverageGridColor` reads the cell's anchor pixel (i, j) for every pixel of the cell.
- The accumulators are never zeroed between cells, so a remainder carries into the next cell (`CarryChangesUniformImage`).
- A channel above 255 spills into the next byte of the packed colour (`CarryOverflowsChannel`).
- A picture tile is not cropped to its cell:
  - its 2500 pixels are poured into the cell's pixels in reading order (`NarrowCellPoursTile`);
  - a first cell larger than 50 x 50 throws once the tile runs out.
- Under "prevent juxtaposed":
  - a one-tile palette fails at the second cell (`JuxOneTileFails`);
  - after a reset the working tiles and colours fall out of step (`JuxMisalignment`);
  - with distinct tile buffers, a tile never follows itself (`JuxNoImmediateRepeat`), but it can come back two cells later (`JuxRepeatAfterReset`).
- The triangle mosaic fails at the first cell that is one pixel tall. Its left half is empty there, and the code divides by zero (`TriangleCompletesIff`).

Where the code differs from the way the program is usually described, the
model follows the code:

- A uniform image is not left unchanged by the square mosaic: the carry changes it unless every channel is below the cell size (`CarryChangesUniformImage`).
- A one-tile palette is not reused under "prevent juxtaposed": the second cell searches an empty list and throws.
- Tiles are poured into cells in reading order, not scaled or cropped.
- The cell "average" is the anchor pixel plus the carry, not a true mean.

A thrown exception ends the C# method part-way. In the model it becomes a
result:

- `completed` / `ok` false, or `None`, or a run whose `failed` flag is set;
- the contract states exactly which cells were written before the throw.

## Model

| member | source | states |
|---|---|---|
| Geometry.CellPixels | GroupJMosaicMaker-master/GroupJMosaicMaker/GroupJMosaicMaker/Utility/MosaicCalculations.cs:144-159 | Every cell the walk visits has at least one pixel, so the divisions by `total` never divide by zero. |
| Geometry.OffsetInBuffer | GroupJMosaicMaker-master/GroupJMosaicMaker/GroupJMosaicMaker/Utility/MosaicCalculations.cs:57-60 | The four bytes of an in-image pixel lie inside the width x height x 4 buffer. |
| Geometry.OffsetsDisjoint | GroupJMosaicMaker-master/GroupJMosaicMaker/GroupJMosaicMaker/Utility/MosaicCalculations.cs:57-60 | Two different pixels own disjoint four-byte groups, so writing one never touches another. |
| Geometry.ColsBound | GroupJMosaicMaker-master/GroupJMosaicMaker/GroupJMosaicMaker/Model/SolidMosaic.cs:63 | Column index c is visited (c < Cols) exactly when c * grid < width. |
| Geometry.RowsBound | GroupJMosaicMaker-master/GroupJMosaicMaker/GroupJMosaicMaker/Model/SolidMosaic.cs:61 | Row index r is visited (r < Rows) exactly when r * grid < height. |
| Geometry.CellOfInCell | GroupJMosaicMaker-master/GroupJMosaicMaker/GroupJMosaicMaker/Model/SolidMosaic.cs:183-189 | A pixel lies in the clipped cell anchored at (r * grid, c * grid) exactly when its cell number is r * Cols + c. |
| Geometry.CellOfBound | GroupJMosaicMaker-master/GroupJMosaicMaker/GroupJMosaicMaker/Model/SolidMosaic.cs:61-70 | Every pixel of the image belongs to a cell the walk visits. |
| Geometry.AnchorOf | GroupJMosaicMaker-master/GroupJMosaicMaker/GroupJMosaicMaker/Model/SolidMosaic.cs:61-63 | The cell visited as number r * Cols + c is anchored at (r * grid, c * grid). |
| Geometry.AnchorInImage | GroupJMosaicMaker-master/GroupJMosaicMaker/GroupJMosaicMaker/Model/SolidMosaic.cs:61-63 | The anchor of every visited cell is a pixel of the image. |
| Geometry.NextResidue | GroupJMosaicMaker-master/GroupJMosaicMaker/GroupJMosaicMaker/Model/GridLines.cs:94-101 | The `wCount` update (reset to 0 when grid - wCount == 1, else increment) computes (i + 1) mod grid from i mod grid. |
| MosaicCalculations.BitOrShifted | GroupJMosaicMaker-master/GroupJMosaicMaker/GroupJMosaicMaker/Utility/MosaicCalculations.cs:25 | ORing a value below 2^n with a multiple of 2^n adds them. |
| MosaicCalculations.PackedValue | GroupJMosaicMaker-master/GroupJMosaicMaker/GroupJMosaicMaker/Utility/MosaicCalculations.cs:23-26 | For byte channels, RgbToInt(r, g, b) is r + 256 g + 65536 b. |
| MosaicCalculations.UnpackValue | GroupJMosaicMaker-master/GroupJMosaicMaker/GroupJMosaicMaker/Utility/MosaicCalculations.cs:116-119 | Bytes 0, 1 and 2 of that value, as read by GetBytes, are r, g and b again. |
| MosaicCalculations.PackRoundTrip | GroupJMosaicMaker-master/GroupJMosaicMaker/GroupJMosaicMaker/Utility/MosaicCalculations.cs:116-119 | Packing three byte channels and unpacking them gives the same colour back. |
| MosaicCalculations.OrOverflow | GroupJMosaicMaker-master/GroupJMosaicMaker/GroupJMosaicMaker/Utility/MosaicCalculations.cs:25 | RgbToInt(400, 400, 0) is 0x19190: the high bit of an overlarge red is ORed into green. |
| MosaicCalculations.PackOverflowExample | GroupJMosaicMaker-master/GroupJMosaicMaker/GroupJMosaicMaker/Utility/MosaicCalculations.cs:160-163 | Unpacking RgbToInt(400, 400, 0) gives (144, 145, 1), not a clamped colour. |
| MosaicCalculations.SetPixelBgra8 | GroupJMosaicMaker-master/GroupJMosaicMaker/GroupJMosaicMaker/Utility/MosaicCalculations.cs:55-61 | Afterwards the pixel reads back as the colour written, and every other byte of the buffer, including the pixel's alpha byte, is unchanged. |
| MosaicCalculations.SetPixelFrame | GroupJMosaicMaker-master/GroupJMosaicMaker/GroupJMosaicMaker/Utility/MosaicCalculations.cs:55-61 | A write at (x0, y0) keeps alpha and tail bytes, sets that pixel, and leaves every other pixel's colour as it was. |
| MosaicCalculations.PaintPixel | GroupJMosaicMaker-master/GroupJMosaicMaker/GroupJMosaicMaker/Utility/MosaicCalculations.cs:219-225 | The same at image level: a write keeps the frame predicate and changes exactly one pixel. |
| MosaicCalculations.FindDifferenceRgb | GroupJMosaicMaker-master/GroupJMosaicMaker/GroupJMosaicMaker/Utility/MosaicCalculations.cs:69-72 | The difference is at most 765, and it is 0 exactly when the two colours are equal. |
| MosaicCalculations.DifferenceSymmetric | GroupJMosaicMaker-master/GroupJMosaicMaker/GroupJMosaicMaker/Utility/MosaicCalculations.cs:69-72 | The difference does not depend on the order of its arguments. |
| MosaicCalculations.MinDifferenceIsMinimum | GroupJMosaicMaker-master/GroupJMosaicMaker/GroupJMosaicMaker/Utility/MosaicCalculations.cs:82-83 | The minimum difference over a non-empty list is reached by some entry and is at most every entry's difference. |
| MosaicCalculations.FindIndexWithDifferenceIsFirst | GroupJMosaicMaker-master/GroupJMosaicMaker/GroupJMosaicMaker/Utility/MosaicCalculations.cs:84 | FindIndex returns the first index whose difference equals the given value, and -1 when there is none. |
| MosaicCalculations.FindIndexOfClosestColor | GroupJMosaicMaker-master/GroupJMosaicMaker/GroupJMosaicMaker/Utility/MosaicCalculations.cs:80-85 | The search fails (LINQ Min throws) exactly on an empty list, and otherwise returns an index inside the list. |
| MosaicCalculations.ClosestIsFirstMinimum | GroupJMosaicMaker-master/GroupJMosaicMaker/GroupJMosaicMaker/Utility/MosaicCalculations.cs:80-85 | The returned colour is at least as close as every entry, and strictly closer than every earlier entry. |
| MosaicCalculations.ClosestFindsExact | GroupJMosaicMaker-master/GroupJMosaicMaker/GroupJMosaicMaker/Utility/MosaicCalculations.cs:80-85 | The first exact occurrence of the target is returned. |
| MosaicCalculations.ClosestColorExample | GroupJMosaicMaker-master/GroupJMosaicMaker/GroupJMosaicMaker/Utility/MosaicCalculations.cs:80-85 | (10, 10, 10) is matched to black, not to white. |
| MosaicCalculations.TileSumBound | GroupJMosaicMaker-master/GroupJMosaicMaker/GroupJMosaicMaker/Utility/MosaicCalculations.cs:99-110 | The channel sums over p tile pixels are at most 255 p. |
| MosaicCalculations.PaletteCarryBound | GroupJMosaicMaker-master/GroupJMosaicMaker/GroupJMosaicMaker/Utility/MosaicCalculations.cs:112-115 | After each tile's division every accumulator is at most 255, whatever it carried in. |
| MosaicCalculations.FirstPaletteColor | GroupJMosaicMaker-master/GroupJMosaicMaker/GroupJMosaicMaker/Utility/MosaicCalculations.cs:99-120 | The first tile's average is its channel sums divided by 2500. |
| MosaicCalculations.NextPaletteColor | GroupJMosaicMaker-master/GroupJMosaicMaker/GroupJMosaicMaker/Utility/MosaicCalculations.cs:99-120 | Tile k's average is (tile k - 1's average + tile k's sums) / 2500, because the accumulators are divided but never zeroed. |
| MosaicCalculations.PaletteColorIsCarry | GroupJMosaicMaker-master/GroupJMosaicMaker/GroupJMosaicMaker/Utility/MosaicCalculations.cs:112-120 | Each average colour equals the accumulators left after its tile. |
| MosaicCalculations.SumTile | GroupJMosaicMaker-master/GroupJMosaicMaker/GroupJMosaicMaker/Utility/MosaicCalculations.cs:99-110 | The two loops add 2500 to `total` and the tile's channel sums to the accumulators. |
| MosaicCalculations.AverageTile | GroupJMosaicMaker-master/GroupJMosaicMaker/GroupJMosaicMaker/Utility/MosaicCalculations.cs:99-115 | One tile: the carried accumulators plus the tile's sums, divided by 2500, are the next PaletteStep; `total` is reset to 0. |
| MosaicCalculations.CalculateAverageColorOfPalette | GroupJMosaicMaker-master/GroupJMosaicMaker/GroupJMosaicMaker/Utility/MosaicCalculations.cs:90-124 | Throws (`None`) exactly when some tile holds fewer than 9999 bytes (50 x 50 x 4 - 1; the last alpha byte is never read); otherwise returns one colour per tile, in order, equal to the carried averages PaletteAverages of the tiles. |
| MosaicCalculations.SumCell | GroupJMosaicMaker-master/GroupJMosaicMaker/GroupJMosaicMaker/Utility/MosaicCalculations.cs:144-155 | The two loops add the cell's pixel count n to `total`, and n times the anchor pixel's channels to the accumulators. |
| MosaicCalculations.FindAverageGridColor | GroupJMosaicMaker-master/GroupJMosaicMaker/GroupJMosaicMaker/Utility/MosaicCalculations.cs:140-165 | Leaves total = 0 and each accumulator at (old + n * anchor channel) / (old total + n). Returns their packed and unpacked colour. With zero accumulators it returns exactly the anchor pixel. |
| MosaicCalculations.FirstCellAnchor | GroupJMosaicMaker-master/GroupJMosaicMaker/GroupJMosaicMaker/Utility/MosaicCalculations.cs:149 | The first visited cell's anchor is pixel (0, 0). |
| MosaicCalculations.FirstGridCellIsAnchorPixel | GroupJMosaicMaker-master/GroupJMosaicMaker/GroupJMosaicMaker/Utility/MosaicCalculations.cs:144-163 | The first cell of a walk gets exactly its anchor pixel's colour. |
| MosaicCalculations.CarryShift | GroupJMosaicMaker-master/GroupJMosaicMaker/GroupJMosaicMaker/Utility/MosaicCalculations.cs:151-159 | The carry step anchor + acc / n equals the code's (acc + n * anchor) / n. |
| MosaicCalculations.SecondCellCarry | GroupJMosaicMaker-master/GroupJMosaicMaker/GroupJMosaicMaker/Utility/MosaicCalculations.cs:151-159 | After two cells each accumulator holds c1 + c0 / n1: the first cell's colour leaks into the second. |
| MosaicCalculations.NoCarryIff | GroupJMosaicMaker-master/GroupJMosaicMaker/GroupJMosaicMaker/Utility/MosaicCalculations.cs:157-159 | x + x / n == x exactly when x < n. |
| MosaicCalculations.CarryChangesUniformImage | GroupJMosaicMaker-master/GroupJMosaicMaker/GroupJMosaicMaker/Utility/MosaicCalculations.cs:140-165 | With two equal anchors c, the second cell gets c + c / n per channel: it keeps c exactly when every channel is below the cell size n. |
| MosaicCalculations.StripImageCells | GroupJMosaicMaker-master/GroupJMosaicMaker/GroupJMosaicMaker/Utility/MosaicCalculations.cs:144-149 | A 6 x 1 strip with grid 5 has a 5-pixel cell and a clipped 1-pixel cell, both anchored on (200, 200, 0). |
| MosaicCalculations.OverflowCarry | GroupJMosaicMaker-master/GroupJMosaicMaker/GroupJMosaicMaker/Utility/MosaicCalculations.cs:151-159 | Those two cells leave the accumulators at (400, 400, 0). |
| MosaicCalculations.CarryOverflowsChannel | GroupJMosaicMaker-master/GroupJMosaicMaker/GroupJMosaicMaker/Utility/MosaicCalculations.cs:140-165 | The strip's second cell therefore gets (144, 145, 1): the overlarge red and green spill into the next bytes. |
| MosaicCalculations.Threshold | GroupJMosaicMaker-master/GroupJMosaicMaker/GroupJMosaicMaker/Utility/MosaicCalculations.cs:184-190 | The result is black or white, and black exactly when r + g + b < 384, i.e. the truncated mean is below 128. |
| MosaicCalculations.BwIdempotent | GroupJMosaicMaker-master/GroupJMosaicMaker/GroupJMosaicMaker/Utility/MosaicCalculations.cs:174-198 | Converting an already converted image changes nothing. |
| MosaicCalculations.ConvertImageToBw | GroupJMosaicMaker-master/GroupJMosaicMaker/GroupJMosaicMaker/Utility/MosaicCalculations.cs:174-198 | Every image pixel becomes the threshold of its own original colour; alpha and bytes past the image are kept. |
| MosaicCalculations.ConvertPixel | GroupJMosaicMaker-master/GroupJMosaicMaker/GroupJMosaicMaker/Utility/MosaicCalculations.cs:180-192 | One iteration changes exactly pixel (i, j), to the threshold of its colour. |
| MosaicCalculations.CreateCopyOfList | GroupJMosaicMaker-master/GroupJMosaicMaker/GroupJMosaicMaker/Utility/MosaicCalculations.cs:232-257 | The copy has the same entries in the same order. This models both CreateCopyOfImagePalette and CreateCopyOfAverageColors. |
| GridOverlay.OverlayCompose | GroupJMosaicMaker-master/GroupJMosaicMaker/GroupJMosaicMaker/Model/GridLines.cs:53-71 | Drawing one family of lines and then another draws their union. |
| GridOverlay.OverlayIdempotent | GroupJMosaicMaker-master/GroupJMosaicMaker/GroupJMosaicMaker/Model/GridLines.cs:53-123 | Drawing the same grid twice gives the same buffer as drawing it once. |
| GridOverlay.SquareLinesAreCellEdges | GroupJMosaicMaker-master/GroupJMosaicMaker/GroupJMosaicMaker/Model/GridLines.cs:53-71 | A pixel is whitened by the square grid exactly when it is on the top row or left column of its cell, and that cell is not in the first cell row or column. |
| GridOverlay.DiagonalsAreCellDiagonals | GroupJMosaicMaker-master/GroupJMosaicMaker/GroupJMosaicMaker/Model/GridLines.cs:84-102 | A pixel is on a staircase diagonal exactly when it is as far right of its cell's anchor as it is below it. |
| GridOverlay.FirstRowAndColumnClear | GroupJMosaicMaker-master/GroupJMosaicMaker/GroupJMosaicMaker/Model/GridLines.cs:55-71 | On row 0 and column 0, only the multiples of grid (from grid on) along the other axis are whitened. |
| GridOverlay.GridLines.constructor | GroupJMosaicMaker-master/GroupJMosaicMaker/GroupJMosaicMaker/Model/GridLines.cs:38-41 | The overlay draws into the caller's buffer itself, not into a copy. |
| GridOverlay.GridLines.CreateSquareGridLines | GroupJMosaicMaker-master/GroupJMosaicMaker/GroupJMosaicMaker/Model/GridLines.cs:53-74 | Afterwards the buffer is the original with every pixel on a vertical (y >= grid, y mod grid = 0) or horizontal (x >= grid, x mod grid = 0) line white, all else unchanged. |
| GridOverlay.GridLines.CreateTriangleGridLines | GroupJMosaicMaker-master/GroupJMosaicMaker/GroupJMosaicMaker/Model/GridLines.cs:82-123 | The same, with every pixel where y mod grid = x mod grid also white. |
| GridOverlay.GridLines.DrawVerticals | GroupJMosaicMaker-master/GroupJMosaicMaker/GroupJMosaicMaker/Model/GridLines.cs:55-62 | The first loop whitens exactly the columns grid, 2 grid, ... of every row. |
| GridOverlay.GridLines.DrawHorizontals | GroupJMosaicMaker-master/GroupJMosaicMaker/GroupJMosaicMaker/Model/GridLines.cs:64-71 | The second loop whitens exactly the rows grid, 2 grid, ... |
| GridOverlay.GridLines.DrawDiagonals | GroupJMosaicMaker-master/GroupJMosaicMaker/GroupJMosaicMaker/Model/GridLines.cs:84-102 | The `wCount` loop whitens exactly the pixels with y mod grid = x mod grid. |
| SolidMosaics.CarriedMeanFromZero | GroupJMosaicMaker-master/GroupJMosaicMaker/GroupJMosaicMaker/Model/SolidMosaic.cs:157-177 | With zero accumulators, calculateAverageTriangleColor returns the exact per-channel truncated mean of the list. |
| SolidMosaics.MeanOfUniform | GroupJMosaicMaker-master/GroupJMosaicMaker/GroupJMosaicMaker/Model/SolidMosaic.cs:157-177 | The mean of a list of one repeated colour is that colour. |
| SolidMosaics.RightHalfNonEmpty | GroupJMosaicMaker-master/GroupJMosaicMaker/GroupJMosaicMaker/Model/SolidMosaic.cs:109-130 | The right (upper) half of every cell contains the anchor, so it is never empty. |
| SolidMosaics.LeftHalfEmptyIff | GroupJMosaicMaker-master/GroupJMosaicMaker/GroupJMosaicMaker/Model/SolidMosaic.cs:109-130 | The left half of a cell is empty exactly when the clipped cell is one pixel tall. |
| SolidMosaics.FlatRowIff | GroupJMosaicMaker-master/GroupJMosaicMaker/GroupJMosaicMaker/Model/SolidMosaic.cs:91-98 | A cell row is one pixel tall exactly from FirstFlatRow on. |
| SolidMosaics.TriangleCompletesIff | GroupJMosaicMaker-master/GroupJMosaicMaker/GroupJMosaicMaker/Model/SolidMosaic.cs:81-107 | The triangle mosaic runs to the end exactly when the image is empty or (height - 1) mod grid != 0. |
| SolidMosaics.TriangleGridOneFails | GroupJMosaicMaker-master/GroupJMosaicMaker/GroupJMosaicMaker/Model/SolidMosaic.cs:166-168 | With grid 1 a non-empty image fails at the very first cell, before painting anything. |
| SolidMosaics.SquareCellsUniform | GroupJMosaicMaker-master/GroupJMosaicMaker/GroupJMosaicMaker/Model/SolidMosaic.cs:55-73 | In a finished square mosaic all pixels of a cell have one colour. |
| SolidMosaics.SquareFirstCellIsAnchor | GroupJMosaicMaker-master/GroupJMosaicMaker/GroupJMosaicMaker/Model/SolidMosaic.cs:55-73 | The first cell of the square mosaic takes pixel (0, 0)'s colour. |
| SolidMosaics.TriangleHalvesUniform | GroupJMosaicMaker-master/GroupJMosaicMaker/GroupJMosaicMaker/Model/SolidMosaic.cs:132-155 | In a finished triangle mosaic each half of each cell has one colour. |
| SolidMosaics.TriangleKeepsUniformImage | GroupJMosaicMaker-master/GroupJMosaicMaker/GroupJMosaicMaker/Model/SolidMosaic.cs:81-107 | A finished triangle mosaic leaves an image of one colour unchanged (its accumulators are zeroed after each half). |
| SolidMosaics.SolidMosaic.constructor | GroupJMosaicMaker-master/GroupJMosaicMaker/GroupJMosaicMaker/Model/SolidMosaic.cs:40-43 | The mosaic paints into the caller's buffer itself. |
| SolidMosaics.SolidMosaic.CreateSolidSquareMosaic | GroupJMosaicMaker-master/GroupJMosaicMaker/GroupJMosaicMaker/Model/SolidMosaic.cs:55-73 | Every pixel ends with its cell's colour GridCellColor(CellsOf(original), k), computed with the accumulators carried across the walk; alpha and tail are kept. |
| SolidMosaics.SolidMosaic.SquareRow | GroupJMosaicMaker-master/GroupJMosaicMaker/GroupJMosaicMaker/Model/SolidMosaic.cs:63-70 | One column loop paints cells k .. next - 1 and leaves the carry CarryBefore(cells, next). |
| SolidMosaics.SolidMosaic.SquareCell | GroupJMosaicMaker-master/GroupJMosaicMaker/GroupJMosaicMaker/Model/SolidMosaic.cs:65-68 | One cell: its colour is computed from the original image and the carry, and the cell is painted with it. |
| SolidMosaics.SolidMosaic.SetGridPixelsWithAverageColor | GroupJMosaicMaker-master/GroupJMosaicMaker/GroupJMosaicMaker/Model/SolidMosaic.cs:180-190 | Every pixel of the clipped cell gets the colour; nothing else changes. |
| SolidMosaics.SolidMosaic.CreateSolidTriangleMosaic | GroupJMosaicMaker-master/GroupJMosaicMaker/GroupJMosaicMaker/Model/SolidMosaic.cs:81-107 | Completes exactly when TriangleCompletes holds. The cells painted before it completes or throws each have their two halves painted with the means of the original half pixels; the rest is untouched. |
| SolidMosaics.SolidMosaic.TriangleCell | GroupJMosaicMaker-master/GroupJMosaicMaker/GroupJMosaicMaker/Model/SolidMosaic.cs:95-99 | One cell fails exactly when it is one pixel tall, and then changes nothing. Otherwise it paints both halves and leaves accumulators and lists empty. |
| SolidMosaics.SolidMosaic.AddPixelsToLeftAndRightTriangleLists | GroupJMosaicMaker-master/GroupJMosaicMaker/GroupJMosaicMaker/Model/SolidMosaic.cs:109-130 | Appends the cell's pixels, row by row, to the right list when y - wShift >= x - hShift and to the left list otherwise. |
| SolidMosaics.SolidMosaic.AddRowToLists | GroupJMosaicMaker-master/GroupJMosaicMaker/GroupJMosaicMaker/Model/SolidMosaic.cs:114-128 | The same for one row of the cell. |
| SolidMosaics.SolidMosaic.SetGridWithLeftAndRightTriangleColors | GroupJMosaicMaker-master/GroupJMosaicMaker/GroupJMosaicMaker/Model/SolidMosaic.cs:132-155 | Fails, changing nothing, exactly when one list is empty. Otherwise it paints each half with its list's carried mean, then zeroes the accumulators and clears both lists. |
| SolidMosaics.AddColors | GroupJMosaicMaker-master/GroupJMosaicMaker/GroupJMosaicMaker/Model/SolidMosaic.cs:159-164 | The foreach adds the list's channel sums to the accumulators. |
| SolidMosaics.CalculateAverageTriangleColor | GroupJMosaicMaker-master/GroupJMosaicMaker/GroupJMosaicMaker/Model/SolidMosaic.cs:157-178 | Throws (None) exactly on an empty list. Otherwise it returns the carried mean, zeroes the accumulators and clears the list. |
| TileSelection.RemoveFirst | GroupJMosaicMaker-master/GroupJMosaicMaker/GroupJMosaicMaker/Model/PictureMosaic.cs:126 | List.Remove drops one entry when the item is present and leaves the list as it is otherwise. |
| TileSelection.RemoveAt | GroupJMosaicMaker-master/GroupJMosaicMaker/GroupJMosaicMaker/Model/PictureMosaic.cs:127 | RemoveAt drops exactly one entry. |
| TileSelection.RemoveFirstDistinct | GroupJMosaicMaker-master/GroupJMosaicMaker/GroupJMosaicMaker/Model/PictureMosaic.cs:170-171 | In a list without duplicates, Remove(list[k]) removes the same entry as RemoveAt(k), and the item is gone afterwards. |
| TileSelection.ClosestIsSearch | GroupJMosaicMaker-master/GroupJMosaicMaker/GroupJMosaicMaker/Utility/MosaicCalculations.cs:80-85 | FindIndexOfClosestColor satisfies the search contract the policies are proved for. |
| TileSelection.PlainStep | GroupJMosaicMaker-master/GroupJMosaicMaker/GroupJMosaicMaker/Model/PictureMosaic.cs:76-83 | A cell fails exactly on an empty palette; otherwise it appends the palette tile at the closest colour's index. |
| TileSelection.PlainRun | GroupJMosaicMaker-master/GroupJMosaicMaker/GroupJMosaicMaker/Model/PictureMosaic.cs:72-85 | The plain policy fails exactly when there are cells and the palette is empty; otherwise it chooses one tile per cell. |
| TileSelection.PlainChoice | GroupJMosaicMaker-master/GroupJMosaicMaker/GroupJMosaicMaker/Model/PictureMosaic.cs:79-80 | Cell k gets the tile whose average is the first closest to cell k's colour. |
| TileSelection.PlainSameColorSameTile | GroupJMosaicMaker-master/GroupJMosaicMaker/GroupJMosaicMaker/Model/PictureMosaic.cs:79-80 | Two cells of the same colour get the same tile: nothing prevents repeats. |
| TileSelection.UseAllStep | GroupJMosaicMaker-master/GroupJMosaicMaker/GroupJMosaicMaker/Model/PictureMosaic.cs:162-171 | A cell only appends to the chosen tiles, and appends exactly one unless the run fails. |
| TileSelection.UseAllRun | GroupJMosaicMaker-master/GroupJMosaicMaker/GroupJMosaicMaker/Model/PictureMosaic.cs:154-176 | The working lists keep equal lengths. The run fails exactly on an empty palette; otherwise it chooses one tile per cell. |
| TileSelection.UseAllChosenPrefix | GroupJMosaicMaker-master/GroupJMosaicMaker/GroupJMosaicMaker/Model/PictureMosaic.cs:154-176 | The tiles chosen for the first m cells stay chosen after n >= m cells. |
| TileSelection.UseAllFromPalette | GroupJMosaicMaker-master/GroupJMosaicMaker/GroupJMosaicMaker/Model/PictureMosaic.cs:165-170 | The working palette only ever holds palette tiles. |
| TileSelection.UseAllFailedStays | GroupJMosaicMaker-master/GroupJMosaicMaker/GroupJMosaicMaker/Model/PictureMosaic.cs:168 | Once a run has thrown, later cells change nothing. |
| TileSelection.UseAllAligned | GroupJMosaicMaker-master/GroupJMosaicMaker/GroupJMosaicMaker/Model/PictureMosaic.cs:168-171 | With distinct tiles the working tile list and colour list stay paired entry for entry, and the working tiles stay distinct. |
| TileSelection.UseAllCycle | GroupJMosaicMaker-master/GroupJMosaicMaker/GroupJMosaicMaker/Model/PictureMosaic.cs:162-171 | With K tiles, after n >= 1 cells the working lists hold K - 1 - (n - 1) mod K entries. |
| TileSelection.UseAllRefills | GroupJMosaicMaker-master/GroupJMosaicMaker/GroupJMosaicMaker/Model/PictureMosaic.cs:162-166 | The lists are empty, and refilled at the next cell, exactly after cells K, 2K, 3K, ... |
| TileSelection.UseAllShrinks | GroupJMosaicMaker-master/GroupJMosaicMaker/GroupJMosaicMaker/Model/PictureMosaic.cs:162-171 | Each cell removes one entry, after refilling empty lists. |
| TileSelection.UseAllNoRepeat | GroupJMosaicMaker-master/GroupJMosaicMaker/GroupJMosaicMaker/Model/PictureMosaic.cs:144-179 | With distinct tiles, two cells in the same block of K consecutive cells (K the palette size) get different tiles. |
| TileSelection.UseAllTakes | GroupJMosaicMaker-master/GroupJMosaicMaker/GroupJMosaicMaker/Model/PictureMosaic.cs:170 | The tile chosen at a cell has left the working palette. |
| TileSelection.UseAllStaysOut | GroupJMosaicMaker-master/GroupJMosaicMaker/GroupJMosaicMaker/Model/PictureMosaic.cs:162-171 | Without a refill in between, a tile out of the working palette stays out. |
| TileSelection.JuxStep | GroupJMosaicMaker-master/GroupJMosaicMaker/GroupJMosaicMaker/Model/PictureMosaic.cs:115-127 | Selects from the working lists, resets them when the count reaches the draw, then removes the tile by reference and the index by position; only palette tiles remain. |
| TileSelection.JuxRun | GroupJMosaicMaker-master/GroupJMosaicMaker/GroupJMosaicMaker/Model/PictureMosaic.cs:107-133 | The working lists keep equal lengths and only palette tiles. A run that has not failed has chosen one tile per cell. |
| TileSelection.JuxDistinct | GroupJMosaicMaker-master/GroupJMosaicMaker/GroupJMosaicMaker/Model/PictureMosaic.cs:119-127 | With distinct tiles, the working palette never holds a tile twice, before or after a reset. |
| TileSelection.JuxNoImmediateRepeat | GroupJMosaicMaker-master/GroupJMosaicMaker/GroupJMosaicMaker/Model/PictureMosaic.cs:91-133 | With distinct tiles, two cells visited one after the other never get the same tile, whatever the draws. This is what "prevent juxtaposed" promises. |
| TileSelection.JuxRepeatAfterReset | GroupJMosaicMaker-master/GroupJMosaicMaker/GroupJMosaicMaker/Model/PictureMosaic.cs:115-127 | The promise stops there: after a reset a tile can come back two cells later. Cells 0 and 2 both get tile 10, and in an image two cells wide these are vertical neighbours. |
| TileSelection.ClosestJuxRepeatAfterReset | GroupJMosaicMaker-master/GroupJMosaicMaker/GroupJMosaicMaker/Model/PictureMosaic.cs:115-127 | The same repeat, run with FindIndexOfClosestColor as the search. |
| TileSelection.JuxFailedStays | GroupJMosaicMaker-master/GroupJMosaicMaker/GroupJMosaicMaker/Model/PictureMosaic.cs:115 | Once a run has thrown, later cells change nothing. |
| TileSelection.JuxOneTileFails | GroupJMosaicMaker-master/GroupJMosaicMaker/GroupJMosaicMaker/Model/PictureMosaic.cs:115-127 | With a one-tile palette and draws in 2..6, the first cell succeeds and the second throws. |
| TileSelection.JuxLargePaletteInvariant | GroupJMosaicMaker-master/GroupJMosaicMaker/GroupJMosaicMaker/Model/PictureMosaic.cs:117-124 | With draws in 2..6, the count since the last reset stays at most 5 and the working lists keep at least K - 6 entries. |
| TileSelection.JuxLargePaletteCompletes | GroupJMosaicMaker-master/GroupJMosaicMaker/GroupJMosaicMaker/Model/PictureMosaic.cs:107-133 | A palette of seven or more tiles never runs dry. |
| TileSelection.JuxMisalignment | GroupJMosaicMaker-master/GroupJMosaicMaker/GroupJMosaicMaker/Model/PictureMosaic.cs:119-127 | After a reset, tile 20 (grey) ends up beside white, and a third white cell gets tile 20. |
| TileSelection.ClosestFindsExactly | GroupJMosaicMaker-master/GroupJMosaicMaker/GroupJMosaicMaker/Utility/MosaicCalculations.cs:80-85 | FindIndexOfClosestColor returns the first entry equal to the target, which is at distance 0. |
| TileSelection.ClosestJuxMisalignment | GroupJMosaicMaker-master/GroupJMosaicMaker/GroupJMosaicMaker/Model/PictureMosaic.cs:115-127 | The misalignment example, run with FindIndexOfClosestColor itself: tile 20 ends up paired with white, and the third cell gets it. |
| PictureMosaics.PlainStop | GroupJMosaicMaker-master/GroupJMosaicMaker/GroupJMosaicMaker/Model/PictureMosaic.cs:72-85 | A plain walk that stopped early has failed for good, or its first cell was too large; the tiles written are the run's prefix. |
| PictureMosaics.JuxStop | GroupJMosaicMaker-master/GroupJMosaicMaker/GroupJMosaicMaker/Model/PictureMosaic.cs:107-133 | The same for the prevent-juxtaposed walk. |
| PictureMosaics.UseAllStop | GroupJMosaicMaker-master/GroupJMosaicMaker/GroupJMosaicMaker/Model/PictureMosaic.cs:154-176 | The same for the use-all walk. |
| PictureMosaics.SlotInCell | GroupJMosaicMaker-master/GroupJMosaicMaker/GroupJMosaicMaker/Model/PictureMosaic.cs:193-203 | Every pixel of a clipped cell receives a list entry below the cell's pixel count. |
| PictureMosaics.CellPixelsAtMostFirst | GroupJMosaicMaker-master/GroupJMosaicMaker/GroupJMosaicMaker/Model/PictureMosaic.cs:195-197 | No cell has more pixels than the first one, so only the first cell's write can throw. |
| PictureMosaics.FullCellShowsTile | GroupJMosaicMaker-master/GroupJMosaicMaker/GroupJMosaicMaker/Model/PictureMosaic.cs:181-204 | With grid 50, a full cell shows its tile unchanged: pixel (x, y) shows tile pixel (x mod 50, y mod 50). |
| PictureMosaics.NarrowCellPoursTile | GroupJMosaicMaker-master/GroupJMosaicMaker/GroupJMosaicMaker/Model/PictureMosaic.cs:181-204 | With a grid below 50 the tile is poured, not cropped: the second row of a cell starts with tile pixel number grid, which lies in the tile's first row. |
| PictureMosaics.PictureMosaic.constructor | GroupJMosaicMaker-master/GroupJMosaicMaker/GroupJMosaicMaker/Model/PictureMosaic.cs:49-53 | The mosaic writes into the caller's buffer and keeps the palette list in order. |
| PictureMosaics.PictureMosaic.CreatePictureMosaic | GroupJMosaicMaker-master/GroupJMosaicMaker/GroupJMosaicMaker/Model/PictureMosaic.cs:65-88 | Completes exactly when the palette is non-empty (or there are no cells) and the first cell fits a tile. The cells written are exactly those the plain run chose for, each holding its poured tile. |
| PictureMosaics.PictureMosaic.PlainWalk | GroupJMosaicMaker-master/GroupJMosaicMaker/GroupJMosaicMaker/Model/PictureMosaic.cs:72-85 | The same, for any search meeting the closest-colour search's contract. |
| PictureMosaics.PictureMosaic.PlainRow | GroupJMosaicMaker-master/GroupJMosaicMaker/GroupJMosaicMaker/Model/PictureMosaic.cs:74-84 | One column loop extends the tiled prefix and the plain run by one row, or stops where the run fails. |
| PictureMosaics.PictureMosaic.PlainCell | GroupJMosaicMaker-master/GroupJMosaicMaker/GroupJMosaicMaker/Model/PictureMosaic.cs:76-83 | One cell: average, search, write; the tiled prefix grows by the run's next tile. |
| PictureMosaics.PictureMosaic.CreatePictureMosaicPreventJuxtaposed | GroupJMosaicMaker-master/GroupJMosaicMaker/GroupJMosaicMaker/Model/PictureMosaic.cs:96-136 | Same shape as CreatePictureMosaic, against the prevent-juxtaposed run under the given draws. |
| PictureMosaics.PictureMosaic.JuxWalk | GroupJMosaicMaker-master/GroupJMosaicMaker/GroupJMosaicMaker/Model/PictureMosaic.cs:107-133 | The same, for any search meeting the search contract. |
| PictureMosaics.PictureMosaic.JuxRow | GroupJMosaicMaker-master/GroupJMosaicMaker/GroupJMosaicMaker/Model/PictureMosaic.cs:109-132 | One column loop of the prevent-juxtaposed walk, with the working lists equal to the run's. |
| PictureMosaics.PictureMosaic.JuxCell | GroupJMosaicMaker-master/GroupJMosaicMaker/GroupJMosaicMaker/Model/PictureMosaic.cs:111-131 | One cell of the prevent-juxtaposed walk; the working lists and count after it are the run's next state. |
| PictureMosaics.PictureMosaic.JuxSelect | GroupJMosaicMaker-master/GroupJMosaicMaker/GroupJMosaicMaker/Model/PictureMosaic.cs:115-127 | The selection, reset and removals of one cell give exactly JuxStep's next state; it fails exactly when JuxStep fails. |
| PictureMosaics.PictureMosaic.CreatePictureMosaicUsingAllImagesBeforeRepeat | GroupJMosaicMaker-master/GroupJMosaicMaker/GroupJMosaicMaker/Model/PictureMosaic.cs:144-179 | Same shape as CreatePictureMosaic, against the use-all run. |
| PictureMosaics.PictureMosaic.UseAllWalk | GroupJMosaicMaker-master/GroupJMosaicMaker/GroupJMosaicMaker/Model/PictureMosaic.cs:154-176 | The same, for any search meeting the search contract. |
| PictureMosaics.PictureMosaic.UseAllRow | GroupJMosaicMaker-master/GroupJMosaicMaker/GroupJMosaicMaker/Model/PictureMosaic.cs:156-175 | One column loop of the use-all walk, with the working lists equal to the run's. |
| PictureMosaics.PictureMosaic.UseAllCell | GroupJMosaicMaker-master/GroupJMosaicMaker/GroupJMosaicMaker/Model/PictureMosaic.cs:158-174 | One cell of the use-all walk; the working lists after it are the run's next state. |
| PictureMosaics.PictureMosaic.CellColor | GroupJMosaicMaker-master/GroupJMosaicMaker/GroupJMosaicMaker/Model/PictureMosaic.cs:76-78 | The colour FindAverageGridColor returns for the next cell is that cell's entry in the walk's colour list, and the carry after it is the walk's. |
| PictureMosaics.PictureMosaic.TileCell | GroupJMosaicMaker-master/GroupJMosaicMaker/GroupJMosaicMaker/Model/PictureMosaic.cs:83 | Writing a tile into the next cell extends the tiled prefix by that tile; it throws exactly for a too-large first cell. |
| PictureMosaics.PictureMosaic.WriteClosestImagePixelsToMosaic | GroupJMosaicMaker-master/GroupJMosaicMaker/GroupJMosaicMaker/Model/PictureMosaic.cs:181-204 | Throws exactly when the cell has more pixels than the list. Either way every cell pixel up to the list's end gets the list entry at its reading-order slot, and nothing else changes. |
| PictureMosaics.PictureMosaic.PourCell | GroupJMosaicMaker-master/GroupJMosaicMaker/GroupJMosaicMaker/Model/PictureMosaic.cs:193-203 | The last two loops pour the list into the clipped cell, row by row. |
| PictureMosaics.PictureMosaic.ReadTile | GroupJMosaicMaker-master/GroupJMosaicMaker/GroupJMosaicMaker/Model/PictureMosaic.cs:184-191 | The first two loops append the tile's 2500 pixels, row by row, to the list. |
| PictureMosaics.PictureMosaic.WriteRow | GroupJMosaicMaker-master/GroupJMosaicMaker/GroupJMosaicMaker/Model/PictureMosaic.cs:197-202 | One row of the cell: the running count advances by the clipped row width, or stops at the list's end. |

## Left out

- The `WriteableBitmap` objects the engines create at the end, and the UI that
  loads, scales, shows and saves images. They do not touch the pixel buffer.
- The ranges the UI enforces are not modelled:
  - grid sizes of 5 to 50;
  - tiles scaled to 50 x 50.

  The model asks for `grid >= 1`. With grid 0 on a non-empty image, the code fails in two ways:
  - The overlay loops never end, because `j += grid` does not advance.
  - The mosaic engines throw `DivideByZeroException` at their first cell. `FindAverageGridColor` counts no pixels and divides by `total`, which is still 0. The triangle mosaic divides by the size of its empty right list.
- `new Random()` / `Next(2, 7)` is replaced by a sequence `draws` of the values drawn at each cell.
- 32-bit integers:
  - The model keeps the 32-bit wrap of `RgbToInt`'s result, which is all `BitConverter.GetBytes` looks at.
  - It does not model `int` overflow of the offset `(x * width + y) * 4`. That needs an image of more than 2^31 / 4, about 537 million pixels.
  - It does not model `int` overflow of the `red`/`green`/`blue` accumulators. They overflow once one cell, or one triangle half, sums more than (2^31 - 1) / 255, about 8.4 million pixels. For a square cell that is grid 2902 or more. The UI's grid limit of 5 to 50 keeps every cell at most 2500 pixels, so it cannot happen in the app. A palette tile adds only 2500 pixels.
- The picture mosaics require every tile to hold at least 9999 bytes (50 x 50 x 4 - 1; the last alpha byte is never read). The code would throw on a shorter tile in `CalculateAverageColorOfPalette`, which the model shows as `None`. The app always scales tiles to 50 x 50.
- Every engine requires the buffer to hold at least width x height x 4 bytes. This is more than the code needs: no engine touches the last pixel's alpha byte, and the square overlay of an image smaller than one cell writes nothing at all. The reason for the requirement is the app's decoder, which always hands over exactly width x height x 4 bytes.
- PictureMosaics.PictureMosaic.TilesFit: the palette buffers are assumed to be distinct from the image buffer. The app never passes the image itself as a tile.
- The private `getPixelBgra8`/`setPixelBgra8` copies are identical to the public ones and are modelled once.
- `CreateCopyOfImagePalette` and `CreateCopyOfAverageColors` are modelled by one generic `CreateCopyOfList`.
- The loops of several methods are split into helper methods. `SumTile`, `AverageTile`, `SumCell`, `SquareRow`/`SquareCell`, `TriangleCell`, `AddRowToLists`, `Draw*`, `ConvertPixel`, `*Walk`/`*Row`/`*Cell`, `JuxSelect`, `ReadTile`, `PourCell` and `WriteRow` each hold one loop level or one loop body.
- The closest-colour search is passed to the walks as a parameter that meets its contract. The public methods pass `FindIndexOfClosestColor`.
- Exceptions are modelled as the `false` / `None` / `failed` results described above. The code does not catch them, so the model states the buffer as it is when the exception leaves the method.
