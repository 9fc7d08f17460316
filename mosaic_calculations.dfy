/**
 * The static helper class of the mosaic maker: pixel access in a flat BGRA
 * byte buffer, the RGB pack/unpack round trip, colour distance and
 * nearest-colour search, the two averaging routines with their carried
 * accumulators, the black/white conversion and the list copies.
 */
module MosaicCalculations {
  import opened Geometry

  type byte = b: int | 0 <= b < 256

  /** A colour as the engines see it: three 8-bit channels (alpha is never read). */
  datatype Color = Color(r: byte, g: byte, b: byte)

  datatype Option<T> = None | Some(value: T)

  /** The running red/green/blue accumulators the engines thread through `ref` parameters. */
  datatype Acc = Acc(red: nat, green: nat, blue: nat)

  const Black := Color(0, 0, 0)
  const White := Color(255, 255, 255)

  /** Side of a palette tile, in pixels; tiles are 50x50 BGRA buffers. */
  const TileSide := 50
  const TilePixels := 2500
  /**
   * Length a tile buffer needs for the 50x50 reads: the last byte read is the
   * red byte of pixel 2499, byte 9998 (the alpha byte is never read).
   */
  const TileBytes := TilePixels * 4 - 1

  // ---------------------------------------------------------------------------
  // RgbToInt and the byte unpack through BitConverter.GetBytes

  /** Bitwise OR of two naturals. */
  function BitOr(a: nat, b: nat): nat
    decreases a + b
  {
    if a == 0 then b
    else if b == 0 then a
    else 2 * BitOr(a / 2, b / 2) + (if a % 2 == 1 || b % 2 == 1 then 1 else 0)
  }

  function Pow2(n: nat): nat {
    if n == 0 then 1 else 2 * Pow2(n - 1)
  }

  /**
   * `(red << 0) | (green << 8) | (blue << 16)` as a 32-bit int, given by its
   * low 32 bits (which is all BitConverter.GetBytes looks at). Channels above
   * 255 are not masked: their high bits are ORed into the next channel.
   */
  function RgbToInt(red: nat, green: nat, blue: nat): nat {
    BitOr(BitOr(red, green * 256), blue * 65536) % 0x1_0000_0000
  }

  /** Byte k of the little-endian encoding of a 32-bit value. */
  function ByteOf(v: nat, k: nat): byte
    requires k < 4
  {
    if k == 0 then v % 256 else ByteOf(v / 256, k - 1)
  }

  /** `Color.FromArgb(0, bytes[0], bytes[1], bytes[2])` over `BitConverter.GetBytes(v)`. */
  function FromPackedRgb(v: nat): Color {
    Color(ByteOf(v, 0), ByteOf(v, 1), ByteOf(v, 2))
  }

  lemma {:induction false} BitOrShifted(a: nat, b: nat, n: nat)
    requires a < Pow2(n)
    ensures BitOr(a, b * Pow2(n)) == a + b * Pow2(n)
  {
    if n == 0 || a == 0 || b == 0 {
    } else {
      var q := Pow2(n - 1);
      assert Pow2(n) == 2 * q;
      assert b * Pow2(n) == 2 * (b * q);
      assert a / 2 < q;
      BitOrShifted(a / 2, b, n - 1);
      var m := b * Pow2(n);
      assert m / 2 == b * q && m % 2 == 0 && m != 0;
      assert BitOr(a, m) == 2 * BitOr(a / 2, m / 2) + (if a % 2 == 1 then 1 else 0);
    }
  }

  lemma DivMod256(lo: nat, hi: nat)
    requires lo < 256
    ensures (lo + hi * 256) / 256 == hi && (lo + hi * 256) % 256 == lo
  {
    DivRange(lo + hi * 256, hi, 256);
  }

  lemma ModSmall(v: nat, m: nat)
    requires v < m
    ensures v % m == v
  {
  }

  lemma Pow2Values()
    ensures Pow2(8) == 256 && Pow2(16) == 65536
  {
    assert Pow2(4) == 16;
  }

  /** For in-range channels the ORs add: the packed value is r + 256 g + 65536 b. */
  lemma PackedValue(r: byte, g: byte, b: byte)
    ensures RgbToInt(r, g, b) == r + (g + b * 256) * 256
  {
    Pow2Values();
    BitOrShifted(r, g, 8);
    var lo := BitOr(r, g * 256);
    assert lo == r + g * 256;
    BitOrShifted(lo, b, 16);
    var v := BitOr(lo, b * 65536);
    assert v == r + g * 256 + b * 65536;
    assert v < 0x1_0000_0000;
    ModSmall(v, 0x1_0000_0000);
  }

  lemma UnpackValue(r: byte, g: byte, b: byte)
    ensures FromPackedRgb(r + (g + b * 256) * 256) == Color(r, g, b)
  {
    var hi := g + b * 256;
    var v := r + hi * 256;
    DivMod256(r, hi);
    assert ByteOf(v, 0) == r;
    DivMod256(g, b);
    assert ByteOf(v, 1) == ByteOf(hi, 0) == g;
    DivMod256(b, 0);
    assert ByteOf(v, 2) == ByteOf(hi, 1) == ByteOf(b, 0) == b;
  }

  /** Packing three in-range channels and unpacking the bytes gives them back. */
  lemma PackRoundTrip(r: byte, g: byte, b: byte)
    ensures FromPackedRgb(RgbToInt(r, g, b)) == Color(r, g, b)
  {
    PackedValue(r, g, b);
    UnpackValue(r, g, b);
  }

  /** An out-of-range accumulator leaks into the next channel: 400 = 0x190 ORs its 1 into green and blue. */
  lemma PackOverflowExample()
    ensures FromPackedRgb(RgbToInt(400, 400, 0)) == Color(144, 145, 1)
  {
    OrOverflow();
    assert FromPackedRgb(0x1_9190) == Color(0x90, 0x91, 0x01);
  }

  /** 0x190 | 0x1_9000 = 0x1_9190: the two shifted copies of 400 share no bit. */
  lemma OrOverflow()
    ensures RgbToInt(400, 400, 0) == 0x1_9190
  {
    assert Pow2(12) == 4096 by {
      Pow2Values();
    }
    BitOrShifted(400, 25, 12);
    assert BitOr(400, 400 * 256) == 0x1_9190;
    ModSmall(0x1_9190, 0x1_0000_0000);
  }

  // ---------------------------------------------------------------------------
  // Pixel access

  /** GetPixelBgra8 (and its private twin getPixelBgra8): blue, green, red at offset, offset+1, offset+2. */
  function GetPixelBgra8(pixels: seq<byte>, x: int, y: int, width: nat): Color
    requires 0 <= Offset(x, y, width) && Offset(x, y, width) + 2 < |pixels|
  {
    var offset := Offset(x, y, width);
    Color(pixels[offset + 2], pixels[offset + 1], pixels[offset])
  }

  /** The colour of an image pixel of a buffer that holds the whole width x height image. */
  function PixelAt(s: seq<byte>, x: int, y: int, width: nat, height: nat): Color
    requires InImage(x, y, width, height) && |s| >= width * height * 4
  {
    OffsetInBuffer(x, y, width, height);
    GetPixelBgra8(s, x, y, width)
  }

  /** The fourth (alpha) byte of an image pixel, which no engine writes. */
  function AlphaAt(s: seq<byte>, x: int, y: int, width: nat, height: nat): byte
    requires InImage(x, y, width, height) && |s| >= width * height * 4
  {
    OffsetInBuffer(x, y, width, height);
    s[Offset(x, y, width) + 3]
  }

  /** t has s's length, s's alpha byte on every image pixel, and s's bytes past the image. */
  ghost predicate KeepsAlphaAndTail(t: seq<byte>, s: seq<byte>, width: nat, height: nat) {
    && |t| == |s| && |s| >= width * height * 4
    && (forall x, y :: InImage(x, y, width, height) ==> AlphaAt(t, x, y, width, height) == AlphaAt(s, x, y, width, height))
    && (forall k :: width * height * 4 <= k < |s| ==> t[k] == s[k])
  }

  /**
   * SetPixelBgra8 (and its private twin setPixelBgra8): writes the colour's
   * blue, green and red bytes and nothing else.
   */
  method SetPixelBgra8(pixels: array<byte>, x: int, y: int, color: Color, width: nat)
    requires 0 <= Offset(x, y, width) && Offset(x, y, width) + 2 < pixels.Length
    modifies pixels
    ensures GetPixelBgra8(pixels[..], x, y, width) == color
    ensures forall k :: 0 <= k < pixels.Length && !(Offset(x, y, width) <= k < Offset(x, y, width) + 3) ==> pixels[k] == old(pixels[k])
  {
    var offset := (x * width + y) * 4;
    pixels[offset + 2] := color.r;
    pixels[offset + 1] := color.g;
    pixels[offset + 0] := color.b;
  }

  /**
   * What a SetPixelBgra8 on image pixel (x0, y0) means for the image: that
   * pixel has the new colour, every other pixel keeps its colour, and no
   * alpha byte nor any byte past the image changes.
   */
  lemma SetPixelFrame(t: seq<byte>, s: seq<byte>, x0: int, y0: int, color: Color, width: nat, height: nat)
    requires |t| == |s| >= width * height * 4 && InImage(x0, y0, width, height)
    requires PixelAt(t, x0, y0, width, height) == color
    requires forall k :: 0 <= k < |s| && !(Offset(x0, y0, width) <= k < Offset(x0, y0, width) + 3) ==> t[k] == s[k]
    ensures KeepsAlphaAndTail(t, s, width, height)
    ensures PixelAt(t, x0, y0, width, height) == color
    ensures forall x, y :: InImage(x, y, width, height) && (x, y) != (x0, y0) ==> PixelAt(t, x, y, width, height) == PixelAt(s, x, y, width, height)
  {
    OffsetInBuffer(x0, y0, width, height);
    forall x, y | InImage(x, y, width, height)
      ensures AlphaAt(t, x, y, width, height) == AlphaAt(s, x, y, width, height)
      ensures (x, y) != (x0, y0) ==> PixelAt(t, x, y, width, height) == PixelAt(s, x, y, width, height)
    {
      OtherPixelKept(t, s, x0, y0, x, y, width, height);
    }
  }

  lemma OtherPixelKept(t: seq<byte>, s: seq<byte>, x0: int, y0: int, x: int, y: int, width: nat, height: nat)
    requires |t| == |s| >= width * height * 4 && InImage(x0, y0, width, height) && InImage(x, y, width, height)
    requires forall k :: 0 <= k < |s| && !(Offset(x0, y0, width) <= k < Offset(x0, y0, width) + 3) ==> t[k] == s[k]
    ensures AlphaAt(t, x, y, width, height) == AlphaAt(s, x, y, width, height)
    ensures (x, y) != (x0, y0) ==> PixelAt(t, x, y, width, height) == PixelAt(s, x, y, width, height)
  {
    OffsetInBuffer(x, y, width, height);
    var o := Offset(x, y, width);
    if (x, y) != (x0, y0) {
      OffsetsDisjoint(x, y, x0, y0, width);
      assert t[o] == s[o] && t[o + 1] == s[o + 1] && t[o + 2] == s[o + 2];
    }
    assert t[o + 3] == s[o + 3];
  }

  lemma KeepsTransitive(t: seq<byte>, u: seq<byte>, s: seq<byte>, width: nat, height: nat)
    requires KeepsAlphaAndTail(t, u, width, height) && KeepsAlphaAndTail(u, s, width, height)
    ensures KeepsAlphaAndTail(t, s, width, height)
  {
  }

  /**
   * A SetPixelBgra8 call on image pixel (x, y), seen at image level: that
   * pixel gets the colour, no other pixel, alpha byte or tail byte changes.
   */
  method PaintPixel(pixels: array<byte>, x: nat, y: nat, color: Color, width: nat, height: nat, ghost orig: seq<byte>)
    requires pixels.Length >= width * height * 4 && InImage(x, y, width, height)
    requires KeepsAlphaAndTail(pixels[..], orig, width, height)
    modifies pixels
    ensures KeepsAlphaAndTail(pixels[..], orig, width, height)
    ensures PixelAt(pixels[..], x, y, width, height) == color
    ensures forall x', y' :: InImage(x', y', width, height) && (x', y') != (x, y) ==>
      PixelAt(pixels[..], x', y', width, height) == old(PixelAt(pixels[..], x', y', width, height))
  {
    ghost var before := pixels[..];
    OffsetInBuffer(x, y, width, height);
    SetPixelBgra8(pixels, x, y, color, width);
    SetPixelFrame(pixels[..], before, x, y, color, width, height);
    KeepsTransitive(pixels[..], before, orig, width, height);
  }

  /** A buffer is determined by its image pixels' colours, their alpha bytes and the bytes past the image. */
  lemma SameImage(t: seq<byte>, u: seq<byte>, width: nat, height: nat)
    requires KeepsAlphaAndTail(t, u, width, height)
    requires forall x, y :: InImage(x, y, width, height) ==> PixelAt(t, x, y, width, height) == PixelAt(u, x, y, width, height)
    ensures t == u
  {
    forall k | 0 <= k < |t|
      ensures t[k] == u[k]
    {
      if k < width * height * 4 {
        var x, y := ByteOwner(k, width, height);
        assert AlphaAt(t, x, y, width, height) == AlphaAt(u, x, y, width, height);
        assert PixelAt(t, x, y, width, height) == PixelAt(u, x, y, width, height);
      }
    }
  }

  // ---------------------------------------------------------------------------
  // Colour distance and nearest-colour search

  function Abs(n: int): nat {
    if n < 0 then -n else n
  }

  /** Manhattan distance over the three channels. */
  function FindDifferenceRgb(color1: Color, color2: Color): (d: nat)
    ensures d <= 765
    ensures d == 0 <==> color1 == color2
  {
    Abs(color1.r - color2.r) + Abs(color1.g - color2.g) + Abs(color1.b - color2.b)
  }

  lemma DifferenceSymmetric(color1: Color, color2: Color)
    ensures FindDifferenceRgb(color1, color2) == FindDifferenceRgb(color2, color1)
  {
  }

  /** LINQ `Min` over the distances to `target`. */
  function MinDifference(colors: seq<Color>, target: Color): (d: nat)
    requires |colors| > 0
  {
    var first := FindDifferenceRgb(colors[0], target);
    if |colors| == 1 then first
    else
      var rest := MinDifference(colors[1..], target);
      if first <= rest then first else rest
  }

  /** The minimum is attained and nothing is closer. */
  lemma {:induction false} MinDifferenceIsMinimum(colors: seq<Color>, target: Color)
    requires |colors| > 0
    ensures exists k :: 0 <= k < |colors| && FindDifferenceRgb(colors[k], target) == MinDifference(colors, target)
    ensures forall k :: 0 <= k < |colors| ==> MinDifference(colors, target) <= FindDifferenceRgb(colors[k], target)
  {
    if |colors| == 1 {
      assert FindDifferenceRgb(colors[0], target) == MinDifference(colors, target);
    } else {
      MinDifferenceIsMinimum(colors[1..], target);
      assert forall k :: 1 <= k < |colors| ==> colors[k] == colors[1..][k - 1];
      var k :| 0 <= k < |colors[1..]| && FindDifferenceRgb(colors[1..][k], target) == MinDifference(colors[1..], target);
      assert FindDifferenceRgb(colors[k + 1], target) == MinDifference(colors[1..], target);
      if FindDifferenceRgb(colors[0], target) <= MinDifference(colors[1..], target) {
        assert FindDifferenceRgb(colors[0], target) == MinDifference(colors, target);
      } else {
        assert FindDifferenceRgb(colors[k + 1], target) == MinDifference(colors, target);
      }
    }
  }

  /** `List.FindIndex` for the first colour at distance d from target; -1 when there is none. */
  function FindIndexWithDifference(colors: seq<Color>, target: Color, d: nat): (k: int)
    ensures -1 <= k < |colors|
  {
    if colors == [] then -1
    else if FindDifferenceRgb(colors[0], target) == d then 0
    else
      var k := FindIndexWithDifference(colors[1..], target, d);
      if k == -1 then -1 else k + 1
  }

  /** The index found is at distance d and every earlier colour is not; -1 means no colour is. */
  lemma {:induction false} FindIndexWithDifferenceIsFirst(colors: seq<Color>, target: Color, d: nat)
    ensures var k := FindIndexWithDifference(colors, target, d);
      && (k >= 0 ==> FindDifferenceRgb(colors[k], target) == d)
      && forall i :: 0 <= i < |colors| && (k == -1 || i < k) ==> FindDifferenceRgb(colors[i], target) != d
  {
    if colors != [] && FindDifferenceRgb(colors[0], target) != d {
      FindIndexWithDifferenceIsFirst(colors[1..], target, d);
      assert forall i :: 1 <= i < |colors| ==> colors[i] == colors[1..][i - 1];
    }
  }

  /**
   * FindIndexOfClosestColor: an index into the list, or None for the
   * exception LINQ `Min` throws on an empty list. Which index it is, is
   * stated by ClosestIsFirstMinimum.
   */
  function FindIndexOfClosestColor(colors: seq<Color>, target: Color): (r: Option<nat>)
    ensures r.None? <==> |colors| == 0
    ensures r.Some? ==> r.value < |colors|
  {
    if |colors| == 0 then None
    else
      var d := MinDifference(colors, target);
      var k := FindIndexWithDifference(colors, target, d);
      MinDifferenceIsMinimum(colors, target);
      FindIndexWithDifferenceIsFirst(colors, target, d);
      Some(k)
  }

  /** The index found is the first one at minimal distance from the target. */
  lemma ClosestIsFirstMinimum(colors: seq<Color>, target: Color)
    requires |colors| > 0
    ensures var k := FindIndexOfClosestColor(colors, target).value;
      && (forall i :: 0 <= i < |colors| ==> FindDifferenceRgb(colors[k], target) <= FindDifferenceRgb(colors[i], target))
      && (forall i :: 0 <= i < k ==> FindDifferenceRgb(colors[k], target) < FindDifferenceRgb(colors[i], target))
  {
    var d := MinDifference(colors, target);
    MinDifferenceIsMinimum(colors, target);
    FindIndexWithDifferenceIsFirst(colors, target, d);
  }

  /** A colour equal to the target is found, at its first occurrence. */
  lemma ClosestFindsExact(colors: seq<Color>, target: Color, k: nat)
    requires k < |colors| && colors[k] == target
    requires forall i :: 0 <= i < k ==> colors[i] != target
    ensures FindIndexOfClosestColor(colors, target) == Some(k)
  {
    ClosestIsFirstMinimum(colors, target);
    var found := FindIndexOfClosestColor(colors, target).value;
    assert FindDifferenceRgb(colors[found], target) <= FindDifferenceRgb(colors[k], target);
  }

  /** Black (distance 30) beats white (distance 735) for a dark grey target. */
  lemma ClosestColorExample()
    ensures FindIndexOfClosestColor([Black, White], Color(10, 10, 10)) == Some(0)
  {
    var cs, t := [Black, White], Color(10, 10, 10);
    ClosestIsFirstMinimum(cs, t);
    assert FindDifferenceRgb(cs[0], t) == 30;
    assert FindDifferenceRgb(cs[1], t) == 735;
  }

  // ---------------------------------------------------------------------------
  // Palette average colours with carried accumulators

  /** Colour of pixel p (row-major) of a 50x50 tile. */
  function TilePixel(tile: seq<byte>, p: nat): Color
    requires p < TilePixels && |tile| >= TileBytes
  {
    Color(tile[p * 4 + 2], tile[p * 4 + 1], tile[p * 4])
  }

  /** Channel sums over the first p pixels of a tile, in row-major order. */
  function TileSum(tile: seq<byte>, p: nat): Acc
    requires p <= TilePixels && |tile| >= TileBytes
  {
    if p == 0 then Acc(0, 0, 0)
    else
      var a, c := TileSum(tile, p - 1), TilePixel(tile, p - 1);
      Acc(a.red + c.r, a.green + c.g, a.blue + c.b)
  }

  lemma {:induction false} TileSumBound(tile: seq<byte>, p: nat)
    requires p <= TilePixels && |tile| >= TileBytes
    ensures var a := TileSum(tile, p); a.red <= 255 * p && a.green <= 255 * p && a.blue <= 255 * p
  {
    if p > 0 {
      TileSumBound(tile, p - 1);
    }
  }

  predicate AllTiles(tiles: seq<seq<byte>>) {
    forall k :: 0 <= k < |tiles| ==> |tiles[k]| >= TileBytes
  }

  /** Every tile buffer of the palette is long enough for the 50x50 reads. */
  predicate PaletteFits(palette: seq<array<byte>>) {
    forall t :: t in palette ==> t.Length >= TileBytes
  }

  /**
   * The accumulators after CalculateAverageColorOfPalette finishes a tile:
   * they enter holding the previous tile's average (they are never reset),
   * the tile's 2500 pixels are added and the sum is divided by 2500.
   */
  function PaletteStep(acc: Acc, sum: Acc): Acc {
    Acc((acc.red + sum.red) / TilePixels, (acc.green + sum.green) / TilePixels, (acc.blue + sum.blue) / TilePixels)
  }

  /** The accumulators after the first k tiles. */
  function PaletteCarry(tiles: seq<seq<byte>>, k: nat): Acc
    requires k <= |tiles| && forall i :: 0 <= i < k ==> |tiles[i]| >= TileBytes
  {
    if k == 0 then Acc(0, 0, 0)
    else PaletteStep(PaletteCarry(tiles, k - 1), TileSum(tiles[k - 1], TilePixels))
  }

  /** The colour CalculateAverageColorOfPalette gives tile k: the packed carry after tile k. */
  function PaletteColor(tiles: seq<seq<byte>>, k: nat): Color
    requires k < |tiles| && forall i :: 0 <= i <= k ==> |tiles[i]| >= TileBytes
  {
    var a := PaletteCarry(tiles, k + 1);
    FromPackedRgb(RgbToInt(a.red, a.green, a.blue))
  }

  /** The list CalculateAverageColorOfPalette returns. */
  function PaletteAverages(tiles: seq<seq<byte>>): (colors: seq<Color>)
    requires AllTiles(tiles)
    ensures |colors| == |tiles|
  {
    seq(|tiles|, k requires 0 <= k < |tiles| => PaletteColor(tiles, k))
  }

  /** The carried accumulators never leave 0..255: 255 + 2500 * 255 is still below 256 * 2500. */
  lemma {:induction false} PaletteCarryBound(tiles: seq<seq<byte>>, k: nat)
    requires AllTiles(tiles) && k <= |tiles|
    ensures var a := PaletteCarry(tiles, k); a.red <= 255 && a.green <= 255 && a.blue <= 255
  {
    if k > 0 {
      PaletteCarryBound(tiles, k - 1);
      TileSumBound(tiles[k - 1], TilePixels);
    }
  }

  /** The first tile's colour is the truncated mean of its 2500 pixels. */
  lemma FirstPaletteColor(tiles: seq<seq<byte>>)
    requires AllTiles(tiles) && |tiles| > 0
    ensures var c, sum := PaletteAverages(tiles)[0], TileSum(tiles[0], TilePixels);
            c.r == sum.red / TilePixels && c.g == sum.green / TilePixels && c.b == sum.blue / TilePixels
  {
    PaletteColorIsCarry(tiles, 0);
  }

  /**
   * Every later tile's colour is the truncated mean of its pixel sum plus the
   * previous tile's colour: no channel overflows, so the colour is exactly
   * the carried accumulator.
   */
  lemma NextPaletteColor(tiles: seq<seq<byte>>, k: nat)
    requires AllTiles(tiles) && 0 < k < |tiles|
    ensures var c, p, sum := PaletteAverages(tiles)[k], PaletteAverages(tiles)[k - 1], TileSum(tiles[k], TilePixels);
            c.r == (p.r + sum.red) / TilePixels && c.g == (p.g + sum.green) / TilePixels && c.b == (p.b + sum.blue) / TilePixels
  {
    PaletteColorIsCarry(tiles, k);
    PaletteColorIsCarry(tiles, k - 1);
  }

  lemma PaletteColorIsCarry(tiles: seq<seq<byte>>, k: nat)
    requires AllTiles(tiles) && k < |tiles|
    ensures var c, a := PaletteAverages(tiles)[k], PaletteCarry(tiles, k + 1);
            c.r == a.red && c.g == a.green && c.b == a.blue
  {
    var a := PaletteCarry(tiles, k + 1);
    PaletteCarryBound(tiles, k + 1);
    PackRoundTrip(a.red, a.green, a.blue);
  }

  /** The byte contents of the palette's tiles. */
  function TilesOf(palette: seq<array<byte>>): (tiles: seq<seq<byte>>)
    reads set t | t in palette
    ensures |tiles| == |palette|
  {
    seq(|palette|, k requires 0 <= k < |palette| reads set t | t in palette => palette[k][..])
  }

  /** The two pixel loops of CalculateAverageColorOfPalette: add all 2500 pixels of one tile onto the accumulators. */
  method SumTile(currentBytes: array<byte>, red: nat, green: nat, blue: nat, total: nat)
    returns (red': nat, green': nat, blue': nat, total': nat)
    requires currentBytes.Length >= TileBytes
    ensures total' == total + TilePixels
    ensures var s := TileSum(currentBytes[..], TilePixels);
            red' == red + s.red && green' == green + s.green && blue' == blue + s.blue
  {
    ghost var tile := currentBytes[..];
    red', green', blue', total' := red, green, blue, total;
    for i := 0 to TileSide
      invariant total' == total + i * TileSide
      invariant var s := TileSum(tile, i * TileSide);
                red' == red + s.red && green' == green + s.green && blue' == blue + s.blue
    {
      for j := 0 to TileSide
        invariant total' == total + i * TileSide + j
        invariant var s := TileSum(tile, i * TileSide + j);
                  red' == red + s.red && green' == green + s.green && blue' == blue + s.blue
      {
        total' := total' + 1;
        var pixelColor := GetPixelBgra8(currentBytes[..], i, j, TileSide);
        assert pixelColor == TilePixel(tile, i * TileSide + j);
        red' := red' + pixelColor.r;
        green' := green' + pixelColor.g;
        blue' := blue' + pixelColor.b;
      }
    }
  }

  /**
   * CalculateAverageColorOfPalette: one colour per tile, in palette order,
   * with red/green/blue carried from tile to tile and total reset to 0. The
   * read of a tile too short for 50x50 pixels throws (None); the colours of
   * the tiles before it are lost with the exception.
   */
  method CalculateAverageColorOfPalette(mosaicPalette: seq<array<byte>>) returns (averageColors: Option<seq<Color>>)
    ensures averageColors.Some? <==> PaletteFits(mosaicPalette)
    ensures PaletteFits(mosaicPalette) ==> AllTiles(TilesOf(mosaicPalette)) && averageColors == Some(PaletteAverages(TilesOf(mosaicPalette)))
  {
    ghost var tiles := TilesOf(mosaicPalette);
    var red: nat, green: nat, blue: nat, total: nat := 0, 0, 0, 0;
    var colors: seq<Color> := [];
    for idx := 0 to |mosaicPalette|
      invariant forall i :: 0 <= i < idx ==> mosaicPalette[i].Length >= TileBytes
      invariant forall i :: 0 <= i < idx ==> |tiles[i]| >= TileBytes
      invariant |colors| == idx && forall i :: 0 <= i < idx ==> colors[i] == PaletteColor(tiles, i)
      invariant Acc(red, green, blue) == PaletteCarry(tiles, idx) && total == 0
    {
      var currentBytes := mosaicPalette[idx];
      if currentBytes.Length < TileBytes {
        assert currentBytes in mosaicPalette;
        return None;
      }
      assert tiles[idx] == currentBytes[..];
      red, green, blue, total := AverageTile(currentBytes, red, green, blue);
      var rgbValue := RgbToInt(red, green, blue);
      var color := FromPackedRgb(rgbValue);
      colors := colors + [color];
    }
    assert PaletteFits(mosaicPalette) by {
      forall t | t in mosaicPalette
        ensures t.Length >= TileBytes
      {
        var i :| 0 <= i < |mosaicPalette| && mosaicPalette[i] == t;
      }
    }
    assert AllTiles(tiles);
    assert colors == PaletteAverages(tiles);
    averageColors := Some(colors);
  }

  /** One tile of CalculateAverageColorOfPalette: sum its pixels onto the carried accumulators, divide, reset total. */
  method AverageTile(currentBytes: array<byte>, red: nat, green: nat, blue: nat) returns (red': nat, green': nat, blue': nat, total': nat)
    requires currentBytes.Length >= TileBytes
    ensures Acc(red', green', blue') == PaletteStep(Acc(red, green, blue), TileSum(currentBytes[..], TilePixels)) && total' == 0
  {
    red', green', blue', total' := SumTile(currentBytes, red, green, blue, 0);
    red' := Quot(red', total');
    green' := Quot(green', total');
    blue' := Quot(blue', total');
    total' := 0;
  }

  // ---------------------------------------------------------------------------
  // Grid-cell "average" colour with carried accumulators

  /**
   * The accumulators after one FindAverageGridColor call entered with
   * accumulators acc and total 0 on a cell of n pixels whose anchor pixel has
   * colour `anchor`: the code computes (acc + n * anchor) / n per channel,
   * which is anchor + acc / n (see CarryShift).
   */
  function AverageStep(acc: Acc, anchor: Color, n: nat): Acc
    requires n >= 1
  {
    Acc(anchor.r + Quot(acc.red, n), anchor.g + Quot(acc.green, n), anchor.b + Quot(acc.blue, n))
  }

  lemma MulDiv(n: nat, a: nat)
    requires n >= 1
    ensures (n * a) / n == a
  {
    DivRange(n * a, a, n);
  }

  /**
   * The two pixel loops of FindAverageGridColor: they run once per pixel of
   * the clipped cell anchored at (i, j) but read only the anchor pixel, so
   * every channel grows by n times the anchor's value.
   */
  method SumCell(imagePixels: array<byte>, imageWidth: nat, imageHeight: nat, grid: nat,
                 red: nat, green: nat, blue: nat, total: nat, i: nat, j: nat)
    returns (red': nat, green': nat, blue': nat, total': nat)
    requires grid >= 1 && InImage(i, j, imageWidth, imageHeight)
    requires imagePixels.Length >= imageWidth * imageHeight * 4
    ensures var n := CellPixels(i, j, imageWidth, imageHeight, grid);
            var c := PixelAt(imagePixels[..], i, j, imageWidth, imageHeight);
            && total' == total + n
            && red' == red + n * c.r && green' == green + n * c.g && blue' == blue + n * c.b
  {
    OffsetInBuffer(i, j, imageWidth, imageHeight);
    var c := GetPixelBgra8(imagePixels[..], i, j, imageWidth);
    ghost var cw := CellEnd(j, grid, imageWidth) - j;
    red', green', blue', total' := red, green, blue, total;
    ghost var m: nat := 0;
    var hPixel := i;
    while hPixel < i + grid && hPixel < imageHeight
      invariant i <= hPixel <= CellEnd(i, grid, imageHeight)
      invariant m == (hPixel - i) * cw && total' == total + m
      invariant red' == red + m * c.r && green' == green + m * c.g && blue' == blue + m * c.b
    {
      var wPixel := j;
      while wPixel < j + grid && wPixel < imageWidth
        invariant j <= wPixel <= CellEnd(j, grid, imageWidth)
        invariant m == (hPixel - i) * cw + (wPixel - j) && total' == total + m
        invariant red' == red + m * c.r && green' == green + m * c.g && blue' == blue + m * c.b
      {
        total' := total' + 1;
        var pixelColor := GetPixelBgra8(imagePixels[..], i, j, imageWidth);
        red' := red' + pixelColor.r;
        green' := green' + pixelColor.g;
        blue' := blue' + pixelColor.b;
        MulSucc(m, c.r);
        MulSucc(m, c.g);
        MulSucc(m, c.b);
        m := m + 1;
        wPixel := wPixel + 1;
      }
      MulSucc(hPixel - i, cw);
      hPixel := hPixel + 1;
    }
  }

  /**
   * FindAverageGridColor: sums the cell (see SumCell), divides each channel
   * by the pixel count, packs and unpacks the result and zeroes the total;
   * the accumulators come in and go out by reference.
   */
  method FindAverageGridColor(imagePixels: array<byte>, imageWidth: nat, imageHeight: nat, grid: nat,
                              red: nat, green: nat, blue: nat, total: nat, i: nat, j: nat)
    returns (color: Color, red': nat, green': nat, blue': nat, total': nat)
    requires grid >= 1 && InImage(i, j, imageWidth, imageHeight)
    requires imagePixels.Length >= imageWidth * imageHeight * 4
    ensures total' == 0
    ensures var n := CellPixels(i, j, imageWidth, imageHeight, grid);
            var c := PixelAt(imagePixels[..], i, j, imageWidth, imageHeight);
            && red' == (red + n * c.r) / (total + n)
            && green' == (green + n * c.g) / (total + n)
            && blue' == (blue + n * c.b) / (total + n)
            && (total == 0 ==> Acc(red', green', blue') == AverageStep(Acc(red, green, blue), c, n))
    ensures color == FromPackedRgb(RgbToInt(red', green', blue'))
    ensures red == 0 && green == 0 && blue == 0 && total == 0 ==> color == PixelAt(imagePixels[..], i, j, imageWidth, imageHeight)
  {
    var sumRed, sumGreen, sumBlue, count := SumCell(imagePixels, imageWidth, imageHeight, grid, red, green, blue, total, i, j);
    red' := Quot(sumRed, count);
    green' := Quot(sumGreen, count);
    blue' := Quot(sumBlue, count);
    var rgbValue := RgbToInt(red', green', blue');
    total' := 0;
    color := FromPackedRgb(rgbValue);
    if total == 0 {
      var c := PixelAt(imagePixels[..], i, j, imageWidth, imageHeight);
      var a := AverageStep(Acc(red, green, blue), c, count);
      CarryShift(Acc(red, green, blue), c, count);
      assert red' == a.red && green' == a.green && blue' == a.blue;
      if red == 0 && green == 0 && blue == 0 {
        assert a == Acc(c.r, c.g, c.b);
        PackRoundTrip(c.r, c.g, c.b);
      }
    }
  }

  /** Colour of the anchor pixel of cell k in the original image. */
  function AnchorColor(orig: seq<byte>, width: nat, height: nat, grid: nat, k: nat): Color
    requires grid >= 1 && |orig| >= width * height * 4 && k < CellCount(width, height, grid)
  {
    AnchorInImage(k, width, height, grid);
    PixelAt(orig, AnchorRow(k, width, grid), AnchorCol(k, width, grid), width, height)
  }

  /** Number of pixels of the clipped cell k. */
  function AnchorCellPixels(width: nat, height: nat, grid: nat, k: nat): (n: nat)
    requires grid >= 1 && k < CellCount(width, height, grid)
    ensures n >= 1
  {
    AnchorInImage(k, width, height, grid);
    CellPixels(AnchorRow(k, width, grid), AnchorCol(k, width, grid), width, height, grid)
  }

  type Positive = n: nat | n >= 1 witness 1

  /** What the carry chain sees of one cell: its anchor pixel's colour and its clipped pixel count. */
  datatype Cell = Cell(anchor: Color, size: Positive)

  /** Cell k of an image: the colour of its anchor pixel and its clipped size. */
  function CellAt(orig: seq<byte>, width: nat, height: nat, grid: nat, k: nat): Cell
    requires grid >= 1 && |orig| >= width * height * 4 && k < CellCount(width, height, grid)
  {
    Cell(AnchorColor(orig, width, height, grid, k), AnchorCellPixels(width, height, grid, k))
  }

  /** The cells of an image from cell k on, in visiting order. */
  function CellsFrom(orig: seq<byte>, width: nat, height: nat, grid: nat, k: nat): (cells: seq<Cell>)
    requires grid >= 1 && |orig| >= width * height * 4 && k <= CellCount(width, height, grid)
    ensures |cells| == CellCount(width, height, grid) - k
    decreases CellCount(width, height, grid) - k
  {
    if k == CellCount(width, height, grid) then []
    else [CellAt(orig, width, height, grid, k)] + CellsFrom(orig, width, height, grid, k + 1)
  }

  /** The cells of an image in visiting order. */
  function CellsOf(orig: seq<byte>, width: nat, height: nat, grid: nat): (cells: seq<Cell>)
    requires grid >= 1 && |orig| >= width * height * 4
    ensures |cells| == CellCount(width, height, grid)
  {
    CellsFrom(orig, width, height, grid, 0)
  }

  lemma {:induction false} CellsFromAt(orig: seq<byte>, width: nat, height: nat, grid: nat, k: nat, m: nat)
    requires grid >= 1 && |orig| >= width * height * 4 && k <= m < CellCount(width, height, grid)
    ensures CellsFrom(orig, width, height, grid, k)[m - k] == CellAt(orig, width, height, grid, m)
    decreases m - k
  {
    if k < m {
      CellsFromAt(orig, width, height, grid, k + 1, m);
    }
  }

  /** Cell k of the walk is the one CellAt describes. */
  lemma CellsOfAt(orig: seq<byte>, width: nat, height: nat, grid: nat, k: nat)
    requires grid >= 1 && |orig| >= width * height * 4 && k < CellCount(width, height, grid)
    ensures CellsOf(orig, width, height, grid)[k] == CellAt(orig, width, height, grid, k)
  {
    CellsFromAt(orig, width, height, grid, 0, k);
  }

  /**
   * The red/green/blue accumulators on entry to cell k of a row-major cell
   * walk that never resets them (the solid square and all picture mosaics).
   */
  function CarryBefore(cells: seq<Cell>, k: nat): Acc
    requires k <= |cells|
  {
    if k == 0 then Acc(0, 0, 0)
    else AverageStep(CarryBefore(cells, k - 1), cells[k - 1].anchor, cells[k - 1].size)
  }

  /** The colour FindAverageGridColor returns for cell k of such a walk. */
  function GridCellColor(cells: seq<Cell>, k: nat): Color
    requires k < |cells|
  {
    var a := CarryBefore(cells, k + 1);
    FromPackedRgb(RgbToInt(a.red, a.green, a.blue))
  }

  /** The first cell of an image is anchored at pixel (0, 0). */
  lemma FirstCellAnchor(orig: seq<byte>, width: nat, height: nat, grid: nat)
    requires grid >= 1 && |orig| >= width * height * 4 && CellCount(width, height, grid) > 0
    ensures InImage(0, 0, width, height)
    ensures CellsOf(orig, width, height, grid)[0].anchor == PixelAt(orig, 0, 0, width, height)
  {
    AnchorInImage(0, width, height, grid);
    AnchorOf(0, 0, width, grid);
  }

  lemma GridCellFromCarry(cells: seq<Cell>, k: nat, acc: Acc)
    requires k < |cells| && CarryBefore(cells, k + 1) == acc
    ensures GridCellColor(cells, k) == FromPackedRgb(RgbToInt(acc.red, acc.green, acc.blue))
  {
  }

  /** Only the first cell is guaranteed the exact colour of its anchor pixel. */
  lemma FirstGridCellIsAnchorPixel(cells: seq<Cell>)
    requires |cells| > 0
    ensures GridCellColor(cells, 0) == cells[0].anchor
  {
    var c := cells[0].anchor;
    var n: nat := cells[0].size;
    assert 0 / n == 0;
    GridCellFromCarry(cells, 0, Acc(c.r, c.g, c.b));
    PackRoundTrip(c.r, c.g, c.b);
  }

  lemma DivAddMul(a: nat, n: nat, x: nat)
    requires n >= 1
    ensures (a + n * x) / n == x + a / n
  {
    DivRange(a, a / n, n);
    DivRange(a + n * x, x + a / n, n);
  }

  /** Summing n copies of the anchor onto acc and dividing by n is AverageStep. */
  lemma CarryShift(acc: Acc, c: Color, n: nat)
    requires n >= 1
    ensures var a := AverageStep(acc, c, n);
            && a.red == (acc.red + n * c.r) / n
            && a.green == (acc.green + n * c.g) / n
            && a.blue == (acc.blue + n * c.b) / n
  {
    DivAddMul(acc.red, n, c.r);
    DivAddMul(acc.green, n, c.g);
    DivAddMul(acc.blue, n, c.b);
  }

  /** The second cell's accumulators: its anchor colour plus the first anchor colour divided by its size. */
  lemma SecondCellCarry(cells: seq<Cell>)
    requires |cells| >= 2
    ensures var c0, c1, n1, a := cells[0].anchor, cells[1].anchor, cells[1].size, CarryBefore(cells, 2);
            a.red == c1.r + c0.r / n1 && a.green == c1.g + c0.g / n1 && a.blue == c1.b + c0.b / n1
  {
    assert CarryBefore(cells, 1) == Acc(cells[0].anchor.r, cells[0].anchor.g, cells[0].anchor.b);
  }

  lemma NoCarryIff(x: nat, n: nat)
    requires n >= 1
    ensures x + x / n == x <==> x < n
  {
    if x >= n {
      DivRange(x, x / n, n);
    }
  }

  /**
   * The carry changes a uniform image: when the first two cells share anchor
   * colour c (and no channel overflows), the second cell keeps c exactly when
   * every channel of c is below the second cell's pixel count n.
   */
  lemma CarryChangesUniformImage(cells: seq<Cell>)
    requires |cells| >= 2 && cells[0].anchor == cells[1].anchor
    requires var c, n := cells[1].anchor, cells[1].size;
             c.r + c.r / n < 256 && c.g + c.g / n < 256 && c.b + c.b / n < 256
    ensures var c, n := cells[1].anchor, cells[1].size;
            var d := GridCellColor(cells, 1);
            && d.r == c.r + c.r / n && d.g == c.g + c.g / n && d.b == c.b + c.b / n
            && (d == c <==> c.r < n && c.g < n && c.b < n)
  {
    var c, n, a := cells[1].anchor, cells[1].size, CarryBefore(cells, 2);
    SecondCellCarry(cells);
    GridCellFromCarry(cells, 1, a);
    PackRoundTrip(a.red, a.green, a.blue);
    NoCarryIff(c.r, n);
    NoCarryIff(c.g, n);
    NoCarryIff(c.b, n);
  }

  /** A 6x1 image of colour (200, 200, 0) in BGRA order. */
  function StripImage6x1(): (s: seq<byte>)
    ensures |s| == 24
  {
    seq(24, k => if k % 4 == 1 || k % 4 == 2 then 200 else 0)
  }

  /** With grid 5 the strip has a 5-pixel cell and a clipped 1-pixel cell, both anchored on (200, 200, 0). */
  lemma StripImageCells(s: seq<byte>)
    requires s == StripImage6x1()
    ensures var cells := CellsOf(s, 6, 1, 5);
            |cells| == 2 && cells[0] == Cell(Color(200, 200, 0), 5) && cells[1] == Cell(Color(200, 200, 0), 1)
  {
    assert Cols(6, 5) == 2 && Rows(1, 5) == 1;
    AnchorOf(0, 0, 6, 5);
    AnchorOf(0, 1, 6, 5);
    assert s[0] == 0 && s[1] == 200 && s[2] == 200;
    assert s[20] == 0 && s[21] == 200 && s[22] == 200;
  }

  /**
   * The clipped one-pixel cell carries 200 + 200 = 400 into red and green,
   * and packing with RgbToInt turns anchor colour (200, 200, 0) into (144, 145, 1).
   */
  lemma CarryOverflowsChannel(s: seq<byte>)
    requires s == StripImage6x1()
    ensures |CellsOf(s, 6, 1, 5)| == 2
    ensures GridCellColor(CellsOf(s, 6, 1, 5), 1) == Color(144, 145, 1)
  {
    var cells := CellsOf(s, 6, 1, 5);
    StripImageCells(s);
    OverflowCarry(cells);
    GridCellFromCarry(cells, 1, Acc(400, 400, 0));
    PackOverflowExample();
  }

  lemma OverflowCarry(cells: seq<Cell>)
    requires |cells| == 2 && cells[0] == Cell(Color(200, 200, 0), 5) && cells[1] == Cell(Color(200, 200, 0), 1)
    ensures CarryBefore(cells, 2) == Acc(400, 400, 0)
  {
    assert CarryBefore(cells, 1) == AverageStep(Acc(0, 0, 0), Color(200, 200, 0), 5);
    assert CarryBefore(cells, 1) == Acc(200, 200, 0);
  }

  // ---------------------------------------------------------------------------
  // Black/white conversion

  /**
   * The colour ConvertImageToBw gives a pixel: black when the truncated mean
   * of its channels is below 128, white otherwise, passed through RgbToInt and back.
   */
  function Threshold(c: Color): (bw: Color)
    ensures bw == Black || bw == White
    ensures bw == Black <==> c.r + c.g + c.b < 384
  {
    var ave := if (c.r + c.g + c.b) / 3 < 128 then 0 else 255;
    PackRoundTrip(ave, ave, ave);
    FromPackedRgb(RgbToInt(ave, ave, ave))
  }

  /** t is the black/white conversion of s: every image pixel thresholded, alpha and tail bytes kept. */
  ghost predicate IsBwOf(t: seq<byte>, s: seq<byte>, width: nat, height: nat) {
    && KeepsAlphaAndTail(t, s, width, height)
    && forall x, y :: InImage(x, y, width, height) ==> PixelAt(t, x, y, width, height) == Threshold(PixelAt(s, x, y, width, height))
  }

  /** Converting an already converted image changes nothing. */
  lemma BwIdempotent(s: seq<byte>, t: seq<byte>, u: seq<byte>, width: nat, height: nat)
    requires IsBwOf(t, s, width, height) && IsBwOf(u, t, width, height)
    ensures u == t
  {
    forall x, y | InImage(x, y, width, height)
      ensures PixelAt(u, x, y, width, height) == PixelAt(t, x, y, width, height)
    {
      var c := PixelAt(t, x, y, width, height);
      assert c == Black || c == White;
    }
    SameImage(u, t, width, height);
  }

  /**
   * ConvertImageToBw: visits every pixel once, row by row, and overwrites
   * it with the threshold of its own (not yet overwritten) colour.
   */
  method ConvertImageToBw(imageWidth: nat, imageHeight: nat, pixels: array<byte>)
    requires pixels.Length >= imageWidth * imageHeight * 4
    modifies pixels
    ensures IsBwOf(pixels[..], old(pixels[..]), imageWidth, imageHeight)
  {
    ghost var orig := pixels[..];
    for i := 0 to imageHeight
      invariant KeepsAlphaAndTail(pixels[..], orig, imageWidth, imageHeight)
      invariant forall x, y :: InImage(x, y, imageWidth, imageHeight) ==>
        PixelAt(pixels[..], x, y, imageWidth, imageHeight) ==
          if x < i then Threshold(PixelAt(orig, x, y, imageWidth, imageHeight)) else PixelAt(orig, x, y, imageWidth, imageHeight)
    {
      for j := 0 to imageWidth
        invariant KeepsAlphaAndTail(pixels[..], orig, imageWidth, imageHeight)
        invariant forall x, y :: InImage(x, y, imageWidth, imageHeight) ==>
          PixelAt(pixels[..], x, y, imageWidth, imageHeight) ==
            if x < i || (x == i && y < j) then Threshold(PixelAt(orig, x, y, imageWidth, imageHeight))
            else PixelAt(orig, x, y, imageWidth, imageHeight)
      {
        ConvertPixel(pixels, i, j, imageWidth, imageHeight, orig);
      }
    }
  }

  /** The body of ConvertImageToBw's inner loop, for pixel (i, j). */
  method ConvertPixel(pixels: array<byte>, i: nat, j: nat, imageWidth: nat, imageHeight: nat, ghost orig: seq<byte>)
    requires pixels.Length >= imageWidth * imageHeight * 4 && InImage(i, j, imageWidth, imageHeight)
    requires KeepsAlphaAndTail(pixels[..], orig, imageWidth, imageHeight)
    requires PixelAt(pixels[..], i, j, imageWidth, imageHeight) == PixelAt(orig, i, j, imageWidth, imageHeight)
    modifies pixels
    ensures KeepsAlphaAndTail(pixels[..], orig, imageWidth, imageHeight)
    ensures PixelAt(pixels[..], i, j, imageWidth, imageHeight) == Threshold(PixelAt(orig, i, j, imageWidth, imageHeight))
    ensures forall x, y :: InImage(x, y, imageWidth, imageHeight) && (x, y) != (i, j) ==>
      PixelAt(pixels[..], x, y, imageWidth, imageHeight) == old(PixelAt(pixels[..], x, y, imageWidth, imageHeight))
  {
    OffsetInBuffer(i, j, imageWidth, imageHeight);
    var color := GetPixelBgra8(pixels[..], i, j, imageWidth);
    var red: int, green: int, blue: int := color.r, color.g, color.b;
    var ave: int := (red + green + blue) / 3;
    ave := if ave < 128 then 0 else 255;
    var rgbValue := RgbToInt(ave, ave, ave);
    var bWColor := FromPackedRgb(rgbValue);
    PaintPixel(pixels, i, j, bWColor, imageWidth, imageHeight, orig);
  }

  // ---------------------------------------------------------------------------
  // List copies

  /**
   * CreateCopyOfImagePalette and CreateCopyOfAverageColors: a new list with
   * the same elements in the same order (the elements themselves are shared).
   */
  method CreateCopyOfList<T>(items: seq<T>) returns (copy: seq<T>)
    ensures copy == items
  {
    copy := [];
    for k := 0 to |items|
      invariant copy == items[..k]
    {
      copy := copy + [items[k]];
    }
  }
}
