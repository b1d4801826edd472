/** Blending text into the pixel buffer (gui-renderer/src/widget_system.rs, `rasterize_text`). */
module Glyphs {
  type Byte = n: nat | n < 256

  /** A pixel with premultiplied alpha. */
  datatype Pixel = Pixel(r: Byte, g: Byte, b: Byte, a: Byte)

  datatype Color = Color(r: Byte, g: Byte, b: Byte, a: Byte)

  predicate Premultiplied(p: Pixel) {
    p.r <= p.a && p.g <= p.a && p.b <= p.a
  }

  /** What the font library returns for one character; `advance` is already truncated to an integer. */
  datatype Glyph = Glyph(width: nat, height: nat, xmin: int, ymin: int, advance: int, bitmap: seq<Byte>) {
    predicate Valid() {
      |bitmap| == width * height
    }
  }

  // ---- one pixel

  function ToByte(n: nat): Byte {
    n % 256
  }

  function Mix(channel: Byte, alpha: nat, existing: Byte): nat
    requires alpha <= 255
  {
    ProductOrder(0, channel, alpha);
    ProductOrder(0, existing, 255 - alpha);
    (channel * alpha + existing * (255 - alpha)) / 255
  }

  lemma ProductOrder(a: nat, b: nat, factor: nat)
    requires a <= b
    ensures 0 <= a * factor <= b * factor
  {
  }

  function AlphaOf(coverage: Byte, color: Color): (alpha: nat)
    ensures alpha <= 255
  {
    ScaledAlpha(coverage, color.a);
    (coverage * color.a) / 255
  }

  lemma ScaledAlpha(coverage: Byte, a: Byte)
    ensures 0 <= (coverage * a) / 255 <= 255
  {
    ProductOrder(coverage, 255, a);
  }

  /** The new alpha before the clamp. */
  function AlphaSum(alpha: nat, existing: Byte): nat
    requires alpha <= 255
  {
    ProductOrder(0, existing, 255 - alpha);
    alpha + existing * (255 - alpha) / 255
  }

  /**
   * The pixel made of the four sums: the channels narrowed to bytes, the alpha clamped, and the old
   * pixel in its place if that is not a premultiplied colour.
   */
  function Narrowed(r: nat, g: nat, b: nat, a: nat, existing: Pixel): Pixel {
    var n := Pixel(ToByte(r), ToByte(g), ToByte(b), if a < 255 then a else 255);
    if Premultiplied(n) then n else existing
  }

  /** The blend as the loop computes it. */
  function Blend(color: Color, coverage: Byte, p: Pixel): Pixel {
    if coverage == 0 then p
    else
      var alpha := AlphaOf(coverage, color);
      Narrowed(Mix(color.r, alpha, p.r), Mix(color.g, alpha, p.g), Mix(color.b, alpha, p.b), AlphaSum(alpha, p.a), p)
  }

  lemma MixBounds(channel: Byte, alpha: nat, existing: Byte, limit: Byte)
    requires alpha <= 255 && existing <= limit
    ensures Mix(channel, alpha, existing) <= AlphaSum(alpha, limit) <= 255
  {
    var inv := 255 - alpha;
    ProductOrder(channel, 255, alpha);
    ProductOrder(existing, limit, inv);
    ProductOrder(limit, 255, inv);
    assert (255 * alpha + limit * inv) / 255 == alpha + limit * inv / 255;
  }

  lemma MixBetween(channel: Byte, alpha: nat, existing: Byte)
    requires alpha <= 255
    ensures Between(channel, existing, Mix(channel, alpha, existing))
  {
    var inv := 255 - alpha;
    var lo := if channel <= existing then channel else existing;
    var hi := if channel <= existing then existing else channel;
    ProductOrder(lo, channel, alpha);
    ProductOrder(channel, hi, alpha);
    ProductOrder(lo, existing, inv);
    ProductOrder(existing, hi, inv);
    assert lo * alpha + lo * inv == lo * 255 && hi * alpha + hi * inv == hi * 255;
  }

  /** `n` lies between the colour's channel and the old value. */
  predicate Between(channel: nat, existing: nat, n: nat) {
    if channel <= existing then channel <= n <= existing else existing <= n <= channel
  }

  /**
   * On a valid pixel neither the casts nor the clamp nor the fallback ever change anything: the
   * blend is the plain formula, and its result is a valid pixel again.
   */
  lemma BlendIsThePlainFormula(color: Color, coverage: Byte, p: Pixel)
    requires Premultiplied(p) && coverage > 0
    ensures var alpha := AlphaOf(coverage, color);
      var n := Blend(color, coverage, p);
      && n.r == Mix(color.r, alpha, p.r) && n.g == Mix(color.g, alpha, p.g) && n.b == Mix(color.b, alpha, p.b)
      && n.a == AlphaSum(alpha, p.a)
      && Premultiplied(n)
  {
    var alpha := AlphaOf(coverage, color);
    MixBounds(color.r, alpha, p.r, p.a);
    MixBounds(color.g, alpha, p.g, p.a);
    MixBounds(color.b, alpha, p.b, p.a);
    NarrowingIsExact(Mix(color.r, alpha, p.r), Mix(color.g, alpha, p.g), Mix(color.b, alpha, p.b), AlphaSum(alpha, p.a), p);
  }

  lemma NarrowingIsExact(r: nat, g: nat, b: nat, a: nat, existing: Pixel)
    requires r <= a && g <= a && b <= a && a <= 255
    ensures Narrowed(r, g, b, a, existing) == Pixel(r, g, b, a)
  {
  }

  ghost predicate OpaqueBlend(color: Color, p: Pixel, n: Pixel) {
    n.a == 255 && Between(color.r, p.r, n.r) && Between(color.g, p.g, n.g) && Between(color.b, p.b, n.b)
  }

  /** An opaque pixel stays opaque, and each channel moves from its old value towards the text colour. */
  lemma OpaqueStaysOpaque(color: Color, coverage: Byte, p: Pixel)
    requires Premultiplied(p) && p.a == 255
    ensures OpaqueBlend(color, p, Blend(color, coverage, p))
  {
    if coverage > 0 {
      BlendIsThePlainFormula(color, coverage, p);
      var alpha := AlphaOf(coverage, color);
      MixBetween(color.r, alpha, p.r);
      MixBetween(color.g, alpha, p.g);
      MixBetween(color.b, alpha, p.b);
      assert 255 * (255 - alpha) / 255 == 255 - alpha;
    }
  }

  /** Full coverage in an opaque colour replaces the pixel by that colour. */
  lemma FullCoverageReplaces(color: Color, p: Pixel)
    requires Premultiplied(p) && color.a == 255
    ensures Blend(color, 255, p) == Pixel(color.r, color.g, color.b, 255)
  {
    assert AlphaOf(255, color) == 255;
    BlendIsThePlainFormula(color, 255, p);
    FullMix(color.r, p.r);
    FullMix(color.g, p.g);
    FullMix(color.b, p.b);
  }

  lemma FullMix(channel: Byte, existing: Byte)
    ensures Mix(channel, 255, existing) == channel && AlphaSum(255, existing) == 255
  {
  }

  /** `n` is `product` divided by 255, rounded down. */
  predicate IsShare(n: int, product: int) {
    255 * n <= product < 255 * n + 255
  }

  /**
   * The blended pixel at any coverage: with `alpha` the coverage's share of the colour's alpha, every
   * channel is the colour weighted by `alpha` and the old value weighted by the rest, and the alpha is
   * `alpha` and the rest of the old alpha, each rounded down once.
   */
  lemma BlendRoundsDown(color: Color, coverage: Byte, p: Pixel, alpha: nat)
    requires Premultiplied(p)
    requires IsShare(alpha, coverage * color.a)
    ensures var n, rest := Blend(color, coverage, p), 255 - alpha;
      && IsShare(n.r, color.r * alpha + p.r * rest)
      && IsShare(n.g, color.g * alpha + p.g * rest)
      && IsShare(n.b, color.b * alpha + p.b * rest)
      && IsShare(n.a - alpha, p.a * rest)
  {
    ShareIsQuotient(alpha, coverage * color.a);
    if coverage > 0 {
      BlendIsThePlainFormula(color, coverage, p);
      MixIsShare(color.r, alpha, p.r);
      MixIsShare(color.g, alpha, p.g);
      MixIsShare(color.b, alpha, p.b);
      MixIsShare(0, alpha, p.a);
    }
  }

  lemma ShareIsQuotient(n: int, product: int)
    ensures IsShare(n, product) <==> n == product / 255
  {
  }

  lemma MixIsShare(channel: Byte, alpha: nat, existing: Byte)
    requires alpha <= 255
    ensures IsShare(Mix(channel, alpha, existing), channel * alpha + existing * (255 - alpha))
    ensures IsShare(AlphaSum(alpha, existing) - alpha, existing * (255 - alpha))
  {
    ShareIsQuotient(Mix(channel, alpha, existing), channel * alpha + existing * (255 - alpha));
    ShareIsQuotient(AlphaSum(alpha, existing) - alpha, existing * (255 - alpha));
  }

  // ---- a whole text, stated pixel by pixel

  /** The coverage glyph `gl`, drawn with the cursor at `x` and the baseline at `y`, puts on pixel `(px, py)`. */
  function CoverageAt(gl: Glyph, x: int, y: int, px: int, py: int): Byte
    requires gl.Valid()
  {
    var col, row := px - x - gl.xmin, py - (y - gl.height + gl.ymin);
    if 0 <= col < gl.width && 0 <= row < gl.height then
      CellInRange(gl.width, gl.height, row, col);
      gl.bitmap[row * gl.width + col]
    else 0
  }

  lemma CellInRange(width: nat, height: nat, row: nat, col: nat)
    requires row < height && col < width
    ensures 0 <= row * width + col < width * height
  {
    ProductOrder(row + 1, height, width);
    assert (row + 1) * width == row * width + width;
  }

  /** The pixel at `(px, py)` after the glyphs have been blended over it, one after the other. */
  function PixelAfter(glyphs: seq<Glyph>, x: int, y: int, color: Color, px: int, py: int, p: Pixel): Pixel
    requires forall g :: g in glyphs ==> g.Valid()
  {
    if glyphs == [] then p
    else
      PixelAfter(glyphs[1..], x + glyphs[0].advance, y, color, px, py,
                 Blend(color, CoverageAt(glyphs[0], x, y, px, py), p))
  }

  lemma {:induction false} TextKeepsPixelsValid(
    glyphs: seq<Glyph>, x: int, y: int, color: Color, px: int, py: int, p: Pixel)
    requires forall g :: g in glyphs ==> g.Valid()
    requires Premultiplied(p)
    ensures Premultiplied(PixelAfter(glyphs, x, y, color, px, py, p))
    ensures p.a == 255 ==> OpaqueBlend(color, p, PixelAfter(glyphs, x, y, color, px, py, p))
  {
    if glyphs != [] {
      var coverage := CoverageAt(glyphs[0], x, y, px, py);
      if coverage > 0 {
        BlendIsThePlainFormula(color, coverage, p);
      }
      if p.a == 255 {
        OpaqueStaysOpaque(color, coverage, p);
      }
      TextKeepsPixelsValid(glyphs[1..], x + glyphs[0].advance, y, color, px, py, Blend(color, coverage, p));
    }
  }

  /** Where the cursor stands after the glyphs: every glyph moves it on by its advance. */
  function CursorAfter(glyphs: seq<Glyph>, x: int): int {
    if glyphs == [] then x else CursorAfter(glyphs[1..], x + glyphs[0].advance)
  }

  lemma {:induction false} TextSplits(
    first: seq<Glyph>, rest: seq<Glyph>, x: int, y: int, color: Color, px: int, py: int, p: Pixel)
    requires forall g :: g in first + rest ==> g.Valid()
    ensures PixelAfter(first + rest, x, y, color, px, py, p)
         == PixelAfter(rest, CursorAfter(first, x), y, color, px, py, PixelAfter(first, x, y, color, px, py, p))
  {
    if first == [] {
      assert first + rest == rest;
    } else {
      assert (first + rest)[0] == first[0] && (first + rest)[1..] == first[1..] + rest;
      TextSplits(first[1..], rest, x + first[0].advance, y, color, px, py,
                 Blend(color, CoverageAt(first[0], x, y, px, py), p));
    }
  }

  /** The cell `(row, col)` of a glyph's bitmap, read row by row, lands `col` right and `row` down from its corner. */
  lemma CellLandsAt(gl: Glyph, x: int, y: int, color: Color, row: nat, col: nat, p: Pixel)
    requires gl.Valid() && row < gl.height && col < gl.width
    ensures 0 <= row * gl.width + col < |gl.bitmap|
    ensures PixelAfter([gl], x, y, color, x + gl.xmin + col, y - gl.height + gl.ymin + row, p)
         == Blend(color, gl.bitmap[row * gl.width + col], p)
  {
    CellInRange(gl.width, gl.height, row, col);
    assert [gl][1..] == [];
  }

  /**
   * In any text, the glyph between `before` and `after` stands where the advances of `before` put it,
   * and each cell of its bitmap blends the one pixel at its row and column over what `before` left.
   */
  lemma TextPutsCells(
    before: seq<Glyph>, gl: Glyph, after: seq<Glyph>, x: int, y: int, color: Color, row: nat, col: nat, p: Pixel)
    requires forall g :: g in before + [gl] + after ==> g.Valid()
    requires row < gl.height && col < gl.width
    ensures gl.Valid() && 0 <= row * gl.width + col < |gl.bitmap|
    ensures var at := CursorAfter(before, x);
      var px, py := at + gl.xmin + col, y - gl.height + gl.ymin + row;
      PixelAfter(before + [gl] + after, x, y, color, px, py, p)
      == PixelAfter(after, at + gl.advance, y, color, px, py,
                    Blend(color, gl.bitmap[row * gl.width + col], PixelAfter(before, x, y, color, px, py, p)))
  {
    var at := CursorAfter(before, x);
    var px, py := at + gl.xmin + col, y - gl.height + gl.ymin + row;
    assert gl in before + [gl] + after;
    CellLandsAt(gl, at, y, color, row, col, PixelAfter(before, x, y, color, px, py, p));
    TextSplits(before + [gl], after, x, y, color, px, py, p);
    TextSplits(before, [gl], x, y, color, px, py, p);
    CursorMovesOn(before, gl, x);
  }

  lemma {:induction false} CursorMovesOn(before: seq<Glyph>, gl: Glyph, x: int)
    ensures CursorAfter(before + [gl], x) == CursorAfter(before, x) + gl.advance
  {
    if before == [] {
      assert before + [gl] == [gl] && [gl][1..] == [];
    } else {
      assert (before + [gl])[1..] == before[1..] + [gl];
      CursorMovesOn(before[1..], gl, x + before[0].advance);
    }
  }

  /** Whether the rectangle of some glyph of the text covers the pixel. */
  predicate InSomeGlyph(glyphs: seq<Glyph>, x: int, y: int, px: int, py: int) {
    glyphs != [] &&
    var gl := glyphs[0];
    (|| (x + gl.xmin <= px < x + gl.xmin + gl.width && y - gl.height + gl.ymin <= py < y + gl.ymin)
     || InSomeGlyph(glyphs[1..], x + gl.advance, y, px, py))
  }

  lemma {:induction false} OutsideGlyphsUnchanged(
    glyphs: seq<Glyph>, x: int, y: int, color: Color, px: int, py: int, p: Pixel)
    requires forall g :: g in glyphs ==> g.Valid()
    requires !InSomeGlyph(glyphs, x, y, px, py)
    ensures PixelAfter(glyphs, x, y, color, px, py, p) == p
  {
    if glyphs != [] {
      OutsideGlyphsUnchanged(glyphs[1..], x + glyphs[0].advance, y, color, px, py, p);
    }
  }

  // ---- the loops

  function ColumnOf(i: nat, width: nat): nat
    requires width > 0
  {
    i % width
  }

  function RowOf(i: nat, width: nat): nat
    requires width > 0
  {
    i / width
  }

  /** Column and row name exactly one index of the buffer. */
  lemma IndexOfPixel(px: nat, py: nat, width: nat, height: nat)
    requires px < width && py < height
    ensures 0 <= py * width + px < width * height
    ensures ColumnOf(py * width + px, width) == px && RowOf(py * width + px, width) == py
    ensures forall i: nat :: ColumnOf(i, width) == px && RowOf(i, width) == py ==> i == py * width + px
  {
    CellInRange(width, height, py, px);
    DivMod(py, px, width);
    forall i: nat | ColumnOf(i, width) == px && RowOf(i, width) == py
      ensures i == py * width + px
    {
      assert i == width * (i / width) + i % width;
    }
  }

  lemma DivMod(q: nat, r: nat, d: nat)
    requires r < d
    ensures (q * d + r) / d == q && (q * d + r) % d == r
  {
    var n := q * d + r;
    assert n == d * (n / d) + n % d;
    assert d * (n / d - q) == r - n % d;
    assert n / d == q by {
      NoMultipleBetween(n / d - q, d);
    }
  }

  lemma NoMultipleBetween(k: int, d: nat)
    requires d * k < d && d * k > 0 - d
    ensures k == 0
  {
    assert k >= 1 ==> d * k >= d;
    assert k <= -1 ==> d * k <= 0 - d;
  }

  method RasterizeText(
    pixels: array<Pixel>, width: nat, height: nat, glyphs: seq<Glyph>, x: int, y: int, color: Color)
    requires width > 0 && pixels.Length == width * height
    requires forall g :: g in glyphs ==> g.Valid()
    modifies pixels
    ensures forall i :: 0 <= i < pixels.Length ==>
      pixels[i] == PixelAfter(glyphs, x, y, color, ColumnOf(i, width), RowOf(i, width), old(pixels[i]))
  {
    var cursorX := x;
    for k := 0 to |glyphs|
      invariant forall i :: 0 <= i < pixels.Length ==>
        PixelAfter(glyphs[k..], cursorX, y, color, ColumnOf(i, width), RowOf(i, width), pixels[i])
        == PixelAfter(glyphs, x, y, color, ColumnOf(i, width), RowOf(i, width), old(pixels[i]))
    {
      var gl := glyphs[k];
      assert glyphs[k..][0] == gl && glyphs[k..][1..] == glyphs[k + 1..];
      DrawGlyph(pixels, width, height, gl, cursorX, y, color);
      cursorX := cursorX + gl.advance;
    }
  }

  method DrawGlyph(pixels: array<Pixel>, width: nat, height: nat, gl: Glyph, cursorX: int, y: int, color: Color)
    requires width > 0 && pixels.Length == width * height
    requires gl.Valid()
    modifies pixels
    ensures forall i :: 0 <= i < pixels.Length ==>
      pixels[i] == Blend(color, CoverageAt(gl, cursorX, y, ColumnOf(i, width), RowOf(i, width)), old(pixels[i]))
  {
    var glyphY := y - gl.height + gl.ymin;
    for row := 0 to gl.height
      invariant forall i :: 0 <= i < pixels.Length ==>
        pixels[i] == if RowOf(i, width) < glyphY + row
                     then Blend(color, CoverageAt(gl, cursorX, y, ColumnOf(i, width), RowOf(i, width)), old(pixels[i]))
                     else old(pixels[i])
    {
      DrawRow(pixels, width, height, gl, row, cursorX, y, color);
    }
  }

  method DrawRow(
    pixels: array<Pixel>, width: nat, height: nat, gl: Glyph, row: nat, cursorX: int, y: int, color: Color)
    requires width > 0 && pixels.Length == width * height
    requires gl.Valid() && row < gl.height
    modifies pixels
    ensures forall i :: 0 <= i < pixels.Length ==>
      pixels[i] == if RowOf(i, width) == y - gl.height + gl.ymin + row
                   then Blend(color, CoverageAt(gl, cursorX, y, ColumnOf(i, width), RowOf(i, width)), old(pixels[i]))
                   else old(pixels[i])
  {
    var glyphY := y - gl.height + gl.ymin;
    for col := 0 to gl.width
      invariant forall i :: 0 <= i < pixels.Length ==>
        pixels[i] == if RowOf(i, width) == glyphY + row && ColumnOf(i, width) < cursorX + gl.xmin + col
                     then Blend(color, CoverageAt(gl, cursorX, y, ColumnOf(i, width), RowOf(i, width)), old(pixels[i]))
                     else old(pixels[i])
    {
      CellInRange(gl.width, gl.height, row, col);
      var coverage := gl.bitmap[row * gl.width + col];
      if coverage == 0 {
        continue;
      }
      BlendPixel(pixels, width, height, cursorX + col + gl.xmin, glyphY + row, coverage, color);
    }
  }

  /** Clips, then blends one pixel. */
  method BlendPixel(pixels: array<Pixel>, width: nat, height: nat, px: int, py: int, coverage: Byte, color: Color)
    requires width > 0 && pixels.Length == width * height
    modifies pixels
    ensures forall i :: 0 <= i < pixels.Length ==>
      pixels[i] == if ColumnOf(i, width) == px && RowOf(i, width) == py
                   then Blend(color, coverage, old(pixels[i]))
                   else old(pixels[i])
  {
    if px < 0 || py < 0 || px >= width || py >= height {
      RowsInRange(width, height);
      return;
    }
    IndexOfPixel(px, py, width, height);
    var idx := py * width + px;
    if idx < pixels.Length {
      pixels[idx] := Blend(color, coverage, pixels[idx]);
    }
  }

  lemma RowsInRange(width: nat, height: nat)
    requires width > 0
    ensures forall i: nat :: i < width * height ==> RowOf(i, width) < height && ColumnOf(i, width) < width
  {
  }
}
