/**
 * The renderable data model: the cache key that identifies a rendered glyph
 * image, a glyph placed at an integer pixel anchor, the metrics of a line of
 * glyphs, a glyph run and the shape that wraps it (shapes/src/shapes.rs).
 */
module Shapes {
  import opened Ints

  /** Identifier of a font in the font database. */
  type FontId = nat

  /**
   * The layout library's cache key: font, glyph, the font size as its exact
   * bit pattern, and the bucket of the fractional pixel position on each axis.
   */
  datatype CacheKey = CacheKey(fontId: FontId, glyphId: U16, fontSizeBits: F32, xBin: nat, yBin: nat)

  /**
   * The shared model matrix (`Rc<Matrix4>`), represented by the identity of
   * the shared allocation: two runs holding the same handle share one matrix.
   */
  datatype MatrixHandle = MatrixHandle(id: nat)

  /** The axis-aligned rectangle from `min` to `max`, in pixels. */
  datatype Bounds = Bounds(min: (int, int), max: (int, int))

  /** The integer pixel `p` lies in `b` (the rectangle is half-open). */
  predicate Contains(b: Bounds, p: (int, int)) {
    b.min.0 <= p.0 < b.max.0 && b.min.1 <= p.1 < b.max.1
  }

  /** A renderable primitive; a glyph run is the only kind there is. */
  datatype Shape = GlyphRun(run: GlyphRun)

  /** The glyphs of one line in visual order, with the line's metrics and the shared model matrix. */
  datatype GlyphRun = GlyphRun(modelMatrix: MatrixHandle, metrics: GlyphRunMetrics, glyphs: seq<PositionedGlyph>)

  datatype GlyphRunMetrics = GlyphRunMetrics(maxAscent: U32, maxDescent: U32, width: U32)
  {
    /**
     * Size of the glyph run in font-size pixels: its width by the full line
     * height, from the highest ascent above the baseline to the deepest
     * descent below it. The `u32` addition panics on overflow in a debug build.
     */
    function Size(): (size: (U32, U32))
      requires maxAscent + maxDescent <= U32_MAX
      ensures size.0 == width
      ensures size.1 >= maxAscent && size.1 >= maxDescent
      ensures size.1 - maxAscent == maxDescent
    {
      (width, maxAscent + maxDescent)
    }
  }

  /**
   * A glyph placed on a line: the key of its image, its integer pixel anchor
   * and its unquantized advance width (an `f32`, kept as its bits).
   */
  datatype PositionedGlyph = PositionedGlyph(key: CacheKey, hitboxPos: (I32, I32), hitboxWidth: F32)
  {
    /**
     * The column (or row) of the pixel at `offset` from the anchor: the
     * offset is cast with `as i32` and added in `i32` arithmetic.
     */
    static function PixelCoordinate(anchor: I32, offset: U32): int {
      anchor + AsI32(offset)
    }

    /**
     * The anchor plus offset, and that coordinate plus one, stay inside `i32`
     * on both axes; otherwise an addition panics in a debug build.
     */
    predicate PixelBoundsDefined(offset: (U32, U32)) {
      IsI32(PixelCoordinate(hitboxPos.0, offset.0) + 1) && IsI32(PixelCoordinate(hitboxPos.0, offset.0)) &&
      IsI32(PixelCoordinate(hitboxPos.1, offset.1) + 1) && IsI32(PixelCoordinate(hitboxPos.1, offset.1))
    }

    /**
     * The bounds enclosing the one pixel at `offset` from the hitbox anchor:
     * the unit square whose only integer point is that pixel.
     */
    function PixelBoundsAt(offset: (U32, U32)): (b: Bounds)
      requires PixelBoundsDefined(offset)
      ensures b.max == (b.min.0 + 1, b.min.1 + 1)
      ensures forall p :: Contains(b, p) <==>
        p == (PixelCoordinate(hitboxPos.0, offset.0), PixelCoordinate(hitboxPos.1, offset.1))
    {
      var x := hitboxPos.0 + AsI32(offset.0);
      var y := hitboxPos.1 + AsI32(offset.1);
      Bounds((x, y), (x + 1, y + 1))
    }
  }

  /** An offset below 2^31 on both axes moves the pixel exactly that far from the anchor. */
  lemma PixelBoundsAtSmallOffset(g: PositionedGlyph, offset: (U32, U32))
    requires g.PixelBoundsDefined(offset)
    requires offset.0 <= I32_MAX && offset.1 <= I32_MAX
    ensures g.PixelBoundsAt(offset).min == (g.hitboxPos.0 + offset.0, g.hitboxPos.1 + offset.1)
    ensures Contains(g.PixelBoundsAt(offset), (g.hitboxPos.0 + offset.0, g.hitboxPos.1 + offset.1))
  {
  }

  /**
   * An offset of 2^31 or more on an axis wraps negative in the `as i32` cast,
   * so the pixel lands before the anchor on that axis instead of after it.
   */
  lemma PixelBoundsAtLargeOffsetWraps(g: PositionedGlyph, offset: (U32, U32))
    requires g.PixelBoundsDefined(offset)
    requires offset.0 > I32_MAX
    ensures g.PixelBoundsAt(offset).min.0 < g.hitboxPos.0
    ensures g.PixelBoundsAt(offset).min.0 == g.hitboxPos.0 + offset.0 - U32_MODULUS
  {
  }

  /** Every shape is a glyph run: matching on that one variant is exhaustive. */
  function ShapeGlyphRun(s: Shape): (run: GlyphRun)
    ensures s == Shape.GlyphRun(run)
  {
    match s
    case GlyphRun(run) => run
  }
}
