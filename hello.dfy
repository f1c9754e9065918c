/**
 * The example application's glyph placement and run assembly
 * (renderer/examples/hello.rs): each shaped glyph becomes a positioned glyph
 * whose cache key and hitbox anchor come from the layout library's
 * `CacheKey::new`, and a shaped line becomes a glyph run.
 */
module HelloExample {
  import opened Ints
  import opened Shapes

  /** A glyph as laid out by the text-shaping library: font, glyph, size, position and advance width. */
  datatype LayoutGlyph = LayoutGlyph(fontId: FontId, glyphId: U16, fontSize: F32, x: F32, y: F32, w: F32)

  /**
   * The layout library's `CacheKey::new`: from font, glyph, size and a
   * fractional position it derives the key and the integer pixel position.
   */
  type CacheKeyNew = (FontId, U16, F32, (F32, F32)) -> (CacheKey, I32, I32)

  /** `f32::round`, taken as given. */
  type Round = F32 -> F32

  /** The example renders without subpixel positioning. */
  const RENDER_SUBPIXEL: bool := false

  /**
   * The position handed to `CacheKey::new`: the glyph's own position with
   * subpixel rendering, both coordinates rounded without it.
   */
  function KeyPosition(g: LayoutGlyph, subpixel: bool, round: Round): (F32, F32)
  {
    if subpixel then (g.x, g.y) else (round(g.x), round(g.y))
  }

  /**
   * One glyph's placement: key and hitbox anchor are the triple `newKey`
   * gives for the glyph's font, glyph, size and key position; the hitbox
   * width is the glyph's advance width whatever the subpixel mode.
   */
  function PlaceGlyph(g: LayoutGlyph, subpixel: bool, round: Round, newKey: CacheKeyNew): (p: PositionedGlyph)
    ensures p.hitboxWidth == g.w
    ensures var (key, x, y) := newKey(g.fontId, g.glyphId, g.fontSize, KeyPosition(g, subpixel, round));
            p.key == key && p.hitboxPos == (x, y)
  {
    var (cc, x, y) := newKey(g.fontId, g.glyphId, g.fontSize, KeyPosition(g, subpixel, round));
    PositionedGlyph(cc, (x, y), g.w)
  }

  /** The map over a line's glyphs: one positioned glyph per layout glyph, in the same order. */
  function PlaceGlyphs(glyphs: seq<LayoutGlyph>, subpixel: bool, round: Round, newKey: CacheKeyNew)
    : (placed: seq<PositionedGlyph>)
    ensures |placed| == |glyphs|
    ensures forall i | 0 <= i < |glyphs| :: placed[i] == PlaceGlyph(glyphs[i], subpixel, round, newKey)
  {
    if glyphs == [] then []
    else [PlaceGlyph(glyphs[0], subpixel, round, newKey)] + PlaceGlyphs(glyphs[1..], subpixel, round, newKey)
  }

  /** Placing two stretches of a line one after the other is placing the whole line. */
  lemma PlaceGlyphsAppend(a: seq<LayoutGlyph>, b: seq<LayoutGlyph>, subpixel: bool, round: Round, newKey: CacheKeyNew)
    ensures PlaceGlyphs(a + b, subpixel, round, newKey)
         == PlaceGlyphs(a, subpixel, round, newKey) + PlaceGlyphs(b, subpixel, round, newKey)
  {
  }

  /**
   * As the example runs it, without subpixel rendering, glyph `i` of the line
   * gets the key and anchor `CacheKey::new` derives from its ROUNDED position.
   */
  lemma PlaceGlyphsRoundsPositions(glyphs: seq<LayoutGlyph>, round: Round, newKey: CacheKeyNew, i: nat)
    requires i < |glyphs|
    ensures var g := glyphs[i];
            var (key, x, y) := newKey(g.fontId, g.glyphId, g.fontSize, (round(g.x), round(g.y)));
            var placed := PlaceGlyphs(glyphs, RENDER_SUBPIXEL, round, newKey)[i];
            placed.key == key && placed.hitboxPos == (x, y) && placed.hitboxWidth == g.w
  {
  }

  /** The hitbox widths are the advance widths, with and without subpixel rendering alike. */
  lemma HitboxWidthIgnoresSubpixel(glyphs: seq<LayoutGlyph>, round: Round, newKey: CacheKeyNew, i: nat)
    requires i < |glyphs|
    ensures PlaceGlyphs(glyphs, true, round, newKey)[i].hitboxWidth
         == PlaceGlyphs(glyphs, false, round, newKey)[i].hitboxWidth
         == glyphs[i].w
  {
  }

  /**
   * Without subpixel rendering the key depends on the position only through
   * its rounding: two glyphs that agree on font, glyph, size, width and
   * rounded position are placed identically.
   */
  lemma RoundedPlacementIgnoresFraction(g1: LayoutGlyph, g2: LayoutGlyph, round: Round, newKey: CacheKeyNew)
    requires g1.fontId == g2.fontId && g1.glyphId == g2.glyphId && g1.fontSize == g2.fontSize && g1.w == g2.w
    requires round(g1.x) == round(g2.x) && round(g1.y) == round(g2.y)
    ensures PlaceGlyph(g1, RENDER_SUBPIXEL, round, newKey) == PlaceGlyph(g2, RENDER_SUBPIXEL, round, newKey)
  {
  }

  /** A shaped line: its metrics and its placed glyphs. */
  datatype ShapedText = ShapedText(metrics: GlyphRunMetrics, glyphs: seq<PositionedGlyph>)
  {
    /** Moves the glyphs and metrics into a glyph run that holds the given shared matrix. */
    function IntoGlyphRun(matrix: MatrixHandle): (run: GlyphRun)
      ensures run.glyphs == glyphs && run.metrics == metrics && run.modelMatrix == matrix
    {
      GlyphRun.GlyphRun(matrix, metrics, glyphs)
    }
  }
}
