# Glyph image pipeline of granularity-ui, in Dafny

This project models the part of granularity-ui that turns shaped text into
glyph images and renderable shapes, and proves properties of the model.

- **Shapes** (`shapes.dfy`). This is the data model of `shapes/src/shapes.rs`.
  It has the layout library's cache key, a positioned glyph, glyph-run metrics,
  a glyph run, and the single-variant `Shape`. `GlyphRunMetrics.Size` and
  `PositionedGlyph.PixelBoundsAt` are modelled with their `u32`/`i32`
  arithmetic: debug-build overflow panics become preconditions, and the
  `u32 as i32` cast is a two's-complement reinterpretation (`Ints.AsI32`).
- **GlyphImageRenderer** (`glyph_image_renderer.dfy`). This models the image
  transforms of `renderer/src/glyph/glyph_image_renderer.rs`.
  - `PadImageData` is imperative, as in the source. It fills a zero-initialised
    `array<byte>` of `(width + 2) * (height + 2)` bytes and runs a
    `for line := 0 to height` loop. Each `copy_from_slice` is a `forall`
    statement that writes one row. The method is proved equal to the
    specification function `Padded`.
  - Lemmas about `Padded` state the interior, the zero border, the all-zero
    result for an empty image, and the round trip through `Interior`.
  - `PadImage` and `RenderSdf` call the imperative padding, so they are
    methods. `RenderSdf` receives the external distance transform as a
    function value.
  - `RenderGlyphImage` models only the lookup of the key's font. The lookup and
    the rasteriser are function parameters.
- **HelloExample** (`hello.dfy`). This covers `place_glyphs` and
  `ShapedText::into_glyph_run` of `renderer/examples/hello.rs`. `f32::round`
  and cosmic_text's `CacheKey::new` are function parameters, and floats are
  carried as their 32-bit patterns (`bv32`).

Two behaviours of `render_sdf` that the model states as the code has them:

- `render_sdf` builds its result with `..*image`, so the returned image keeps
  the input's content kind (`Mask`) and is not marked as a distance field
  (`RenderSdf` ensures `content == image.content`).
- `render_sdf` passes the one-pixel-padded bytes, `(width + 2) * (height + 2)`
  long, with the unpadded width and height, and places the result `pad`
  pixels out from the unpadded placement.

## Model

| member | source | states |
|---|---|---|
| `Ints.AsI32` | shapes/src/shapes.rs:45-46 | `u32 as i32` keeps the bit pattern: the result is congruent to the input modulo 2^32. Values below 2^31 are unchanged and larger ones come out negative. |
| `Shapes.GlyphRunMetrics.Size` | shapes/src/shapes.rs:29-31 | The size is the run's width by its full line height. The height is at least the ascent and at least the descent, and it is ascent plus descent exactly. It requires that sum to fit in `u32`, because the debug build panics otherwise. |
| `Shapes.PositionedGlyph.PixelBoundsAt` | shapes/src/shapes.rs:44-49 | The bounds are one unit pixel: max = min + (1, 1). The only integer point they contain is the anchor plus the `as i32`-cast offset. It requires that coordinate, and that coordinate plus one, to stay in `i32`. |
| `Shapes.PixelBoundsAtSmallOffset` | shapes/src/shapes.rs:45-48 | For offsets below 2^31 the min corner is `(hitbox_pos.0 + offset.0, hitbox_pos.1 + offset.1)`, and that pixel is inside the bounds. |
| `Shapes.PixelBoundsAtLargeOffsetWraps` | shapes/src/shapes.rs:45 | An x offset of 2^31 or more wraps in the cast, so the pixel lies left of the anchor at `hitbox_pos.0 + offset.0 - 2^32`. |
| `Shapes.ShapeGlyphRun` | shapes/src/shapes.rs:9-11 | Every `Shape` is `GlyphRun(run)` for the run it returns: the one variant covers every shape. |
| `GlyphImageRenderer.RenderGlyphImage` | renderer/src/glyph/glyph_image_renderer.rs:9-22 | A failed font lookup gives no image. A found font gives exactly the rasteriser's result for that font and the key. |
| `GlyphImageRenderer.MissingFontSkipsRasterizer` | renderer/src/glyph/glyph_image_renderer.rs:16-21 | When the font is missing the result is `None` whatever the rasteriser is, so the rasteriser is never consulted. |
| `GlyphImageRenderer.PaddedAt` | renderer/src/glyph/glyph_image_renderer.rs:73-82 | Cell (r, c) of the padded grid is at index `r * (width + 2) + c`, inside the buffer, and holds the padded pixel for that row and column. |
| `GlyphImageRenderer.PaddedInterior` | renderer/src/glyph/glyph_image_renderer.rs:75-80 | For every `r < height` and `c < width`, `padded[(r + 1) * (width + 2) + 1 + c] == image[r * width + c]`, and both indices are in bounds. |
| `GlyphImageRenderer.PaddedBorder` | renderer/src/glyph/glyph_image_renderer.rs:74-80 | Every byte of row 0, row `height + 1`, column 0 and column `width + 1` of the padded buffer is 0. |
| `GlyphImageRenderer.PaddedEmptyImage` | renderer/src/glyph/glyph_image_renderer.rs:74-80 | With `width == 0` or `height == 0` the padded buffer is all zeros. |
| `GlyphImageRenderer.InteriorOfPadded` | renderer/src/glyph/glyph_image_renderer.rs:73-82 | Taking the interior of the padded buffer gives back the first `width * height` source bytes, so padding loses no pixel. |
| `GlyphImageRenderer.CopiedRowStep` | renderer/src/glyph/glyph_image_renderer.rs:76-80 | Copying source row `line` into padded row `line + 1`, column 1 onward, turns the buffer for `line` copied rows into the buffer for `line + 1` copied rows. |
| `GlyphImageRenderer.PadImageData` | renderer/src/glyph/glyph_image_renderer.rs:73-83 | It returns exactly `(width + 2) * (height + 2)` bytes, equal to `Padded(image, width, height)`. It requires the source slice to hold at least `width * height` bytes, because slicing panics otherwise. |
| `GlyphImageRenderer.PaddedImageShape` | renderer/src/glyph/glyph_image_renderer.rs:61-70 | The padded image's placement is left − 1, top + 1, width + 2, height + 2. Source and content are kept, and the data holds exactly one byte per pixel of the new placement. |
| `GlyphImageRenderer.PadImage` | renderer/src/glyph/glyph_image_renderer.rs:53-71 | It requires `content == Mask` (the debug assertion) and no overflow in the new placement. The result is the padded image: new placement, padded data, other fields kept. |
| `GlyphImageRenderer.RenderSdf` | renderer/src/glyph/glyph_image_renderer.rs:85-117 | The transform receives a zeroed buffer of `(width + 2 * pad) * (height + 2 * pad)` bytes, the padded mask data and the unpadded width and height. The result is `Some` exactly when the transform reports success; the pad-shifted placement must fit only then. On success the placement is left − pad, top + pad, width + 2·pad, height + 2·pad, the data is the filled buffer, the source and content are kept, and the data matches the placement. |
| `HelloExample.PlaceGlyph` | renderer/examples/hello.rs:104-120 | The glyph's key and hitbox anchor are the triple `CacheKey::new` returns for its font, glyph, size and key position. The hitbox width is the glyph's advance width. |
| `HelloExample.PlaceGlyphs` | renderer/examples/hello.rs:101-122 | There is one output per input glyph, and output `i` is the placement of input glyph `i`, in the same order. |
| `HelloExample.PlaceGlyphsAppend` | renderer/examples/hello.rs:101-122 | Placing `a + b` gives the placements of `a` followed by those of `b`: the map works glyph by glyph. |
| `HelloExample.PlaceGlyphsRoundsPositions` | renderer/examples/hello.rs:99-119 | With `RENDER_SUBPIXEL == false`, glyph `i` gets the key and anchor that `CacheKey::new` derives from its rounded `(x, y)`, and its hitbox width is its `w`. |
| `HelloExample.HitboxWidthIgnoresSubpixel` | renderer/examples/hello.rs:117-119 | The hitbox width of output `i` is input `i`'s `w`, with and without subpixel rendering. |
| `HelloExample.RoundedPlacementIgnoresFraction` | renderer/examples/hello.rs:105-116 | Without subpixel rendering, two glyphs that agree on font, glyph, size, width and rounded position are placed identically. |
| `HelloExample.ShapedText.IntoGlyphRun` | renderer/examples/hello.rs:72-78 | The run holds the shaped text's glyphs and metrics unchanged, and holds the given matrix handle. |

## Left out

- Swash rasterisation in `render_glyph_image` is a foreign library call: the
  scaler builder, hinting, the source priority list, the Alpha format and the
  fractional offset. It is a function parameter returning an optional image.
  The scratch `ScaleContext` is not modelled, because it has no observable
  effect on the result in this model. The warning log on a missing font is I/O
  and is left out.
- The internals of `generate_distance_field_from_image` and the value of
  `DISTANCE_FIELD_PAD` live in a module that is not part of this model. The
  transform is a function parameter, and the pad is a natural-number
  parameter; it must be below 2^31 when the transform succeeds. The
  transform writes into a `&mut [u8]`, and the model represents that write
  as a function returning the buffer's new contents. It requires the transform
  to keep the buffer length.
- `RenderSdf` does not model large pads, because the pad is a small
  constant. From 2^31 on, `pad as i32` wraps negative; from 2^31 on, the `u32`
  multiplication `2 * (pad as u32)` overflows (a debug-build panic); from
  2^32 on, `pad as u32` truncates. When the transform succeeds, it requires
  the pad to be below 2^31, where the casts are exact and the product fits.
- `PadImage` and `RenderSdf` do not model release-build wrap-around of the
  placement arithmetic. They require the debug-build condition that it does
  not overflow: `PadImage` always, `RenderSdf` for the one-pixel pad always
  and for the pad-shifted placement only when the transform succeeds, the
  only case in which the source computes it.
- `Shapes.PositionedGlyph.PixelBoundsAt` does not model release-build
  wrap-around of the two `i32` additions (anchor plus offset, and that plus
  one). It requires both to stay in `i32`, as a debug build does.
- `Shapes.GlyphRunMetrics.Size` does not model release-build wrap-around of
  `max_ascent + max_descent`. It requires the sum to fit in `u32`, as a debug
  build does.
- `usize` overflow of `(width + 2) * (height + 2)` is not modelled. The source
  slice holds `width * height` bytes and each dimension is a `u32`, so the
  product fits in 64 bits.
- Allocation failure of the `vec!` buffers is not modelled.
- `f32` arithmetic is not computed: `round`, the values of `x`, `y`, `w` and
  the font size. Floats are carried as opaque bit patterns, and rounding is a
  function parameter. The `f64` conversion in `pixel_bounds_at` is exact for
  `i32`, so the bounds are integers.
- `Rc<Matrix4>` shared ownership is a handle value (`MatrixHandle`). Storing
  "the same handle" is handle equality. Reference counting and the matrix
  contents are not modelled.
- The rest of the example is not modelled: `main` (runtime, logging, camera
  set-up), `update` (key handling that moves the camera), `render` and
  `shape_text` (the text-layout call and the `f32` ceil and truncating casts of
  the line metrics). These are windowing, layout-library and floating-point
  code outside the glyph pipeline.
