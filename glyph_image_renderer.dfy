/**
 * Production of glyph images (renderer/src/glyph/glyph_image_renderer.rs):
 * looking up the font of a cache key, padding an alpha mask with a one-pixel
 * zero border, and turning a mask into a distance field through an external
 * distance transform.
 */
module GlyphImageRenderer {
  import opened Wrappers
  import opened Ints
  import opened Shapes

  /** How to pick a bitmap strike when the source is a bitmap. */
  datatype StrikeWith = ExactSize | LargestSize | BestFit | Index(index: U16)

  /** Where a rendered image came from. */
  datatype Source = ColorOutline(palette: U16) | ColorBitmap(strike: StrikeWith) | Bitmap(strike: StrikeWith) | Outline

  /** What the bytes of an image mean: one alpha byte per pixel, or per subpixel, or colour. */
  datatype Content = Mask | SubpixelMask | Color

  /** Where an image sits relative to the pen position, and its size in pixels. */
  datatype Placement = Placement(left: I32, top: I32, width: U32, height: U32)

  /** A rendered glyph image: its origin, content kind, placement and row-major bytes. */
  datatype Image = Image(source: Source, content: Content, placement: Placement, data: seq<byte>)

  /** The image's bytes are exactly one per pixel of its placement. */
  predicate SizedByPlacement(image: Image) {
    |image.data| == image.placement.width * image.placement.height
  }

  // ---------------------------------------------------------------------------
  // Font lookup

  /**
   * Rendering of the image for `key`. The font database lookup and the
   * rasteriser (scaler, source priority, alpha format, fractional offset) are
   * collaborators passed in; only the lookup failure is decided here.
   */
  function RenderGlyphImage<Font>(lookup: FontId -> Option<Font>, rasterize: (Font, CacheKey) -> Option<Image>,
                                  key: CacheKey): (image: Option<Image>)
    ensures lookup(key.fontId).None? ==> image.None?
    ensures lookup(key.fontId).Some? ==> image == rasterize(lookup(key.fontId).value, key)
  {
    match lookup(key.fontId)
    case None => None
    case Some(font) => rasterize(font, key)
  }

  /** When the font is missing the rasteriser is never consulted: any rasteriser gives the same "no image". */
  lemma MissingFontSkipsRasterizer<Font>(lookup: FontId -> Option<Font>,
                                         r1: (Font, CacheKey) -> Option<Image>, r2: (Font, CacheKey) -> Option<Image>,
                                         key: CacheKey)
    requires lookup(key.fontId).None?
    ensures RenderGlyphImage(lookup, r1, key) == RenderGlyphImage(lookup, r2, key) == None
  {
  }

  // ---------------------------------------------------------------------------
  // Arithmetic on row-major grids

  lemma MulLeMono(a: nat, b: nat, k: nat)
    requires a <= b
    ensures a * k <= b * k
  {
  }

  /** Cell (`r`, `c`) of a grid `width` wide and `rows` high is inside its row-major buffer. */
  lemma RowMajorIndexBound(r: nat, c: nat, width: nat, rows: nat)
    requires r < rows && c < width
    ensures r * width + c < width * rows
  {
    MulLeMono(r + 1, rows, width);
  }

  /** The row and column of a row-major index are recovered by division and remainder. */
  lemma RowMajorDivMod(r: int, c: int, width: int)
    requires 0 <= c < width
    ensures (r * width + c) / width == r
    ensures (r * width + c) % width == c
  {
    var n := r * width + c;
    var q, m := n / width, n % width;
    assert q * width + m == n;
    assert (r - q) * width == m - c;
    if r - q >= 1 {
      MulLeMono(1, r - q, width);
    } else if q - r >= 1 {
      MulLeMono(1, q - r, width);
    }
  }

  // ---------------------------------------------------------------------------
  // Padding

  /** A buffer of `n` zero bytes. */
  function Zeros(n: nat): (z: seq<byte>)
  {
    seq(n, _ => 0)
  }

  /**
   * The byte at row `r`, column `c` of a `width`-wide image padded by one
   * pixel on every side, once its first `rows` source rows have been copied:
   * source pixel (`r`-1, `c`-1) inside the copied rows, zero elsewhere.
   */
  function PaddedPixel(image: seq<byte>, width: nat, rows: nat, r: int, c: int): byte
    requires width * rows <= |image|
  {
    if 1 <= r <= rows && 1 <= c <= width then
      RowMajorIndexBound(r - 1, c - 1, width, rows);
      image[(r - 1) * width + (c - 1)]
    else
      0
  }

  /**
   * The bytes of the `width` by `height` image `image` padded by one zero
   * pixel on every side, as a row-major buffer `width + 2` wide.
   */
  function Padded(image: seq<byte>, width: nat, height: nat): seq<byte>
    requires width * height <= |image|
  {
    seq((width + 2) * (height + 2),
        i requires 0 <= i < (width + 2) * (height + 2) =>
          PaddedPixel(image, width, height, i / (width + 2), i % (width + 2)))
  }

  /** Cell (`r`, `c`) of the padded grid is at row-major index `r * (width + 2) + c`. */
  lemma {:induction false} PaddedAt(image: seq<byte>, width: nat, height: nat, r: nat, c: nat)
    requires width * height <= |image|
    requires r < height + 2 && c < width + 2
    ensures r * (width + 2) + c < |Padded(image, width, height)|
    ensures Padded(image, width, height)[r * (width + 2) + c] == PaddedPixel(image, width, height, r, c)
  {
    RowMajorIndexBound(r, c, width + 2, height + 2);
    RowMajorDivMod(r, c, width + 2);
  }

  /** The interior of the padded buffer, shifted by one row and one column, is the source image. */
  lemma {:induction false} PaddedInterior(image: seq<byte>, width: nat, height: nat, r: nat, c: nat)
    requires width * height <= |image|
    requires r < height && c < width
    ensures r * width + c < |image|
    ensures (r + 1) * (width + 2) + 1 + c < |Padded(image, width, height)|
    ensures Padded(image, width, height)[(r + 1) * (width + 2) + 1 + c] == image[r * width + c]
  {
    RowMajorIndexBound(r, c, width, height);
    PaddedAt(image, width, height, r + 1, c + 1);
  }

  /** Every byte of the first and last rows and of the first and last columns is zero. */
  lemma {:induction false} PaddedBorder(image: seq<byte>, width: nat, height: nat, r: nat, c: nat)
    requires width * height <= |image|
    requires r < height + 2 && c < width + 2
    requires r == 0 || r == height + 1 || c == 0 || c == width + 1
    ensures r * (width + 2) + c < |Padded(image, width, height)|
    ensures Padded(image, width, height)[r * (width + 2) + c] == 0
  {
    PaddedAt(image, width, height, r, c);
  }

  /** Padding an image with no rows or no columns gives a buffer of zeros only. */
  lemma PaddedEmptyImage(image: seq<byte>, width: nat, height: nat)
    requires width * height <= |image|
    requires width == 0 || height == 0
    ensures Padded(image, width, height) == Zeros((width + 2) * (height + 2))
  {
  }

  /** The `width` by `height` image in the interior of a buffer `width + 2` wide. */
  function Interior(padded: seq<byte>, width: nat, height: nat): (image: seq<byte>)
    requires (width + 2) * (height + 2) <= |padded|
  {
    seq(width * height,
        i requires 0 <= i < width * height =>
          InteriorIndexBound(i, width, height);
          padded[(i / width + 1) * (width + 2) + 1 + i % width])
  }

  lemma InteriorIndexBound(i: nat, width: nat, height: nat)
    requires i < width * height
    ensures width > 0 && i / width < height
    ensures (i / width + 1) * (width + 2) + 1 + i % width < (width + 2) * (height + 2)
  {
    var q, m := i / width, i % width;
    assert q * width + m == i;
    if q >= height {
      MulLeMono(height, q, width);
      assert false;
    }
    RowMajorIndexBound(q + 1, m + 1, width + 2, height + 2);
  }

  /** Taking the interior of a padded image gives back the image: padding loses nothing. */
  lemma {:induction false} InteriorOfPadded(image: seq<byte>, width: nat, height: nat)
    requires width * height <= |image|
    ensures Interior(Padded(image, width, height), width, height) == image[..width * height]
  {
    var padded := Padded(image, width, height);
    var interior := Interior(padded, width, height);
    forall i | 0 <= i < width * height
      ensures interior[i] == image[i]
    {
      InteriorIndexBound(i, width, height);
      var r, c := i / width, i % width;
      PaddedInterior(image, width, height, r, c);
      assert i == r * width + c;
    }
    assert interior == image[..width * height];
  }

  /**
   * One step of the row copy: byte `i` of the buffer after source row `line`
   * has been copied into padded row `line + 1` is the padded pixel for
   * `line + 1` copied rows, given that it was the one for `line` rows before.
   */
  lemma CopiedRowStep(image: seq<byte>, width: nat, line: nat, i: nat, before: byte, after: byte)
    requires width * (line + 1) <= |image|
    requires before == PaddedPixel(image, width, line, i / (width + 2), i % (width + 2))
    requires var dest := (line + 1) * (width + 2) + 1;
             if dest <= i < dest + width then line * width + (i - dest) < |image| && after == image[line * width + (i - dest)]
             else after == before
    ensures after == PaddedPixel(image, width, line + 1, i / (width + 2), i % (width + 2))
  {
    MulLeMono(line, line + 1, width);
    var dest := (line + 1) * (width + 2) + 1;
    if dest <= i < dest + width {
      RowMajorDivMod(line + 1, i - dest + 1, width + 2);
    } else {
      var r, c := i / (width + 2), i % (width + 2);
      assert i == r * (width + 2) + c;
    }
  }

  /** Row `line` of the source and its destination in the padded buffer are both in bounds. */
  lemma RowCopyInBounds(width: nat, height: nat, line: nat, length: nat)
    requires line < height && width * height <= length
    ensures (line + 1) * (width + 2) + 1 + width <= (width + 2) * (height + 2)
    ensures line * width + width <= length && width * (line + 1) <= length
  {
    MulLeMono(line + 2, height + 2, width + 2);
    MulLeMono(line + 1, height, width);
  }

  /**
   * Allocates a zeroed `(width + 2) * (height + 2)` buffer and copies each of
   * the `height` source rows into it one row down and one column right. The
   * source slice must hold at least `width * height` bytes: slicing it panics
   * otherwise.
   */
  method PadImageData(image: seq<byte>, width: nat, height: nat) returns (padded: seq<byte>)
    requires width * height <= |image|
    ensures |padded| == (width + 2) * (height + 2)
    ensures padded == Padded(image, width, height)
  {
    var buffer := new byte[(width + 2) * (height + 2)](_ => 0);
    var rowOffset := width + 2;
    for line := 0 to height
      invariant width * line <= |image|
      invariant forall i | 0 <= i < buffer.Length ::
        buffer[i] == PaddedPixel(image, width, line, i / rowOffset, i % rowOffset)
    {
      var destOffset := (line + 1) * rowOffset + 1;
      var srcOffset := line * width;
      RowCopyInBounds(width, height, line, |image|);
      ghost var before := buffer[..];
      // copy source row `line` into padded row `line + 1`, starting at column 1
      forall k | 0 <= k < width {
        buffer[destOffset + k] := image[srcOffset + k];
      }
      assert forall i | 0 <= i < buffer.Length && !(destOffset <= i < destOffset + width) :: buffer[i] == before[i];
      assert forall i | destOffset <= i < destOffset + width :: buffer[i] == image[srcOffset + (i - destOffset)];
      forall i | 0 <= i < buffer.Length
        ensures buffer[i] == PaddedPixel(image, width, line + 1, i / rowOffset, i % rowOffset)
      {
        CopiedRowStep(image, width, line, i, before[i], buffer[i]);
      }
    }
    padded := buffer[..];
  }

  /**
   * The image may be padded: its data holds `width * height` bytes, and the
   * new placement does not overflow `i32` and `u32` (a debug-build panic).
   */
  predicate Paddable(image: Image) {
    image.placement.width * image.placement.height <= |image.data| &&
    image.placement.left - 1 >= I32_MIN && image.placement.top + 1 <= I32_MAX &&
    image.placement.width + 2 <= U32_MAX && image.placement.height + 2 <= U32_MAX
  }

  /**
   * A mask image padded by one pixel: the placement moves one pixel left and
   * one up and grows by two in each dimension, the data is the padded
   * buffer, and every other field is kept.
   */
  function PaddedImage(image: Image): Image
    requires Paddable(image)
  {
    image.(placement := Placement(image.placement.left - 1, image.placement.top + 1,
                                  image.placement.width + 2, image.placement.height + 2),
           data := Padded(image.data, image.placement.width, image.placement.height))
  }

  /**
   * Padding grows the placement by exactly two pixels in each dimension around
   * the same pixels, keeps source and content kind, and leaves data that
   * matches the new placement byte for pixel.
   */
  lemma PaddedImageShape(image: Image)
    requires Paddable(image)
    ensures var padded := PaddedImage(image);
            padded.placement.width == image.placement.width + 2 &&
            padded.placement.height == image.placement.height + 2 &&
            padded.placement.left == image.placement.left - 1 &&
            padded.placement.top == image.placement.top + 1 &&
            padded.source == image.source && padded.content == image.content &&
            SizedByPlacement(padded)
  {
  }

  /**
   * Pads a mask image by one pixel. Padding anything but a mask is a
   * programming error (a debug assertion).
   */
  method PadImage(image: Image) returns (padded: Image)
    requires image.content == Mask
    requires Paddable(image)
    ensures padded == PaddedImage(image)
  {
    var data := PadImageData(image.data, image.placement.width, image.placement.height);
    padded := image.(placement := Placement(image.placement.left - 1, image.placement.top + 1,
                                            image.placement.width + 2, image.placement.height + 2),
                     data := data);
  }

  // ---------------------------------------------------------------------------
  // Distance field

  /**
   * The external distance transform: given the output buffer, the padded
   * mask bytes and a width and height, it reports success and yields the
   * output buffer's new contents.
   */
  type DistanceTransform = (seq<byte>, seq<byte>, nat, nat) -> (bool, seq<byte>)

  /** The transform writes into a fixed-length slice, so it never changes the buffer's length. */
  ghost predicate FillsInPlace(transform: DistanceTransform) {
    forall output, input, width, height :: |transform(output, input, width, height).1| == |output|
  }

  /**
   * The distance field's placement can be computed: `pad` is exact under the
   * `as i32` and `as u32` casts, and moving and growing the placement by it
   * overflows neither `i32` nor `u32` (a debug-build panic).
   */
  predicate DistanceFieldFits(image: Image, pad: nat) {
    pad <= I32_MAX &&
    image.placement.left - pad >= I32_MIN && image.placement.top + pad <= I32_MAX &&
    image.placement.width + 2 * pad <= U32_MAX && image.placement.height + 2 * pad <= U32_MAX
  }

  /** The distance field's placement: `pad` further left and up, `2 * pad` larger in each dimension. */
  function DistanceFieldPlacement(placement: Placement, pad: nat): (field: Placement)
    requires placement.left - pad >= I32_MIN && placement.top + pad <= I32_MAX
    requires placement.width + 2 * pad <= U32_MAX && placement.height + 2 * pad <= U32_MAX
  {
    Placement(placement.left - pad, placement.top + pad, placement.width + 2 * pad, placement.height + 2 * pad)
  }

  /** The number of bytes of the distance-field buffer for an image placed at `placement`. */
  function DistanceFieldLength(placement: Placement, pad: nat): nat {
    (placement.width + 2 * pad) * (placement.height + 2 * pad)
  }

  /**
   * What the transform reports when it is handed a zeroed buffer of
   * `(width + 2 * pad) * (height + 2 * pad)` bytes, the one-pixel-padded mask
   * data and the UNPADDED width and height: success, and the filled buffer.
   */
  function DistanceFieldOutcome(image: Image, pad: nat, transform: DistanceTransform): (bool, seq<byte>)
    requires Paddable(image)
  {
    transform(Zeros(DistanceFieldLength(image.placement, pad)),
              Padded(image.data, image.placement.width, image.placement.height),
              image.placement.width, image.placement.height)
  }

  /**
   * Pads the mask by one pixel and runs the transform as in
   * `DistanceFieldOutcome`. On success the image is the filled buffer, placed
   * `pad` further left and up and grown by `2 * pad` in each dimension, and
   * the source and content kind of the mask are kept; on failure there is no
   * image. The new placement is computed only on success, so only then must
   * it fit.
   */
  method RenderSdf(image: Image, pad: nat, transform: DistanceTransform) returns (sdf: Option<Image>)
    requires image.content == Mask
    requires Paddable(image)
    requires FillsInPlace(transform)
    requires DistanceFieldOutcome(image, pad, transform).0 ==> DistanceFieldFits(image, pad)
    ensures sdf.Some? <==> DistanceFieldOutcome(image, pad, transform).0
    ensures sdf.Some? ==> sdf.value.data == DistanceFieldOutcome(image, pad, transform).1
    ensures sdf.Some? ==> sdf.value.placement == DistanceFieldPlacement(image.placement, pad)
    ensures sdf.Some? ==> sdf.value.source == image.source && sdf.value.content == image.content
    ensures sdf.Some? ==> SizedByPlacement(sdf.value)
  {
    var width := image.placement.width;
    var height := image.placement.height;
    var paddedImage := PadImage(image);
    var distanceField := Zeros(DistanceFieldLength(image.placement, pad));
    var (sdfOk, filled) := transform(distanceField, paddedImage.data, width, height);
    if sdfOk {
      var placement := DistanceFieldPlacement(image.placement, pad);
      assert |filled| == placement.width * placement.height;
      sdf := Some(image.(placement := placement, data := filled));
    } else {
      sdf := None;
    }
  }
}
