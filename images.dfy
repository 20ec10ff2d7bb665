/**
 The part of Pillow's RGBA image model that the icon pipeline relies on:
 pixels, rectangular images, the bounding box of visible pixels, cropping,
 shrink-to-fit, blank canvases, pasting and "over" alpha compositing.
 Images are values here; Pillow's in-place operations become functions
 that return the updated image.
 */
module Images {

  /** One 8-bit colour or alpha channel. */
  type Channel = c: int | 0 <= c <= 255

  datatype Pixel = Rgba(r: Channel, g: Channel, b: Channel, a: Channel)

  datatype Rgb = Rgb(r: Channel, g: Channel, b: Channel)

  /** The pixel of a fresh transparent canvas, (0, 0, 0, 0). */
  const Clear := Rgba(0, 0, 0, 0)

  /** A fully opaque pixel of the given colour. */
  function Opaque(c: Rgb): Pixel {
    Rgba(c.r, c.g, c.b, 255)
  }

  /** A raster: `px[y][x]` is the pixel in row `y`, column `x`. */
  datatype Bitmap = Bitmap(width: nat, height: nat, px: seq<seq<Pixel>>)

  predicate WellFormed(b: Bitmap) {
    && b.width >= 1 && b.height >= 1
    && |b.px| == b.height
    && forall y | 0 <= y < |b.px| :: |b.px[y]| == b.width
  }

  /** A decoded image: every raster format the pipeline reads has at least one row and one column. */
  type Image = b: Bitmap | WellFormed(b) witness Bitmap(1, 1, [[Clear]])

  /** A pixel is visible when its alpha is not zero (what `getbbox` looks for in RGBA images). */
  predicate Visible(p: Pixel) {
    p.a != 0
  }

  predicate RowHasContent(img: Image, y: nat)
    requires y < img.height
  {
    exists x | 0 <= x < img.width :: Visible(img.px[y][x])
  }

  predicate ColHasContent(img: Image, x: nat)
    requires x < img.width
  {
    exists y {:trigger img.px[y][x]} | 0 <= y < img.height :: Visible(img.px[y][x])
  }

  predicate FullyTransparent(img: Image) {
    forall y, x | 0 <= y < img.height && 0 <= x < img.width :: !Visible(img.px[y][x])
  }

  /** Pillow's box: columns `left..right` and rows `upper..lower`, upper bounds exclusive. */
  datatype Box = Box(left: nat, upper: nat, right: nat, lower: nat)

  predicate InBox(b: Box, x: int, y: int) {
    b.left <= x < b.right && b.upper <= y < b.lower
  }

  /** A non-empty box inside the image. */
  predicate BoxWithin(b: Box, img: Image) {
    b.left < b.right <= img.width && b.upper < b.lower <= img.height
  }

  /** The box encloses every visible pixel and each of its four edges touches one. */
  predicate TightBox(b: Box, img: Image) {
    && BoxWithin(b, img)
    && (forall y, x | 0 <= y < img.height && 0 <= x < img.width && Visible(img.px[y][x]) :: InBox(b, x, y))
    && RowHasContent(img, b.upper) && RowHasContent(img, b.lower - 1)
    && ColHasContent(img, b.left) && ColHasContent(img, b.right - 1)
  }

  /** Index of the first set flag, or |s| when none is set. */
  function FirstSet(s: seq<bool>): (r: nat)
    ensures r <= |s|
    ensures forall i | 0 <= i < r :: !s[i]
    ensures r < |s| ==> s[r]
  {
    if s == [] then 0
    else if s[0] then 0
    else 1 + FirstSet(s[1..])
  }

  /** One past the index of the last set flag, or 0 when none is set. */
  function EndOfSet(s: seq<bool>): (r: nat)
    ensures r <= |s|
    ensures forall i | r <= i < |s| :: !s[i]
    ensures 0 < r ==> s[r - 1]
  {
    if s == [] then 0
    else if s[|s| - 1] then |s|
    else EndOfSet(s[..|s| - 1])
  }

  function RowFlags(img: Image): (f: seq<bool>)
    ensures |f| == img.height
    ensures forall y | 0 <= y < img.height :: f[y] == RowHasContent(img, y)
  {
    seq(img.height, y requires 0 <= y < img.height => RowHasContent(img, y))
  }

  function ColFlags(img: Image): (f: seq<bool>)
    ensures |f| == img.width
    ensures forall x | 0 <= x < img.width :: f[x] == ColHasContent(img, x)
  {
    seq(img.width, x requires 0 <= x < img.width => ColHasContent(img, x))
  }

  /** The box spanned by the first and last rows and columns that hold a visible pixel. */
  function FlagBox(img: Image): Box {
    var rows, cols := RowFlags(img), ColFlags(img);
    Box(FirstSet(cols), FirstSet(rows), EndOfSet(cols), EndOfSet(rows))
  }

  lemma NoContentRow(img: Image)
    requires FirstSet(RowFlags(img)) == img.height
    ensures FullyTransparent(img)
  {
    forall y, x | 0 <= y < img.height && 0 <= x < img.width
      ensures !Visible(img.px[y][x])
    {
      assert !RowFlags(img)[y];
    }
  }

  lemma FlagBoxEncloses(img: Image, x: nat, y: nat)
    requires y < img.height && x < img.width && Visible(img.px[y][x])
    ensures InBox(FlagBox(img), x, y)
  {
    var rows, cols := RowFlags(img), ColFlags(img);
    assert RowHasContent(img, y);
    assert ColHasContent(img, x);
    assert rows[y] && cols[x];
  }

  lemma FlagBoxEdges(img: Image)
    requires FirstSet(RowFlags(img)) < img.height
    ensures BoxWithin(FlagBox(img), img)
    ensures RowHasContent(img, FlagBox(img).upper) && RowHasContent(img, FlagBox(img).lower - 1)
    ensures ColHasContent(img, FlagBox(img).left) && ColHasContent(img, FlagBox(img).right - 1)
  {
    var rows, cols := RowFlags(img), ColFlags(img);
    var b := FlagBox(img);
    assert rows[b.upper];
    var x0 :| 0 <= x0 < img.width && Visible(img.px[b.upper][x0]);
    FlagBoxEncloses(img, x0, b.upper);
    assert rows[b.lower - 1] && cols[b.left] && cols[b.right - 1];
  }

  lemma FlagBoxEnclosesAll(img: Image)
    ensures forall y, x | 0 <= y < img.height && 0 <= x < img.width && Visible(img.px[y][x]) :: InBox(FlagBox(img), x, y)
  {
    forall y, x | 0 <= y < img.height && 0 <= x < img.width && Visible(img.px[y][x])
      ensures InBox(FlagBox(img), x, y)
    {
      FlagBoxEncloses(img, x, y);
    }
  }

  lemma FlagBoxIsTight(img: Image)
    requires FirstSet(RowFlags(img)) < img.height
    ensures TightBox(FlagBox(img), img)
  {
    FlagBoxEdges(img);
    FlagBoxEnclosesAll(img);
  }

  /**
   `Image.getbbox()`: the bounding box of the visible pixels, or None when
   the image is fully transparent.
   */
  function ContentBox(img: Image): (r: Option<Box>)
    ensures r.None? <==> FullyTransparent(img)
    ensures r.Some? ==> TightBox(r.value, img)
  {
    if FirstSet(RowFlags(img)) == img.height then
      NoContentRow(img);
      None
    else
      FlagBoxIsTight(img);
      Some(FlagBox(img))
  }

  /** Two tight boxes of one image are the same box. */
  lemma TightBoxUnique(img: Image, b: Box, c: Box)
    requires TightBox(b, img) && TightBox(c, img)
    ensures b == c
  {
    var x1 :| 0 <= x1 < img.width && Visible(img.px[b.upper][x1]);
    var x2 :| 0 <= x2 < img.width && Visible(img.px[c.upper][x2]);
    var x3 :| 0 <= x3 < img.width && Visible(img.px[b.lower - 1][x3]);
    var x4 :| 0 <= x4 < img.width && Visible(img.px[c.lower - 1][x4]);
    var y1 :| 0 <= y1 < img.height && Visible(img.px[y1][b.left]);
    var y2 :| 0 <= y2 < img.height && Visible(img.px[y2][c.left]);
    var y3 :| 0 <= y3 < img.height && Visible(img.px[y3][b.right - 1]);
    var y4 :| 0 <= y4 < img.height && Visible(img.px[y4][c.right - 1]);
    assert InBox(c, x1, b.upper) && InBox(b, x2, c.upper);
    assert InBox(c, x3, b.lower - 1) && InBox(b, x4, c.lower - 1);
    assert InBox(c, b.left, y1) && InBox(b, c.left, y2);
    assert InBox(c, b.right - 1, y3) && InBox(b, c.right - 1, y4);
  }

  /** `Image.crop(box)` for a box inside the image. */
  function Crop(img: Image, b: Box): (r: Image)
    requires BoxWithin(b, img)
    ensures r.width == b.right - b.left && r.height == b.lower - b.upper
    ensures forall y, x | 0 <= y < r.height && 0 <= x < r.width :: r.px[y][x] == img.px[b.upper + y][b.left + x]
  {
    Bitmap(b.right - b.left, b.lower - b.upper,
      seq(b.lower - b.upper, y requires 0 <= y < b.lower - b.upper =>
        seq(b.right - b.left, x requires 0 <= x < b.right - b.left => img.px[b.upper + y][b.left + x])))
  }

  lemma MulStrict(a: int, b: int, c: int)
    requires a < b && c > 0
    ensures c * a < c * b
  {
  }

  /** Cancelling a positive factor from a product inequality. */
  lemma CancelFactor(a: int, b: int, c: int)
    requires c > 0 && a * c <= b * c
    ensures a <= b
  {
    if a > b {
      MulStrict(b, a, c);
      assert false;
    }
  }

  /**
   The width `round_aspect` keeps: whichever of the floor and the ceiling of
   `n / d` is nearer to `n / d`. Pillow compares the two in floating point,
   so on an exact half-pixel tie rounding error picks one; the model keeps
   the floor there.
   */
  function RoundNearest(n: nat, d: nat): (r: nat)
    requires d > 0
    ensures 2 * (r * d - n) <= d && 2 * (n - r * d) <= d
  {
    var q, rem := n / d, n % d;
    assert n == q * d + rem;
    if rem == 0 || 2 * rem <= d then q
    else
      assert (q + 1) * d == q * d + d;
      q + 1
  }

  /**
   Pillow's `round_aspect` on `n / d` for the height: of the floor `f` and the
   ceiling `f + 1` it keeps the one whose `size / n` is nearer to the aspect
   ratio `w / h`, scaled here by `w / d` into whole numbers; a floor of zero
   is always kept (its key is zero).
   */
  function RoundByInverse(n: nat, d: nat): (r: nat)
    requires d > 0
    ensures r * d <= n + d - 1 && n < r * d + d
  {
    var q, rem := n / d, n % d;
    assert n == q * d + rem;
    if rem == 0 || q == 0 || rem * (q + 1) <= (d - rem) * q then q
    else
      assert (q + 1) * d == q * d + d;
      q + 1
  }

  /** Whether an image of `w` by `h` pixels already fits in a `size` by `size` square. */
  predicate Fits(w: int, h: int, size: int) {
    w <= size && h <= size
  }

  /**
   The size `Image.thumbnail((size, size))` gives a `w` by `h` image. An
   image that fits is left alone; otherwise the longer side becomes `size`
   and the shorter one follows the aspect ratio, at least one pixel.
   */
  function ThumbnailSize(w: nat, h: nat, size: nat): (r: (nat, nat))
    requires w >= 1 && h >= 1 && size >= 1
  {
    if Fits(w, h, size) then (w, h)
    else if w <= h then (Max1(RoundNearest(size * w, h)), size)
    else (size, Max1(RoundByInverse(size * h, w)))
  }

  function Max1(n: nat): nat {
    if n < 1 then 1 else n
  }

  /** The rounded quotient `n / d` of a fraction below both `a` and `b` is at most `a` and `b`. */
  lemma RoundedBelow(n: nat, d: nat, q: nat, r: nat, a: nat, b: nat)
    requires d > 0 && q == n / d && (r == q || (r == q + 1 && n % d != 0))
    requires n <= a * d && n < b * d
    ensures r <= a && r <= b
  {
    assert q * d <= n;
    CancelFactor(q, a, d);
    CancelFactor(q, b, d);
    if r == q + 1 {
      assert q * d < n;
      if q == a {
        assert false;
      }
      if q == b {
        assert false;
      }
    }
  }

  /** A tall image that does not fit: its height becomes `size`, its width at most `size` and `w`. */
  lemma TallThumbnail(w: nat, h: nat, size: nat)
    requires 1 <= w <= h && size >= 1 && h > size
    ensures var tw := RoundNearest(size * w, h); tw <= size && tw <= w
  {
    MulLeft(w, h, size);
    MulStrict(size, h, w);
    RoundedBelow(size * w, h, size * w / h, RoundNearest(size * w, h), size, w);
  }

  /** A wide image that does not fit: its width becomes `size`, its height at most `size` and `h`. */
  lemma WideThumbnail(w: nat, h: nat, size: nat)
    requires 1 <= h < w && size >= 1 && w > size
    ensures var th := RoundByInverse(size * h, w); th <= size && th <= h
  {
    MulLeft(h, w, size);
    MulStrict(size, w, h);
    RoundedBelow(size * h, w, size * h / w, RoundByInverse(size * h, w), size, h);
  }

  lemma ThumbnailSizeBounds(w: nat, h: nat, size: nat)
    requires w >= 1 && h >= 1 && size >= 1
    ensures var (tw, th) := ThumbnailSize(w, h, size);
      && 1 <= tw <= size && 1 <= th <= size
      && tw <= w && th <= h
      && (Fits(w, h, size) ==> tw == w && th == h)
      && (!Fits(w, h, size) && w <= h ==> th == size && (tw == 1 || (2 * (tw * h - size * w) <= h && 2 * (size * w - tw * h) <= h)))
      && (!Fits(w, h, size) && w > h ==> tw == size && (th == 1 || size * h - w < th * w < size * h + w))
  {
    if !Fits(w, h, size) {
      if w <= h {
        TallThumbnail(w, h, size);
      } else {
        WideThumbnail(w, h, size);
      }
    }
  }

  /** Nearest-neighbour source index for destination index `i` when `src` pixels are resampled to `dst`. */
  function Sample(i: nat, src: nat, dst: nat): (r: nat)
    requires i < dst && src >= 1
    ensures r < src
  {
    var n := src * (2 * i + 1);
    MulStrict(2 * i + 1, 2 * dst, src);
    CancelBelow(n, 2 * dst, src);
    n / (2 * dst)
  }

  lemma CancelBelow(n: nat, d: nat, k: nat)
    requires d > 0 && n < k * d
    ensures n / d < k
  {
    var q := n / d;
    assert q * d <= n;
    if q >= k {
      MulLeft(k, q, d);
      assert false;
    }
  }

  /** `Image.resize((tw, th))`, with nearest-neighbour sampling standing in for Pillow's filter. */
  function Resize(img: Image, tw: nat, th: nat): (r: Image)
    requires tw >= 1 && th >= 1
    ensures r.width == tw && r.height == th
  {
    Bitmap(tw, th,
      seq(th, y requires 0 <= y < th =>
        seq(tw, x requires 0 <= x < tw => img.px[Sample(y, img.height, th)][Sample(x, img.width, tw)])))
  }

  /**
   `img.thumbnail((size, size))`: shrink-only, aspect-preserving resize into
   a square of `size`. The result is never larger than the square nor than
   the image, and an image that already fits is returned unchanged.
   */
  function Thumbnail(img: Image, size: nat): (r: Image)
    requires size >= 1
    ensures r.width <= size && r.height <= size
    ensures r.width <= img.width && r.height <= img.height
    ensures Fits(img.width, img.height, size) ==> r == img
    ensures !Fits(img.width, img.height, size) ==> r.width == size || r.height == size
    ensures !Fits(img.width, img.height, size) ==> (r.width, r.height) == ThumbnailSize(img.width, img.height, size)
  {
    ThumbnailSizeBounds(img.width, img.height, size);
    if Fits(img.width, img.height, size) then img
    else
      var (tw, th) := ThumbnailSize(img.width, img.height, size);
      Resize(img, tw, th)
  }

  /** An image whose visible pixels touch all four of its borders, so cropping leaves it as it is. */
  predicate Trimmed(img: Image) {
    ContentBox(img) == Some(Box(0, 0, img.width, img.height))
  }

  /** A tight box is the one `getbbox()` finds. */
  lemma IsContentBox(img: Image, b: Box)
    requires TightBox(b, img)
    ensures ContentBox(img) == Some(b)
  {
    var x :| 0 <= x < img.width && Visible(img.px[b.upper][x]);
    assert !FullyTransparent(img);
    TightBoxUnique(img, ContentBox(img).value, b);
  }

  lemma CropKeepsRow(img: Image, b: Box, y: nat)
    requires TightBox(b, img) && b.upper <= y < b.lower && RowHasContent(img, y)
    ensures RowHasContent(Crop(img, b), y - b.upper)
  {
    var x :| 0 <= x < img.width && Visible(img.px[y][x]);
    assert InBox(b, x, y);
    assert Visible(Crop(img, b).px[y - b.upper][x - b.left]);
  }

  lemma CropKeepsCol(img: Image, b: Box, x: nat)
    requires TightBox(b, img) && b.left <= x < b.right && ColHasContent(img, x)
    ensures ColHasContent(Crop(img, b), x - b.left)
  {
    var y :| 0 <= y < img.height && Visible(img.px[y][x]);
    assert InBox(b, x, y);
    assert Visible(Crop(img, b).px[y - b.upper][x - b.left]);
  }

  /** Cropping to a tight box leaves a trimmed image. */
  lemma CropIsTrimmed(img: Image, b: Box)
    requires TightBox(b, img)
    ensures Trimmed(Crop(img, b))
  {
    var r := Crop(img, b);
    CropKeepsRow(img, b, b.upper);
    CropKeepsRow(img, b, b.lower - 1);
    CropKeepsCol(img, b, b.left);
    CropKeepsCol(img, b, b.right - 1);
    IsContentBox(r, Box(0, 0, r.width, r.height));
  }

  /** A `w`-by-`h` image filled with one pixel, as `Image.new("RGBA", (w, h), fill)` makes it. */
  function Canvas(w: nat, h: nat, fill: Pixel): (r: Image)
    requires w >= 1 && h >= 1
    ensures r.width == w && r.height == h
    ensures forall y, x | 0 <= y < h && 0 <= x < w :: r.px[y][x] == fill
  {
    Bitmap(w, h, seq(h, y requires 0 <= y < h => seq(w, x requires 0 <= x < w => fill)))
  }

  /** Whether canvas position (x, y) lies under an image pasted with its top-left corner at (ox, oy). */
  predicate Covers(ox: int, oy: int, img: Image, x: int, y: int) {
    ox <= x < ox + img.width && oy <= y < oy + img.height
  }

  /**
   `canvas.paste(img, (ox, oy))` without a mask: the covered canvas pixels are
   replaced by the image's pixels (alpha included), the rest are kept; parts
   of the image outside the canvas are clipped.
   */
  function Paste(canvas: Image, img: Image, ox: int, oy: int): (r: Image)
    ensures r.width == canvas.width && r.height == canvas.height
    ensures forall y, x | 0 <= y < r.height && 0 <= x < r.width ::
      r.px[y][x] == if Covers(ox, oy, img, x, y) then img.px[y - oy][x - ox] else canvas.px[y][x]
  {
    Bitmap(canvas.width, canvas.height,
      seq(canvas.height, y requires 0 <= y < canvas.height =>
        seq(canvas.width, x requires 0 <= x < canvas.width =>
          if Covers(ox, oy, img, x, y) then img.px[y - oy][x - ox] else canvas.px[y][x])))
  }

  lemma MulLeft(a: int, b: int, c: int)
    requires a <= b && c >= 0
    ensures c * a <= c * b
  {
  }

  /** A numerator below 256 times the divisor gives a channel value. */
  lemma QuotientIsChannel(n: int, d: int)
    requires d > 0 && 0 <= n < 256 * d
    ensures 0 <= n / d <= 255
  {
  }

  /** Two channel values weighted by `u` and `v` sum to at most 255 times the total weight. */
  lemma WeightedBelow(s: Channel, d: Channel, u: nat, v: nat)
    ensures u * s + v * d <= 255 * (u + v)
  {
    MulLeft(s, 255, u);
    MulLeft(d, 255, v);
  }

  /** One colour channel of "over": the source and destination channels weighted by their alpha contributions, rounded. */
  function Mix(s: Channel, d: Channel, sa: Channel, blend: nat, outA: nat): (r: Channel)
    requires outA == sa * 255 + blend && outA > 0
  {
    var n := (sa * 255) * s + blend * d + outA / 2;
    WeightedBelow(s, d, sa * 255, blend);
    QuotientIsChannel(n, outA);
    n / outA
  }

  /**
   The "over" operator of `Image.alpha_composite` for one pixel: `src` laid
   over `dst`. A fully transparent source leaves the destination as it is.
   */
  function Over(src: Pixel, dst: Pixel): (r: Pixel)
    ensures dst.a == 255 ==> r.a == 255
    ensures src.a == 255 ==> r == src
    ensures src.a == 0 ==> r == dst
  {
    if src.a == 0 then dst
    else
      var blend := dst.a * (255 - src.a);
      var outA := src.a * 255 + blend;
      assert outA <= 255 * 255 by { MulLeft(dst.a, 255, 255 - src.a); }
      Rgba(Mix(src.r, dst.r, src.a, blend, outA),
           Mix(src.g, dst.g, src.a, blend, outA),
           Mix(src.b, dst.b, src.a, blend, outA),
           (outA + 127) / 255)
  }

  /** `Image.alpha_composite(dst, src)`: `src` laid over `dst`, pixel by pixel. */
  function AlphaComposite(dst: Image, src: Image): (r: Image)
    requires dst.width == src.width && dst.height == src.height
    ensures r.width == dst.width && r.height == dst.height
    ensures forall y, x | 0 <= y < r.height && 0 <= x < r.width :: r.px[y][x] == Over(src.px[y][x], dst.px[y][x])
  {
    Bitmap(dst.width, dst.height,
      seq(dst.height, y requires 0 <= y < dst.height =>
        seq(dst.width, x requires 0 <= x < dst.width => Over(src.px[y][x], dst.px[y][x]))))
  }

  datatype Option<T> = None | Some(value: T)
}
