/**
 The per-icon transform of `process_and_package`: crop to the visible
 pixels, shrink to fit the target square, paste centred on a transparent
 square canvas, and lay the result over an opaque colour when one was
 chosen.
 */
module Pipeline {
  import opened Images
  import opened Backgrounds

  /** A value, or the text of the exception that a step raised. */
  datatype Result<T> = Ok(value: T) | Err(reason: string)

  /**
   What one icon turns into: the final square image, and `out_img` as it
   stands after the shrink step (its size is what the success log line shows).
   */
  datatype Fitted = Fitted(icon: Image, resized: Image)

  /** Raised by `thumbnail` for a target edge of zero or less (division by zero, or a resize to no pixels). */
  const NonPositiveSize: string := "target size must be positive"

  /** `out_img.crop(bbox)` when `getbbox()` finds a box, the image unchanged otherwise. */
  function CropToContent(img: Image): (r: Image)
    ensures ContentBox(img).None? ==> r == img
    ensures ContentBox(img).Some? ==>
      var b := ContentBox(img).value;
      && r.width == b.right - b.left && r.height == b.lower - b.upper
      && (forall y, x | 0 <= y < r.height && 0 <= x < r.width :: r.px[y][x] == img.px[b.upper + y][b.left + x])
      && (forall y, x | 0 <= y < img.height && 0 <= x < img.width && !InBox(b, x, y) :: !Visible(img.px[y][x]))
  {
    var box := ContentBox(img);
    if box.None? then img else Crop(img, box.value)
  }

  /** Cropping to the content box leaves an image whose box is the whole image or that has no visible pixel. */
  lemma CropToContentTrims(img: Image)
    ensures Trimmed(CropToContent(img)) || FullyTransparent(CropToContent(img))
    ensures CropToContent(CropToContent(img)) == CropToContent(img)
  {
    var r := CropToContent(img);
    if ContentBox(img).Some? {
      CropIsTrimmed(img, ContentBox(img).value);
      CropWholeIsIdentity(r);
    }
  }

  lemma SameImage(a: Image, b: Image)
    requires a.width == b.width && a.height == b.height
    requires forall y, x | 0 <= y < a.height && 0 <= x < a.width :: a.px[y][x] == b.px[y][x]
    ensures a == b
  {
    forall y | 0 <= y < a.height
      ensures a.px[y] == b.px[y]
    {
    }
  }

  lemma CropWholeIsIdentity(img: Image)
    ensures Crop(img, Box(0, 0, img.width, img.height)) == img
  {
    SameImage(Crop(img, Box(0, 0, img.width, img.height)), img);
  }

  /**
   The paste offset `(size - extent) // 2`. For a positive divisor Dafny's
   division rounds down like Python's `//`.
   */
  function CentreOffset(size: int, extent: int): (off: int)
    ensures 2 * off <= size - extent <= 2 * off + 1
  {
    (size - extent) / 2
  }

  /** For an extent that fits, the offset keeps the pasted span inside, with margins that differ by at most one. */
  lemma CentreOffsetInBounds(size: int, extent: int)
    requires 0 <= extent <= size
    ensures var off := CentreOffset(size, extent);
      && 0 <= off && off + extent <= size
      && off <= size - (off + extent) <= off + 1
  {
  }

  /** The transparent `size` by `size` canvas with the shrunk icon pasted at its centring offset. */
  function Padded(out: Image, size: nat): (r: Image)
    requires size >= 1
    ensures r.width == size && r.height == size
  {
    Paste(Canvas(size, size, Clear), out, CentreOffset(size, out.width), CentreOffset(size, out.height))
  }

  /** Step 6: composite over an opaque canvas of the chosen colour, or keep the padded canvas. */
  function ApplyBackground(padded: Image, bg: Background): (r: Image)
    ensures r.width == padded.width && r.height == padded.height
  {
    match bg
    case Transparent => padded
    case Solid(c) => AlphaComposite(Canvas(padded.width, padded.height, Opaque(c)), padded)
  }

  /**
   Steps 3 to 6 for one background-removed image. The only error is a
   non-positive target size, which `thumbnail` rejects.
   */
  function FitIcon(img: Image, size: int, bg: Background): (r: Result<Fitted>)
    ensures r.Ok? <==> size >= 1
    ensures r.Ok? ==> r.value.icon.width == size && r.value.icon.height == size
    ensures r.Ok? ==> r.value.resized.width <= size && r.value.resized.height <= size
  {
    if size < 1 then Err(NonPositiveSize)
    else
      var out := Thumbnail(CropToContent(img), size);
      Ok(Fitted(ApplyBackground(Padded(out, size), bg), out))
  }

  /**
   With the transparent choice the icon is the shrunk image at its centring
   offset, which lies inside the square, and every other pixel is (0, 0, 0, 0).
   */
  lemma TransparentOutsidePaste(img: Image, size: int)
    requires size >= 1
    ensures var f := FitIcon(img, size, Transparent).value;
      var ox, oy := CentreOffset(size, f.resized.width), CentreOffset(size, f.resized.height);
      && 0 <= ox && ox + f.resized.width <= size && 0 <= oy && oy + f.resized.height <= size
      && (forall y, x | 0 <= y < size && 0 <= x < size ::
            f.icon.px[y][x] == if Covers(ox, oy, f.resized, x, y) then f.resized.px[y - oy][x - ox] else Clear)
  {
    var f := FitIcon(img, size, Transparent).value;
    CentreOffsetInBounds(size, f.resized.width);
    CentreOffsetInBounds(size, f.resized.height);
  }

  /**
   With a colour chosen every pixel of the icon is fully opaque, and outside
   the pasted rectangle it is exactly that colour.
   */
  lemma ColouredIsOpaque(img: Image, size: int, c: Rgb)
    requires size >= 1
    ensures var f := FitIcon(img, size, Solid(c)).value;
      var ox, oy := CentreOffset(size, f.resized.width), CentreOffset(size, f.resized.height);
      && (forall y, x | 0 <= y < size && 0 <= x < size :: f.icon.px[y][x].a == 255)
      && (forall y, x | 0 <= y < size && 0 <= x < size && !Covers(ox, oy, f.resized, x, y) :: f.icon.px[y][x] == Opaque(c))
  {
    var f := FitIcon(img, size, Solid(c)).value;
    var p := Padded(f.resized, size);
    forall y, x | 0 <= y < size && 0 <= x < size
      ensures f.icon.px[y][x] == Over(p.px[y][x], Opaque(c))
    {
    }
  }

  predicate AllOpaque(img: Image) {
    forall y, x | 0 <= y < img.height && 0 <= x < img.width :: img.px[y][x].a == 255
  }

  lemma OpaqueIsTrimmed(img: Image)
    requires AllOpaque(img)
    ensures Trimmed(img)
  {
    var full := Box(0, 0, img.width, img.height);
    assert Visible(img.px[0][0]) && Visible(img.px[img.height - 1][img.width - 1]);
    assert TightBox(full, img);
    TightBoxUnique(img, ContentBox(img).value, full);
  }

  lemma PasteWholeIsIdentity(canvas: Image, img: Image)
    requires canvas.width == img.width && canvas.height == img.height
    ensures Paste(canvas, img, 0, 0) == img
  {
    SameImage(Paste(canvas, img, 0, 0), img);
  }

  lemma CompositeOpaqueIsIdentity(dst: Image, src: Image)
    requires dst.width == src.width && dst.height == src.height && AllOpaque(src)
    ensures AlphaComposite(dst, src) == src
  {
    SameImage(AlphaComposite(dst, src), src);
  }

  /** A square icon of the target size passes through the pipeline unchanged when it is trimmed or fully transparent. */
  lemma SquareAtSize(img: Image, size: int)
    requires size >= 1 && img.width == size && img.height == size
    requires Trimmed(img) || FullyTransparent(img)
    ensures FitIcon(img, size, Transparent).value.icon == img
  {
    if Trimmed(img) {
      CropWholeIsIdentity(img);
    }
    PasteWholeIsIdentity(Canvas(size, size, Clear), img);
  }

  /** Running the pipeline on its own coloured output gives the same image again. */
  lemma RefitColouredIsIdentity(img: Image, size: int, c: Rgb)
    requires size >= 1
    ensures var f := FitIcon(img, size, Solid(c)).value.icon;
      FitIcon(f, size, Solid(c)).value.icon == f
  {
    var f := FitIcon(img, size, Solid(c)).value.icon;
    ColouredIsOpaque(img, size, c);
    assert AllOpaque(f);
    OpaqueIsTrimmed(f);
    SquareAtSize(f, size);
    CompositeOpaqueIsIdentity(Canvas(size, size, Opaque(c)), f);
  }

  lemma PaddedKeepsRow(out: Image, size: nat, y: nat)
    requires size >= 1 && out.width <= size && out.height <= size
    requires y < out.height && RowHasContent(out, y)
    ensures CentreOffset(size, out.height) + y < size
    ensures RowHasContent(Padded(out, size), CentreOffset(size, out.height) + y)
  {
    CentreOffsetInBounds(size, out.width);
    CentreOffsetInBounds(size, out.height);
    var x :| 0 <= x < out.width && Visible(out.px[y][x]);
    assert Visible(Padded(out, size).px[CentreOffset(size, out.height) + y][CentreOffset(size, out.width) + x]);
  }

  lemma PaddedKeepsCol(out: Image, size: nat, x: nat)
    requires size >= 1 && out.width <= size && out.height <= size
    requires x < out.width && ColHasContent(out, x)
    ensures CentreOffset(size, out.width) + x < size
    ensures ColHasContent(Padded(out, size), CentreOffset(size, out.width) + x)
  {
    CentreOffsetInBounds(size, out.width);
    CentreOffsetInBounds(size, out.height);
    var y :| 0 <= y < out.height && Visible(out.px[y][x]);
    assert Visible(Padded(out, size).px[CentreOffset(size, out.height) + y][CentreOffset(size, out.width) + x]);
  }

  /** The pasted rectangle of the padded canvas. */
  function PasteBox(out: Image, size: nat): Box
    requires out.width <= size && out.height <= size
  {
    var ox, oy := CentreOffset(size, out.width), CentreOffset(size, out.height);
    Box(ox, oy, ox + out.width, oy + out.height)
  }

  lemma PaddedVisibleInPaste(out: Image, size: nat)
    requires size >= 1 && out.width <= size && out.height <= size
    ensures forall y, x | 0 <= y < size && 0 <= x < size && Visible(Padded(out, size).px[y][x]) :: InBox(PasteBox(out, size), x, y)
  {
  }

  /** The top and bottom rows of a tightly boxed icon still hold visible pixels once it is padded. */
  lemma PaddedRowEdges(out: Image, size: nat)
    requires size >= 1 && out.width <= size && out.height <= size
    requires TightBox(Box(0, 0, out.width, out.height), out)
    ensures var b := PasteBox(out, size);
      b.lower <= size && RowHasContent(Padded(out, size), b.upper) && RowHasContent(Padded(out, size), b.lower - 1)
  {
    PaddedKeepsRow(out, size, 0);
    PaddedKeepsRow(out, size, out.height - 1);
  }

  /** The leftmost and rightmost columns of a tightly boxed icon still hold visible pixels once it is padded. */
  lemma PaddedColEdges(out: Image, size: nat)
    requires size >= 1 && out.width <= size && out.height <= size
    requires TightBox(Box(0, 0, out.width, out.height), out)
    ensures var b := PasteBox(out, size);
      b.right <= size && ColHasContent(Padded(out, size), b.left) && ColHasContent(Padded(out, size), b.right - 1)
  {
    PaddedKeepsCol(out, size, 0);
    PaddedKeepsCol(out, size, out.width - 1);
  }

  /** The content box of the padded canvas of a trimmed icon is the rectangle the icon was pasted into. */
  lemma PaddedKeepsTrim(out: Image, size: nat)
    requires size >= 1 && out.width <= size && out.height <= size && Trimmed(out)
    ensures ContentBox(Padded(out, size)) == Some(PasteBox(out, size))
  {
    assert TightBox(Box(0, 0, out.width, out.height), out);
    PasteBoxIsTight(out, size);
    IsContentBox(Padded(out, size), PasteBox(out, size));
  }

  /** The pasted rectangle of a tightly boxed icon is a tight box of the padded canvas. */
  lemma PasteBoxIsTight(out: Image, size: nat)
    requires size >= 1 && out.width <= size && out.height <= size
    requires TightBox(Box(0, 0, out.width, out.height), out)
    ensures TightBox(PasteBox(out, size), Padded(out, size))
  {
    PaddedRowEdges(out, size);
    PaddedColEdges(out, size);
    PaddedVisibleInPaste(out, size);
  }

  /** Each pixel of the shrunk icon sits at its centring offset in the padded canvas. */
  lemma PaddedAt(out: Image, size: nat, y: nat, x: nat)
    requires size >= 1 && out.width <= size && out.height <= size
    requires y < out.height && x < out.width
    ensures CentreOffset(size, out.height) + y < size && CentreOffset(size, out.width) + x < size
    ensures Padded(out, size).px[CentreOffset(size, out.height) + y][CentreOffset(size, out.width) + x] == out.px[y][x]
  {
    CentreOffsetInBounds(size, out.width);
    CentreOffsetInBounds(size, out.height);
    assert Covers(CentreOffset(size, out.width), CentreOffset(size, out.height), out,
                  CentreOffset(size, out.width) + x, CentreOffset(size, out.height) + y);
  }

  /** Cropping the padded canvas to the pasted rectangle gives the pasted icon back. */
  lemma CropPasteBox(out: Image, size: nat)
    requires size >= 1 && out.width <= size && out.height <= size
    ensures CentreOffset(size, out.width) + out.width <= size && CentreOffset(size, out.height) + out.height <= size
    ensures Crop(Padded(out, size), PasteBox(out, size)) == out
  {
    CentreOffsetInBounds(size, out.width);
    CentreOffsetInBounds(size, out.height);
    var c := Crop(Padded(out, size), PasteBox(out, size));
    forall y, x | 0 <= y < out.height && 0 <= x < out.width
      ensures c.px[y][x] == out.px[y][x]
    {
      PaddedAt(out, size, y, x);
    }
    SameImage(c, out);
  }

  /** The padded canvas of a fully transparent icon is itself fully transparent. */
  lemma PaddedKeepsTransparency(out: Image, size: nat)
    requires size >= 1 && FullyTransparent(out)
    ensures FullyTransparent(Padded(out, size))
  {
  }

  /**
   Running the transparent pipeline on its own output gives the same image
   again, whenever the shrunk icon is trimmed or has no visible pixel (so
   always when no resampling took place: see `CropToContentTrims`).
   */
  lemma RefitTransparentIsIdentity(img: Image, size: int)
    requires size >= 1
    requires var out := FitIcon(img, size, Transparent).value.resized; Trimmed(out) || FullyTransparent(out)
    ensures var f := FitIcon(img, size, Transparent).value.icon;
      FitIcon(f, size, Transparent).value.icon == f
  {
    var out := FitIcon(img, size, Transparent).value.resized;
    var f := FitIcon(img, size, Transparent).value.icon;
    assert f == Padded(out, size);
    if FullyTransparent(out) {
      PaddedKeepsTransparency(out, size);
      SquareAtSize(f, size);
    } else {
      PaddedKeepsTrim(out, size);
      CropPasteBox(out, size);
      assert CropToContent(f) == out;
    }
  }
}
