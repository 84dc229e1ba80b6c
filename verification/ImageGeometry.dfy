/** Cropping and resizing in the image worker (badgr/worker.c).

    The program computes in `int16_t`.  The functions below are on integers; the methods are
    on `int16`, and verify only because no intermediate value leaves its range. */
module ImageGeometry {
  import opened Numbers

  newtype int16 = x: int | -0x8000 <= x < 0x8000
  newtype int32 = x: int | -0x8000_0000 <= x < 0x8000_0000

  const INT16_MAX: int16 := 0x7fff
  const THUMBNAIL_HEIGHT: int16 := 250
  const DIM_MAX: int16 := 0x3fff

  datatype Crop<T> = Crop(x: T, y: T, width: T, height: T)

  datatype Operation = Cover | Thumbnail(crop: Crop<int16>) | Avatar(crop: Crop<int16>) | AvatarSource | Banner

  datatype Size = Size(width: int, height: int)

  // ---------- Scaling ----------

  function Abs(x: int): nat {
    if x < 0 then -x else x
  }

  /** `m / d` of `value`, rounded. */
  function Scaled(value: int, m: int, d: int): int
    requires d > 0
  {
    (value * m + d / 2) / d
  }

  /** `r` is within half a unit of `value * m / d`. */
  ghost predicate Nearest(r: int, value: int, m: int, d: int) {
    2 * Abs(r * d - value * m) <= d
  }

  lemma QuotientBounds(a: int, d: int)
    requires d > 0
    ensures a - d < (a / d) * d <= a
  {}

  lemma ScalingKeepsOrder(x: int, y: int, d: int)
    requires d > 0
    ensures x <= y <==> x * d <= y * d
  {}

  lemma AtMost(a: int, d: int, q: int)
    requires d > 0 && a < (q + 1) * d
    ensures a / d <= q
  {
    QuotientBounds(a, d);
    ScalingKeepsOrder(q + 1, a / d, d);
  }

  lemma AtLeast(a: int, d: int, q: int)
    requires d > 0 && q * d <= a
    ensures q <= a / d
  {
    QuotientBounds(a, d);
    ScalingKeepsOrder(a / d, q - 1, d);
  }

  lemma ScaledIsNearest(value: int, m: int, d: int)
    requires value >= 0 && 0 <= m < d
    ensures Nearest(Scaled(value, m, d), value, m, d)
    ensures 0 <= Scaled(value, m, d) <= value
  {
    QuotientBounds(value * m + d / 2, d);
    AtLeast(value * m + d / 2, d, 0);
    assert value * m <= value * (d - 1);
    assert value * (d - 1) + d / 2 < (value + 1) * d;
    AtMost(value * m + d / 2, d, value);
  }

  method Scale(value: int16, m: int16, d: int16) returns (r: int16)
    requires value >= 0 && m >= 0 && d > 0 && m < d
    ensures r as int == Scaled(value as int, m as int, d as int)
  {
    ProductInRange(value as int, m as int);
    ScaledIsNearest(value as int, m as int, d as int);
    r := ((value as int32 * m as int32 + (d / 2) as int32) / d as int32) as int16;
  }

  lemma ProductInRange(a: int, b: int)
    requires 0 <= a <= 0x7fff && 0 <= b <= 0x7fff
    ensures 0 <= a * b <= 0x7fff * 0x7fff
  {
    assert a * b <= 0x7fff * b;
  }

  // ---------- Fitting into a box ----------

  function AtLeastOne(x: int): int {
    if x == 0 then 1 else x
  }

  /** The size that `sandboxed_main` resizes to. */
  function Fit(image: Size, box: Size): Size
    requires image.width > 0 && image.height > 0
  {
    var first :=
      if image.width > box.width then Size(box.width, Scaled(image.height, box.width, image.width)) else image;
    var second :=
      if first.height > box.height then Size(Scaled(image.width, box.height, image.height), box.height) else first;
    Size(AtLeastOne(second.width), AtLeastOne(second.height))
  }

  /** As `Nearest`, but a dimension never vanishes. */
  ghost predicate NearestOrOne(r: int, value: int, m: int, d: int) {
    Nearest(r, value, m, d) || (r == 1 && Nearest(0, value, m, d))
  }

  /** Within box and image; either untouched, or one side is at its limit and the other keeps the aspect ratio. */
  lemma FitCorrect(image: Size, box: Size)
    requires image.width > 0 && image.height > 0 && box.width > 0 && box.height > 0
    ensures var r := Fit(image, box);
            && 1 <= r.width <= image.width && 1 <= r.height <= image.height
            && r.width <= box.width && r.height <= box.height
            && (r == image <==> image.width <= box.width && image.height <= box.height)
            && (|| r == image
                || (r.width == box.width && NearestOrOne(r.height, image.height, box.width, image.width))
                || (r.height == box.height && NearestOrOne(r.width, image.width, box.height, image.height)))
  {
    var w, h, mw, mh := image.width, image.height, box.width, box.height;
    if w > mw {
      ScaledIsNearest(h, mw, w);
    }
    var limited := if w > mw then Scaled(h, mw, w) else h;
    if limited > mh {
      ScaledIsNearest(w, mh, h);
      if w > mw {
        SecondLimitKeepsFirst(w, h, mw, mh);
      }
    }
  }

  /** If the height is still too large at the full width of the box, then the width fits at its full height. */
  lemma SecondLimitKeepsFirst(w: int, h: int, mw: int, mh: int)
    requires 0 < mw < w && 0 < mh < h && Scaled(h, mw, w) > mh
    ensures Scaled(w, mh, h) <= mw
  {
    QuotientBounds(h * mw + w / 2, w);
    assert Scaled(h, mw, w) * w >= (mh + 1) * w;
    assert h * mw + w / 2 >= mh * w + w;
    assert (mw + 1) * h == h * mw + h && mh * w == w * mh;
    AtMost(w * mh + h / 2, h, mw);
  }

  // ---------- Automatic crop of thumbnails ----------

  const NO_CROP: Crop<int> := Crop(0, 0, 0, 0)

  function Autocrop(image: Size): Crop<int> {
    var maxWidth := 2 * Max(image.height, 250);
    var maxHeight := Max(2 * image.width, 250);
    if image.width > maxWidth then Crop((image.width - maxWidth) / 2, 0, maxWidth, image.height)
    else if image.height > maxHeight then Crop(0, 0, image.width, maxHeight)
    else NO_CROP
  }

  predicate Usable(crop: Crop<int>, image: Size) {
    && crop.x < image.width && crop.y < image.height
    && crop.x + crop.width <= image.width && crop.y + crop.height <= image.height
  }

  /** What is left of the image: all of it if the crop is empty or out of bounds. */
  function Cropped(crop: Crop<int>, image: Size): Size {
    if Usable(crop, image) && crop != NO_CROP then Size(crop.width, crop.height) else image
  }

  const THUMBNAIL_BOX := Size(500, 250)

  ghost predicate ThumbnailSized(r: Size, image: Size) {
    r.height == Min(image.height, 250) && Min(image.width, 125) <= r.width <= 500
  }

  lemma WideThumbnail(w: int, h: int)
    requires 250 < h && 500 < w && h <= 2 * w && w <= 2 * h
    ensures ThumbnailSized(Fit(Size(w, h), THUMBNAIL_BOX), Size(w, h))
  {
    AtLeast(h * 500 + w / 2, w, 250);
    assert w * 250 + h / 2 < 501 * h;
    AtMost(w * 250 + h / 2, h, 500);
    AtLeast(w * 250 + h / 2, h, 125);
  }

  lemma TallThumbnail(w: int, h: int)
    requires 250 < h && 0 < w <= 500 && h <= 2 * w
    ensures ThumbnailSized(Fit(Size(w, h), THUMBNAIL_BOX), Size(w, h))
  {
    AtMost(w * 250 + h / 2, h, 500);
    AtLeast(w * 250 + h / 2, h, 125);
  }

  /** An image of any shape makes a thumbnail of full height, 125 to 500 wide, unless it is smaller itself. */
  lemma AutocropCorrect(image: Size)
    requires image.width > 0 && image.height > 0
    ensures Usable(Autocrop(image), image)
    ensures ThumbnailSized(Fit(Cropped(Autocrop(image), image), THUMBNAIL_BOX), image)
  {
    var c := Cropped(Autocrop(image), image);
    if c.height > 250 {
      if c.width > 500 {
        WideThumbnail(c.width, c.height);
      } else {
        TallThumbnail(c.width, c.height);
      }
    }
  }

  /** An image is left whole from 1:2 to 2:1, or if it is not larger than a thumbnail in the direction concerned; else
      it is cut to that, on both sides evenly if it is too wide, and at the bottom if it is too tall. */
  lemma AutocropExactly(image: Size)
    requires image.width > 0 && image.height > 0
    ensures var c, w, h := Autocrop(image), image.width, image.height;
            if w > 2 * h && w > 500 then
              && c.y == 0 && c.height == h && c.width == Max(2 * h, 500)
              && 0 <= (w - c.width - c.x) - c.x <= 1
            else if h > 2 * w && h > 250 then
              c.x == 0 && c.y == 0 && c.width == w && c.height == Max(2 * w, 250)
            else c == NO_CROP
  {}

  predicate OfImage(x: int, y: int, image: Size) {
    0 <= x < image.width && 0 <= y < image.height
  }

  predicate OfCrop(x: int, y: int, crop: Crop<int>) {
    crop.x <= x < crop.x + crop.width && crop.y <= y < crop.y + crop.height
  }

  /** A crop is applied exactly if every pixel of it is one of the image. */
  lemma CroppedExactly(crop: Crop<int>, image: Size)
    requires image.width > 0 && image.height > 0
    requires crop.x >= 0 && crop.y >= 0 && ((crop.width > 0 && crop.height > 0) || crop == NO_CROP)
    ensures var inside := forall x, y | OfCrop(x, y, crop) :: OfImage(x, y, image);
            Cropped(crop, image) == if crop != NO_CROP && inside then Size(crop.width, crop.height) else image
  {
    if crop != NO_CROP {
      var right, bottom := crop.x + crop.width - 1, crop.y + crop.height - 1;
      assert OfCrop(crop.x, crop.y, crop) && OfCrop(right, bottom, crop);
    }
  }

  // ---------- The worker's steps ----------

  function Box(op: Operation): Size {
    match op
    case Thumbnail(_) => THUMBNAIL_BOX
    case Cover => Size(1024, 3000)
    case Avatar(_) => Size(100, 100)
    case AvatarSource => Size(600, 500)
    case Banner => Size(1650, 250)
  }

  function Int(c: Crop<int16>): Crop<int> {
    Crop(c.x as int, c.y as int, c.width as int, c.height as int)
  }

  /** What `parse_args` lets through: nothing negative, and no crop that is empty in one direction only. */
  predicate Parsed(c: Crop<int16>) {
    c.x >= 0 && c.y >= 0 && c.width >= 0 && c.height >= 0 && (Int(c) == NO_CROP || (c.width != 0 && c.height != 0))
  }

  function Requested(op: Operation, image: Size): Crop<int> {
    match op
    case Thumbnail(c) => if Int(c) == NO_CROP then Autocrop(image) else Int(c)
    case Avatar(c) => Int(c)
    case _ => NO_CROP
  }

  function Output(op: Operation, image: Size): Size
    requires image.width > 0 && image.height > 0 && ((op.Thumbnail? || op.Avatar?) ==> Parsed(op.crop))
  {
    Fit(Cropped(Requested(op, image), image), Box(op))
  }

  method AutocropThumbnail(width: int16, height: int16) returns (r: Crop<int16>)
    requires 0 < width <= DIM_MAX && 0 < height <= DIM_MAX
    ensures Int(r) == Autocrop(Size(width as int, height as int))
  {
    var maxWidth: int16 := 2 * (if height > THUMBNAIL_HEIGHT then height else THUMBNAIL_HEIGHT);
    if width > maxWidth {
      return Crop((width - maxWidth) / 2, 0, maxWidth, height);
    }
    var maxHeight: int16 := if 2 * width > THUMBNAIL_HEIGHT then 2 * width else THUMBNAIL_HEIGHT;
    if height > maxHeight {
      return Crop(0, 0, width, maxHeight);
    }
    return Crop(0, 0, 0, 0);
  }

  datatype Result = DimensionsOverLimit | Resized(width: int16, height: int16)

  /** `sandboxed_main`, from the measured image to the size of the output. */
  method Resize(op: Operation, measuredWidth: nat, measuredHeight: nat) returns (r: Result)
    requires measuredWidth > 0 && measuredHeight > 0
    requires op.Thumbnail? || op.Avatar? ==> Parsed(op.crop)
    ensures r.DimensionsOverLimit? <==> measuredWidth > DIM_MAX as int || measuredHeight > DIM_MAX as int
    ensures r.Resized? ==>
      Size(r.width as int, r.height as int) == Output(op, Size(measuredWidth, measuredHeight))
  {
    if measuredWidth > DIM_MAX as int || measuredHeight > DIM_MAX as int {
      return DimensionsOverLimit;
    }
    var width, height := measuredWidth as int16, measuredHeight as int16;
    if op.Thumbnail? || op.Avatar? {
      width, height := ApplyCrop(op, width, height);
    }
    var maxWidth, maxHeight;
    match op {
      case Thumbnail(_) =>
        maxHeight := THUMBNAIL_HEIGHT;
        maxWidth := 2 * THUMBNAIL_HEIGHT;
      case Cover =>
        maxWidth, maxHeight := 1024, 3000;
      case Avatar(_) =>
        maxWidth, maxHeight := 100, 100;
      case AvatarSource =>
        maxWidth, maxHeight := 600, 500;
      case Banner =>
        maxWidth, maxHeight := 1650, 250;
    }
    var resizeWidth, resizeHeight := FitInto(width, height, maxWidth, maxHeight);
    return Resized(resizeWidth, resizeHeight);
  }

  method ApplyCrop(op: Operation, imageWidth: int16, imageHeight: int16) returns (width: int16, height: int16)
    requires 0 < imageWidth <= DIM_MAX && 0 < imageHeight <= DIM_MAX
    requires (op.Thumbnail? || op.Avatar?) && Parsed(op.crop)
    ensures 0 < width <= imageWidth && 0 < height <= imageHeight
    ensures var image := Size(imageWidth as int, imageHeight as int);
            Size(width as int, height as int) == Cropped(Requested(op, image), image)
  {
    var crop := op.crop;
    var empty := Crop(0, 0, 0, 0);
    width, height := imageWidth, imageHeight;
    if crop == empty && op.Thumbnail? {
      crop := AutocropThumbnail(imageWidth, imageHeight);
    }
    if || crop.x >= imageWidth
       || crop.y >= imageHeight
       || crop.x > INT16_MAX - crop.width
       || crop.y > INT16_MAX - crop.height
       || crop.x + crop.width > imageWidth
       || crop.y + crop.height > imageHeight
    {
      // skipped, with a warning
    } else if crop != empty && (crop.width != imageWidth || crop.height != imageHeight) {
      width, height := crop.width, crop.height;
    }
  }

  method FitInto(imageWidth: int16, imageHeight: int16, maxWidth: int16, maxHeight: int16)
    returns (width: int16, height: int16)
    requires imageWidth > 0 && imageHeight > 0 && maxWidth > 0 && maxHeight > 0
    ensures Size(width as int, height as int)
         == Fit(Size(imageWidth as int, imageHeight as int), Size(maxWidth as int, maxHeight as int))
  {
    width, height := imageWidth, imageHeight;
    if imageWidth > maxWidth {
      width := maxWidth;
      height := Scale(imageHeight, maxWidth, imageWidth);
      ScaledIsNearest(imageHeight as int, maxWidth as int, imageWidth as int);
    }
    if height > maxHeight {
      width := Scale(imageWidth, maxHeight, imageHeight);
      height := maxHeight;
    }
    if width == 0 {
      width := 1;
    }
    if height == 0 {
      height := 1;
    }
  }

  /** The result for every accepted image. */
  lemma OutputCorrect(op: Operation, image: Size)
    requires 0 < image.width && 0 < image.height
    requires op.Thumbnail? || op.Avatar? ==> Parsed(op.crop)
    ensures var r, source := Output(op, image), Cropped(Requested(op, image), image);
            && 1 <= r.width <= source.width <= image.width && 1 <= r.height <= source.height <= image.height
            && r.width <= Box(op).width && r.height <= Box(op).height
    ensures op.Thumbnail? && Int(op.crop) == NO_CROP ==> ThumbnailSized(Output(op, image), image)
  {
    AutocropCorrect(image);
    FitCorrect(Cropped(Requested(op, image), image), Box(op));
  }

  /** As large as it gets within so much. */
  ghost predicate Fills(r: Size, source: Size, width: int, height: int) {
    && r.width <= width && r.height <= height
    && (source.width <= width && source.height <= height ==> r == source)
    && (source.width > width || source.height > height ==> r.width == width || r.height == height)
  }

  /** Covers fill 1024x3000, thumbnails 500x250, avatars 100x100, what avatars are cut from 600x500, banners 1650x250;
      only thumbnails and avatars are cropped. */
  lemma OutputFills(op: Operation, image: Size)
    requires 0 < image.width && 0 < image.height
    requires op.Thumbnail? || op.Avatar? ==> Parsed(op.crop)
    ensures var r := Output(op, image);
            match op
            case Cover => Fills(r, image, 1024, 3000)
            case Thumbnail(crop) =>
              Fills(r, Cropped(if Int(crop) == NO_CROP then Autocrop(image) else Int(crop), image), 500, 250)
            case Avatar(crop) => Fills(r, Cropped(Int(crop), image), 100, 100)
            case AvatarSource => Fills(r, image, 600, 500)
            case Banner => Fills(r, image, 1650, 250)
  {
    OutputCorrect(op, image);
    FitCorrect(Cropped(Requested(op, image), image), Box(op));
    hide Fit, Autocrop;
  }
}
