/** Output-size resolution, crop rectangle, resize sides and encoding choice
    (src/lib/utils.ts). JavaScript numbers are modelled as exact reals: no
    rounding happens except where the source calls `Math.ceil`. */
module Geometry {
  import opened Common
  import opened Types

  /** The settings object handed to `calculateOuputDimensions`; the aspect
      ratio fields callers also pass are not read by it. */
  datatype DimensionRequest = DimensionRequest(
    width: Option<real>,
    height: Option<real>,
    widthMode: DimensionMode,
    heightMode: DimensionMode)

  /** `settings.width ?? 0` */
  function OrZero(v: Option<real>): real {
    if v.Some? then v.value else 0.0
  }

  /** The requested size of a variant: both sides with their modes. */
  function RequestOf(width: Dimension, height: Dimension): DimensionRequest {
    DimensionRequest(width.value, height.value, width.mode, height.mode)
  }

  /** The height that keeps the image's aspect ratio at width `w`. */
  function HeightForWidth(image: ImageSize, w: real): real {
    w * image.height / image.width
  }

  /** The width that keeps the image's aspect ratio at height `h`. */
  function WidthForHeight(image: ImageSize, h: real): real {
    h * image.width / image.height
  }

  /** `calculateOuputDimensions`: a side counts as provided when its value is
      present and not zero. */
  function CalculateOutputDimensions(image: ImageSize, settings: Option<DimensionRequest>): (r: Size)
    ensures settings.None? ==> r == Size(0.0, 0.0)
    ensures settings.Some? && OrZero(settings.value.width) == 0.0 && OrZero(settings.value.height) == 0.0
            ==> r == Size(image.width, image.height)
  {
    if settings.None? then Size(0.0, 0.0)
    else
      var s := settings.value;
      var w, h := OrZero(s.width), OrZero(s.height);
      var iw, ih := image.width, image.height;
      if w != 0.0 && h != 0.0 then
        match (s.widthMode, s.heightMode)
        case (Exact, Exact) => Size(w, h)
        case (Exact, UpTo) => Size(w, Min(h, HeightForWidth(image, w)))
        case (UpTo, Exact) => Size(Min(w, WidthForHeight(image, h)), h)
        case (UpTo, UpTo) =>
          if iw / ih > w / h then
            var fw := Min(w, iw);
            Size(fw, HeightForWidth(image, fw))
          else
            var fh := Min(h, ih);
            Size(WidthForHeight(image, fh), fh)
      else if w != 0.0 then
        match s.widthMode
        case Exact => Size(w, HeightForWidth(image, w))
        case UpTo =>
          var fw := Min(w, iw);
          Size(fw, HeightForWidth(image, fw))
      else if h != 0.0 then
        match s.heightMode
        case Exact => Size(WidthForHeight(image, h), h)
        case UpTo =>
          var fh := Min(h, ih);
          Size(WidthForHeight(image, fh), fh)
      else
        Size(iw, ih)
  }

  /** With both sides given in `exact` mode the requested size is returned
      verbatim, whatever the image's aspect ratio. */
  lemma ExactExactIsVerbatim(image: ImageSize, w: real, h: real)
    requires w != 0.0 && h != 0.0
    ensures CalculateOutputDimensions(image, Some(DimensionRequest(Some(w), Some(h), Exact, Exact))) == Size(w, h)
  {
  }

  /** `exact` width with `upto` height: the width is the requested one and the
      height is the smaller of the requested height and the aspect-scaled
      height. */
  lemma ExactUpToCapsHeight(image: ImageSize, w: real, h: real)
    requires w != 0.0 && h != 0.0
    ensures var r := CalculateOutputDimensions(image, Some(DimensionRequest(Some(w), Some(h), Exact, UpTo)));
            r.width == w && r.height <= h && r.height <= w * image.height / image.width
            && (r.height == h || r.height == w * image.height / image.width)
  {
  }

  /** `upto` width with `exact` height: the mirror image. */
  lemma UpToExactCapsWidth(image: ImageSize, w: real, h: real)
    requires w != 0.0 && h != 0.0
    ensures var r := CalculateOutputDimensions(image, Some(DimensionRequest(Some(w), Some(h), UpTo, Exact)));
            r.height == h && r.width <= w && r.width <= h * image.width / image.height
            && (r.width == w || r.width == h * image.width / image.height)
  {
  }

  /** For positive b and d, a/b > c/d exactly when a*d > c*b. */
  lemma RatioComparison(a: real, b: real, c: real, d: real)
    requires b > 0.0 && d > 0.0
    ensures a / b > c / d <==> a * d > c * b
  {
    assert a == (a / b) * b;
    assert c == (c / d) * d;
    assert a * d == (a / b) * (b * d);
    assert c * b == (c / d) * (b * d);
  }

  /** Dividing by a ratio a/b is multiplying by its inverse. */
  lemma DivideByRatio(x: real, a: real, b: real)
    requires a > 0.0 && b > 0.0
    ensures x / (a / b) == x * b / a
    ensures x * (a / b) == x * a / b
  {
    var r := a / b;
    assert r * b == a;
    assert (x / r) * r == x;
    assert (x / r) * a == (x / r) * r * b;
    assert (x * b / a) * a == x * b;
  }

  /** Scaling x by the ratio p/q keeps the pair (x, x*p/q) proportional to (q, p). */
  lemma ScaledIsProportional(x: real, p: real, q: real)
    requires q > 0.0
    ensures (x * p / q) * q == x * p
  {
  }

  /** Scaling a smaller x by p/q (all positive) gives a smaller result. */
  lemma ScaleMonotonic(x: real, y: real, p: real, q: real)
    requires q > 0.0 && p > 0.0 && x <= y
    ensures x * p / q <= y * p / q
  {
    assert x * p <= y * p;
  }

  /** `r` lies within the box `w` x `h` and within the image, and has the
      image's aspect ratio. */
  predicate FitsBoxAndImage(r: Size, image: ImageSize, w: real, h: real) {
    && 0.0 < r.width <= w && 0.0 < r.height <= h
    && r.width <= image.width && r.height <= image.height
    && r.width * image.height == r.height * image.width
  }

  /** The width-bound branch of `upto`/`upto`: when the image is relatively
      wider than the box, the capped width and its aspect-scaled height fit
      both the box and the image. */
  lemma FitByWidth(image: ImageSize, w: real, h: real)
    requires w > 0.0 && h > 0.0 && w * image.height < h * image.width
    ensures FitsBoxAndImage(Size(Min(w, image.width), HeightForWidth(image, Min(w, image.width))), image, w, h)
  {
    var iw, ih := image.width, image.height;
    var fw := Min(w, iw);
    assert HeightForWidth(image, fw) == fw * ih / iw;
    ScaledIsProportional(fw, ih, iw);
    ScaleMonotonic(fw, iw, ih, iw);
    ScaleMonotonic(fw, w, ih, iw);
    assert ih * iw / iw == ih && iw * ih / iw == ih;
    assert h * iw / iw == h && iw * h / iw == h;
    assert (w * ih) / iw < (h * iw) / iw;
  }

  /** The height-bound branch of `upto`/`upto`, the mirror image. */
  lemma FitByHeight(image: ImageSize, w: real, h: real)
    requires w > 0.0 && h > 0.0 && h * image.width <= w * image.height
    ensures FitsBoxAndImage(Size(WidthForHeight(image, Min(h, image.height)), Min(h, image.height)), image, w, h)
  {
    var iw, ih := image.width, image.height;
    var fh := Min(h, ih);
    assert WidthForHeight(image, fh) == fh * iw / ih;
    ScaledIsProportional(fh, iw, ih);
    ScaleMonotonic(fh, ih, iw, ih);
    ScaleMonotonic(fh, h, iw, ih);
    assert iw * ih / ih == iw && ih * iw / ih == iw;
    assert w * ih / ih == w && ih * w / ih == w;
    assert (h * iw) / ih <= (w * ih) / ih;
  }

  /** `upto`/`upto` fits the image inside the requested box: the result is no
      larger than the box and no larger than the image, and it has the
      image's aspect ratio. */
  lemma UpToUpToFitsBoxAndImage(image: ImageSize, w: real, h: real)
    requires w > 0.0 && h > 0.0
    ensures FitsBoxAndImage(CalculateOutputDimensions(image, Some(DimensionRequest(Some(w), Some(h), UpTo, UpTo))), image, w, h)
  {
    var iw, ih := image.width, image.height;
    RatioComparison(iw, ih, w, h);
    if iw / ih > w / h {
      assert CalculateOutputDimensions(image, Some(DimensionRequest(Some(w), Some(h), UpTo, UpTo)))
          == Size(Min(w, iw), HeightForWidth(image, Min(w, iw)));
      FitByWidth(image, w, h);
    } else {
      assert CalculateOutputDimensions(image, Some(DimensionRequest(Some(w), Some(h), UpTo, UpTo)))
          == Size(WidthForHeight(image, Min(h, ih)), Min(h, ih));
      FitByHeight(image, w, h);
    }
  }

  /** `upto`/`upto` never upscales: a box at least as large as the image
      returns the image's own size. */
  lemma UpToUpToNoUpscale(image: ImageSize, w: real, h: real)
    requires w >= image.width && h >= image.height
    ensures CalculateOutputDimensions(image, Some(DimensionRequest(Some(w), Some(h), UpTo, UpTo)))
            == Size(image.width, image.height)
  {
    var iw, ih := image.width, image.height;
    var r := CalculateOutputDimensions(image, Some(DimensionRequest(Some(w), Some(h), UpTo, UpTo)));
    assert ih * iw / iw == ih && iw * ih / iw == ih;
    assert iw * ih / ih == iw && ih * iw / ih == iw;
    if iw / ih > w / h {
      assert r == Size(Min(w, iw), Min(w, iw) * ih / iw);
      assert Min(w, iw) == iw;
    } else {
      assert r == Size(Min(h, ih) * iw / ih, Min(h, ih));
      assert Min(h, ih) == ih;
    }
  }

  /** Only the width given: `exact` uses it, `upto` caps it at the image
      width; the height follows the image's aspect ratio, whatever the
      height's mode. */
  lemma WidthOnlyKeepsAspect(image: ImageSize, w: real, mode: DimensionMode, height: Option<real>,
                             heightMode: DimensionMode)
    requires w != 0.0 && OrZero(height) == 0.0
    ensures var r := CalculateOutputDimensions(image, Some(DimensionRequest(Some(w), height, mode, heightMode)));
            && r.width == (if mode == Exact then w else Min(w, image.width))
            && r.width * image.height == r.height * image.width
  {
    var r := CalculateOutputDimensions(image, Some(DimensionRequest(Some(w), height, mode, heightMode)));
    ScaledIsProportional(r.width, image.height, image.width);
  }

  /** Only the height given: the mirror image of the width-only case, whatever
      the width's mode. */
  lemma HeightOnlyKeepsAspect(image: ImageSize, h: real, mode: DimensionMode, width: Option<real>,
                              widthMode: DimensionMode)
    requires h != 0.0 && OrZero(width) == 0.0
    ensures var r := CalculateOutputDimensions(image, Some(DimensionRequest(width, Some(h), widthMode, mode)));
            && r.height == (if mode == Exact then h else Min(h, image.height))
            && r.width * image.height == r.height * image.width
  {
    var r := CalculateOutputDimensions(image, Some(DimensionRequest(width, Some(h), widthMode, mode)));
    ScaledIsProportional(r.height, image.width, image.height);
  }

  // ---------------------------------------------------------------------
  // cropImage

  /** The crop rectangle of `cropImage`: the largest rectangle of the output's
      aspect ratio that fits in the image, spanning one full side of it. */
  function CropSize(image: ImageSize, width: real, height: real): (r: Size)
    requires width > 0.0 && height > 0.0
    ensures r.width * height == r.height * width
    ensures 0.0 < r.width <= image.width && 0.0 < r.height <= image.height
    ensures r.width == image.width || r.height == image.height
  {
    var inputAspectRatio := image.width / image.height;
    var outputAspectRatio := width / height;
    RatioComparison(image.width, image.height, width, height);
    if inputAspectRatio > outputAspectRatio then
      CropFullHeight(image.width, image.height, width, height);
      Size(image.height * outputAspectRatio, image.height)
    else
      CropFullWidth(image.width, image.height, width, height);
      Size(image.width, image.width / outputAspectRatio)
  }

  /** The image is relatively wider than the output: the crop spans the full
      height and a narrower width of the output's aspect ratio. */
  lemma CropFullHeight(iw: real, ih: real, w: real, h: real)
    requires iw > 0.0 && ih > 0.0 && w > 0.0 && h > 0.0 && ih * w < iw * h
    ensures ih * (w / h) * h == ih * w
    ensures 0.0 < ih * (w / h) <= iw
  {
    DivideByRatio(ih, w, h);
    assert (ih * w) / h < (iw * h) / h;
  }

  /** The image is relatively taller: the crop spans the full width and a
      lower height of the output's aspect ratio. */
  lemma CropFullWidth(iw: real, ih: real, w: real, h: real)
    requires iw > 0.0 && ih > 0.0 && w > 0.0 && h > 0.0 && iw * h <= w * ih
    ensures iw * h == iw / (w / h) * w
    ensures 0.0 < iw / (w / h) <= ih
  {
    DivideByRatio(iw, w, h);
    assert (iw * h) / w * w == iw * h;
    assert (iw * h) / w <= (w * ih) / w;
  }

  /** `lerp` of the application's helpers, which are not part of this model,
      taken as linear interpolation from `a` (at 0) to `b` (at 1). */
  function Lerp(a: real, b: real, t: real): real {
    a + (b - a) * t
  }

  /** Where `cropImage` draws the scaled image on the crop canvas. */
  datatype Placement = Placement(canvas: Size, x: real, y: real, drawWidth: real, drawHeight: real)

  function CropPlacement(image: ImageSize, width: real, height: real, x: real, y: real, scale: real): (p: Placement)
    requires width > 0.0 && height > 0.0
    ensures p.canvas == CropSize(image, width, height)
    ensures p.drawWidth == image.width * scale && p.drawHeight == image.height * scale
  {
    var crop := CropSize(image, width, height);
    var maxX := -(image.width * scale) + crop.width;
    var maxY := -(image.height * scale) + crop.height;
    Placement(crop, Lerp(0.0, maxX, x), Lerp(0.0, maxY, y), image.width * scale, image.height * scale)
  }

  /** With a zoom of at least 1 and a focal point inside the image, the drawn
      image covers the whole crop canvas. */
  lemma CropCoversCanvas(image: ImageSize, width: real, height: real, x: real, y: real, scale: real)
    requires width > 0.0 && height > 0.0
    requires scale >= 1.0 && 0.0 <= x <= 1.0 && 0.0 <= y <= 1.0
    ensures var p := CropPlacement(image, width, height, x, y, scale);
            && p.x <= 0.0 && p.x + p.drawWidth >= p.canvas.width
            && p.y <= 0.0 && p.y + p.drawHeight >= p.canvas.height
  {
    var crop := CropSize(image, width, height);
    AxisCovered(image.width, crop.width, scale, x);
    AxisCovered(image.height, crop.height, scale, y);
  }

  /** One axis of `CropCoversCanvas`: a side of natural length `natural`,
      drawn `scale` times larger and placed at focal point `t`, covers a
      canvas side no longer than the natural one. */
  lemma AxisCovered(natural: real, canvas: real, scale: real, t: real)
    requires 0.0 < natural && canvas <= natural && scale >= 1.0 && 0.0 <= t <= 1.0
    ensures Lerp(0.0, -(natural * scale) + canvas, t) <= 0.0
    ensures Lerp(0.0, -(natural * scale) + canvas, t) + natural * scale >= canvas
  {
    var max := -(natural * scale) + canvas;
    assert natural <= natural * scale;
    assert max <= 0.0;
    assert max * t >= max * 1.0;
  }

  /** The focal point anchors the window: 0 aligns the image with the canvas's
      top-left corner, 1 with its bottom-right corner, and 0.5 centres it. */
  lemma CropFocalAnchors(image: ImageSize, width: real, height: real, scale: real)
    requires width > 0.0 && height > 0.0
    ensures var p := CropPlacement(image, width, height, 0.0, 0.0, scale);
            p.x == 0.0 && p.y == 0.0
    ensures var p := CropPlacement(image, width, height, 1.0, 1.0, scale);
            p.x + p.drawWidth == p.canvas.width && p.y + p.drawHeight == p.canvas.height
    ensures var p := CropPlacement(image, width, height, 0.5, 0.5, scale);
            -p.x == p.x + p.drawWidth - p.canvas.width && -p.y == p.y + p.drawHeight - p.canvas.height
  {
  }

  /** A zoom below 1 is not defended against: it can leave part of the crop
      canvas uncovered. */
  lemma ZoomOutCanUncoverCanvas()
    ensures var p := CropPlacement(ImageSize(100.0, 100.0), 100.0, 100.0, 0.0, 0.0, 0.5);
            p.x + p.drawWidth < p.canvas.width
  {
    var image := ImageSize(100.0, 100.0);
    assert CropSize(image, 100.0, 100.0) == Size(100.0, 100.0);
  }

  // ---------------------------------------------------------------------
  // resizeImage

  /** `if (width)`: a number counts as given unless it is absent or zero. */
  predicate Given(v: Option<real>) {
    v.Some? && v.value != 0.0
  }

  /** `Math.ceil`. */
  function Ceil(r: real): (c: int)
    ensures r <= c as real < r + 1.0
  {
    if r.Floor as real == r then r.Floor else r.Floor + 1
  }

  /** `width / height` of an image. */
  function AspectRatioOf(image: ImageSize): real {
    image.width / image.height
  }

  /** Multiplying by the aspect ratio gives the aspect-true width, dividing by
      it the aspect-true height. */
  lemma AspectRatioForms(image: ImageSize, x: real)
    ensures x * AspectRatioOf(image) == WidthForHeight(image, x)
    ensures x / AspectRatioOf(image) == HeightForWidth(image, x)
    ensures image.height * AspectRatioOf(image) == image.width
  {
    DivideByRatio(x, image.width, image.height);
    assert image.width * image.height / image.height == image.width && image.height * image.width / image.height == image.width;
  }

  /** The canvas size `resizeImage` computes, as written: a missing width is
      derived from the image's own height, not from the requested height. */
  function ResizeDimensionsAsWritten(image: ImageSize, width: Option<real>, height: Option<real>): (r: Size)
    ensures Given(width) ==> r.width == width.value
    ensures Given(height) ==> r.height == height.value
    ensures !Given(width) ==> r.width == Ceil(image.width) as real
    ensures Given(width) && !Given(height) ==> r.height == Ceil(HeightForWidth(image, width.value)) as real
  {
    var ratio := AspectRatioOf(image);
    AspectRatioForms(image, image.height);
    var newWidth := if Given(width) then width.value else Ceil(image.height * ratio) as real;
    assert image.height * ratio == image.width;
    AspectRatioForms(image, newWidth);
    var newHeight := if Given(height) then height.value else Ceil(newWidth / ratio) as real;
    Size(newWidth, newHeight)
  }

  /** The canvas size `resizeImage` evidently intends: a given side is used
      verbatim and a missing side is derived from the other side's final value
      through the image's aspect ratio, rounded up. */
  function ResizeDimensions(image: ImageSize, width: Option<real>, height: Option<real>): (r: Size)
    ensures Given(width) ==> r.width == width.value
    ensures Given(height) ==> r.height == height.value
    ensures !Given(width) && Given(height) ==> r.width == Ceil(WidthForHeight(image, height.value)) as real
    ensures Given(width) && !Given(height) ==> r.height == Ceil(HeightForWidth(image, width.value)) as real
    ensures !Given(width) && !Given(height) ==> r.width == Ceil(image.width) as real
  {
    var ratio := AspectRatioOf(image);
    var base := if Given(height) then height.value else image.height;
    AspectRatioForms(image, base);
    assert base * ratio == WidthForHeight(image, base);
    assert image.height * ratio == image.width;
    assert !Given(height) ==> base * ratio == image.width;
    var newWidth := if Given(width) then width.value else Ceil(base * ratio) as real;
    AspectRatioForms(image, newWidth);
    assert newWidth / ratio == HeightForWidth(image, newWidth);
    var newHeight := if Given(height) then height.value else Ceil(newWidth / ratio) as real;
    Size(newWidth, newHeight)
  }

  /** A derived side stays within one pixel of the aspect-true value. */
  lemma ResizeDerivedSideKeepsAspect(image: ImageSize, width: Option<real>, height: Option<real>)
    ensures var r := ResizeDimensions(image, width, height);
            && (!Given(width) && Given(height) ==>
                  WidthForHeight(image, height.value) <= r.width < WidthForHeight(image, height.value) + 1.0)
            && (Given(width) && !Given(height) ==>
                  HeightForWidth(image, width.value) <= r.height < HeightForWidth(image, width.value) + 1.0)
  {
  }

  /** The discrepancy: for a 200x100 image resized to height 50 with no width,
      the code keeps the width at 200 where 100 keeps the aspect ratio. */
  lemma ResizeAsWrittenIgnoresRequestedHeight()
    ensures ResizeDimensionsAsWritten(ImageSize(200.0, 100.0), None, Some(50.0)) == Size(200.0, 50.0)
    ensures ResizeDimensions(ImageSize(200.0, 100.0), None, Some(50.0)) == Size(100.0, 50.0)
  {
    assert Ceil(200.0) == 200;
    assert Ceil(100.0) == 100;
  }

  // ---------------------------------------------------------------------
  // Encoding

  /** The encoding chosen for an output (`processImage` and
      `generateOutputImage`): JPEG whenever the quality is below 1, otherwise
      the input's own extension (which may itself be `jpeg`). */
  function OutputExtension(quality: real, inputExtension: string): (ext: string)
    ensures quality < 1.0 ==> ext == "jpeg"
    ensures quality >= 1.0 ==> ext == inputExtension
    ensures ext == "jpeg" <==> quality < 1.0 || inputExtension == "jpeg"
  {
    if quality < 1.0 then "jpeg" else inputExtension
  }
}
