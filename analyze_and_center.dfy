/** analyze_and_center.py: detect the logo's content bounds, crop to them
    with a small padding, scale the crop into 55% of a 432 x 432 canvas and
    centre it exactly. */
module AnalyzeAndCenter {
  import opened ContentBounds
  import opened Placement

  const CanvasSize: nat := 432
  /** `int(432 * 0.55)`. */
  const SafeArea: nat := 237
  const Padding: nat := 5

  datatype Option<T> = None | Some(value: T)

  /** Why a run stops: the logo has no foreground pixel (the detector's
      index error), or a scaled side is 0 (the resize's value error). */
  datatype Failure = BlankLogo | EmptyResize

  /** What one run computes: the content box, the crop box and the placement
      of the resized crop on the canvas. */
  datatype CenteredIcon = CenteredIcon(content: Box, crop: Box, logo: Plan)

  /** The process outcome: the exit status and the icon written, if any. */
  datatype Run = Run(exitCode: int, saved: Option<CenteredIcon>)

  function IntMax(a: int, b: int): int { if a >= b then a else b }
  function IntMin(a: int, b: int): int { if a <= b then a else b }

  /** The content box grown by `Padding` on each side and clamped to the
      image: it still holds the content box, stays in the image, and each
      side moves out by the full padding unless the image edge stops it. */
  function CropToContent(b: Box, width: nat, height: nat): (crop: Box)
    requires InImage(b, width, height)
    ensures InImage(crop, width, height)
    ensures crop.left <= b.left && b.right <= crop.right
    ensures crop.top <= b.top && b.bottom <= crop.bottom
    ensures b.left - crop.left <= Padding && crop.right - b.right <= Padding
    ensures b.top - crop.top <= Padding && crop.bottom - b.bottom <= Padding
    ensures crop.left == b.left - Padding || crop.left == 0
    ensures crop.top == b.top - Padding || crop.top == 0
    ensures crop.right == b.right + Padding || crop.right == width
    ensures crop.bottom == b.bottom + Padding || crop.bottom == height
  {
    Box(IntMax(0, b.left - Padding), IntMax(0, b.top - Padding),
        IntMin(width, b.right + Padding), IntMin(height, b.bottom + Padding))
  }

  /** The crop of `content` is so narrow (or so flat) that one scaled side
      comes out as 0 pixels; resizing to that size raises. */
  predicate CropTooThin(content: Box, width: nat, height: nat)
    requires InImage(content, width, height)
  {
    var crop := CropToContent(content, width, height);
    !KeepsBothSides(crop.right - crop.left, crop.bottom - crop.top, SafeArea)
  }

  /** The logo has content, but its crop is too thin to resize. */
  predicate ResizeIsEmpty(img: Raster)
    requires Valid(img)
  {
    FindContentBounds(img).Ok? && CropTooThin(FindContentBounds(img).value, img.width, img.height)
  }

  /** What a successful run computes from a content box inside a `width` x
      `height` logo: the crop box is the content box padded and clamped, so
      it holds the content and each side grows by at most 5 pixels; the logo
      is the crop placed by `Place` with 432, 237 and no correction, so both
      sides are the integer parts of the crop's sides times 237 / max(cw, ch),
      at least 1 and at most 237, with the crop's orientation; and the logo is
      centred on the canvas at least 97 pixels from every edge, with opposite
      margins that differ by at most one pixel. */
  predicate IsCentredIcon(icon: CenteredIcon, width: nat, height: nat) {
    var content, crop, logo := icon.content, icon.crop, icon.logo;
    var cw, ch := crop.right - crop.left, crop.bottom - crop.top;
    InImage(content, width, height) &&
    crop == CropToContent(content, width, height) &&
    InImage(crop, width, height) &&
    crop.left <= content.left && content.right <= crop.right &&
    crop.top <= content.top && content.bottom <= crop.bottom &&
    content.left - crop.left <= Padding && crop.right - content.right <= Padding &&
    content.top - crop.top <= Padding && crop.bottom - content.bottom <= Padding &&
    cw > 0 && ch > 0 &&
    logo == Place(cw, ch, CanvasSize, SafeArea, 0, 0) &&
    logo.width * Max(cw, ch) <= cw * SafeArea < (logo.width + 1) * Max(cw, ch) &&
    logo.height * Max(cw, ch) <= ch * SafeArea < (logo.height + 1) * Max(cw, ch) &&
    1 <= logo.width <= SafeArea && 1 <= logo.height <= SafeArea &&
    (cw >= ch ==> logo.width >= logo.height) &&
    (cw <= ch ==> logo.width <= logo.height) &&
    97 <= logo.x && logo.x + logo.width <= CanvasSize &&
    97 <= logo.y && logo.y + logo.height <= CanvasSize &&
    0 <= RightMargin(logo, CanvasSize) - LeftMargin(logo) <= 1 &&
    0 <= BottomMargin(logo, CanvasSize) - TopMargin(logo) <= 1
  }

  /** Crop, scale and centre a detected content box. It fails exactly when
      a scaled side of the crop would be empty; otherwise its result is an
      `IsCentredIcon` for that content box. */
  function PlaceContent(content: Box, width: nat, height: nat): (res: Result<CenteredIcon, Failure>)
    requires InImage(content, width, height)
    ensures res.Err? <==> CropTooThin(content, width, height)
    ensures res.Err? ==> res.error == EmptyResize
    ensures res.Ok? ==> res.value.content == content && IsCentredIcon(res.value, width, height)
  {
    var crop := CropToContent(content, width, height);
    var cw := crop.right - crop.left;
    var ch := crop.bottom - crop.top;
    if !KeepsBothSides(cw, ch, SafeArea) then Err(EmptyResize)
    else
      var logo := Place(cw, ch, CanvasSize, SafeArea, 0, 0);
      FitsSafeArea(cw, ch, CanvasSize, SafeArea, 0, 0);
      KeepsOrientation(cw, ch, CanvasSize, SafeArea, 0, 0);
      NonDegenerate(cw, ch, CanvasSize, SafeArea, 0, 0);
      InsideCanvas(cw, ch, CanvasSize, SafeArea, 0, 0);
      CentredMargins(cw, ch, CanvasSize, SafeArea, 0, 0);
      Ok(CenteredIcon(content, crop, logo))
  }

  /** The whole computation of `create_perfectly_centered_icon`. It fails
      on a blank logo (no content bounds) and on a crop whose scaled size
      has an empty side (the resize raises). Otherwise its content box is the
      detected one and the result is an `IsCentredIcon` for it. */
  function PlanCenteredIcon(img: Raster): (res: Result<CenteredIcon, Failure>)
    requires Valid(img)
    ensures res == Err(BlankLogo) <==> forall r, c :: !IsForeground(img, r, c)
    ensures res == Err(EmptyResize) <==> ResizeIsEmpty(img)
    ensures res.Ok? ==>
              FindContentBounds(img) == Ok(res.value.content) &&
              IsCentredIcon(res.value, img.width, img.height)
  {
    EmptyIffNoForeground(img);
    match FindContentBounds(img)
    case Err(_) => Err(BlankLogo)
    case Ok(content) => PlaceContent(content, img.width, img.height)
  }

  /** The script as a process: status 0 and the icon written on success.
      On a blank logo, or on a crop whose scaled size has an empty side, the
      error is caught, the status is 1 and nothing is written. */
  function RunScript(img: Raster): (run: Run)
    requires Valid(img)
    ensures run.exitCode == 0 || run.exitCode == 1
    ensures run.exitCode == 1 <==> run.saved.None?
    ensures run.saved.None? <==> (forall r, c :: !IsForeground(img, r, c)) || ResizeIsEmpty(img)
    ensures run.saved.Some? ==> PlanCenteredIcon(img) == Ok(run.saved.value)
  {
    match PlanCenteredIcon(img)
    case Ok(icon) => Run(0, Some(icon))
    case Err(_) => Run(1, None)
  }
}
