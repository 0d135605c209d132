/** resize_app_icon.py: scale the logo into 66% of a 432 x 432 adaptive-icon
    canvas, centre it, then move it 2 pixels left and 5 pixels up. */
module ResizeAppIcon {
  import opened Placement

  const CanvasSize: nat := 432
  /** `int(432 * 0.66)`. */
  const SafeArea: nat := 285
  /** The manual correction, subtracted from the centred offsets. */
  const ShiftLeft: nat := 2
  const ShiftUp: nat := 5

  /** The layout of `create_app_icon_foreground` for a `w` x `h` logo. The
      logo is placed by `Place` with 432, 285 and the correction (2, 5), so
      each resized side is the integer part of the source side times
      285 / max(w, h); it fits 285 x 285 with its orientation kept, and has
      no empty side exactly when `KeepsBothSides` holds; its offsets are
      the centred offsets less 2 and 5; despite that shift it lies at least
      71 pixels from the left and 68 from the top and ends inside the canvas,
      so nothing is clipped; the right margin exceeds the left by 4 or 5 and
      the bottom margin exceeds the top by 10 or 11. */
  function PlanForeground(w: nat, h: nat): (logo: Plan)
    requires w > 0 && h > 0
    ensures logo == Place(w, h, CanvasSize, SafeArea, ShiftLeft, ShiftUp)
    ensures logo.width * Max(w, h) <= w * SafeArea < (logo.width + 1) * Max(w, h)
    ensures logo.height * Max(w, h) <= h * SafeArea < (logo.height + 1) * Max(w, h)
    ensures (logo.width >= 1 && logo.height >= 1) <==> KeepsBothSides(w, h, SafeArea)
    ensures logo.width <= SafeArea && logo.height <= SafeArea
    ensures w >= h ==> logo.width >= logo.height
    ensures w <= h ==> logo.width <= logo.height
    ensures logo.x == (CanvasSize - logo.width) / 2 - ShiftLeft
    ensures logo.y == (CanvasSize - logo.height) / 2 - ShiftUp
    ensures 71 <= logo.x && logo.x + logo.width <= CanvasSize
    ensures 68 <= logo.y && logo.y + logo.height <= CanvasSize
    ensures 4 <= RightMargin(logo, CanvasSize) - LeftMargin(logo) <= 5
    ensures 10 <= BottomMargin(logo, CanvasSize) - TopMargin(logo) <= 11
  {
    FitsSafeArea(w, h, CanvasSize, SafeArea, ShiftLeft, ShiftUp);
    KeepsOrientation(w, h, CanvasSize, SafeArea, ShiftLeft, ShiftUp);
    NonDegenerate(w, h, CanvasSize, SafeArea, ShiftLeft, ShiftUp);
    InsideCanvas(w, h, CanvasSize, SafeArea, ShiftLeft, ShiftUp);
    CentredMargins(w, h, CanvasSize, SafeArea, ShiftLeft, ShiftUp);
    Place(w, h, CanvasSize, SafeArea, ShiftLeft, ShiftUp)
  }
}
