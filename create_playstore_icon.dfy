/** create_playstore_icon.py: scale the logo into 80% of a 512 x 512 canvas
    and centre it; the canvas is then flattened onto the background colour. */
module PlayStoreIcon {
  import opened Placement

  const PlayStoreSize: nat := 512
  /** `int(512 * 0.8)`. */
  const MaxLogoSize: nat := 409

  /** The output canvas size and the placement of the resized logo on it. */
  datatype StoreIcon = StoreIcon(canvasSize: nat, logo: Plan)

  /** The layout of `create_playstore_icon` for a `w` x `h` logo: a 512 x 512
      canvas whatever the logo's size; the logo is placed by `Place` with 512,
      409 and no correction, so each resized side is the integer part of the
      source side times 409 / max(w, h); it fits 409 x 409 with its
      orientation kept, has no empty side exactly when `KeepsBothSides`
      holds, lies at least 51 pixels from every edge (so it is entirely
      inside the canvas), and opposite margins differ by at most one pixel. */
  function PlanPlayStoreIcon(w: nat, h: nat): (icon: StoreIcon)
    requires w > 0 && h > 0
    ensures icon.canvasSize == PlayStoreSize
    ensures icon.logo == Place(w, h, PlayStoreSize, MaxLogoSize, 0, 0)
    ensures icon.logo.width * Max(w, h) <= w * MaxLogoSize < (icon.logo.width + 1) * Max(w, h)
    ensures icon.logo.height * Max(w, h) <= h * MaxLogoSize < (icon.logo.height + 1) * Max(w, h)
    ensures (icon.logo.width >= 1 && icon.logo.height >= 1) <==> KeepsBothSides(w, h, MaxLogoSize)
    ensures icon.logo.width <= MaxLogoSize && icon.logo.height <= MaxLogoSize
    ensures w >= h ==> icon.logo.width >= icon.logo.height
    ensures w <= h ==> icon.logo.width <= icon.logo.height
    ensures 51 <= icon.logo.x && icon.logo.x + icon.logo.width <= PlayStoreSize
    ensures 51 <= icon.logo.y && icon.logo.y + icon.logo.height <= PlayStoreSize
    ensures 0 <= RightMargin(icon.logo, PlayStoreSize) - LeftMargin(icon.logo) <= 1
    ensures 0 <= BottomMargin(icon.logo, PlayStoreSize) - TopMargin(icon.logo) <= 1
  {
    FitsSafeArea(w, h, PlayStoreSize, MaxLogoSize, 0, 0);
    KeepsOrientation(w, h, PlayStoreSize, MaxLogoSize, 0, 0);
    NonDegenerate(w, h, PlayStoreSize, MaxLogoSize, 0, 0);
    InsideCanvas(w, h, PlayStoreSize, MaxLogoSize, 0, 0);
    CentredMargins(w, h, PlayStoreSize, MaxLogoSize, 0, 0);
    StoreIcon(PlayStoreSize, Place(w, h, PlayStoreSize, MaxLogoSize, 0, 0))
  }
}
