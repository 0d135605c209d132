# Icon geometry of the app-icon scripts

Three scripts turn one logo image into app-icon assets: an adaptive-icon
foreground (`resize_app_icon.py`), a variant centred on the logo's actual
content (`analyze_and_center.py`) and a 512 x 512 store-listing icon
(`create_playstore_icon.py`). The imaging library does the pixel work. This
project models the integer geometry the scripts compute around it, and
proves its properties:

- **Content-bounds detection** (`ContentBounds`, content_bounds.dfy). The
  tight half-open box `(left, top, right, bottom)` around the foreground
  pixels. A pixel is foreground when its alpha is above 0, if the mode is
  exactly `"RGBA"`, and when its grey level is below 255 in any other mode.
  The rows and columns are reduced to "has a foreground pixel" flags, and
  the first and last flagged indices are taken. A raster with no foreground
  pixel is an explicit `Err(EmptyContent)`.
- **Shared placement** (`Placement`, placement.dfy). One function
  `Place(w, h, canvas, safe, dx, dy)` gives the scaled size and the paste
  offset. Each scaled side is the integer part of `side * safe / max(w, h)`.
  Each offset is
  `(canvas - side) // 2`, less the correction.
- **The three scripts**, each as an instance of `Place` with its own
  constants:
  - `AnalyzeAndCenter` (analyze_and_center.dfy): canvas 432, safe area 237,
    no correction. It also grows the content box by 5 pixels per side,
    clamped to the image, and models the run's exit status.
  - `PlayStoreIcon` (create_playstore_icon.dfy): canvas 512, logo size 409,
    no correction.
  - `ResizeAppIcon` (resize_app_icon.dfy): canvas 432, safe area 285,
    correction of 2 pixels left and 5 pixels up.

The safe sizes are the truncations the scripts compute in floating point:
`int(432 * 0.55) = 237`, `int(512 * 0.8) = 409` and `int(432 * 0.66) = 285`.
They appear as integer constants.

The raster is an input value. It holds the mode string, the size, the alpha
plane (the fourth channel of the pixel array) and the grey plane (what the
library's conversion to mode "L" gives). Both planes are rectangular
`height` x `width` matrices, as numpy arrays always are.

Only mode `"RGBA"` exactly has its alpha plane read. An `LA` or `P` image,
even one with transparency, is thresholded on its grey levels
(`ModeSelectsChannel`).

## Model

| member | source | states |
|---|---|---|
| ContentBounds.ForegroundMask | analyze_and_center.py:14-24 | the thresholded plane has the raster's shape, and entry (r, c) is true exactly when pixel (r, c) is foreground: alpha > 0 when the mode is exactly "RGBA", grey < 255 in any other mode |
| ContentBounds.ModeSelectsChannel | analyze_and_center.py:15-24 | an RGBA result does not depend on the grey plane; for every other mode (LA and P included) the result does not depend on the alpha plane |
| ContentBounds.RowReductionAt | analyze_and_center.py:18-23 | the row reduction of the mask has one flag per row, and flag r is set exactly when row r holds a foreground pixel |
| ContentBounds.ColumnReductionAt | analyze_and_center.py:19-24 | the column reduction of the mask has one flag per column, and flag c is set exactly when column c holds a foreground pixel |
| ContentBounds.ReductionsMean | analyze_and_center.py:17-24 | both reductions at once, for every row and every column |
| ContentBounds.Where | analyze_and_center.py:27-28 | the index list holds exactly the indices of the true flags, in strictly ascending order |
| ContentBounds.FindContentBounds | analyze_and_center.py:9-30 | a successful result is a non-empty half-open box inside the image: 0 <= left < right <= width and 0 <= top < bottom <= height |
| ContentBounds.EmptyIffNoForeground | analyze_and_center.py:26-28 | detection fails exactly when no pixel is foreground (both directions) |
| ContentBounds.BoundsEncloseForeground | analyze_and_center.py:18-30 | every foreground pixel (r, c) satisfies top <= r < bottom and left <= c < right |
| ContentBounds.BoundsTight | analyze_and_center.py:27-30 | row top, row bottom-1, column left and column right-1 each hold a foreground pixel |
| ContentBounds.SmallestEnclosingBox | analyze_and_center.py:9-10 | every box that encloses all foreground pixels contains the detected box, so the detected box is the smallest one |
| Placement.ScaledSide | analyze_and_center.py:70-71 | the scaled side n is the integer part of side * safe / longer: n * longer <= side * safe < (n + 1) * longer |
| Placement.Half | analyze_and_center.py:80-81 | the centring division is floor division by 2: 2q <= a < 2q + 2, negative a included |
| Placement.Place | resize_app_icon.py:29-45 | both scaled sides are the integer parts of side * safe / max(w, h) |
| Placement.FitsSafeArea | analyze_and_center.py:69-71 | both scaled sides are at most the safe size |
| Placement.KeepsOrientation | create_playstore_icon.py:32-34 | w >= h implies new_w >= new_h, and w <= h implies new_w <= new_h |
| Placement.AspectPreserved | resize_app_icon.py:28-30 | the aspect ratio is kept up to truncation: abs(new_w * h - new_h * w) < max(w, h) |
| Placement.NonDegenerate | resize_app_icon.py:29-36 | both scaled sides are at least one pixel exactly when w * safe >= max(w, h) and h * safe >= max(w, h) |
| Placement.CentredMargins | resize_app_icon.py:38-45 | right margin minus left margin is 2 * dx plus the parity of canvas - new_w, and the same vertically with dy |
| Placement.InsideCanvas | resize_app_icon.py:39-50 | when safe <= canvas and 0 <= dx, dy <= (canvas - safe) // 2, the logo starts at least (canvas - safe) // 2 - d from the top-left edges and ends inside the canvas |
| AnalyzeAndCenter.CropToContent | analyze_and_center.py:55-60 | the padded crop box contains the content box, lies in [0, width] x [0, height], grows each side by at most 5, and by exactly 5 unless clamped at the image edge |
| AnalyzeAndCenter.PlaceContent | analyze_and_center.py:55-81 | fails with EmptyResize exactly when a scaled side of the padded crop is 0; otherwise the crop is the padded, clamped content box (each side grows by at most 5), the logo is Place(cw, ch, 432, 237, 0, 0) with both sides the integer parts of cw and ch times 237 / max(cw, ch), between 1 and 237, orientation kept, at least 97 px from every edge inside the 432 canvas, and opposite margins differ by 0 or 1 |
| AnalyzeAndCenter.PlanCenteredIcon | analyze_and_center.py:45-81 | fails with BlankLogo exactly when no pixel is foreground, and with EmptyResize exactly when the logo has content but its crop is too thin to resize; otherwise its content box is the detected one and the crop and logo have every property listed for PlaceContent |
| AnalyzeAndCenter.RunScript | analyze_and_center.py:94-100 | the exit status is 0 with an icon saved, or 1 with nothing saved; status 1 happens exactly when no pixel is foreground or a scaled side of the crop is 0 |
| PlayStoreIcon.PlanPlayStoreIcon | create_playstore_icon.py:16-44 | the canvas is 512 whatever the logo size; the logo is Place(w, h, 512, 409, 0, 0), each side the integer part of the source side times 409 / max(w, h); it has no empty side exactly when KeepsBothSides(w, h, 409); it fits 409 x 409 with orientation kept, lies at least 51 px from every edge inside the canvas, and opposite margins differ by 0 or 1 |
| ResizeAppIcon.PlanForeground | resize_app_icon.py:16-50 | the logo is Place(w, h, 432, 285, 2, 5), each side the integer part of the source side times 285 / max(w, h); it has no empty side exactly when KeepsBothSides(w, h, 285); it fits 285 x 285 with orientation kept; the offsets are the centred ones less 2 and 5; x >= 71, y >= 68 and the logo ends inside the 432 canvas, so nothing is clipped; right minus left margin is 4 or 5, bottom minus top margin is 10 or 11 |

## Left out

- Placement.Place: the sizes are computed in exact arithmetic, as `floor(side * safe / max(w, h))`. The scripts multiply by a floating-point ratio, and `int(w * (S / w))` can give S - 1. So no member claims that the longer side equals the safe size. A side can also differ from the float result by one pixel in rare cases.
- Placement.Place: requires both source sides to be positive. A decoded PNG always has positive sides, and so does the crop box of a non-blank logo. The division by zero that a 0-pixel image would cause is not modelled.
- A scaled side can come out as 0 for a logo more than `safe` times wider than it is tall, or the reverse. `NonDegenerate` states exactly when this happens, and the library's resize then raises. In `AnalyzeAndCenter` this is the `EmptyResize` failure, with exit status 1. `PlayStoreIcon.PlanPlayStoreIcon` and `ResizeAppIcon.PlanForeground` only state when it happens (`KeepsBothSides`). Their scripts' exit status is not modelled.
- Image loading and saving, file paths and the `optimize`/`quality` flags: file I/O in the imaging library.
- The pixel content of the LANCZOS resize: floating-point filtering inside the library. Only the target size is modelled.
- Alpha-masked pasting, the RGBA-to-RGB flatten of the store icon onto `#1E3A8A`, parsing of the colour string, and the luminance conversion to mode "L". These are library semantics. The alpha and grey planes are inputs of the model.
- The extraction of the alpha plane from the pixel array (`img_array[:, :, 3]`): the plane is an input.
- Console output (`print`). The top-level `try`/`except` appears only as `AnalyzeAndCenter.RunScript`: exit status 1 and no file on a blank logo or on a crop too thin to resize. The other failures it catches (missing or unreadable file, write errors) are I/O.
