/** Content-bounds detection of analyze_and_center.py: the tight half-open
    box around the foreground pixels of a raster, or an explicit error when
    the raster has no foreground pixel at all. */
module ContentBounds {

  /** The result of an operation that can fail. */
  datatype Result<T, E> = Ok(value: T) | Err(error: E)

  /** The only failure of the detector: there is no foreground pixel, so the
      list of foreground rows is empty and taking its first element fails. */
  datatype Error = EmptyContent

  /** A decoded raster. `alpha` is the fourth channel of the pixel array and
      `luma` the grey-level plane the imaging library's conversion to mode
      "L" yields; both are indexed `[row][column]`. Only one of them is read,
      depending on `mode`. */
  datatype Raster = Raster(mode: string, width: nat, height: nat,
                           alpha: seq<seq<int>>, luma: seq<seq<int>>)

  /** A half-open box `[left, right) x [top, bottom)`, in the tuple order the
      detector returns. */
  datatype Box = Box(left: int, top: int, right: int, bottom: int)

  /** A `height` x `width` matrix, as every pixel array is. */
  predicate IsPlane(p: seq<seq<int>>, width: nat, height: nat) {
    |p| == height && forall r :: 0 <= r < |p| ==> |p[r]| == width
  }

  predicate Valid(img: Raster) {
    IsPlane(img.alpha, img.width, img.height) && IsPlane(img.luma, img.width, img.height)
  }

  /** The specification of "foreground": a visible pixel of an RGBA raster,
      a non-white pixel of a raster in any other mode (LA and P included). */
  predicate IsForeground(img: Raster, r: int, c: int)
    requires Valid(img)
  {
    0 <= r < img.height && 0 <= c < img.width &&
    ((img.mode == "RGBA" && img.alpha[r][c] > 0) ||
     (img.mode != "RGBA" && img.luma[r][c] < 255))
  }

  /** The box lies within the raster and is not empty. */
  predicate InImage(b: Box, width: int, height: int) {
    0 <= b.left < b.right <= width && 0 <= b.top < b.bottom <= height
  }

  predicate Encloses(b: Box, r: int, c: int) {
    b.top <= r < b.bottom && b.left <= c < b.right
  }

  /** Every foreground pixel of `img` lies in `b`. */
  predicate EnclosesForeground(img: Raster, b: Box)
    requires Valid(img)
  {
    forall r, c | 0 <= r < img.height && 0 <= c < img.width ::
      IsForeground(img, r, c) ==> Encloses(b, r, c)
  }

  /** The top and bottom rows and the left and right columns of `b` each
      hold a foreground pixel, so no smaller box encloses the foreground. */
  ghost predicate Tight(img: Raster, b: Box)
    requires Valid(img)
  {
    RowHasForeground(img, b.top) && RowHasForeground(img, b.bottom - 1) &&
    ColumnHasForeground(img, b.left) && ColumnHasForeground(img, b.right - 1)
  }

  ghost predicate RowHasForeground(img: Raster, r: int)
    requires Valid(img)
  {
    exists c :: IsForeground(img, r, c)
  }

  ghost predicate ColumnHasForeground(img: Raster, c: int)
    requires Valid(img)
  {
    exists r :: IsForeground(img, r, c)
  }

  /** The plane the detector thresholds: alpha exactly when the mode is "RGBA". */
  function Channel(img: Raster): seq<seq<int>> {
    if img.mode == "RGBA" then img.alpha else img.luma
  }

  /** The per-value test: `alpha > 0` for RGBA, `grey < 255` otherwise. */
  predicate Threshold(mode: string, v: int) {
    if mode == "RGBA" then v > 0 else v < 255
  }

  /** The boolean array the detector reduces: the threshold applied to every
      entry of the chosen plane. */
  function ForegroundMask(img: Raster): (fg: seq<seq<bool>>)
    requires Valid(img)
    ensures |fg| == img.height
    ensures forall r :: 0 <= r < |fg| ==> |fg[r]| == img.width
    ensures forall r, c :: 0 <= r < img.height && 0 <= c < img.width ==>
              (fg[r][c] <==> IsForeground(img, r, c))
  {
    Thresholded(img.mode, Channel(img), img.width, img.height)
  }

  /** The threshold of `mode` applied to every entry of `plane`. */
  function Thresholded(mode: string, plane: seq<seq<int>>, width: nat, height: nat): seq<seq<bool>>
    requires IsPlane(plane, width, height)
  {
    seq(height, r requires 0 <= r < height =>
      seq(width, c requires 0 <= c < width => Threshold(mode, plane[r][c])))
  }

  /** Whether each row holds a true entry (a reduction along the columns). */
  function AnyPerRow(fg: seq<seq<bool>>): seq<bool> {
    seq(|fg|, r requires 0 <= r < |fg| => exists c :: 0 <= c < |fg[r]| && fg[r][c])
  }

  /** Whether each of the `width` columns holds a true entry (a reduction
      along the rows). */
  function AnyPerColumn(fg: seq<seq<bool>>, width: nat): seq<bool> {
    seq(width, c requires 0 <= c < width => exists r :: 0 <= r < |fg| && c < |fg[r]| && fg[r][c])
  }

  /** The indices of the true entries of `m`, in ascending order. */
  function Where(m: seq<bool>): (ix: seq<nat>)
    ensures forall k :: 0 <= k < |ix| ==> ix[k] < |m| && m[ix[k]]
    ensures forall i :: 0 <= i < |m| && m[i] ==> i in ix
    ensures forall j, k :: 0 <= j < k < |ix| ==> ix[j] < ix[k]
  {
    if |m| == 0 then []
    else Where(m[..|m| - 1]) + (if m[|m| - 1] then [|m| - 1] else [])
  }

  /** The first and last entries of `Where(m)` span every true entry of `m`. */
  lemma WhereSpans(m: seq<bool>)
    ensures forall i :: 0 <= i < |m| && m[i] ==>
              |Where(m)| > 0 && Where(m)[0] <= i <= Where(m)[|Where(m)| - 1]
  {
    var ix := Where(m);
    forall i | 0 <= i < |m| && m[i]
      ensures |ix| > 0 && ix[0] <= i <= ix[|ix| - 1]
    {
      var k :| 0 <= k < |ix| && ix[k] == i;
      if 0 < k { assert ix[0] < ix[k]; }
      if k < |ix| - 1 { assert ix[k] < ix[|ix| - 1]; }
    }
  }

  /** Row `r` of the row reduction says whether row `r` holds a foreground pixel. */
  lemma RowReductionAt(img: Raster, r: int)
    requires Valid(img) && 0 <= r < img.height
    ensures |AnyPerRow(ForegroundMask(img))| == img.height
    ensures AnyPerRow(ForegroundMask(img))[r] <==> RowHasForeground(img, r)
  {
    var fg := ForegroundMask(img);
    if AnyPerRow(fg)[r] {
      var c :| 0 <= c < |fg[r]| && fg[r][c];
      assert IsForeground(img, r, c);
    }
  }

  /** Column `c` of the column reduction says whether column `c` holds a
      foreground pixel. */
  lemma ColumnReductionAt(img: Raster, c: int)
    requires Valid(img) && 0 <= c < img.width
    ensures |AnyPerColumn(ForegroundMask(img), img.width)| == img.width
    ensures AnyPerColumn(ForegroundMask(img), img.width)[c] <==> ColumnHasForeground(img, c)
  {
    var fg := ForegroundMask(img);
    if AnyPerColumn(fg, img.width)[c] {
      var r :| 0 <= r < |fg| && c < |fg[r]| && fg[r][c];
      assert IsForeground(img, r, c);
    }
  }

  /** The two reductions of the mask say, row by row and column by column,
      whether a foreground pixel is there. */
  lemma ReductionsMean(img: Raster)
    requires Valid(img)
    ensures var rows := AnyPerRow(ForegroundMask(img));
            |rows| == img.height &&
            forall r :: 0 <= r < img.height ==> (rows[r] <==> RowHasForeground(img, r))
    ensures var cols := AnyPerColumn(ForegroundMask(img), img.width);
            |cols| == img.width &&
            forall c :: 0 <= c < img.width ==> (cols[c] <==> ColumnHasForeground(img, c))
  {
    forall r | 0 <= r < img.height
      ensures AnyPerRow(ForegroundMask(img))[r] <==> RowHasForeground(img, r)
    {
      RowReductionAt(img, r);
    }
    forall c | 0 <= c < img.width
      ensures AnyPerColumn(ForegroundMask(img), img.width)[c] <==> ColumnHasForeground(img, c)
    {
      ColumnReductionAt(img, c);
    }
  }

  /** The detector: the first and last foreground row and column, the right
      and bottom edges made exclusive; it fails when there is none. */
  function FindContentBounds(img: Raster): (res: Result<Box, Error>)
    requires Valid(img)
    ensures res.Ok? ==> InImage(res.value, img.width, img.height)
  {
    var fg := ForegroundMask(img);
    var rows := Where(AnyPerRow(fg));
    var cols := Where(AnyPerColumn(fg, img.width));
    if |rows| == 0 || |cols| == 0 then Err(EmptyContent)
    else Ok(Box(cols[0], rows[0], cols[|cols| - 1] + 1, rows[|rows| - 1] + 1))
  }

  /** The detector fails exactly when no pixel is foreground. */
  lemma EmptyIffNoForeground(img: Raster)
    requires Valid(img)
    ensures FindContentBounds(img).Err? <==> forall r, c :: !IsForeground(img, r, c)
  {
    var fg := ForegroundMask(img);
    var rowMask := AnyPerRow(fg);
    var colMask := AnyPerColumn(fg, img.width);
    ReductionsMean(img);
    if r, c :| IsForeground(img, r, c) {
      assert RowHasForeground(img, r) && ColumnHasForeground(img, c);
      assert rowMask[r] && colMask[c];
      assert r in Where(rowMask) && c in Where(colMask);
    }
  }

  /** Every foreground pixel lies inside the detected box. */
  lemma BoundsEncloseForeground(img: Raster)
    requires Valid(img)
    ensures FindContentBounds(img).Ok? ==> EnclosesForeground(img, FindContentBounds(img).value)
  {
    var res := FindContentBounds(img);
    if res.Ok? {
      var fg := ForegroundMask(img);
      var rowMask := AnyPerRow(fg);
      var colMask := AnyPerColumn(fg, img.width);
      var rows := Where(rowMask);
      var cols := Where(colMask);
      ReductionsMean(img);
      WhereSpans(rowMask);
      WhereSpans(colMask);
      forall r, c | 0 <= r < img.height && 0 <= c < img.width && IsForeground(img, r, c)
        ensures Encloses(res.value, r, c)
      {
        assert RowHasForeground(img, r) && ColumnHasForeground(img, c);
        assert rowMask[r] && colMask[c];
      }
    }
  }

  /** The detected box is tight: its first and last rows and its first and
      last columns each hold a foreground pixel. */
  lemma BoundsTight(img: Raster)
    requires Valid(img)
    ensures FindContentBounds(img).Ok? ==> Tight(img, FindContentBounds(img).value)
  {
    var fg := ForegroundMask(img);
    var rowMask := AnyPerRow(fg);
    var colMask := AnyPerColumn(fg, img.width);
    var rows := Where(rowMask);
    var cols := Where(colMask);
    if |rows| > 0 && |cols| > 0 {
      var b := Box(cols[0], rows[0], cols[|cols| - 1] + 1, rows[|rows| - 1] + 1);
      RowReductionAt(img, b.top);
      RowReductionAt(img, b.bottom - 1);
      ColumnReductionAt(img, b.left);
      ColumnReductionAt(img, b.right - 1);
    }
  }

  /** No box that encloses every foreground pixel is smaller than the
      detected one: the detector returns the smallest enclosing box. */
  lemma SmallestEnclosingBox(img: Raster, b: Box)
    requires Valid(img) && FindContentBounds(img).Ok?
    requires EnclosesForeground(img, b)
    ensures var d := FindContentBounds(img).value;
            b.left <= d.left && d.right <= b.right && b.top <= d.top && d.bottom <= b.bottom
  {
    BoundsTight(img);
    TightIsSmallest(img, FindContentBounds(img).value, b);
  }

  lemma TightIsSmallest(img: Raster, d: Box, b: Box)
    requires Valid(img) && Tight(img, d) && EnclosesForeground(img, b)
    ensures b.left <= d.left && d.right <= b.right && b.top <= d.top && d.bottom <= b.bottom
  {
    var c0 :| IsForeground(img, d.top, c0);
    var c1 :| IsForeground(img, d.bottom - 1, c1);
    var r0 :| IsForeground(img, r0, d.left);
    var r1 :| IsForeground(img, r1, d.right - 1);
    assert Encloses(b, d.top, c0) && Encloses(b, d.bottom - 1, c1);
    assert Encloses(b, r0, d.left) && Encloses(b, r1, d.right - 1);
  }

  /** Only the chosen plane matters: for an RGBA raster the grey levels are
      never read, for any other mode (LA included) the alpha plane is never read. */
  lemma ModeSelectsChannel(img: Raster, other: seq<seq<int>>)
    requires Valid(img) && IsPlane(other, img.width, img.height)
    ensures img.mode == "RGBA" ==> FindContentBounds(img.(luma := other)) == FindContentBounds(img)
    ensures img.mode != "RGBA" ==> FindContentBounds(img.(alpha := other)) == FindContentBounds(img)
  {
    var img' := if img.mode == "RGBA" then img.(luma := other) else img.(alpha := other);
    assert Channel(img') == Channel(img);
  }
}
