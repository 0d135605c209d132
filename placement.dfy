/** The placement arithmetic shared by the three icon scripts: scale a
    `w` x `h` image to fit a `safe` x `safe` square without distortion, then
    centre it on a `canvas` x `canvas` square, optionally moved up and left
    by a fixed correction `(dx, dy)`. */
module Placement {

  /** The target size of the resize and the top-left corner of the paste. */
  datatype Plan = Plan(width: nat, height: nat, x: int, y: int)

  function Max(a: nat, b: nat): nat {
    if a >= b then a else b
  }

  /** One scaled side: the integer part of `side * safe / longer`, taken in
      exact arithmetic. */
  function ScaledSide(side: nat, longer: nat, safe: nat): (n: nat)
    requires longer > 0
    ensures n * longer <= side * safe < (n + 1) * longer
  {
    side * safe / longer
  }

  /** Python's `//` for a positive divisor; Dafny's `/` rounds the same way
      there, so the offset below is the source's floor division. */
  function Half(a: int): (q: int)
    ensures 2 * q <= a < 2 * q + 2
  {
    a / 2
  }

  /** The placement of a `w` x `h` image. */
  function Place(w: nat, h: nat, canvas: int, safe: nat, dx: int, dy: int): (p: Plan)
    requires w > 0 && h > 0
    ensures p.width * Max(w, h) <= w * safe < (p.width + 1) * Max(w, h)
    ensures p.height * Max(w, h) <= h * safe < (p.height + 1) * Max(w, h)
  {
    var newW := ScaledSide(w, Max(w, h), safe);
    var newH := ScaledSide(h, Max(w, h), safe);
    Plan(newW, newH, Half(canvas - newW) - dx, Half(canvas - newH) - dy)
  }

  /** The space left of and above the logo. */
  function LeftMargin(p: Plan): int { p.x }
  function TopMargin(p: Plan): int { p.y }

  /** The space right of and below the logo. */
  function RightMargin(p: Plan, canvas: int): int { canvas - (p.x + p.width) }
  function BottomMargin(p: Plan, canvas: int): int { canvas - (p.y + p.height) }

  /** Both scaled sides fit the safe square. */
  lemma {:induction false} FitsSafeArea(w: nat, h: nat, canvas: int, safe: nat, dx: int, dy: int)
    requires w > 0 && h > 0
    ensures var p := Place(w, h, canvas, safe, dx, dy);
            p.width <= safe && p.height <= safe
  {
    var p := Place(w, h, canvas, safe, dx, dy);
    var m := Max(w, h);
    SideFits(p.width, w, m, safe);
    SideFits(p.height, h, m, safe);
  }

  lemma SideFits(n: nat, side: nat, m: nat, safe: nat)
    requires 0 < side <= m && n * m <= side * safe
    ensures n <= safe
  {
    if n > safe {
      assert n * m > safe * m by { MulStrict(n, safe, m); }
      assert side * safe <= m * safe by { MulMono(side, m, safe); }
      assert false;
    }
  }

  lemma MulStrict(a: nat, b: nat, m: nat)
    requires a > b && m > 0
    ensures a * m > b * m
  {
  }

  lemma MulMono(a: nat, b: nat, k: nat)
    requires a <= b
    ensures a * k <= b * k
  {
  }

  /** The scaled image keeps its orientation: a landscape (portrait) source
      stays landscape (portrait), and a square one stays square. */
  lemma {:induction false} KeepsOrientation(w: nat, h: nat, canvas: int, safe: nat, dx: int, dy: int)
    requires w > 0 && h > 0
    ensures var p := Place(w, h, canvas, safe, dx, dy);
            (w >= h ==> p.width >= p.height) && (w <= h ==> p.width <= p.height)
  {
    var m := Max(w, h);
    if w >= h {
      MulMono(h, w, safe);
      DivMono(h * safe, w * safe, m);
    }
    if w <= h {
      MulMono(w, h, safe);
      DivMono(w * safe, h * safe, m);
    }
  }

  lemma DivMono(a: nat, b: nat, m: nat)
    requires a <= b && m > 0
    ensures a / m <= b / m
  {
    var qa, qb := a / m, b / m;
    assert qa * m <= a && b < (qb + 1) * m;
    if qa > qb {
      MulMono(qb + 1, qa, m);
      assert false;
    }
  }

  /** The aspect ratio survives up to the truncation of both sides:
      `|new_w * h - new_h * w| < max(w, h)`. */
  lemma {:induction false} AspectPreserved(w: nat, h: nat, canvas: int, safe: nat, dx: int, dy: int)
    requires w > 0 && h > 0
    ensures var p := Place(w, h, canvas, safe, dx, dy);
            -(Max(w, h) as int) < p.width * h - p.height * w < Max(w, h)
  {
    var p := Place(w, h, canvas, safe, dx, dy);
    var m := Max(w, h);
    var a: nat := w * safe - p.width * m;
    var b: nat := h * safe - p.height * m;
    // m * (new_w * h - new_h * w) == b * w - a * h, and both products are below m * m.
    CrossIdentity(w, h, safe, m, p.width, p.height, a, b);
    MulBelow(b, w, m);
    MulBelow(a, h, m);
    ScaleBack(p.width * h - p.height * w, m);
  }

  lemma CrossIdentity(w: int, h: int, safe: int, m: int, nw: int, nh: int, a: int, b: int)
    requires w * safe == nw * m + a && h * safe == nh * m + b
    ensures m * (nw * h - nh * w) == b * w - a * h
  {
    calc {
      m * (nw * h - nh * w);
      (nw * m) * h - (nh * m) * w;
      (w * safe - a) * h - (h * safe - b) * w;
      b * w - a * h;
    }
  }

  lemma MulBelow(a: nat, b: nat, m: nat)
    requires a < m && b <= m
    ensures a * b < m * m
  {
    MulMono(b, m, a);
    MulStrict(m, a, m);
  }

  lemma ScaleBack(d: int, m: nat)
    requires m > 0 && -(m * m) < m * d < m * m
    ensures -(m as int) < d < m
  {
  }

  /** Neither side of a `w` x `h` source is more than `safe` times the other. */
  predicate KeepsBothSides(w: nat, h: nat, safe: nat) {
    w * safe >= Max(w, h) && h * safe >= Max(w, h)
  }

  /** Both scaled sides are at least one pixel exactly when neither side of
      the source is more than `safe` times the other. */
  lemma {:induction false} NonDegenerate(w: nat, h: nat, canvas: int, safe: nat, dx: int, dy: int)
    requires w > 0 && h > 0
    ensures var p := Place(w, h, canvas, safe, dx, dy);
            (p.width >= 1 && p.height >= 1) <==> KeepsBothSides(w, h, safe)
  {
    var p := Place(w, h, canvas, safe, dx, dy);
    var m := Max(w, h);
    PositiveIff(p.width, w, m, safe);
    PositiveIff(p.height, h, m, safe);
  }

  lemma PositiveIff(n: nat, side: nat, m: nat, safe: nat)
    requires m > 0 && n * m <= side * safe < (n + 1) * m
    ensures n >= 1 <==> side * safe >= m
  {
    if n >= 1 {
      MulMono(1, n, m);
    }
  }

  /** The offsets are the floor-centred offsets moved by the correction:
      the right margin exceeds the left one by `2 * dx` plus the parity of the
      horizontal slack, and the same holds vertically with `dy`. */
  lemma {:induction false} CentredMargins(w: nat, h: nat, canvas: int, safe: nat, dx: int, dy: int)
    requires w > 0 && h > 0
    ensures var p := Place(w, h, canvas, safe, dx, dy);
            RightMargin(p, canvas) - LeftMargin(p) == 2 * dx + (canvas - p.width) % 2 &&
            BottomMargin(p, canvas) - TopMargin(p) == 2 * dy + (canvas - p.height) % 2
  {
    var p := Place(w, h, canvas, safe, dx, dy);
    assert p.x == Half(canvas - p.width) - dx;
    assert p.y == Half(canvas - p.height) - dy;
    HalfSplits(canvas - p.width);
    HalfSplits(canvas - p.height);
  }

  lemma HalfSplits(a: int)
    ensures a - 2 * Half(a) == a % 2
  {
  }

  /** With a safe square no larger than the canvas and a correction of at
      most half the spare room, the logo lies inside the canvas: nothing of
      it is clipped. */
  lemma {:induction false} InsideCanvas(w: nat, h: nat, canvas: int, safe: nat, dx: int, dy: int)
    requires w > 0 && h > 0
    requires safe <= canvas
    requires 0 <= dx <= (canvas - safe) / 2 && 0 <= dy <= (canvas - safe) / 2
    ensures var p := Place(w, h, canvas, safe, dx, dy);
            (canvas - safe) / 2 - dx <= p.x && p.x + p.width <= canvas &&
            (canvas - safe) / 2 - dy <= p.y && p.y + p.height <= canvas
  {
    FitsSafeArea(w, h, canvas, safe, dx, dy);
  }
}
