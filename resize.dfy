/**
 * The resize decision of `CompressImage`: from the decoded width and height and the
 * scale and size-cap options, whether the image is resized and to what size.
 */
module Resize {

  datatype Plan = Keep | ResizeTo(width: int, height: int)

  /**
   * Whether the plan is defined: the decoder reports non-negative bounds, and a side
   * the plan divides by is positive. Only a single positive cap divides, by the height
   * when the width cap is 0 and by the width when the height cap is 0.
   */
  predicate PlanDefined(w: int, h: int, scale: real, maxWidth: int, maxHeight: int)
  {
    && w >= 0 && h >= 0
    && (!(0.0 < scale < 1.0) && maxWidth == 0 && maxHeight > 0 ==> h > 0)
    && (!(0.0 < scale < 1.0) && maxWidth > 0 && maxHeight == 0 ==> w > 0)
  }

  /** Scaling a side by a factor in (0, 1) keeps it non-negative and makes a positive side smaller. */
  lemma ScaleShrinks(x: int, scale: real)
    requires x >= 0 && 0.0 < scale < 1.0
    ensures var f := ((x as real) * scale).Floor; 0 <= f <= x && (x > 0 ==> f < x)
  {
    var y := (x as real) * scale;
    if x == 0 {
      assert y == 0.0;
    } else {
      assert x as real > 0.0;
      assert 0.0 < y;
      assert x as real - y == (x as real) * (1.0 - scale);
      assert 0.0 < (x as real) * (1.0 - scale);
    }
    assert 0.0 <= y <= x as real;
    assert x > 0 ==> y < x as real;
    var f := y.Floor;
    assert f as real <= y < f as real + 1.0;
    assert 0 <= f && f as real <= x as real;
  }

  /**
   * A scale strictly between 0 and 1 wins and ignores the caps. Otherwise, when a cap
   * is positive, a zero cap is derived from the other one and the original aspect
   * ratio (truncated), and the image is resized to the two caps only if it exceeds
   * one of them. Float arithmetic is taken as exact.
   */
  function PlanResize(w: int, h: int, scale: real, maxWidth: int, maxHeight: int): (p: Plan)
    requires PlanDefined(w, h, scale, maxWidth, maxHeight)
    ensures p.ResizeTo? && 0.0 < scale < 1.0 ==>
              && 0 <= p.width <= w && 0 <= p.height <= h
              && (w > 0 ==> p.width < w) && (h > 0 ==> p.height < h)
    ensures p.ResizeTo? && !(0.0 < scale < 1.0) ==> p.width < w || p.height < h
  {
    if 0.0 < scale < 1.0 then
      ScaleShrinks(w, scale);
      ScaleShrinks(h, scale);
      ResizeTo(((w as real) * scale).Floor, ((h as real) * scale).Floor)
    else if maxWidth > 0 || maxHeight > 0 then
      var mw := if maxWidth == 0 then (w * maxHeight) / h else maxWidth;
      var mh := if maxWidth == 0 then maxHeight else if maxHeight == 0 then (h * maxWidth) / w else maxHeight;
      if w > mw || h > mh then ResizeTo(mw, mh) else Keep
    else Keep
  }

  /** A scale in (0, 1) gives the floor of each scaled side, whatever the caps are. */
  lemma ScaleIgnoresCaps(w: int, h: int, scale: real, mw: int, mh: int, mw': int, mh': int)
    requires w >= 0 && h >= 0 && 0.0 < scale < 1.0
    ensures PlanResize(w, h, scale, mw, mh) == PlanResize(w, h, scale, mw', mh')
    ensures PlanResize(w, h, scale, mw, mh) == ResizeTo(((w as real) * scale).Floor, ((h as real) * scale).Floor)
  {
  }

  /** No scale in (0, 1) and no positive cap: the image passes through unchanged. */
  lemma NoScaleNoCapKeeps(w: int, h: int, scale: real, mw: int, mh: int)
    requires w >= 0 && h >= 0 && !(0.0 < scale < 1.0) && mw <= 0 && mh <= 0
    ensures PlanResize(w, h, scale, mw, mh) == Keep
  {
  }

  lemma MulMonotone(x: int, a: int, b: int)
    requires x >= 0 && a <= b
    ensures x * a <= x * b
  {
    assert x * b - x * a == x * (b - a);
  }

  lemma DivMonotone(a: int, b: int, d: int)
    requires 0 <= a <= b && d > 0
    ensures a / d <= b / d
  {
    var qa, qb := a / d, b / d;
    if qa > qb {
      MulMonotone(d, qb + 1, qa);
      assert false;
    }
  }

  /** Truncating division brackets the quotient: q * d <= n < (q + 1) * d. */
  lemma DivBounds(n: int, d: int)
    requires n >= 0 && d > 0
    ensures (n / d) * d <= n < (n / d + 1) * d
  {
    assert n == d * (n / d) + n % d;
  }

  /** n * d / d == n */
  lemma DivCancel(n: int, d: int)
    requires d > 0
    ensures (n * d) / d == n
  {
    var q := (n * d) / d;
    assert n * d == d * q + (n * d) % d;
    assert d * (n - q) == (n * d) % d;
    if n - q >= 1 { MulMonotone(d, 1, n - q); }
    if n - q <= -1 { MulMonotone(d, n - q, -1); }
  }

  /** With n <= m the derived side n * c / m is at most c, and at least c when n >= m. */
  lemma DerivedSide(c: int, n: int, m: int)
    requires c > 0 && n > 0 && m > 0
    ensures n <= m ==> (c * n) / m <= c
    ensures n >= m ==> (c * n) / m >= c
  {
    DivCancel(c, m);
    if n <= m {
      MulMonotone(c, n, m);
      assert c * m == m * c;
      DivMonotone(c * n, c * m, m);
    }
    if n >= m {
      MulMonotone(c, m, n);
      DivMonotone(c * m, c * n, m);
    }
  }

  /**
   * Only a height cap: the width is derived as w * maxHeight / h, truncated, so that
   * target width / maxHeight stays within one pixel of w / h; the image is resized
   * exactly when it is taller than the cap, and then never becomes wider.
   */
  lemma HeightCapOnly(w: int, h: int, scale: real, maxHeight: int)
    requires w >= 0 && h > 0 && !(0.0 < scale < 1.0) && maxHeight > 0
    ensures var d := (w * maxHeight) / h;
            && d * h <= w * maxHeight < (d + 1) * h
            && PlanResize(w, h, scale, 0, maxHeight) == (if h > maxHeight then ResizeTo(d, maxHeight) else Keep)
            && (h > maxHeight ==> d <= w)
  {
    MulMonotone(w, 0, maxHeight);
    DivBounds(w * maxHeight, h);
    if w > 0 {
      DerivedSide(w, maxHeight, h);
    }
  }

  /** Only a width cap: the symmetric rule, resizing exactly when the image is wider than the cap. */
  lemma WidthCapOnly(w: int, h: int, scale: real, maxWidth: int)
    requires w > 0 && h >= 0 && !(0.0 < scale < 1.0) && maxWidth > 0
    ensures var d := (h * maxWidth) / w;
            && d * w <= h * maxWidth < (d + 1) * w
            && PlanResize(w, h, scale, maxWidth, 0) == (if w > maxWidth then ResizeTo(maxWidth, d) else Keep)
            && (w > maxWidth ==> d <= h)
  {
    MulMonotone(h, 0, maxWidth);
    DivBounds(h * maxWidth, w);
    if h > 0 {
      DerivedSide(h, maxWidth, w);
    }
  }

  /**
   * Both caps positive: they are taken as given. The image is kept when it fits both,
   * otherwise stretched to exactly the caps, which may change the aspect ratio and
   * even enlarge one side (100 x 1000 with caps 500 x 200 becomes 500 x 200).
   */
  lemma BothCaps(w: int, h: int, scale: real, maxWidth: int, maxHeight: int)
    requires w >= 0 && h >= 0 && !(0.0 < scale < 1.0) && maxWidth > 0 && maxHeight > 0
    ensures PlanResize(w, h, scale, maxWidth, maxHeight) ==
              if w <= maxWidth && h <= maxHeight then Keep else ResizeTo(maxWidth, maxHeight)
    ensures PlanResize(100, 1000, scale, 500, 200) == ResizeTo(500, 200)
  {
  }

  /** Worked examples: 2000 x 1000 at scale 0.5; 800 x 600 with width 400; 100 x 100 with width 500. */
  lemma Examples()
    ensures PlanResize(2000, 1000, 0.5, 0, 0) == ResizeTo(1000, 500)
    ensures PlanResize(800, 600, 1.0, 400, 0) == ResizeTo(400, 300)
    ensures PlanResize(100, 100, 1.0, 500, 0) == Keep
  {
    assert (2000.0 * 0.5).Floor == 1000;
    assert (1000.0 * 0.5).Floor == 500;
  }
}
