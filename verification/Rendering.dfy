/** The painted pixels render the segment: none is 1.5 pixels or more away from it along either axis, and
    no visible point of it is 2 pixels or more away from them. */
module Rendering {
  import opened Machine
  import opened Rects
  import opened Images
  import opened Scroll
  import opened LineClip
  import opened Bresenham
  import opened Lines

  /** Rounding and snapping moves a visible coordinate by less than a pixel. */
  lemma SnapNear(v: real, lo: int, hi: int)
    requires 0 <= lo < hi && lo as real <= v < hi as real
    ensures -1.0 < Snap(v, lo, hi) as real - v < 1.0
  {
    var i := Round(v);
    assert i == (v + 0.5).Floor;
    assert i as real <= v + 0.5 < i as real + 1.0;
  }

  lemma ScaleLess(a: real, b: real, m: real)
    requires a < b && m > 0.0
    ensures a * m < b * m
  {
    assert b * m - a * m == (b - a) * m;
  }

  lemma ScaleWithin(k: real, u: real) returns (ku: real)
    requires 0.0 <= k && -1.0 < u < 1.0
    ensures ku == k * u && -k <= ku <= k && (k > 0.0 ==> -k < ku < k)
  {
    ku := k * u;
    if k > 0.0 {
      ScaleLess(u, 1.0, k);
      ScaleLess(-1.0, u, k);
    }
  }

  /** A weighted mean of values between -1 and 1 is between -1 and 1. */
  lemma Weighted(k: real, w: real, u: real, v: real)
    requires 0.0 <= k && 0.0 <= w && k + w == 1.0 && -1.0 < u < 1.0 && -1.0 < v < 1.0
    ensures -1.0 < k * u + w * v < 1.0
  {
    var ku := ScaleWithin(k, u);
    var wv := ScaleWithin(w, v);
    AddBounds(k, w, ku, wv);
  }

  lemma AddBounds(k: real, w: real, ku: real, wv: real)
    requires 0.0 <= k && 0.0 <= w && k + w == 1.0
    requires -k <= ku <= k && (k > 0.0 ==> -k < ku < k) && -w <= wv <= w && (w > 0.0 ==> -w < wv < w)
    ensures -1.0 < ku + wv < 1.0
  {
  }

  /** The point at the fraction w of the way from a to b. */
  function Mix(a: real, b: real, w: real): real {
    a + w * (b - a)
  }

  /** Moving both ends by less than a pixel moves the points in between by less than a pixel. */
  lemma MixNear(w: real, a: real, b: real, p: real, q: real)
    requires 0.0 <= w <= 1.0 && -1.0 < a - p < 1.0 && -1.0 < b - q < 1.0
    ensures -1.0 < Mix(a, b, w) - Mix(p, q, w) < 1.0
  {
    var k := 1.0 - w;
    Weighted(k, w, a - p, b - q);
    assert k * (a - p) + w * (b - q) == Mix(a, b, w) - Mix(p, q, w);
  }

  /** Along the major axis the pixel of step s is the point at s / n. */
  lemma MajorExact(a: int, b: int, sign: int, s: int, n: int, w: real)
    requires (sign == 1 || sign == -1) && b - a == sign * n && w * n as real == s as real
    ensures Mix(a as real, b as real, w) == (a + sign * s) as real
  {
    assert b as real - a as real == (sign * n) as real == sign as real * n as real;
    assert w * (sign as real * n as real) == sign as real * (w * n as real);
    assert sign as real * s as real == (sign * s) as real;
  }

  /** Along the minor axis it is within half a pixel. */
  lemma MinorHalf(a: int, b: int, c: int, s: int, n: int, w: real)
    requires n >= 1 && w * n as real == s as real && 2 * Abs((c - a) * n - s * (b - a)) <= n
    ensures -0.5 <= c as real - Mix(a as real, b as real, w) <= 0.5
  {
    ScaledDistance(a, b, c, s, n, w);
    AtMostHalf(c as real - Mix(a as real, b as real, w), n, (c - a) * n - s * (b - a));
  }

  lemma AtMostHalf(d: real, n: int, e: int)
    requires n >= 1 && d * n as real == e as real && 2 * Abs(e) <= n
    ensures -0.5 <= d <= 0.5
  {
    var m, r := n as real, e as real;
    assert -m <= 2.0 * r <= m;
    BelowHalf(d, m, r);
    BelowHalf(-d, m, -r);
  }

  lemma BelowHalf(d: real, m: real, r: real)
    requires m > 0.0 && d * m == r && 2.0 * r <= m
    ensures d <= 0.5
  {
    var u := d - 0.5;
    assert u * m == r - 0.5 * m;
    if u > 0.0 { ScaleLess(0.0, u, m); }
  }

  lemma ScaledDistance(a: int, b: int, c: int, s: int, n: int, w: real)
    requires w * n as real == s as real
    ensures (c as real - Mix(a as real, b as real, w)) * n as real == ((c - a) * n - s * (b - a)) as real
  {
    var m, f, g := n as real, c as real - a as real, b as real - a as real;
    assert c as real - Mix(a as real, b as real, w) == f - w * g;
    assert (f - w * g) * m == f * m - (w * m) * g;
    assert f * m == ((c - a) * n) as real && s as real * g == (s * (b - a)) as real;
  }

  /** Step s of n from a to b along one axis is at c, and c' is the rounded place from a' to b' along the other. */
  ghost predicate Rounded(a: int, b: int, c: int, a': int, b': int, c': int, s: int, n: int) {
    && ((b - a == n && c == a + s) || (b - a == -n && c == a - s))
    && 2 * Abs((c' - a') * n - s * (b' - a')) <= n
  }

  /** Such a place is within half a pixel of the ideal line. */
  lemma RoundedNear(a: int, b: int, c: int, a': int, b': int, c': int, s: int, n: int, w: real)
    requires n >= 1 && w * n as real == s as real && Rounded(a, b, c, a', b', c', s, n)
    ensures -0.5 <= c as real - Mix(a as real, b as real, w) <= 0.5
    ensures -0.5 <= c' as real - Mix(a' as real, b' as real, w) <= 0.5
  {
    MajorExact(a, b, if b - a == n then 1 else -1, s, n, w);
    MinorHalf(a', b', c', s, n, w);
  }

  /** A place on the way from (x0, y0) to (x1, y1): an end when there is nothing to walk, else a rounded
      place, with the axes swapped when y is the major one. */
  ghost predicate OnWay(x0: int, y0: int, x1: int, y1: int, x: int, y: int, s: int, n: int) {
    && 0 <= s <= n
    && (n == 0 ==> x == x0 && y == y0)
    && (n >= 1 ==> Rounded(x0, x1, x, y0, y1, y, s, n) || Rounded(y0, y1, y, x0, x1, x, s, n))
  }

  /** Every pixel of a walk is on the way. */
  lemma PathOnWay(l: Track, x: int, y: int)
    requires l.Has(x, y)
    ensures OnWay(l.x0, l.y0, l.x1, l.y1, x, y, l.StepOf(x, y), l.Steps())
  {
    var s := l.StepOf(x, y);
    PathNearLine(l, s);
    SignedExtent(l.SignX(), l.Adx(), l.x1 - l.x0, s);
    SignedExtent(l.SignY(), l.Ady(), l.y1 - l.y0, s);
  }

  lemma SignedExtent(sign: int, extent: int, d: int, s: int)
    requires d == sign * extent
    ensures sign * (s * extent) == s * d
  {
  }

  lemma PlaceNear(x0: int, y0: int, x1: int, y1: int, x: int, y: int, s: int, n: int, w: real, p0: Point, p1: Point)
    requires n >= 1 && w * n as real == s as real && 0.0 <= w <= 1.0
    requires Rounded(x0, x1, x, y0, y1, y, s, n) || Rounded(y0, y1, y, x0, x1, x, s, n)
    requires -1.0 < x0 as real - p0.x < 1.0 && -1.0 < y0 as real - p0.y < 1.0
    requires -1.0 < x1 as real - p1.x < 1.0 && -1.0 < y1 as real - p1.y < 1.0
    ensures -1.5 < x as real - Mix(p0.x, p1.x, w) < 1.5 && -1.5 < y as real - Mix(p0.y, p1.y, w) < 1.5
  {
    if Rounded(x0, x1, x, y0, y1, y, s, n) {
      RoundedNear(x0, x1, x, y0, y1, y, s, n, w);
    } else {
      RoundedNear(y0, y1, y, x0, x1, x, s, n, w);
    }
    MixNear(w, x0 as real, x1 as real, p0.x, p1.x);
    MixNear(w, y0 as real, y1 as real, p0.y, p1.y);
  }

  /** The walk starts and ends less than a pixel from p0 and p1. */
  ghost predicate EndsNear(l: Track, p0: Point, p1: Point) {
    && -1.0 < l.x0 as real - p0.x < 1.0 && -1.0 < l.y0 as real - p0.y < 1.0
    && -1.0 < l.x1 as real - p1.x < 1.0 && -1.0 < l.y1 as real - p1.y < 1.0
  }

  lemma SnappedEndsNear(box: Box, p0: Point, p1: Point)
    requires box.Valid() && 0 <= box.fx && 0 <= box.fy
    requires CsOutcode(p0, box).Inside() && CsOutcode(p1, box).Inside()
    ensures EndsNear(TrackOf(box, p0, p1), p0, p1)
  {
    SnapNear(p0.x, box.fx, box.right);
    SnapNear(p0.y, box.fy, box.top);
    SnapNear(p1.x, box.fx, box.right);
    SnapNear(p1.y, box.fy, box.top);
  }

  /** A place on the way between ends that are less than a pixel from p0 and p1. */
  lemma WayNear(x0: int, y0: int, x1: int, y1: int, x: int, y: int, s: int, n: int, p0: Point, p1: Point)
    returns (w: real)
    requires OnWay(x0, y0, x1, y1, x, y, s, n)
    requires -1.0 < x0 as real - p0.x < 1.0 && -1.0 < y0 as real - p0.y < 1.0
    requires -1.0 < x1 as real - p1.x < 1.0 && -1.0 < y1 as real - p1.y < 1.0
    ensures 0.0 <= w <= 1.0
    ensures -1.5 < x as real - Mix(p0.x, p1.x, w) < 1.5 && -1.5 < y as real - Mix(p0.y, p1.y, w) < 1.5
  {
    if n == 0 {
      w := 0.0;
    } else {
      w := Fraction(s, n);
      PlaceNear(x0, y0, x1, y1, x, y, s, n, w, p0, p1);
    }
  }

  /** A painted pixel is near a point between the clipped endpoints. */
  lemma TrackNear(box: Box, p0: Point, p1: Point, x: int, y: int) returns (w: real)
    requires box.Valid() && 0 <= box.fx && 0 <= box.fy
    requires CsOutcode(p0, box).Inside() && CsOutcode(p1, box).Inside()
    requires TrackOf(box, p0, p1).Has(x, y)
    ensures 0.0 <= w <= 1.0
    ensures -1.5 < x as real - Mix(p0.x, p1.x, w) < 1.5 && -1.5 < y as real - Mix(p0.y, p1.y, w) < 1.5
  {
    var l := TrackOf(box, p0, p1);
    SnappedEndsNear(box, p0, p1);
    PathOnWay(l, x, y);
    w := WayNear(l.x0, l.y0, l.x1, l.y1, x, y, l.StepOf(x, y), l.Steps(), p0, p1);
  }

  lemma Fraction(s: int, n: int) returns (w: real)
    requires 0 <= s <= n && n >= 1
    ensures 0.0 <= w <= 1.0 && w * n as real == s as real
  {
    w := Ratio(s as real, n as real);
  }

  lemma Ratio(d: real, e: real) returns (w: real)
    requires 0.0 <= d <= e && 0.0 < e
    ensures 0.0 <= w <= 1.0 && w * e == d
  {
    w := d / e;
    if w > 1.0 { ScaleLess(1.0, w, e); }
    if w < 0.0 { ScaleLess(w, 0.0, e); }
  }

  /** For every line and every clip: each painted pixel is less than 1.5 pixels, along either axis,
      from some point of the real segment. */
  lemma PaintedNearSegment(img: Image, clip: Rect, x0: int32, y0: int32, x1: int32, y1: int32, x: int, y: int)
    returns (t: real)
    requires img.Valid() && LineHas(img, clip, x0, y0, x1, y1, x, y)
    ensures 0.0 <= t <= 1.0
    ensures var p := SegmentOf(x0, y0, x1, y1).At(t);
            -1.5 < x as real - p.x < 1.5 && -1.5 < y as real - p.y < 1.5
  {
    var box, s := BoxOf(VisibleArea(img, clip)), SegmentOf(x0, y0, x1, y1);
    var r := ClippedLine(box, x0, y0, x1, y1);
    LineGood(box, x0, y0, x1, y1);
    var t0, t1 := AcceptedEnds(s, box, r);
    var w := TrackNear(box, r.p0, r.p1, x, y);
    t := OnSegment(s, t0, t1, w, r.p0, r.p1);
  }

  /** A point between two points of the segment is a point of the segment. */
  lemma OnSegment(s: Segment, t0: real, t1: real, w: real, p0: Point, p1: Point) returns (t: real)
    requires 0.0 <= t0 <= 1.0 && 0.0 <= t1 <= 1.0 && 0.0 <= w <= 1.0 && p0 == s.At(t0) && p1 == s.At(t1)
    ensures 0.0 <= t <= 1.0 && s.At(t) == Point(Mix(p0.x, p1.x, w), Mix(p0.y, p1.y, w))
  {
    t := Mix(t0, t1, w);
    MixWithin(t0, t1, w);
    AtMix(s, t0, t1, w, t, p0, p1);
  }

  lemma AtMix(s: Segment, t0: real, t1: real, w: real, t: real, p0: Point, p1: Point)
    requires t == Mix(t0, t1, w) && p0 == s.At(t0) && p1 == s.At(t1)
    ensures s.At(t) == Point(Mix(p0.x, p1.x, w), Mix(p0.y, p1.y, w))
  {
    MixAlong(s.a.x, s.dx, t0, t1, w, p0.x, p1.x);
    MixAlong(s.a.y, s.dy, t0, t1, w, p0.y, p1.y);
  }

  lemma MixWithin(a: real, b: real, w: real)
    requires 0.0 <= a <= 1.0 && 0.0 <= b <= 1.0 && 0.0 <= w <= 1.0
    ensures 0.0 <= Mix(a, b, w) <= 1.0
  {
    if a < b {
      var p := PartOf(w, b - a);
      assert Mix(a, b, w) == a + p;
    } else if b < a {
      var p := PartOf(w, a - b);
      assert Mix(a, b, w) == a - p;
    }
  }

  lemma PartOf(w: real, e: real) returns (p: real)
    requires 0.0 <= w <= 1.0 && e > 0.0
    ensures p == w * e && 0.0 <= p <= e
  {
    p := w * e;
    if 0.0 < w { ScaleLess(0.0, w, e); }
    if w < 1.0 { ScaleLess(w, 1.0, e); }
  }

  lemma MixAlong(a: real, d: real, t0: real, t1: real, w: real, u: real, v: real)
    requires u == a + d * t0 && v == a + d * t1
    ensures a + d * Mix(t0, t1, w) == Mix(u, v, w)
  {
    var e := t1 - t0;
    assert v - u == d * e;
    assert d * (t0 + w * e) == d * t0 + w * (d * e);
  }

  // ----- And no visible part is left out -----

  /** The step nearest to the fraction w of the way. */
  lemma NearestStep(n: int, w: real) returns (s: int, m: real)
    requires n >= 0 && 0.0 <= w <= 1.0
    ensures 0 <= s <= n && m == w * n as real && -0.5 <= s as real - m <= 0.5
  {
    if n == 0 {
      s, m := 0, 0.0;
    } else {
      m := PartOf(w, n as real);
      s := NearestInteger(m, n);
    }
  }

  lemma NearestInteger(m: real, n: int) returns (s: int)
    requires 0.0 <= m <= n as real
    ensures 0 <= s <= n && -0.5 <= s as real - m <= 0.5
  {
    s := (m + 0.5).Floor;
    assert s as real <= m + 0.5 < s as real + 1.0;
  }

  /** Moving along the way by half a step moves neither coordinate by more than half a pixel. */
  lemma HalfStep(u: real, d: real, n: real) returns (p: real)
    requires n > 0.0 && -0.5 <= u * n <= 0.5 && -n <= d <= n
    ensures p == u * d && -0.5 <= p <= 0.5
  {
    if u >= 0.0 {
      p := HalfStepForward(u, d, n);
    } else {
      p := HalfStepForward(-u, -d, n);
      assert (-u) * (-d) == u * d;
    }
  }

  lemma HalfStepForward(u: real, d: real, n: real) returns (p: real)
    requires n > 0.0 && 0.0 <= u && u * n <= 0.5 && -n <= d <= n
    ensures p == u * d && -0.5 <= p <= 0.5
  {
    p := d * u;
    var q := n * u;
    ScaleLe(d, n, u);
    ScaleLe(-n, d, u);
    assert q == u * n && (-n) * u == -q;
  }

  lemma ScaleLe(a: real, b: real, m: real)
    requires a <= b && m >= 0.0
    ensures a * m <= b * m
  {
    if a < b && m > 0.0 { ScaleLess(a, b, m); }
  }

  lemma MixHalfStep(a: int, b: int, n: int, v: real, w: real)
    requires n >= 1 && -n <= b - a <= n && -0.5 <= (v - w) * n as real <= 0.5
    ensures -0.5 <= Mix(a as real, b as real, v) - Mix(a as real, b as real, w) <= 0.5
  {
    var d := b as real - a as real;
    assert -(n as real) <= d <= n as real;
    var p := HalfStep(v - w, d, n as real);
    assert Mix(a as real, b as real, v) - Mix(a as real, b as real, w) == p;
  }

  /** The place nearest to the fraction w is near the point at w. */
  lemma WayCovers(x0: int, y0: int, x1: int, y1: int, x: int, y: int, s: int, n: int, w: real, m: real,
                  p0: Point, p1: Point)
    requires OnWay(x0, y0, x1, y1, x, y, s, n) && 0.0 <= w <= 1.0
    requires -n <= x1 - x0 <= n && -n <= y1 - y0 <= n && m == w * n as real && -0.5 <= s as real - m <= 0.5
    requires -1.0 < x0 as real - p0.x < 1.0 && -1.0 < y0 as real - p0.y < 1.0
    requires -1.0 < x1 as real - p1.x < 1.0 && -1.0 < y1 as real - p1.y < 1.0
    ensures -2.0 < x as real - Mix(p0.x, p1.x, w) < 2.0 && -2.0 < y as real - Mix(p0.y, p1.y, w) < 2.0
  {
    MixNear(w, x0 as real, x1 as real, p0.x, p1.x);
    MixNear(w, y0 as real, y1 as real, p0.y, p1.y);
    if n == 0 {
      MixSame(x0 as real, w);
      MixSame(y0 as real, w);
      assert x1 == x0 && y1 == y0;
    } else {
      var v := Fraction(s, n);
      assert (v - w) * n as real == s as real - m;
      MixHalfStep(x0, x1, n, v, w);
      MixHalfStep(y0, y1, n, v, w);
      if Rounded(x0, x1, x, y0, y1, y, s, n) {
        RoundedNear(x0, x1, x, y0, y1, y, s, n, v);
      } else {
        RoundedNear(y0, y1, y, x0, x1, x, s, n, v);
      }
    }
  }

  lemma MixSame(a: real, w: real)
    ensures Mix(a, a, w) == a
  {
  }

  /** Where a parameter lies between two others. */
  lemma Along(t0: real, t: real, t1: real) returns (w: real)
    requires t0 <= t <= t1
    ensures 0.0 <= w <= 1.0 && t == Mix(t0, t1, w)
  {
    if t0 == t1 {
      w := 0.0;
    } else {
      w := Ratio(t - t0, t1 - t0);
    }
  }

  lemma TrackCovers(box: Box, p0: Point, p1: Point, w: real) returns (x: int, y: int)
    requires box.Valid() && 0 <= box.fx && 0 <= box.fy && 0.0 <= w <= 1.0
    requires CsOutcode(p0, box).Inside() && CsOutcode(p1, box).Inside()
    ensures TrackOf(box, p0, p1).Has(x, y)
    ensures -2.0 < x as real - Mix(p0.x, p1.x, w) < 2.0 && -2.0 < y as real - Mix(p0.y, p1.y, w) < 2.0
  {
    SnappedEndsNear(box, p0, p1);
    x, y := WalkCovers(TrackOf(box, p0, p1), p0, p1, w);
  }

  lemma WalkCovers(l: Track, p0: Point, p1: Point, w: real) returns (x: int, y: int)
    requires EndsNear(l, p0, p1) && 0.0 <= w <= 1.0
    ensures l.Has(x, y)
    ensures -2.0 < x as real - Mix(p0.x, p1.x, w) < 2.0 && -2.0 < y as real - Mix(p0.y, p1.y, w) < 2.0
  {
    var n: int := l.Steps();
    var s, m := NearestStep(n, w);
    x, y := PixelOfStep(l, s);
    WayCovers(l.x0, l.y0, l.x1, l.y1, x, y, s, n, w, m, p0, p1);
  }

  lemma PixelOfStep(l: Track, s: int) returns (x: int, y: int)
    requires 0 <= s <= l.Steps()
    ensures l.Has(x, y) && OnWay(l.x0, l.y0, l.x1, l.y1, x, y, s, l.Steps())
    ensures var n: int := l.Steps(); -n <= l.x1 - l.x0 <= n && -n <= l.y1 - l.y0 <= n
  {
    x, y := l.X(s), l.Y(s);
    PathShape(l, s);
    StepOfStep(l, s);
    PathOnWay(l, x, y);
  }

  /** For every line and every clip: each point of the real segment in the closed visible rectangle is less
      than 2 pixels, along either axis, from some painted pixel. */
  lemma SegmentCovered(img: Image, clip: Rect, x0: int32, y0: int32, x1: int32, y1: int32, t: real)
    returns (x: int, y: int)
    requires img.Valid() && !VisibleArea(img, clip).Empty() && 0.0 <= t <= 1.0
    requires BoxOf(VisibleArea(img, clip)).Holds(SegmentOf(x0, y0, x1, y1).At(t))
    ensures LineHas(img, clip, x0, y0, x1, y1, x, y)
    ensures var p := SegmentOf(x0, y0, x1, y1).At(t);
            -2.0 < x as real - p.x < 2.0 && -2.0 < y as real - p.y < 2.0
  {
    var box, s := BoxOf(VisibleArea(img, clip)), SegmentOf(x0, y0, x1, y1);
    var r := ClippedLine(box, x0, y0, x1, y1);
    LineGood(box, x0, y0, x1, y1);
    x, y := AcceptedCovers(s, box, r, t);
  }

  lemma AcceptedCovers(s: Segment, box: Box, r: Clipped, t: real) returns (x: int, y: int)
    requires Good(s, box, r) && box.Valid() && 0 <= box.fx && 0 <= box.fy
    requires 0.0 <= t <= 1.0 && box.Holds(s.At(t))
    ensures r.Accept? && TrackOf(box, r.p0, r.p1).Has(x, y)
    ensures -2.0 < x as real - s.At(t).x < 2.0 && -2.0 < y as real - s.At(t).y < 2.0
  {
    var t0, t1 := AcceptedEnds(s, box, r);
    var w := Along(t0, t, t1);
    x, y := TrackCovers(box, r.p0, r.p1, w);
    AtMix(s, t0, t1, w, t, r.p0, r.p1);
  }
}
