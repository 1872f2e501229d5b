/** Diagonal lines: the clip of `gfx_line` cuts them at whole pixels and paints exactly the visible ones. */
module Diagonals {
  import opened Machine
  import opened Images
  import opened Rects
  import opened Scroll
  import opened LineClip
  import opened ErrorTerm
  import opened Bresenham
  import opened Lines

  // ----- Diagonals -----

  /** Both extents are equal and not zero. */
  predicate Diagonal(l: Track) {
    l.Adx() == l.Ady() > 0
  }

  /** The k-th pixel of a diagonal. */
  function DiagonalPoint(l: Track, k: int): Point {
    PixelPoint(l.x0 + l.SignX() * k, l.y0 + l.SignY() * k)
  }

  /** Along a diagonal both coordinates change by the same amount. */
  lemma SlopeIsSign(s: int, s': int, n: int, d: real, d': real, e: int)
    requires (s == 1 || s == -1) && (s' == 1 || s' == -1) && n > 0
    requires d == (s * n) as real && d' == (s' * n) as real
    ensures d != 0.0 && d' * e as real / d == (s * s' * e) as real
  {
    var m := n as real;
    assert (s * s' == 1 && d' == d) || (s * s' == -1 && d' == -d);
    if s * s' == 1 {
      assert d * e as real / d == e as real;
    } else {
      assert -d * e as real / d == -(e as real);
    }
  }

  /** Where the coordinate that runs from a by s reaches c, the one that runs from a' by s' is whole. */
  lemma MeetsWhole(a: int, s: int, a': int, s': int, n: int, k: int, c: int, d: real, d': real)
    requires (s == 1 || s == -1) && (s' == 1 || s' == -1) && n > 0
    requires d == (s * n) as real && d' == (s' * n) as real
    ensures d != 0.0
    ensures (a' + s' * k) as real + d' * (c as real - (a + s * k) as real) / d == (a' + s' * (s * (c - a))) as real
  {
    var e := c - (a + s * k);
    SlopeIsSign(s, s', n, d, d', e);
    assert e as real == c as real - (a + s * k) as real;
    var f := s * s' * e;
    assert f == s' * (s * (c - a)) - s' * k by {
      assert s * (s * k) == k;
      assert s * e == s * (c - a) - k;
      assert s * s' * e == s' * (s * e);
    }
    assert d' * (c as real - (a + s * k) as real) / d == f as real;
  }

  /** Where a diagonal meets a column is one of its pixels. */
  lemma DiagonalMeetsColumn(l: Track, k: int, c: int, dx: real, dy: real)
    requires Diagonal(l) && dx == l.x1 as real - l.x0 as real && dy == l.y1 as real - l.y0 as real
    ensures dx != 0.0
    ensures MeetColumn(dx, dy, DiagonalPoint(l, k), c as real) == DiagonalPoint(l, l.SignX() * (c - l.x0))
  {
    MeetsWhole(l.x0, l.SignX(), l.y0, l.SignY(), l.Adx(), k, c, dx, dy);
    assert l.SignX() * (l.SignX() * (c - l.x0)) == c - l.x0;
  }

  /** Where a diagonal meets a row is one of its pixels. */
  lemma DiagonalMeetsRow(l: Track, k: int, c: int, dx: real, dy: real)
    requires Diagonal(l) && dx == l.x1 as real - l.x0 as real && dy == l.y1 as real - l.y0 as real
    ensures dy != 0.0
    ensures MeetRow(dx, dy, DiagonalPoint(l, k), c as real) == DiagonalPoint(l, l.SignY() * (c - l.y0))
  {
    MeetsWhole(l.y0, l.SignY(), l.x0, l.SignX(), l.Adx(), k, c, dy, dx);
    assert l.SignY() * (l.SignY() * (c - l.y0)) == c - l.y0;
  }

  /** The clip of a diagonal ends in pixels of it. */
  lemma {:induction false} DiagonalClip(box: Box, l: Track, dx: real, dy: real, k0: int, k1: int, n: nat)
    returns (j0: int, j1: int)
    requires Diagonal(l) && dx == l.x1 as real - l.x0 as real && dy == l.y1 as real - l.y0 as real
    requires Aligned(dx, dy, DiagonalPoint(l, k0), DiagonalPoint(l, k1))
    ensures var r := Clip(box, dx, dy, DiagonalPoint(l, k0), DiagonalPoint(l, k1), n);
            r.Accept? ==> r.p0 == DiagonalPoint(l, j0) && r.p1 == DiagonalPoint(l, j1)
    decreases n
  {
    j0, j1 := k0, k1;
    var p0, p1 := DiagonalPoint(l, k0), DiagonalPoint(l, k1);
    var code0, code1 := CsOutcode(p0, box), CsOutcode(p1, box);
    if n > 0 && !(code0.Inside() && code1.Inside()) && !code0.Shares(code1) {
      if !code0.Inside() {
        var k := DiagonalCut(box, l, dx, dy, k0, code0);
        j0, j1 := DiagonalClip(box, l, dx, dy, k, k1, n - 1);
      } else {
        var k := DiagonalCut(box, l, dx, dy, k0, code1);
        j0, j1 := DiagonalClip(box, l, dx, dy, k0, k, n - 1);
      }
    }
  }

  lemma DiagonalCut(box: Box, l: Track, dx: real, dy: real, k0: int, code: Outcode) returns (k: int)
    requires Diagonal(l) && dx == l.x1 as real - l.x0 as real && dy == l.y1 as real - l.y0 as real && !code.Inside()
    ensures dx != 0.0 && dy != 0.0
    ensures Cut(box, dx, dy, DiagonalPoint(l, k0), code) == DiagonalPoint(l, k)
  {
    DiagonalMeetsColumn(l, k0, box.fx, dx, dy);
    DiagonalMeetsColumn(l, k0, box.right - 1, dx, dy);
    DiagonalMeetsRow(l, k0, box.fy, dx, dy);
    DiagonalMeetsRow(l, k0, box.top - 1, dx, dy);
    k := if code.left then l.SignX() * (box.fx - l.x0)
         else if code.right then l.SignX() * (box.right - 1 - l.x0)
         else if code.bottom then l.SignY() * (box.fy - l.y0)
         else l.SignY() * (box.top - 1 - l.y0);
  }

  // ----- What a diagonal paints -----

  /** Pixels j0 to j1 of a diagonal. */
  predicate OnDiagonal(l: Track, j0: int, j1: int, x: int, y: int) {
    var k := l.SignX() * (x - l.x0);
    j0 <= k <= j1 && y == l.y0 + l.SignY() * k
  }

  /** A part of a diagonal, as a line of its own. */
  function PartTrack(l: Track, j0: int, j1: int): Track {
    Track(l.x0 + l.SignX() * j0, l.y0 + l.SignY() * j0, l.x0 + l.SignX() * j1, l.y0 + l.SignY() * j1)
  }

  lemma DiagonalTrack(l: Track, j0: int, j1: int, x: int, y: int)
    requires Diagonal(l) && j0 <= j1
    ensures PartTrack(l, j0, j1).Has(x, y) <==> OnDiagonal(l, j0, j1, x, y)
  {
    var t, n := PartTrack(l, j0, j1), j1 - j0;
    var k := l.SignX() * (x - l.x0);
    assert t.Adx() == n && t.Ady() == n;
    if n > 0 {
      var s := t.StepOf(x, y);
      assert t.SignX() == l.SignX() && t.SignY() == l.SignY();
      assert s == k - j0;
      MinorUnique(s, n, n, s);
    }
  }

  /** The parameter of the k-th pixel. */
  lemma PixelParameter(l: Track, k: int) returns (t: real)
    requires Diagonal(l)
    ensures t == k as real / l.Adx() as real && SegmentOf(l.x0, l.y0, l.x1, l.y1).At(t) == DiagonalPoint(l, k)
  {
    var n := l.Adx() as real;
    t := k as real / n;
    ParameterTimes(l.SignX(), l.Adx(), k, t);
    ParameterTimes(l.SignY(), l.Adx(), k, t);
  }

  lemma ParameterTimes(s: int, n: int, k: int, t: real)
    requires n > 0 && (s == 1 || s == -1) && t == k as real / n as real
    ensures (s * n) as real * t == (s * k) as real
  {
    var m := n as real;
    assert m * t == k as real;
    assert (s * n) as real == s as real * m;
    assert s as real * m * t == s as real * (m * t);
  }

  lemma ScaledOrder(u: real, v: real, m: real)
    requires u < v && m > 0.0
    ensures u * m < v * m
  {
    assert (v - u) * m > 0.0;
  }

  lemma ParameterOrder(j: int, k: int, n: int)
    requires n > 0
    ensures j as real / n as real <= k as real / n as real <==> j <= k
    ensures 0 as real / n as real == 0.0 && n as real / n as real == 1.0
  {
    var m := n as real;
    var u, v := j as real / m, k as real / m;
    assert u * m == j as real && v * m == k as real;
    if u < v { ScaledOrder(u, v, m); }
    if v < u { ScaledOrder(v, u, m); }
  }

  /** The pixel is in the visible rectangle. */
  predicate Shows(box: Box, x: int, y: int) {
    box.fx <= x < box.right && box.fy <= y < box.top
  }

  predicate ShowsStep(box: Box, l: Track, k: int) {
    Shows(box, l.x0 + l.SignX() * k, l.y0 + l.SignY() * k)
  }

  lemma PixelHeld(box: Box, x: int, y: int)
    ensures Shows(box, x, y) <==> box.Holds(PixelPoint(x, y))
    ensures Shows(box, x, y) <==> CsOutcode(PixelPoint(x, y), box).Inside()
  {
    CodeOfPixel(box, x, y);
  }

  /** A clipped diagonal runs from pixel j0 to pixel j1 of it, and no other pixel of it is visible. */
  lemma DiagonalEnds(box: Box, l: Track, r: Clipped, j0: int, j1: int, k: int)
    requires box.Valid() && Diagonal(l) && r == Accept(DiagonalPoint(l, j0), DiagonalPoint(l, j1))
    requires Good(SegmentOf(l.x0, l.y0, l.x1, l.y1), box, r)
    ensures 0 <= j0 <= j1 <= l.Adx() && ShowsStep(box, l, j0) && ShowsStep(box, l, j1)
    ensures 0 <= k <= l.Adx() && ShowsStep(box, l, k) ==> j0 <= k <= j1
  {
    var s, n := SegmentOf(l.x0, l.y0, l.x1, l.y1), l.Adx();
    var t0, t1 := AcceptedEnds(s, box, r);
    var u0 := PixelParameter(l, j0);
    var u1 := PixelParameter(l, j1);
    var t := PixelParameter(l, k);
    SameColumn(s, t0, u0);
    SameColumn(s, t1, u1);
    PixelHeld(box, l.x0 + l.SignX() * j0, l.y0 + l.SignY() * j0);
    PixelHeld(box, l.x0 + l.SignX() * j1, l.y0 + l.SignY() * j1);
    PixelHeld(box, l.x0 + l.SignX() * k, l.y0 + l.SignY() * k);
    assert box.Holds(s.At(t0));
    ParameterOrder(0, j0, n);
    ParameterOrder(j0, j1, n);
    ParameterOrder(j1, n, n);
    ParameterOrder(0, k, n);
    ParameterOrder(k, n, n);
    ParameterOrder(j0, k, n);
    ParameterOrder(k, j1, n);
  }

  /** A rejected diagonal has no visible pixel. */
  lemma DiagonalMissed(box: Box, l: Track, k: int)
    requires Diagonal(l) && Misses(SegmentOf(l.x0, l.y0, l.x1, l.y1), box) && 0 <= k <= l.Adx()
    ensures !ShowsStep(box, l, k)
  {
    var t := PixelParameter(l, k);
    ParameterOrder(0, k, l.Adx());
    ParameterOrder(k, l.Adx(), l.Adx());
    PixelHeld(box, l.x0 + l.SignX() * k, l.y0 + l.SignY() * k);
  }

  /** A pixel of the diagonal is the pixel of its step. */
  lemma StepPixel(l: Track, j0: int, j1: int, x: int, y: int)
    requires OnDiagonal(l, j0, j1, x, y)
    ensures var k := l.SignX() * (x - l.x0); x == l.x0 + l.SignX() * k && y == l.y0 + l.SignY() * k
  {
  }

  /** The pixels from j0 to j1 are those that show. */
  lemma VisiblePart(box: Box, l: Track, j0: int, j1: int, x: int, y: int)
    requires 0 <= j0 <= j1 <= l.Adx() && ShowsStep(box, l, j0) && ShowsStep(box, l, j1)
    requires var k := l.SignX() * (x - l.x0); 0 <= k <= l.Adx() && ShowsStep(box, l, k) ==> j0 <= k <= j1
    ensures OnDiagonal(l, j0, j1, x, y) <==> OnDiagonal(l, 0, l.Adx(), x, y) && Shows(box, x, y)
  {
    if OnDiagonal(l, 0, l.Adx(), x, y) { StepPixel(l, 0, l.Adx(), x, y); }
  }

  lemma PartTrackOf(box: Box, l: Track, j0: int, j1: int)
    requires box.Valid() && 0 <= box.fx && 0 <= box.fy && ShowsStep(box, l, j0) && ShowsStep(box, l, j1)
    ensures TrackOf(box, DiagonalPoint(l, j0), DiagonalPoint(l, j1)) == PartTrack(l, j0, j1)
  {
    var t := PartTrack(l, j0, j1);
    TrackOfPixels(box, t.x0, t.y0, t.x1, t.y1);
  }

  /** A clip of a diagonal that ends in pixels of it paints the pixels that show. */
  lemma AcceptedDiagonal(box: Box, l: Track, r: Clipped, j0: int, j1: int, x: int, y: int)
    requires box.Valid() && 0 <= box.fx && 0 <= box.fy && Diagonal(l)
    requires r == Accept(DiagonalPoint(l, j0), DiagonalPoint(l, j1))
    requires Good(SegmentOf(l.x0, l.y0, l.x1, l.y1), box, r)
    ensures TrackOf(box, r.p0, r.p1).Has(x, y) <==> OnDiagonal(l, 0, l.Adx(), x, y) && Shows(box, x, y)
  {
    DiagonalEnds(box, l, r, j0, j1, l.SignX() * (x - l.x0));
    PartTrackOf(box, l, j0, j1);
    DiagonalTrack(l, j0, j1, x, y);
    VisiblePart(box, l, j0, j1, x, y);
  }

  /** Some two pixels of a diagonal are the ends of its accepted clip. */
  lemma ClippedDiagonal(box: Box, x0: int32, y0: int32, x1: int32, y1: int32) returns (j0: int, j1: int)
    requires Diagonal(Track(x0, y0, x1, y1))
    ensures var l, r := Track(x0, y0, x1, y1), ClippedLine(box, x0, y0, x1, y1);
            r.Accept? ==> r == Accept(DiagonalPoint(l, j0), DiagonalPoint(l, j1))
  {
    j0, j1 := WholeDiagonalClip(box, Track(x0, y0, x1, y1), Rounds());
  }

  lemma WholeDiagonalClip(box: Box, l: Track, n: nat) returns (j0: int, j1: int)
    requires Diagonal(l)
    ensures var r := Clip(box, l.x1 as real - l.x0 as real, l.y1 as real - l.y0 as real,
                          PixelPoint(l.x0, l.y0), PixelPoint(l.x1, l.y1), n);
            r.Accept? ==> r == Accept(DiagonalPoint(l, j0), DiagonalPoint(l, j1))
  {
    DiagonalPoints(l);
    j0, j1 := DiagonalClip(box, l, l.x1 as real - l.x0 as real, l.y1 as real - l.y0 as real, 0, l.Adx(), n);
  }

  lemma DiagonalPainted(box: Box, x0: int32, y0: int32, x1: int32, y1: int32, x: int, y: int)
    requires box.Valid() && 0 <= box.fx && 0 <= box.fy && Diagonal(Track(x0, y0, x1, y1))
    ensures var l := Track(x0, y0, x1, y1);
            BoxLineHas(box, x0, y0, x1, y1, x, y) <==> OnDiagonal(l, 0, l.Adx(), x, y) && Shows(box, x, y)
  {
    var l, r := Track(x0, y0, x1, y1), ClippedLine(box, x0, y0, x1, y1);
    LineGood(box, x0, y0, x1, y1);
    if r.Accept? {
      var j0, j1 := ClippedDiagonal(box, x0, y0, x1, y1);
      AcceptedDiagonal(box, l, r, j0, j1, x, y);
    } else if OnDiagonal(l, 0, l.Adx(), x, y) {
      StepPixel(l, 0, l.Adx(), x, y);
      DiagonalMissed(box, l, l.SignX() * (x - x0));
    }
  }

  lemma DiagonalPoints(l: Track)
    requires Diagonal(l)
    ensures DiagonalPoint(l, 0) == PixelPoint(l.x0, l.y0) && DiagonalPoint(l, l.Adx()) == PixelPoint(l.x1, l.y1)
  {
  }

  /** A diagonal line paints exactly its pixels inside clip and view, whatever its endpoints. */
  lemma DiagonalLine(img: Image, clip: Rect, x0: int32, y0: int32, x1: int32, y1: int32, x: int, y: int)
    requires img.Valid() && Diagonal(Track(x0, y0, x1, y1))
    ensures var l := Track(x0, y0, x1, y1);
            LineHas(img, clip, x0, y0, x1, y1, x, y)
            <==> OnDiagonal(l, 0, l.Adx(), x, y) && clip.Contains(x, y) && img.Inside(x, y)
  {
    var v := VisibleArea(img, clip);
    DirectClipExact(clip, img.width, img.height, x, y);
    if !v.Empty() { DiagonalPainted(BoxOf(v), x0, y0, x1, y1, x, y); }
  }
}
