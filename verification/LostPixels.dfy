/** Every other line loses a pixel to some clip: the clip moves an endpoint to where the line crosses a row (or
    column), and the rounded crossing is not where the unclipped line enters or leaves that row. */
module LostPixels {
  import opened Machine
  import opened Images
  import opened Rects
  import opened Scroll
  import opened LineClip
  import opened ErrorTerm
  import opened Bresenham
  import opened Lines

  // ----- A row whose crossing is rounded past a painted pixel -----

  /** The line of extents a > b crosses row j half way between steps i and i + 1. */
  predicate Tie(a: int, b: int, j: int, i: int) {
    2 * (j * a - i * b) == b
  }

  /** It crosses row j nearest to step i, with step i - 1 on that row already. */
  predicate Behind(a: int, b: int, j: int, i: int) {
    -b < 2 * (j * a - i * b) <= 0 && 2 * (j * a - i * b) <= a - 2 * b
  }

  predicate Losing(a: int, b: int, j: int, i: int) {
    0 < b < a && 1 <= j <= b && (Tie(a, b, j, i) || Behind(a, b, j, i))
  }

  /** There is such a row for all extents. */
  lemma LosingRow(a: nat, b: nat) returns (j: int, i: int)
    requires 0 < b < a
    ensures Losing(a, b, j, i)
  {
    var g := Gcd(a, b);
    var c := HalfMultiple(a, b, g);
    j, i := MultipleFromOne(a, b, c);
  }

  /** A multiple of the common divisor that is half the smaller extent, or falls short of it by half the divisor. */
  lemma HalfMultiple(a: nat, b: nat, g: int) returns (c: int)
    requires 0 < b < a && g == Gcd(a, b)
    ensures 2 * (g * c) == b || (2 * (g * c) == g - b && 0 < g <= b && b + g <= a)
  {
    var p, q := GcdDivides(a, b);
    FactorApart(p, q, g);
    c := if q % 2 == 1 then -((q - 1) / 2) else q / 2;
    HalfFactor(q, c, g);
    if q <= 0 { RowsApartOrSame(g, q, 0); } else { RowsApartOrSame(g, 1, q); }
  }

  lemma MultipleFromOne(a: nat, b: nat, k: int) returns (j: int, i: int)
    requires b > 0
    ensures 1 <= j <= b && j * a - i * b == Gcd(a, b) * k
  {
    j, i := MultipleReached(a, b, k);
    if j == 0 {
      assert b * a - (i + a) * b == -(i * b);
      j, i := b, i + a;
    }
  }

  lemma FactorApart(p: int, q: int, g: int)
    requires g > 0 && q * g < p * g
    ensures q * g + g <= p * g
  {
    if p <= q { RowsApartOrSame(g, p, q); }
    RowsApartOrSame(g, q + 1, p);
    assert (q + 1) * g == q * g + g;
  }

  lemma RowsApartOrSame(g: int, p: int, q: int)
    requires g > 0
    ensures p <= q ==> p * g <= q * g
  {
    if p < q { RowsApart(g, p, q); }
  }

  lemma HalfFactor(q: int, c: int, g: int)
    requires c == if q % 2 == 1 then -((q - 1) / 2) else q / 2
    ensures 2 * (g * c) == if q % 2 == 1 then g - q * g else q * g
  {
    assert 2 * (g * c) == (2 * c) * g;
    if q % 2 == 1 {
      assert 2 * c == 1 - q;
      assert (1 - q) * g == g - q * g;
    } else {
      assert 2 * c == q;
    }
  }

  /** The step the crossing is rounded to; a tie goes to the larger coordinate. */
  function CrossStep(a: int, b: int, j: int, i: int, sign: int): int {
    if Tie(a, b, j, i) && sign == 1 then i + 1 else i
  }

  /** The crossing is where the clip starts, except that a tie rounded backwards is where it ends. */
  predicate CutsStart(a: int, b: int, j: int, i: int, sign: int) {
    Behind(a, b, j, i) || sign == 1
  }

  /** The step that is lost. */
  function LostStep(a: int, b: int, j: int, i: int, sign: int): int {
    if CutsStart(a, b, j, i, sign) then CrossStep(a, b, j, i, sign) - 1 else i + 1
  }

  /** It is a step of the line, on row j. */
  lemma LostStepOnRow(a: int, b: int, j: int, i: int, sign: int)
    requires Losing(a, b, j, i) && (sign == 1 || sign == -1)
    ensures var m := LostStep(a, b, j, i, sign); 0 <= m <= a && Minor(m, b, a) == j
    ensures 0 <= CrossStep(a, b, j, i, sign) <= a
  {
    var m := LostStep(a, b, j, i, sign);
    assert (i + 1) * b == i * b + b;
    assert (i - 1) * b == i * b - b;
    MinorUnique(m, b, a, j);
    RowsApartOrSame(a, 1, j);
    RowsApartOrSame(a, j, b);
    assert b * a == a * b;
    InRange(b, i, a, i * b);
  }

  /** Bounds on a multiple of b bound the factor. */
  lemma InRange(b: int, i: int, a: int, ib: int)
    requires b > 0 && ib == i * b
    ensures ib > 0 ==> i >= 1
    ensures ib > -b ==> i >= 0
    ensures ib < a * b ==> i < a
    ensures ib < a * b + b ==> i <= a
  {
    if i <= 0 { RowsApartOrSame(b, i, 0); }
    if i <= -1 { RowsApartOrSame(b, i, -1); }
    if a <= i { RowsApartOrSame(b, a, i); }
    if a + 1 <= i { RowsApartOrSame(b, a + 1, i); assert (a + 1) * b == a * b + b; }
  }

  // ----- The crossing -----

  predicate Sign(s: int) {
    s == 1 || s == -1
  }

  lemma Quotient(n: int, b: int, i: int, ib: int) returns (q: real, f: real)
    requires b > 0 && ib == i * b
    ensures q == i as real + f && q * b as real == n as real
    ensures f * b as real == (n - ib) as real
  {
    var m := b as real;
    q := n as real / m;
    f := q - i as real;
    assert q * m == n as real;
    assert ib as real == i as real * m;
    assert f * m == q * m - i as real * m;
  }

  lemma QuotientRange(q: real, n: int, b: int, a: int)
    requires b > 0 && q * b as real == n as real && 0 <= n <= a * b
    ensures 0.0 <= q <= a as real
  {
    assert (a * b) as real == a as real * b as real;
    FactorOrder(0.0, q, b as real);
    FactorOrder(q, a as real, b as real);
  }

  lemma FractionBounds(f: real, e: int, b: int)
    requires b > 0 && f * b as real == e as real
    ensures 2 * e == b ==> f == 0.5
    ensures -b < 2 * e <= 0 ==> -0.5 < f <= 0.0
  {
    var m := b as real;
    if 2 * e == b { SameFactor(f, 0.5, m); }
    if -b < 2 * e <= 0 {
      FactorOrder(f, 0.0, m);
      FactorOrder(f, -0.5, m);
    }
  }

  /** How far along the major axis the line is when it crosses row j. */
  lemma CrossFraction(a: int, b: int, j: int, i: int) returns (q: real, f: real)
    requires Losing(a, b, j, i)
    ensures q * b as real == (j * a) as real && q == i as real + f && 0.0 <= q <= a as real
    ensures if Tie(a, b, j, i) then f == 0.5 else -0.5 < f <= 0.0
  {
    q, f := Quotient(j * a, b, i, i * b);
    FractionBounds(f, j * a - i * b, b);
    RowsApartOrSame(a, 0, j);
    RowsApartOrSame(a, j, b);
    assert b * a == a * b;
    QuotientRange(q, j * a, b, a);
  }

  lemma FactorOrder(u: real, v: real, n: real)
    requires n > 0.0
    ensures u * n <= v * n <==> u <= v
  {
    if u < v { assert (v - u) * n > 0.0; }
    if v < u { assert (u - v) * n > 0.0; }
  }

  lemma SameFactor(u: real, v: real, n: real)
    requires n > 0.0 && u * n == v * n
    ensures u == v
  {
    FactorOrder(u, v, n);
    FactorOrder(v, u, n);
  }

  /** From u in the direction of (d, d'), to the point that is n further along the other axis. */
  function Meet(u: real, d: real, d': real, n: real): real
    requires d' != 0.0
  {
    u + d * n / d'
  }

  /** The two ways to write the crossing. */
  lemma MeetsAt(u: real, s: int, s': int, a: int, b: int, j: int, d: real, d': real, q: real)
    requires Sign(s) && Sign(s') && b > 0 && d == (s * a) as real && d' == (s' * b) as real
    requires q * b as real == (j * a) as real
    ensures d' != 0.0 && Meet(u, d, d', (s' * j) as real) == u + s as real * q
  {
    var n := b as real;
    assert d * (s' * j) as real == (s * a * (s' * j)) as real;
    assert s * a * (s' * j) == s * s' * (j * a);
    assert (s * s' * (j * a)) as real == s as real * s' as real * (q * n);
    assert d' == s' as real * n;
    assert s as real * s' as real * (q * n) == (s as real * q) * d';
    assert (s as real * q) * d' / d' == s as real * q;
  }

  lemma RoundNear(v: real, k: int, f: real)
    requires v >= 0.0 && v == k as real + f && -0.5 <= f < 0.5
    ensures Round(v) == k
  {
  }

  /** The crossing lies on the line and is rounded to its step. */
  lemma Crossing(x0: int, s: int, s': int, a: int, b: int, j: int, i: int, d: real, d': real) returns (v: real)
    requires Sign(s) && Sign(s') && Losing(a, b, j, i) && 0 <= x0 && 0 <= x0 + s * a
    requires d == (s * a) as real && d' == (s' * b) as real
    ensures d' != 0.0 && v == Meet(x0 as real, d, d', (s' * j) as real)
    ensures Min(x0, x0 + s * a) as real <= v <= Max(x0, x0 + s * a) as real
    ensures Round(v) == x0 + s * CrossStep(a, b, j, i, s)
  {
    var q, f := CrossFraction(a, b, j, i);
    MeetsAt(x0 as real, s, s', a, b, j, d, d', q);
    v := Meet(x0 as real, d, d', (s' * j) as real);
    CrossingRounded(x0, s, a, i, CrossStep(a, b, j, i, s), Tie(a, b, j, i), q, f, v);
  }

  lemma CrossingRounded(x0: int, s: int, a: int, i: int, k: int, tie: bool, q: real, f: real, v: real)
    requires Sign(s) && 0 <= x0 && 0 <= x0 + s * a && k == if tie && s == 1 then i + 1 else i
    requires q == i as real + f && 0.0 <= q <= a as real && if tie then f == 0.5 else -0.5 < f <= 0.0
    requires v == x0 as real + s as real * q
    ensures Min(x0, x0 + s * a) as real <= v <= Max(x0, x0 + s * a) as real
    ensures Round(v) == x0 + s * k
  {
    if s == 1 {
      assert v == x0 as real + q;
      RoundNear(v, x0 + k, if tie then f - 1.0 else f);
    } else {
      assert v == x0 as real - q;
      RoundNear(v, x0 - k, -f);
    }
  }

  // ----- A crossing that loses a pixel -----

  /** The line from u0 to u1 along its major axis is at v when it crosses c on the other axis; v is rounded to e,
      and the pixel of step m, on the far side of e, is on c as well. */
  ghost predicate Loss(u0: int, u1: int, w0: int, w1: int, start: bool, c: int, v: real, e: int, m: int) {
    && w0 != w1 && Abs(w1 - w0) < Abs(u1 - u0)
    && (if start then w0 < c <= w1 || w0 > c >= w1 else w0 < c < w1 || w0 > c > w1)
    && v == Meet(u0 as real, u1 as real - u0 as real, w1 as real - w0 as real, c as real - w0 as real)
    && Min(u0, u1) as real <= v <= Max(u0, u1) as real
    && Round(v) == e && Min(u0, u1) <= e <= Max(u0, u1)
    && 0 <= m <= Abs(u1 - u0) && Minor(m, Abs(w1 - w0), Abs(u1 - u0)) == Abs(c - w0)
    && var u := if u0 < u1 then u0 + m else u0 - m;
       if start == (u0 < u1) then u < e else u > e
  }

  /** The same by steps k and m of the line, in direction s on the one axis and s' on the other. */
  lemma FindCrossing(u0: int, s: int, s': int, a: int, b: int, d: real, d': real)
    returns (start: bool, j: int, v: real, k: int, m: int)
    requires Sign(s) && Sign(s') && 0 < b < a && 0 <= u0 && 0 <= u0 + s * a
    requires d == (s * a) as real && d' == (s' * b) as real
    ensures d' != 0.0 && v == Meet(u0 as real, d, d', (s' * j) as real)
    ensures Min(u0, u0 + s * a) as real <= v <= Max(u0, u0 + s * a) as real && Round(v) == u0 + s * k
    ensures 1 <= j <= b && (!start ==> j < b)
    ensures 0 <= k <= a && 0 <= m <= a && Minor(m, b, a) == j && if start then m < k else m > k
  {
    var i;
    j, i := LosingRow(a, b);
    start, k, m := CutsStart(a, b, j, i, s), CrossStep(a, b, j, i, s), LostStep(a, b, j, i, s);
    v := Crossing(u0, s, s', a, b, j, i, d, d');
    LostStepOnRow(a, b, j, i, s);
    if !start { TieInside(a, b, j, i); }
  }

  /** A tie is not in the last row. */
  lemma TieInside(a: int, b: int, j: int, i: int)
    requires Losing(a, b, j, i) && Tie(a, b, j, i)
    ensures j < b
  {
    if j == b {
      var n := 2 * (a - i);
      assert n * b == b;
      if n < 1 { RowsApartOrSame(b, n, 0); } else if n > 1 { RowsApartOrSame(b, 2, n); }
    }
  }

  lemma FindLoss(u0: int, u1: int, w0: int, w1: int)
    returns (start: bool, c: int, v: real, e: int, m: int)
    requires 0 <= u0 && 0 <= u1 && 0 < Abs(w1 - w0) < Abs(u1 - u0)
    ensures Loss(u0, u1, w0, w1, start, c, v, e, m)
  {
    var a, b, d, d' := Abs(u1 - u0), Abs(w1 - w0), u1 as real - u0 as real, w1 as real - w0 as real;
    var s, s' := if u0 < u1 then 1 else -1, if w0 < w1 then 1 else -1;
    var j, k;
    start, j, v, k, m := FindCrossing(u0, s, s', a, b, d, d');
    c, e := if w0 < w1 then w0 + j else w0 - j, if u0 < u1 then u0 + k else u0 - k;
    assert c as real - w0 as real == (s' * j) as real;
  }

  // ----- The clips -----

  /** The rows of the view from y on, upwards or downwards. */
  ghost function KeptRows(img: Image, y: int, sign: int): (r: Rect)
    requires img.Valid() && 0 <= y < img.height && Sign(sign)
    ensures VisibleArea(img, r) == r
  {
    if sign == 1 then Rect(0, y, img.width, img.height - y) else Rect(0, 0, img.width, y + 1)
  }

  /** The columns of the view from x on, to the right or to the left. */
  ghost function KeptColumns(img: Image, x: int, sign: int): (r: Rect)
    requires img.Valid() && 0 <= x < img.width && Sign(sign)
    ensures VisibleArea(img, r) == r
  {
    if sign == 1 then Rect(x, 0, img.width - x, img.height) else Rect(0, 0, x + 1, img.height)
  }

  /** Only the first endpoint has to be moved. */
  lemma FirstCut(box: Box, dx: real, dy: real, p0: Point, p1: Point, n: nat)
    requires Aligned(dx, dy, p0, p1) && n >= 1 && !CsOutcode(p0, box).Inside() && CsOutcode(p1, box).Inside()
    requires CsOutcode(Cut(box, dx, dy, p0, CsOutcode(p0, box)), box).Inside()
    ensures Clip(box, dx, dy, p0, p1, n) == Accept(Cut(box, dx, dy, p0, CsOutcode(p0, box)), p1)
  {
  }

  /** Only the second endpoint has to be moved. */
  lemma SecondCut(box: Box, dx: real, dy: real, p0: Point, p1: Point, n: nat)
    requires Aligned(dx, dy, p0, p1) && n >= 1 && CsOutcode(p0, box).Inside() && !CsOutcode(p1, box).Inside()
    requires CsOutcode(Cut(box, dx, dy, p0, CsOutcode(p1, box)), box).Inside()
    ensures Clip(box, dx, dy, p0, p1, n) == Accept(p0, Cut(box, dx, dy, p0, CsOutcode(p1, box)))
  {
  }

  /** The line comes from rows that are cut off and crosses row c first, at v. */
  lemma RowStart(box: Box, dx: real, dy: real, x0: int, y0: int, x1: int, y1: int, c: int, v: real, n: nat)
    requires n >= 1 && dy != 0.0 && Aligned(dx, dy, PixelPoint(x0, y0), PixelPoint(x1, y1))
    requires box.fx <= x0 < box.right && box.fx <= x1 < box.right && box.fy <= y1 < box.top
    requires box.fy <= c < box.top && ((y0 < c && c == box.fy) || (y0 > c && c == box.top - 1))
    requires v == Meet(x0 as real, dx, dy, c as real - y0 as real) && box.fx as real <= v < box.right as real
    ensures Clip(box, dx, dy, PixelPoint(x0, y0), PixelPoint(x1, y1), n)
         == Accept(Point(v, c as real), PixelPoint(x1, y1))
  {
    assert MeetRow(dx, dy, PixelPoint(x0, y0), c as real) == Point(v, c as real);
    CodeOfPixel(box, x0, y0);
    CodeOfPixel(box, x1, y1);
    FirstCut(box, dx, dy, PixelPoint(x0, y0), PixelPoint(x1, y1), n);
  }

  /** The line crosses row c last, at v, before rows that are cut off. */
  lemma RowEnd(box: Box, dx: real, dy: real, x0: int, y0: int, x1: int, y1: int, c: int, v: real, n: nat)
    requires n >= 1 && dy != 0.0 && Aligned(dx, dy, PixelPoint(x0, y0), PixelPoint(x1, y1))
    requires box.fx <= x0 < box.right && box.fx <= x1 < box.right && box.fy <= y0 < box.top
    requires box.fy <= c < box.top && ((y1 < c && c == box.fy) || (y1 > c && c == box.top - 1))
    requires v == Meet(x0 as real, dx, dy, c as real - y0 as real) && box.fx as real <= v < box.right as real
    ensures Clip(box, dx, dy, PixelPoint(x0, y0), PixelPoint(x1, y1), n)
         == Accept(PixelPoint(x0, y0), Point(v, c as real))
  {
    assert MeetRow(dx, dy, PixelPoint(x0, y0), c as real) == Point(v, c as real);
    CodeOfPixel(box, x0, y0);
    CodeOfPixel(box, x1, y1);
    SecondCut(box, dx, dy, PixelPoint(x0, y0), PixelPoint(x1, y1), n);
  }

  /** The line comes from columns that are cut off and crosses column c first, at v. */
  lemma ColumnStart(box: Box, dx: real, dy: real, x0: int, y0: int, x1: int, y1: int, c: int, v: real, n: nat)
    requires n >= 1 && dx != 0.0 && Aligned(dx, dy, PixelPoint(x0, y0), PixelPoint(x1, y1))
    requires box.fy <= y0 < box.top && box.fy <= y1 < box.top && box.fx <= x1 < box.right
    requires box.fx <= c < box.right && ((x0 < c && c == box.fx) || (x0 > c && c == box.right - 1))
    requires v == Meet(y0 as real, dy, dx, c as real - x0 as real) && box.fy as real <= v < box.top as real
    ensures Clip(box, dx, dy, PixelPoint(x0, y0), PixelPoint(x1, y1), n)
         == Accept(Point(c as real, v), PixelPoint(x1, y1))
  {
    assert MeetColumn(dx, dy, PixelPoint(x0, y0), c as real) == Point(c as real, v);
    CodeOfPixel(box, x0, y0);
    CodeOfPixel(box, x1, y1);
    FirstCut(box, dx, dy, PixelPoint(x0, y0), PixelPoint(x1, y1), n);
  }

  /** The line crosses column c last, at v, before columns that are cut off. */
  lemma ColumnEnd(box: Box, dx: real, dy: real, x0: int, y0: int, x1: int, y1: int, c: int, v: real, n: nat)
    requires n >= 1 && dx != 0.0 && Aligned(dx, dy, PixelPoint(x0, y0), PixelPoint(x1, y1))
    requires box.fy <= y0 < box.top && box.fy <= y1 < box.top && box.fx <= x0 < box.right
    requires box.fx <= c < box.right && ((x1 < c && c == box.fx) || (x1 > c && c == box.right - 1))
    requires v == Meet(y0 as real, dy, dx, c as real - x0 as real) && box.fy as real <= v < box.top as real
    ensures Clip(box, dx, dy, PixelPoint(x0, y0), PixelPoint(x1, y1), n)
         == Accept(PixelPoint(x0, y0), Point(c as real, v))
  {
    assert MeetColumn(dx, dy, PixelPoint(x0, y0), c as real) == Point(c as real, v);
    CodeOfPixel(box, x0, y0);
    CodeOfPixel(box, x1, y1);
    SecondCut(box, dx, dy, PixelPoint(x0, y0), PixelPoint(x1, y1), n);
  }

  // ----- The lost pixel -----

  /** The line has the pixel in the view and not under a smaller clip, although that contains it. */
  ghost predicate Lost(img: Image, part: Rect, x0: int32, y0: int32, x1: int32, y1: int32, x: int, y: int) {
    && PartOf(part, View(img.width, img.height)) && LineHas(img, View(img.width, img.height), x0, y0, x1, y1, x, y)
    && part.Contains(x, y) && !LineHas(img, part, x0, y0, x1, y1, x, y)
  }

  lemma IsLost(img: Image, part: Rect, x0: int32, y0: int32, x1: int32, y1: int32, x: int, y: int)
    requires img.Valid() && img.Inside(x0, y0) && img.Inside(x1, y1) && Track(x0, y0, x1, y1).Has(x, y)
    requires VisibleArea(img, part) == part && part.Contains(x, y) && !BoxLineHas(BoxOf(part), x0, y0, x1, y1, x, y)
    ensures Lost(img, part, x0, y0, x1, y1, x, y)
  {
    var view := View(img.width, img.height);
    DirectClipExact(view, img.width, img.height, x0, y0);
    DirectClipExact(view, img.width, img.height, x1, y1);
    VisibleLineUnclipped(img, view, x0, y0, x1, y1, x, y);
  }

  // ----- By rows and by columns -----

  lemma SnapTo(v: real, e: int, lo: int, hi: int)
    requires Round(v) == e && lo <= e < hi
    ensures Snap(v, lo, hi) == e
  {
  }

  lemma SnapWhole(k: int, lo: int, hi: int)
    requires 0 <= lo <= k < hi
    ensures Snap(k as real, lo, hi) == k
  {
    RoundWhole(k);
  }

  /** The track of a crossing and a pixel. */
  lemma CutTrack(box: Box, p: Point, ex: int, ey: int, x: int, y: int)
    requires box.Valid() && 0 <= box.fx && 0 <= box.fy
    requires Round(p.x) == ex && Round(p.y) == ey
    requires box.fx <= ex < box.right && box.fy <= ey < box.top && box.fx <= x < box.right && box.fy <= y < box.top
    ensures TrackOf(box, p, PixelPoint(x, y)) == Track(ex, ey, x, y)
    ensures TrackOf(box, PixelPoint(x, y), p) == Track(x, y, ex, ey)
  {
    SnapTo(p.x, ex, box.fx, box.right);
    SnapTo(p.y, ey, box.fy, box.top);
    SnapWhole(x, box.fx, box.right);
    SnapWhole(y, box.fy, box.top);
  }

  /** A pixel off the track is not painted. */
  lemma NotPainted(box: Box, x0: int32, y0: int32, x1: int32, y1: int32, t: Track, x: int, y: int)
    requires var r := ClippedLine(box, x0, y0, x1, y1); r.Accept? ==> TrackOf(box, r.p0, r.p1) == t
    requires !t.Has(x, y)
    ensures !BoxLineHas(box, x0, y0, x1, y1, x, y)
  {
  }

  /** A path has no pixel past its ends. */
  lemma PastEnds(l: Track, x: int, y: int)
    requires x < Min(l.x0, l.x1) || x > Max(l.x0, l.x1) || y < Min(l.y0, l.y1) || y > Max(l.y0, l.y1)
    ensures !l.Has(x, y)
  {
    if l.Has(x, y) { PathInBox(l, x, y); }
  }

  /** Cut at row c where it starts, the line has no pixel on the far side of e. */
  lemma RowStartClipped(box: Box, x0: int32, y0: int32, x1: int32, y1: int32,
                     c: int, v: real, e: int, x: int, y: int)
    requires box.Valid() && 0 <= box.fx && 0 <= box.fy
    requires y0 != y1 && Round(v) == e && box.fx <= e < box.right && box.fx as real <= v < box.right as real
    requires v == Meet(x0 as real, x1 as real - x0 as real, y1 as real - y0 as real, c as real - y0 as real)
    requires box.fx <= x0 < box.right && box.fx <= x1 < box.right && box.fy <= y1 < box.top
    requires box.fy <= c < box.top && ((y0 < c && c == box.fy) || (y0 > c && c == box.top - 1))
    requires x < Min(e, x1) || x > Max(e, x1)
    ensures !BoxLineHas(box, x0, y0, x1, y1, x, y)
  {
    var t := Track(e, c, x1, y1);
    RowStart(box, x1 as real - x0 as real, y1 as real - y0 as real, x0, y0, x1, y1, c, v, Rounds());
    RoundWhole(c);
    CutTrack(box, Point(v, c as real), e, c, x1, y1);
    PastEnds(t, x, y);
    NotPainted(box, x0, y0, x1, y1, t, x, y);
  }

  /** Cut at row c where it ends, the line has no pixel on the far side of e. */
  lemma RowEndClipped(box: Box, x0: int32, y0: int32, x1: int32, y1: int32,
                     c: int, v: real, e: int, x: int, y: int)
    requires box.Valid() && 0 <= box.fx && 0 <= box.fy
    requires y0 != y1 && Round(v) == e && box.fx <= e < box.right && box.fx as real <= v < box.right as real
    requires v == Meet(x0 as real, x1 as real - x0 as real, y1 as real - y0 as real, c as real - y0 as real)
    requires box.fx <= x0 < box.right && box.fx <= x1 < box.right && box.fy <= y0 < box.top
    requires box.fy <= c < box.top && ((y1 < c && c == box.fy) || (y1 > c && c == box.top - 1))
    requires x < Min(e, x0) || x > Max(e, x0)
    ensures !BoxLineHas(box, x0, y0, x1, y1, x, y)
  {
    var t := Track(x0, y0, e, c);
    RowEnd(box, x1 as real - x0 as real, y1 as real - y0 as real, x0, y0, x1, y1, c, v, Rounds());
    RoundWhole(c);
    CutTrack(box, Point(v, c as real), e, c, x0, y0);
    PastEnds(t, x, y);
    NotPainted(box, x0, y0, x1, y1, t, x, y);
  }

  lemma RowStep(l: Track, c: int, m: int, x: int, y: int)
    requires 0 < l.Ady() < l.Adx() && 0 <= m <= l.Adx()
    requires Minor(m, l.Ady(), l.Adx()) == Abs(c - l.y0) && if l.y0 < l.y1 then l.y0 <= c else l.y0 >= c
    requires x == (if l.x0 < l.x1 then l.x0 + m else l.x0 - m) && y == c
    ensures l.Has(x, y)
  {
    StepOfStep(l, m);
    assert l.X(m) == x && l.Y(m) == y;
  }

  /** A line with the larger extent along the rows loses a pixel to a clip at some row. */
  lemma RowLoss(img: Image, x0: int32, y0: int32, x1: int32, y1: int32) returns (part: Rect, x: int, y: int)
    requires img.Valid() && img.Inside(x0, y0) && img.Inside(x1, y1)
    requires 0 < Abs(y1 - y0) < Abs(x1 - x0)
    ensures Lost(img, part, x0, y0, x1, y1, x, y)
  {
    var start, c, v, e, m := FindLoss(x0, x1, y0, y1);
    part := KeptRows(img, c, if start == (y0 < y1) then 1 else -1);
    x, y := if x0 < x1 then x0 + m else x0 - m, c;
    RowStep(Track(x0, y0, x1, y1), c, m, x, y);
    if start {
      RowStartClipped(BoxOf(part), x0, y0, x1, y1, c, v, e, x, y);
    } else {
      RowEndClipped(BoxOf(part), x0, y0, x1, y1, c, v, e, x, y);
    }
    IsLost(img, part, x0, y0, x1, y1, x, y);
  }

  /** Cut at column c where it starts, the line has no pixel on the far side of e. */
  lemma ColumnStartClipped(box: Box, x0: int32, y0: int32, x1: int32, y1: int32,
                     c: int, v: real, e: int, x: int, y: int)
    requires box.Valid() && 0 <= box.fx && 0 <= box.fy
    requires x0 != x1 && Round(v) == e && box.fy <= e < box.top && box.fy as real <= v < box.top as real
    requires v == Meet(y0 as real, y1 as real - y0 as real, x1 as real - x0 as real, c as real - x0 as real)
    requires box.fy <= y0 < box.top && box.fy <= y1 < box.top && box.fx <= x1 < box.right
    requires box.fx <= c < box.right && ((x0 < c && c == box.fx) || (x0 > c && c == box.right - 1))
    requires y < Min(e, y1) || y > Max(e, y1)
    ensures !BoxLineHas(box, x0, y0, x1, y1, x, y)
  {
    var t := Track(c, e, x1, y1);
    ColumnStart(box, x1 as real - x0 as real, y1 as real - y0 as real, x0, y0, x1, y1, c, v, Rounds());
    RoundWhole(c);
    CutTrack(box, Point(c as real, v), c, e, x1, y1);
    PastEnds(t, x, y);
    NotPainted(box, x0, y0, x1, y1, t, x, y);
  }

  /** Cut at column c where it ends, the line has no pixel on the far side of e. */
  lemma ColumnEndClipped(box: Box, x0: int32, y0: int32, x1: int32, y1: int32,
                     c: int, v: real, e: int, x: int, y: int)
    requires box.Valid() && 0 <= box.fx && 0 <= box.fy
    requires x0 != x1 && Round(v) == e && box.fy <= e < box.top && box.fy as real <= v < box.top as real
    requires v == Meet(y0 as real, y1 as real - y0 as real, x1 as real - x0 as real, c as real - x0 as real)
    requires box.fy <= y0 < box.top && box.fy <= y1 < box.top && box.fx <= x0 < box.right
    requires box.fx <= c < box.right && ((x1 < c && c == box.fx) || (x1 > c && c == box.right - 1))
    requires y < Min(e, y0) || y > Max(e, y0)
    ensures !BoxLineHas(box, x0, y0, x1, y1, x, y)
  {
    var t := Track(x0, y0, c, e);
    ColumnEnd(box, x1 as real - x0 as real, y1 as real - y0 as real, x0, y0, x1, y1, c, v, Rounds());
    RoundWhole(c);
    CutTrack(box, Point(c as real, v), c, e, x0, y0);
    PastEnds(t, x, y);
    NotPainted(box, x0, y0, x1, y1, t, x, y);
  }

  lemma ColumnStep(l: Track, c: int, m: int, x: int, y: int)
    requires 0 < l.Adx() < l.Ady() && 0 <= m <= l.Ady()
    requires Minor(m, l.Adx(), l.Ady()) == Abs(c - l.x0) && if l.x0 < l.x1 then l.x0 <= c else l.x0 >= c
    requires y == (if l.y0 < l.y1 then l.y0 + m else l.y0 - m) && x == c
    ensures l.Has(x, y)
  {
    StepOfStep(l, m);
    assert l.X(m) == x && l.Y(m) == y;
  }

  /** A line with the larger extent along the columns loses a pixel to a clip at some column. */
  lemma ColumnLoss(img: Image, x0: int32, y0: int32, x1: int32, y1: int32) returns (part: Rect, x: int, y: int)
    requires img.Valid() && img.Inside(x0, y0) && img.Inside(x1, y1)
    requires 0 < Abs(x1 - x0) < Abs(y1 - y0)
    ensures Lost(img, part, x0, y0, x1, y1, x, y)
  {
    var start, c, v, e, m := FindLoss(y0, y1, x0, x1);
    part := KeptColumns(img, c, if start == (x0 < x1) then 1 else -1);
    x, y := c, if y0 < y1 then y0 + m else y0 - m;
    ColumnStep(Track(x0, y0, x1, y1), c, m, x, y);
    if start {
      ColumnStartClipped(BoxOf(part), x0, y0, x1, y1, c, v, e, x, y);
    } else {
      ColumnEndClipped(BoxOf(part), x0, y0, x1, y1, c, v, e, x, y);
    }
    IsLost(img, part, x0, y0, x1, y1, x, y);
  }
}
