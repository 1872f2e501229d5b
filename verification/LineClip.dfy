/** The Cohen-Sutherland clip of `gfx_line`, in exact real arithmetic. */
module LineClip {
  import opened Machine

  datatype Point = Point(x: real, y: real)

  /** The visible rectangle: columns [fx, right), rows [fy, top). */
  datatype Box = Box(fx: int, fy: int, right: int, top: int) {
    predicate Valid() {
      fx < right && fy < top
    }

    /** The closed rectangle of the visible pixel centres. */
    predicate Holds(p: Point) {
      fx as real <= p.x <= (right - 1) as real && fy as real <= p.y <= (top - 1) as real
    }
  }

  datatype Outcode = Outcode(left: bool, right: bool, bottom: bool, top: bool) {
    predicate Inside() {
      !left && !right && !bottom && !top
    }

    predicate Shares(c: Outcode) {
      (left && c.left) || (right && c.right) || (bottom && c.bottom) || (top && c.top)
    }
  }

  /** `cs_outcode`. */
  function CsOutcode(p: Point, box: Box): Outcode {
    Outcode(p.x < box.fx as real, p.x >= box.right as real, p.y < box.fy as real, p.y >= box.top as real)
  }

  /** Where the line through `base` meets the column x = c. */
  function MeetColumn(dx: real, dy: real, base: Point, c: real): Point
    requires dx != 0.0
  {
    Point(c, base.y + dy * (c - base.x) / dx)
  }

  /** Where the line through `base` meets the row y = c. */
  function MeetRow(dx: real, dy: real, base: Point, c: real): Point
    requires dy != 0.0
  {
    Point(base.x + dx * (c - base.y) / dy, c)
  }

  /** Where the line through `base` meets the first edge named in `code`. */
  function Cut(box: Box, dx: real, dy: real, base: Point, code: Outcode): Point
    requires !code.Inside()
    requires if code.left || code.right then dx != 0.0 else dy != 0.0
  {
    if code.left then MeetColumn(dx, dy, base, box.fx as real)
    else if code.right then MeetColumn(dx, dy, base, (box.right - 1) as real)
    else if code.bottom then MeetRow(dx, dy, base, box.fy as real)
    else MeetRow(dx, dy, base, (box.top - 1) as real)
  }

  /** Four edges times two endpoints. */
  function Rounds(): nat { 8 }

  datatype Clipped = Accept(p0: Point, p1: Point) | Reject | GaveUp

  /** A direction without extent on an axis leaves no distance between the endpoints there. */
  predicate Aligned(dx: real, dy: real, p0: Point, p1: Point) {
    (dx == 0.0 ==> p0.x == p1.x) && (dy == 0.0 ==> p0.y == p1.y)
  }

  /** At most `n` rounds of the clip loop, then the defensive test behind it. That this is
      well-formed is the absence of divisions by zero. */
  function Clip(box: Box, dx: real, dy: real, p0: Point, p1: Point, n: nat): Clipped
    requires Aligned(dx, dy, p0, p1)
    decreases n
  {
    var code0, code1 := CsOutcode(p0, box), CsOutcode(p1, box);
    if code0.Inside() && code1.Inside() then Accept(p0, p1)
    else if n == 0 then GaveUp
    else if code0.Shares(code1) then Reject
    else if !code0.Inside() then Clip(box, dx, dy, Cut(box, dx, dy, p0, code0), p1, n - 1)
    else Clip(box, dx, dy, p0, Cut(box, dx, dy, p0, code1), n - 1)
  }

  /** The loop of `gfx_line`. */
  method ClipLine(box: Box, x0: int32, y0: int32, x1: int32, y1: int32) returns (r: Clipped)
    ensures var dx, dy := x1 as real - x0 as real, y1 as real - y0 as real;
            r == Clip(box, dx, dy, Point(x0 as real, y0 as real), Point(x1 as real, y1 as real), Rounds())
  {
    var p0, p1 := Point(x0 as real, y0 as real), Point(x1 as real, y1 as real);
    var dx, dy := p1.x - p0.x, p1.y - p0.y;
    var iter := 0;
    ghost var r0 := Clip(box, dx, dy, p0, p1, Rounds());
    while iter < Rounds()
      invariant 0 <= iter <= Rounds()
      invariant Aligned(dx, dy, p0, p1)
      invariant Clip(box, dx, dy, p0, p1, Rounds() - iter) == r0
    {
      var code0, code1 := CsOutcode(p0, box), CsOutcode(p1, box);
      if code0.Inside() && code1.Inside() { break; }
      if code0.Shares(code1) { return Reject; }
      var code := if !code0.Inside() then code0 else code1;
      var q := Cut(box, dx, dy, p0, code);
      if !code0.Inside() { p0 := q; } else { p1 := q; }
      iter := iter + 1;
    }
    var code0, code1 := CsOutcode(p0, box), CsOutcode(p1, box);
    if !(code0.Inside() && code1.Inside()) { return GaveUp; }
    return Accept(p0, p1);
  }

  // ----- The segment by its parameter -----

  /** The segment from `a` in direction (dx, dy), parameter 0 to 1. */
  datatype Segment = Segment(a: Point, dx: real, dy: real) {
    function At(t: real): Point {
      Point(a.x + dx * t, a.y + dy * t)
    }
  }

  ghost predicate Covers(s: Segment, box: Box, t0: real, t1: real) {
    forall t {:trigger s.At(t)} :: 0.0 <= t <= 1.0 && box.Holds(s.At(t)) ==> t0 <= t <= t1
  }

  /** The values u and v of a coordinate a + d * t at two parameters are ordered as the parameters. */
  lemma Monotone(a: real, d: real, t: real, r: real, u: real, v: real)
    requires u == a + d * t && v == a + d * r && t < r
    ensures (d > 0.0 ==> u < v) && (d < 0.0 ==> u > v) && (d == 0.0 ==> u == v)
  {
    var e := r - t;
    assert v - u == d * e;
    if d > 0.0 { assert d * e > 0.0; }
    if d < 0.0 { assert d * e < 0.0; }
  }

  /** Of two points of the segment, the coordinates are ordered as the parameters are. */
  lemma After(s: Segment, t: real, r: real)
    requires t < r
    ensures var p, q := s.At(t), s.At(r);
            && (s.dx > 0.0 ==> p.x < q.x) && (s.dx < 0.0 ==> p.x > q.x) && (s.dx == 0.0 ==> p.x == q.x)
            && (s.dy > 0.0 ==> p.y < q.y) && (s.dy < 0.0 ==> p.y > q.y) && (s.dy == 0.0 ==> p.y == q.y)
  {
    var p, q := s.At(t), s.At(r);
    Monotone(s.a.x, s.dx, t, r, p.x, q.x);
    Monotone(s.a.y, s.dy, t, r, p.y, q.y);
  }

  lemma InBetween(s: Segment, t0: real, t: real, t1: real)
    requires t0 <= t <= t1
    ensures s.At(t0).x <= s.At(t).x <= s.At(t1).x || s.At(t0).x >= s.At(t).x >= s.At(t1).x
    ensures s.At(t0).y <= s.At(t).y <= s.At(t1).y || s.At(t0).y >= s.At(t).y >= s.At(t1).y
  {
    if t0 < t { After(s, t0, t); }
    if t < t1 { After(s, t, t1); }
  }

  /** The parameter of the point where coordinate (a, d) takes the value c. */
  lemma CutParameter(a: real, d: real, t0: real, c: real, a': real, d': real, u: real, v: real) returns (t: real)
    requires d != 0.0 && u == a + d * t0 && v == a' + d' * t0
    ensures a + d * t == c
    ensures a' + d' * t == v + d' * (c - u) / d
  {
    var q := (c - u) / d;
    t := t0 + q;
    assert d * q == c - u;
    assert d * t == d * t0 + d * q;
    assert d' * q == d' * (c - u) / d;
    assert d' * t == d' * t0 + d' * q;
  }

  /** The point of the segment's line with the given x. */
  lemma AtColumn(s: Segment, t0: real, base: Point, c: real) returns (t: real)
    requires s.dx != 0.0 && base == s.At(t0)
    ensures s.At(t) == MeetColumn(s.dx, s.dy, base, c)
  {
    t := CutParameter(s.a.x, s.dx, t0, c, s.a.y, s.dy, base.x, base.y);
  }

  /** The point of the segment's line with the given y. */
  lemma AtRow(s: Segment, t0: real, base: Point, c: real) returns (t: real)
    requires s.dy != 0.0 && base == s.At(t0)
    ensures s.At(t) == MeetRow(s.dx, s.dy, base, c)
  {
    t := CutParameter(s.a.y, s.dy, t0, c, s.a.x, s.dx, base.y, base.x);
  }

  /** Parameters are ordered as coordinates are. */
  lemma ByX(s: Segment, t: real, r: real)
    requires s.At(t).x < s.At(r).x
    ensures s.dx != 0.0 && (s.dx > 0.0 ==> t < r) && (s.dx < 0.0 ==> r < t)
  {
    if t < r { After(s, t, r); }
    if r < t { After(s, r, t); }
  }

  lemma ByY(s: Segment, t: real, r: real)
    requires s.At(t).y < s.At(r).y
    ensures s.dy != 0.0 && (s.dy > 0.0 ==> t < r) && (s.dy < 0.0 ==> r < t)
  {
    if t < r { After(s, t, r); }
    if r < t { After(s, r, t); }
  }

  /** Points with the same x on a line that is not vertical coincide. */
  lemma SameColumn(s: Segment, t: real, r: real)
    requires s.dx != 0.0 && s.At(t).x == s.At(r).x
    ensures t == r
  {
    if t < r { After(s, t, r); }
    if r < t { After(s, r, t); }
  }

  lemma SameRow(s: Segment, t: real, r: real)
    requires s.dy != 0.0 && s.At(t).y == s.At(r).y
    ensures t == r
  {
    if t < r { After(s, t, r); }
    if r < t { After(s, r, t); }
  }

  // ----- What a result promises -----

  /** Both endpoints are visible points of the segment, and no visible point is outside them. */
  ghost predicate Endpoints(s: Segment, box: Box, p0: Point, p1: Point, t0: real, t1: real) {
    && 0.0 <= t0 <= 1.0 && 0.0 <= t1 <= 1.0 && p0 == s.At(t0) && p1 == s.At(t1)
    && CsOutcode(p0, box).Inside() && CsOutcode(p1, box).Inside()
    && Covers(s, box, t0, t1)
  }

  ghost predicate Misses(s: Segment, box: Box) {
    forall t {:trigger s.At(t)} :: 0.0 <= t <= 1.0 ==> !box.Holds(s.At(t))
  }

  /** Never gives up, rejects only what is invisible, and accepts without losing anything. */
  ghost predicate Good(s: Segment, box: Box, r: Clipped) {
    match r
    case GaveUp => false
    case Reject => Misses(s, box)
    case Accept(p0, p1) => exists t0, t1 :: Endpoints(s, box, p0, p1, t0, t1)
  }

  /** The state of the loop: both points on the segment, nothing visible outside them. */
  ghost predicate State(s: Segment, box: Box, t0: real, t1: real) {
    box.Valid() && 0.0 <= t0 <= 1.0 && 0.0 <= t1 <= 1.0 && Covers(s, box, t0, t1)
  }

  ghost function Rest(s: Segment, box: Box, t0: real, t1: real, n: nat): Clipped {
    Clip(box, s.dx, s.dy, s.At(t0), s.At(t1), n)
  }

  lemma Done(s: Segment, box: Box, t0: real, t1: real, n: nat)
    requires State(s, box, t0, t1)
    requires CsOutcode(s.At(t0), box).Inside() && CsOutcode(s.At(t1), box).Inside()
    ensures Good(s, box, Rest(s, box, t0, t1, n))
  {
    assert Endpoints(s, box, s.At(t0), s.At(t1), t0, t1);
  }

  /** A shared region leaves nothing visible in between. */
  lemma Rejected(s: Segment, box: Box, t0: real, t1: real, n: nat)
    requires State(s, box, t0, t1) && n > 0
    requires CsOutcode(s.At(t0), box).Shares(CsOutcode(s.At(t1), box))
    ensures Good(s, box, Rest(s, box, t0, t1, n))
  {
    forall t {:trigger s.At(t)} | 0.0 <= t <= 1.0
      ensures !box.Holds(s.At(t))
    {
      if t0 <= t <= t1 {
        InBetween(s, t0, t, t1);
      }
    }
  }

  // ----- Moving an endpoint keeps everything visible -----

  /** Everything visible comes after `t`. */
  lemma NothingBefore(s: Segment, box: Box, t0: real, t1: real, t: real)
    requires Covers(s, box, t0, t1)
    requires || (s.dx > 0.0 && s.At(t).x <= box.fx as real) || (s.dx < 0.0 && s.At(t).x >= (box.right - 1) as real)
             || (s.dy > 0.0 && s.At(t).y <= box.fy as real) || (s.dy < 0.0 && s.At(t).y >= (box.top - 1) as real)
    ensures Covers(s, box, t, t1)
  {
    forall r {:trigger s.At(r)} | 0.0 <= r <= 1.0 && box.Holds(s.At(r))
      ensures t <= r
    {
      if r < t { After(s, r, t); }
    }
  }

  /** Everything visible comes before `t`. */
  lemma NothingAfter(s: Segment, box: Box, t0: real, t1: real, t: real)
    requires Covers(s, box, t0, t1)
    requires || (s.dx < 0.0 && s.At(t).x <= box.fx as real) || (s.dx > 0.0 && s.At(t).x >= (box.right - 1) as real)
             || (s.dy < 0.0 && s.At(t).y <= box.fy as real) || (s.dy > 0.0 && s.At(t).y >= (box.top - 1) as real)
    ensures Covers(s, box, t0, t)
  {
    forall r {:trigger s.At(r)} | 0.0 <= r <= 1.0 && box.Holds(s.At(r))
      ensures r <= t
    {
      if t < r { After(s, t, r); }
    }
  }

  // ----- Stages of the loop -----

  /** The segment between two integer points. */
  function SegmentOf(x0: int, y0: int, x1: int, y1: int): Segment {
    Segment(Point(x0 as real, y0 as real), x1 as real - x0 as real, y1 as real - y0 as real)
  }

  /** The first endpoint was moved to the left or right edge (the last visible column). */
  ghost predicate OnSide(s: Segment, box: Box, t0: real) {
    || (s.At(t0).x == box.fx as real && s.a.x < box.fx as real)
    || (s.At(t0).x == (box.right - 1) as real && s.a.x >= box.right as real)
  }

  /** The first endpoint was moved to the bottom or top edge (the last visible row). */
  ghost predicate OnEnd(s: Segment, box: Box, t0: real) {
    || (s.At(t0).y == box.fy as real && s.a.y < box.fy as real)
    || (s.At(t0).y == (box.top - 1) as real && s.a.y >= box.top as real)
  }

  /** One round that moves the second endpoint from parameter t1 to t. */
  lemma MoveSecond(s: Segment, box: Box, t0: real, t1: real, n: nat) returns (t: real)
    requires box.Valid() && n >= 1
    requires CsOutcode(s.At(t0), box).Inside() && !CsOutcode(s.At(t1), box).Inside()
    ensures Rest(s, box, t0, t1, n) == Rest(s, box, t0, t, n - 1)
    ensures var c := CsOutcode(s.At(t1), box);
            if c.left then s.At(t).x == box.fx as real else if c.right then s.At(t).x == (box.right - 1) as real
            else if c.bottom then s.At(t).y == box.fy as real else s.At(t).y == (box.top - 1) as real
  {
    var c := CsOutcode(s.At(t1), box);
    HasExtent(s, t0, t1);
    t := CutParameterOf(s, box, t0, s.At(t0), c);
  }

  /** One round that moves the first endpoint from parameter t0 to t. */
  lemma MoveFirst(s: Segment, box: Box, t0: real, t1: real, n: nat) returns (t: real)
    requires box.Valid() && n >= 1
    requires !CsOutcode(s.At(t0), box).Inside() && !CsOutcode(s.At(t0), box).Shares(CsOutcode(s.At(t1), box))
    ensures Rest(s, box, t0, t1, n) == Rest(s, box, t, t1, n - 1)
    ensures var c := CsOutcode(s.At(t0), box);
            if c.left then s.At(t).x == box.fx as real else if c.right then s.At(t).x == (box.right - 1) as real
            else if c.bottom then s.At(t).y == box.fy as real else s.At(t).y == (box.top - 1) as real
  {
    var c := CsOutcode(s.At(t0), box);
    HasExtent(s, t0, t1);
    t := CutParameterOf(s, box, t0, s.At(t0), c);
  }

  lemma HasExtent(s: Segment, t: real, r: real)
    ensures s.At(t).x != s.At(r).x ==> s.dx != 0.0
    ensures s.At(t).y != s.At(r).y ==> s.dy != 0.0
  {
  }

  /** The cut is a point of the line. */
  lemma CutParameterOf(s: Segment, box: Box, t0: real, base: Point, c: Outcode) returns (t: real)
    requires !c.Inside() && base == s.At(t0)
    requires if c.left || c.right then s.dx != 0.0 else s.dy != 0.0
    ensures s.At(t) == Cut(box, s.dx, s.dy, base, c)
  {
    if c.left {
      t := AtColumn(s, t0, base, box.fx as real);
    } else if c.right {
      t := AtColumn(s, t0, base, (box.right - 1) as real);
    } else if c.bottom {
      t := AtRow(s, t0, base, box.fy as real);
    } else {
      t := AtRow(s, t0, base, (box.top - 1) as real);
    }
  }

  /** The second endpoint overshot the first, which sits on the edge it would be cut at next. */
  lemma Overshot(s: Segment, box: Box, t0: real, t1: real, n: nat)
    requires State(s, box, t0, t1) && t1 < t0 && n >= 1
    requires CsOutcode(s.At(t0), box).Inside()
    requires var c := CsOutcode(s.At(t1), box);
             || c.Inside()
             || (c == Outcode(true, false, false, false) && s.At(t0).x == box.fx as real)
             || (c == Outcode(false, true, false, false) && s.At(t0).x == (box.right - 1) as real)
             || (c == Outcode(false, false, true, false) && s.At(t0).y == box.fy as real)
             || (c == Outcode(false, false, false, true) && s.At(t0).y == (box.top - 1) as real)
    ensures Good(s, box, Rest(s, box, t0, t1, n))
  {
    var p0, c := s.At(t0), CsOutcode(s.At(t1), box);
    if c.Inside() {
      Done(s, box, t0, t1, n);
    } else {
      assert Covers(s, box, t0, t0);
      Done(s, box, t0, t0, n - 1);
      CutAtSelf(box, s.dx, s.dy, p0, c);
    }
  }

  /** A point that lies on an edge is where its line meets the edge. */
  lemma CutAtSelf(box: Box, dx: real, dy: real, p: Point, c: Outcode)
    requires !c.Inside()
    requires if c.left || c.right then dx != 0.0 else dy != 0.0
    requires if c.left then p.x == box.fx as real else if c.right then p.x == (box.right - 1) as real
             else if c.bottom then p.y == box.fy as real else p.y == (box.top - 1) as real
    ensures Cut(box, dx, dy, p, c) == p
  {
  }

  /** The second endpoint lies in a visible column, no earlier than the first. */
  lemma SecondInColumn(s: Segment, box: Box, t0: real, t1: real, n: nat)
    requires State(s, box, t0, t1) && t0 <= t1
    requires s.a.y < box.top as real ==> s.a.y <= (box.top - 1) as real
    requires CsOutcode(s.At(t0), box).Inside()
    requires box.fx as real <= s.At(t1).x <= (box.right - 1) as real
    requires (s.At(t0).y <= (box.top - 1) as real && n >= 1) || (OnSide(s, box, t0) && n >= 2)
    ensures Good(s, box, Rest(s, box, t0, t1, n))
  {
    var p0, p1 := s.At(t0), s.At(t1);
    var c := CsOutcode(p1, box);
    if c.Inside() {
      Done(s, box, t0, t1, n);
    } else {
      var t := MoveSecond(s, box, t0, t1, n);
      if c.bottom {
        ByY(s, t1, t0);
        ByY(s, t1, t);
        if s.At(t).y < p0.y { ByY(s, t, t0); } else { SameRow(s, t, t0); }
        NothingAfter(s, box, t0, t1, t);
        InBetween(s, t0, t, t1);
        Done(s, box, t0, t, n - 1);
      } else {
        ByY(s, t0, t1);
        ByY(s, t, t1);
        NothingAfter(s, box, t0, t1, t);
        if p0.y <= (box.top - 1) as real {
          if p0.y < s.At(t).y { ByY(s, t0, t); } else { SameRow(s, t0, t); }
          InBetween(s, t0, t, t1);
          Done(s, box, t0, t, n - 1);
        } else {
          OvershotTop(s, box, t0, t, n - 1);
        }
      }
    }
  }

  /** Cut to the last row, the second endpoint ends up before a first endpoint on a side. */
  lemma OvershotTop(s: Segment, box: Box, t0: real, t: real, n: nat)
    requires box.Valid() && 0.0 <= t0 <= 1.0 && Covers(s, box, t0, t) && n >= 1
    requires s.a.y < box.top as real ==> s.a.y <= (box.top - 1) as real
    requires CsOutcode(s.At(t0), box).Inside() && OnSide(s, box, t0)
    requires s.dy > 0.0 && s.At(t).y == (box.top - 1) as real < s.At(t0).y
    ensures Good(s, box, Rest(s, box, t0, t, n))
  {
    ByY(s, t, t0);
    assert s.At(0.0) == s.a;
    if 0.0 < t0 { After(s, 0.0, t0); }
    if t < 0.0 { After(s, t, 0.0); }
    if s.a.x < box.fx as real {
      ByX(s, 0.0, t0);
    } else {
      ByX(s, t0, 0.0);
    }
    After(s, t, t0);
    Overshot(s, box, t0, t, n);
  }

  /** Cut to the last column, the second endpoint ends up before a first endpoint on the
      bottom or top edge. */
  lemma OvershotRight(s: Segment, box: Box, t0: real, t: real, n: nat)
    requires box.Valid() && 0.0 <= t0 <= 1.0 && Covers(s, box, t0, t) && n >= 1
    requires s.a.x < box.right as real ==> s.a.x <= (box.right - 1) as real
    requires CsOutcode(s.At(t0), box).Inside() && OnEnd(s, box, t0)
    requires s.dx > 0.0 && s.At(t).x == (box.right - 1) as real < s.At(t0).x
    ensures Good(s, box, Rest(s, box, t0, t, n))
  {
    ByX(s, t, t0);
    assert s.At(0.0) == s.a;
    if 0.0 < t0 { After(s, 0.0, t0); }
    if t < 0.0 { After(s, t, 0.0); }
    if s.a.y < box.fy as real {
      ByY(s, 0.0, t0);
    } else {
      ByY(s, t0, 0.0);
    }
    After(s, t, t0);
    Overshot(s, box, t0, t, n);
  }

  /** Both ends of the segment are pixels: one that is not past the edge is in the last
      visible column or row at most. */
  ghost predicate OnGrid(s: Segment, box: Box) {
    var b := s.At(1.0);
    && (s.a.x < box.right as real ==> s.a.x <= (box.right - 1) as real)
    && (s.a.y < box.top as real ==> s.a.y <= (box.top - 1) as real)
    && (b.x < box.right as real ==> b.x <= (box.right - 1) as real)
    && (b.y < box.top as real ==> b.y <= (box.top - 1) as real)
  }

  /** The first endpoint is visible, the second untouched. */
  lemma SecondFresh(s: Segment, box: Box, t0: real, n: nat)
    requires State(s, box, t0, 1.0) && OnGrid(s, box)
    requires CsOutcode(s.At(t0), box).Inside()
    requires ((t0 == 0.0 || OnEnd(s, box, t0)) && n >= 2) || (OnSide(s, box, t0) && n >= 3)
    ensures Good(s, box, Rest(s, box, t0, 1.0, n))
  {
    var p0, b := s.At(t0), s.At(1.0);
    var c := CsOutcode(b, box);
    assert s.At(0.0) == s.a;
    if !c.left && !c.right {
      SecondInColumn(s, box, t0, 1.0, n);
    } else {
      var t := MoveSecond(s, box, t0, 1.0, n);
      if c.left {
        ByX(s, 1.0, t0);
        ByX(s, 1.0, t);
        if s.At(t).x < p0.x { ByX(s, t, t0); } else { SameColumn(s, t, t0); }
        NothingAfter(s, box, t0, 1.0, t);
        SecondInColumn(s, box, t0, t, n - 1);
      } else {
        ByX(s, t0, 1.0);
        ByX(s, t, 1.0);
        NothingAfter(s, box, t0, 1.0, t);
        if p0.x <= (box.right - 1) as real {
          if p0.x < s.At(t).x { ByX(s, t0, t); } else { SameColumn(s, t0, t); }
          SecondInColumn(s, box, t0, t, n - 1);
        } else {
          OvershotRight(s, box, t0, t, n - 1);
        }
      }
    }
  }

  /** The first endpoint is in a visible row on the bottom or top edge: it is visible, or out
      on the side where the second one is out too. */
  lemma FirstOnEnd(s: Segment, box: Box, t0: real, n: nat)
    requires State(s, box, t0, 1.0) && OnGrid(s, box) && OnEnd(s, box, t0) && n >= 2
    requires s.At(t0).x < box.fx as real ==> s.At(1.0).x < box.fx as real
    requires s.At(t0).x >= box.right as real ==> s.At(1.0).x >= box.right as real
    ensures Good(s, box, Rest(s, box, t0, 1.0, n))
  {
    if CsOutcode(s.At(t0), box).Inside() {
      SecondFresh(s, box, t0, n);
    } else {
      Rejected(s, box, t0, 1.0, n);
    }
  }

  /** Moving the first endpoint to the bottom or top edge. */
  lemma FirstToEnd(s: Segment, box: Box, t0: real, n: nat)
    requires State(s, box, t0, 1.0) && OnGrid(s, box) && n >= 3
    requires var c := CsOutcode(s.At(t0), box);
             !c.left && !c.right && !c.Inside() && !c.Shares(CsOutcode(s.At(1.0), box))
    ensures Good(s, box, Rest(s, box, t0, 1.0, n))
  {
    var p0, b := s.At(t0), s.At(1.0);
    var t := MoveFirst(s, box, t0, 1.0, n);
    assert s.At(0.0) == s.a;
    if p0.y < box.fy as real {
      ByY(s, t0, t);
      ByY(s, t0, 1.0);
      if s.At(t).y < b.y { ByY(s, t, 1.0); } else { SameRow(s, t, 1.0); }
    } else {
      ByY(s, t, t0);
      ByY(s, 1.0, t0);
      if b.y < s.At(t).y { ByY(s, 1.0, t); } else { SameRow(s, t, 1.0); }
    }
    NothingBefore(s, box, t0, 1.0, t);
    InBetween(s, 0.0, t0, t);
    InBetween(s, t0, t, 1.0);
    FirstOnEnd(s, box, t, n - 1);
  }

  /** The first endpoint is on the left edge or in the last column. */
  lemma FirstOnSide(s: Segment, box: Box, t0: real, n: nat)
    requires State(s, box, t0, 1.0) && OnGrid(s, box) && OnSide(s, box, t0) && n >= 3
    ensures Good(s, box, Rest(s, box, t0, 1.0, n))
  {
    var c := CsOutcode(s.At(t0), box);
    if c.Inside() {
      SecondFresh(s, box, t0, n);
    } else if c.Shares(CsOutcode(s.At(1.0), box)) {
      Rejected(s, box, t0, 1.0, n);
    } else {
      FirstToEnd(s, box, t0, n);
    }
  }

  /** From the start of the loop, four rounds are enough. */
  lemma FirstFresh(s: Segment, box: Box, n: nat)
    requires box.Valid() && OnGrid(s, box) && n >= 4
    ensures Good(s, box, Rest(s, box, 0.0, 1.0, n))
  {
    var a, b := s.At(0.0), s.At(1.0);
    var c := CsOutcode(a, box);
    assert a == s.a;
    if c.Inside() {
      SecondFresh(s, box, 0.0, n);
    } else if c.Shares(CsOutcode(b, box)) {
      Rejected(s, box, 0.0, 1.0, n);
    } else if c.left || c.right {
      var t := MoveFirst(s, box, 0.0, 1.0, n);
      if c.left {
        ByX(s, 0.0, t);
        ByX(s, 0.0, 1.0);
        if s.At(t).x < b.x { ByX(s, t, 1.0); } else { SameColumn(s, t, 1.0); }
      } else {
        ByX(s, t, 0.0);
        ByX(s, 1.0, 0.0);
        if b.x < s.At(t).x { ByX(s, 1.0, t); } else { SameColumn(s, t, 1.0); }
      }
      NothingBefore(s, box, 0.0, 1.0, t);
      FirstOnSide(s, box, t, n - 1);
    } else {
      FirstToEnd(s, box, 0.0, n);
    }
  }

  // ----- The theorem -----

  /** For all integer endpoints and every non-empty visible rectangle, from four rounds on: the
      loop has ended by accepting or rejecting, and more rounds change nothing, so the eight of
      the code never run out; it rejects only segments with no point in the closed rectangle;
      and on accept both points are visible points of the segment, with every point of the
      segment in the closed rectangle between them. */
  lemma ClipLosesNothing(box: Box, x0: int, y0: int, x1: int, y1: int, n: nat, m: nat)
    requires box.Valid() && 4 <= n <= m
    ensures var s := SegmentOf(x0, y0, x1, y1);
            var p0, p1 := Point(x0 as real, y0 as real), Point(x1 as real, y1 as real);
            && Good(s, box, Clip(box, s.dx, s.dy, p0, p1, n))
            && Clip(box, s.dx, s.dy, p0, p1, m) == Clip(box, s.dx, s.dy, p0, p1, n)
  {
    var s := SegmentOf(x0, y0, x1, y1);
    var p0, p1 := Point(x0 as real, y0 as real), Point(x1 as real, y1 as real);
    GridSegment(box, x0, y0, x1, y1);
    FirstFresh(s, box, n);
    ExtraRoundsIdle(box, s.dx, s.dy, p0, p1, n, m);
  }

  lemma GridSegment(box: Box, x0: int, y0: int, x1: int, y1: int)
    ensures var s := SegmentOf(x0, y0, x1, y1);
            && s.At(0.0) == Point(x0 as real, y0 as real) && s.At(1.0) == Point(x1 as real, y1 as real)
            && OnGrid(s, box)
  {
    var s := SegmentOf(x0, y0, x1, y1);
    FullLength(x0 as real, x1 as real);
    FullLength(y0 as real, y1 as real);
    assert s.At(1.0) == Point(x1 as real, y1 as real);
    BeforeEdge(x0, box.right);
    BeforeEdge(y0, box.top);
    BeforeEdge(x1, box.right);
    BeforeEdge(y1, box.top);
  }

  lemma FullLength(a: real, b: real)
    ensures a + (b - a) * 1.0 == b && a + (b - a) * 0.0 == a
  {
  }

  lemma BeforeEdge(x: int, edge: int)
    ensures x as real < edge as real ==> x as real <= (edge - 1) as real
  {
    if x < edge {
      assert x <= edge - 1;
    } else {
      assert edge <= x;
    }
  }

  /** A clip that ended within n rounds is not changed by more. */
  lemma {:induction false} ExtraRoundsIdle(box: Box, dx: real, dy: real, p0: Point, p1: Point, n: nat, m: nat)
    requires Aligned(dx, dy, p0, p1) && n <= m
    requires Clip(box, dx, dy, p0, p1, n) != GaveUp
    ensures Clip(box, dx, dy, p0, p1, m) == Clip(box, dx, dy, p0, p1, n)
    decreases n
  {
    var code0, code1 := CsOutcode(p0, box), CsOutcode(p1, box);
    if !(code0.Inside() && code1.Inside()) && !code0.Shares(code1) {
      if !code0.Inside() {
        ExtraRoundsIdle(box, dx, dy, Cut(box, dx, dy, p0, code0), p1, n - 1, m - 1);
      } else {
        ExtraRoundsIdle(box, dx, dy, p0, Cut(box, dx, dy, p0, code1), n - 1, m - 1);
      }
    }
  }
}
