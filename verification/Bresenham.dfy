/** The Bresenham loop of `gfx_line`: its closed form and what it paints. */
module Bresenham {
  import opened Machine
  import opened Images
  import opened Canvas
  import opened ErrorTerm

  // ----- The path -----

  /** A line between two pixels, in the order it is walked. */
  datatype Track = Track(x0: int, y0: int, x1: int, y1: int) {
    function Adx(): nat { Abs(x1 - x0) }
    function Ady(): nat { Abs(y1 - y0) }
    function SignX(): int { if x0 < x1 then 1 else -1 }
    function SignY(): int { if y0 < y1 then 1 else -1 }
    predicate XMajor() { Adx() >= Ady() }
    function Steps(): nat { if XMajor() then Adx() else Ady() }

    /** The extent along the other axis. */
    function Across(): nat { if XMajor() then Ady() else Adx() }

    /** Walking the line keeps the doubled error inside `int32_t`. */
    predicate Fits() { Steps() == 0 || LineFits(Across(), Steps()) }

    /** Steps taken along the minor axis before step s; a single pixel has none. */
    function Side(s: int): int {
      if Steps() == 0 then 0 else if XMajor() then Minor(s, Ady(), Adx()) else Minor(s, Adx(), Ady())
    }

    /** The pixel of step s. */
    function X(s: int): int { if XMajor() then x0 + SignX() * s else x0 + SignX() * Side(s) }
    function Y(s: int): int { if XMajor() then y0 + SignY() * Side(s) else y0 + SignY() * s }

    /** The only step that can reach a pixel, read off its major coordinate. */
    function StepOf(x: int, y: int): int {
      if XMajor() then SignX() * (x - x0) else SignY() * (y - y0)
    }

    /** The pixel is painted before step n. */
    predicate PaintedBefore(n: int, x: int, y: int) {
      var s := StepOf(x, y);
      0 <= s < n && X(s) == x && Y(s) == y
    }

    /** The pixel is on the path. */
    predicate Has(x: int, y: int) {
      PaintedBefore(Steps() + 1, x, y)
    }
  }

  /** The path has exactly the pixels of its steps. */
  lemma StepOfStep(l: Track, s: int)
    ensures l.StepOf(l.X(s), l.Y(s)) == s
  {
  }

  /** Steps 0 to max(adx, ady) reach that many different pixels, from the first endpoint to the
      last one, each a king's move from the one before. */
  lemma PathShape(l: Track, s: int)
    requires 0 <= s <= l.Steps()
    ensures l.Steps() == Max(l.Adx(), l.Ady())
    ensures l.X(0) == l.x0 && l.Y(0) == l.y0 && l.X(l.Steps()) == l.x1 && l.Y(l.Steps()) == l.y1
    ensures l.Has(l.X(s), l.Y(s))
    ensures forall r :: 0 <= r <= l.Steps() && r != s ==> (l.X(r), l.Y(r)) != (l.X(s), l.Y(s))
    ensures s < l.Steps() ==> Abs(l.X(s + 1) - l.X(s)) <= 1 && Abs(l.Y(s + 1) - l.Y(s)) <= 1
  {
    StepOfStep(l, s);
    forall r | 0 <= r <= l.Steps() && r != s
      ensures (l.X(r), l.Y(r)) != (l.X(s), l.Y(s))
    {
      StepOfStep(l, r);
    }
    if l.Steps() > 0 {
      var minor, major := if l.XMajor() then l.Ady() else l.Adx(), l.Steps();
      MinorStart(minor, major);
      MinorStep(s, minor, major);
    }
  }

  /** The path never leaves the bounding box of its endpoints. */
  lemma PathInBox(l: Track, x: int, y: int)
    requires l.Has(x, y)
    ensures Min(l.x0, l.x1) <= x <= Max(l.x0, l.x1) && Min(l.y0, l.y1) <= y <= Max(l.y0, l.y1)
  {
    if l.Steps() > 0 {
      MinorRange(l.StepOf(x, y), if l.XMajor() then l.Ady() else l.Adx(), l.Steps());
    }
  }

  /** Each pixel is within half a pixel of the ideal line, measured along the minor axis. */
  lemma PathNearLine(l: Track, s: int)
    requires 0 <= s <= l.Steps()
    ensures l.XMajor() ==> 2 * Abs((l.Y(s) - l.y0) * l.Adx() - l.SignY() * (s * l.Ady())) <= l.Adx()
    ensures !l.XMajor() ==> 2 * Abs((l.X(s) - l.x0) * l.Ady() - l.SignX() * (s * l.Adx())) <= l.Ady()
  {
    if l.Steps() > 0 {
      var minor, major := if l.XMajor() then l.Ady() else l.Adx(), l.Steps();
      ErrCentred(s, minor, major);
      SignedDistance(if l.XMajor() then l.SignY() else l.SignX(), l.Side(s), major, s * minor);
    }
  }

  lemma SignedDistance(sign: int, q: int, major: int, n: int)
    requires sign == 1 || sign == -1
    ensures Abs((sign * q) * major - sign * n) == Abs(n - q * major)
  {
  }

  // ----- Painting it -----

  ghost predicate InsideTrack(img: Image, l: Track) {
    img.Valid() && img.Inside(l.x0, l.y0) && img.Inside(l.x1, l.y1)
  }

  /** The picture with the path in one colour. */
  ghost function Stroked(img: Image, l: Track, color: uint32): (r: Image)
    requires img.Valid()
    ensures r.Valid() && SameSize(r, img)
    ensures forall x, y {:trigger r.At(x, y)} :: img.Inside(x, y) ==>
                             r.At(x, y) == if l.Has(x, y) then color else img.At(x, y)
  {
    Tabulate(img.width, img.height,
             (x, y) => if !img.Inside(x, y) then 0 else if l.Has(x, y) then color else img.At(x, y))
  }

  ghost predicate StrokedBefore(img0: Image, img: Image, l: Track, color: uint32, n: int) {
    && img0.Valid() && img.Valid() && SameSize(img, img0)
    && forall x, y {:trigger img.At(x, y)} :: img0.Inside(x, y) ==>
                        img.At(x, y) == if l.PaintedBefore(n, x, y) then color else img0.At(x, y)
  }

  lemma StrokeOne(img0: Image, img: Image, img': Image, l: Track, color: uint32, s: int)
    requires InsideTrack(img0, l) && 0 <= s <= l.Steps()
    requires StrokedBefore(img0, img, l, color, s)
    requires img0.Inside(l.X(s), l.Y(s)) && img' == Set(img, l.X(s), l.Y(s), color)
    ensures StrokedBefore(img0, img', l, color, s + 1)
  {
    StepOfStep(l, s);
    forall x, y {:trigger img'.At(x, y)} | img0.Inside(x, y)
      ensures img'.At(x, y) == if l.PaintedBefore(s + 1, x, y) then color else img0.At(x, y)
    {
      assert l.PaintedBefore(s + 1, x, y) <==> l.PaintedBefore(s, x, y) || (x == l.X(s) && y == l.Y(s));
    }
  }

  lemma StepInside(img: Image, l: Track, s: int)
    requires InsideTrack(img, l) && 0 <= s <= l.Steps()
    ensures img.Inside(l.X(s), l.Y(s))
  {
    PathShape(l, s);
    PathInBox(l, l.X(s), l.Y(s));
  }

  /** Where the loop is before step s. */
  ghost predicate Cursor(l: Track, s: int, x: int, y: int, err: int) {
    && x == l.X(s) && y == l.Y(s)
    && (l.Steps() > 0 ==> err == if l.XMajor() then Err(s, l.Ady(), l.Adx()) else Err(s, l.Adx(), l.Ady()))
  }

  lemma CursorStart(l: Track)
    ensures Cursor(l, 0, l.x0, l.y0, 0)
  {
    PathShape(l, 0);
    if l.Steps() > 0 { MinorStart(if l.XMajor() then l.Ady() else l.Adx(), l.Steps()); }
  }

  /** The endpoints are `int32_t` pixels. */
  predicate Pixels32(l: Track) {
    && 0 <= l.x0 <= INT32_MAX && 0 <= l.y0 <= INT32_MAX
    && 0 <= l.x1 <= INT32_MAX && 0 <= l.y1 <= INT32_MAX
  }

  lemma NextStep(l: Track, s: int)
    requires Pixels32(l) && l.Fits() && 0 <= s < l.Steps()
    ensures 0 <= l.X(s + 1) <= INT32_MAX && 0 <= l.Y(s + 1) <= INT32_MAX
    ensures StepFits(s, l.Across(), l.Steps())
  {
    PathShape(l, s + 1);
    PathInBox(l, l.X(s + 1), l.Y(s + 1));
    LineFitsExactly(l.Across(), l.Steps());
  }

  /** One turn of the loop: a step along the major axis and, if `err` says so, one along the minor.  All
      its arithmetic, the doubled error included, stays inside `int32_t`. */
  method Turn(ghost l: Track, ghost s: int, x: int32, y: int32, err: int32,
              adx: int32, ady: int32, signX: int32, signY: int32, xMajor: bool)
    returns (x': int32, y': int32, err': int32)
    requires Pixels32(l) && l.Fits()
    requires adx == l.Adx() && ady == l.Ady() && signX == l.SignX() && signY == l.SignY() && xMajor == l.XMajor()
    requires 0 <= s < l.Steps() && Cursor(l, s, x, y, err)
    ensures Cursor(l, s + 1, x', y', err')
  {
    x', y', err' := x, y, err;
    NextStep(l, s);
    MinorStep(s, l.Across(), l.Steps());
    ErrCentred(s + 1, l.Across(), l.Steps());
    if xMajor {
      err' := err' + ady;
      var twice: int32 := err' * 2;
      if twice >= adx { y' := y' + signY; err' := err' - adx; }
      x' := x' + signX;
    } else {
      err' := err' + adx;
      var twice: int32 := err' * 2;
      if twice >= ady { x' := x' + signX; err' := err' - ady; }
      y' := y' + signY;
    }
  }

  /** The pixel of one step.  The guard always holds, because the path stays between its endpoints. */
  method Plot(h: Handle, ghost l: Track, ghost s: int, x: int, y: int, color: uint32, ghost img0: Image)
    requires h.Valid() && InsideTrack(img0, l) && 0 <= s <= l.Steps() && x == l.X(s) && y == l.Y(s)
    requires StrokedBefore(img0, h.Picture(), l, color, s)
    modifies h.pixels
    ensures StrokedBefore(img0, h.Picture(), l, color, s + 1)
  {
    ghost var img := h.Picture();
    StepInside(img0, l, s);
    if x >= 0 && y >= 0 && x < h.width && y < h.height {
      h.Store(x, y, color);
    }
    StrokeOne(img0, img, h.Picture(), l, color, s);
  }

  /** The setup of the loop. */
  method Extents(ix0: int32, iy0: int32, ix1: int32, iy1: int32)
    returns (adx: int32, ady: int32, signX: int32, signY: int32, xMajor: bool, steps: int32)
    requires Pixels32(Track(ix0, iy0, ix1, iy1))
    ensures var l := Track(ix0, iy0, ix1, iy1);
            && adx == l.Adx() && ady == l.Ady() && signX == l.SignX() && signY == l.SignY()
            && xMajor == l.XMajor() && steps == l.Steps()
  {
    adx := if ix0 > ix1 then ix0 - ix1 else ix1 - ix0;
    ady := if iy0 > iy1 then iy0 - iy1 else iy1 - iy0;
    signX := if ix0 < ix1 then 1 else -1;
    signY := if iy0 < iy1 then 1 else -1;
    xMajor := adx >= ady;
    steps := if xMajor then adx else ady;
  }

  /** The loop: walk the major axis, and decide by `err` when to step along the minor one. */
  method Loop(h: Handle, ghost l: Track, x0: int32, y0: int32, adx: int32, ady: int32, signX: int32, signY: int32,
              xMajor: bool, steps: int32, color: uint32)
    requires h.Valid() && InsideTrack(h.Picture(), l) && Pixels32(l) && l.Fits() && x0 == l.x0 && y0 == l.y0
    requires adx == l.Adx() && ady == l.Ady() && signX == l.SignX() && signY == l.SignY()
    requires xMajor == l.XMajor() && steps == l.Steps()
    modifies h.pixels
    ensures h.Picture() == Stroked(old(h.Picture()), l, color)
  {
    ghost var img0 := h.Picture();
    var x: int32, y: int32, err: int32, s: int32 := x0, y0, 0, 0;
    CursorStart(l);
    while s <= steps
      invariant 0 <= s <= steps
      invariant Cursor(l, s, x, y, err)
      invariant StrokedBefore(img0, h.Picture(), l, color, s)
      decreases steps - s
    {
      Plot(h, l, s, x, y, color, img0);
      if s == steps { break; }
      x, y, err := Turn(l, s, x, y, err, adx, ady, signX, signY, xMajor);
      s := s + 1;
    }
    StrokeDone(img0, h.Picture(), l, color);
  }

  /** The walk between two pixels. */
  method Walk(h: Handle, ix0: int32, iy0: int32, ix1: int32, iy1: int32, color: uint32)
    requires h.Valid() && InsideTrack(h.Picture(), Track(ix0, iy0, ix1, iy1))
    requires Track(ix0, iy0, ix1, iy1).Fits()
    modifies h.pixels
    ensures h.Picture() == Stroked(old(h.Picture()), Track(ix0, iy0, ix1, iy1), color)
  {
    var adx, ady, signX, signY, xMajor, steps := Extents(ix0, iy0, ix1, iy1);
    Loop(h, Track(ix0, iy0, ix1, iy1), ix0, iy0, adx, ady, signX, signY, xMajor, steps, color);
  }

  lemma StrokeDone(img0: Image, img: Image, l: Track, color: uint32)
    requires StrokedBefore(img0, img, l, color, l.Steps() + 1)
    ensures img == Stroked(img0, l, color)
  {
    Extensional(img, Stroked(img0, l, color));
  }
}
