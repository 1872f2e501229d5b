/** The rectangle intersection shared by every primitive of `libgfx`, and how exact it is. */
module Rects {
  import opened Machine

  /** `[x, x+w) x [y, y+h)` in view-local coordinates. */
  datatype Rect = Rect(x: int32, y: int32, w: uint32, h: uint32) {
    ghost predicate Contains(px: int, py: int) {
      x <= px < x + w && y <= py < y + h
    }

    predicate Empty() {
      w == 0 || h == 0
    }
  }

  /** A view the device can hand out: both dimensions are positive and fit `int32_t`. */
  predicate ViewSize(width: int, height: int) {
    1 <= width <= INT32_MAX && 1 <= height <= INT32_MAX
  }

  function View(width: uint32, height: uint32): Rect {
    Rect(0, 0, width, height)
  }

  /** The rectangle lies inside the other. */
  predicate PartOf(part: Rect, clip: Rect) {
    && clip.x <= part.x && part.x + part.w <= clip.x + clip.w
    && clip.y <= part.y && part.y + part.h <= clip.y + clip.h
  }

  // ----- One axis -----

  /** Exclusive far edge of the overlap of `[a, a+n)` and `[b, b+m)`, saturated as in the code. */
  function FarEdge(a: int, n: int, b: int, m: int): int {
    Min(Min(a + n, INT32_MAX), Min(b + m, INT32_MAX))
  }

  /** Length of the overlap before the final clamp; not positive when there is none. */
  function Overlap(a: int, n: int, b: int, m: int): int {
    FarEdge(a, n, b, m) - Max(a, b)
  }

  /** What `intersect_rect` computes. An empty overlap leaves the origin out-parameters
      unset in C; the origin given here for that case is never used by a caller. */
  function Intersect(r: Rect, v: Rect): Rect {
    var iw, ih := Overlap(r.x, r.w, v.x, v.w), Overlap(r.y, r.h, v.y, v.h);
    if r.Empty() || v.Empty() || iw <= 0 || ih <= 0 then Rect(0, 0, 0, 0)
    else Rect(Max(r.x, v.x), Max(r.y, v.y), Min(iw, INT32_MAX), Min(ih, INT32_MAX))
  }

  /** `intersect_rect`, statement by statement; `line.c` and `sprite.c` hold the same text twice. */
  method IntersectRect(rx: int32, ry: int32, rw: uint32, rh: uint32,
                       vx: int32, vy: int32, vw: uint32, vh: uint32)
    returns (outX: int32, outY: int32, outW: uint32, outH: uint32)
    ensures Rect(outX, outY, outW, outH) == Intersect(Rect(rx, ry, rw, rh), Rect(vx, vy, vw, vh))
  {
    outX, outY, outW, outH := 0, 0, 0, 0;
    if rw == 0 || rh == 0 || vw == 0 || vh == 0 {
      return;
    }
    var ax: int32 := if rx > vx then rx else vx;
    var ay: int32 := if ry > vy then ry else vy;
    var rb: int64 := rx + rw;
    var vb: int64 := vx + vw;
    rb := if rb > INT32_MAX then INT32_MAX else rb;
    vb := if vb > INT32_MAX then INT32_MAX else vb;
    var bb: int64 := if rb < vb then rb else vb;
    assert bb == FarEdge(rx, rw, vx, vw);
    var rbt: int64 := ry + rh;
    var vbt: int64 := vy + vh;
    rbt := if rbt > INT32_MAX then INT32_MAX else rbt;
    vbt := if vbt > INT32_MAX then INT32_MAX else vbt;
    var bbt: int64 := if rbt < vbt then rbt else vbt;
    assert bbt == FarEdge(ry, rh, vy, vh);
    var iw: int64 := bb - ax;
    var ih: int64 := bbt - ay;
    if iw <= 0 || ih <= 0 {
      return;
    }
    iw := if iw > INT32_MAX then INT32_MAX else iw;
    ih := if ih > INT32_MAX then INT32_MAX else ih;
    outX, outY, outW, outH := ax, ay, iw, ih;
  }

  // ----- Exactness -----

  /** The direct clip of line and scroll: clip against view is the true intersection,
      whatever the clip. */
  lemma DirectClipExact(clip: Rect, width: uint32, height: uint32, px: int, py: int)
    requires ViewSize(width, height)
    ensures Intersect(clip, View(width, height)).Contains(px, py)
        <==> clip.Contains(px, py) && View(width, height).Contains(px, py)
  {
  }

  /** Request against clip, then the result against the view: the clip of every other primitive. */
  function TwoStep(request: Rect, clip: Rect, width: uint32, height: uint32): Rect {
    Intersect(Intersect(request, clip), View(width, height))
  }

  ghost predicate Visible(request: Rect, clip: Rect, width: uint32, height: uint32, px: int, py: int) {
    request.Contains(px, py) && clip.Contains(px, py) && View(width, height).Contains(px, py)
  }

  /** On one axis the clamp to INT32_MAX cuts off visible pixels: request and clip start at
      `lo` or before, overlap beyond `lo + INT32_MAX`, and the part beyond reaches into the view. */
  predicate ClampCuts(a: int, n: int, b: int, m: int, size: int) {
    var lo, hi := Max(a, b), FarEdge(a, n, b, m);
    hi - lo > INT32_MAX && hi > 0 && size > lo + INT32_MAX
  }

  /** Some column (row) is in request, clip and view at once. */
  predicate AxisMeets(a: int, n: int, b: int, m: int, size: int) {
    Max(0, Max(a, b)) < Min(size, FarEdge(a, n, b, m))
  }

  /** The caller-checkable condition under which the two-step clip is the true intersection. */
  predicate ClipIsExact(request: Rect, clip: Rect, width: uint32, height: uint32) {
    || !AxisMeets(request.x, request.w, clip.x, clip.w, width)
    || !AxisMeets(request.y, request.h, clip.y, clip.h, height)
    || (!ClampCuts(request.x, request.w, clip.x, clip.w, width)
        && !ClampCuts(request.y, request.h, clip.y, clip.h, height))
  }

  /** On one axis something of request and clip is left in the view behind the clamp. */
  predicate AxisDrawn(a: int, n: int, b: int, m: int, size: int) {
    var lo := Max(a, b);
    Max(0, lo) < Min(size, Min(FarEdge(a, n, b, m), lo + INT32_MAX))
  }

  /** Both steps on one axis. */
  lemma AxisSteps(a: int, n: int, b: int, m: int, size: int)
    requires size <= INT32_MAX
    ensures var lo, len := Max(a, b), Overlap(a, n, b, m);
            AxisDrawn(a, n, b, m, size) <==> len > 0 && Overlap(lo, Min(len, INT32_MAX), 0, size) > 0
  {
  }

  /** The two-step clip leaves nothing if and only if it leaves nothing on some axis. */
  lemma TwoStepEmpty(request: Rect, clip: Rect, width: uint32, height: uint32)
    requires ViewSize(width, height)
    ensures TwoStep(request, clip, width, height).Empty()
        <==> || !AxisDrawn(request.x, request.w, clip.x, clip.w, width)
             || !AxisDrawn(request.y, request.h, clip.y, clip.h, height)
  {
    AxisSteps(request.x, request.w, clip.x, clip.w, width);
    AxisSteps(request.y, request.h, clip.y, clip.h, height);
  }

  lemma TwoStepNeverAdds(request: Rect, clip: Rect, width: uint32, height: uint32, px: int, py: int)
    requires ViewSize(width, height)
    ensures TwoStep(request, clip, width, height).Contains(px, py)
        ==> Visible(request, clip, width, height, px, py)
  {
  }

  /** Exact if and only if the condition holds. */
  lemma TwoStepExact(request: Rect, clip: Rect, width: uint32, height: uint32)
    requires ViewSize(width, height)
    ensures ClipIsExact(request, clip, width, height)
        <==> forall px, py :: TwoStep(request, clip, width, height).Contains(px, py)
                         <==> Visible(request, clip, width, height, px, py)
  {
    var t := TwoStep(request, clip, width, height);
    if ClipIsExact(request, clip, width, height) {
      forall px, py
        ensures t.Contains(px, py) <==> Visible(request, clip, width, height, px, py)
      {
        TwoStepPoint(request, clip, width, height, px, py);
      }
    } else {
      // The last column and row of the true intersection are a point that is cut off.
      var px := Min(width, FarEdge(request.x, request.w, clip.x, clip.w)) - 1;
      var py := Min(height, FarEdge(request.y, request.h, clip.y, clip.h)) - 1;
      assert Visible(request, clip, width, height, px, py);
      assert !t.Contains(px, py);
    }
  }

  lemma TwoStepPoint(request: Rect, clip: Rect, width: uint32, height: uint32, px: int, py: int)
    requires ViewSize(width, height)
    requires ClipIsExact(request, clip, width, height)
    ensures TwoStep(request, clip, width, height).Contains(px, py)
        <==> Visible(request, clip, width, height, px, py)
  {
    TwoStepNeverAdds(request, clip, width, height, px, py);
    if Visible(request, clip, width, height, px, py) {
      AxisKept(request.x, request.w, clip.x, clip.w, width, px);
      AxisKept(request.y, request.h, clip.y, clip.h, height, py);
    }
  }

  /** On one axis, what is in request, clip and view survives both steps where the clamp does not cut. */
  lemma AxisKept(a: int, n: int, b: int, m: int, size: int, p: int)
    requires 0 <= p < size <= INT32_MAX && a <= p < a + n && b <= p < b + m
    ensures AxisMeets(a, n, b, m, size) && Overlap(a, n, b, m) > 0
    ensures !ClampCuts(a, n, b, m, size) ==>
              var lo, len := Max(a, b), Min(Overlap(a, n, b, m), INT32_MAX);
              var len' := Overlap(lo, len, 0, size);
              0 < len' <= INT32_MAX && Max(lo, 0) <= p < Max(lo, 0) + len'
  {
  }

  /** The sufficient condition in everyday terms: on each axis one of the two origins is
      not negative, or the overlap is at most INT32_MAX. */
  lemma OrdinaryClipsAreExact(request: Rect, clip: Rect, width: uint32, height: uint32)
    requires ViewSize(width, height)
    requires request.x >= 0 || clip.x >= 0 || Overlap(request.x, request.w, clip.x, clip.w) <= INT32_MAX
    requires request.y >= 0 || clip.y >= 0 || Overlap(request.y, request.h, clip.y, clip.h) <= INT32_MAX
    ensures ClipIsExact(request, clip, width, height)
  {
  }

  /** The failing family is not empty: everything is requested and nothing clipped away,
      and yet nothing is drawn. */
  lemma ClampLosesEverything(width: uint32, height: uint32)
    requires ViewSize(width, height)
    ensures var all := Rect(INT32_MIN, INT32_MIN, UINT32_MAX, UINT32_MAX);
            && Visible(all, all, width, height, 0, 0)
            && TwoStep(all, all, width, height).Empty()
  {
  }

  /** A rectangle inside clip-and-view survives both steps unchanged. */
  lemma InnerRectUnclipped(r: Rect, clip: Rect, width: uint32, height: uint32)
    requires ViewSize(width, height)
    requires !r.Empty()
    requires var v := Intersect(clip, View(width, height));
             v.x <= r.x && v.y <= r.y && r.x + r.w <= v.x + v.w && r.y + r.h <= v.y + v.h
    ensures TwoStep(r, clip, width, height) == r
  {
  }
}
