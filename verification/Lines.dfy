/** `gfx_line`: clip, round, snap, walk. */
module Lines {
  import opened Machine
  import opened Rects
  import opened Images
  import opened Inks
  import opened Canvas
  import opened Scroll
  import opened LineClip
  import opened ErrorTerm
  import opened Bresenham

  function BoxOf(v: Rect): Box {
    Box(v.x, v.y, v.x + v.w, v.y + v.h)
  }

  /** C's conversion of a double to an integer. */
  function Truncate(x: real): int {
    if x < 0.0 then -((-x).Floor) else x.Floor
  }

  /** Rounding to the nearest integer, halves away from zero. */
  function Round(x: real): int {
    Truncate(x + if x < 0.0 then -0.5 else 0.5)
  }

  /** Rounding and then snapping into [lo, hi). */
  function Snap(x: real, lo: int, hi: int): int {
    var i := Round(x);
    var j := if i < lo then lo else i;
    if j > hi - 1 then hi - 1 else j
  }

  function TrackOf(box: Box, p0: Point, p1: Point): Track {
    Track(Snap(p0.x, box.fx, box.right), Snap(p0.y, box.fy, box.top),
          Snap(p1.x, box.fx, box.right), Snap(p1.y, box.fy, box.top))
  }

  /** What the clip makes of the line. */
  function ClippedLine(box: Box, x0: int32, y0: int32, x1: int32, y1: int32): Clipped {
    Clip(box, x1 as real - x0 as real, y1 as real - y0 as real,
         Point(x0 as real, y0 as real), Point(x1 as real, y1 as real), Rounds())
  }

  /** The pixel is painted by the line within a visible rectangle. */
  ghost predicate BoxLineHas(box: Box, x0: int32, y0: int32, x1: int32, y1: int32, x: int, y: int) {
    var r := ClippedLine(box, x0, y0, x1, y1);
    r.Accept? && TrackOf(box, r.p0, r.p1).Has(x, y)
  }

  /** The pixel is painted by the line. */
  ghost predicate LineHas(img: Image, clip: Rect, x0: int32, y0: int32, x1: int32, y1: int32, x: int, y: int) {
    var v := VisibleArea(img, clip);
    !v.Empty() && BoxLineHas(BoxOf(v), x0, y0, x1, y1, x, y)
  }

  /** The picture after the line. */
  ghost function LineDrawn(img: Image, clip: Rect, x0: int32, y0: int32, x1: int32, y1: int32, color: uint32)
    : (r: Image)
    requires img.Valid()
    ensures r.Valid() && SameSize(r, img)
    ensures forall x, y {:trigger r.At(x, y)} :: img.Inside(x, y) ==>
                             r.At(x, y) == if LineHas(img, clip, x0, y0, x1, y1, x, y) then color else img.At(x, y)
  {
    Tabulate(img.width, img.height,
             (x, y) => if !img.Inside(x, y) then 0
                       else if LineHas(img, clip, x0, y0, x1, y1, x, y) then color else img.At(x, y))
  }

  /** The error term of the walk stays inside `int32_t`, so that C defines what the call does. */
  ghost predicate LineSafe(img: Image, clip: Rect, x0: int32, y0: int32, x1: int32, y1: int32) {
    var v := VisibleArea(img, clip);
    v.Empty() ||
    var r := ClippedLine(BoxOf(v), x0, y0, x1, y1);
    r.Accept? ==> TrackOf(BoxOf(v), r.p0, r.p1).Fits()
  }

  /** `gfx_line`. */
  method Line(h: Handle, x0: int32, y0: int32, x1: int32, y1: int32, color: uint32)
    requires h.Valid() && LineSafe(h.Picture(), h.clip, x0, y0, x1, y1)
    modifies h.pixels
    ensures h.Picture() == LineDrawn(old(h.Picture()), h.clip, x0, y0, x1, y1, color)
  {
    ghost var img0 := h.Picture();
    var fx, fy, fw, fh := IntersectRect(h.clip.x, h.clip.y, h.clip.w, h.clip.h, 0, 0, h.width, h.height);
    if fw == 0 || fh == 0 {
      LineIsNothing(img0, h.clip, x0, y0, x1, y1, color);
      return;
    }
    var box := BoxOf(Rect(fx, fy, fw, fh));
    var r := ClipLine(box, x0, y0, x1, y1);
    if !r.Accept? {
      LineIsNothing(img0, h.clip, x0, y0, x1, y1, color);
      return;
    }
    WalkSnapped(h, box, r.p0, r.p1, color);
    LineIsStroke(img0, h.clip, x0, y0, x1, y1, color, r);
  }

  /** Rounding, snapping, and the walk. */
  method WalkSnapped(h: Handle, box: Box, p0: Point, p1: Point, color: uint32)
    requires h.Valid() && box.Valid() && 0 <= box.fx && box.right <= h.width && 0 <= box.fy && box.top <= h.height
    requires TrackOf(box, p0, p1).Fits()
    modifies h.pixels
    ensures h.Picture() == Stroked(old(h.Picture()), TrackOf(box, p0, p1), color)
  {
    var l := TrackOf(box, p0, p1);
    Walk(h, l.x0, l.y0, l.x1, l.y1, color);
  }

  lemma LineIsStroke(img: Image, clip: Rect, x0: int32, y0: int32, x1: int32, y1: int32, color: uint32, r: Clipped)
    requires img.Valid() && !VisibleArea(img, clip).Empty() && r.Accept?
    requires r == ClippedLine(BoxOf(VisibleArea(img, clip)), x0, y0, x1, y1)
    ensures LineDrawn(img, clip, x0, y0, x1, y1, color)
         == Stroked(img, TrackOf(BoxOf(VisibleArea(img, clip)), r.p0, r.p1), color)
  {
    Extensional(LineDrawn(img, clip, x0, y0, x1, y1, color),
                Stroked(img, TrackOf(BoxOf(VisibleArea(img, clip)), r.p0, r.p1), color));
  }

  lemma LineIsNothing(img: Image, clip: Rect, x0: int32, y0: int32, x1: int32, y1: int32, color: uint32)
    requires img.Valid()
    requires VisibleArea(img, clip).Empty() || !ClippedLine(BoxOf(VisibleArea(img, clip)), x0, y0, x1, y1).Accept?
    ensures LineDrawn(img, clip, x0, y0, x1, y1, color) == img
  {
    Extensional(LineDrawn(img, clip, x0, y0, x1, y1, color), img);
  }

  // ----- What it paints -----

  /** A line paints only inside clip and view. */
  lemma LineStaysVisible(img: Image, clip: Rect, x0: int32, y0: int32, x1: int32, y1: int32, x: int, y: int)
    requires img.Valid() && LineHas(img, clip, x0, y0, x1, y1, x, y)
    ensures clip.Contains(x, y) && img.Inside(x, y)
  {
    var v := VisibleArea(img, clip);
    var r := ClippedLine(BoxOf(v), x0, y0, x1, y1);
    PathInBox(TrackOf(BoxOf(v), r.p0, r.p1), x, y);
    DirectClipExact(clip, img.width, img.height, x, y);
  }

  lemma RoundWhole(k: int)
    requires k >= 0
    ensures Round(k as real) == k
  {
  }

  /** A line between two visible pixels is not touched by the clip. */
  lemma VisibleLineUnclipped(img: Image, clip: Rect, x0: int32, y0: int32, x1: int32, y1: int32, x: int, y: int)
    requires img.Valid()
    requires VisibleArea(img, clip).Contains(x0, y0) && VisibleArea(img, clip).Contains(x1, y1)
    ensures LineHas(img, clip, x0, y0, x1, y1, x, y) <==> Track(x0, y0, x1, y1).Has(x, y)
  {
    RoundWhole(x0);
    RoundWhole(y0);
    RoundWhole(x1);
    RoundWhole(y1);
  }

  /** The clip theorem, for the line that is drawn. */
  lemma LineGood(box: Box, x0: int32, y0: int32, x1: int32, y1: int32)
    requires box.Valid()
    ensures Good(SegmentOf(x0, y0, x1, y1), box, ClippedLine(box, x0, y0, x1, y1))
  {
    ClipLosesNothing(box, x0, y0, x1, y1, Rounds(), Rounds());
  }

  lemma AcceptedEnds(s: Segment, box: Box, r: Clipped) returns (t0: real, t1: real)
    requires Good(s, box, r) && r.Accept?
    ensures Endpoints(s, box, r.p0, r.p1, t0, t1)
  {
    t0, t1 :| Endpoints(s, box, r.p0, r.p1, t0, t1);
  }

  // ----- Horizontal and vertical lines -----

  function Clamp(x: int, lo: int, hi: int): int {
    if x < lo then lo else if x > hi - 1 then hi - 1 else x
  }

  function PixelPoint(x: int, y: int): Point {
    Point(x as real, y as real)
  }

  lemma CodeOfPixel(box: Box, x: int, y: int)
    ensures CsOutcode(PixelPoint(x, y), box) == Outcode(x < box.fx, x >= box.right, y < box.fy, y >= box.top)
  {
  }

  /** The meeting points of a line along one axis are pixels. */
  lemma LevelMeetsColumn(dx: real, x: int, y: int, c: int)
    requires dx != 0.0
    ensures MeetColumn(dx, 0.0, PixelPoint(x, y), c as real) == PixelPoint(c, y)
  {
  }

  lemma UprightMeetsRow(dy: real, x: int, y: int, c: int)
    requires dy != 0.0
    ensures MeetRow(0.0, dy, PixelPoint(x, y), c as real) == PixelPoint(x, c)
  {
  }

  /** The second endpoint of a horizontal line whose first one is visible. */
  lemma LevelSecond(box: Box, dx: real, x0: int, x1: int, y: int, n: nat)
    requires box.Valid() && n >= 1 && (dx == 0.0 ==> x0 == x1)
    requires box.fx <= x0 < box.right && box.fy <= y < box.top
    ensures Clip(box, dx, 0.0, PixelPoint(x0, y), PixelPoint(x1, y), n)
         == Accept(PixelPoint(x0, y), PixelPoint(Clamp(x1, box.fx, box.right), y))
  {
    var c := Clamp(x1, box.fx, box.right);
    CodeOfPixel(box, x0, y);
    CodeOfPixel(box, x1, y);
    if c != x1 {
      LevelMeetsColumn(dx, x0, y, c);
      CodeOfPixel(box, c, y);
    }
  }

  /** A horizontal line is clipped to whole pixels. */
  lemma LevelClip(box: Box, dx: real, x0: int, x1: int, y: int, n: nat)
    requires box.Valid() && n >= 2 && (dx == 0.0 ==> x0 == x1)
    ensures Clip(box, dx, 0.0, PixelPoint(x0, y), PixelPoint(x1, y), n)
         == if box.fy <= y < box.top && Max(x0, x1) >= box.fx && Min(x0, x1) < box.right
            then Accept(PixelPoint(Clamp(x0, box.fx, box.right), y), PixelPoint(Clamp(x1, box.fx, box.right), y))
            else Reject
  {
    var c := Clamp(x0, box.fx, box.right);
    CodeOfPixel(box, x0, y);
    CodeOfPixel(box, x1, y);
    if box.fy <= y < box.top && Max(x0, x1) >= box.fx && Min(x0, x1) < box.right {
      if c == x0 {
        LevelSecond(box, dx, x0, x1, y, n);
      } else {
        LevelMeetsColumn(dx, x0, y, c);
        LevelSecond(box, dx, c, x1, y, n - 1);
      }
    }
  }

  lemma UprightSecond(box: Box, dy: real, x: int, y0: int, y1: int, n: nat)
    requires box.Valid() && n >= 1 && (dy == 0.0 ==> y0 == y1)
    requires box.fx <= x < box.right && box.fy <= y0 < box.top
    ensures Clip(box, 0.0, dy, PixelPoint(x, y0), PixelPoint(x, y1), n)
         == Accept(PixelPoint(x, y0), PixelPoint(x, Clamp(y1, box.fy, box.top)))
  {
    var c := Clamp(y1, box.fy, box.top);
    CodeOfPixel(box, x, y0);
    CodeOfPixel(box, x, y1);
    if c != y1 {
      UprightMeetsRow(dy, x, y0, c);
      CodeOfPixel(box, x, c);
    }
  }

  /** A vertical line is clipped to whole pixels. */
  lemma UprightClip(box: Box, dy: real, x: int, y0: int, y1: int, n: nat)
    requires box.Valid() && n >= 2 && (dy == 0.0 ==> y0 == y1)
    ensures Clip(box, 0.0, dy, PixelPoint(x, y0), PixelPoint(x, y1), n)
         == if box.fx <= x < box.right && Max(y0, y1) >= box.fy && Min(y0, y1) < box.top
            then Accept(PixelPoint(x, Clamp(y0, box.fy, box.top)), PixelPoint(x, Clamp(y1, box.fy, box.top)))
            else Reject
  {
    var c := Clamp(y0, box.fy, box.top);
    CodeOfPixel(box, x, y0);
    CodeOfPixel(box, x, y1);
    if box.fx <= x < box.right && Max(y0, y1) >= box.fy && Min(y0, y1) < box.top {
      if c == y0 {
        UprightSecond(box, dy, x, y0, y1, n);
      } else {
        UprightMeetsRow(dy, x, y0, c);
        UprightSecond(box, dy, x, c, y1, n - 1);
      }
    }
  }

  lemma TrackOfPixels(box: Box, x0: int, y0: int, x1: int, y1: int)
    requires box.Valid() && 0 <= box.fx && 0 <= box.fy
    requires box.fx <= x0 < box.right && box.fy <= y0 < box.top && box.fx <= x1 < box.right && box.fy <= y1 < box.top
    ensures TrackOf(box, PixelPoint(x0, y0), PixelPoint(x1, y1)) == Track(x0, y0, x1, y1)
  {
    RoundWhole(x0);
    RoundWhole(y0);
    RoundWhole(x1);
    RoundWhole(y1);
  }

  lemma StraightTrack(l: Track, x: int, y: int)
    ensures l.y0 == l.y1 ==> (l.Has(x, y) <==> y == l.y0 && Min(l.x0, l.x1) <= x <= Max(l.x0, l.x1))
    ensures l.x0 == l.x1 ==> (l.Has(x, y) <==> x == l.x0 && Min(l.y0, l.y1) <= y <= Max(l.y0, l.y1))
  {
    if l.Steps() > 0 && (l.y0 == l.y1 || l.x0 == l.x1) {
      MinorUnique(l.StepOf(x, y), 0, l.Steps(), 0);
    }
  }

  lemma LevelPainted(box: Box, x0: int32, x1: int32, y0: int32, x: int, y: int)
    requires box.Valid() && 0 <= box.fx && 0 <= box.fy
    ensures BoxLineHas(box, x0, y0, x1, y0, x, y)
        <==> && y == y0 && Min(x0, x1) <= x <= Max(x0, x1)
             && box.fx <= x < box.right && box.fy <= y < box.top
  {
    LevelClip(box, x1 as real - x0 as real, x0, x1, y0, Rounds());
    if box.fy <= y0 < box.top && Max(x0, x1) >= box.fx && Min(x0, x1) < box.right {
      LevelTrack(box, x0, x1, y0, x, y);
    }
  }

  lemma LevelTrack(box: Box, x0: int, x1: int, y0: int, x: int, y: int)
    requires box.Valid() && 0 <= box.fx && 0 <= box.fy
    requires box.fy <= y0 < box.top && Max(x0, x1) >= box.fx && Min(x0, x1) < box.right
    ensures var c0, c1 := Clamp(x0, box.fx, box.right), Clamp(x1, box.fx, box.right);
            TrackOf(box, PixelPoint(c0, y0), PixelPoint(c1, y0)).Has(x, y)
            <==> y == y0 && Min(x0, x1) <= x <= Max(x0, x1) && box.fx <= x < box.right
  {
    var c0, c1 := Clamp(x0, box.fx, box.right), Clamp(x1, box.fx, box.right);
    TrackOfPixels(box, c0, y0, c1, y0);
    StraightTrack(Track(c0, y0, c1, y0), x, y);
  }

  lemma UprightPainted(box: Box, x0: int32, y0: int32, y1: int32, x: int, y: int)
    requires box.Valid() && 0 <= box.fx && 0 <= box.fy
    ensures BoxLineHas(box, x0, y0, x0, y1, x, y)
        <==> && x == x0 && Min(y0, y1) <= y <= Max(y0, y1)
             && box.fx <= x < box.right && box.fy <= y < box.top
  {
    UprightClip(box, y1 as real - y0 as real, x0, y0, y1, Rounds());
    if box.fx <= x0 < box.right && Max(y0, y1) >= box.fy && Min(y0, y1) < box.top {
      UprightTrack(box, x0, y0, y1, x, y);
    }
  }

  lemma UprightTrack(box: Box, x0: int, y0: int, y1: int, x: int, y: int)
    requires box.Valid() && 0 <= box.fx && 0 <= box.fy
    requires box.fx <= x0 < box.right && Max(y0, y1) >= box.fy && Min(y0, y1) < box.top
    ensures var c0, c1 := Clamp(y0, box.fy, box.top), Clamp(y1, box.fy, box.top);
            TrackOf(box, PixelPoint(x0, c0), PixelPoint(x0, c1)).Has(x, y)
            <==> x == x0 && Min(y0, y1) <= y <= Max(y0, y1) && box.fy <= y < box.top
  {
    var c0, c1 := Clamp(y0, box.fy, box.top), Clamp(y1, box.fy, box.top);
    TrackOfPixels(box, x0, c0, x0, c1);
    StraightTrack(Track(x0, c0, x0, c1), x, y);
  }

  /** A horizontal line paints exactly its pixels inside clip and view, whatever its endpoints. */
  lemma HorizontalLine(img: Image, clip: Rect, x0: int32, x1: int32, y0: int32, x: int, y: int)
    requires img.Valid()
    ensures LineHas(img, clip, x0, y0, x1, y0, x, y)
        <==> y == y0 && Min(x0, x1) <= x <= Max(x0, x1) && clip.Contains(x, y) && img.Inside(x, y)
  {
    var v := VisibleArea(img, clip);
    DirectClipExact(clip, img.width, img.height, x, y);
    if !v.Empty() { LevelPainted(BoxOf(v), x0, x1, y0, x, y); }
  }

  /** A vertical line paints exactly its pixels inside clip and view, whatever its endpoints. */
  lemma VerticalLine(img: Image, clip: Rect, x0: int32, y0: int32, y1: int32, x: int, y: int)
    requires img.Valid()
    ensures LineHas(img, clip, x0, y0, x0, y1, x, y)
        <==> x == x0 && Min(y0, y1) <= y <= Max(y0, y1) && clip.Contains(x, y) && img.Inside(x, y)
  {
    var v := VisibleArea(img, clip);
    DirectClipExact(clip, img.width, img.height, x, y);
    if !v.Empty() { UprightPainted(BoxOf(v), x0, y0, y1, x, y); }
  }

  /** `gfx_line` along a row is `gfx_hline`, wherever the length fits its argument and the
      two-step clip of `gfx_hline` is exact. */
  lemma HorizontalLineIsHLine(img: Image, clip: Rect, x0: int32, x1: int32, y: int32, color: uint32)
    requires img.Valid() && Max(x0, x1) - Min(x0, x1) + 1 <= UINT32_MAX
    requires ClipIsExact(Rect(Min(x0, x1), y, Max(x0, x1) - Min(x0, x1) + 1, 1), clip, img.width, img.height)
    ensures LineDrawn(img, clip, x0, y, x1, y, color)
         == Drawn(img, clip, Call(Rect(Min(x0, x1), y, Max(x0, x1) - Min(x0, x1) + 1, 1), Solid(color)))
  {
    var r := Rect(Min(x0, x1), y, Max(x0, x1) - Min(x0, x1) + 1, 1);
    var a, b := LineDrawn(img, clip, x0, y, x1, y, color), Drawn(img, clip, Call(r, Solid(color)));
    RegionDrawable(img, clip, Call(r, Solid(color)));
    forall px, py {:trigger a.At(px, py)} | img.Inside(px, py)
      ensures a.At(px, py) == b.At(px, py)
    {
      HorizontalLine(img, clip, x0, x1, y, px, py);
      TwoStepPoint(r, clip, img.width, img.height, px, py);
    }
    Extensional(a, b);
  }

  /** `gfx_line` along a column is `gfx_vline`, under the same conditions. */
  lemma VerticalLineIsVLine(img: Image, clip: Rect, x: int32, y0: int32, y1: int32, color: uint32)
    requires img.Valid() && Max(y0, y1) - Min(y0, y1) + 1 <= UINT32_MAX
    requires ClipIsExact(Rect(x, Min(y0, y1), 1, Max(y0, y1) - Min(y0, y1) + 1), clip, img.width, img.height)
    ensures LineDrawn(img, clip, x, y0, x, y1, color)
         == Drawn(img, clip, Call(Rect(x, Min(y0, y1), 1, Max(y0, y1) - Min(y0, y1) + 1), Solid(color)))
  {
    var r := Rect(x, Min(y0, y1), 1, Max(y0, y1) - Min(y0, y1) + 1);
    var a, b := LineDrawn(img, clip, x, y0, x, y1, color), Drawn(img, clip, Call(r, Solid(color)));
    RegionDrawable(img, clip, Call(r, Solid(color)));
    forall px, py {:trigger a.At(px, py)} | img.Inside(px, py)
      ensures a.At(px, py) == b.At(px, py)
    {
      VerticalLine(img, clip, x, y0, y1, px, py);
      TwoStepPoint(r, clip, img.width, img.height, px, py);
    }
    Extensional(a, b);
  }

  // ----- Which lines are safe -----

  /** Under a visible area of ordinary size every line is safe: the sum of its width, its height and the
      smaller of the two is at most 2^31 + 3. */
  lemma SmallAreaSafe(img: Image, clip: Rect, x0: int32, y0: int32, x1: int32, y1: int32)
    requires img.Valid()
    requires var v := VisibleArea(img, clip); v.w + v.h + Min(v.w, v.h) <= INT32_MAX + 4
    ensures LineSafe(img, clip, x0, y0, x1, y1)
  {
    var v := VisibleArea(img, clip);
    var r := ClippedLine(BoxOf(v), x0, y0, x1, y1);
    if !v.Empty() && r.Accept? {
      var l := TrackOf(BoxOf(v), r.p0, r.p1);
      SmallTrackFits(l, v.x, v.y, v.w, v.h);
    }
  }

  lemma SmallTrackFits(l: Track, x: int, y: int, w: int, h: int)
    requires x <= l.x0 < x + w && x <= l.x1 < x + w && y <= l.y0 < y + h && y <= l.y1 < y + h
    requires w + h + Min(w, h) <= INT32_MAX + 4
    ensures l.Fits()
  {
    if l.Steps() > 0 { SmallLinesFit(l.Across(), l.Steps()); }
  }

  lemma StraightTrackFits(l: Track)
    requires l.x0 == l.x1 || l.y0 == l.y1
    ensures l.Fits()
  {
    if l.Steps() > 0 { LevelLineFits(l.Steps()); }
  }

  /** A line along an axis is safe in every view. */
  lemma AxisLineSafe(img: Image, clip: Rect, x0: int32, y0: int32, x1: int32, y1: int32)
    requires img.Valid() && (x0 == x1 || y0 == y1)
    ensures LineSafe(img, clip, x0, y0, x1, y1)
  {
    var v := VisibleArea(img, clip);
    if !v.Empty() {
      var box := BoxOf(v);
      var r := ClippedLine(box, x0, y0, x1, y1);
      if y0 == y1 {
        LevelClip(box, x1 as real - x0 as real, x0, x1, y0, Rounds());
        if r.Accept? { StraightTrackFits(TrackOf(box, r.p0, r.p1)); }
      } else {
        UprightClip(box, y1 as real - y0 as real, x0, y0, y1, Rounds());
        if r.Accept? { StraightTrackFits(TrackOf(box, r.p0, r.p1)); }
      }
    }
  }

  /** A line between visible pixels is safe exactly when its own extents fit. */
  lemma VisibleLineSafe(img: Image, clip: Rect, x0: int32, y0: int32, x1: int32, y1: int32)
    requires img.Valid()
    requires VisibleArea(img, clip).Contains(x0, y0) && VisibleArea(img, clip).Contains(x1, y1)
    ensures LineSafe(img, clip, x0, y0, x1, y1) <==> Track(x0, y0, x1, y1).Fits()
  {
    var box := BoxOf(VisibleArea(img, clip));
    CodeOfPixel(box, x0, y0);
    CodeOfPixel(box, x1, y1);
    assert ClippedLine(box, x0, y0, x1, y1) == Accept(PixelPoint(x0, y0), PixelPoint(x1, y1));
    TrackOfPixels(box, x0, y0, x1, y1);
  }

  /** A view of three rows is enough for an unsafe line: from corner to corner of 2147483647 columns. */
  lemma ThinViewLineUnsafe(img: Image)
    requires img.Valid() && img.width == INT32_MAX && img.height == 3
    ensures !LineSafe(img, View(img.width, img.height), 0, 0, INT32_MAX - 1, 2)
  {
    VisibleLineSafe(img, View(img.width, img.height), 0, 0, INT32_MAX - 1, 2);
    ThinLineOverflows();
    assert Track(0, 0, INT32_MAX - 1, 2).Steps() == 2_147_483_646;
    assert Track(0, 0, INT32_MAX - 1, 2).Across() == 2;
  }
}
