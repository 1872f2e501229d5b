/** `gfx__rect_impl`: the outline drawn by up to four line calls, and when they add up to
    the outline the caller asked for. */
module Outlines {
  import opened Machine
  import opened Rects
  import opened Images
  import opened Inks
  import opened Canvas

  /** The closed outline of `[x, x+w) x [y, y+h)`, in unbounded arithmetic. */
  ghost predicate OnOutline(x: int, y: int, w: int, h: int, px: int, py: int) {
    && x <= px < x + w && y <= py < y + h
    && (px == x || px == x + w - 1 || py == y || py == y + h - 1)
  }

  /** The line calls, with the `int32_t` arithmetic of their coordinates. */
  function Edges(x: int32, y: int32, w: uint32, h: uint32): (es: seq<Rect>)
    requires w >= 1 && h >= 1
    ensures 1 <= |es| <= 4
  {
    [Rect(x, y, w, 1)]
    + (if h > 1 then [Rect(x, ToInt32(y + ToInt32(h - 1)), w, 1)] else [])
    + (if h > 2 then
         [Rect(x, ToInt32(y + 1), 1, h - 2)]
         + (if w > 1 then [Rect(ToInt32(x + ToInt32(w - 1)), ToInt32(y + 1), 1, h - 2)] else [])
       else [])
  }

  ghost function SolidCalls(es: seq<Rect>, color: uint32): (cs: seq<Call>)
    ensures |cs| == |es|
    ensures forall i :: 0 <= i < |es| ==> cs[i] == Call(es[i], Solid(color))
  {
    seq(|es|, i requires 0 <= i < |es| => Call(es[i], Solid(color)))
  }

  /** `gfx__rect_impl`. */
  method RectOutline(h: Handle, x: int32, y: int32, w: uint32, hh: uint32, color: uint32)
    requires h.Valid()
    modifies h.pixels
    ensures w == 0 || hh == 0 ==> h.Picture() == old(h.Picture())
    ensures w >= 1 && hh >= 1 ==>
              h.Picture() == DrawnAll(old(h.Picture()), h.clip, SolidCalls(Edges(x, y, w, hh), color))
  {
    if w == 0 || hh == 0 { return; }
    EdgesInOrder(h.Picture(), h.clip, x, y, w, hh, color);
    HLine(h, x, y, w, color);
    if hh > 1 {
      HLine(h, x, ToInt32(y + ToInt32(hh - 1)), w, color);
    }
    if hh > 2 {
      SideEdges(h, x, y, w, hh, color);
    }
  }

  /** The two columns between the top and the bottom row. */
  method SideEdges(h: Handle, x: int32, y: int32, w: uint32, hh: uint32, color: uint32)
    requires h.Valid() && w >= 1 && hh > 2
    modifies h.pixels
    ensures var left := Drawn(old(h.Picture()), h.clip, Call(Rect(x, ToInt32(y + 1), 1, hh - 2), Solid(color)));
            h.Picture() == if w <= 1 then left
                           else Drawn(left, h.clip, Call(Rect(ToInt32(x + ToInt32(w - 1)), ToInt32(y + 1), 1, hh - 2),
                                                         Solid(color)))
  {
    VLine(h, x, ToInt32(y + 1), hh - 2, color);
    if w > 1 {
      VLine(h, ToInt32(x + ToInt32(w - 1)), ToInt32(y + 1), hh - 2, color);
    }
  }

  /** `DrawnAll` over the edges, written out. */
  lemma EdgesInOrder(img: Image, clip: Rect, x: int32, y: int32, w: uint32, h: uint32, color: uint32)
    requires img.Valid() && w >= 1 && h >= 1
    ensures var top := Drawn(img, clip, Call(Rect(x, y, w, 1), Solid(color)));
            var rows := if h <= 1 then top
                        else Drawn(top, clip, Call(Rect(x, ToInt32(y + ToInt32(h - 1)), w, 1), Solid(color)));
            var left := if h <= 2 then rows
                        else Drawn(rows, clip, Call(Rect(x, ToInt32(y + 1), 1, h - 2), Solid(color)));
            var all := if h <= 2 || w <= 1 then left
                       else Drawn(left, clip, Call(Rect(ToInt32(x + ToInt32(w - 1)), ToInt32(y + 1), 1, h - 2),
                                                   Solid(color)));
            DrawnAll(img, clip, SolidCalls(Edges(x, y, w, h), color)) == all
  {
    var cs := SolidCalls(Edges(x, y, w, h), color);
    DrawnAllFrom(img, clip, cs, 0);
    if |cs| > 1 { DrawnAllFrom(Drawn(img, clip, cs[0]), clip, cs, 1); }
    if |cs| > 2 { DrawnAllFrom(Drawn(Drawn(img, clip, cs[0]), clip, cs[1]), clip, cs, 2); }
    if |cs| > 3 { DrawnAllFrom(Drawn(Drawn(Drawn(img, clip, cs[0]), clip, cs[1]), clip, cs[2]), clip, cs, 3); }
    assert cs[0..] == cs;
  }

  lemma DrawnAllFrom(img: Image, clip: Rect, cs: seq<Call>, n: nat)
    requires n < |cs|
    requires img.Valid() && forall i :: 0 <= i < |cs| ==> Sourced(cs[i])
    ensures DrawnAll(img, clip, cs[n..])
         == if n + 1 == |cs| then Drawn(img, clip, cs[n]) else DrawnAll(Drawn(img, clip, cs[n]), clip, cs[n + 1..])
  {
    assert cs[n..][1..] == cs[n + 1..];
  }

  /** Some edge call reaches this pixel. */
  ghost predicate Reached(es: seq<Rect>, clip: Rect, width: uint32, height: uint32, px: int, py: int) {
    exists i :: 0 <= i < |es| && TwoStep(es[i], clip, width, height).Contains(px, py)
  }

  /** Drawing edges in one colour colours exactly the pixels some edge reaches. */
  lemma {:induction false} SolidEdges(img: Image, clip: Rect, es: seq<Rect>, color: uint32, px: int, py: int)
    requires img.Valid() && img.Inside(px, py)
    ensures DrawnAll(img, clip, SolidCalls(es, color)).At(px, py)
         == if Reached(es, clip, img.width, img.height, px, py) then color else img.At(px, py)
    decreases |es|
  {
    var cs := SolidCalls(es, color);
    if es != [] {
      var img1 := Drawn(img, clip, cs[0]);
      SolidEdges(img1, clip, es[1..], color, px, py);
      assert cs[1..] == SolidCalls(es[1..], color);
      RegionDrawable(img, clip, cs[0]);
      var here := TwoStep(es[0], clip, img.width, img.height).Contains(px, py);
      assert img1.At(px, py) == if here then color else img.At(px, py);
      assert Reached(es, clip, img.width, img.height, px, py)
          <==> here || Reached(es[1..], clip, img.width, img.height, px, py) by {
        if i :| 0 <= i < |es| && TwoStep(es[i], clip, img.width, img.height).Contains(px, py) {
          if i > 0 { assert es[1..][i - 1] == es[i]; }
        }
        if i :| 0 <= i < |es[1..]| && TwoStep(es[1..][i], clip, img.width, img.height).Contains(px, py) {
          assert es[i + 1] == es[1..][i];
        }
      }
    }
  }

  /** The i-th edge starts where it should: its coordinates did not wrap around. */
  predicate Straight(x: int32, y: int32, w: uint32, h: uint32, i: int) {
    && (i == 1 ==> y + h - 1 <= INT32_MAX)
    && (i >= 2 ==> y + 1 <= INT32_MAX)
    && (i == 3 ==> x + w - 1 <= INT32_MAX)
  }

  /** One edge: if it starts where it should, it is clipped exactly, and if its coordinates wrapped around,
      it lies outside clip or view. */
  predicate EdgeFits(edge: Rect, straight: bool, clip: Rect, width: uint32, height: uint32) {
    if straight then ClipIsExact(edge, clip, width, height)
    else || !AxisDrawn(edge.x, edge.w, clip.x, clip.w, width)
         || !AxisDrawn(edge.y, edge.h, clip.y, clip.h, height)
  }

  /** What a caller can check, all of it arithmetic on the arguments. */
  predicate EdgesFit(x: int32, y: int32, w: uint32, h: uint32, clip: Rect, width: uint32, height: uint32)
    requires w >= 1 && h >= 1
  {
    var es := Edges(x, y, w, h);
    forall i :: 0 <= i < |es| ==> EdgeFits(es[i], Straight(x, y, w, h, i), clip, width, height)
  }

  ghost predicate VisibleOutline(x: int32, y: int32, w: uint32, h: uint32, clip: Rect,
                                 width: uint32, height: uint32, px: int, py: int) {
    OnOutline(x, y, w, h, px, py) && clip.Contains(px, py) && View(width, height).Contains(px, py)
  }

  /** Straight edges partition the outline: every pixel of the outline is in exactly one. */
  lemma StraightEdgesPartition(x: int32, y: int32, w: uint32, h: uint32, px: int, py: int)
    requires w >= 1 && h >= 1 && (forall i :: 0 <= i < 4 ==> Straight(x, y, w, h, i))
    ensures var es := Edges(x, y, w, h);
            && (OnOutline(x, y, w, h, px, py) <==> exists i :: 0 <= i < |es| && es[i].Contains(px, py))
            && forall i, j :: 0 <= i < j < |es| ==> !(es[i].Contains(px, py) && es[j].Contains(px, py))
  {
    var es := Edges(x, y, w, h);
    assert Straight(x, y, w, h, 1) && Straight(x, y, w, h, 2) && Straight(x, y, w, h, 3);
    if OnOutline(x, y, w, h, px, py) {
      var i := if py == y then 0 else if py == y + h - 1 then 1 else if px == x then 2 else 3;
      assert es[i].Contains(px, py);
    }
  }

  /** A straight edge lies on the outline, an edge that wrapped misses it, within the view. */
  lemma EdgeOnOutline(x: int32, y: int32, w: uint32, h: uint32, i: int, px: int, py: int)
    requires w >= 1 && h >= 1 && 0 <= i < |Edges(x, y, w, h)|
    requires 0 <= px < INT32_MAX && 0 <= py < INT32_MAX
    requires Edges(x, y, w, h)[i].Contains(px, py)
    ensures OnOutline(x, y, w, h, px, py) <==> Straight(x, y, w, h, i)
  {
  }

  /** Each visible outline pixel has a straight edge, and no other edge that holds it. */
  lemma EdgeOf(x: int32, y: int32, w: uint32, h: uint32, px: int, py: int) returns (i: int)
    requires w >= 1 && h >= 1 && OnOutline(x, y, w, h, px, py)
    requires 0 <= px < INT32_MAX && 0 <= py < INT32_MAX
    ensures var es := Edges(x, y, w, h);
            && 0 <= i < |es| && es[i].Contains(px, py) && Straight(x, y, w, h, i)
            && forall j :: 0 <= j < |es| && es[j].Contains(px, py) ==> j == i
  {
    i := if py == y then 0 else if py == y + h - 1 then 1 else if px == x then 2 else 3;
  }

  /** The outline call colours exactly the visible part of the outline if and only if
      its edges fit. */
  lemma OutlineExact(x: int32, y: int32, w: uint32, h: uint32, clip: Rect, width: uint32, height: uint32)
    requires ViewSize(width, height) && w >= 1 && h >= 1
    ensures EdgesFit(x, y, w, h, clip, width, height)
        <==> forall px, py :: Reached(Edges(x, y, w, h), clip, width, height, px, py)
                         <==> VisibleOutline(x, y, w, h, clip, width, height, px, py)
  {
    var es := Edges(x, y, w, h);
    if EdgesFit(x, y, w, h, clip, width, height) {
      forall px, py
        ensures Reached(es, clip, width, height, px, py)
            <==> VisibleOutline(x, y, w, h, clip, width, height, px, py)
      {
        FittingEdgesReach(x, y, w, h, clip, width, height, px, py);
      }
    } else {
      var i :| 0 <= i < |es| && !EdgeFits(es[i], Straight(x, y, w, h, i), clip, width, height);
      var px, py := UnfitEdgeShows(x, y, w, h, clip, width, height, i);
    }
  }

  lemma FittingEdgesReach(x: int32, y: int32, w: uint32, h: uint32, clip: Rect,
                          width: uint32, height: uint32, px: int, py: int)
    requires ViewSize(width, height) && w >= 1 && h >= 1
    requires EdgesFit(x, y, w, h, clip, width, height)
    ensures Reached(Edges(x, y, w, h), clip, width, height, px, py)
        <==> VisibleOutline(x, y, w, h, clip, width, height, px, py)
  {
    var es := Edges(x, y, w, h);
    if i :| 0 <= i < |es| && TwoStep(es[i], clip, width, height).Contains(px, py) {
      TwoStepNeverAdds(es[i], clip, width, height, px, py);
      EdgeOnOutline(x, y, w, h, i, px, py);
      TwoStepEmpty(es[i], clip, width, height);
    }
    if VisibleOutline(x, y, w, h, clip, width, height, px, py) {
      var i := EdgeOf(x, y, w, h, px, py);
      TwoStepPoint(es[i], clip, width, height, px, py);
    }
  }

  /** An edge that does not fit shows: some pixel is coloured wrongly or left out. */
  lemma UnfitEdgeShows(x: int32, y: int32, w: uint32, h: uint32, clip: Rect,
                       width: uint32, height: uint32, i: int) returns (px: int, py: int)
    requires ViewSize(width, height) && w >= 1 && h >= 1 && 0 <= i < |Edges(x, y, w, h)|
    requires !EdgeFits(Edges(x, y, w, h)[i], Straight(x, y, w, h, i), clip, width, height)
    ensures Reached(Edges(x, y, w, h), clip, width, height, px, py)
         != VisibleOutline(x, y, w, h, clip, width, height, px, py)
  {
    var es := Edges(x, y, w, h);
    var t := TwoStep(es[i], clip, width, height);
    if Straight(x, y, w, h, i) {
      TwoStepExact(es[i], clip, width, height);
      px, py :| t.Contains(px, py) != Visible(es[i], clip, width, height, px, py);
      TwoStepNeverAdds(es[i], clip, width, height, px, py);
      EdgeOnOutline(x, y, w, h, i, px, py);
      var i' := EdgeOf(x, y, w, h, px, py);
      forall j | 0 <= j < |es|
        ensures !TwoStep(es[j], clip, width, height).Contains(px, py)
      {
        TwoStepNeverAdds(es[j], clip, width, height, px, py);
      }
    } else {
      TwoStepEmpty(es[i], clip, width, height);
      px, py := t.x, t.y;
      TwoStepNeverAdds(es[i], clip, width, height, px, py);
      EdgeOnOutline(x, y, w, h, i, px, py);
    }
  }

  /** Edges that fit `int32_t` and ordinary clips are all a caller needs. */
  lemma OrdinaryOutlinesFit(x: int32, y: int32, w: uint32, h: uint32, clip: Rect, width: uint32, height: uint32)
    requires ViewSize(width, height) && 1 <= w <= INT32_MAX && 1 <= h <= INT32_MAX
    requires x + w - 1 <= INT32_MAX && y + h - 1 <= INT32_MAX
    ensures EdgesFit(x, y, w, h, clip, width, height)
  {
    forall i | 0 <= i < |Edges(x, y, w, h)|
      ensures Straight(x, y, w, h, i) && ClipIsExact(Edges(x, y, w, h)[i], clip, width, height)
    {
      OrdinaryClipsAreExact(Edges(x, y, w, h)[i], clip, width, height);
    }
  }

  /** The failing family is not empty: a very tall rectangle from row 10 down puts a
      stray line on row 8. */
  lemma TallOutlineStrays(width: uint32, height: uint32)
    requires ViewSize(width, height) && width >= 1 && height >= 9
    ensures Reached(Edges(0, 10, 1, UINT32_MAX), View(width, height), width, height, 0, 8)
    ensures !OnOutline(0, 10, 1, UINT32_MAX, 0, 8)
  {
    assert Edges(0, 10, 1, UINT32_MAX)[1] == Rect(0, 8, 1, 1);
  }
}
