/** Lines drawn in pieces: which lines paint the same pixels whatever the clip cuts off. */
module LineTiling {
  import opened Machine
  import opened Images
  import opened Rects
  import opened Scroll
  import opened LineClip
  import opened Bresenham
  import opened Lines
  import opened Diagonals
  import opened LostPixels
  import opened Tiling

  /** A horizontal, vertical or diagonal line. */
  predicate WholePixels(l: Track) {
    l.x0 == l.x1 || l.y0 == l.y1 || Diagonal(l)
  }

  /** The pixel is a point of the segment. */
  predicate OnSegment(l: Track, x: int, y: int) {
    && Min(l.x0, l.x1) <= x <= Max(l.x0, l.x1) && Min(l.y0, l.y1) <= y <= Max(l.y0, l.y1)
    && (x - l.x0) * (l.y1 - l.y0) == (y - l.y0) * (l.x1 - l.x0)
  }

  lemma DiagonalProduct(u: int, w: int, n: int, p: int, q: int)
    requires n > 0 && (p == n || p == -n) && (q == n || q == -n)
    ensures u * q == w * p <==> if p == q then u == w else u == -w
  {
    if u < w { RowsApart(n, u, w); }
    if w < u { RowsApart(n, w, u); }
    if u < -w { RowsApart(n, u, -w); }
    if -w < u { RowsApart(n, -w, u); }
  }

  lemma OnDiagonalSegment(l: Track, x: int, y: int)
    requires Diagonal(l)
    ensures OnDiagonal(l, 0, l.Adx(), x, y) <==> OnSegment(l, x, y)
  {
    DiagonalProduct(x - l.x0, y - l.y0, l.Adx(), l.x1 - l.x0, l.y1 - l.y0);
  }

  lemma OnAxisSegment(l: Track, x: int, y: int)
    ensures l.y0 == l.y1 ==> (OnSegment(l, x, y) <==> y == l.y0 && Min(l.x0, l.x1) <= x <= Max(l.x0, l.x1))
    ensures l.x0 == l.x1 ==> (OnSegment(l, x, y) <==> x == l.x0 && Min(l.y0, l.y1) <= y <= Max(l.y0, l.y1))
  {
  }

  /** Such a line paints exactly the pixels of its segment inside clip and view, whatever its endpoints. */
  lemma WholePixelLine(img: Image, clip: Rect, x0: int32, y0: int32, x1: int32, y1: int32, x: int, y: int)
    requires img.Valid() && WholePixels(Track(x0, y0, x1, y1))
    ensures LineHas(img, clip, x0, y0, x1, y1, x, y)
        <==> OnSegment(Track(x0, y0, x1, y1), x, y) && clip.Contains(x, y) && img.Inside(x, y)
  {
    if y0 == y1 {
      HorizontalLine(img, clip, x0, x1, y0, x, y);
      OnAxisSegment(Track(x0, y0, x1, y1), x, y);
    } else if x0 == x1 {
      VerticalLine(img, clip, x0, y0, y1, x, y);
      OnAxisSegment(Track(x0, y0, x1, y1), x, y);
    } else {
      DiagonalLine(img, clip, x0, y0, x1, y1, x, y);
      OnDiagonalSegment(Track(x0, y0, x1, y1), x, y);
    }
  }

  // ----- Smaller clips -----

  /** Under `part` the line paints what it paints under `clip`, inside `part`. */
  ghost predicate Restricts(img: Image, clip: Rect, part: Rect, x0: int32, y0: int32, x1: int32, y1: int32) {
    forall x, y {:trigger LineHas(img, part, x0, y0, x1, y1, x, y)} ::
      LineHas(img, part, x0, y0, x1, y1, x, y)
      <==> LineHas(img, clip, x0, y0, x1, y1, x, y) && part.Contains(x, y)
  }

  /** Every smaller clip only cuts pixels off. */
  ghost predicate ClipConsistent(img: Image, x0: int32, y0: int32, x1: int32, y1: int32) {
    forall clip, part :: PartOf(part, clip) ==> Restricts(img, clip, part, x0, y0, x1, y1)
  }

  /** Horizontal, vertical and diagonal lines are consistent, also with endpoints outside the view. */
  lemma WholePixelsConsistent(img: Image, x0: int32, y0: int32, x1: int32, y1: int32)
    requires img.Valid() && WholePixels(Track(x0, y0, x1, y1))
    ensures ClipConsistent(img, x0, y0, x1, y1)
  {
    forall clip, part | PartOf(part, clip)
      ensures Restricts(img, clip, part, x0, y0, x1, y1)
    {
      forall x, y {:trigger LineHas(img, part, x0, y0, x1, y1, x, y)}
        ensures LineHas(img, part, x0, y0, x1, y1, x, y)
            <==> LineHas(img, clip, x0, y0, x1, y1, x, y) && part.Contains(x, y)
      {
        WholePixelLine(img, clip, x0, y0, x1, y1, x, y);
        WholePixelLine(img, part, x0, y0, x1, y1, x, y);
      }
    }
  }

  /** Of the lines between pixels of the view, those are the only ones. */
  lemma ConsistentExactly(img: Image, x0: int32, y0: int32, x1: int32, y1: int32)
    requires img.Valid() && img.Inside(x0, y0) && img.Inside(x1, y1)
    ensures ClipConsistent(img, x0, y0, x1, y1) <==> WholePixels(Track(x0, y0, x1, y1))
  {
    if WholePixels(Track(x0, y0, x1, y1)) {
      WholePixelsConsistent(img, x0, y0, x1, y1);
    } else {
      var part, x, y := LostToSomeClip(img, x0, y0, x1, y1);
      assert !Restricts(img, View(img.width, img.height), part, x0, y0, x1, y1);
    }
  }

  /** Every other line between pixels of the view loses a pixel to some part of it. */
  lemma LostToSomeClip(img: Image, x0: int32, y0: int32, x1: int32, y1: int32) returns (part: Rect, x: int, y: int)
    requires img.Valid() && img.Inside(x0, y0) && img.Inside(x1, y1) && !WholePixels(Track(x0, y0, x1, y1))
    ensures Lost(img, part, x0, y0, x1, y1, x, y)
  {
    if Abs(y1 - y0) < Abs(x1 - x0) {
      part, x, y := RowLoss(img, x0, y0, x1, y1);
    } else {
      part, x, y := ColumnLoss(img, x0, y0, x1, y1);
    }
  }

  /** One of them: from (0, 0) to (10, 3), with the first column cut off. */
  lemma ShiftedLine(img: Image)
    requires img.Valid() && img.width == 20 && img.height == 20
    ensures Lost(img, Rect(1, 0, 19, 20), 0, 0, 10, 3, 2, 1)
  {
    ShiftedTrack(BoxOf(Rect(1, 0, 19, 20)));
    assert Track(0, 0, 10, 3).Has(2, 1);
    IsLost(img, Rect(1, 0, 19, 20), 0, 0, 10, 3, 2, 1);
  }

  lemma ShiftedTrack(box: Box)
    requires box == Box(1, 0, 20, 20)
    ensures !BoxLineHas(box, 0, 0, 10, 3, 2, 1)
  {
    var l := Track(1, 0, 10, 3);
    ColumnStart(box, 10.0, 3.0, 0, 0, 10, 3, 1, 0.3, Rounds());
    CutTrack(box, Point(1.0, 0.3), 1, 0, 10, 3);
    OffShiftedTrack(l);
    NotPainted(box, 0, 0, 10, 3, l, 2, 1);
  }

  lemma OffShiftedTrack(l: Track)
    requires l == Track(1, 0, 10, 3)
    ensures !l.Has(2, 1)
  {
  }

  /** Under a clip that contains both endpoints, any line is what it is under a larger one. */
  lemma VisibleEndsRestrict(img: Image, clip: Rect, part: Rect, x0: int32, y0: int32, x1: int32, y1: int32)
    requires img.Valid() && PartOf(part, clip) && img.Inside(x0, y0) && img.Inside(x1, y1)
    requires part.Contains(x0, y0) && part.Contains(x1, y1)
    ensures Restricts(img, clip, part, x0, y0, x1, y1)
  {
    DirectClipExact(clip, img.width, img.height, x0, y0);
    DirectClipExact(clip, img.width, img.height, x1, y1);
    DirectClipExact(part, img.width, img.height, x0, y0);
    DirectClipExact(part, img.width, img.height, x1, y1);
    forall x, y {:trigger LineHas(img, part, x0, y0, x1, y1, x, y)}
      ensures LineHas(img, part, x0, y0, x1, y1, x, y)
          <==> LineHas(img, clip, x0, y0, x1, y1, x, y) && part.Contains(x, y)
    {
      VisibleLineUnclipped(img, clip, x0, y0, x1, y1, x, y);
      VisibleLineUnclipped(img, part, x0, y0, x1, y1, x, y);
      if Track(x0, y0, x1, y1).Has(x, y) { PathInBox(Track(x0, y0, x1, y1), x, y); }
    }
  }

  // ----- Tiles -----

  /** The same line once under each clip of a list. */
  ghost function LineDrawnUnder(img: Image, clips: seq<Rect>, x0: int32, y0: int32, x1: int32, y1: int32, color: uint32)
    : (r: Image)
    requires img.Valid()
    ensures r.Valid() && SameSize(r, img)
    decreases |clips|
  {
    if clips == [] then img
    else LineDrawnUnder(LineDrawn(img, clips[0], x0, y0, x1, y1, color), clips[1..], x0, y0, x1, y1, color)
  }

  lemma {:induction false} LineDrawnUnderAt(img: Image, clips: seq<Rect>, x0: int32, y0: int32, x1: int32, y1: int32,
                                            color: uint32, x: int, y: int)
    requires img.Valid() && img.Inside(x, y) && WholePixels(Track(x0, y0, x1, y1))
    ensures LineDrawnUnder(img, clips, x0, y0, x1, y1, color).At(x, y)
         == if OnSegment(Track(x0, y0, x1, y1), x, y) && Union(clips, x, y) then color else img.At(x, y)
    decreases |clips|
  {
    if clips != [] {
      LineDrawnUnderAt(LineDrawn(img, clips[0], x0, y0, x1, y1, color), clips[1..], x0, y0, x1, y1, color, x, y);
      WholePixelLine(img, clips[0], x0, y0, x1, y1, x, y);
      UnionOfRest(clips, x, y);
    }
  }

  /** Clip tiling for those lines: once under a clip, or under any tiles that cover it, in any order. */
  lemma TilesDrawTheLine(img: Image, clip: Rect, tiles: seq<Rect>, x0: int32, y0: int32, x1: int32, y1: int32,
                         color: uint32)
    requires img.Valid() && WholePixels(Track(x0, y0, x1, y1))
    requires forall x, y :: img.Inside(x, y) ==> (clip.Contains(x, y) <==> Union(tiles, x, y))
    ensures LineDrawnUnder(img, tiles, x0, y0, x1, y1, color) == LineDrawn(img, clip, x0, y0, x1, y1, color)
  {
    var a, b := LineDrawnUnder(img, tiles, x0, y0, x1, y1, color), LineDrawn(img, clip, x0, y0, x1, y1, color);
    forall x, y {:trigger a.At(x, y)} | img.Inside(x, y)
      ensures a.At(x, y) == b.At(x, y)
    {
      LineDrawnUnderAt(img, tiles, x0, y0, x1, y1, color, x, y);
      WholePixelLine(img, clip, x0, y0, x1, y1, x, y);
    }
    Extensional(a, b);
  }
}
