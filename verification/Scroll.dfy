/** `gfx_scroll`: moving the visible area over itself, in place. */
module Scroll {
  import opened Machine
  import opened Rects
  import opened Images
  import opened Inks
  import opened Canvas

  /** The visible area: clip and view, intersected directly. */
  ghost function VisibleArea(img: Image, clip: Rect): (v: Rect)
    ensures img.Valid() ==> Within(img, v)
  {
    Intersect(clip, View(img.width, img.height))
  }

  ghost predicate Within(img: Image, v: Rect) {
    v.Empty() || (0 <= v.x && 0 <= v.y && v.x + v.w <= img.width && v.y + v.h <= img.height)
  }

  /** The word that ends up at (x, y) of the area: what was at (x - dx, y - dy) if that is in
      the area too, else the fill colour. */
  ghost function Shifted(img: Image, v: Rect, dx: int, dy: int, fill: uint32, x: int, y: int): uint32
    requires img.Valid() && Within(img, v) && img.Inside(x, y)
  {
    if !v.Contains(x, y) then img.At(x, y)
    else if v.Contains(x - dx, y - dy) then img.At(x - dx, y - dy)
    else fill
  }

  /** The picture after scrolling the area `v`. */
  ghost function Scrolled(img: Image, v: Rect, dx: int, dy: int, fill: uint32): (r: Image)
    requires img.Valid() && Within(img, v)
    ensures r.Valid() && SameSize(r, img)
    ensures forall x, y {:trigger r.At(x, y)} :: img.Inside(x, y) ==> r.At(x, y) == Shifted(img, v, dx, dy, fill, x, y)
  {
    Tabulate(img.width, img.height,
             (x, y) => if img.Inside(x, y) then Shifted(img, v, dx, dy, fill, x, y) else 0)
  }

  // ----- memmove -----

  /** `memmove` of `n` words inside the buffer: ascending when the destination comes first, else descending,
      so that no word is overwritten before it is read. */
  method MemMove(a: array<uint32>, dst: int, src: int, n: int)
    requires 0 <= n && 0 <= dst && dst + n <= a.Length && 0 <= src && src + n <= a.Length
    modifies a
    ensures forall k {:trigger a[k]} :: 0 <= k < a.Length ==>
                          a[k] == if dst <= k < dst + n then old(a[src + (k - dst)]) else old(a[k])
  {
    if dst < src {
      var i := 0;
      while i < n
        invariant 0 <= i <= n
        invariant forall k {:trigger a[k]} :: 0 <= k < a.Length ==>
                    a[k] == if dst <= k < dst + i then old(a[src + (k - dst)]) else old(a[k])
      {
        a[dst + i] := a[src + i];
        i := i + 1;
      }
    } else {
      var i := n;
      while i != 0
        invariant 0 <= i <= n
        invariant forall k {:trigger a[k]} :: 0 <= k < a.Length ==>
                    a[k] == if dst + i <= k < dst + n then old(a[src + (k - dst)]) else old(a[k])
      {
        a[dst + i - 1] := a[src + i - 1];
        i := i - 1;
      }
    }
  }

  // ----- One row -----

  /** Row `yDst` of the area after one row step: row `ySrc` shifted by `dx`, fill where nothing arrives. */
  ghost predicate RowMoved(img: Image, img': Image, v: Rect, dx: int, yDst: int, ySrc: int, fill: uint32)
    requires img.Valid() && Within(img, v) && v.y <= yDst < v.y + v.h && v.y <= ySrc < v.y + v.h && !v.Empty()
  {
    && img'.Valid() && SameSize(img', img)
    && forall x, y {:trigger img'.At(x, y)} :: img.Inside(x, y) ==>
                        img'.At(x, y) == if y == yDst && v.x <= x < v.x + v.w
                                         then (if v.x <= x - dx < v.x + v.w then img.At(x - dx, ySrc) else fill)
                                         else img.At(x, y)
  }

  method FillSpan(a: array<uint32>, start: int, n: int, fill: uint32)
    requires 0 <= n && 0 <= start && start + n <= a.Length
    modifies a
    ensures forall k {:trigger a[k]} :: 0 <= k < a.Length ==> a[k] == if start <= k < start + n then fill else old(a[k])
  {
    var c := 0;
    while c < n
      invariant 0 <= c <= n
      invariant forall k :: 0 <= k < a.Length ==> a[k] == if start <= k < start + c then fill else old(a[k])
    {
      a[start + c] := fill;
      c := c + 1;
    }
  }

  /** The body of both row loops: a `memmove` inside or between rows and a fill of the exposed columns. */
  method MoveSpan(a: array<uint32>, dst: int, src: int, n: int, dx: int, fill: uint32)
    requires 1 <= n && 0 <= dst && dst + n <= a.Length && 0 <= src && src + n <= a.Length
    requires 0 < dx + n && dx < n
    modifies a
    ensures forall k {:trigger a[k]} :: 0 <= k < a.Length ==>
                          a[k] == if dst <= k < dst + n
                                  then (if 0 <= k - dst - dx < n then old(a[src + (k - dst) - dx]) else fill)
                                  else old(a[k])
  {
    if dx < 0 {
      var copyCols := n + dx;
      MemMove(a, dst, src - dx, copyCols);
      FillSpan(a, dst + copyCols, -dx, fill);
    } else if dx > 0 {
      var copyCols := n - dx;
      MemMove(a, dst + dx, src, copyCols);
      FillSpan(a, dst, dx, fill);
    } else {
      MemMove(a, dst, src, n);
    }
  }

  /** One row of the area moved to another, or over itself. */
  method MoveRow(h: Handle, v: Rect, dx: int32, yDst: int, ySrc: int, fill: uint32)
    requires h.Valid() && Within(h.Picture(), v) && !v.Empty() && -(v.w as int) < dx < v.w
    requires v.y <= yDst < v.y + v.h && v.y <= ySrc < v.y + v.h
    modifies h.pixels
    ensures RowMoved(old(h.Picture()), h.Picture(), v, dx, yDst, ySrc, fill)
  {
    ghost var img0 := h.Picture();
    RowSpan(h.width, h.height, v, yDst);
    RowSpan(h.width, h.height, v, ySrc);
    var dst, src := yDst * h.width + v.x, ySrc * h.width + v.x;
    MoveSpan(h.pixels, dst, src, v.w, dx, fill);
    SpanIsRow(img0, h.Picture(), v, dx, yDst, ySrc, dst, src, fill);
  }

  lemma RowSpan(width: int, height: int, v: Rect, y: int)
    requires 0 <= v.x && v.w >= 1 && v.x + v.w <= width && 0 <= y < height
    ensures 0 <= y * width + v.x && y * width + v.x + v.w <= width * height
  {
    IndexInRange(width, height, v.x, y);
  }

  /** A span of the buffer is a span of one row and of no other. */
  lemma SpanIsRow(img: Image, img': Image, v: Rect, dx: int, yDst: int, ySrc: int, dst: int, src: int, fill: uint32)
    requires img.Valid() && Within(img, v) && !v.Empty() && -(v.w as int) < dx < v.w
    requires v.y <= yDst < v.y + v.h && v.y <= ySrc < v.y + v.h
    requires SameSize(img', img) && |img'.words| == |img.words|
    requires dst == yDst * img.width + v.x && src == ySrc * img.width + v.x
    requires 0 <= dst && dst + v.w <= |img.words| && 0 <= src && src + v.w <= |img.words|
    requires forall k {:trigger img'.words[k]} :: 0 <= k < |img.words| ==>
                              img'.words[k] == if dst <= k < dst + v.w
                                               then (if 0 <= k - dst - dx < v.w
                                                     then img.words[src + (k - dst) - dx] else fill)
                                               else img.words[k]
    ensures RowMoved(img, img', v, dx, yDst, ySrc, fill)
  {
    forall x, y {:trigger img'.At(x, y)} | img.Inside(x, y)
      ensures img'.At(x, y) == if y == yDst && v.x <= x < v.x + v.w
                               then (if v.x <= x - dx < v.x + v.w then img.At(x - dx, ySrc) else fill)
                               else img.At(x, y)
    {
      IndexInRange(img.width, img.height, x, y);
      assert img'.At(x, y) == img'.words[y * img.width + x];
      if y == yDst {
        if v.x <= x - dx < v.x + v.w {
          assert img.At(x - dx, ySrc) == img.words[ySrc * img.width + (x - dx)];
        }
      } else {
        SpanMissesRow(img.width, v.x, v.w, yDst, x, y);
      }
    }
  }

  lemma SpanMissesRow(width: int, vx: int, vw: int, yDst: int, x: int, y: int)
    requires 0 <= vx && 0 <= vw && vx + vw <= width && 0 <= x < width && y != yDst
    ensures !(yDst * width + vx <= y * width + x < yDst * width + vx + vw)
  {
    if y < yDst { RowsApart(width, y, yDst); } else { RowsApart(width, yDst, y); }
  }

  // ----- Rows in order -----

  /** Rows [lo, hi) hold the scrolled picture, all others the original. */
  ghost predicate RowsDone(img0: Image, target: Image, img: Image, lo: int, hi: int) {
    && img0.Valid() && target.Valid() && img.Valid() && SameSize(img, img0) && SameSize(target, img0)
    && forall x, y {:trigger img.At(x, y)} :: img0.Inside(x, y) ==>
                        img.At(x, y) == if lo <= y < hi then target.At(x, y) else img0.At(x, y)
  }

  /** Moving a row whose source is still original extends the finished rows by one, upwards or downwards. */
  lemma RowStep(img0: Image, img: Image, img': Image, v: Rect, dx: int, dy: int, fill: uint32,
                lo: int, hi: int, yDst: int)
    requires img0.Valid() && Within(img0, v) && !v.Empty()
    requires RowsDone(img0, Scrolled(img0, v, dx, dy, fill), img, lo, hi)
    requires v.y <= yDst < v.y + v.h && v.y <= yDst - dy < v.y + v.h
    requires !(lo <= yDst - dy < hi) && (yDst == hi || yDst + 1 == lo) && lo <= hi
    requires RowMoved(img, img', v, dx, yDst, yDst - dy, fill)
    ensures RowsDone(img0, Scrolled(img0, v, dx, dy, fill), img',
                     if yDst == hi then lo else yDst, if yDst == hi then hi + 1 else hi)
  {
    var target := Scrolled(img0, v, dx, dy, fill);
    forall x, y | img0.Inside(x, y)
      ensures img'.At(x, y) == if lo <= y < hi || y == yDst then target.At(x, y) else img0.At(x, y)
    {
      if y == yDst && v.x <= x < v.x + v.w {
        assert target.At(x, y) == Shifted(img0, v, dx, dy, fill, x, y);
        if v.x <= x - dx < v.x + v.w {
          assert img'.At(x, y) == img.At(x - dx, yDst - dy) == img0.At(x - dx, yDst - dy);
        }
      } else {
        assert img'.At(x, y) == img.At(x, y);
        assert y == yDst ==> target.At(x, y) == img0.At(x, y);
      }
    }
  }

  /** Filling the exposed rows completes the picture. */
  lemma ExposedRows(img0: Image, img: Image, img': Image, clip: Rect, v: Rect, dx: int, dy: int, fill: uint32,
                    band: Rect)
    requires img0.Valid() && v == VisibleArea(img0, clip) && !v.Empty() && Within(img0, v)
    requires -(v.w as int) < dx < v.w && -(v.h as int) < dy < v.h
    requires RowsDone(img0, Scrolled(img0, v, dx, dy, fill), img,
                      if dy > 0 then v.y + dy else v.y, if dy > 0 then v.y + v.h else v.y + v.h + dy)
    requires band.x == v.x && band.w == v.w
    requires dy != 0 && band.h == (if dy > 0 then dy else -dy)
    requires band.y == if dy > 0 then v.y else v.y + v.h + dy
    requires img' == Drawn(img, clip, Call(band, Solid(fill)))
    ensures img' == Scrolled(img0, v, dx, dy, fill)
  {
    InnerRectUnclipped(band, clip, img0.width, img0.height);
    RegionDrawable(img, clip, Call(band, Solid(fill)));
    Extensional(img', Scrolled(img0, v, dx, dy, fill));
  }

  // ----- The full-width fast path -----

  /** Whole rows [lo, hi) copied with one `memmove` from `dy` rows away. */
  lemma BlockIsRows(img0: Image, img: Image, v: Rect, dy: int, fill: uint32, lo: int, hi: int,
                    dst: int, src: int, n: int)
    requires img0.Valid() && Within(img0, v) && !v.Empty() && v.x == 0 && v.w == img0.width
    requires v.y <= lo <= hi <= v.y + v.h && v.y <= lo - dy && hi - dy <= v.y + v.h
    requires dst == lo * img0.width && src == (lo - dy) * img0.width && dst + n == hi * img0.width
    requires 0 <= dst && dst + n <= |img0.words| && 0 <= src && src + n <= |img0.words|
    requires SameSize(img, img0) && |img.words| == |img0.words|
    requires forall k {:trigger img.words[k]} :: 0 <= k < |img.words| ==>
                              img.words[k] == if dst <= k < dst + n then img0.words[src + (k - dst)]
                                              else img0.words[k]
    ensures RowsDone(img0, Scrolled(img0, v, 0, dy, fill), img, lo, hi)
  {
    var w, target := img0.width, Scrolled(img0, v, 0, dy, fill);
    forall x, y {:trigger img.At(x, y)} | img0.Inside(x, y)
      ensures img.At(x, y) == if lo <= y < hi then target.At(x, y) else img0.At(x, y)
    {
      IndexInRange(w, img0.height, x, y);
      var k := y * w + x;
      assert img.At(x, y) == img.words[k];
      BlockHoldsRow(w, lo, hi, x, y);
      if lo <= y < hi {
        assert target.At(x, y) == img0.At(x, y - dy) == img0.words[(y - dy) * w + x];
        RowOfBlock(w, lo, dy, y);
      }
    }
  }

  lemma RowOfBlock(w: int, lo: int, dy: int, y: int)
    ensures (y - dy) * w == (lo - dy) * w + (y * w - lo * w)
  {
  }

  lemma BlockHoldsRow(w: int, lo: int, hi: int, x: int, y: int)
    requires 0 <= x < w && lo <= hi
    ensures lo * w <= y * w + x < hi * w <==> lo <= y < hi
  {
    if y < lo { RowsApart(w, y, lo); }
    if lo < y { RowsApart(w, lo, y); }
    if y < hi { RowsApart(w, y, hi); }
    if hi < y { RowsApart(w, hi, y); }
  }

  lemma RowStart(width: int, height: int, y: int)
    requires 0 < width && 0 <= y <= height
    ensures 0 <= y * width <= height * width
  {
    if 0 < y { RowsApart(width, 0, y); }
    if y < height { RowsApart(width, y, height); }
  }

  lemma BlockInRange(w: int, height: int, lo: int, hi: int, dy: int, dst: int, src: int, n: int)
    requires 0 < w && 0 <= lo <= hi <= height && 0 <= lo - dy && hi - dy <= height
    requires dst == lo * w && src == (lo - dy) * w && n == (hi - lo) * w
    ensures dst + n == hi * w
    ensures 0 <= n && 0 <= dst && dst + n <= w * height && 0 <= src && src + n <= w * height
  {
    RowStart(w, height, lo);
    RowStart(w, height, hi);
    RowStart(w, height, lo - dy);
    RowStart(w, height, hi - dy);
    RowStart(w, height, hi - lo);
    assert (hi - dy) * w == src + n;
  }

  /** Rows [lo, hi) of a full-width area replaced by the rows `dy` above or below. */
  method MoveBlock(h: Handle, v: Rect, dy: int32, fill: uint32, lo: int, hi: int)
    requires h.Valid() && Within(h.Picture(), v) && !v.Empty() && v.x == 0 && v.w == h.width
    requires v.y <= lo <= hi <= v.y + v.h && v.y <= lo - dy && hi - dy <= v.y + v.h
    modifies h.pixels
    ensures RowsDone(old(h.Picture()), Scrolled(old(h.Picture()), v, 0, dy, fill), h.Picture(), lo, hi)
  {
    ghost var img0 := h.Picture();
    var dst, src, n := lo * h.width, (lo - dy) * h.width, (hi - lo) * h.width;
    BlockInRange(h.width, h.height, lo, hi, dy, dst, src, n);
    MemMove(h.pixels, dst, src, n);
    BlockIsRows(img0, h.Picture(), v, dy, fill, lo, hi, dst, src, n);
  }

  // ----- The whole call -----

  lemma NothingToScroll(img: Image, v: Rect, dx: int, dy: int, fill: uint32)
    requires img.Valid() && Within(img, v)
    requires v.Empty() || (dx == 0 && dy == 0)
    ensures Scrolled(img, v, dx, dy, fill) == img
  {
    Extensional(Scrolled(img, v, dx, dy, fill), img);
  }

  /** A shift as large as the area clears it. */
  lemma EverythingExposed(img: Image, clip: Rect, v: Rect, dx: int, dy: int, fill: uint32)
    requires img.Valid() && v == VisibleArea(img, clip) && Within(img, v) && !v.Empty()
    requires dx >= v.w || dx <= -(v.w as int) || dy >= v.h || dy <= -(v.h as int)
    ensures Drawn(img, clip, Call(v, Solid(fill))) == Scrolled(img, v, dx, dy, fill)
  {
    InnerRectUnclipped(v, clip, img.width, img.height);
    RegionDrawable(img, clip, Call(v, Solid(fill)));
    Extensional(Drawn(img, clip, Call(v, Solid(fill))), Scrolled(img, v, dx, dy, fill));
  }

  lemma NoRowsYet(img: Image, target: Image, y: int)
    requires img.Valid() && target.Valid() && SameSize(img, target)
    ensures RowsDone(img, target, img, y, y)
  {
  }

  /** With no vertical shift the moved rows are the whole area. */
  lemma AllRowsDone(img0: Image, img: Image, v: Rect, dx: int, fill: uint32)
    requires img0.Valid() && Within(img0, v) && !v.Empty()
    requires RowsDone(img0, Scrolled(img0, v, dx, 0, fill), img, v.y, v.y + v.h)
    ensures img == Scrolled(img0, v, dx, 0, fill)
  {
    Extensional(img, Scrolled(img0, v, dx, 0, fill));
  }

  /** Shifts up or sideways: rows from the top down. */
  method MoveRowsUp(h: Handle, v: Rect, dx: int32, dy: int32, fill: uint32)
    requires h.Valid() && Within(h.Picture(), v) && !v.Empty()
    requires -(v.w as int) < dx < v.w && -(v.h as int) < dy <= 0
    modifies h.pixels
    ensures RowsDone(old(h.Picture()), Scrolled(old(h.Picture()), v, dx, dy, fill), h.Picture(), v.y, v.y + v.h + dy)
  {
    ghost var img0 := h.Picture();
    NoRowsYet(img0, Scrolled(img0, v, dx, dy, fill), v.y);
    var copyLines := v.h + dy;
    var r := 0;
    while r < copyLines
      invariant 0 <= r <= copyLines
      invariant RowsDone(img0, Scrolled(img0, v, dx, dy, fill), h.Picture(), v.y, v.y + r)
    {
      ghost var img := h.Picture();
      MoveRow(h, v, dx, v.y + r, v.y + r - dy, fill);
      RowStep(img0, img, h.Picture(), v, dx, dy, fill, v.y, v.y + r, v.y + r);
      r := r + 1;
    }
  }

  /** Shifts down: rows from the bottom up. */
  method MoveRowsDown(h: Handle, v: Rect, dx: int32, dy: int32, fill: uint32)
    requires h.Valid() && Within(h.Picture(), v) && !v.Empty()
    requires -(v.w as int) < dx < v.w && 0 < dy < v.h
    modifies h.pixels
    ensures RowsDone(old(h.Picture()), Scrolled(old(h.Picture()), v, dx, dy, fill), h.Picture(), v.y + dy, v.y + v.h)
  {
    ghost var img0 := h.Picture();
    NoRowsYet(img0, Scrolled(img0, v, dx, dy, fill), v.y + v.h);
    var i := v.h - dy;
    while i > 0
      invariant 0 <= i <= v.h - dy
      invariant RowsDone(img0, Scrolled(img0, v, dx, dy, fill), h.Picture(), v.y + dy + i, v.y + v.h)
    {
      ghost var img := h.Picture();
      var r := i - 1;
      MoveRow(h, v, dx, v.y + r + dy, v.y + r, fill);
      RowStep(img0, img, h.Picture(), v, dx, dy, fill, v.y + dy + i, v.y + v.h, v.y + r + dy);
      i := i - 1;
    }
  }

  /** `gfx_scroll`. */
  method GfxScroll(h: Handle, dx: int32, dy: int32, fill: uint32)
    requires h.Valid()
    modifies h.pixels
    ensures h.Picture() == Scrolled(old(h.Picture()), VisibleArea(old(h.Picture()), h.clip), dx, dy, fill)
  {
    ghost var img0 := h.Picture();
    ghost var area := VisibleArea(img0, h.clip);
    if area.Empty() || (dx == 0 && dy == 0) { NothingToScroll(img0, area, dx, dy, fill); }
    if dx == 0 && dy == 0 { return; }
    var vx, vy, vw, vh := IntersectRect(h.clip.x, h.clip.y, h.clip.w, h.clip.h, 0, 0, h.width, h.height);
    if vw == 0 || vh == 0 { return; }
    var v := Rect(vx, vy, vw, vh);
    if dx >= vw || dx <= -(vw as int) || dy >= vh || dy <= -(vh as int) {
      EverythingExposed(img0, h.clip, v, dx, dy, fill);
      FillRect(h, vx, vy, vw, vh, fill);
      return;
    }
    MoveInside(h, v, dx, dy, fill);
    if dy != 0 {
      FillExposed(h, v, dx, dy, fill, img0);
    } else {
      AllRowsDone(img0, h.Picture(), v, dx, fill);
    }
  }

  /** The choice among the three ways to move the rows that stay visible. */
  method MoveInside(h: Handle, v: Rect, dx: int32, dy: int32, fill: uint32)
    requires h.Valid() && Within(h.Picture(), v) && !v.Empty() && !(dx == 0 && dy == 0)
    requires -(v.w as int) < dx < v.w && -(v.h as int) < dy < v.h
    modifies h.pixels
    ensures RowsDone(old(h.Picture()), Scrolled(old(h.Picture()), v, dx, dy, fill), h.Picture(),
                     if dy > 0 then v.y + dy else v.y, if dy > 0 then v.y + v.h else v.y + v.h + dy)
  {
    if dx == 0 && v.x == 0 && v.w == h.width {
      if dy < 0 {
        MoveBlock(h, v, dy, fill, v.y, v.y + v.h + dy);
      } else {
        MoveBlock(h, v, dy, fill, v.y + dy, v.y + v.h);
      }
    } else if dy <= 0 {
      MoveRowsUp(h, v, dx, dy, fill);
    } else {
      MoveRowsDown(h, v, dx, dy, fill);
    }
  }

  /** The fill of the rows that nothing was moved into. */
  method FillExposed(h: Handle, v: Rect, dx: int32, dy: int32, fill: uint32, ghost img0: Image)
    requires h.Valid() && img0.Valid() && v == VisibleArea(img0, h.clip) && !v.Empty()
    requires -(v.w as int) < dx < v.w && -(v.h as int) < dy < v.h && dy != 0
    requires RowsDone(img0, Scrolled(img0, v, dx, dy, fill), h.Picture(),
                      if dy > 0 then v.y + dy else v.y, if dy > 0 then v.y + v.h else v.y + v.h + dy)
    modifies h.pixels
    ensures h.Picture() == Scrolled(img0, v, dx, dy, fill)
  {
    ghost var img := h.Picture();
    var top, lines := if dy > 0 then v.y else v.y + v.h + dy, if dy > 0 then dy else -dy;
    FillRect(h, v.x, top, v.w, lines, fill);
    ExposedRows(img0, img, h.Picture(), h.clip, v, dx, dy, fill, Rect(v.x, top, v.w, lines));
  }

  // ----- Composition -----

  /** The shifts do not work against each other. */
  predicate SameWay(a: int, b: int) {
    (a >= 0 && b >= 0) || (a <= 0 && b <= 0)
  }

  /** Two scrolls in a row are one scroll by the sum, unless something that the first one pushes
      out would have come back into view. */
  predicate Composes(v: Rect, dx1: int, dy1: int, dx2: int, dy2: int) {
    || v.Empty()
    || dx1 + dx2 >= v.w || dx1 + dx2 <= -(v.w as int)
    || dy1 + dy2 >= v.h || dy1 + dy2 <= -(v.h as int)
    || (SameWay(dx1, dx2) && SameWay(dy1, dy2))
  }

  lemma ScrollTwice(img: Image, v: Rect, dx1: int, dy1: int, dx2: int, dy2: int, fill: uint32)
    requires img.Valid() && Within(img, v) && Composes(v, dx1, dy1, dx2, dy2)
    ensures Scrolled(Scrolled(img, v, dx1, dy1, fill), v, dx2, dy2, fill)
         == Scrolled(img, v, dx1 + dx2, dy1 + dy2, fill)
  {
    var once := Scrolled(img, v, dx1, dy1, fill);
    var twice, sum := Scrolled(once, v, dx2, dy2, fill), Scrolled(img, v, dx1 + dx2, dy1 + dy2, fill);
    forall x, y {:trigger twice.At(x, y)} | img.Inside(x, y)
      ensures twice.At(x, y) == sum.At(x, y)
    {
      assert twice.At(x, y) == Shifted(once, v, dx2, dy2, fill, x, y);
      if v.Contains(x, y) && v.Contains(x - dx2, y - dy2) {
        assert once.At(x - dx2, y - dy2) == Shifted(img, v, dx1, dy1, fill, x - dx2, y - dy2);
      }
    }
    Extensional(twice, sum);
  }

  /** Whatever the picture and the fill colour, two scrolls are one scroll by the sum. */
  ghost predicate AlwaysComposes(width: uint32, height: uint32, v: Rect, dx1: int, dy1: int, dx2: int, dy2: int) {
    forall img: Image, fill: uint32 :: img.Valid() && img.width == width && img.height == height && Within(img, v) ==>
      Scrolled(Scrolled(img, v, dx1, dy1, fill), v, dx2, dy2, fill) == Scrolled(img, v, dx1 + dx2, dy1 + dy2, fill)
  }

  /** The condition is exact. */
  lemma ScrollTwiceExactly(width: uint32, height: uint32, v: Rect, dx1: int, dy1: int, dx2: int, dy2: int)
    requires ViewSize(width, height)
    requires v.Empty() || (0 <= v.x && 0 <= v.y && v.x + v.w <= width && v.y + v.h <= height)
    ensures AlwaysComposes(width, height, v, dx1, dy1, dx2, dy2) <==> Composes(v, dx1, dy1, dx2, dy2)
  {
    if Composes(v, dx1, dy1, dx2, dy2) {
      forall img: Image, fill: uint32 | img.Valid() && img.width == width && img.height == height && Within(img, v)
        ensures Scrolled(Scrolled(img, v, dx1, dy1, fill), v, dx2, dy2, fill)
             == Scrolled(img, v, dx1 + dx2, dy1 + dy2, fill)
      {
        ScrollTwice(img, v, dx1, dy1, dx2, dy2, fill);
      }
    } else {
      var img := Tabulate(width, height, (x, y) => 0);
      var x, y := ComesBack(v, dx1, dy1, dx2, dy2);
      var once := Scrolled(img, v, dx1, dy1, 1);
      var twice, sum := Scrolled(once, v, dx2, dy2, 1), Scrolled(img, v, dx1 + dx2, dy1 + dy2, 1);
      assert img.At(x - dx1 - dx2, y - dy1 - dy2) == 0;
      assert sum.At(x, y) == 0 && twice.At(x, y) == 1;
    }
  }

  /** A pixel whose word leaves the area with the first scroll and returns with the second. */
  lemma ComesBack(v: Rect, dx1: int, dy1: int, dx2: int, dy2: int) returns (x: int, y: int)
    requires !Composes(v, dx1, dy1, dx2, dy2)
    ensures v.Contains(x, y) && v.Contains(x - dx1 - dx2, y - dy1 - dy2) && !v.Contains(x - dx2, y - dy2)
  {
    // The first or last column (row) that the sum still fills, on the side the detour leaves by.
    var sx, sy := dx1 + dx2, dy1 + dy2;
    x := if dx2 > Max(0, sx) then v.x + Max(0, sx) else v.x + v.w - 1 + Min(0, sx);
    y := if dy2 > Max(0, sy) then v.y + Max(0, sy) else v.y + v.h - 1 + Min(0, sy);
  }
}
