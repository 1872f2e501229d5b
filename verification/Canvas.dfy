/** The handle and the rectangle-shaped primitives of `line.c`. */
module Canvas {
  import opened Machine
  import opened Rects
  import opened Images
  import opened Inks

  /** `struct gfx_handle`: the pixel buffer, its size and the library-local clip. */
  class Handle {
    const width: uint32
    const height: uint32
    const pixels: array<uint32>
    var clip: Rect

    ghost predicate Valid()
      reads this
    {
      ViewSize(width, height) && pixels.Length == width * height
    }

    ghost function Picture(): (img: Image)
      reads this, pixels
      requires Valid()
      ensures img.Valid()
    {
      Image(width, height, pixels[..])
    }

    /** Where a request lands under the current clip. */
    ghost function Region(request: Rect): Rect
      reads this
    {
      TwoStep(request, clip, width, height)
    }

    /** `gfx_open`, once the device has reported a view of this size: a zeroed buffer and
        a clip equal to the view. */
    constructor (width: uint32, height: uint32)
      requires ViewSize(width, height)
      ensures Valid() && fresh(pixels)
      ensures this.width == width && this.height == height
      ensures clip == View(width, height)
      ensures forall k :: 0 <= k < pixels.Length ==> pixels[k] == 0
    {
      this.width, this.height := width, height;
      IndexInRange(width, height, 0, 0);
      this.pixels := new uint32[width * height](_ => 0);
      this.clip := Rect(0, 0, width, height);
    }

    /** `gfx_set_clip`: any rectangle is accepted, nothing is drawn. */
    method SetClip(x: int32, y: int32, w: uint32, h: uint32)
      modifies this
      ensures clip == Rect(x, y, w, h)
    {
      clip := Rect(x, y, w, h);
    }

    /** One word written at the index of pixel (x, y). */
    method Store(x: int, y: int, c: uint32)
      requires Valid() && Picture().Inside(x, y)
      modifies pixels
      ensures Picture() == Set(old(Picture()), x, y, c)
    {
      IndexInRange(width, height, x, y);
      pixels[y * width + x] := c;
    }
  }

  /** The part of a request that is drawn is part of the request and of the buffer. */
  lemma RegionDrawable(img: Image, clip: Rect, c: Call)
    requires img.Valid() && Sourced(c)
    ensures Drawable(img, TwoStep(c.request, clip, img.width, img.height), c)
  {
    forall x, y | TwoStep(c.request, clip, img.width, img.height).Contains(x, y)
      ensures c.request.Contains(x, y) && img.Inside(x, y)
    {
      TwoStepNeverAdds(c.request, clip, img.width, img.height, x, y);
    }
  }

  /** The picture after a call under a clip. */
  ghost function Drawn(img: Image, clip: Rect, c: Call): (r: Image)
    requires img.Valid() && Sourced(c)
    ensures r.Valid() && SameSize(r, img)
  {
    RegionDrawable(img, clip, c);
    Paint(img, TwoStep(c.request, clip, img.width, img.height), c)
  }

  lemma EmptyRegionDrawsNothing(img: Image, clip: Rect, c: Call)
    requires img.Valid() && Sourced(c)
    requires TwoStep(c.request, clip, img.width, img.height).Empty()
    ensures Drawn(img, clip, c) == img
  {
    Extensional(Drawn(img, clip, c), img);
  }

  /** The two intersections every primitive opens with: the request against the clip, and
      what is left against the view.  An empty result is a silent no-op for the caller. */
  method ClipToView(h: Handle, request: Rect) returns (cx: int32, cy: int32, cw: uint32, ch: uint32)
    requires h.Valid()
    ensures Rect(cx, cy, cw, ch) == h.Region(request)
  {
    cx, cy, cw, ch := IntersectRect(request.x, request.y, request.w, request.h,
                                    h.clip.x, h.clip.y, h.clip.w, h.clip.h);
    if cw == 0 || ch == 0 { return; }
    cx, cy, cw, ch := IntersectRect(cx, cy, cw, ch, 0, 0, h.width, h.height);
  }

  /** `gfx__fill_rect_impl`. */
  method FillRect(h: Handle, x: int32, y: int32, w: uint32, hh: uint32, color: uint32)
    requires h.Valid()
    modifies h.pixels
    ensures h.Picture() == Drawn(old(h.Picture()), h.clip, Call(Rect(x, y, w, hh), Solid(color)))
  {
    ghost var img0 := h.Picture();
    ghost var c := Call(Rect(x, y, w, hh), Solid(color));
    ghost var region := h.Region(c.request);
    RegionDrawable(img0, h.clip, c);
    if region.Empty() { EmptyRegionDrawsNothing(img0, h.clip, c); }
    if w == 0 || hh == 0 { return; }
    var cx, cy, cw, ch := ClipToView(h, Rect(x, y, w, hh));
    if cw == 0 || ch == 0 { return; }
    var row := 0;
    while row < ch
      invariant 0 <= row <= ch
      invariant Progress(img0, h.Picture(), region, c, cx, cy + row)
    {
      var col := 0;
      while col < cw
        invariant 0 <= col <= cw
        invariant Progress(img0, h.Picture(), region, c, cx + col, cy + row)
      {
        ghost var img := h.Picture();
        h.Store(cx + col, cy + row, color);
        Advance(img0, img, h.Picture(), region, c, cx + col, cy + row);
        col := col + 1;
      }
      row := row + 1;
    }
    Finish(img0, h.Picture(), region, c);
  }

  /** `gfx__hline_impl`. */
  method HLine(h: Handle, x: int32, y: int32, w: uint32, color: uint32)
    requires h.Valid()
    modifies h.pixels
    ensures h.Picture() == Drawn(old(h.Picture()), h.clip, Call(Rect(x, y, w, 1), Solid(color)))
  {
    ghost var img0 := h.Picture();
    ghost var c := Call(Rect(x, y, w, 1), Solid(color));
    ghost var region := h.Region(c.request);
    RegionDrawable(img0, h.clip, c);
    if region.Empty() { EmptyRegionDrawsNothing(img0, h.clip, c); }
    if w == 0 { return; }
    var cx, cy, cw, ch := ClipToView(h, Rect(x, y, w, 1));
    if cw == 0 { return; }
    var i := 0;
    while i < cw
      invariant 0 <= i <= cw
      invariant Progress(img0, h.Picture(), region, c, cx + i, cy)
    {
      ghost var img := h.Picture();
      h.Store(cx + i, cy, color);
      Advance(img0, img, h.Picture(), region, c, cx + i, cy);
      i := i + 1;
    }
    Finish(img0, h.Picture(), region, c);
  }

  /** `gfx__vline_impl`. */
  method VLine(h: Handle, x: int32, y: int32, hh: uint32, color: uint32)
    requires h.Valid()
    modifies h.pixels
    ensures h.Picture() == Drawn(old(h.Picture()), h.clip, Call(Rect(x, y, 1, hh), Solid(color)))
  {
    ghost var img0 := h.Picture();
    ghost var c := Call(Rect(x, y, 1, hh), Solid(color));
    ghost var region := h.Region(c.request);
    RegionDrawable(img0, h.clip, c);
    if region.Empty() { EmptyRegionDrawsNothing(img0, h.clip, c); }
    if hh == 0 { return; }
    var cx, cy, cw, ch := ClipToView(h, Rect(x, y, 1, hh));
    if ch == 0 { return; }
    var i := 0;
    while i < ch
      invariant 0 <= i <= ch
      invariant Progress(img0, h.Picture(), region, c, cx, cy + i)
    {
      ghost var img := h.Picture();
      h.Store(cx, cy + i, color);
      Advance(img0, img, h.Picture(), region, c, cx, cy + i);
      i := i + 1;
    }
    Finish(img0, h.Picture(), region, c);
  }

  /** Several calls, one after the other, under one clip. */
  ghost function DrawnAll(img: Image, clip: Rect, calls: seq<Call>): (r: Image)
    requires img.Valid() && forall i :: 0 <= i < |calls| ==> Sourced(calls[i])
    ensures r.Valid() && SameSize(r, img)
    decreases |calls|
  {
    if calls == [] then img else DrawnAll(Drawn(img, clip, calls[0]), clip, calls[1..])
  }
}
