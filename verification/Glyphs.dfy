/** `gfx_draw_glyph`: the unrolled path for 8-pixel-wide glyphs and the general clipped path
    are both proved against the one meaning of a glyph call. */
module Glyphs {
  import opened Machine
  import opened Rects
  import opened Images
  import opened Inks
  import opened Canvas
  import opened Sprites

  /** The guard of the fast path. */
  predicate FitsUnclipped(clip: Rect, width: uint32, height: uint32, r: Rect) {
    && r.w == 8
    && r.x >= clip.x && r.x + 8 <= clip.x + clip.w
    && r.y >= clip.y && r.y + r.h <= clip.y + clip.h
    && r.x >= 0 && r.x + 8 <= width
    && r.y >= 0 && r.y + r.h <= height
  }

  lemma FittingGlyphUnclipped(clip: Rect, width: uint32, height: uint32, r: Rect)
    requires ViewSize(width, height) && r.h >= 1
    requires FitsUnclipped(clip, width, height, r)
    ensures TwoStep(r, clip, width, height) == r
  {
  }

  /** One glyph pixel: foreground, background, or nothing. */
  method Dot(h: Handle, x: int, y: int, lit: bool, fg: uint32, bg: uint32, opaqueBg: bool,
             ghost img0: Image, ghost region: Rect, ghost c: Call)
    requires h.Valid() && Drawable(img0, region, c) && region.Contains(x, y)
    requires SameSize(img0, h.Picture()) && Progress(img0, h.Picture(), region, c, x, y)
    requires Wanted(c, x, y) == if lit then Some(fg) else if opaqueBg then Some(bg) else None
    modifies h.pixels
    ensures Progress(img0, h.Picture(), region, c, x + 1, y)
  {
    ghost var img := h.Picture();
    if lit {
      h.Store(x, y, fg);
    } else if opaqueBg {
      h.Store(x, y, bg);
    }
    Advance(img0, img, h.Picture(), region, c, x, y);
  }

  /** A row of an 8-pixel-wide glyph call whose mask byte is `mb`. */
  ghost predicate RowOf8(c: Call, x: int, y: int, mb: bv8, fg: uint32, bg: uint32, opaqueBg: bool) {
    && Sourced(c) && c.request.w == 8 && c.request.x == x && c.request.Contains(x, y)
    && c.ink.Glyph? && c.ink.fg == fg && c.ink.bg == bg && c.ink.opaqueBg == opaqueBg
    && 0 <= (y - c.request.y) * c.ink.maskStride < |c.ink.mask|
    && c.ink.mask[(y - c.request.y) * c.ink.maskStride] == mb
  }

  lemma RowWants(c: Call, x: int, y: int, mb: bv8, fg: uint32, bg: uint32, opaqueBg: bool, i: int)
    requires RowOf8(c, x, y, mb, fg, bg, opaqueBg) && 0 <= i < 8
    ensures c.request.Contains(x + i, y)
    ensures Wanted(c, x + i, y) == if BitOf(mb, i) then Some(fg) else if opaqueBg then Some(bg) else None
  {
  }

  /** Bits 7 to 4 of the row, unrolled. */
  method LeftHalf(h: Handle, x: int, y: int, mb: bv8, fg: uint32, bg: uint32, opaqueBg: bool,
                ghost img0: Image, ghost c: Call)
    requires h.Valid() && Drawable(img0, c.request, c)
    requires RowOf8(c, x, y, mb, fg, bg, opaqueBg)
    requires SameSize(img0, h.Picture()) && Progress(img0, h.Picture(), c.request, c, x, y)
    modifies h.pixels
    ensures Progress(img0, h.Picture(), c.request, c, x + 4, y)
  {
    RowWants(c, x, y, mb, fg, bg, opaqueBg, 0);
    RowWants(c, x, y, mb, fg, bg, opaqueBg, 1);
    RowWants(c, x, y, mb, fg, bg, opaqueBg, 2);
    RowWants(c, x, y, mb, fg, bg, opaqueBg, 3);
    Dot(h, x, y, mb & 0x80 != 0, fg, bg, opaqueBg, img0, c.request, c);
    Dot(h, x + 1, y, mb & 0x40 != 0, fg, bg, opaqueBg, img0, c.request, c);
    Dot(h, x + 2, y, mb & 0x20 != 0, fg, bg, opaqueBg, img0, c.request, c);
    Dot(h, x + 3, y, mb & 0x10 != 0, fg, bg, opaqueBg, img0, c.request, c);
  }

  /** Bits 3 to 0 of the row, unrolled. */
  method RightHalf(h: Handle, x: int, y: int, mb: bv8, fg: uint32, bg: uint32, opaqueBg: bool,
                ghost img0: Image, ghost c: Call)
    requires h.Valid() && Drawable(img0, c.request, c)
    requires RowOf8(c, x, y, mb, fg, bg, opaqueBg)
    requires SameSize(img0, h.Picture()) && Progress(img0, h.Picture(), c.request, c, x + 4, y)
    modifies h.pixels
    ensures Progress(img0, h.Picture(), c.request, c, x + 8, y)
  {
    RowWants(c, x, y, mb, fg, bg, opaqueBg, 4);
    RowWants(c, x, y, mb, fg, bg, opaqueBg, 5);
    RowWants(c, x, y, mb, fg, bg, opaqueBg, 6);
    RowWants(c, x, y, mb, fg, bg, opaqueBg, 7);
    Dot(h, x + 4, y, mb & 0x08 != 0, fg, bg, opaqueBg, img0, c.request, c);
    Dot(h, x + 5, y, mb & 0x04 != 0, fg, bg, opaqueBg, img0, c.request, c);
    Dot(h, x + 6, y, mb & 0x02 != 0, fg, bg, opaqueBg, img0, c.request, c);
    Dot(h, x + 7, y, mb & 0x01 != 0, fg, bg, opaqueBg, img0, c.request, c);
  }

  /** The fast path. */
  method DrawUnclipped(h: Handle, r: Rect, mask: seq<bv8>, maskStride: uint32,
                       fg: uint32, bg: uint32, opaqueBg: bool)
    requires h.Valid() && CoversBits(mask, maskStride, r.w, r.h)
    requires FitsUnclipped(h.clip, h.width, h.height, r)
    modifies h.pixels
    ensures h.Picture() == Drawn(old(h.Picture()), h.clip, Call(r, Glyph(mask, maskStride, fg, bg, opaqueBg)))
  {
    ghost var img0, c := h.Picture(), Call(r, Glyph(mask, maskStride, fg, bg, opaqueBg));
    FittingGlyphUnclipped(h.clip, h.width, h.height, r);
    RegionDrawable(img0, h.clip, c);
    var row := 0;
    while row < r.h
      invariant 0 <= row <= r.h
      invariant Progress(img0, h.Picture(), r, c, r.x, r.y + row)
    {
      RowOffsetInRange(maskStride, RowBytes(r.w), r.h, row, 0);
      var mb := mask[row * maskStride];
      LeftHalf(h, r.x, r.y + row, mb, fg, bg, opaqueBg, img0, c);
      RightHalf(h, r.x, r.y + row, mb, fg, bg, opaqueBg, img0, c);
      row := row + 1;
    }
    Finish(img0, h.Picture(), r, c);
  }

  /** The general path: clip, then walk the visible part. */
  method DrawClipped(h: Handle, r: Rect, mask: seq<bv8>, maskStride: uint32,
                     fg: uint32, bg: uint32, opaqueBg: bool)
    requires h.Valid() && CoversBits(mask, maskStride, r.w, r.h)
    modifies h.pixels
    ensures h.Picture() == Drawn(old(h.Picture()), h.clip, Call(r, Glyph(mask, maskStride, fg, bg, opaqueBg)))
  {
    ghost var img0, c := h.Picture(), Call(r, Glyph(mask, maskStride, fg, bg, opaqueBg));
    ghost var region := h.Region(r);
    RegionDrawable(img0, h.clip, c);
    if region.Empty() { EmptyRegionDrawsNothing(img0, h.clip, c); }
    var fx, fy, fw, fh := ClipToView(h, r);
    if fw == 0 || fh == 0 { return; }
    var row := 0;
    while row < fh
      invariant 0 <= row <= fh
      invariant Progress(img0, h.Picture(), region, c, fx, fy + row)
    {
      var col := 0;
      while col < fw
        invariant 0 <= col <= fw
        invariant Progress(img0, h.Picture(), region, c, fx + col, fy + row)
      {
        assert region.Contains(fx + col, fy + row);
        var lit := ReadBit(mask, maskStride, r.w, r.h, fx - r.x + col, fy - r.y + row);
        Dot(h, fx + col, fy + row, lit, fg, bg, opaqueBg, img0, region, c);
        col := col + 1;
      }
      row := row + 1;
    }
    Finish(img0, h.Picture(), region, c);
  }

  /** `gfx_draw_glyph`. */
  method DrawGlyph(h: Handle, dx: int32, dy: int32, mask: seq<bv8>, maskStride: uint32,
                   w: uint32, hh: uint32, fg: uint32, bg: uint32, opaqueBg: bool)
    requires h.Valid()
    requires w >= 1 && hh >= 1 && maskStride >= RowBytes(w) ==> CoversBits(mask, maskStride, w, hh)
    modifies h.pixels
    ensures !(w >= 1 && hh >= 1 && maskStride >= RowBytes(w)) ==> h.Picture() == old(h.Picture())
    ensures w >= 1 && hh >= 1 && maskStride >= RowBytes(w) ==>
              h.Picture() == Drawn(old(h.Picture()), h.clip,
                                   Call(Rect(dx, dy, w, hh), Glyph(mask, maskStride, fg, bg, opaqueBg)))
  {
    if w == 0 || hh == 0 { return; }
    if maskStride < RowBytes(w) { return; }
    var r := Rect(dx, dy, w, hh);
    if h.clip.w == 0 || h.clip.h == 0 {
      EmptyRegionDrawsNothing(h.Picture(), h.clip, Call(r, Glyph(mask, maskStride, fg, bg, opaqueBg)));
      return;
    }
    if FitsUnclipped(h.clip, h.width, h.height, r) {
      DrawUnclipped(h, r, mask, maskStride, fg, bg, opaqueBg);
    } else {
      DrawClipped(h, r, mask, maskStride, fg, bg, opaqueBg);
    }
  }
}
