/** The sprite blits of `sprite.c` over byte-strided source memory. */
module Sprites {
  import opened Machine
  import opened Rects
  import opened Images
  import opened Inks
  import opened Canvas

  /** The argument check of both blits: a size, and a stride that holds a row. */
  predicate BlitArgs(stride: uint32, w: uint32, h: uint32) {
    w != 0 && h != 0 && w <= UINT32_MAX / 4 && stride >= w * 4
  }

  /** `memcpy` of one RGB32 value out of the source bytes. */
  method ReadWord(src: seq<uint8>, stride: uint32, w: uint32, h: uint32, sx: int, sy: int) returns (px: uint32)
    requires CoversWords(src, stride, w, h) && 0 <= sx < w && 0 <= sy < h
    ensures px == SourceWord(src, stride, w, h, sx, sy)
  {
    RowOffsetInRange(stride, 4 * w, h, sy, 4 * sx);
    RowOffsetInRange(stride, 4 * w, h, sy, 4 * sx + 3);
    var o := sy * stride + sx * 4;
    px := WordOf(src[o], src[o + 1], src[o + 2], src[o + 3]);
  }

  /** The mask bit of a column: a one shifted into place, and-ed with the column's mask byte. */
  method ReadBit(mask: seq<bv8>, stride: uint32, w: uint32, h: uint32, sx: int, sy: int) returns (isSet: bool)
    requires CoversBits(mask, stride, w, h) && 0 <= sx < w && 0 <= sy < h
    ensures isSet <==> SourceBit(mask, stride, w, h, sx, sy)
  {
    RowOffsetInRange(stride, RowBytes(w), h, sy, sx / 8);
    var mb := mask[sy * stride + sx / 8];
    var bit := (1 as bv8) << (7 - sx % 8);
    ShiftedBit(mb, sx % 8);
    isSet := mb & bit != 0;
  }

  lemma ShiftedBit(b: bv8, i: int)
    requires 0 <= i < 8
    ensures b & ((1 as bv8) << (7 - i)) != 0 <==> BitOf(b, i)
  {
    assert i == 0 || i == 1 || i == 2 || i == 3 || i == 4 || i == 5 || i == 6 || i == 7;
  }

  /** `gfx_sprite_blit`. */
  method SpriteBlit(h: Handle, dx: int32, dy: int32, src: seq<uint8>, stride: uint32,
                    w: uint32, hh: uint32, useKey: bool, key: uint32)
    requires h.Valid()
    requires BlitArgs(stride, w, hh) ==> CoversWords(src, stride, w, hh)
    modifies h.pixels
    ensures !BlitArgs(stride, w, hh) ==> h.Picture() == old(h.Picture())
    ensures BlitArgs(stride, w, hh) ==>
              h.Picture() == Drawn(old(h.Picture()), h.clip,
                                   Call(Rect(dx, dy, w, hh), Sprite(src, stride, if useKey then Some(key) else None)))
  {
    if w == 0 || hh == 0 { return; }
    if w > UINT32_MAX / 4 || stride < w * 4 { return; }
    ghost var img0 := h.Picture();
    ghost var c := Call(Rect(dx, dy, w, hh), Sprite(src, stride, if useKey then Some(key) else None));
    ghost var region := h.Region(c.request);
    RegionDrawable(img0, h.clip, c);
    if region.Empty() { EmptyRegionDrawsNothing(img0, h.clip, c); }
    if h.clip.w == 0 || h.clip.h == 0 { return; }
    var fx, fy, fw, fh := ClipToView(h, Rect(dx, dy, w, hh));
    if fw == 0 || fh == 0 { return; }
    var row := 0;
    while row < fh
      invariant 0 <= row <= fh
      invariant Progress(img0, h.Picture(), region, c, fx, fy + row)
    {
      var col := 0;
      while col < fw
        invariant 0 <= col <= fw
        invariant Progress(img0, h.Picture(), region, c, fx + col, fy + row)
      {
        ghost var img := h.Picture();
        assert region.Contains(fx + col, fy + row);
        var px := ReadWord(src, stride, w, hh, fx - dx + col, fy - dy + row);
        if !(useKey && px == key) {
          h.Store(fx + col, fy + row, px);
        }
        Advance(img0, img, h.Picture(), region, c, fx + col, fy + row);
        col := col + 1;
      }
      row := row + 1;
    }
    Finish(img0, h.Picture(), region, c);
  }

  /** `gfx_sprite_blit_mask`. */
  method SpriteBlitMask(h: Handle, dx: int32, dy: int32, src: seq<uint8>, stride: uint32,
                        mask: seq<bv8>, maskStride: uint32, w: uint32, hh: uint32)
    requires h.Valid()
    requires BlitArgs(stride, w, hh) ==> CoversWords(src, stride, w, hh)
    requires BlitArgs(stride, w, hh) && maskStride >= RowBytes(w) ==> CoversBits(mask, maskStride, w, hh)
    modifies h.pixels
    ensures !(BlitArgs(stride, w, hh) && maskStride >= RowBytes(w)) ==> h.Picture() == old(h.Picture())
    ensures BlitArgs(stride, w, hh) && maskStride >= RowBytes(w) ==>
              h.Picture() == Drawn(old(h.Picture()), h.clip,
                                   Call(Rect(dx, dy, w, hh), Masked(src, stride, mask, maskStride)))
  {
    if w == 0 || hh == 0 { return; }
    if w > UINT32_MAX / 4 || stride < w * 4 { return; }
    if maskStride < RowBytes(w) { return; }
    ghost var img0 := h.Picture();
    ghost var c := Call(Rect(dx, dy, w, hh), Masked(src, stride, mask, maskStride));
    ghost var region := h.Region(c.request);
    RegionDrawable(img0, h.clip, c);
    if region.Empty() { EmptyRegionDrawsNothing(img0, h.clip, c); }
    if h.clip.w == 0 || h.clip.h == 0 { return; }
    var fx, fy, fw, fh := ClipToView(h, Rect(dx, dy, w, hh));
    if fw == 0 || fh == 0 { return; }
    var row := 0;
    while row < fh
      invariant 0 <= row <= fh
      invariant Progress(img0, h.Picture(), region, c, fx, fy + row)
    {
      var col := 0;
      while col < fw
        invariant 0 <= col <= fw
        invariant Progress(img0, h.Picture(), region, c, fx + col, fy + row)
      {
        ghost var img := h.Picture();
        assert region.Contains(fx + col, fy + row);
        var copy := ReadBit(mask, maskStride, w, hh, fx - dx + col, fy - dy + row);
        if copy {
          var px := ReadWord(src, stride, w, hh, fx - dx + col, fy - dy + row);
          h.Store(fx + col, fy + row, px);
        }
        Advance(img0, img, h.Picture(), region, c, fx + col, fy + row);
        col := col + 1;
      }
      row := row + 1;
    }
    Finish(img0, h.Picture(), region, c);
  }

  // ----- Equivalences -----

  /** Two calls that want the same words draw the same picture, under every clip. */
  lemma SameWantsSamePicture(img: Image, clip: Rect, a: Call, b: Call)
    requires img.Valid() && Sourced(a) && Sourced(b) && a.request == b.request
    requires forall x, y :: a.request.Contains(x, y) && img.Inside(x, y) && clip.Contains(x, y) ==>
                              Wanted(a, x, y) == Wanted(b, x, y)
    ensures Drawn(img, clip, a) == Drawn(img, clip, b)
  {
    RegionDrawable(img, clip, a);
    RegionDrawable(img, clip, b);
    forall x, y | img.Inside(x, y)
      ensures Drawn(img, clip, a).At(x, y) == Drawn(img, clip, b).At(x, y)
    {
      TwoStepNeverAdds(a.request, clip, img.width, img.height, x, y);
    }
    Extensional(Drawn(img, clip, a), Drawn(img, clip, b));
  }

  /** A colour-key blit is the mask blit whose bits say which pixels differ from the key. */
  lemma ColourKeyIsMask(img: Image, clip: Rect, r: Rect, src: seq<uint8>, stride: uint32, key: uint32,
                        mask: seq<bv8>, maskStride: uint32)
    requires img.Valid() && CoversWords(src, stride, r.w, r.h) && CoversBits(mask, maskStride, r.w, r.h)
    requires forall sx, sy :: 0 <= sx < r.w && 0 <= sy < r.h ==>
                                (SourceBit(mask, maskStride, r.w, r.h, sx, sy)
                                 <==> SourceWord(src, stride, r.w, r.h, sx, sy) != key)
    ensures Drawn(img, clip, Call(r, Sprite(src, stride, Some(key))))
         == Drawn(img, clip, Call(r, Masked(src, stride, mask, maskStride)))
  {
    SameWantsSamePicture(img, clip, Call(r, Sprite(src, stride, Some(key))),
                         Call(r, Masked(src, stride, mask, maskStride)));
  }

  /** A mask whose declared bits are all ones copies every pixel, as the opaque blit does. */
  lemma FullMaskIsOpaque(img: Image, clip: Rect, r: Rect, src: seq<uint8>, stride: uint32,
                         mask: seq<bv8>, maskStride: uint32)
    requires img.Valid() && CoversWords(src, stride, r.w, r.h) && CoversBits(mask, maskStride, r.w, r.h)
    requires forall sx, sy :: 0 <= sx < r.w && 0 <= sy < r.h ==> SourceBit(mask, maskStride, r.w, r.h, sx, sy)
    ensures Drawn(img, clip, Call(r, Masked(src, stride, mask, maskStride)))
         == Drawn(img, clip, Call(r, Sprite(src, stride, None)))
  {
    SameWantsSamePicture(img, clip, Call(r, Masked(src, stride, mask, maskStride)), Call(r, Sprite(src, stride, None)));
  }

  /** An opaque blit of a sprite in one colour fills its rectangle. */
  lemma ConstantSpriteIsFill(img: Image, clip: Rect, r: Rect, src: seq<uint8>, stride: uint32, color: uint32)
    requires img.Valid() && CoversWords(src, stride, r.w, r.h)
    requires forall sx, sy :: 0 <= sx < r.w && 0 <= sy < r.h ==> SourceWord(src, stride, r.w, r.h, sx, sy) == color
    ensures Drawn(img, clip, Call(r, Sprite(src, stride, None))) == Drawn(img, clip, Call(r, Solid(color)))
  {
    SameWantsSamePicture(img, clip, Call(r, Sprite(src, stride, None)), Call(r, Solid(color)));
  }

  /** Padding bytes are never looked at: sources that agree on the declared pixels draw alike. */
  lemma PaddingIrrelevant(img: Image, clip: Rect, r: Rect, key: Option<uint32>,
                          src: seq<uint8>, stride: uint32, src': seq<uint8>, stride': uint32)
    requires img.Valid() && CoversWords(src, stride, r.w, r.h) && CoversWords(src', stride', r.w, r.h)
    requires forall sx, sy :: 0 <= sx < r.w && 0 <= sy < r.h ==>
                                SourceWord(src, stride, r.w, r.h, sx, sy) == SourceWord(src', stride', r.w, r.h, sx, sy)
    ensures Drawn(img, clip, Call(r, Sprite(src, stride, key))) == Drawn(img, clip, Call(r, Sprite(src', stride', key)))
  {
    SameWantsSamePicture(img, clip, Call(r, Sprite(src, stride, key)), Call(r, Sprite(src', stride', key)));
  }
}
