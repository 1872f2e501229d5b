/** What the drawing calls mean: each call asks for a rectangle and says, pixel by pixel,
    which word it wants there.  Drawing replaces the wanted words inside the clipped region
    and nothing else. */
module Inks {
  import opened Machine
  import opened Rects
  import opened Images

  datatype Ink =
    | Solid(color: uint32)
    | Sprite(src: seq<uint8>, stride: uint32, key: Option<uint32>)
    | Masked(src: seq<uint8>, stride: uint32, mask: seq<bv8>, maskStride: uint32)
    | Glyph(mask: seq<bv8>, maskStride: uint32, fg: uint32, bg: uint32, opaqueBg: bool)

  /** A drawing call: the rectangle it asks for and the ink. */
  datatype Call = Call(request: Rect, ink: Ink)

  // ----- Byte-strided sources -----

  /** The bytes of an RGB32 source cover `w x h` pixels with rows `stride` bytes apart. */
  ghost predicate CoversWords(src: seq<uint8>, stride: int, w: int, h: int) {
    w >= 1 && h >= 1 && stride >= 4 * w && |src| >= (h - 1) * stride + 4 * w
  }

  /** The bytes of a 1-bpp mask cover `w x h` bits with rows `stride` bytes apart. */
  ghost predicate CoversBits(mask: seq<bv8>, stride: int, w: int, h: int) {
    w >= 1 && h >= 1 && stride >= RowBytes(w) && |mask| >= (h - 1) * stride + RowBytes(w)
  }

  /** ceil(w / 8), as the code computes it. */
  function RowBytes(w: int): int {
    w / 8 + if w % 8 != 0 then 1 else 0
  }

  /** Row `r`, offset `b` within the used part of the row: inside the buffer. */
  lemma RowOffsetInRange(stride: int, used: int, h: int, r: int, b: int)
    requires 0 <= r < h && 0 <= b < used <= stride
    ensures 0 <= r * stride + b < (h - 1) * stride + used
  {
    if 0 < r { RowsApart(stride, 0, r); }
    if r < h - 1 { RowsApart(stride, r, h - 1); }
  }

  /** The 32-bit word that `memcpy` assembles on a little-endian host. */
  function WordOf(b0: uint8, b1: uint8, b2: uint8, b3: uint8): uint32 {
    b0 + 0x100 * b1 + 0x1_0000 * b2 + 0x100_0000 * b3
  }

  ghost function SourceWord(src: seq<uint8>, stride: int, w: int, h: int, sx: int, sy: int): uint32
    requires CoversWords(src, stride, w, h) && 0 <= sx < w && 0 <= sy < h
  {
    RowOffsetInRange(stride, 4 * w, h, sy, 4 * sx);
    RowOffsetInRange(stride, 4 * w, h, sy, 4 * sx + 3);
    var o := sy * stride + 4 * sx;
    WordOf(src[o], src[o + 1], src[o + 2], src[o + 3])
  }

  /** Bit `i` of a mask byte counted from the left (most significant first). */
  predicate BitOf(b: bv8, i: int)
    requires 0 <= i < 8
  {
    if i == 0 then b & 0x80 != 0 else if i == 1 then b & 0x40 != 0
    else if i == 2 then b & 0x20 != 0 else if i == 3 then b & 0x10 != 0
    else if i == 4 then b & 0x08 != 0 else if i == 5 then b & 0x04 != 0
    else if i == 6 then b & 0x02 != 0 else b & 0x01 != 0
  }

  ghost predicate SourceBit(mask: seq<bv8>, stride: int, w: int, h: int, sx: int, sy: int)
    requires CoversBits(mask, stride, w, h) && 0 <= sx < w && 0 <= sy < h
  {
    RowOffsetInRange(stride, RowBytes(w), h, sy, sx / 8);
    BitOf(mask[sy * stride + sx / 8], sx % 8)
  }

  // ----- Meaning of a call -----

  /** The source memory covers the declared size. */
  ghost predicate Sourced(c: Call) {
    match c.ink
    case Solid(_) => true
    case Sprite(src, stride, _) => CoversWords(src, stride, c.request.w, c.request.h)
    case Masked(src, stride, mask, maskStride) =>
      && CoversWords(src, stride, c.request.w, c.request.h)
      && CoversBits(mask, maskStride, c.request.w, c.request.h)
    case Glyph(mask, maskStride, _, _, _) => CoversBits(mask, maskStride, c.request.w, c.request.h)
  }

  /** The word the call wants at (x, y), if it wants one there. */
  ghost function Wanted(c: Call, x: int, y: int): Option<uint32>
    requires Sourced(c) && c.request.Contains(x, y)
  {
    var r := c.request;
    var sx, sy := x - r.x, y - r.y;
    match c.ink
    case Solid(color) => Some(color)
    case Sprite(src, stride, key) =>
      var px := SourceWord(src, stride, r.w, r.h, sx, sy);
      if key == Some(px) then None else Some(px)
    case Masked(src, stride, mask, maskStride) =>
      if SourceBit(mask, maskStride, r.w, r.h, sx, sy)
      then Some(SourceWord(src, stride, r.w, r.h, sx, sy)) else None
    case Glyph(mask, maskStride, fg, bg, opaqueBg) =>
      if SourceBit(mask, maskStride, r.w, r.h, sx, sy) then Some(fg)
      else if opaqueBg then Some(bg) else None
  }

  /** `region` is part of the requested rectangle and of the image. */
  ghost predicate Drawable(img: Image, region: Rect, c: Call) {
    && img.Valid() && Sourced(c)
    && forall x, y :: region.Contains(x, y) ==> c.request.Contains(x, y) && img.Inside(x, y)
  }

  /** A pixel after the call has touched it. */
  ghost function Touched(img: Image, c: Call, x: int, y: int): uint32
    requires img.Valid() && img.Inside(x, y) && Sourced(c) && c.request.Contains(x, y)
  {
    match Wanted(c, x, y)
    case Some(word) => word
    case None => img.At(x, y)
  }

  /** Drawing inside a region of the image. */
  ghost function Paint(img: Image, region: Rect, c: Call): (r: Image)
    requires Drawable(img, region, c)
    ensures r.Valid() && SameSize(r, img)
    ensures forall x, y {:trigger r.At(x, y)} :: img.Inside(x, y) ==>
                             r.At(x, y) == if region.Contains(x, y) then Touched(img, c, x, y) else img.At(x, y)
  {
    Tabulate(img.width, img.height,
             (x, y) => if !img.Inside(x, y) then 0
                       else if region.Contains(x, y) then Touched(img, c, x, y) else img.At(x, y))
  }

  // ----- Drawing row by row, pixel by pixel -----

  /** Everything of `region` before (x0, y0) in row-major order has been drawn. */
  ghost predicate Progress(img0: Image, img: Image, region: Rect, c: Call, x0: int, y0: int)
    requires Drawable(img0, region, c)
  {
    && img.Valid() && SameSize(img, img0)
    && forall x, y {:trigger img.At(x, y)} :: img0.Inside(x, y) ==>
                        img.At(x, y) == if region.Contains(x, y) && (y < y0 || (y == y0 && x < x0))
                                        then Touched(img0, c, x, y) else img0.At(x, y)
  }

  lemma Advance(img0: Image, img: Image, img': Image, region: Rect, c: Call, x: int, y: int)
    requires Drawable(img0, region, c) && region.Contains(x, y)
    requires Progress(img0, img, region, c, x, y)
    requires match Wanted(c, x, y)
             case Some(word) => img' == Set(img, x, y, word)
             case None => img' == img
    ensures Progress(img0, img', region, c, x + 1, y)
  {
  }

  lemma Finish(img0: Image, img: Image, region: Rect, c: Call)
    requires Drawable(img0, region, c)
    requires Progress(img0, img, region, c, region.x, region.y + region.h)
    ensures img == Paint(img0, region, c)
  {
    Extensional(img, Paint(img0, region, c));
  }
}
