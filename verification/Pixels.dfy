/** `gfx__pixel_impl`: a single pixel without the shared intersection helper, and exactly
    which clips it is right for. */
module Pixels {
  import opened Machine
  import opened Rects
  import opened Images
  import opened Inks
  import opened Canvas

  /** All guards let the write through. */
  predicate Passes(clip: Rect, width: uint32, height: uint32, x: int32, y: int32) {
    && clip.w != 0 && clip.h != 0
    && x >= clip.x && y >= clip.y
    && x <= width - 1 && y <= height - 1
    && x < clip.x + clip.w && y < clip.y + clip.h
  }

  /** The subscript as `size_t` arithmetic computes it, negative coordinates included. */
  function Subscript(width: uint32, x: int32, y: int32): int {
    ((y % TWO_64) * width + x % TWO_64) % TWO_64
  }

  /** The word that is written, if any. */
  function Written(clip: Rect, width: uint32, height: uint32, x: int32, y: int32): Option<int> {
    if Passes(clip, width, height, x, y) then Some(Subscript(width, x, y)) else None
  }

  /** The word that should be written: that of the pixel, when it is in clip and view. */
  ghost function Intended(clip: Rect, width: uint32, height: uint32, x: int32, y: int32): Option<int> {
    if clip.Contains(x, y) && View(width, height).Contains(x, y) then Some(y * width + x) else None
  }

  /** `gfx__pixel_impl`. The buffer is only indexed when the subscript is in range. */
  method Pixel(h: Handle, x: int32, y: int32, color: uint32)
    requires h.Valid()
    requires Written(h.clip, h.width, h.height, x, y).Some? ==>
               0 <= Written(h.clip, h.width, h.height, x, y).value < h.width * h.height
    modifies h.pixels
    ensures h.pixels[..] == match Written(h.clip, h.width, h.height, x, y)
                            case Some(k) => old(h.pixels[..])[k := color]
                            case None => old(h.pixels[..])
    ensures x >= 0 && y >= 0 ==>
              h.Picture() == Drawn(old(h.Picture()), h.clip, Call(Rect(x, y, 1, 1), Solid(color)))
  {
    ghost var img0, c := h.Picture(), Call(Rect(x, y, 1, 1), Solid(color));
    ghost var w := Written(h.clip, h.width, h.height, x, y);
    if h.clip.w != 0 && h.clip.h != 0 {
      if !(x < h.clip.x || y < h.clip.y) && x <= h.width - 1 && y <= h.height - 1 {
        if !(x >= h.clip.x + h.clip.w) && !(y >= h.clip.y + h.clip.h) {
          h.pixels[Subscript(h.width, x, y)] := color;
        }
      }
    }
    if x >= 0 && y >= 0 {
      PixelIsUnitRect(img0, h.clip, x, y, color, h.Picture());
    }
  }

  lemma SubscriptOfPixel(width: uint32, height: uint32, x: int32, y: int32)
    requires ViewSize(width, height) && 0 <= x < width && 0 <= y < height
    ensures Subscript(width, x, y) == y * width + x < width * height
  {
    IndexInRange(width, height, x, y);
    if width < INT32_MAX { RowsApart(height, width, INT32_MAX); }
    assert y % TWO_64 == y && x % TWO_64 == x;
  }

  lemma PixelIsUnitRect(img: Image, clip: Rect, x: int32, y: int32, color: uint32, img': Image)
    requires img.Valid() && x >= 0 && y >= 0
    requires img' == match Written(clip, img.width, img.height, x, y)
                     case Some(k) => if 0 <= k < |img.words| then img.(words := img.words[k := color]) else img
                     case None => img
    ensures img' == Drawn(img, clip, Call(Rect(x, y, 1, 1), Solid(color)))
  {
    var c := Call(Rect(x, y, 1, 1), Solid(color));
    OrdinaryClipsAreExact(c.request, clip, img.width, img.height);
    forall px, py ensures TwoStep(c.request, clip, img.width, img.height).Contains(px, py)
                     <==> Visible(c.request, clip, img.width, img.height, px, py) {
      TwoStepPoint(c.request, clip, img.width, img.height, px, py);
    }
    RegionDrawable(img, clip, c);
    if Passes(clip, img.width, img.height, x, y) {
      SubscriptOfPixel(img.width, img.height, x, y);
      assert img' == Set(img, x, y, color);
    }
    Extensional(img', Drawn(img, clip, c));
  }

  /** One call is right if and only if it is not let through with a negative coordinate. */
  lemma PixelRight(clip: Rect, width: uint32, height: uint32, x: int32, y: int32)
    requires ViewSize(width, height)
    ensures Written(clip, width, height, x, y) == Intended(clip, width, height, x, y)
        <==> !(Passes(clip, width, height, x, y) && (x < 0 || y < 0))
  {
    if Passes(clip, width, height, x, y) && x >= 0 && y >= 0 {
      SubscriptOfPixel(width, height, x, y);
    }
  }

  /** Every call under a clip is right if and only if the clip is empty or its origin is not
      negative on an axis while the other axis still reaches the view. */
  lemma ClipRightForPixels(clip: Rect, width: uint32, height: uint32)
    requires ViewSize(width, height)
    ensures (clip.Empty()
             || ((clip.x >= 0 || clip.y >= height) && (clip.y >= 0 || clip.x >= width)))
        <==> forall x: int32, y: int32 ::
               Written(clip, width, height, x, y) == Intended(clip, width, height, x, y)
  {
    forall x: int32, y: int32
      ensures Written(clip, width, height, x, y) == Intended(clip, width, height, x, y)
          <==> !(Passes(clip, width, height, x, y) && (x < 0 || y < 0))
    {
      PixelRight(clip, width, height, x, y);
    }
    if !clip.Empty() {
      assert Passes(clip, width, height, clip.x, clip.y) <==> clip.x < width && clip.y < height;
    }
  }

  /** The failing family is not empty: under a clip one column left of the view, the pixel
      left of row 1 lands on the last pixel of row 0. */
  lemma NegativeColumnWraps(width: uint32, height: uint32)
    requires ViewSize(width, height) && height >= 2
    ensures Written(Rect(-1, 0, 2, 2), width, height, -1, 1) == Some(width - 1)
    ensures Intended(Rect(-1, 0, 2, 2), width, height, -1, 1) == None
  {
    assert (1 % TWO_64) * width == width;
  }
}
