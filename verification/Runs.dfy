/** Whole runs of `gfx_set_clip` and drawing calls on one handle. */
module Runs {
  import opened Machine
  import opened Rects
  import opened Images
  import opened Inks
  import opened Canvas
  import opened Sprites
  import opened Glyphs
  import opened Outlines
  import opened Pixels
  import opened Scroll
  import opened Lines

  datatype Command =
    | SetClip(clip: Rect)
    | Pixel(x: int32, y: int32, color: uint32)
    | HLine(x: int32, y: int32, w: uint32, color: uint32)
    | VLine(x: int32, y: int32, h: uint32, color: uint32)
    | Outline(rect: Rect, color: uint32)
    | FillRect(rect: Rect, color: uint32)
    | Line(x0: int32, y0: int32, x1: int32, y1: int32, color: uint32)
    | Blit(rect: Rect, src: seq<uint8>, stride: uint32, useKey: bool, key: uint32)
    | BlitMask(rect: Rect, src: seq<uint8>, stride: uint32, mask: seq<bv8>, maskStride: uint32)
    | DrawGlyph(rect: Rect, mask: seq<bv8>, maskStride: uint32, fg: uint32, bg: uint32, opaqueBg: bool)
    | ScrollBy(dx: int32, dy: int32, fill: uint32)

  /** The observable state of a handle. */
  datatype Screen = Screen(img: Image, clip: Rect)

  /** What a caller owes: source memory of the declared size, no pixel with a negative coordinate that the
      clip lets through, and no line whose error term overflows. */
  ghost predicate Legal(s: Screen, c: Command) {
    match c
    case Pixel(x, y, _) => (x >= 0 && y >= 0) || !Passes(s.clip, s.img.width, s.img.height, x, y)
    case Line(x0, y0, x1, y1, _) => LineSafe(s.img, s.clip, x0, y0, x1, y1)
    case Blit(r, src, stride, _, _) => BlitArgs(stride, r.w, r.h) ==> CoversWords(src, stride, r.w, r.h)
    case BlitMask(r, src, stride, mask, maskStride) =>
      && (BlitArgs(stride, r.w, r.h) ==> CoversWords(src, stride, r.w, r.h))
      && (BlitArgs(stride, r.w, r.h) && maskStride >= RowBytes(r.w) ==> CoversBits(mask, maskStride, r.w, r.h))
    case DrawGlyph(r, mask, maskStride, _, _, _) =>
      r.w >= 1 && r.h >= 1 && maskStride >= RowBytes(r.w) ==> CoversBits(mask, maskStride, r.w, r.h)
    case _ => true
  }

  /** The meaning of one command. */
  ghost function Step(s: Screen, c: Command): (r: Screen)
    requires s.img.Valid() && Legal(s, c)
    ensures r.img.Valid() && SameSize(r.img, s.img)
  {
    match c
    case SetClip(clip) => s.(clip := clip)
    case Pixel(x, y, color) =>
      if x >= 0 && y >= 0 then s.(img := Drawn(s.img, s.clip, Call(Rect(x, y, 1, 1), Solid(color)))) else s
    case HLine(x, y, w, color) => s.(img := Drawn(s.img, s.clip, Call(Rect(x, y, w, 1), Solid(color))))
    case VLine(x, y, h, color) => s.(img := Drawn(s.img, s.clip, Call(Rect(x, y, 1, h), Solid(color))))
    case Outline(r, color) =>
      if r.Empty() then s else s.(img := DrawnAll(s.img, s.clip, SolidCalls(Edges(r.x, r.y, r.w, r.h), color)))
    case FillRect(r, color) => s.(img := Drawn(s.img, s.clip, Call(r, Solid(color))))
    case Line(x0, y0, x1, y1, color) => s.(img := LineDrawn(s.img, s.clip, x0, y0, x1, y1, color))
    case Blit(r, src, stride, useKey, key) =>
      if BlitArgs(stride, r.w, r.h)
      then s.(img := Drawn(s.img, s.clip, Call(r, Sprite(src, stride, if useKey then Some(key) else None)))) else s
    case BlitMask(r, src, stride, mask, maskStride) =>
      if BlitArgs(stride, r.w, r.h) && maskStride >= RowBytes(r.w)
      then s.(img := Drawn(s.img, s.clip, Call(r, Masked(src, stride, mask, maskStride)))) else s
    case DrawGlyph(r, mask, maskStride, fg, bg, opaqueBg) =>
      if r.w >= 1 && r.h >= 1 && maskStride >= RowBytes(r.w)
      then s.(img := Drawn(s.img, s.clip, Call(r, Glyph(mask, maskStride, fg, bg, opaqueBg)))) else s
    case ScrollBy(dx, dy, fill) => s.(img := Scrolled(s.img, VisibleArea(s.img, s.clip), dx, dy, fill))
  }

  // ----- Frame: what one command leaves alone -----

  lemma DrawnFrame(img: Image, clip: Rect, c: Call, x: int, y: int)
    requires img.Valid() && Sourced(c) && img.Inside(x, y) && !clip.Contains(x, y)
    ensures Drawn(img, clip, c).At(x, y) == img.At(x, y)
  {
    RegionDrawable(img, clip, c);
    TwoStepNeverAdds(c.request, clip, img.width, img.height, x, y);
  }

  lemma OutlineFrame(img: Image, clip: Rect, es: seq<Rect>, color: uint32, x: int, y: int)
    requires img.Valid() && img.Inside(x, y) && !clip.Contains(x, y)
    ensures DrawnAll(img, clip, SolidCalls(es, color)).At(x, y) == img.At(x, y)
  {
    SolidEdges(img, clip, es, color, x, y);
    if i :| 0 <= i < |es| && TwoStep(es[i], clip, img.width, img.height).Contains(x, y) {
      TwoStepNeverAdds(es[i], clip, img.width, img.height, x, y);
    }
  }

  lemma LineFrame(img: Image, clip: Rect, x0: int32, y0: int32, x1: int32, y1: int32, color: uint32, x: int, y: int)
    requires img.Valid() && img.Inside(x, y) && !clip.Contains(x, y)
    ensures LineDrawn(img, clip, x0, y0, x1, y1, color).At(x, y) == img.At(x, y)
  {
    if LineHas(img, clip, x0, y0, x1, y1, x, y) { LineStaysVisible(img, clip, x0, y0, x1, y1, x, y); }
  }

  /** A command changes nothing outside the clip in force. */
  lemma StepFrame(s: Screen, c: Command, x: int, y: int)
    requires s.img.Valid() && Legal(s, c) && s.img.Inside(x, y) && !s.clip.Contains(x, y)
    ensures Step(s, c).img.At(x, y) == s.img.At(x, y)
  {
    match c
    case SetClip(_) =>
    case Pixel(px, py, color) =>
      if px >= 0 && py >= 0 { DrawnFrame(s.img, s.clip, Call(Rect(px, py, 1, 1), Solid(color)), x, y); }
    case HLine(px, py, w, color) => DrawnFrame(s.img, s.clip, Call(Rect(px, py, w, 1), Solid(color)), x, y);
    case VLine(px, py, h, color) => DrawnFrame(s.img, s.clip, Call(Rect(px, py, 1, h), Solid(color)), x, y);
    case Outline(r, color) =>
      if !r.Empty() { OutlineFrame(s.img, s.clip, Edges(r.x, r.y, r.w, r.h), color, x, y); }
    case FillRect(r, color) => DrawnFrame(s.img, s.clip, Call(r, Solid(color)), x, y);
    case Line(x0, y0, x1, y1, color) => LineFrame(s.img, s.clip, x0, y0, x1, y1, color, x, y);
    case Blit(r, src, stride, useKey, key) =>
      if BlitArgs(stride, r.w, r.h) {
        DrawnFrame(s.img, s.clip, Call(r, Sprite(src, stride, if useKey then Some(key) else None)), x, y);
      }
    case BlitMask(r, src, stride, mask, maskStride) =>
      if BlitArgs(stride, r.w, r.h) && maskStride >= RowBytes(r.w) {
        DrawnFrame(s.img, s.clip, Call(r, Masked(src, stride, mask, maskStride)), x, y);
      }
    case DrawGlyph(r, mask, maskStride, fg, bg, opaqueBg) =>
      if r.w >= 1 && r.h >= 1 && maskStride >= RowBytes(r.w) {
        DrawnFrame(s.img, s.clip, Call(r, Glyph(mask, maskStride, fg, bg, opaqueBg)), x, y);
      }
    case ScrollBy(dx, dy, fill) =>
      DirectClipExact(s.clip, s.img.width, s.img.height, x, y);
  }

  // ----- Runs -----

  /** Every command is legal where it is issued. */
  ghost predicate LegalRun(s: Screen, cs: seq<Command>)
    requires s.img.Valid()
    decreases |cs|
  {
    cs == [] || (Legal(s, cs[0]) && LegalRun(Step(s, cs[0]), cs[1..]))
  }

  ghost function Run(s: Screen, cs: seq<Command>): (r: Screen)
    requires s.img.Valid() && LegalRun(s, cs)
    ensures r.img.Valid() && SameSize(r.img, s.img)
    decreases |cs|
  {
    if cs == [] then s else Run(Step(s, cs[0]), cs[1..])
  }

  /** The pixel is in the clip at some point of the run. */
  ghost predicate EverInClip(clip: Rect, cs: seq<Command>, x: int, y: int)
    decreases |cs|
  {
    || clip.Contains(x, y)
    || (cs != [] && EverInClip(if cs[0].SetClip? then cs[0].clip else clip, cs[1..], x, y))
  }

  /** Over every run, a pixel that is never inside the clip in force keeps its word. */
  lemma {:induction false} RunFrame(s: Screen, cs: seq<Command>, x: int, y: int)
    requires s.img.Valid() && LegalRun(s, cs) && s.img.Inside(x, y)
    requires !EverInClip(s.clip, cs, x, y)
    ensures Run(s, cs).img.At(x, y) == s.img.At(x, y)
    decreases |cs|
  {
    if cs != [] {
      StepFrame(s, cs[0], x, y);
      RunFrame(Step(s, cs[0]), cs[1..], x, y);
    }
  }

  // ----- The handle does what the run means -----

  ghost function ScreenOf(h: Handle): Screen
    reads h, h.pixels
    requires h.Valid()
  {
    Screen(h.Picture(), h.clip)
  }

  /** One command on the handle. */
  method Execute(h: Handle, c: Command)
    requires h.Valid() && Legal(ScreenOf(h), c)
    modifies h, h.pixels
    ensures h.Valid() && ScreenOf(h) == Step(old(ScreenOf(h)), c)
  {
    match c {
      case SetClip(clip) => h.SetClip(clip.x, clip.y, clip.w, clip.h);
      case Pixel(x, y, color) =>
        if Passes(h.clip, h.width, h.height, x, y) { SubscriptOfPixel(h.width, h.height, x, y); }
        Pixels.Pixel(h, x, y, color);
      case HLine(x, y, w, color) => Canvas.HLine(h, x, y, w, color);
      case VLine(x, y, hh, color) => Canvas.VLine(h, x, y, hh, color);
      case Outline(r, color) => RectOutline(h, r.x, r.y, r.w, r.h, color);
      case FillRect(r, color) => Canvas.FillRect(h, r.x, r.y, r.w, r.h, color);
      case Line(x0, y0, x1, y1, color) => Lines.Line(h, x0, y0, x1, y1, color);
      case Blit(r, src, stride, useKey, key) => SpriteBlit(h, r.x, r.y, src, stride, r.w, r.h, useKey, key);
      case BlitMask(r, src, stride, mask, maskStride) =>
        SpriteBlitMask(h, r.x, r.y, src, stride, mask, maskStride, r.w, r.h);
      case DrawGlyph(r, mask, maskStride, fg, bg, opaqueBg) =>
        Glyphs.DrawGlyph(h, r.x, r.y, mask, maskStride, r.w, r.h, fg, bg, opaqueBg);
      case ScrollBy(dx, dy, fill) => GfxScroll(h, dx, dy, fill);
    }
  }

  /** A whole run on an opened handle: the buffer keeps its size, every index is in range, and
      the picture is the one the run means. */
  method ExecuteAll(h: Handle, cs: seq<Command>)
    requires h.Valid() && LegalRun(ScreenOf(h), cs)
    modifies h, h.pixels
    ensures h.Valid() && ScreenOf(h) == Run(old(ScreenOf(h)), cs)
  {
    ghost var s0 := ScreenOf(h);
    var i := 0;
    while i < |cs|
      invariant 0 <= i <= |cs|
      invariant h.Valid() && LegalRun(ScreenOf(h), cs[i..]) && Run(ScreenOf(h), cs[i..]) == Run(s0, cs)
    {
      assert cs[i..][1..] == cs[i + 1..];
      Execute(h, cs[i]);
      i := i + 1;
    }
  }
}
