/** Drawing under a clip can be done in pieces. */
module Tiling {
  import opened Machine
  import opened Rects
  import opened Images
  import opened Inks
  import opened Canvas

  /** The same call once under each clip of a list. */
  ghost function DrawnUnder(img: Image, clips: seq<Rect>, c: Call): (r: Image)
    requires img.Valid() && Sourced(c)
    ensures r.Valid() && SameSize(r, img)
    decreases |clips|
  {
    if clips == [] then img else DrawnUnder(Drawn(img, clips[0], c), clips[1..], c)
  }

  ghost predicate Union(clips: seq<Rect>, x: int, y: int) {
    exists i :: 0 <= i < |clips| && clips[i].Contains(x, y)
  }

  lemma UnionOfRest(clips: seq<Rect>, x: int, y: int)
    requires clips != []
    ensures Union(clips, x, y) <==> clips[0].Contains(x, y) || Union(clips[1..], x, y)
  {
    var rest := clips[1..];
    if i :| 0 <= i < |clips| && clips[i].Contains(x, y) {
      if i > 0 { assert rest[i - 1].Contains(x, y); }
    }
    if i :| 0 <= i < |rest| && rest[i].Contains(x, y) {
      assert clips[i + 1].Contains(x, y);
    }
  }

  /** The pixels a list of exact clips changes are those of its union. */
  lemma {:induction false} DrawnUnderAt(img: Image, clips: seq<Rect>, c: Call, x: int, y: int)
    requires img.Valid() && Sourced(c) && img.Inside(x, y)
    requires forall i :: 0 <= i < |clips| ==> ClipIsExact(c.request, clips[i], img.width, img.height)
    ensures DrawnUnder(img, clips, c).At(x, y)
         == if c.request.Contains(x, y) && Union(clips, x, y) then Touched(img, c, x, y) else img.At(x, y)
    decreases |clips|
  {
    if clips != [] {
      var img1, rest := Drawn(img, clips[0], c), clips[1..];
      forall i | 0 <= i < |rest| ensures ClipIsExact(c.request, rest[i], img.width, img.height) {
        assert rest[i] == clips[i + 1];
      }
      DrawnUnderAt(img1, rest, c, x, y);
      RegionDrawable(img, clips[0], c);
      TwoStepPoint(c.request, clips[0], img.width, img.height, x, y);
      UnionOfRest(clips, x, y);
    }
  }

  /** Clip tiling: whatever the fill, sprite, mask or glyph, drawing once under a clip is the same as drawing under
      the tiles of any list that covers the clip, in the order of the list. */
  lemma TilesDrawTheWhole(img: Image, clip: Rect, tiles: seq<Rect>, c: Call)
    requires img.Valid() && Sourced(c)
    requires forall x, y :: img.Inside(x, y) ==> (clip.Contains(x, y) <==> Union(tiles, x, y))
    requires ClipIsExact(c.request, clip, img.width, img.height)
    requires forall i :: 0 <= i < |tiles| ==> ClipIsExact(c.request, tiles[i], img.width, img.height)
    ensures DrawnUnder(img, tiles, c) == Drawn(img, clip, c)
  {
    forall x, y | img.Inside(x, y)
      ensures DrawnUnder(img, tiles, c).At(x, y) == Drawn(img, clip, c).At(x, y)
    {
      DrawnUnderAt(img, tiles, c, x, y);
      RegionDrawable(img, clip, c);
      TwoStepPoint(c.request, clip, img.width, img.height, x, y);
    }
    Extensional(DrawnUnder(img, tiles, c), Drawn(img, clip, c));
  }

  /** Where a clip is exact, so is every rectangle inside it. */
  lemma PartExact(request: Rect, clip: Rect, part: Rect, width: uint32, height: uint32)
    requires ViewSize(width, height) && ClipIsExact(request, clip, width, height)
    requires PartOf(part, clip)
    ensures ClipIsExact(request, part, width, height)
  {
  }

  /** A clip cut at a column, drawn in either order. */
  lemma ColumnCut(img: Image, clip: Rect, k: uint32, c: Call)
    requires img.Valid() && Sourced(c) && k <= clip.w && clip.x + k <= INT32_MAX
    requires ClipIsExact(c.request, clip, img.width, img.height)
    ensures var left, right := clip.(w := k), clip.(x := clip.x + k, w := clip.w - k);
            && Drawn(Drawn(img, left, c), right, c) == Drawn(img, clip, c)
            && Drawn(Drawn(img, right, c), left, c) == Drawn(img, clip, c)
  {
    var left, right := clip.(w := k), clip.(x := clip.x + k, w := clip.w - k);
    PartExact(c.request, clip, left, img.width, img.height);
    PartExact(c.request, clip, right, img.width, img.height);
    TwoTiles(img, clip, left, right, c);
    TwoTiles(img, clip, right, left, c);
  }

  /** A clip cut at a row, drawn in either order. */
  lemma RowCut(img: Image, clip: Rect, k: uint32, c: Call)
    requires img.Valid() && Sourced(c) && k <= clip.h && clip.y + k <= INT32_MAX
    requires ClipIsExact(c.request, clip, img.width, img.height)
    ensures var upper, lower := clip.(h := k), clip.(y := clip.y + k, h := clip.h - k);
            && Drawn(Drawn(img, upper, c), lower, c) == Drawn(img, clip, c)
            && Drawn(Drawn(img, lower, c), upper, c) == Drawn(img, clip, c)
  {
    var upper, lower := clip.(h := k), clip.(y := clip.y + k, h := clip.h - k);
    PartExact(c.request, clip, upper, img.width, img.height);
    PartExact(c.request, clip, lower, img.width, img.height);
    TwoTiles(img, clip, upper, lower, c);
    TwoTiles(img, clip, lower, upper, c);
  }

  lemma TwoTiles(img: Image, clip: Rect, a: Rect, b: Rect, c: Call)
    requires img.Valid() && Sourced(c)
    requires forall x, y :: clip.Contains(x, y) <==> a.Contains(x, y) || b.Contains(x, y)
    requires ClipIsExact(c.request, clip, img.width, img.height)
    requires ClipIsExact(c.request, a, img.width, img.height) && ClipIsExact(c.request, b, img.width, img.height)
    ensures Drawn(Drawn(img, a, c), b, c) == Drawn(img, clip, c)
  {
    var tiles := [a, b];
    forall x, y | img.Inside(x, y) ensures clip.Contains(x, y) <==> Union(tiles, x, y) {
      if a.Contains(x, y) { assert tiles[0].Contains(x, y); }
      if b.Contains(x, y) { assert tiles[1].Contains(x, y); }
    }
    TilesDrawTheWhole(img, clip, tiles, c);
    assert tiles[1..] == [b] && [b][1..] == [];
    var img1 := Drawn(img, a, c);
    assert DrawnUnder(img1, [b], c) == DrawnUnder(Drawn(img1, b, c), [], c);
  }
}
