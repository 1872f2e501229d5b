/** Pictures as values: a W x H grid of 32-bit words in one row-major sequence. */
module Images {
  import opened Machine
  import opened Rects

  datatype Image = Image(width: uint32, height: uint32, words: seq<uint32>) {
    ghost predicate Valid() {
      ViewSize(width, height) && |words| == width * height
    }

    ghost predicate Inside(x: int, y: int) {
      0 <= x < width && 0 <= y < height
    }

    /** The word of pixel (x, y). */
    ghost function At(x: int, y: int): uint32
      requires Valid() && Inside(x, y)
    {
      IndexInRange(width, height, x, y);
      words[y * width + x]
    }
  }

  /** Rows do not overlap: the next row starts where this one ends. */
  lemma {:induction false} RowsApart(width: int, y: int, y': int)
    requires 0 < width && y < y'
    ensures y * width + width <= y' * width
    decreases y' - y
  {
    if y + 1 < y' { RowsApart(width, y, y' - 1); }
    assert y' * width == (y' - 1) * width + width;
  }

  lemma IndexInRange(width: int, height: int, x: int, y: int)
    requires 0 <= x < width && 0 <= y < height
    ensures 0 <= y * width + x < width * height
    ensures y * width + x + (width - x) <= width * height
  {
    RowsApart(width, y, height);
    if 0 < y { RowsApart(width, 0, y); }
  }

  /** Different pixels have different indices. */
  lemma IndexInjective(width: int, x: int, y: int, x': int, y': int)
    requires 0 <= x < width && 0 <= x' < width
    requires y * width + x == y' * width + x'
    ensures x == x' && y == y'
  {
    var n, n' := y * width, y' * width;
    if y < y' { RowsApart(width, y, y'); }
    if y > y' { RowsApart(width, y', y); }
  }

  /** Every index is the index of a pixel. */
  lemma IndexOnto(width: int, height: int, k: int) returns (x: int, y: int)
    requires 0 < width && 0 <= k < width * height
    ensures 0 <= x < width && 0 <= y < height && k == y * width + x
  {
    x, y := k % width, k / width;
    assert k == y * width + x;
    if height < y { RowsApart(width, height, y); }
  }

  ghost predicate SameSize(a: Image, b: Image) {
    a.width == b.width && a.height == b.height
  }

  /** Images with equal pixels are equal. */
  lemma Extensional(a: Image, b: Image)
    requires a.Valid() && b.Valid() && SameSize(a, b)
    requires forall x, y {:trigger a.At(x, y)} :: a.Inside(x, y) ==> a.At(x, y) == b.At(x, y)
    ensures a == b
  {
    forall k | 0 <= k < |a.words|
      ensures a.words[k] == b.words[k]
    {
      var x, y := IndexOnto(a.width, a.height, k);
      assert a.At(x, y) == b.At(x, y);
    }
    assert a.words == b.words;
  }

  /** One pixel replaced. */
  ghost function Set(img: Image, x: int, y: int, c: uint32): (r: Image)
    requires img.Valid() && img.Inside(x, y)
    ensures r.Valid() && SameSize(r, img)
    ensures forall x', y' {:trigger r.At(x', y')} :: img.Inside(x', y') ==>
                               r.At(x', y') == if x' == x && y' == y then c else img.At(x', y')
  {
    IndexInRange(img.width, img.height, x, y);
    var r := img.(words := img.words[y * img.width + x := c]);
    assert forall x', y' :: img.Inside(x', y') ==>
                              r.At(x', y') == if x' == x && y' == y then c else img.At(x', y') by {
      forall x', y' | img.Inside(x', y')
        ensures r.At(x', y') == if x' == x && y' == y then c else img.At(x', y')
      {
        IndexInRange(img.width, img.height, x', y');
        if y' * img.width + x' == y * img.width + x {
          IndexInjective(img.width, x', y', x, y);
        }
      }
    }
    r
  }

  /** The image whose pixel (x, y) is `f(x, y)`. */
  ghost function Tabulate(width: uint32, height: uint32, f: (int, int) -> uint32): (r: Image)
    requires ViewSize(width, height)
    ensures r.Valid() && r.width == width && r.height == height
    ensures forall x, y {:trigger r.At(x, y)} :: r.Inside(x, y) ==> r.At(x, y) == f(x, y)
  {
    var n := width * height;
    assert n >= 0 by { IndexInRange(width, height, 0, 0); }
    var r := Image(width, height, seq(n, k requires 0 <= k < n => f(k % width, k / width)));
    assert forall x, y :: r.Inside(x, y) ==> r.At(x, y) == f(x, y) by {
      forall x, y | r.Inside(x, y)
        ensures r.At(x, y) == f(x, y)
      {
        IndexInRange(width, height, x, y);
        IndexDivides(width, x, y, y * width + x);
      }
    }
    r
  }

  /** Row and column of an index. */
  lemma IndexDivides(width: int, x: int, y: int, k: int)
    requires 0 <= x < width && k == y * width + x
    ensures k / width == y && k % width == x
  {
    assert k == (k / width) * width + k % width;
    IndexInjective(width, k % width, k / width, x, y);
  }
}
