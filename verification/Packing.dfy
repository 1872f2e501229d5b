/** Byte-strided source memory, laid out from a picture: what the blits and the glyph draw, in terms of the
    picture's own words and bits. */
module Packing {
  import opened Machine
  import opened Rects
  import opened Strides
  import opened Images
  import opened Inks
  import opened Canvas
  import opened Sprites

  // ----- Pictures of words -----

  /** A 32-bit word in memory, low byte first. */
  function WordBytes(v: uint32): (r: seq<uint8>)
    ensures |r| == 4
  {
    [v % 0x100, v / 0x100 % 0x100, v / 0x100 / 0x100 % 0x100, v / 0x100 / 0x100 / 0x100]
  }

  lemma WordOfBytes(v: uint32)
    ensures var b := WordBytes(v); WordOf(b[0], b[1], b[2], b[3]) == v
  {
    var q := v / 0x100;
    var r := q / 0x100;
    assert v == 0x100 * q + v % 0x100;
    assert q == 0x100 * r + q % 0x100;
    assert r == 0x100 * (r / 0x100) + r % 0x100;
  }

  function RowOfWords(row: seq<uint32>): seq<uint8> {
    if row == [] then [] else WordBytes(row[0]) + RowOfWords(row[1..])
  }

  lemma {:induction false} RowOfWordsAt(row: seq<uint32>, x: int, b: int)
    requires 0 <= x < |row| && 0 <= b < 4
    ensures |RowOfWords(row)| == 4 * |row| && RowOfWords(row)[4 * x + b] == WordBytes(row[x])[b]
    decreases |row|
  {
    if |row| > 1 { RowOfWordsAt(row[1..], if x == 0 then 0 else x - 1, b); }
  }

  ghost function RowsOfWords(rows: seq<seq<uint32>>): (r: seq<seq<uint8>>)
    ensures |r| == |rows| && forall i :: 0 <= i < |rows| ==> r[i] == RowOfWords(rows[i])
  {
    seq(|rows|, i requires 0 <= i < |rows| => RowOfWords(rows[i]))
  }

  /** The source memory of a picture of words. */
  ghost function PackWords(rows: seq<seq<uint32>>, pad: seq<uint8>): seq<uint8> {
    Stacked(RowsOfWords(rows), pad)
  }

  lemma PackedRows(rows: seq<seq<uint32>>, w: int)
    requires Rectangular(rows, w) && w >= 1
    ensures Rectangular(RowsOfWords(rows), 4 * w)
  {
    forall i | 0 <= i < |rows| ensures |RowsOfWords(rows)[i]| == 4 * w { RowOfWordsAt(rows[i], 0, 0); }
  }

  lemma PackedWordsCover(rows: seq<seq<uint32>>, pad: seq<uint8>, w: int)
    requires Rectangular(rows, w) && w >= 1 && rows != []
    ensures CoversWords(PackWords(rows, pad), 4 * w + |pad|, w, |rows|)
  {
    PackedRows(rows, w);
    StackedAt(RowsOfWords(rows), pad, 4 * w, 0, 0);
    NextRow(|rows|, 0, 4 * w + |pad|);
  }

  lemma PackedByte(rows: seq<seq<uint32>>, pad: seq<uint8>, w: int, x: int, y: int, b: int)
    requires Rectangular(rows, w) && 0 <= x < w && 0 <= y < |rows| && 0 <= b < 4
    ensures 0 <= y * (4 * w + |pad|) + (4 * x + b) < |PackWords(rows, pad)|
    ensures PackWords(rows, pad)[y * (4 * w + |pad|) + (4 * x + b)] == WordBytes(rows[y][x])[b]
  {
    PackedRows(rows, w);
    StackedAt(RowsOfWords(rows), pad, 4 * w, y, 4 * x + b);
    RowOfWordsAt(rows[y], x, b);
  }

  /** What is read out of packed memory at (x, y) is the picture's word there, at every stride. */
  lemma PackedWord(rows: seq<seq<uint32>>, pad: seq<uint8>, w: int, x: int, y: int)
    requires Rectangular(rows, w) && 0 <= x < w && 0 <= y < |rows|
    ensures CoversWords(PackWords(rows, pad), 4 * w + |pad|, w, |rows|)
    ensures SourceWord(PackWords(rows, pad), 4 * w + |pad|, w, |rows|, x, y) == rows[y][x]
  {
    PackedWordsCover(rows, pad, w);
    PackedByte(rows, pad, w, x, y, 0);
    PackedByte(rows, pad, w, x, y, 1);
    PackedByte(rows, pad, w, x, y, 2);
    PackedByte(rows, pad, w, x, y, 3);
    WordOfBytes(rows[y][x]);
  }

  // ----- Pictures of bits -----

  /** Up to eight bits in a byte, the first one the most significant. */
  function ByteOf(bits: seq<bool>): bv8 {
    (if |bits| > 0 && bits[0] then 0x80 else 0) | (if |bits| > 1 && bits[1] then 0x40 else 0)
    | (if |bits| > 2 && bits[2] then 0x20 else 0) | (if |bits| > 3 && bits[3] then 0x10 else 0)
    | (if |bits| > 4 && bits[4] then 0x08 else 0) | (if |bits| > 5 && bits[5] then 0x04 else 0)
    | (if |bits| > 6 && bits[6] then 0x02 else 0) | (if |bits| > 7 && bits[7] then 0x01 else 0)
  }

  lemma BitOfByte(bits: seq<bool>, i: int)
    requires 0 <= i < 8 && i < |bits|
    ensures BitOf(ByteOf(bits), i) == bits[i]
  {
  }

  /** A row of bits, from bit 7 of its first byte on. */
  function RowOfBits(row: seq<bool>): seq<bv8>
    decreases |row|
  {
    if row == [] then [] else [ByteOf(row)] + RowOfBits(if |row| <= 8 then [] else row[8..])
  }

  lemma {:induction false} RowOfBitsAt(row: seq<bool>, x: int)
    requires 0 <= x < |row|
    ensures |RowOfBits(row)| == RowBytes(|row|) && 0 <= x / 8 < |RowOfBits(row)|
    ensures BitOf(RowOfBits(row)[x / 8], x % 8) == row[x]
    decreases |row|
  {
    if |row| > 8 {
      NextByte(|row|, x);
      RowOfBitsAt(row[8..], if x < 8 then 0 else x - 8);
    }
    if x < 8 { BitOfByte(row, x); }
  }

  lemma NextByte(w: int, x: int)
    ensures w > 8 ==> RowBytes(w - 8) == RowBytes(w) - 1
    ensures x >= 8 ==> (x - 8) / 8 == x / 8 - 1 && (x - 8) % 8 == x % 8
  {
  }

  ghost function RowsOfBits(rows: seq<seq<bool>>): (r: seq<seq<bv8>>)
    ensures |r| == |rows| && forall i :: 0 <= i < |rows| ==> r[i] == RowOfBits(rows[i])
  {
    seq(|rows|, i requires 0 <= i < |rows| => RowOfBits(rows[i]))
  }

  /** The mask memory of a picture of bits. */
  ghost function PackBits(rows: seq<seq<bool>>, pad: seq<bv8>): seq<bv8> {
    Stacked(RowsOfBits(rows), pad)
  }

  lemma PackedBitRows(rows: seq<seq<bool>>, w: int)
    requires Rectangular(rows, w) && w >= 1
    ensures Rectangular(RowsOfBits(rows), RowBytes(w))
  {
    forall i | 0 <= i < |rows| ensures |RowsOfBits(rows)[i]| == RowBytes(w) { RowOfBitsAt(rows[i], 0); }
  }

  lemma PackedBitsCover(rows: seq<seq<bool>>, pad: seq<bv8>, w: int)
    requires Rectangular(rows, w) && w >= 1 && rows != []
    ensures CoversBits(PackBits(rows, pad), RowBytes(w) + |pad|, w, |rows|)
  {
    PackedBitRows(rows, w);
    StackedAt(RowsOfBits(rows), pad, RowBytes(w), 0, 0);
    NextRow(|rows|, 0, RowBytes(w) + |pad|);
  }

  /** What is read out of packed mask memory at (x, y) is the picture's bit there, at every stride. */
  lemma PackedBit(rows: seq<seq<bool>>, pad: seq<bv8>, w: int, x: int, y: int)
    requires Rectangular(rows, w) && 0 <= x < w && 0 <= y < |rows|
    ensures CoversBits(PackBits(rows, pad), RowBytes(w) + |pad|, w, |rows|)
    ensures SourceBit(PackBits(rows, pad), RowBytes(w) + |pad|, w, |rows|, x, y) == rows[y][x]
  {
    PackedBitsCover(rows, pad, w);
    PackedBitRows(rows, w);
    RowOfBitsAt(rows[y], x);
    StackedAt(RowsOfBits(rows), pad, RowBytes(w), y, x / 8);
  }

  // ----- What is drawn -----

  /** A size that the C types can hold. */
  ghost predicate Sized(w: int, h: int, stride: int) {
    1 <= w && 1 <= h <= UINT32_MAX && stride <= UINT32_MAX
  }

  /** The requested rectangle, as far as it is drawn. */
  ghost predicate Shown(img: Image, clip: Rect, r: Rect, x: int, y: int) {
    r.Contains(x, y) && TwoStep(r, clip, img.width, img.height).Contains(x, y)
  }

  lemma DrawnAt(img: Image, clip: Rect, c: Call, x: int, y: int)
    requires img.Valid() && Sourced(c) && img.Inside(x, y)
    ensures Drawn(img, clip, c).At(x, y)
         == if Shown(img, clip, c.request, x, y) then Touched(img, c, x, y) else img.At(x, y)
  {
    RegionDrawable(img, clip, c);
    TwoStepNeverAdds(c.request, clip, img.width, img.height, x, y);
  }

  /** A blit of a packed picture is accepted, and puts the picture's word (sx, sy) at pixel (dx + sx, dy + sy),
      wherever that is drawn and the word is not the key. */
  lemma PackedSpriteDrawn(img: Image, clip: Rect, r: Rect, rows: seq<seq<uint32>>, pad: seq<uint8>, key: Option<uint32>,
                          x: int, y: int)
    requires img.Valid() && img.Inside(x, y) && Rectangular(rows, r.w) && |rows| == r.h
    requires Sized(r.w, r.h, 4 * r.w + |pad|)
    ensures var stride, src := 4 * r.w + |pad|, PackWords(rows, pad);
            var c := Call(r, Sprite(src, stride, key));
            && BlitArgs(stride, r.w, r.h) && Sourced(c)
            && Drawn(img, clip, c).At(x, y)
               == if Shown(img, clip, r, x, y) && key != Some(rows[y - r.y][x - r.x]) then rows[y - r.y][x - r.x]
                  else img.At(x, y)
  {
    PackedWordsCover(rows, pad, r.w);
    DrawnAt(img, clip, Call(r, Sprite(PackWords(rows, pad), 4 * r.w + |pad|, key)), x, y);
    if Shown(img, clip, r, x, y) { PackedWord(rows, pad, r.w, x - r.x, y - r.y); }
  }

  /** A masked blit of a packed picture copies exactly the words whose bit is set. */
  lemma PackedMaskDrawn(img: Image, clip: Rect, r: Rect, rows: seq<seq<uint32>>, pad: seq<uint8>,
                        bits: seq<seq<bool>>, maskPad: seq<bv8>, x: int, y: int)
    requires img.Valid() && img.Inside(x, y) && Rectangular(rows, r.w) && |rows| == r.h
    requires Rectangular(bits, r.w) && |bits| == r.h
    requires Sized(r.w, r.h, 4 * r.w + |pad|) && Sized(r.w, r.h, RowBytes(r.w) + |maskPad|)
    ensures var c := Call(r, Masked(PackWords(rows, pad), 4 * r.w + |pad|,
                                    PackBits(bits, maskPad), RowBytes(r.w) + |maskPad|));
            && BlitArgs(4 * r.w + |pad|, r.w, r.h) && Sourced(c)
            && Drawn(img, clip, c).At(x, y)
               == if Shown(img, clip, r, x, y) && bits[y - r.y][x - r.x] then rows[y - r.y][x - r.x] else img.At(x, y)
  {
    PackedWordsCover(rows, pad, r.w);
    PackedBitsCover(bits, maskPad, r.w);
    DrawnAt(img, clip, Call(r, Masked(PackWords(rows, pad), 4 * r.w + |pad|,
                                      PackBits(bits, maskPad), RowBytes(r.w) + |maskPad|)), x, y);
    if r.Contains(x, y) { PackedMaskWanted(r, rows, pad, bits, maskPad, x, y); }
  }

  lemma PackedMaskWanted(r: Rect, rows: seq<seq<uint32>>, pad: seq<uint8>, bits: seq<seq<bool>>, maskPad: seq<bv8>,
                         x: int, y: int)
    requires Rectangular(rows, r.w) && |rows| == r.h && Rectangular(bits, r.w) && |bits| == r.h && r.Contains(x, y)
    requires Sized(r.w, r.h, 4 * r.w + |pad|) && Sized(r.w, r.h, RowBytes(r.w) + |maskPad|)
    ensures var c := Call(r, Masked(PackWords(rows, pad), 4 * r.w + |pad|,
                                    PackBits(bits, maskPad), RowBytes(r.w) + |maskPad|));
            && Sourced(c)
            && Wanted(c, x, y) == if bits[y - r.y][x - r.x] then Some(rows[y - r.y][x - r.x]) else None
  {
    PackedWord(rows, pad, r.w, x - r.x, y - r.y);
    PackedBit(bits, maskPad, r.w, x - r.x, y - r.y);
  }

  /** A glyph of packed bits: the foreground where the bit is set, and where it is not, the background if that is
      opaque. */
  lemma PackedGlyphDrawn(img: Image, clip: Rect, r: Rect, bits: seq<seq<bool>>, pad: seq<bv8>,
                         fg: uint32, bg: uint32, opaqueBg: bool, x: int, y: int)
    requires img.Valid() && img.Inside(x, y) && Rectangular(bits, r.w) && |bits| == r.h
    requires Sized(r.w, r.h, RowBytes(r.w) + |pad|)
    ensures var c := Call(r, Glyph(PackBits(bits, pad), RowBytes(r.w) + |pad|, fg, bg, opaqueBg));
            && Sourced(c)
            && Drawn(img, clip, c).At(x, y)
               == if !Shown(img, clip, r, x, y) then img.At(x, y)
                  else if bits[y - r.y][x - r.x] then fg else if opaqueBg then bg else img.At(x, y)
  {
    PackedBitsCover(bits, pad, r.w);
    DrawnAt(img, clip, Call(r, Glyph(PackBits(bits, pad), RowBytes(r.w) + |pad|, fg, bg, opaqueBg)), x, y);
    if r.Contains(x, y) { PackedGlyphWanted(r, bits, pad, fg, bg, opaqueBg, x, y); }
  }

  lemma PackedGlyphWanted(r: Rect, bits: seq<seq<bool>>, pad: seq<bv8>, fg: uint32, bg: uint32, opaqueBg: bool,
                          x: int, y: int)
    requires Rectangular(bits, r.w) && |bits| == r.h && r.Contains(x, y) && Sized(r.w, r.h, RowBytes(r.w) + |pad|)
    ensures var c := Call(r, Glyph(PackBits(bits, pad), RowBytes(r.w) + |pad|, fg, bg, opaqueBg));
            && Sourced(c)
            && Wanted(c, x, y) == if bits[y - r.y][x - r.x] then Some(fg) else if opaqueBg then Some(bg) else None
  {
    PackedBit(bits, pad, r.w, x - r.x, y - r.y);
  }

  // ----- The argument checks -----

  /** Behind its guard against overflow, the check of the blits accepts exactly the strides that hold a row. */
  lemma BlitArgsExactly(stride: uint32, w: uint32, h: uint32)
    ensures BlitArgs(stride, w, h) <==> 1 <= w && 1 <= h && 4 * w <= stride
  {
  }

  /** The row bytes are the fewest that hold w bits. */
  lemma RowBytesExactly(w: nat, n: nat)
    ensures RowBytes(w) <= n <==> w <= 8 * n
  {
  }
}
