/** Binary PPM screen dumps: the parser, the printer of the self test, and the pixel counter. */
module Ppm {
  import opened Machine
  import opened Images
  import opened Strides

  // ----- Decimal numbers -----

  predicate IsDigit(b: uint8) { 48 <= b <= 57 }

  /** The decimal digits of n, as an f-string prints them. */
  function Decimal(n: nat): (r: seq<uint8>)
    ensures |r| >= 1 && forall i :: 0 <= i < |r| ==> IsDigit(r[i])
  {
    if n < 10 then [48 + n] else Decimal(n / 10) + [48 + n % 10]
  }

  /** Digits with single underscores between them, as Python's `int` reads them. */
  function Digits(s: seq<uint8>): Option<nat>
    decreases |s|
  {
    if s == [] || !IsDigit(s[|s| - 1]) then None
    else
      var d, front := s[|s| - 1] - 48, s[..|s| - 1];
      if front == [] then Some(d)
      else
        var rest := if front[|front| - 1] == 95 then front[..|front| - 1] else front;
        match Digits(rest)
        case None => None
        case Some(n) => Some(n * 10 + d)
  }

  /** White space that `int` strips. */
  predicate IsBlank(b: uint8) { b == 32 || 9 <= b <= 13 }

  function StripLeft(s: seq<uint8>): seq<uint8> {
    if s != [] && IsBlank(s[0]) then StripLeft(s[1..]) else s
  }

  function StripRight(s: seq<uint8>): seq<uint8> {
    if s != [] && IsBlank(s[|s| - 1]) then StripRight(s[..|s| - 1]) else s
  }

  /** An optional sign, digits. */
  function Signed(s: seq<uint8>): Option<int> {
    if s != [] && (s[0] == 43 || s[0] == 45) then
      match Digits(s[1..])
      case None => None
      case Some(n) => Some(if s[0] == 45 then 0 - n as int else n)
    else
      match Digits(s)
      case None => None
      case Some(n) => Some(n)
  }

  /** Python's `int` on bytes: stripped, an optional sign, digits. None stands for ValueError. */
  function PyInt(token: seq<uint8>): Option<int> {
    Signed(StripRight(StripLeft(token)))
  }

  lemma {:induction false} DigitsOfDecimal(n: nat)
    ensures Digits(Decimal(n)) == Some(n)
  {
    if n >= 10 {
      DigitsOfDecimal(n / 10);
      var s := Decimal(n);
      assert s[..|s| - 1] == Decimal(n / 10);
    }
  }

  lemma PyIntOfDecimal(n: nat)
    ensures PyInt(Decimal(n)) == Some(n)
  {
    DigitsOfDecimal(n);
  }

  // ----- The header scan -----

  /** The separators of the header. */
  predicate IsSpace(b: uint8) { b == 32 || b == 9 || b == 13 || b == 10 }

  predicate IsLineEnd(b: uint8) { b == 13 || b == 10 }

  function SkipSpaces(data: seq<uint8>, i: nat): (r: nat)
    requires i <= |data|
    ensures i <= r <= |data|
    decreases |data| - i
  {
    if i < |data| && IsSpace(data[i]) then SkipSpaces(data, i + 1) else i
  }

  function SkipLine(data: seq<uint8>, i: nat): (r: nat)
    requires i <= |data|
    ensures i <= r <= |data|
    decreases |data| - i
  {
    if i < |data| && !IsLineEnd(data[i]) then SkipLine(data, i + 1) else i
  }

  function SkipToken(data: seq<uint8>, i: nat): (r: nat)
    requires i <= |data|
    ensures i <= r <= |data|
    decreases |data| - i
  {
    if i < |data| && !IsSpace(data[i]) then SkipToken(data, i + 1) else i
  }

  datatype Field = Read(end: nat, n: int) | Missing | NotInt

  /** The token at an index, as a header field. */
  function TokenField(data: seq<uint8>, start: nat): (r: Field)
    requires start <= |data|
    ensures r.Read? ==> start < r.end <= |data|
  {
    var end := SkipToken(data, start);
    if end == start then Missing
    else
      match PyInt(data[start..end])
      case None => NotInt
      case Some(n) => Read(end, n)
  }

  /** The next header field from an index on, behind spaces and comments. */
  function NextField(data: seq<uint8>, i: nat): (r: Field)
    requires i <= |data|
    ensures r.Read? ==> i < r.end <= |data|
    decreases |data| - i
  {
    var start := SkipSpaces(data, i);
    if start < |data| && data[start] == 35 then NextField(data, SkipLine(data, start)) else TokenField(data, start)
  }

  datatype Header = Header(idx: nat, fields: seq<int>) | MalformedHeader | BadNumber

  /** The rest of the header scan from an index, with the fields read so far. */
  function Scan(data: seq<uint8>, i: nat, fields: seq<int>): (r: Header)
    requires i <= |data| && |fields| <= 3
    ensures r.Header? ==> r.idx <= |data| && |r.fields| == 3
    decreases 3 - |fields|
  {
    if |fields| == 3 then Header(i, fields)
    else
      match NextField(data, i)
      case Missing => MalformedHeader
      case NotInt => BadNumber
      case Read(end, n) => Scan(data, end, fields + [n])
  }

  datatype Parsed =
    | Dump(width: int, height: int, payload: seq<uint8>)
    | NotP6
    | Malformed
    | NotANumber
    | BadMaxval
    | Truncated

  /** Python's `data[i : i + n]`, for n >= 0. */
  function Slice(data: seq<uint8>, i: nat, n: nat): seq<uint8> {
    if i >= |data| then [] else data[i..Min(i + n, |data|)]
  }

  /** What follows from the header. */
  function Judged(data: seq<uint8>, h: Header): Parsed
    requires h.Header? ==> |h.fields| == 3
  {
    match h
    case MalformedHeader => Malformed
    case BadNumber => NotANumber
    case Header(idx, fields) =>
      var width, height, expected := fields[0], fields[1], fields[0] * fields[1] * 3;
      if fields[2] != 255 then BadMaxval
      else if expected < 0 || |Slice(data, idx + 1, expected)| != expected then Truncated
      else Dump(width, height, Slice(data, idx + 1, expected))
  }

  /** What the parser makes of a file. */
  function Parse(data: seq<uint8>): Parsed {
    if !([80, 54] <= data) then NotP6 else Judged(data, Scan(data, 2, []))
  }

  // The three inner loops of the parser.

  method PassSpaces(data: seq<uint8>, i: nat) returns (j: nat)
    requires i <= |data|
    ensures j == SkipSpaces(data, i)
  {
    j := i;
    while j < |data| && IsSpace(data[j])
      invariant i <= j <= |data|
      invariant SkipSpaces(data, j) == SkipSpaces(data, i)
    {
      j := j + 1;
    }
  }

  method PassLine(data: seq<uint8>, i: nat) returns (j: nat)
    requires i <= |data|
    ensures j == SkipLine(data, i)
  {
    j := i;
    while j < |data| && !IsLineEnd(data[j])
      invariant i <= j <= |data|
      invariant SkipLine(data, j) == SkipLine(data, i)
    {
      j := j + 1;
    }
  }

  method PassToken(data: seq<uint8>, i: nat) returns (j: nat)
    requires i <= |data|
    ensures j == SkipToken(data, i)
  {
    j := i;
    while j < |data| && !IsSpace(data[j])
      invariant i <= j <= |data|
      invariant SkipToken(data, j) == SkipToken(data, i)
    {
      j := j + 1;
    }
  }

  /** `parse_ppm`. */
  method ParsePpm(data: seq<uint8>) returns (r: Parsed)
    ensures r == Parse(data)
  {
    if !([80, 54] <= data) { return NotP6; }
    var idx := 2;
    var fields: seq<int> := [];
    while |fields| < 3
      invariant 2 <= idx <= |data| && |fields| <= 3
      invariant Scan(data, idx, fields) == Scan(data, 2, [])
      decreases |data| - idx, 3 - |fields|
    {
      idx := PassSpaces(data, idx);
      if idx < |data| && data[idx] == 35 {
        idx := PassLine(data, idx);
        continue;
      }
      var start := idx;
      idx := PassToken(data, start);
      if start == idx { return Malformed; }
      var n := PyInt(data[start..idx]);
      if n.None? { return NotANumber; }
      fields := fields + [n.value];
    }
    idx := idx + 1;
    var width, height, maxval := fields[0], fields[1], fields[2];
    if maxval != 255 { return BadMaxval; }
    var expected := width * height * 3;
    if expected < 0 { return Truncated; }
    var payload := Slice(data, idx, expected);
    if |payload| != expected { return Truncated; }
    return Dump(width, height, payload);
  }

  // ----- The printer -----

  /** Two tokens and a body in the layout of `_synthetic_ppm`. */
  function Printed(t1: seq<uint8>, t2: seq<uint8>, body: seq<uint8>): seq<uint8> {
    [80, 54] + [10] + t1 + [32] + t2 + [10] + [50, 53, 53] + [10] + body
  }

  /** `_synthetic_ppm`. */
  function Synthetic(width: nat, height: nat, body: seq<uint8>): seq<uint8> {
    Printed(Decimal(width), Decimal(height), body)
  }

  // ----- Negative sizes -----

  /** The token that is the next field. */
  function FieldToken(data: seq<uint8>, i: nat): seq<uint8>
    requires i <= |data|
    decreases |data| - i
  {
    var start := SkipSpaces(data, i);
    if start < |data| && data[start] == 35 then FieldToken(data, SkipLine(data, start))
    else data[start..SkipToken(data, start)]
  }

  lemma {:induction false} FieldOfToken(data: seq<uint8>, i: nat)
    requires i <= |data| && NextField(data, i).Read?
    ensures PyInt(FieldToken(data, i)) == Some(NextField(data, i).n)
    decreases |data| - i
  {
    var start := SkipSpaces(data, i);
    if start < |data| && data[start] == 35 { FieldOfToken(data, SkipLine(data, start)); }
  }

  ghost predicate HasNonzeroDigit(s: seq<uint8>) {
    exists k :: 0 <= k < |s| && 49 <= s[k] <= 57
  }

  /** A minus sign, behind white space, and a digit other than zero. */
  ghost predicate WritesNegative(token: seq<uint8>) {
    var s := StripRight(StripLeft(token));
    s != [] && s[0] == 45 && HasNonzeroDigit(s)
  }

  lemma {:induction false} DigitsZero(s: seq<uint8>)
    requires Digits(s).Some?
    ensures Digits(s).value > 0 <==> HasNonzeroDigit(s)
    decreases |s|
  {
    var front := s[..|s| - 1];
    assert HasNonzeroDigit(s) <==> HasNonzeroDigit(front) || s[|s| - 1] >= 49 by { LastDigit(s, front); }
    if front != [] {
      var rest := if front[|front| - 1] == 95 then front[..|front| - 1] else front;
      if front[|front| - 1] == 95 { LastDigit(front, rest); }
      DigitsZero(rest);
    }
  }

  lemma LastDigit(s: seq<uint8>, front: seq<uint8>)
    requires s != [] && front == s[..|s| - 1]
    ensures HasNonzeroDigit(s) <==> HasNonzeroDigit(front) || 49 <= s[|s| - 1] <= 57
  {
    if k :| 0 <= k < |s| && 49 <= s[k] <= 57 {
      if k < |s| - 1 { assert front[k] == s[k]; }
    }
    if k :| 0 <= k < |front| && 49 <= front[k] <= 57 { assert s[k] == front[k]; }
  }

  /** `int` returns a negative number exactly for such a token. */
  lemma NegativeToken(token: seq<uint8>)
    requires PyInt(token).Some?
    ensures PyInt(token).value < 0 <==> WritesNegative(token)
  {
    var s := StripRight(StripLeft(token));
    if s != [] && s[0] == 45 {
      DigitsZero(s[1..]);
      if k :| 0 <= k < |s| && 49 <= s[k] <= 57 { assert s[1..][k - 1] == s[k]; }
      if k :| 0 <= k < |s[1..]| && 49 <= s[1..][k] <= 57 { assert s[k + 1] == s[1..][k]; }
    }
  }

  /** The fields of a header, each behind the one before. */
  lemma HeaderFields(data: seq<uint8>) returns (f1: Field, f2: Field)
    requires |data| >= 2 && Scan(data, 2, []).Header?
    ensures f1 == NextField(data, 2) && f1.Read? && f2 == NextField(data, f1.end) && f2.Read?
    ensures Scan(data, 2, []).fields[..2] == [f1.n, f2.n]
  {
    f1 := NextField(data, 2);
    ScanStep(data, 2, []);
    f2 := NextField(data, f1.end);
    ScanStep(data, f1.end, [] + [f1.n]);
    ScanStep(data, f2.end, [] + [f1.n] + [f2.n]);
  }

  lemma ScanStep(data: seq<uint8>, i: nat, fields: seq<int>)
    requires i <= |data| && |fields| < 3 && Scan(data, i, fields).Header?
    ensures var f := NextField(data, i); f.Read? && Scan(data, i, fields) == Scan(data, f.end, fields + [f.n])
  {
  }

  lemma AcceptedHeader(data: seq<uint8>)
    requires Parse(data).Dump?
    ensures |data| >= 2 && Scan(data, 2, []).Header?
    ensures var d, f := Parse(data), Scan(data, 2, []).fields;
            d.width == f[0] && d.height == f[1] && d.width * d.height * 3 >= 0
  {
  }

  /** The sizes of an accepted file are negative exactly where the header writes them so, and then neither is
      positive. */
  lemma AcceptedSizes(data: seq<uint8>)
    requires Parse(data).Dump?
    ensures |data| >= 2 && NextField(data, 2).Read?
    ensures var d, f := Parse(data), NextField(data, 2);
            && (d.width < 0 <==> WritesNegative(FieldToken(data, 2)))
            && (d.height < 0 <==> WritesNegative(FieldToken(data, f.end)))
            && (d.width < 0 ==> d.height <= 0) && (d.height < 0 ==> d.width <= 0)
  {
    AcceptedHeader(data);
    var d, fields := Parse(data), Scan(data, 2, []).fields;
    var f1, f2 := HeaderFields(data);
    assert fields[..2][0] == fields[0] && fields[..2][1] == fields[1];
    FieldOfToken(data, 2);
    FieldOfToken(data, f1.end);
    NegativeToken(FieldToken(data, 2));
    NegativeToken(FieldToken(data, f1.end));
    SameSigns(d.width, d.height);
  }

  lemma SameSigns(a: int, b: int)
    requires a * b * 3 >= 0
    ensures (a < 0 ==> b <= 0) && (b < 0 ==> a <= 0)
  {
  }

  // ----- Counting pixels -----

  datatype Rgb = Rgb(red: uint8, green: uint8, blue: uint8)

  /** The pixel (x, y) of a dump has the colour. */
  ghost predicate HasColour(pixels: seq<uint8>, width: int, height: int, rgb: Rgb, x: int, y: int) {
    && 0 <= x < width && 0 <= y < height
    && var i := (y * width + x) * 3;
    0 <= i && i + 2 < |pixels| && pixels[i] == rgb.red && pixels[i + 1] == rgb.green && pixels[i + 2] == rgb.blue
  }

  /** The pixels of the colour in [x0, x1) x [y0, y1). */
  ghost function Matches(pixels: seq<uint8>, width: int, height: int, rgb: Rgb, x0: int, y0: int, x1: int, y1: int)
    : set<(int, int)>
  {
    set x, y | x0 <= x < x1 && y0 <= y < y1 && HasColour(pixels, width, height, rgb, x, y) :: (x, y)
  }

  /** `count_rgb` with its box given. */
  method CountRgb(pixels: seq<uint8>, width: int, height: int, rgb: Rgb, x0: int, y0: int, x1: int, y1: int)
    returns (count: nat)
    requires |pixels| >= width * height * 3
    ensures count == |Matches(pixels, width, height, rgb, x0, y0, x1, y1)|
  {
    var left, top, right, bottom := Max(0, x0), Max(0, y0), Min(width, x1), Min(height, y1);
    count := 0;
    var y := top;
    NoMatches(pixels, width, height, rgb, left, right, top);
    while y < bottom
      invariant top <= y && (y <= bottom || y == top)
      invariant count == |Matches(pixels, width, height, rgb, left, top, right, y)|
    {
      ghost var above := count;
      NoMatches(pixels, width, height, rgb, left, right, y);
      var x := left;
      while x < right
        invariant left <= x && (x <= right || x == left)
        invariant count == above + |Matches(pixels, width, height, rgb, left, y, x, y + 1)|
      {
        IndexInRange(width, height, x, y);
        CountSplits(pixels, width, height, rgb, left, y, x + 1, y + 1, x);
        OnePixel(pixels, width, height, rgb, x, y);
        var i := (y * width + x) * 3;
        if pixels[i] == rgb.red && pixels[i + 1] == rgb.green && pixels[i + 2] == rgb.blue {
          count := count + 1;
        }
        x := x + 1;
      }
      RowMatches(pixels, width, height, rgb, left, right, x, y);
      CountSplits(pixels, width, height, rgb, left, top, right, y + 1, y);
      y := y + 1;
    }
    ClampedBox(pixels, width, height, rgb, x0, y0, x1, y1, y);
  }

  lemma NoMatches(pixels: seq<uint8>, width: int, height: int, rgb: Rgb, left: int, right: int, y: int)
    ensures |Matches(pixels, width, height, rgb, left, y, right, y)| == 0
    ensures |Matches(pixels, width, height, rgb, left, y, left, y + 1)| == 0
  {
    assert Matches(pixels, width, height, rgb, left, y, right, y) == {};
    assert Matches(pixels, width, height, rgb, left, y, left, y + 1) == {};
  }

  lemma OnePixel(pixels: seq<uint8>, width: int, height: int, rgb: Rgb, x: int, y: int)
    ensures |Matches(pixels, width, height, rgb, x, y, x + 1, y + 1)|
         == if HasColour(pixels, width, height, rgb, x, y) then 1 else 0
  {
    if HasColour(pixels, width, height, rgb, x, y) {
      assert Matches(pixels, width, height, rgb, x, y, x + 1, y + 1) == {(x, y)};
    } else {
      assert Matches(pixels, width, height, rgb, x, y, x + 1, y + 1) == {};
    }
  }

  lemma RowMatches(pixels: seq<uint8>, width: int, height: int, rgb: Rgb, left: int, right: int, x: int, y: int)
    requires x == right || (x == left && right <= left)
    ensures Matches(pixels, width, height, rgb, left, y, x, y + 1)
         == Matches(pixels, width, height, rgb, left, y, right, y + 1)
  {
  }

  lemma ClampedBox(pixels: seq<uint8>, width: int, height: int, rgb: Rgb, x0: int, y0: int, x1: int, y1: int, y: int)
    requires y == Min(height, y1) || (y == Max(0, y0) && Min(height, y1) <= y)
    ensures Matches(pixels, width, height, rgb, Max(0, x0), Max(0, y0), Min(width, x1), y)
         == Matches(pixels, width, height, rgb, x0, y0, x1, y1)
  {
  }

  /** The count over a box cut at a column is the sum over the halves. */
  lemma CountSplits(pixels: seq<uint8>, width: int, height: int, rgb: Rgb, x0: int, y0: int, x1: int, y1: int, m: int)
    ensures var all := |Matches(pixels, width, height, rgb, x0, y0, x1, y1)|;
            && (x0 <= m <= x1 ==> all == |Matches(pixels, width, height, rgb, x0, y0, m, y1)|
                                         + |Matches(pixels, width, height, rgb, m, y0, x1, y1)|)
            && (y0 <= m <= y1 ==> all == |Matches(pixels, width, height, rgb, x0, y0, x1, m)|
                                         + |Matches(pixels, width, height, rgb, x0, m, x1, y1)|)
  {
    var all := Matches(pixels, width, height, rgb, x0, y0, x1, y1);
    if x0 <= m <= x1 {
      var a := Matches(pixels, width, height, rgb, x0, y0, m, y1);
      var b := Matches(pixels, width, height, rgb, m, y0, x1, y1);
      assert all == a + b && a !! b;
    }
    if y0 <= m <= y1 {
      var a := Matches(pixels, width, height, rgb, x0, y0, x1, m);
      var b := Matches(pixels, width, height, rgb, x0, m, x1, y1);
      assert all == a + b && a !! b;
    }
  }

  // ----- Pictures -----

  /** A row of pixels, red first. */
  function RowOfRgb(row: seq<Rgb>): seq<uint8> {
    if row == [] then [] else [row[0].red, row[0].green, row[0].blue] + RowOfRgb(row[1..])
  }

  lemma {:induction false} RowOfRgbAt(row: seq<Rgb>, x: int)
    requires 0 <= x < |row|
    ensures var b := RowOfRgb(row);
            && |b| == 3 * |row|
            && b[3 * x] == row[x].red && b[3 * x + 1] == row[x].green && b[3 * x + 2] == row[x].blue
    decreases |row|
  {
    if |row| > 1 { RowOfRgbAt(row[1..], if x == 0 then 0 else x - 1); }
  }

  ghost function RowsOfRgb(rows: seq<seq<Rgb>>): (r: seq<seq<uint8>>)
    ensures |r| == |rows| && forall i :: 0 <= i < |rows| ==> r[i] == RowOfRgb(rows[i])
  {
    seq(|rows|, i requires 0 <= i < |rows| => RowOfRgb(rows[i]))
  }

  /** The payload of a picture, top row first. */
  ghost function Body(rows: seq<seq<Rgb>>): seq<uint8> {
    Stacked(RowsOfRgb(rows), [])
  }

  lemma BodyRows(rows: seq<seq<Rgb>>, w: int)
    requires Rectangular(rows, w) && w >= 1
    ensures Rectangular(RowsOfRgb(rows), 3 * w)
  {
    forall i | 0 <= i < |rows| ensures |RowsOfRgb(rows)[i]| == 3 * w { RowOfRgbAt(rows[i], 0); }
  }

  lemma TripleIndex(w: int, h: int, x: int, y: int, b: int)
    ensures y * (3 * w + 0) + (3 * x + b) == (y * w + x) * 3 + b && h * (3 * w + 0) == w * h * 3
  {
  }

  lemma BodyByte(rows: seq<seq<Rgb>>, w: int, x: int, y: int, b: int, i: int)
    requires Rectangular(rows, w) && 0 <= x < w && 0 <= y < |rows| && 0 <= b < 3 && i == (y * w + x) * 3 + b
    ensures |RowOfRgb(rows[y])| == 3 * w && |Body(rows)| == w * |rows| * 3
    ensures 0 <= i < |Body(rows)| && Body(rows)[i] == RowOfRgb(rows[y])[3 * x + b]
  {
    BodyRows(rows, w);
    RowOfRgbAt(rows[y], x);
    TripleIndex(w, |rows|, x, y, b);
    var none: seq<uint8> := [];
    StackedAt(RowsOfRgb(rows), none, 3 * w, y, 3 * x + b);
  }

  /** The colour test reads the picture's pixel. */
  lemma PictureColour(rows: seq<seq<Rgb>>, w: int, rgb: Rgb, x: int, y: int)
    requires Rectangular(rows, w) && 0 <= x < w && 0 <= y < |rows|
    ensures HasColour(Body(rows), w, |rows|, rgb, x, y) <==> rows[y][x] == rgb
  {
    var i := (y * w + x) * 3;
    BodyByte(rows, w, x, y, 0, i);
    BodyByte(rows, w, x, y, 1, i + 1);
    BodyByte(rows, w, x, y, 2, i + 2);
    RowOfRgbAt(rows[y], x);
  }

  /** The count over a picture's payload is the number of its pixels of the colour inside the box. */
  lemma PictureCount(rows: seq<seq<Rgb>>, w: nat, rgb: Rgb, x0: int, y0: int, x1: int, y1: int)
    requires Rectangular(rows, w)
    ensures Matches(Body(rows), w, |rows|, rgb, x0, y0, x1, y1)
         == set x, y | 0 <= x < w && 0 <= y < |rows| && x0 <= x < x1 && y0 <= y < y1 && rows[y][x] == rgb :: (x, y)
  {
    forall x, y | 0 <= x < w && 0 <= y < |rows|
      ensures HasColour(Body(rows), w, |rows|, rgb, x, y) <==> rows[y][x] == rgb
    {
      PictureColour(rows, w, rgb, x, y);
    }
  }
}
