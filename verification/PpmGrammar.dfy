/** The files the PPM parser accepts and refuses, by a grammar of the header. */
module PpmGrammar {
  import opened Machine
  import opened Ppm

  // ----- The grammar -----

  /** Space, tab, carriage return and line feed. */
  predicate White(b: uint8) {
    b in {32, 9, 13, 10}
  }

  /** The comment that starts the bytes ends in front of the first carriage return or line feed, at index k. */
  ghost predicate CommentEnds(s: seq<uint8>, k: int) {
    0 < k < |s| && s[k] in {13, 10} && forall j :: 0 < j < k ==> s[j] !in {13, 10}
  }

  /** White space and comments. */
  ghost predicate Gap(s: seq<uint8>)
    decreases |s|
  {
    || s == []
    || (White(s[0]) && Gap(s[1..]))
    || (s[0] == 35 && exists k :: CommentEnds(s, k) && Gap(s[k..]))
  }

  /** A gap that ends the file; its last comment need not be ended. */
  ghost predicate LastGap(s: seq<uint8>) {
    exists k :: LastGapAt(s, k)
  }

  ghost predicate LastGapAt(s: seq<uint8>, k: int) {
    && 0 <= k <= |s| && Gap(s[..k])
    && (k < |s| ==> s[k] == 35 && forall j :: k < j < |s| ==> s[j] !in {13, 10})
  }

  /** A token holds no white space and does not look like a comment. */
  ghost predicate Token(t: seq<uint8>) {
    t != [] && t[0] != 35 && forall j :: 0 <= j < |t| ==> !White(t[j])
  }

  /** A gap, a token, and what is left, which is nothing or goes on with white space. */
  ghost predicate FieldIs(s: seq<uint8>, gap: seq<uint8>, token: seq<uint8>, rest: seq<uint8>) {
    s == gap + token + rest && Gap(gap) && Token(token) && (rest == [] || White(rest[0]))
  }

  /** The bytes start with a field that `int` reads as n. */
  ghost predicate OneField(s: seq<uint8>, n: int, rest: seq<uint8>) {
    exists gap, token :: FieldIs(s, gap, token, rest) && PyInt(token) == Some(n)
  }

  /** The file starts with "P6" and fields that `int` reads as ns; tails[k] is what is left behind the first k. */
  ghost predicate Chain(data: seq<uint8>, ns: seq<int>, tails: seq<seq<uint8>>) {
    && |tails| == |ns| + 1 && data == [80, 54] + tails[0]
    && forall k :: 0 <= k < |ns| ==> OneField(tails[k], ns[k], tails[k + 1])
  }

  ghost predicate Fields(data: seq<uint8>, ns: seq<int>, rest: seq<uint8>) {
    exists tails :: Chain(data, ns, tails) && tails[|ns|] == rest
  }

  /** One separator byte and the payload; an empty payload needs no separator. */
  ghost predicate Payload(rest: seq<uint8>, payload: seq<uint8>) {
    payload == [] || (|rest| > |payload| && rest[1..1 + |payload|] == payload)
  }

  /** There is no payload of that size. */
  ghost predicate TooShort(size: int, rest: seq<uint8>) {
    size < 0 || (size > 0 && |rest| <= size)
  }

  /** When the parser answers r. */
  ghost predicate Answers(data: seq<uint8>, r: Parsed) {
    match r
    case NotP6 => !([80, 54] <= data)
    case Dump(width, height, payload) =>
      && |payload| == width * height * 3
      && exists rest :: Fields(data, [width, height, 255], rest) && Payload(rest, payload)
    case BadMaxval => exists w, h, m, rest :: Fields(data, [w, h, m], rest) && m != 255
    case Truncated =>
      exists w, h, rest :: Fields(data, [w, h, 255], rest) && TooShort(w * h * 3, rest)
    case Malformed => exists ns, rest :: |ns| < 3 && Fields(data, ns, rest) && LastGap(rest)
    case NotANumber =>
      exists ns, s, gap, token, rest ::
        |ns| < 3 && Fields(data, ns, s) && FieldIs(s, gap, token, rest) && PyInt(token) == None
  }

  // ----- The scanning functions look at the suffix only -----

  lemma {:induction false} SpacesShift(a: seq<uint8>, i: nat, b: seq<uint8>, j: nat)
    requires i <= |a| && j <= |b| && a[i..] == b[j..]
    ensures SkipSpaces(a, i) - i == SkipSpaces(b, j) - j
    decreases |a| - i
  {
    SameTail(a, i, b, j);
    if i < |a| && IsSpace(a[i]) { SpacesShift(a, i + 1, b, j + 1); }
  }

  lemma {:induction false} LineShift(a: seq<uint8>, i: nat, b: seq<uint8>, j: nat)
    requires i <= |a| && j <= |b| && a[i..] == b[j..]
    ensures SkipLine(a, i) - i == SkipLine(b, j) - j
    decreases |a| - i
  {
    SameTail(a, i, b, j);
    if i < |a| && !IsLineEnd(a[i]) { LineShift(a, i + 1, b, j + 1); }
  }

  lemma {:induction false} TokenShift(a: seq<uint8>, i: nat, b: seq<uint8>, j: nat)
    requires i <= |a| && j <= |b| && a[i..] == b[j..]
    ensures SkipToken(a, i) - i == SkipToken(b, j) - j
    decreases |a| - i
  {
    SameTail(a, i, b, j);
    if i < |a| && !IsSpace(a[i]) { TokenShift(a, i + 1, b, j + 1); }
  }

  lemma SameTail(a: seq<uint8>, i: nat, b: seq<uint8>, j: nat)
    requires i <= |a| && j <= |b| && a[i..] == b[j..]
    ensures |a| - i == |b| - j
    ensures i < |a| ==> a[i] == b[j] && a[i + 1..] == b[j + 1..]
  {
    if i < |a| {
      assert a[i] == a[i..][0] && b[j] == b[j..][0];
      SamePart(a, i, b, j, 1, |a| - i);
    }
  }

  lemma SamePart(a: seq<uint8>, i: nat, b: seq<uint8>, j: nat, n: nat, m: nat)
    requires i <= |a| && j <= |b| && a[i..] == b[j..] && n <= m <= |a| - i
    ensures |a| - i == |b| - j
    ensures a[i + n..i + m] == b[j + n..j + m] && a[i + n..] == b[j + n..]
  {
    PartOfTail(a, i, n, m);
    PartOfTail(b, j, n, m);
    PartOfTail(a, i, n, |a| - i);
    PartOfTail(b, j, n, |b| - j);
    assert a[i + n..|a|] == a[i + n..] && b[j + n..|b|] == b[j + n..];
  }

  lemma PartOfTail(a: seq<uint8>, i: nat, n: nat, m: nat)
    requires i + m <= |a| && n <= m
    ensures a[i + n..i + m] == a[i..][n..m]
  {
  }

  /** The same field, d bytes further on. */
  function Moved(f: Field, d: int): Field
    requires f.Read? ==> f.end + d >= 0
  {
    if f.Read? then Read(f.end + d, f.n) else f
  }

  lemma {:induction false} FieldShift(a: seq<uint8>, i: nat, b: seq<uint8>, j: nat)
    requires i <= |a| && j <= |b| && a[i..] == b[j..]
    ensures NextField(a, i).Read? ==> NextField(a, i).end + (j - i) >= 0
    ensures NextField(b, j) == Moved(NextField(a, i), j - i)
    decreases |a| - i
  {
    var p, q := SkipSpaces(a, i), SkipSpaces(b, j);
    SpacesShift(a, i, b, j);
    TailAt(a, i, b, j, p, q);
    if p < |a| && a[p] == 35 {
      var p', q' := SkipLine(a, p), SkipLine(b, q);
      LineShift(a, p, b, q);
      TailAt(a, p, b, q, p', q');
      FieldShift(a, p', b, q');
      assert NextField(a, i) == NextField(a, p') && NextField(b, j) == NextField(b, q');
    } else {
      TokenFieldShift(a, p, b, q);
      assert NextField(a, i) == TokenField(a, p) && NextField(b, j) == TokenField(b, q);
    }
  }

  lemma TailAt(a: seq<uint8>, i: nat, b: seq<uint8>, j: nat, p: nat, q: nat)
    requires i <= p <= |a| && j <= q <= |b| && a[i..] == b[j..] && p - i == q - j
    ensures |a| - p == |b| - q && a[p..] == b[q..] && (p < |a| ==> a[p] == b[q])
  {
    SamePart(a, i, b, j, p - i, p - i);
    SameTail(a, p, b, q);
  }

  lemma TokenFieldShift(a: seq<uint8>, i: nat, b: seq<uint8>, j: nat)
    requires i <= |a| && j <= |b| && a[i..] == b[j..]
    ensures TokenField(a, i).Read? ==> TokenField(a, i).end + (j - i) >= 0
    ensures TokenField(b, j) == Moved(TokenField(a, i), j - i)
  {
    TokenShift(a, i, b, j);
    SamePart(a, i, b, j, 0, SkipToken(a, i) - i);
  }

  // ----- Gaps are skipped -----

  lemma {:induction false} SkipLineStops(data: seq<uint8>, i: nat, n: nat)
    requires i + n <= |data| && (i + n < |data| ==> data[i + n] in {13, 10})
    requires forall k :: i <= k < i + n ==> data[k] !in {13, 10}
    ensures SkipLine(data, i) == i + n
    decreases n
  {
    if n > 0 { SkipLineStops(data, i + 1, n - 1); }
  }

  lemma {:induction false} SkipTokenEnds(data: seq<uint8>, i: nat, n: nat)
    requires i + n <= |data| && (i + n < |data| ==> White(data[i + n]))
    requires forall k :: i <= k < i + n ==> !White(data[k])
    ensures SkipToken(data, i) == i + n
    decreases n
  {
    if n > 0 { SkipTokenEnds(data, i + 1, n - 1); }
  }

  lemma WhiteSkipped(data: seq<uint8>)
    requires data != [] && White(data[0])
    ensures NextField(data, 0) == NextField(data, 1)
  {
    assert SkipSpaces(data, 0) == SkipSpaces(data, 1);
  }

  lemma CommentSkipped(data: seq<uint8>, k: int)
    requires data != [] && data[0] == 35 && CommentEnds(data, k)
    ensures NextField(data, 0) == NextField(data, k)
  {
    SkipLineStops(data, 0, k);
  }

  /** A field behind a gap is the field, further on. */
  lemma {:induction false} GapSkipped(gap: seq<uint8>, s: seq<uint8>)
    requires Gap(gap)
    ensures NextField(gap + s, 0) == Moved(NextField(s, 0), |gap|)
    decreases |gap|
  {
    var data := gap + s;
    if gap == [] {
      assert data == s;
    } else if White(gap[0]) {
      WhiteSkipped(data);
      RestSkipped(gap, s, 1);
    } else {
      var k :| CommentEnds(gap, k) && Gap(gap[k..]);
      CommentSkipped(data, k);
      RestSkipped(gap, s, k);
    }
  }

  lemma {:induction false} RestSkipped(gap: seq<uint8>, s: seq<uint8>, k: int)
    requires 0 < k <= |gap| && Gap(gap[k..])
    ensures NextField(gap + s, k) == Moved(NextField(s, 0), |gap|)
    decreases |gap|, 0
  {
    var data := gap + s;
    GapSkipped(gap[k..], s);
    assert data[k..] == (gap[k..] + s)[0..];
    FieldShift(gap[k..] + s, 0, data, k);
  }

  // ----- The next field -----

  /** What `int` makes of a token that ends at an index. */
  function Result(token: seq<uint8>, end: nat): Field {
    match PyInt(token)
    case None => NotInt
    case Some(n) => Read(end, n)
  }

  lemma TokenRead(token: seq<uint8>, rest: seq<uint8>)
    requires Token(token) && (rest == [] || White(rest[0]))
    ensures NextField(token + rest, 0) == Result(token, |token|)
  {
    var s := token + rest;
    SkipTokenEnds(s, 0, |token|);
    assert s[0..|token|] == token;
    assert SkipSpaces(s, 0) == 0;
  }

  /** A field of the grammar is the next field. */
  lemma FieldRead(s: seq<uint8>, gap: seq<uint8>, token: seq<uint8>, rest: seq<uint8>)
    requires FieldIs(s, gap, token, rest)
    ensures NextField(s, 0) == Result(token, |gap| + |token|)
  {
    assert s == gap + (token + rest);
    GapSkipped(gap, token + rest);
    TokenRead(token, rest);
  }

  /** Behind a last gap there is no field. */
  lemma LastGapMissing(s: seq<uint8>)
    requires LastGap(s)
    ensures NextField(s, 0) == Missing
  {
    var k :| LastGapAt(s, k);
    var tail := s[k..];
    assert s == s[..k] + tail;
    GapSkipped(s[..k], tail);
    if tail != [] {
      SkipLineStops(tail, 0, |tail|);
      assert NextField(tail, 0) == NextField(tail, |tail|);
    }
  }

  lemma {:induction false} LineEnds(s: seq<uint8>, i: nat)
    requires i <= |s|
    ensures var k := SkipLine(s, i);
            (k < |s| ==> s[k] in {13, 10}) && forall j :: i <= j < k ==> s[j] !in {13, 10}
    decreases |s| - i
  {
    if i < |s| && !IsLineEnd(s[i]) { LineEnds(s, i + 1); }
  }

  lemma {:induction false} TokenEnds(s: seq<uint8>, i: nat)
    requires i <= |s|
    ensures var k := SkipToken(s, i);
            (k < |s| ==> White(s[k])) && forall j :: i <= j < k ==> !White(s[j])
    decreases |s| - i
  {
    if i < |s| && !IsSpace(s[i]) { TokenEnds(s, i + 1); }
  }

  lemma TokenFirst(s: seq<uint8>) returns (token: seq<uint8>, rest: seq<uint8>)
    requires s != [] && !White(s[0]) && s[0] != 35
    ensures FieldIs(s, [], token, rest)
  {
    var k := SkipToken(s, 0);
    TokenEnds(s, 0);
    token, rest := s[..k], s[k..];
    assert s == [] + token + rest;
  }

  /** White space or a comment in front of a gap makes a longer gap. */
  lemma GapLonger(s: seq<uint8>, k: int, gap: seq<uint8>)
    requires 0 < k <= |s| && Gap(gap)
    requires (k == 1 && White(s[0])) || (s[0] == 35 && CommentEnds(s, k) && gap != [] && gap[0] == s[k])
    ensures Gap(s[..k] + gap)
  {
    var g := s[..k] + gap;
    assert g[k..] == gap;
    if s[0] == 35 && CommentEnds(s, k) && gap != [] && gap[0] == s[k] {
      assert CommentEnds(g, k);
    }
  }

  lemma FieldLonger(s: seq<uint8>, k: int, gap: seq<uint8>, token: seq<uint8>, rest: seq<uint8>)
    requires 0 < k <= |s| && FieldIs(s[k..], gap, token, rest)
    requires (k == 1 && White(s[0])) || (s[0] == 35 && CommentEnds(s, k))
    ensures FieldIs(s, s[..k] + gap, token, rest)
  {
    if k < |s| { assert s[k..][0] == s[k]; }
    GapLonger(s, k, gap);
    assert s == s[..k] + s[k..] == s[..k] + gap + token + rest;
  }

  lemma LastGapLonger(s: seq<uint8>, k: int)
    requires 0 < k <= |s| && LastGap(s[k..])
    requires (k == 1 && White(s[0])) || (s[0] == 35 && CommentEnds(s, k))
    ensures LastGap(s)
  {
    var tail := s[k..];
    var n :| LastGapAt(tail, n);
    if k < |s| { assert tail[0] == s[k]; }
    GapLonger(s, k, tail[..n]);
    assert s[..k + n] == s[..k] + tail[..n];
    forall j | k + n < j < |s| ensures s[j] !in {13, 10} { assert s[j] == tail[j - k]; }
    if k + n < |s| { assert s[k + n] == tail[n]; }
    assert LastGapAt(s, k + n);
  }

  /** Whatever the bytes, the grammar says what comes next. */
  lemma {:induction false} Split(s: seq<uint8>) returns (gap: seq<uint8>, token: seq<uint8>, rest: seq<uint8>)
    ensures LastGap(s) || FieldIs(s, gap, token, rest)
    decreases |s|
  {
    gap, token, rest := [], [], [];
    if s == [] {
      assert LastGapAt(s, 0);
    } else if White(s[0]) {
      gap, token, rest := SplitBehind(s, 1);
    } else if s[0] == 35 {
      var k := SkipLine(s, 0);
      LineEnds(s, 0);
      if k == |s| {
        assert LastGapAt(s, 0);
      } else {
        gap, token, rest := SplitBehind(s, k);
      }
    } else {
      token, rest := TokenFirst(s);
    }
  }

  lemma {:induction false} SplitBehind(s: seq<uint8>, k: int)
    returns (gap: seq<uint8>, token: seq<uint8>, rest: seq<uint8>)
    requires 0 < k <= |s| && ((k == 1 && White(s[0])) || (s[0] == 35 && CommentEnds(s, k)))
    ensures LastGap(s) || FieldIs(s, gap, token, rest)
    decreases |s|, 0
  {
    gap, token, rest := Split(s[k..]);
    if LastGap(s[k..]) {
      LastGapLonger(s, k);
    } else {
      FieldLonger(s, k, gap, token, rest);
      gap := s[..k] + gap;
    }
  }

  // ----- Whole files -----

  lemma RestOfField(data: seq<uint8>, i: nat, gap: seq<uint8>, token: seq<uint8>, rest: seq<uint8>)
    requires i <= |data| && data[i..] == gap + token + rest
    ensures |data| - |rest| == i + |gap| + |token| && rest == data[|data| - |rest|..]
  {
    var k := |gap| + |token|;
    assert rest == data[i..][k..|data| - i];
    PartOfTail(data, i, k, |data| - i);
  }

  /** A field of the grammar is the next field, anywhere in the file. */
  lemma FieldNext(data: seq<uint8>, i: nat, gap: seq<uint8>, token: seq<uint8>, rest: seq<uint8>)
    requires i <= |data| && FieldIs(data[i..], gap, token, rest)
    ensures |rest| < |data| - i && rest == data[|data| - |rest|..]
    ensures NextField(data, i) == Result(token, |data| - |rest|)
  {
    var s := data[i..];
    RestOfField(data, i, gap, token, rest);
    FieldRead(s, gap, token, rest);
    FieldShift(s, 0, data, i);
  }

  lemma MissingNext(data: seq<uint8>, i: nat)
    requires i <= |data| && LastGap(data[i..])
    ensures NextField(data, i) == Missing
  {
    LastGapMissing(data[i..]);
    FieldShift(data[i..], 0, data, i);
  }

  /** The parser reads the fields ns one after the other, each up to the next of the indices. */
  ghost predicate Reads(data: seq<uint8>, ns: seq<int>, ends: seq<nat>) {
    && |ends| == |ns| + 1 && (forall k :: 0 <= k < |ends| ==> ends[k] <= |data|)
    && forall k :: 0 <= k < |ns| ==> NextField(data, ends[k]) == Read(ends[k + 1], ns[k])
  }

  /** Scanning from i comes to j with the fields ns. */
  ghost predicate SameScan(data: seq<uint8>, i: nat, j: nat, ns: seq<int>)
    requires i <= |data| && j <= |data| && |ns| <= 3
  {
    Scan(data, i, []) == Scan(data, j, ns)
  }

  lemma ScanRead(data: seq<uint8>, i: nat, ns: seq<int>, end: nat, n: int)
    requires i <= |data| && |ns| < 3 && NextField(data, i) == Read(end, n)
    ensures Scan(data, i, ns) == Scan(data, end, ns + [n])
  {
  }

  lemma SameScanNext(data: seq<uint8>, i: nat, j: nat, ns: seq<int>, end: nat, n: int)
    requires i <= |data| && j <= |data| && |ns| < 3 && SameScan(data, i, j, ns) && NextField(data, j) == Read(end, n)
    ensures SameScan(data, i, end, ns + [n])
  {
    ScanRead(data, j, ns, end, n);
  }

  lemma {:induction false} ScanReads(data: seq<uint8>, ns: seq<int>, ends: seq<nat>, k: nat)
    requires Reads(data, ns, ends) && k <= |ns| <= 3
    ensures SameScan(data, ends[0], ends[k], ns[..k])
  {
    if k > 0 {
      ScanReads(data, ns, ends, k - 1);
      SameScanNext(data, ends[0], ends[k - 1], ns[..k - 1], ends[k - 1 + 1], ns[k - 1]);
      assert ns[..k] == ns[..k - 1] + [ns[k - 1]];
    }
  }

  ghost predicate IsTail(data: seq<uint8>, rest: seq<uint8>) {
    |rest| <= |data| && rest == data[|data| - |rest|..]
  }

  lemma FieldOfTail(data: seq<uint8>, s: seq<uint8>, n: int, rest: seq<uint8>)
    requires IsTail(data, s) && OneField(s, n, rest)
    ensures IsTail(data, rest) && NextField(data, |data| - |s|) == Read(|data| - |rest|, n)
  {
    var gap, token :| FieldIs(s, gap, token, rest) && PyInt(token) == Some(n);
    FieldNext(data, |data| - |s|, gap, token, rest);
  }

  lemma {:induction false} ChainTails(data: seq<uint8>, ns: seq<int>, tails: seq<seq<uint8>>, k: nat)
    requires Chain(data, ns, tails) && k <= |ns|
    ensures IsTail(data, tails[k])
  {
    if k > 0 {
      ChainTails(data, ns, tails, k - 1);
      FieldOfTail(data, tails[k - 1], ns[k - 1], tails[k - 1 + 1]);
    }
  }

  ghost function Ends(data: seq<uint8>, tails: seq<seq<uint8>>): (ends: seq<nat>)
    requires forall k :: 0 <= k < |tails| ==> |tails[k]| <= |data|
    ensures |ends| == |tails| && forall k :: 0 <= k < |tails| ==> ends[k] == |data| - |tails[k]|
  {
    seq(|tails|, k requires 0 <= k < |tails| => |data| - |tails[k]|)
  }

  /** A chain of the grammar is what the parser reads. */
  lemma ChainRead(data: seq<uint8>, ns: seq<int>, tails: seq<seq<uint8>>)
    requires Chain(data, ns, tails)
    ensures forall k :: 0 <= k < |tails| ==> |tails[k]| <= |data|
    ensures IsTail(data, tails[|ns|]) && Reads(data, ns, Ends(data, tails))
  {
    forall k | 0 <= k <= |ns| ensures IsTail(data, tails[k]) { ChainTails(data, ns, tails, k); }
    var ends := Ends(data, tails);
    forall k | 0 <= k < |ns| ensures NextField(data, ends[k]) == Read(ends[k + 1], ns[k]) {
      FieldOfTail(data, tails[k], ns[k], tails[k + 1]);
    }
  }

  /** The file is scanned up to `rest`, with these fields read. */
  ghost predicate ScannedTo(data: seq<uint8>, ns: seq<int>, rest: seq<uint8>) {
    [80, 54] <= data && |ns| <= 3 && IsTail(data, rest) && SameScan(data, 2, |data| - |rest|, ns)
  }

  /** The scan of a file reads the fields of the grammar. */
  lemma FieldsScanned(data: seq<uint8>, ns: seq<int>, rest: seq<uint8>)
    requires Fields(data, ns, rest) && |ns| <= 3
    ensures ScannedTo(data, ns, rest)
  {
    var tails :| Chain(data, ns, tails) && tails[|ns|] == rest;
    ChainScanned(data, ns, tails);
  }

  lemma ChainScanned(data: seq<uint8>, ns: seq<int>, tails: seq<seq<uint8>>)
    requires Chain(data, ns, tails) && |ns| <= 3
    ensures ScannedTo(data, ns, tails[|ns|])
  {
    ChainRead(data, ns, tails);
    ScanAllReads(data, ns, Ends(data, tails), 2, |data| - |tails[|ns|]|);
  }

  lemma ScanAllReads(data: seq<uint8>, ns: seq<int>, ends: seq<nat>, i: nat, j: nat)
    requires Reads(data, ns, ends) && |ns| <= 3 && ends[0] == i && ends[|ns|] == j
    ensures SameScan(data, i, j, ns)
  {
    ScanReads(data, ns, ends, |ns|);
    assert ns[..|ns|] == ns;
  }

  lemma PayloadSliced(data: seq<uint8>, rest: seq<uint8>, size: nat)
    requires |rest| <= |data| && rest == data[|data| - |rest|..] && size > 0
    ensures |rest| > size ==> Slice(data, |data| - |rest| + 1, size) == rest[1..1 + size]
    ensures |rest| <= size ==> |Slice(data, |data| - |rest| + 1, size)| < size
  {
    if |rest| > size { PartOfTail(data, |data| - |rest|, 1, 1 + size); }
  }

  /** What follows the three fields decides. */
  lemma DumpParsed(data: seq<uint8>, w: int, h: int, m: int, rest: seq<uint8>)
    requires Fields(data, [w, h, m], rest)
    ensures m != 255 ==> Parse(data) == BadMaxval
    ensures m == 255 && TooShort(w * h * 3, rest) ==> Parse(data) == Truncated
    ensures m == 255 && !TooShort(w * h * 3, rest) ==>
              Parse(data) == Dump(w, h, if w * h == 0 then [] else rest[1..1 + w * h * 3])
  {
    FieldsScanned(data, [w, h, m], rest);
    HeaderParsed(data, w, h, m, rest);
  }

  lemma HeaderParsed(data: seq<uint8>, w: int, h: int, m: int, rest: seq<uint8>)
    requires ScannedTo(data, [w, h, m], rest)
    ensures m != 255 ==> Parse(data) == BadMaxval
    ensures m == 255 && TooShort(w * h * 3, rest) ==> Parse(data) == Truncated
    ensures m == 255 && !TooShort(w * h * 3, rest) ==>
              Parse(data) == Dump(w, h, if w * h == 0 then [] else rest[1..1 + w * h * 3])
  {
    assert Scan(data, 2, []) == Header(|data| - |rest|, [w, h, m]);
    HeaderJudged(data, w, h, m, rest);
  }

  lemma HeaderJudged(data: seq<uint8>, w: int, h: int, m: int, rest: seq<uint8>)
    requires IsTail(data, rest)
    ensures var r := Judged(data, Header(|data| - |rest|, [w, h, m]));
            && (m != 255 ==> r == BadMaxval)
            && (m == 255 && TooShort(w * h * 3, rest) ==> r == Truncated)
            && (m == 255 && !TooShort(w * h * 3, rest) ==>
                  r == Dump(w, h, if w * h == 0 then [] else rest[1..1 + w * h * 3]))
  {
    var size := w * h * 3;
    if size > 0 { PayloadSliced(data, rest, size); }
  }

  lemma MalformedParsed(data: seq<uint8>, ns: seq<int>, rest: seq<uint8>)
    requires |ns| < 3 && ScannedTo(data, ns, rest) && LastGap(rest)
    ensures Parse(data) == Malformed
  {
    MissingNext(data, |data| - |rest|);
  }

  lemma NotANumberParsed(data: seq<uint8>, ns: seq<int>, s: seq<uint8>, gap: seq<uint8>, token: seq<uint8>,
                         rest: seq<uint8>)
    requires |ns| < 3 && ScannedTo(data, ns, s) && FieldIs(s, gap, token, rest) && PyInt(token) == None
    ensures Parse(data) == NotANumber
  {
    FieldNext(data, |data| - |s|, gap, token, rest);
  }

  lemma AnswerParsed(data: seq<uint8>, r: Parsed)
    requires Answers(data, r)
    ensures Parse(data) == r
  {
    match r
    case NotP6 =>
    case Dump(width, height, payload) =>
      var rest :| Fields(data, [width, height, 255], rest) && Payload(rest, payload);
      DumpParsed(data, width, height, 255, rest);
      assert width * height == 0 <==> payload == [];
    case BadMaxval =>
      var w, h, m, rest :| Fields(data, [w, h, m], rest) && m != 255;
      DumpParsed(data, w, h, m, rest);
    case Truncated =>
      var w, h, rest :| Fields(data, [w, h, 255], rest) && TooShort(w * h * 3, rest);
      DumpParsed(data, w, h, 255, rest);
    case Malformed =>
      var ns, rest :| |ns| < 3 && Fields(data, ns, rest) && LastGap(rest);
      FieldsScanned(data, ns, rest);
      MalformedParsed(data, ns, rest);
    case NotANumber =>
      var ns, s, gap, token, rest :|
        |ns| < 3 && Fields(data, ns, s) && FieldIs(s, gap, token, rest) && PyInt(token) == None;
      FieldsScanned(data, ns, s);
      NotANumberParsed(data, ns, s, gap, token, rest);
  }

  lemma FieldsLonger(data: seq<uint8>, ns: seq<int>, s: seq<uint8>, n: int, rest: seq<uint8>)
    requires Fields(data, ns, s) && OneField(s, n, rest)
    ensures Fields(data, ns + [n], rest)
  {
    var tails :| Chain(data, ns, tails) && tails[|ns|] == s;
    var tails' := tails + [rest];
    assert Chain(data, ns + [n], tails') && tails'[|ns + [n]|] == rest;
  }

  lemma HeaderAnswer(data: seq<uint8>, w: int, h: int, m: int, rest: seq<uint8>) returns (r: Parsed)
    requires Fields(data, [w, h, m], rest)
    ensures Answers(data, r)
  {
    var size := w * h * 3;
    if m != 255 {
      r := BadMaxval;
    } else if TooShort(size, rest) {
      r := Truncated;
    } else {
      r := Dump(w, h, if size == 0 then [] else rest[1..1 + size]);
      assert Payload(rest, r.payload);
    }
  }

  /** There is always an answer. */
  lemma {:induction false} SomeAnswer(data: seq<uint8>, ns: seq<int>, s: seq<uint8>) returns (r: Parsed)
    requires Fields(data, ns, s) && |ns| <= 3
    ensures Answers(data, r)
    decreases 3 - |ns|
  {
    if |ns| == 3 {
      assert ns == [ns[0], ns[1], ns[2]];
      r := HeaderAnswer(data, ns[0], ns[1], ns[2], s);
    } else {
      var gap, token, rest := Split(s);
      if LastGap(s) {
        r := Malformed;
      } else if PyInt(token) == None {
        r := NotANumber;
      } else {
        var n := PyInt(token).value;
        assert OneField(s, n, rest);
        FieldsLonger(data, ns, s, n, rest);
        r := SomeAnswer(data, ns + [n], rest);
      }
    }
  }

  lemma NoFields(data: seq<uint8>)
    requires [80, 54] <= data
    ensures Fields(data, [], data[2..])
  {
    var ns: seq<int> := [];
    assert Chain(data, ns, [data[2..]]) && [data[2..]][|ns|] == data[2..];
  }

  /** The parser gives exactly the answer of the grammar, for every file. */
  lemma ParseExactly(data: seq<uint8>, r: Parsed)
    ensures Parse(data) == r <==> Answers(data, r)
  {
    if Answers(data, r) { AnswerParsed(data, r); }
    if [80, 54] <= data {
      NoFields(data);
      var a := SomeAnswer(data, [], data[2..]);
      AnswerParsed(data, a);
    }
  }

  // ----- Comments -----

  lemma CommentIsGap(comment: seq<uint8>)
    requires forall j :: 0 <= j < |comment| ==> comment[j] !in {13, 10}
    ensures Gap([35] + comment + [10])
  {
    var g := [35] + comment + [10];
    assert g[|g| - 1..] == [10] && [10][1..] == [];
    assert Gap([10]);
    assert CommentEnds(g, |g| - 1);
  }

  lemma {:induction false} GapsJoin(a: seq<uint8>, b: seq<uint8>)
    requires Gap(a) && Gap(b)
    ensures Gap(a + b)
    decreases |a|
  {
    var g := a + b;
    if a == [] {
      assert g == b;
    } else if White(a[0]) {
      GapsJoin(a[1..], b);
      assert g[1..] == a[1..] + b;
    } else {
      var k :| CommentEnds(a, k) && Gap(a[k..]);
      GapsJoin(a[k..], b);
      assert g[k..] == a[k..] + b;
      assert CommentEnds(g, k);
    }
  }

  lemma {:induction false} ScanShift(a: seq<uint8>, i: nat, b: seq<uint8>, j: nat, ns: seq<int>)
    requires i <= |a| && j <= |b| && a[i..] == b[j..] && |ns| <= 3
    ensures SameUpTo(a, Scan(a, i, ns), b, Scan(b, j, ns))
    decreases 3 - |ns|, 1
  {
    if |ns| < 3 {
      FieldShift(a, i, b, j);
      var f := NextField(a, i);
      if f.Read? { TailAt(a, i, b, j, f.end, f.end + (j - i)); }
      ScanAlike(a, i, b, j, ns);
    }
  }

  /** The same next field, with the same bytes behind it, makes the same header. */
  lemma {:induction false} ScanAlike(a: seq<uint8>, i: nat, b: seq<uint8>, j: nat, ns: seq<int>)
    requires i <= |a| && j <= |b| && |ns| < 3
    requires var f, g := NextField(a, i), NextField(b, j);
             if f.Read? then g.Read? && f.n == g.n && a[f.end..] == b[g.end..] else f == g
    ensures SameUpTo(a, Scan(a, i, ns), b, Scan(b, j, ns))
    decreases 3 - |ns|, 0
  {
    var f, g := NextField(a, i), NextField(b, j);
    if f.Read? {
      ScanRead(a, i, ns, f.end, f.n);
      ScanRead(b, j, ns, g.end, g.n);
      ScanShift(a, f.end, b, g.end, ns + [f.n]);
    }
  }

  /** The same fields, with the same bytes behind them. */
  ghost predicate SameUpTo(a: seq<uint8>, x: Header, b: seq<uint8>, y: Header) {
    if x.Header? then
      && y.Header? && y.fields == x.fields && x.idx <= |a| && y.idx <= |b| && a[x.idx..] == b[y.idx..]
    else y == x
  }

  lemma SameParse(a: seq<uint8>, b: seq<uint8>)
    requires [80, 54] <= a && [80, 54] <= b && SameUpTo(a, Scan(a, 2, []), b, Scan(b, 2, []))
    ensures Parse(a) == Parse(b)
  {
    SameJudged(a, Scan(a, 2, []), b, Scan(b, 2, []));
  }

  lemma SameJudged(a: seq<uint8>, x: Header, b: seq<uint8>, y: Header)
    requires SameUpTo(a, x, b, y) && (x.Header? ==> |x.fields| == 3)
    ensures Judged(a, x) == Judged(b, y)
  {
    if x.Header? {
      var size := x.fields[0] * x.fields[1] * 3;
      if size > 0 {
        var rest := a[x.idx..];
        PayloadSliced(a, rest, size);
        PayloadSliced(b, rest, size);
      }
    }
  }

  /** Bytes with their tail replaced. */
  function Replaced(s: seq<uint8>, n: nat, rest: seq<uint8>): seq<uint8>
    requires n <= |s|
  {
    s[..|s| - n] + rest
  }

  lemma FieldReplaced(s: seq<uint8>, n: int, s': seq<uint8>, k: nat, rest: seq<uint8>)
    requires OneField(s, n, s') && k <= |s'|
    requires Replaced(s', k, rest) == [] || White(Replaced(s', k, rest)[0])
    ensures k < |s| && OneField(Replaced(s, k, rest), n, Replaced(s', k, rest))
  {
    var gap, token :| FieldIs(s, gap, token, s') && PyInt(token) == Some(n);
    assert Replaced(s, k, rest) == gap + token + Replaced(s', k, rest);
    assert FieldIs(Replaced(s, k, rest), gap, token, Replaced(s', k, rest));
  }

  lemma FieldFirst(s: seq<uint8>, n: int, s': seq<uint8>)
    requires OneField(s, n, s')
    ensures |s'| < |s| && (s' == [] || White(s'[0]))
  {
  }

  lemma {:induction false} TailsShrink(data: seq<uint8>, ns: seq<int>, tails: seq<seq<uint8>>, k: nat)
    requires Chain(data, ns, tails) && k <= |ns|
    ensures |tails[|ns|]| <= |tails[k]| && (k < |ns| ==> |tails[|ns|]| < |tails[k]|)
    decreases |ns| - k
  {
    if k < |ns| {
      TailsShrink(data, ns, tails, k + 1);
      FieldFirst(tails[k], ns[k], tails[k + 1]);
    }
  }

  /** The bytes behind the fields read so far may be replaced, if the last token still ends there. */
  lemma FieldsReplaced(data: seq<uint8>, ns: seq<int>, rest: seq<uint8>, rest': seq<uint8>)
    requires Fields(data, ns, rest) && (ns == [] || (rest' != [] && White(rest'[0])))
    ensures |rest| <= |data| && Fields(Replaced(data, |rest|, rest'), ns, rest')
  {
    var tails :| Chain(data, ns, tails) && tails[|ns|] == rest;
    var n := |rest|;
    forall k | 0 <= k <= |ns| ensures n <= |tails[k]| && (k < |ns| ==> n < |tails[k]|) {
      TailsShrink(data, ns, tails, k);
    }
    var tails' := seq(|tails|, k requires 0 <= k < |tails| => Replaced(tails[k], n, rest'));
    forall k | 0 <= k < |ns| ensures OneField(tails'[k], ns[k], tails'[k + 1]) {
      assert OneField(tails[k], ns[k], tails[k + 1]);
      FieldFirst(tails[k], ns[k], tails[k + 1]);
      FieldReplaced(tails[k], ns[k], tails[k + 1], n, rest');
    }
    assert Replaced(data, n, rest') == [80, 54] + tails'[0];
    assert tails'[|ns|] == rest';
    assert Chain(Replaced(data, n, rest'), ns, tails');
  }

  /** Any gap in front of a field may be replaced by any other; between two fields it has to begin with white
      space. */
  lemma GapsEquivalent(data: seq<uint8>, ns: seq<int>, gap: seq<uint8>, gap': seq<uint8>, s: seq<uint8>)
    requires |ns| < 3 && Fields(data, ns, gap + s) && Gap(gap) && Gap(gap')
    requires ns != [] ==> gap' != [] && White(gap'[0])
    ensures |gap + s| <= |data| && Parse(Replaced(data, |gap + s|, gap' + s)) == Parse(data)
  {
    FieldsReplaced(data, ns, gap + s, gap' + s);
    var data' := Replaced(data, |gap + s|, gap' + s);
    FieldsScanned(data, ns, gap + s);
    FieldsScanned(data', ns, gap' + s);
    SkippedAlike(data, data', ns, gap, gap', s);
  }

  lemma SkippedAlike(a: seq<uint8>, b: seq<uint8>, ns: seq<int>, gap: seq<uint8>, gap': seq<uint8>, s: seq<uint8>)
    requires |ns| < 3 && Gap(gap) && Gap(gap') && ScannedTo(a, ns, gap + s) && ScannedTo(b, ns, gap' + s)
    ensures Parse(a) == Parse(b)
  {
    SkipsAlike(a, |a| - |gap + s|, b, |b| - |gap' + s|, ns, gap, gap', s);
    SameParse(a, b);
  }

  /** A comment behind the white space in front of any field changes nothing. */
  lemma CommentIgnored(data: seq<uint8>, ns: seq<int>, gap: seq<uint8>, comment: seq<uint8>, s: seq<uint8>)
    requires |ns| < 3 && Fields(data, ns, gap + s) && Gap(gap) && (ns != [] ==> gap != [] && White(gap[0]))
    requires forall j :: 0 <= j < |comment| ==> comment[j] !in {13, 10}
    ensures |gap + s| <= |data|
    ensures Parse(Replaced(data, |gap + s|, gap + ([35] + comment + [10]) + s)) == Parse(data)
  {
    CommentIsGap(comment);
    GapsJoin(gap, [35] + comment + [10]);
    GapsEquivalent(data, ns, gap, gap + ([35] + comment + [10]), s);
  }

  /** Gaps of different length in front of the same bytes. */
  lemma SkipsAlike(a: seq<uint8>, i: nat, b: seq<uint8>, j: nat, ns: seq<int>, gap: seq<uint8>, gap': seq<uint8>,
                   s: seq<uint8>)
    requires Gap(gap) && Gap(gap') && |ns| < 3 && i <= |a| && j <= |b|
    requires a[i..] == gap + s && b[j..] == gap' + s
    ensures SameUpTo(a, Scan(a, i, ns), b, Scan(b, j, ns))
  {
    FieldBehind(a, i, gap, s);
    FieldBehind(b, j, gap', s);
    ScanAlike(a, i, b, j, ns);
  }

  /** The field behind a gap, and what is left behind it. */
  lemma FieldBehind(a: seq<uint8>, i: nat, gap: seq<uint8>, s: seq<uint8>)
    requires Gap(gap) && i <= |a| && a[i..] == gap + s
    ensures var f, g := NextField(s, 0), NextField(a, i);
            if f.Read? then g.Read? && g.n == f.n && a[g.end..] == s[f.end..] else g == f
  {
    GapSkipped(gap, s);
    FieldShift(gap + s, 0, a, i);
    if NextField(s, 0).Read? { TailAfter(a, i, gap, s, NextField(s, 0).end); }
  }

  lemma TailAfter(a: seq<uint8>, i: nat, gap: seq<uint8>, s: seq<uint8>, k: nat)
    requires i <= |a| && a[i..] == gap + s && k <= |s|
    ensures k + (|gap| + i) <= |a| && a[k + (|gap| + i)..] == s[k..]
  {
    PartOfTail(a, i, |gap| + k, |a| - i);
    assert (gap + s)[|gap| + k..] == s[k..];
  }

  // ----- Printed files -----

  /** A token that `int` reads as n. */
  ghost predicate Number(token: seq<uint8>, n: int) {
    Token(token) && PyInt(token) == Some(n)
  }

  lemma Separated(b: uint8, token: seq<uint8>, n: int, rest: seq<uint8>)
    requires White(b) && Number(token, n) && rest != [] && White(rest[0])
    ensures OneField([b] + token + rest, n, rest)
  {
    assert [b][1..] == [];
    assert FieldIs([b] + token + rest, [b], token, rest);
  }

  lemma ThreeFields(tail0: seq<uint8>, n1: int, tail1: seq<uint8>, n2: int, tail2: seq<uint8>, n3: int,
                    rest: seq<uint8>)
    requires OneField(tail0, n1, tail1) && OneField(tail1, n2, tail2) && OneField(tail2, n3, rest)
    ensures Fields([80, 54] + tail0, [n1, n2, n3], rest)
  {
    var ns, tails := [n1, n2, n3], [tail0, tail1, tail2, rest];
    assert Chain([80, 54] + tail0, ns, tails) && tails[|ns|] == rest;
  }

  lemma PrintedShape(t1: seq<uint8>, t2: seq<uint8>, t3: seq<uint8>, body: seq<uint8>)
    ensures [80, 54] + [10] + t1 + [32] + t2 + [10] + t3 + [10] + body
         == [80, 54] + ([10] + t1 + ([32] + t2 + ([10] + t3 + ([10] + body))))
  {
  }

  /** The fields of a printed file. */
  lemma PrintedFields(t1: seq<uint8>, n1: int, t2: seq<uint8>, n2: int, body: seq<uint8>)
    requires Number(t1, n1) && Number(t2, n2)
    ensures Fields(Printed(t1, t2, body), [n1, n2, 255], [10] + body)
  {
    var t3, rest := [50, 53, 53], [10] + body;
    var tail2 := [10] + t3 + rest;
    var tail1 := [32] + t2 + tail2;
    PyInt255();
    Separated(10, t3, 255, rest);
    Separated(32, t2, n2, tail2);
    Separated(10, t1, n1, tail1);
    ThreeFields([10] + t1 + tail1, n1, tail1, n2, tail2, 255, rest);
    PrintedShape(t1, t2, t3, body);
  }

  lemma PyInt255()
    ensures PyInt([50, 53, 53]) == Some(255)
  {
    assert [50, 53, 53][..2] == [50, 53] && [50, 53][..1] == [50] && [50][..0] == [];
    assert Digits([50]) == Some(2);
    assert Digits([50, 53]) == Some(25);
    assert Digits([50, 53, 53]) == Some(255);
  }

  lemma PrintedParsed(t1: seq<uint8>, n1: int, t2: seq<uint8>, n2: int, body: seq<uint8>)
    requires Number(t1, n1) && Number(t2, n2) && |body| == n1 * n2 * 3
    ensures Parse(Printed(t1, t2, body)) == Dump(n1, n2, body)
  {
    PrintedFields(t1, n1, t2, n2, body);
    DumpParsed(Printed(t1, t2, body), n1, n2, 255, [10] + body);
    assert ([10] + body)[1..1 + |body|] == body;
  }

  /** Printing and parsing gives back width, height and body, whatever bytes the body begins with. */
  lemma RoundTrip(width: nat, height: nat, body: seq<uint8>)
    requires |body| == width * height * 3
    ensures Parse(Synthetic(width, height, body)) == Dump(width, height, body)
  {
    PyIntOfDecimal(width);
    PyIntOfDecimal(height);
    PrintedParsed(Decimal(width), width, Decimal(height), height, body);
  }

  lemma PyIntOfNegative(n: nat)
    ensures Number([45] + Decimal(n), 0 - n)
  {
    DigitsOfDecimal(n);
    var s := [45] + Decimal(n);
    assert s[1..] == Decimal(n);
    assert StripLeft(s) == s && !IsBlank(s[|s| - 1]);
  }

  /** A file with two negative sizes is accepted, because only their product is looked at. */
  lemma NegativeSizesAccepted(width: nat, height: nat, body: seq<uint8>)
    requires |body| == width * height * 3
    ensures Parse(Printed([45] + Decimal(width), [45] + Decimal(height), body)) == Dump(0 - width, 0 - height, body)
  {
    PyIntOfNegative(width);
    PyIntOfNegative(height);
    NegativesParsed([45] + Decimal(width), width, [45] + Decimal(height), height, body);
  }

  lemma NegativesParsed(t1: seq<uint8>, w: nat, t2: seq<uint8>, h: nat, body: seq<uint8>)
    requires Number(t1, 0 - w) && Number(t2, 0 - h) && |body| == w * h * 3
    ensures Parse(Printed(t1, t2, body)) == Dump(0 - w, 0 - h, body)
  {
    assert (0 - w) * (0 - h) * 3 == w * h * 3;
    PrintedParsed(t1, 0 - w, t2, 0 - h, body);
  }
}
