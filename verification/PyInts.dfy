/** The bytes that Python's `int` reads, and the number it makes of them. */
module PyInts {
  import opened Machine
  import opened Ppm

  // ----- Digits -----

  predicate Digit(b: uint8) {
    48 <= b <= 57
  }

  /** Digits, with at most one underscore between two of them. */
  ghost predicate Grouped(s: seq<uint8>) {
    && s != [] && Digit(s[0]) && Digit(s[|s| - 1])
    && (forall i :: 0 <= i < |s| ==> Digit(s[i]) || s[i] == 95)
    && (forall i, j :: 0 <= i && j == i + 1 && j < |s| ==> Digit(s[i]) || Digit(s[j]))
  }

  /** The number that the digits spell, underscores left out. */
  function Value(s: seq<uint8>): int {
    if s == [] then 0
    else
      var front, last := s[..|s| - 1], s[|s| - 1];
      if last == 95 then Value(front) else 10 * Value(front) + (last as int - 48)
  }

  lemma GroupedByDigit(s: seq<uint8>, d: uint8)
    requires s != [] && s[|s| - 1] != 95
    ensures Grouped(s + [d]) <==> Grouped(s) && Digit(d)
  {
    var t := s + [d];
    if Grouped(t) {
      assert t[|s|] == d && t[|s| - 1] == s[|s| - 1];
      forall i | 0 <= i < |s| ensures Digit(s[i]) || s[i] == 95 { assert t[i] == s[i]; }
      forall i, j | 0 <= i && j == i + 1 && j < |s| ensures Digit(s[i]) || Digit(s[j]) {
        assert t[i] == s[i] && t[j] == s[j];
      }
    }
  }

  lemma GroupedByUnderscore(s: seq<uint8>, d: uint8)
    ensures Grouped(s + [95, d]) <==> Grouped(s) && Digit(d)
  {
    var t := s + [95, d];
    if Grouped(t) {
      assert t[|s|] == 95 && t[|s| + 1] == d && s != [];
      assert t[|s| - 1] == s[|s| - 1] && t[0] == s[0];
      forall i | 0 <= i < |s| ensures Digit(s[i]) || s[i] == 95 { assert t[i] == s[i]; }
      forall i, j | 0 <= i && j == i + 1 && j < |s| ensures Digit(s[i]) || Digit(s[j]) {
        assert t[i] == s[i] && t[j] == s[j];
      }
    }
  }

  lemma {:induction false} DigitsExactly(s: seq<uint8>)
    ensures Digits(s).Some? <==> Grouped(s)
    ensures Digits(s).Some? ==> Digits(s).value == Value(s)
    decreases |s|
  {
    if |s| > 1 {
      var front, d := s[..|s| - 1], s[|s| - 1];
      assert s == front + [d];
      if front[|front| - 1] == 95 {
        var rest := front[..|front| - 1];
        DigitsExactly(rest);
        GroupedByUnderscore(rest, d);
        assert s == rest + [95, d];
      } else {
        DigitsExactly(front);
        GroupedByDigit(front, d);
      }
    }
  }

  // ----- White space -----

  ghost predicate Blank(s: seq<uint8>) {
    forall i :: 0 <= i < |s| ==> s[i] in {9, 10, 11, 12, 13, 32}
  }

  /** Neither end is white space. */
  ghost predicate Trimmed(s: seq<uint8>) {
    s == [] || (!Blank([s[0]]) && !Blank([s[|s| - 1]]))
  }

  lemma BlankByte(b: uint8)
    ensures Blank([b]) <==> IsBlank(b)
  {
    assert [b][0] == b;
  }

  lemma {:induction false} LeftStripped(l: seq<uint8>, s: seq<uint8>)
    requires Blank(l) && (s == [] || !Blank([s[0]]))
    ensures StripLeft(l + s) == s
    decreases |l|
  {
    if l == [] {
      assert l + s == s;
      if s != [] { BlankByte(s[0]); }
    } else {
      assert (l + s)[0] == l[0] && (l + s)[1..] == l[1..] + s;
      LeftStripped(l[1..], s);
    }
  }

  lemma {:induction false} RightStripped(s: seq<uint8>, r: seq<uint8>)
    requires Blank(r) && (s == [] || !Blank([s[|s| - 1]]))
    ensures StripRight(s + r) == s
    decreases |r|
  {
    if r == [] {
      assert s + r == s;
      if s != [] { BlankByte(s[|s| - 1]); }
    } else {
      var t := s + r;
      assert t[|t| - 1] == r[|r| - 1] && t[..|t| - 1] == s + r[..|r| - 1];
      RightStripped(s, r[..|r| - 1]);
    }
  }

  lemma {:induction false} LeftSplit(s: seq<uint8>) returns (l: seq<uint8>)
    ensures s == l + StripLeft(s) && Blank(l)
    ensures StripLeft(s) == [] || !Blank([StripLeft(s)[0]])
    decreases |s|
  {
    if s != [] && IsBlank(s[0]) {
      var k := LeftSplit(s[1..]);
      l := [s[0]] + k;
    } else {
      l := [];
      if s != [] { BlankByte(s[0]); }
    }
  }

  lemma {:induction false} RightSplit(s: seq<uint8>) returns (r: seq<uint8>)
    ensures s == StripRight(s) + r && Blank(r)
    ensures StripRight(s) == [] || !Blank([StripRight(s)[|StripRight(s)| - 1]])
    decreases |s|
  {
    if s != [] && IsBlank(s[|s| - 1]) {
      var k := RightSplit(s[..|s| - 1]);
      r := k + [s[|s| - 1]];
    } else {
      r := [];
      if s != [] { BlankByte(s[|s| - 1]); }
    }
  }

  // ----- The number -----

  /** White space, a sign, digits, white space; n is the signed value of the digits. */
  ghost predicate Spells(token: seq<uint8>, l: seq<uint8>, sign: seq<uint8>, ds: seq<uint8>, r: seq<uint8>, n: int) {
    && token == l + (sign + ds) + r && Blank(l) && Blank(r) && Grouped(ds)
    && (((sign == [] || sign == [43]) && n == Value(ds)) || (sign == [45] && n == 0 - Value(ds)))
  }

  lemma SignedExactly(s: seq<uint8>, sign: seq<uint8>, ds: seq<uint8>, n: int)
    requires s == sign + ds && Grouped(ds)
    requires ((sign == [] || sign == [43]) && n == Value(ds)) || (sign == [45] && n == 0 - Value(ds))
    ensures Signed(s) == Some(n)
  {
    DigitsExactly(ds);
    if sign == [] { assert s == ds; } else { assert s[1..] == ds; }
  }

  lemma SignSplit(s: seq<uint8>) returns (sign: seq<uint8>, ds: seq<uint8>)
    requires Signed(s).Some?
    ensures s == sign + ds && Grouped(ds)
    ensures var n := Signed(s).value;
            ((sign == [] || sign == [43]) && n == Value(ds)) || (sign == [45] && n == 0 - Value(ds))
  {
    if s != [] && (s[0] == 43 || s[0] == 45) {
      sign, ds := [s[0]], s[1..];
    } else {
      sign, ds := [], s;
    }
    DigitsExactly(ds);
  }

  lemma Stripped(token: seq<uint8>, l: seq<uint8>, m: seq<uint8>, r: seq<uint8>)
    requires token == l + m + r && Blank(l) && Blank(r) && m != [] && Trimmed(m)
    ensures StripRight(StripLeft(token)) == m
  {
    assert token == l + (m + r) && (m + r)[0] == m[0];
    LeftStripped(l, m + r);
    RightStripped(m, r);
  }

  lemma SpellingRead(token: seq<uint8>, l: seq<uint8>, sign: seq<uint8>, ds: seq<uint8>, r: seq<uint8>, n: int)
    requires Spells(token, l, sign, ds, r, n)
    ensures PyInt(token) == Some(n)
  {
    var m := sign + ds;
    assert m[|m| - 1] == ds[|ds| - 1] && m[0] == (if sign == [] then ds[0] else sign[0]);
    BlankByte(m[0]);
    BlankByte(m[|m| - 1]);
    Stripped(token, l, m, r);
    SignedExactly(m, sign, ds, n);
  }

  lemma SpellingFound(token: seq<uint8>) returns (l: seq<uint8>, sign: seq<uint8>, ds: seq<uint8>, r: seq<uint8>)
    requires PyInt(token).Some?
    ensures Spells(token, l, sign, ds, r, PyInt(token).value)
  {
    l := LeftSplit(token);
    r := RightSplit(StripLeft(token));
    sign, ds := SignSplit(StripRight(StripLeft(token)));
  }

  /** `int` accepts exactly such tokens, with that number. */
  lemma PyIntExactly(token: seq<uint8>, n: int)
    ensures PyInt(token) == Some(n) <==> exists l, sign, ds, r :: Spells(token, l, sign, ds, r, n)
  {
    if PyInt(token) == Some(n) {
      var l, sign, ds, r := SpellingFound(token);
    }
    if l, sign, ds, r :| Spells(token, l, sign, ds, r, n) {
      SpellingRead(token, l, sign, ds, r, n);
    }
  }
}
