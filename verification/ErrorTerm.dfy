/** The error term of the Bresenham loop: its closed form, its largest value, and when `int32_t` is enough. */
module ErrorTerm {
  import opened Machine
  import opened Images

  // ----- Closed form -----

  /** Steps taken along the minor axis after `s` steps along the major one: s * minor / major,
      rounded to the nearest integer, halves up. */
  function Minor(s: int, minor: int, major: int): int
    requires major > 0
  {
    (2 * s * minor + major) / (2 * major)
  }

  /** The value of `err` before step `s`. */
  function Err(s: int, minor: int, major: int): int
    requires major > 0
  {
    s * minor - Minor(s, minor, major) * major
  }

  /** The error stays within half a major extent. */
  lemma ErrCentred(s: int, minor: int, major: int)
    requires major > 0
    ensures -major <= 2 * Err(s, minor, major) < major
  {
    var n, d := 2 * s * minor + major, 2 * major;
    var q := n / d;
    assert n == d * q + n % d;
    assert d * q == 2 * (q * major);
    assert 2 * (s * minor) == 2 * s * minor;
  }

  /** Only one count of minor steps achieves that. */
  lemma MinorUnique(s: int, minor: int, major: int, q: int)
    requires major > 0 && -major <= 2 * (s * minor - q * major) < major
    ensures q == Minor(s, minor, major)
  {
    ErrCentred(s, minor, major);
    SmallMultiple(q, Minor(s, minor, major), major, s * minor);
  }

  lemma SmallMultiple(q: int, r: int, m: int, n: int)
    requires -m <= 2 * (n - q * m) < m && -m <= 2 * (n - r * m) < m
    ensures q == r
  {
    if q < r { RowsApart(m, q, r); }
    if r < q { RowsApart(m, r, q); }
  }

  lemma MinorStart(minor: int, major: int)
    requires major > 0
    ensures Minor(0, minor, major) == 0 && Minor(major, minor, major) == minor
  {
    MinorUnique(0, minor, major, 0);
    MinorUnique(major, minor, major, minor);
  }

  /** One turn of the loop: add the minor extent, and step when half the major one is reached. */
  lemma MinorStep(s: int, minor: int, major: int)
    requires 0 <= minor <= major && major > 0
    ensures var e, q := Err(s, minor, major) + minor, Minor(s, minor, major);
            if 2 * e >= major
            then Minor(s + 1, minor, major) == q + 1 && Err(s + 1, minor, major) == e - major
            else Minor(s + 1, minor, major) == q && Err(s + 1, minor, major) == e
  {
    var e, q := Err(s, minor, major) + minor, Minor(s, minor, major);
    ErrCentred(s, minor, major);
    assert (s + 1) * minor == s * minor + minor;
    assert (q + 1) * major == q * major + major;
    MinorUnique(s + 1, minor, major, if 2 * e >= major then q + 1 else q);
  }

  lemma {:induction false} MinorRange(s: nat, minor: int, major: int)
    requires 0 <= minor <= major && 0 < major && s <= major
    ensures 0 <= Minor(s, minor, major) <= minor
  {
    MinorGrows(0, s, minor, major);
    MinorGrows(s, major, minor, major);
    MinorStart(minor, major);
  }

  lemma {:induction false} MinorGrows(s: nat, r: nat, minor: int, major: int)
    requires 0 <= minor <= major && 0 < major && s <= r
    ensures Minor(s, minor, major) <= Minor(r, minor, major)
    decreases r - s
  {
    if s < r {
      MinorStep(s, minor, major);
      MinorGrows(s + 1, r, minor, major);
    }
  }

  // ----- Greatest common divisors -----

  function Gcd(a: nat, b: nat): (g: nat)
    requires b > 0
    ensures g > 0
  {
    if a == 0 then b else Gcd(b % a, a)
  }

  lemma {:induction false} GcdDivides(a: nat, b: nat) returns (p: int, q: int)
    requires b > 0
    ensures a == p * Gcd(a, b) && b == q * Gcd(a, b)
    decreases a
  {
    if a == 0 {
      p, q := 0, 1;
    } else {
      var p', q' := GcdDivides(b % a, a);
      p, q := q', (b / a) * q' + p';
      var g, k := Gcd(a, b), b / a;
      assert b == k * a + b % a;
      SumOfMultiples(k, q', p', g, a, b % a);
    }
  }

  lemma SumOfMultiples(k: int, q: int, p: int, g: int, a: int, r: int)
    requires a == q * g && r == p * g
    ensures k * a + r == (k * q + p) * g
  {
    assert k * (q * g) == (k * q) * g;
  }

  lemma {:induction false} Bezout(a: nat, b: nat) returns (x: int, y: int)
    requires b > 0
    ensures x * a + y * b == Gcd(a, b)
    decreases a
  {
    if a == 0 {
      x, y := 0, 1;
    } else {
      var x', y' := Bezout(b % a, a);
      var k := b / a;
      x, y := y' - x' * k, x';
      assert b % a == b - k * a;
      BezoutStep(x', y', k, a, b);
    }
  }

  lemma BezoutStep(x: int, y: int, k: int, a: int, b: int)
    ensures (y - x * k) * a + x * b == x * (b - k * a) + y * a
  {
    assert x * (b - k * a) == x * b - (x * k) * a;
    assert (y - x * k) * a == y * a - (x * k) * a;
  }

  // ----- The largest error -----

  /** The largest multiple of the greatest common divisor below half the major extent. */
  function Peak(minor: nat, major: nat): int
    requires major > 0
  {
    var g := Gcd(minor, major);
    g * (((major - 1) / 2) / g)
  }

  /** Rounding n down to a multiple of g. */
  lemma LargestMultiple(g: int, n: int, k: int)
    requires g > 0
    ensures n - g < g * (n / g) <= n
    ensures g * k <= n ==> g * k <= g * (n / g)
  {
    var q := n / g;
    assert n == g * q + n % g;
    if q < k { RowsApart(g, q, k); }
    if k < q { RowsApart(g, k, q); }
  }

  /** No error exceeds the peak, because every error is a multiple of the greatest common divisor. */
  lemma ErrAtMostPeak(s: int, minor: nat, major: nat)
    requires major > 0
    ensures Err(s, minor, major) <= Peak(minor, major)
  {
    ErrCentred(s, minor, major);
    var g, m := Gcd(minor, major), Minor(s, minor, major);
    var p, q := GcdDivides(minor, major);
    var k := CommonFactor(s, m, p, q, g, minor, major);
    LargestMultiple(g, (major - 1) / 2, k);
  }

  lemma CommonFactor(s: int, m: int, p: int, q: int, g: int, a: int, b: int) returns (k: int)
    requires a == p * g && b == q * g
    ensures s * a - m * b == g * k
  {
    k := s * p - m * q;
    assert s * (p * g) == (s * p) * g;
    assert m * (q * g) == (m * q) * g;
    assert g * (s * p - m * q) == (s * p) * g - (m * q) * g;
  }

  /** Every multiple of the greatest common divisor is a difference of multiples of the two numbers. */
  lemma MultipleReached(a: nat, b: nat, k: int) returns (j: int, q: int)
    requires b > 0
    ensures 0 <= j < b && j * a - q * b == Gcd(a, b) * k
  {
    var x, y := Bezout(a, b);
    j := (k * x) % b;
    var z := (k * x) / b;
    q := -(z * a + k * y);
    MultipleIdentity(a, b, Gcd(a, b), k, x, y, j, z);
  }

  lemma MultipleIdentity(a: int, b: int, g: int, k: int, x: int, y: int, j: int, z: int)
    requires x * a + y * b == g && k * x == z * b + j
    ensures j * a + (z * a + k * y) * b == g * k
  {
    assert k * (x * a + y * b) == (k * x) * a + (k * y) * b;
    assert (z * b + j) * a == (z * a) * b + j * a;
    assert (z * a + k * y) * b == (z * a) * b + (k * y) * b;
  }

  /** Some step of the walk has the peak as its error. */
  lemma PeakReached(minor: nat, major: nat) returns (s: int)
    requires major > 0
    ensures 0 <= s < major && Err(s, minor, major) == Peak(minor, major)
  {
    var g := Gcd(minor, major);
    var k := ((major - 1) / 2) / g;
    LargestMultiple(g, (major - 1) / 2, 0);
    var j, q := MultipleReached(minor, major, k);
    MinorUnique(j, minor, major, q);
    s := j;
  }

  // ----- When int32_t is enough -----

  /** The doubled error that the loop compares fits `int32_t`. */
  predicate StepFits(s: int, minor: int, major: int)
    requires major > 0
  {
    INT32_MIN <= 2 * (Err(s, minor, major) + minor) <= INT32_MAX
  }

  ghost predicate AllStepsFit(minor: int, major: int)
    requires major > 0
  {
    forall s :: 0 <= s < major ==> StepFits(s, minor, major)
  }

  /** The condition on one line's extents. */
  predicate LineFits(minor: nat, major: nat)
    requires major > 0
  {
    2 * (Peak(minor, major) + minor) <= INT32_MAX
  }

  /** Every step of a line fits if and only if the condition on its extents holds. */
  lemma LineFitsExactly(minor: nat, major: nat)
    requires 0 <= minor <= major && 0 < major
    ensures AllStepsFit(minor, major) <==> LineFits(minor, major)
  {
    if LineFits(minor, major) {
      forall s | 0 <= s < major ensures StepFits(s, minor, major) {
        ErrAtMostPeak(s, minor, major);
        ErrCentred(s, minor, major);
        if minor == 0 { MinorUnique(s, 0, major, 0); } else { FittingMajor(minor, major); }
      }
    } else {
      var s := PeakReached(minor, major);
      assert !StepFits(s, minor, major);
    }
  }

  /** A line that is not level and fits has a major extent that fits. */
  lemma FittingMajor(minor: nat, major: nat)
    requires 0 < minor <= major && LineFits(minor, major)
    ensures major <= INT32_MAX
  {
    var g := Gcd(minor, major);
    var p, q := GcdDivides(minor, major);
    assert g <= minor by {
      if p <= 0 { NotPositive(p, g); }
      if p > 1 { RowsApart(g, 1, p); }
    }
    LargestMultiple(g, (major - 1) / 2, 0);
  }

  lemma NotPositive(p: int, g: int)
    requires p <= 0 < g
    ensures p * g <= 0
  {
    if p < 0 { RowsApart(g, p, 0); }
  }

  /** A condition without divisors that is enough. */
  lemma SmallLinesFit(minor: nat, major: nat)
    requires 0 <= minor <= major && 0 < major && major + 2 * minor <= INT32_MAX + 1
    ensures LineFits(minor, major)
  {
    LargestMultiple(Gcd(minor, major), (major - 1) / 2, 0);
  }

  /** A level line of any extent fits. */
  lemma LevelLineFits(major: nat)
    requires major > 0
    ensures LineFits(0, major)
  {
    LargestMultiple(major, (major - 1) / 2, 1);
  }

  /** A line over three rows can already fail: two rows down across 2147483647 columns. */
  lemma ThinLineOverflows()
    ensures !LineFits(2, 2_147_483_646)
    ensures !StepFits(536_870_911, 2, 2_147_483_646)
  {
    MinorUnique(536_870_911, 2, 2_147_483_646, 0);
    assert Gcd(2, 2_147_483_646) == Gcd(0, 2) == 2;
  }

  ghost predicate AllLinesFit(extent: int) {
    forall s, minor, major :: 0 <= minor <= major <= extent && 0 <= s < major ==> StepFits(s, minor, major)
  }

  /** Every line within an extent fits if and only if the extent is at most 715 827 883. */
  lemma ErrFitsInt32(extent: int)
    ensures AllLinesFit(extent) <==> extent <= 715_827_883
  {
    if extent <= 715_827_883 {
      forall s, minor, major | 0 <= minor <= major <= extent && 0 <= s < major
        ensures StepFits(s, minor, major)
      {
        ErrCentred(s, minor, major);
        if minor == major { MinorUnique(s, minor, major, s); }
      }
    } else {
      // The line of extents (715827884, 715827883), one step past its middle.
      var major, minor, s := 715_827_884, 715_827_883, 357_913_943;
      MinorUnique(s, minor, major, s - 1);
      assert !StepFits(s, minor, major);
    }
  }
}
