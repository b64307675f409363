module Ulp {
  // Distances between doubles in units in the last place (m_ulpd), on the 64-bit encodings of binary64
  // (section 3.4 of IEEE 754-2019).

  const TWO52: nat := 0x10_0000_0000_0000
  const TWO63: nat := 0x8000_0000_0000_0000
  const TWO64: nat := 0x1_0000_0000_0000_0000

  /** The encoding without its sign bit. */
  function Mag(b: nat): (m: nat)
    requires b < TWO64
    ensures m < TWO63
  {
    if b < TWO63 then b else b - TWO63
  }

  function ExpField(m: nat): nat { m / TWO52 }

  function Fraction(m: nat): (f: nat)
    ensures f < TWO52 && m == ExpField(m) * TWO52 + f
  {
    m % TWO52
  }

  predicate IsNaN(b: nat)
    requires b < TWO64
  {
    ExpField(Mag(b)) == 2047 && Fraction(Mag(b)) != 0
  }

  function Pow2(n: nat): (r: nat)
    ensures r > 0
  {
    if n == 0 then 1 else 2 * Pow2(n - 1)
  }

  /** The absolute value in units of the smallest subnormal, 2^-1074; infinity counts as what would follow
      the largest finite number. */
  function Units(m: nat): nat {
    if ExpField(m) == 0 then Fraction(m) else (TWO52 + Fraction(m)) * Pow2(ExpField(m) - 1)
  }

  /** The number an encoding stands for, in units of 2^-1074. */
  function Value(b: nat): int
    requires b < TWO64
  {
    if b < TWO63 then Units(Mag(b)) else 0 - Units(Mag(b))
  }

  /** -0 becomes 0. */
  function NoNegativeZero(b: nat): nat { if b == TWO63 then 0 else b }

  /** The encoding read as a signed 64-bit integer and remapped from sign-magnitude: LLONG_MIN - xx if negative. */
  function Remap(b: nat): int
    requires b < TWO64
  {
    var xx: int := if b < TWO63 then b else b - TWO64;
    if xx < 0 then 0 - TWO63 - xx else xx
  }

  /** A signed difference as the unsigned long it is returned as. */
  function Wrap(d: int): nat { d % TWO64 }

  /** m_ulpd. */
  function Ulpd(x: nat, y: nat): nat
    requires x < TWO64 && y < TWO64
  {
    if IsNaN(NoNegativeZero(x)) || IsNaN(NoNegativeZero(y)) then TWO64 - 2
    else
      var xx, yy := Remap(NoNegativeZero(x)), Remap(NoNegativeZero(y));
      if xx >= yy then Wrap(SignedDifference(xx, yy)) else Wrap(SignedDifference(yy, xx))
  }

  /** Subtraction of 64-bit signed integers, which may wrap around. */
  function SignedDifference(a: int, b: int): int {
    var d := (a - b) % TWO64;
    if d < TWO63 then d else d - TWO64
  }

  /** An encoding's place among all non-NaN doubles: 0 for the zeros, positive or negative with the sign. */
  function Rank(b: nat): int
    requires b < TWO64
  {
    if b < TWO63 then Mag(b) else 0 - Mag(b)
  }

  lemma {:induction false} Pow2Monotone(a: nat, b: nat)
    requires a <= b
    ensures Pow2(a) <= Pow2(b)
  {
    if a < b { Pow2Monotone(a, b - 1); }
  }

  lemma Scale(a: nat, b: nat, k: nat)
    requires a < b && k > 0
    ensures a * k < b * k
  {}

  /** Larger magnitudes stand for larger numbers: across exponents, and within one. */
  lemma UnitsMonotone(m: nat, n: nat)
    requires m < n
    ensures Units(m) < Units(n)
  {
    var e, f, g, h := ExpField(m), Fraction(m), ExpField(n), Fraction(n);
    assert e <= g && (e == g ==> f < h);
    if e == g {
      if e > 0 { Scale(TWO52 + f, TWO52 + h, Pow2(e - 1)); }
    } else {
      UnitsBelow(m);
      UnitsAbove(e, g, h);
    }
  }

  lemma UnitsAbove(e: nat, g: nat, h: nat)
    requires e < g
    ensures TWO52 * Pow2(e) <= (TWO52 + h) * Pow2(g - 1)
  {
    Pow2Monotone(e, g - 1);
    NotLess(Pow2(e), Pow2(g - 1), TWO52, h);
  }

  lemma NotLess(a: nat, b: nat, k: nat, h: nat)
    requires a <= b
    ensures k * a <= (k + h) * b
  {
    assert (k + h) * b == k * b + h * b;
  }

  lemma UnitsBelow(m: nat)
    ensures Units(m) < TWO52 * Pow2(ExpField(m))
  {
    var e, f := ExpField(m), Fraction(m);
    if e > 0 {
      Scale(TWO52 + f, 2 * TWO52, Pow2(e - 1));
      assert Pow2(e) == 2 * Pow2(e - 1);
    }
  }

  /** Ranks order the non-NaN doubles as their values do; exactly the two zeros share a rank. */
  lemma RankEmbeds(a: nat, b: nat)
    requires a < TWO64 && b < TWO64
    ensures Rank(a) < Rank(b) <==> Value(a) < Value(b)
    ensures Rank(a) == Rank(b) <==> Value(a) == Value(b)
    ensures Rank(a) == Rank(b) <==> a == b || (Mag(a) == 0 && Mag(b) == 0)
  {
    var m, n := Mag(a), Mag(b);
    if m < n { UnitsMonotone(m, n); }
    if n < m { UnitsMonotone(n, m); }
    if m > 0 { UnitsMonotone(0, m); }
    if n > 0 { UnitsMonotone(0, n); }
  }

  /** Every place from minus infinity's to plus infinity's is some double's: ranks count doubles without gaps. */
  lemma RankOnto(r: int) returns (b: nat)
    requires -0x7FF0_0000_0000_0000 <= r <= 0x7FF0_0000_0000_0000
    ensures b < TWO64 && Rank(b) == r && !IsNaN(b)
  {
    b := if r >= 0 then r else TWO63 - r;
    var m := Mag(b);
    assert m == ExpField(m) * TWO52 + Fraction(m);
  }

  function AbsDiff(a: int, b: int): nat { if a >= b then a - b else b - a }

  /** The remapping computes the rank, and the wrapped difference is the true one: it always fits. */
  lemma UlpdIsDistance(x: nat, y: nat)
    requires x < TWO64 && y < TWO64 && !IsNaN(x) && !IsNaN(y)
    ensures Ulpd(x, y) == AbsDiff(Rank(x), Rank(y)) <= 0xFFE0_0000_0000_0000 < TWO64 - 2
  {
    MagBound(x);
    MagBound(y);
    assert Remap(NoNegativeZero(x)) == Rank(x) && Remap(NoNegativeZero(y)) == Rank(y);
    WrapsBack(Rank(x), Rank(y));
    WrapsBack(Rank(y), Rank(x));
  }

  /** Non-NaN magnitudes go up to infinity's. */
  lemma MagBound(b: nat)
    requires b < TWO64 && !IsNaN(b)
    ensures Mag(b) <= 0x7FF0_0000_0000_0000
  {
    var m := Mag(b);
    assert m == ExpField(m) * TWO52 + Fraction(m);
  }

  lemma WrapsBack(a: int, b: int)
    ensures 0 <= a - b < TWO64 ==> Wrap(SignedDifference(a, b)) == a - b
  {}

  /** On non-NaN doubles the distance is a metric that identifies only the zeros, additive along the order. */
  lemma UlpdMetric(x: nat, y: nat, z: nat)
    requires x < TWO64 && y < TWO64 && z < TWO64 && !IsNaN(x) && !IsNaN(y) && !IsNaN(z)
    ensures Ulpd(x, y) == Ulpd(y, x)
    ensures Ulpd(x, y) == 0 <==> Value(x) == Value(y)
    ensures Ulpd(x, z) <= Ulpd(x, y) + Ulpd(y, z)
    ensures Value(x) <= Value(y) <= Value(z) ==> Ulpd(x, z) == Ulpd(x, y) + Ulpd(y, z)
  {
    UlpdIsDistance(x, y);
    UlpdIsDistance(y, x);
    UlpdIsDistance(y, z);
    UlpdIsDistance(x, z);
    RankEmbeds(x, y);
    RankEmbeds(y, z);
  }

  /** NaN operands give an error code no distance reaches. */
  lemma UlpdNaN(x: nat, y: nat)
    requires x < TWO64 && y < TWO64
    ensures Ulpd(x, y) == TWO64 - 2 <==> IsNaN(x) || IsNaN(y)
  {
    if !IsNaN(x) && !IsNaN(y) { UlpdIsDistance(x, y); }
  }
}
