/** round_with_prec of libzsr/common.c, over exact reals. */
module Rounding {

  const INT64_MAX := 0x7fff_ffff_ffff_ffff
  const INT64_MIN := -0x8000_0000_0000_0000

  function Pow10(p: nat): (r: int)
    ensures r >= 1
  {
    if p == 0 then 1 else 10 * Pow10(p - 1)
  }

  /** The conversion of a double to an integer type drops the fraction. */
  function Trunc(x: real): int {
    if x >= 0.0 then x.Floor else -((-x).Floor)
  }

  /** `d` in units of the last kept place. */
  function Scaled(d: real, p: nat): real {
    d * Pow10(p) as real
  }

  /** The int64_t that the code computes before scaling back. */
  function Units(d: real, p: nat): int {
    if d == 0.0 then 0
    else if d > 0.0 then Trunc(Scaled(d, p) + 0.5)
    else Trunc(Scaled(d, p) - 0.5)
  }

  /** Outside this range the conversion to int64_t has no defined result in C. */
  predicate Fits(d: real, p: nat) {
    INT64_MIN <= Units(d, p) <= INT64_MAX
  }

  function RoundWithPrec(d: real, p: nat): real
    requires Fits(d, p)
  {
    if d == 0.0 then d else Units(d, p) as real / Pow10(p) as real
  }

  function Abs(x: real): real {
    if x < 0.0 then -x else x
  }

  /** `n` is the rounding of `x`: at most a half away, and on a tie away from zero. */
  predicate IsRounding(n: int, x: real) {
    && Abs(n as real - x) <= 0.5
    && (Abs(n as real - x) == 0.5 ==> Abs(n as real) > Abs(x))
  }

  lemma UnitsAreNearest(d: real, p: nat)
    ensures IsRounding(Units(d, p), Scaled(d, p))
  {
    var x := Scaled(d, p);
    assert d > 0.0 ==> x > 0.0;
    assert d < 0.0 ==> x < 0.0;
    assert d == 0.0 ==> x == 0.0;
  }

  /** There is no other rounding. */
  lemma RoundingIsUnique(n: int, k: int, x: real)
    requires IsRounding(n, x) && IsRounding(k, x)
    ensures n == k
  {
    assert n < k ==> n as real + 1.0 <= k as real;
    assert k < n ==> k as real + 1.0 <= n as real;
  }

  lemma UnitsOfZero(p: nat)
    ensures Units(0.0, p) == 0
  {
  }

  lemma ScaledBack(d: real, p: nat)
    requires Fits(d, p)
    ensures RoundWithPrec(d, p) * Pow10(p) as real == Units(d, p) as real
  {
    hide Pow10, Units;
    UnitsOfZero(p);
    Cancels(Units(d, p) as real, Pow10(p) as real);
  }

  lemma Cancels(x: real, u: real)
    requires u > 0.0
    ensures x / u * u == x
  {
  }

  /** The result is the multiple of 10^-p nearest to `d`, ties away from zero, and no other multiple is. */
  lemma RoundsToNearest(d: real, p: nat, n: int)
    requires Fits(d, p)
    ensures var u := Pow10(p) as real;
      && Abs(RoundWithPrec(d, p) - d) * u <= 0.5
      && RoundWithPrec(d, p) * u == Units(d, p) as real
      && (IsRounding(n, Scaled(d, p)) <==> n as real == RoundWithPrec(d, p) * u)
  {
    hide Pow10, Units, RoundWithPrec, Abs, IsRounding;
    UnitsAreNearest(d, p);
    ScaledBack(d, p);
    DistanceScales(RoundWithPrec(d, p), Units(d, p) as real, d, Scaled(d, p), Pow10(p) as real);
    hide Scaled;
    NearestMultiple(Units(d, p), Scaled(d, p), n);
  }

  lemma NearestMultiple(k: int, x: real, n: int)
    requires IsRounding(k, x)
    ensures Abs(k as real - x) <= 0.5 && (IsRounding(n, x) <==> n as real == k as real)
  {
    if IsRounding(n, x) {
      RoundingIsUnique(n, k, x);
    }
  }

  lemma DistanceScales(r: real, y: real, d: real, x: real, u: real)
    requires u > 0.0 && y == r * u && x == d * u
    ensures Abs(r - d) * u == Abs(y - x)
  {
    assert (r - d) * u == y - x;
    assert r - d < 0.0 ==> (r - d) * u < 0.0;
  }

  /** Rounding is odd. */
  lemma RoundingIsOdd(d: real, p: nat)
    requires Fits(d, p) && Fits(-d, p)
    ensures RoundWithPrec(-d, p) == -RoundWithPrec(d, p)
  {
    hide Pow10, Units;
    UnitsOfZero(p);
    UnitsAreNearest(d, p);
    UnitsAreNearest(-d, p);
    ScalingIsOdd(d, p);
    MirroredRounding(Units(d, p), Scaled(d, p));
    RoundingIsUnique(Units(-d, p), -Units(d, p), Scaled(-d, p));
    assert (-Units(d, p)) as real / Pow10(p) as real == -(Units(d, p) as real / Pow10(p) as real);
  }

  lemma ScalingIsOdd(d: real, p: nat)
    ensures Scaled(-d, p) == -Scaled(d, p)
  {
  }

  lemma MirroredRounding(n: int, x: real)
    requires IsRounding(n, x)
    ensures IsRounding(-n, -x)
  {
    assert (-n) as real == -(n as real);
  }

  lemma ScalingIsMonotone(d: real, e: real, p: nat)
    requires d <= e
    ensures Scaled(d, p) <= Scaled(e, p)
  {
    hide Pow10;
    ScalingKeepsOrder(d, e, Pow10(p) as real);
  }

  /** Rounding is monotone, also across zero. */
  lemma RoundingIsMonotone(d: real, e: real, p: nat)
    requires Fits(d, p) && Fits(e, p) && d <= e
    ensures RoundWithPrec(d, p) <= RoundWithPrec(e, p)
  {
    hide Pow10, Units, Scaled, IsRounding;
    UnitsOfZero(p);
    UnitsAreNearest(d, p);
    UnitsAreNearest(e, p);
    ScalingIsMonotone(d, e, p);
    RoundingsAreOrdered(Units(d, p), Scaled(d, p), Units(e, p), Scaled(e, p));
    ScalingBackKeepsOrder(Units(d, p), Units(e, p), Pow10(p) as real);
  }

  lemma ScalingKeepsOrder(d: real, e: real, u: real)
    requires d <= e && u > 0.0
    ensures d * u <= e * u
  {
    assert (e - d) * u >= 0.0;
  }

  lemma ScalingBackKeepsOrder(n: int, k: int, u: real)
    requires n <= k && u > 0.0
    ensures n as real / u <= k as real / u
  {
    assert (k - n) as real / u >= 0.0;
    assert k as real / u == n as real / u + (k - n) as real / u;
  }

  lemma RoundingsAreOrdered(n: int, x: real, k: int, y: real)
    requires IsRounding(n, x) && IsRounding(k, y) && x <= y
    ensures n <= k
  {
    if n > k {
      assert n as real - k as real >= 1.0;
      assert x == y;
      RoundingIsUnique(n, k, x);
    }
  }

  /** Rounding twice is rounding once. */
  lemma RoundingIsIdempotent(d: real, p: nat)
    requires Fits(d, p)
    ensures Fits(RoundWithPrec(d, p), p)
    ensures RoundWithPrec(RoundWithPrec(d, p), p) == RoundWithPrec(d, p)
  {
    hide Pow10, Units, RoundWithPrec;
    var r := RoundWithPrec(d, p);
    ScaledBack(d, p);
    assert Scaled(r, p) == Units(d, p) as real;
    hide Scaled;
    UnitsAreNearest(r, p);
    assert IsRounding(Units(d, p), Scaled(r, p));
    RoundingIsUnique(Units(r, p), Units(d, p), Scaled(r, p));
    ScaledBack(r, p);
    SameMultiple(RoundWithPrec(r, p), r, Pow10(p) as real);
  }

  lemma SameMultiple(x: real, y: real, u: real)
    requires u > 0.0 && x * u == y * u
    ensures x == y
  {
    assert (x - y) * u == 0.0;
  }

  /** The examples at include/zsr/common.h:21-23 and test/common.c:43-52, and the ends of the range. */
  lemma Examples()
    ensures Fits(4.9999, 0) && RoundWithPrec(4.9999, 0) == 5.0
    ensures Fits(4.9778, 2) && RoundWithPrec(4.9778, 2) == 4.98
    ensures Fits(1.2345, 2) && RoundWithPrec(1.2345, 2) == 1.23
    ensures Fits(-1.2678, 2) && RoundWithPrec(-1.2678, 2) == -1.27
    ensures Fits(9223372036854775807.0, 0) && !Fits(9223372036854775808.0, 0)
    ensures Fits(-9223372036854775808.0, 0) && !Fits(-9223372036854775809.0, 0)
  {
    assert Pow10(0) == 1 && Pow10(1) == 10 && Pow10(2) == 100;
  }
}
