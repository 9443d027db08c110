/** Fixed-point arithmetic for the performance figures. Every score is held in
    hundredths (4.25 is 425), so BigDecimal's divide(divisor, 2, HALF_UP) on a
    non-negative sum becomes half-up rounding of an integer quotient. */
module Decimal {

  /** Bounds of a validated score: 1.00 to 5.00. */
  const MinScore: nat := 100
  const MaxScore: nat := 500

  predicate InScoreRange(s: nat) {
    MinScore <= s <= MaxScore
  }

  /** r is num/den rounded to the nearest integer, ties away from zero:
      r - 1/2 <= num/den < r + 1/2. */
  ghost predicate IsHalfUpRounding(r: int, num: int, den: int)
    requires den > 0
  {
    2 * den * r - den <= 2 * num < 2 * den * r + den
  }

  /** num/den rounded half-up (num and den non-negative, so half-up is rounding towards +infinity on ties). */
  function RoundHalfUp(num: nat, den: nat): (r: nat)
    requires den > 0
    ensures IsHalfUpRounding(r, num, den)
  {
    var q := (2 * num + den) / (2 * den);
    var m := (2 * num + den) % (2 * den);
    assert 2 * num + den == 2 * den * q + m && 0 <= m < 2 * den;
    q
  }

  lemma MulStrictlyMonotone(a: int, b: int, c: int)
    requires a > 0 && b < c
    ensures a * b < a * c
  {
    assert a * c - a * b == a * (c - b);
    assert a * (c - b) >= a * 1 by {
      assert c - b >= 1;
    }
  }

  /** At most one integer is the half-up rounding of a quotient. */
  lemma HalfUpRoundingUnique(r1: int, r2: int, num: int, den: int)
    requires den > 0
    requires IsHalfUpRounding(r1, num, den) && IsHalfUpRounding(r2, num, den)
    ensures r1 == r2
  {
    if r1 < r2 {
      // 2den*r2 - den <= 2num < 2den*r1 + den, so 2den*(r2 - r1) < 2den
      MulStrictlyMonotone(2 * den, r1, r2 - 1);
    } else if r2 < r1 {
      MulStrictlyMonotone(2 * den, r2, r1 - 1);
    }
  }

  /** A quotient that is already exact is not changed by rounding. */
  lemma RoundHalfUpExact(x: nat, den: nat)
    requires den > 0
    ensures RoundHalfUp(x * den, den) == x
  {
    assert IsHalfUpRounding(x, x * den, den);
    HalfUpRoundingUnique(RoundHalfUp(x * den, den), x, x * den, den);
  }

  /** Sum of a sequence, adding the elements from first to last. */
  function Sum(xs: seq<nat>): nat {
    if xs == [] then 0 else Sum(xs[..|xs| - 1]) + xs[|xs| - 1]
  }

  /** Extending a prefix by one element adds that element to the sum. */
  lemma SumPrefixStep(xs: seq<nat>, i: nat)
    requires i < |xs|
    ensures Sum(xs[..i + 1]) == Sum(xs[..i]) + xs[i]
  {
    assert xs[..i + 1][..i] == xs[..i];
  }

  /** n scores in 1.00..5.00 add up to between n * 1.00 and n * 5.00. */
  lemma {:induction false} SumWithinRange(xs: seq<nat>)
    requires forall i :: 0 <= i < |xs| ==> InScoreRange(xs[i])
    ensures MinScore * |xs| <= Sum(xs) <= MaxScore * |xs|
  {
    if xs != [] {
      SumWithinRange(xs[..|xs| - 1]);
    }
  }

  /** The rounded mean of values in 1.00..5.00 is itself in 1.00..5.00. */
  lemma MeanWithinRange(total: nat, n: nat)
    requires n > 0 && MinScore * n <= total <= MaxScore * n
    ensures InScoreRange(RoundHalfUp(total, n))
  {
    var r := RoundHalfUp(total, n);
    assert 2 * n * r - n <= 2 * total < 2 * n * r + n;
    if r > MaxScore {
      // 2n*r >= 1002n, so 2n*r - n > 1000n >= 2*total
      MulMonotone(2 * n, MaxScore + 1, r);
      assert false;
    }
    if r < MinScore {
      // 2n*r <= 198n, so 2n*r + n < 200n <= 2*total
      MulMonotone(2 * n, r, MinScore - 1);
      assert false;
    }
  }

  lemma MulMonotone(a: int, b: int, c: int)
    requires a >= 0 && b <= c
    ensures a * b <= a * c
  {
    assert a * c - a * b == a * (c - b);
  }

  /** Mean of a non-empty sequence of scores, rounded half-up to hundredths. */
  function Mean(xs: seq<nat>): (r: nat)
    requires |xs| > 0
    ensures IsHalfUpRounding(r, Sum(xs), |xs|)
    ensures (forall i :: 0 <= i < |xs| ==> InScoreRange(xs[i])) ==> InScoreRange(r)
  {
    RangeGivesMeanInRange(xs);
    RoundHalfUp(Sum(xs), |xs|)
  }

  lemma RangeGivesMeanInRange(xs: seq<nat>)
    requires |xs| > 0
    ensures (forall i :: 0 <= i < |xs| ==> InScoreRange(xs[i])) ==> InScoreRange(RoundHalfUp(Sum(xs), |xs|))
  {
    if forall i :: 0 <= i < |xs| ==> InScoreRange(xs[i]) {
      SumWithinRange(xs);
      MeanWithinRange(Sum(xs), |xs|);
    }
  }

  /** All scores equal: the mean is that score, with nothing lost to rounding. */
  lemma {:induction false} MeanOfEqualScores(xs: seq<nat>, x: nat)
    requires |xs| > 0 && forall i :: 0 <= i < |xs| ==> xs[i] == x
    ensures Mean(xs) == x
  {
    SumOfEqual(xs, x);
    RoundHalfUpExact(x, |xs|);
  }

  lemma {:induction false} SumOfEqual(xs: seq<nat>, x: nat)
    requires forall i :: 0 <= i < |xs| ==> xs[i] == x
    ensures Sum(xs) == x * |xs|
  {
    if xs != [] {
      SumOfEqual(xs[..|xs| - 1], x);
      assert x * (|xs| - 1) + x == x * |xs|;
    }
  }
}
