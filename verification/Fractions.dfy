/** Exact shares: non-negative fractions of whole numbers. */
module Fractions {
  import opened Sequences

  datatype Fraction = Fraction(num: nat, den: nat)

  type Share = f: Fraction | f.den > 0 witness Fraction(0, 1)

  const ZERO: Share := Fraction(0, 1)
  const ONE: Share := Fraction(1, 1)

  lemma ProductIsPositive(a: nat, b: nat)
    requires a > 0 && b > 0
    ensures a * b > 0
  {
  }

  /** Sum, over the common denominator if there is one. */
  function Plus(a: Share, b: Share): Share {
    if a.den == b.den then Fraction(a.num + b.num, a.den)
    else
      ProductIsPositive(a.den, b.den);
      Fraction(a.num * b.den + b.num * a.den, a.den * b.den)
  }

  function AtMostOne(a: Share): (b: Share)
    ensures b.num <= b.den
  {
    if a.num <= a.den then a else ONE
  }

  /** The whole number nearest to `a / b`, ties to even. */
  function RoundRatio(a: nat, b: nat): nat
    requires b > 0
  {
    var q, rest := a / b, a % b;
    if 2 * rest < b || (2 * rest == b && q % 2 == 0) then q else q + 1
  }

  /** What a share of `n` things is, rounded. */
  function RoundOf(share: Share, n: nat): nat {
    RoundRatio(share.num * n, share.den)
  }

  lemma LessTimes(m: nat, n: nat, b: nat)
    requires m < n
    ensures m * b + b <= n * b
  {
    assert n * b == m * b + b + (n - m - 1) * b;
    NonNegative(n - m - 1, b);
  }

  lemma NonNegative(a: nat, b: nat)
    ensures a * b >= 0
  {
  }

  lemma Division(a: nat, b: nat)
    requires b > 0
    ensures a == a / b * b + a % b && a % b < b
  {
  }

  lemma QuotientIs(a: nat, b: nat, q: nat, rest: nat)
    requires b > 0 && a == q * b + rest && rest < b
    ensures a / b == q && a % b == rest
  {
    Division(a, b);
    if a / b > q {
      LessTimes(q, a / b, b);
    } else if a / b < q {
      LessTimes(a / b, q, b);
    }
  }

  /** Rounding recovers a whole number from its share. */
  lemma RoundRecovers(k: nat, n: nat)
    requires n > 0
    ensures RoundOf(Fraction(k, n), n) == k
  {
    QuotientIs(k * n, n, k, 0);
  }

  lemma QuotientIsBelow(a: nat, b: nat, k: nat)
    requires b > 0 && a < k * b
    ensures a / b < k && (2 * a + b < 2 * (k * b) && a / b == k - 1 ==> 2 * (a % b) < b)
  {
    Division(a, b);
    if a / b >= k {
      if a / b > k { LessTimes(k, a / b, b); }
    } else if a / b == k - 1 {
      assert a / b * b + b == k * b;
    }
  }

  /** Below `k`, rounding does not exceed `k`; below `k` by more than a half, it
      stays below. */
  lemma RoundIsBelow(a: nat, b: nat, k: nat)
    requires b > 0 && a < k * b
    ensures RoundRatio(a, b) <= k
    ensures 2 * a + b < 2 * (k * b) ==> RoundRatio(a, b) < k
  {
    QuotientIsBelow(a, b, k);
  }

  // -------------------------------------------------- shares to four decimals

  const TEN_THOUSAND := 10000

  /** How far apart two numbers are. */
  function Gap(a: nat, b: nat): nat {
    if a <= b then b - a else a - b
  }

  /** `r` ten-thousandths are nearest to the share; two may be equally near. */
  predicate IsNearest(r: nat, share: Share) {
    2 * Gap(r * share.den, TEN_THOUSAND * share.num) <= share.den
  }

  /** How the runtime rounds a share to four decimals, in ten-thousandths.  Which
      of two equally near ones it takes is up to its arithmetic. */
  type Rounding = Share -> nat

  ghost predicate IsRounding(round: Rounding) {
    forall share :: IsNearest(round(share), share)
  }

  lemma DivisionIsNearest(a: nat, b: nat, q: nat, rest: nat)
    requires b > 0 && a == q * b + rest && rest < b
    ensures 2 * rest <= b ==> 2 * Gap(q * b, a) <= b
    ensures b <= 2 * rest ==> 2 * Gap((q + 1) * b, a) <= b
  {
    assert (q + 1) * b == q * b + b;
  }

  /** Rounding takes the nearest whole number, and of two equally near the even one. */
  lemma RoundRatioIsNearest(a: nat, b: nat)
    requires b > 0
    ensures 2 * Gap(RoundRatio(a, b) * b, a) <= b
    ensures 2 * Gap(RoundRatio(a, b) * b, a) == b ==> RoundRatio(a, b) % 2 == 0
  {
    Division(a, b);
    DivisionIsNearest(a, b, a / b, a % b);
    assert (a / b + 1) * b == a / b * b + b;
  }

  /** There is such a rounding. */
  lemma RoundingExists() returns (round: Rounding)
    ensures IsRounding(round)
  {
    round := (share: Share) => RoundOf(share, TEN_THOUSAND);
    forall share: Share
      ensures IsNearest(RoundOf(share, TEN_THOUSAND), share)
    {
      var a := share.num * TEN_THOUSAND;
      Division(a, share.den);
      DivisionIsNearest(a, share.den, a / share.den, a % share.den);
    }
  }

  lemma GapOfMultiples(p: nat, q: nat, b: nat)
    requires b > 0 && 2 * Gap(p * b, q * b) <= b
    ensures p == q
  {
    if p < q {
      LessTimes(p, q, b);
    } else if q < p {
      LessTimes(q, p, b);
    }
  }

  /** The rounded share of `k` in `n` is the share itself exactly when `n` divides
      `10000 * k`. */
  lemma RoundedIsExactIff(r: nat, k: nat, n: nat)
    requires n > 0 && IsNearest(r, Fraction(k, n))
    ensures r * n == TEN_THOUSAND * k <==> TEN_THOUSAND * k % n == 0
  {
    if r * n == TEN_THOUSAND * k {
      QuotientIs(TEN_THOUSAND * k, n, r, 0);
    }
    if TEN_THOUSAND * k % n == 0 {
      Division(TEN_THOUSAND * k, n);
      GapOfMultiples(r, TEN_THOUSAND * k / n, n);
    }
  }

  /** One of three is stored as 0.3333. */
  lemma OneOfThreeIsRounded(round: Rounding)
    requires IsRounding(round)
    ensures round(Fraction(1, 3)) == 3333 && 3333 * 3 != TEN_THOUSAND * 1
  {
    assert IsNearest(round(Fraction(1, 3)), Fraction(1, 3));
  }

  /** The number of things, out of `n`, that a rounded share stands for. */
  function CountOf(r: nat, n: nat): nat {
    RoundRatio(r * n, TEN_THOUSAND)
  }

  /** Less than half of the divisor away from a multiple, rounding finds it. */
  lemma NearMultipleRounds(a: nat, b: nat, k: nat)
    requires b > 0 && 2 * Gap(a, b * k) < b
    ensures RoundRatio(a, b) == k
  {
    assert b * k == k * b;
    if a >= k * b {
      QuotientIs(a, b, k, a - k * b);
    } else {
      assert k == 0 ==> k * b == 0;
      assert (k - 1) * b == k * b - b;
      QuotientIs(a, b, k - 1, a - (k - 1) * b);
    }
  }

  /** Out of at most ten thousand things, the rounded share tells the count. */
  lemma RoundedTellsTheCount(r: nat, k: nat, n: nat)
    requires 0 < n <= TEN_THOUSAND && IsNearest(r, Fraction(k, n))
    ensures CountOf(r, n) == k
  {
    if n == TEN_THOUSAND {
      assert TEN_THOUSAND * k == k * n;
      GapOfMultiples(r, k, n);
    }
    NearMultipleRounds(r * n, TEN_THOUSAND, k);
  }

  /** What the stored share of `k` in `n` is worth: nearest, exact if and only if
      `n` divides `10000 * k`, and giving the count back up to ten thousand. */
  ghost predicate ShareTells(r: nat, k: nat, n: nat) {
    && n > 0 && IsNearest(r, Fraction(k, n))
    && (r * n == TEN_THOUSAND * k <==> TEN_THOUSAND * k % n == 0)
    && (n <= TEN_THOUSAND ==> CountOf(r, n) == k)
  }

  lemma RoundedTells(round: Rounding, k: nat, n: nat)
    requires n > 0 && IsRounding(round)
    ensures ShareTells(round(Fraction(k, n)), k, n)
  {
    RoundedIsExactIff(round(Fraction(k, n)), k, n);
    if n <= TEN_THOUSAND { RoundedTellsTheCount(round(Fraction(k, n)), k, n); }
  }

  lemma RoundedIsAShare(r: nat, k: nat, n: nat)
    requires k <= n && n > 0 && IsNearest(r, Fraction(k, n))
    ensures r <= TEN_THOUSAND
  {
    if r > TEN_THOUSAND {
      LessTimes(TEN_THOUSAND, r, n);
    }
  }

  ghost predicate TellsEveryCount(round: Rounding, n: nat)
    requires n > 0
  {
    forall k: nat :: k <= n ==> CountOf(round(Fraction(k, n)), n) == k
  }

  function UpTo(m: nat): (s: set<nat>)
    ensures forall x: nat :: x in s <==> x <= m
    ensures |s| == m + 1
  {
    if m == 0 then {0} else UpTo(m - 1) + {m}
  }

  /** Rounded shares tell every count out of `n` exactly when `n` is at most ten
      thousand: there are not enough of them for more. */
  lemma {:induction false} TellsEveryCountIff(round: Rounding, n: nat)
    requires n > 0 && IsRounding(round)
    ensures TellsEveryCount(round, n) <==> n <= TEN_THOUSAND
  {
    if n <= TEN_THOUSAND {
      forall k: nat | k <= n
        ensures CountOf(round(Fraction(k, n)), n) == k
      {
        RoundedTellsTheCount(round(Fraction(k, n)), k, n);
      }
    }
    if TellsEveryCount(round, n) {
      var shares := seq(n + 1, k requires 0 <= k < n + 1 => round(Fraction(k, n)));
      forall k | 0 <= k < |shares|
        ensures shares[k] in UpTo(TEN_THOUSAND) && CountOf(shares[k], n) == k
      {
        RoundedIsAShare(shares[k], k, n);
      }
      Pigeonhole(shares, UpTo(TEN_THOUSAND));
    }
  }
}
