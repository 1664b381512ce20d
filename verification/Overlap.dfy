/** Token overlap, as `_jaccard` measures it (exporters/run_data.py:941-945). */
module Overlap {
  import opened Sequences

  /** Shared tokens over all tokens; 0 if either side has none. */
  function Jaccard(a: set<string>, b: set<string>): real {
    if a == {} || b == {} then 0.0
    else
      NonEmptyCount(a + b);
      |a * b| as real / |a + b| as real
  }

  lemma NonEmptyCount(a: set<string>)
    ensures a != {} ==> |a| > 0
  {
  }

  lemma JaccardIsAShare(a: set<string>, b: set<string>)
    ensures 0.0 <= Jaccard(a, b) <= 1.0
  {
    if a != {} && b != {} {
      NonEmptyCount(a + b);
      SubsetCount(a * b, a + b);
      ShareIsAtMostOne(|a * b| as real, |a + b| as real);
    }
  }

  lemma ShareIsAtMostOne(n: real, d: real)
    requires 0.0 <= n <= d && d > 0.0
    ensures 0.0 <= n / d <= 1.0
  {
  }

  /** Comparing the share with a fraction, without dividing. */
  lemma ReachesIff(a: set<string>, b: set<string>, n: nat, d: nat)
    requires a != {} && b != {} && d > 0
    ensures Jaccard(a, b) >= n as real / d as real <==> d * |a * b| >= n * |a + b|
  {
    NonEmptyCount(a + b);
    CrossMultiply(|a * b|, |a + b|, n, d);
  }

  lemma CrossMultiply(i: nat, u: nat, n: nat, d: nat)
    requires u > 0 && d > 0
    ensures i as real / u as real >= n as real / d as real <==> d * i >= n * u
  {
    var x, y := i as real / u as real, n as real / d as real;
    assert x * u as real == i as real && y * d as real == n as real;
    assert (x - y) * (u * d) as real == (d * i - n * u) as real;
  }
}
