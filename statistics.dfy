/** The two functions of Python's `statistics` module that the dispersion
    index uses, over exact rationals: `mean` and the sample `variance`
    (denominator n - 1). */
module Statistics {

  /** Sum of the counts. */
  function Sum(xs: seq<int>): int
  {
    if xs == [] then 0 else Sum(xs[..|xs| - 1]) + xs[|xs| - 1]
  }

  /** Arithmetic mean, `statistics.mean`: never negative for counts, and the
      common value of a constant sample. */
  function Mean(xs: seq<int>): (m: real)
    requires |xs| > 0
    ensures (forall i :: 0 <= i < |xs| ==> xs[i] >= 0) ==> m >= 0.0
    ensures Constant(xs) ==> m == xs[0] as real
  {
    SumOfNonNegative(xs);
    ConstantMean(xs);
    Sum(xs) as real / |xs| as real
  }

  lemma ConstantMean(xs: seq<int>)
    requires |xs| > 0
    ensures Constant(xs) ==> Sum(xs) as real / |xs| as real == xs[0] as real
  {
    if Constant(xs) {
      ConstantSum(xs);
      MeanOfMultiple(|xs|, xs[0], Sum(xs));
    }
  }

  /** A constant sample sums to its size times its value. */
  lemma ConstantSum(xs: seq<int>)
    requires |xs| > 0 && Constant(xs)
    ensures Sum(xs) == |xs| * xs[0]
  {
    forall i | 0 <= i < |xs| ensures xs[i] == xs[0] { }
    SumOfConstant(xs, xs[0]);
  }

  lemma MeanOfMultiple(n: int, c: int, s: int)
    requires n > 0 && s == n * c
    ensures s as real / n as real == c as real
  {
    CastProduct(n, c);
    RealCancel(s as real, n as real, c as real);
  }

  lemma CastProduct(a: int, b: int)
    ensures (a * b) as real == a as real * b as real
  {
  }

  lemma RealCancel(s: real, n: real, c: real)
    requires n > 0.0 && s == n * c
    ensures s / n == c
  {
  }

  /** Sum over the counts x of (n * x - s)^2. With n = |xs| and s = Sum(xs)
      this is n^2 times the sum of squared deviations from the mean, which
      keeps the whole computation in integers. */
  function ScaledSquares(xs: seq<int>, n: int, s: int): int
  {
    if xs == [] then 0
    else
      ScaledSquares(xs[..|xs| - 1], n, s) + Square(n * xs[|xs| - 1] - s)
  }

  function Square(d: int): int
  {
    d * d
  }

  lemma SquareSign(d: int)
    ensures Square(d) >= 0
    ensures Square(d) == 0 <==> d == 0
  {
    if d < 0 {
      assert Square(d) == (-d) * (-d);
    }
  }

  /** All counts are equal. */
  predicate Constant(xs: seq<int>)
  {
    forall i, j :: 0 <= i < |xs| && 0 <= j < |xs| ==> xs[i] == xs[j]
  }

  /** Sample variance, `statistics.variance`: the sum of squared deviations
      from the mean divided by n - 1, written as
      ScaledSquares / (n^2 (n - 1)). It needs at least two data points and
      is never negative (zero exactly for a constant sample, see
      VarianceZeroIffConstant). */
  function Variance(xs: seq<int>): (v: real)
    requires |xs| >= 2
    ensures v >= 0.0
  {
    var n := |xs|;
    var squares := ScaledSquares(xs, n, Sum(xs));
    var denominator := Square(n) * (n - 1);
    ScaledSquaresNonNegative(xs, n, Sum(xs));
    PositiveProduct(Square(n), n - 1);
    RatioSign(squares, denominator);
    squares as real / denominator as real
  }

  /** Index of dispersion of a sample, `variance(sample) / mean(sample)`. The
      division needs a non-zero mean; for counts (never negative) the index
      is never negative (zero exactly for a constant sample, see
      IndexZeroIffConstant). */
  function DispersionIndex(xs: seq<int>): (r: real)
    requires |xs| >= 2 && Sum(xs) != 0
    ensures (forall i :: 0 <= i < |xs| ==> xs[i] >= 0) ==> r >= 0.0
  {
    SumOfNonNegative(xs);
    Variance(xs) / Mean(xs)
  }

  /** The variance vanishes exactly when every count is the same. */
  lemma VarianceZeroIffConstant(xs: seq<int>)
    requires |xs| >= 2
    ensures Variance(xs) == 0.0 <==> Constant(xs)
  {
    var n := |xs|;
    ScaledSquaresNonNegative(xs, n, Sum(xs));
    ScaledSquaresZeroIffConstant(xs);
    PositiveProduct(Square(n), n - 1);
    RatioSign(ScaledSquares(xs, n, Sum(xs)), Square(n) * (n - 1));
  }

  /** The index of dispersion vanishes exactly for a constant sample. */
  lemma IndexZeroIffConstant(xs: seq<int>)
    requires |xs| >= 2 && Sum(xs) != 0
    ensures DispersionIndex(xs) == 0.0 <==> Constant(xs)
  {
    VarianceZeroIffConstant(xs);
  }

  lemma PositiveProduct(a: int, b: int)
    requires a > 0 && b > 0
    ensures a * b > 0
  {
  }

  lemma RatioSign(a: int, b: int)
    requires a >= 0 && b > 0
    ensures a as real / b as real >= 0.0
    ensures a as real / b as real == 0.0 <==> a == 0
  {
  }

  lemma {:induction false} ScaledSquaresNonNegative(xs: seq<int>, n: int, s: int)
    ensures ScaledSquares(xs, n, s) >= 0
  {
    if xs != [] {
      ScaledSquaresNonNegative(xs[..|xs| - 1], n, s);
      SquareSign(n * xs[|xs| - 1] - s);
    }
  }

  /** The scaled squares vanish exactly when n * x == s for every count x. */
  lemma {:induction false} ScaledSquaresZeroIff(xs: seq<int>, n: int, s: int)
    ensures ScaledSquares(xs, n, s) == 0 <==> forall i :: 0 <= i < |xs| ==> n * xs[i] == s
  {
    if xs != [] {
      var init := xs[..|xs| - 1];
      ScaledSquaresZeroIff(init, n, s);
      ScaledSquaresNonNegative(init, n, s);
      SquareSign(n * xs[|xs| - 1] - s);
      if ScaledSquares(xs, n, s) == 0 {
        forall i | 0 <= i < |xs| ensures n * xs[i] == s {
          if i < |xs| - 1 {
            assert xs[i] == init[i];
          }
        }
      }
    }
  }

  /** A sequence of n copies of c sums to n * c. */
  lemma {:induction false} SumOfConstant(xs: seq<int>, c: int)
    requires forall i :: 0 <= i < |xs| ==> xs[i] == c
    ensures Sum(xs) == |xs| * c
  {
    if xs != [] {
      var init := xs[..|xs| - 1];
      forall i | 0 <= i < |init| ensures init[i] == c {
        assert init[i] == xs[i];
      }
      SumOfConstant(init, c);
    }
  }

  /** With no negative count, the sum is at least any single count. */
  lemma {:induction false} SumAtLeastElement(xs: seq<int>, k: int)
    requires forall i :: 0 <= i < |xs| ==> xs[i] >= 0
    requires 0 <= k < |xs|
    ensures Sum(xs) >= xs[k]
  {
    var init := xs[..|xs| - 1];
    forall i | 0 <= i < |init| ensures init[i] >= 0 {
      assert init[i] == xs[i];
    }
    if k < |xs| - 1 {
      SumAtLeastElement(init, k);
      assert init[k] == xs[k];
    } else if init != [] {
      SumAtLeastElement(init, 0);
    }
  }

  /** Counts that are never negative have a sum that is never negative. */
  lemma SumOfNonNegative(xs: seq<int>)
    ensures (forall i :: 0 <= i < |xs| ==> xs[i] >= 0) ==> Sum(xs) >= 0
  {
    if xs != [] && forall i :: 0 <= i < |xs| ==> xs[i] >= 0 {
      SumAtLeastElement(xs, 0);
    }
  }

  lemma ScaledSquaresZeroIffConstant(xs: seq<int>)
    requires |xs| >= 1
    ensures ScaledSquares(xs, |xs|, Sum(xs)) == 0 <==> Constant(xs)
  {
    ScaledSquaresZeroIff(xs, |xs|, Sum(xs));
    if Constant(xs) {
      ConstantMatchesSum(xs);
    } else {
      UnequalMissesSum(xs);
    }
  }

  /** In a constant sample every count times n is the sum. */
  lemma ConstantMatchesSum(xs: seq<int>)
    requires |xs| >= 1 && Constant(xs)
    ensures forall i :: 0 <= i < |xs| ==> |xs| * xs[i] == Sum(xs)
  {
    var c := xs[0];
    forall i | 0 <= i < |xs| ensures xs[i] == c { }
    SumOfConstant(xs, c);
  }

  /** When two counts differ, some count times n is not the sum. */
  lemma UnequalMissesSum(xs: seq<int>)
    requires |xs| >= 1 && !Constant(xs)
    ensures exists i :: 0 <= i < |xs| && |xs| * xs[i] != Sum(xs)
  {
    var i, j :| 0 <= i < |xs| && 0 <= j < |xs| && xs[i] != xs[j];
    if |xs| * xs[i] == Sum(xs) && |xs| * xs[j] == Sum(xs) {
      CancelFactor(|xs|, xs[i], xs[j]);
    }
  }

  lemma CancelFactor(n: int, a: int, b: int)
    requires n > 0 && n * a == n * b
    ensures a == b
  {
    assert n * (a - b) == n * a - n * b;
    if a > b {
      PositiveProduct(n, a - b);
    } else if a < b {
      PositiveProduct(n, b - a);
    }
  }
}
