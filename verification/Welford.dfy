/** Rolling amount statistics, over the reals: what the accumulator holds of the amounts it was fed. */
module Welford {

  datatype Accumulator = Accumulator(n: nat, mean: real, m2: real) {
    function Add(x: real): Accumulator {
      var n1 := n + 1;
      var d := x - mean;
      var mean1 := mean + d / n1 as real;
      Accumulator(n1, mean1, m2 + d * (x - mean1))
    }
  }

  const EMPTY := Accumulator(0, 0.0, 0.0)

  /** The accumulator after the given amounts, in order. */
  function Of(xs: seq<real>): Accumulator {
    if xs == [] then EMPTY else Of(xs[..|xs| - 1]).Add(xs[|xs| - 1])
  }

  function Sum(xs: seq<real>): real {
    if xs == [] then 0.0 else Sum(xs[..|xs| - 1]) + xs[|xs| - 1]
  }

  function Square(x: real): real {
    x * x
  }

  function SumSquares(xs: seq<real>): real {
    if xs == [] then 0.0 else SumSquares(xs[..|xs| - 1]) + Square(xs[|xs| - 1])
  }

  /** The sum of squared deviations from `m`. */
  function Deviations(xs: seq<real>, m: real): real {
    if xs == [] then 0.0 else Deviations(xs[..|xs| - 1], m) + Square(xs[|xs| - 1] - m)
  }

  /** What one more amount does to every fold. */
  lemma LastAmount(xs: seq<real>, m: real)
    requires xs != []
    ensures var front, x := xs[..|xs| - 1], xs[|xs| - 1];
            && Of(xs) == Of(front).Add(x) && Sum(xs) == Sum(front) + x && SumSquares(xs) == SumSquares(front) + Square(x)
            && Deviations(xs, m) == Deviations(front, m) + Square(x - m)
  {
  }

  /** The sum of squared deviations from `m` of `n` amounts with sum `s1` and sum of squares `s2`. */
  function Expanded(n: nat, s1: real, s2: real, m: real): real {
    s2 - 2.0 * m * s1 + n as real * m * m
  }

  lemma SquareStep(n: nat, s1: real, s2: real, m: real, x: real)
    ensures Expanded(n, s1, s2, m) + Square(x - m) == Expanded(n + 1, s1 + x, s2 + Square(x), m)
  {
    SquareOfDifference(x, m);
    var k := n as real;
    OneMoreTimes(k, m * m);
    assert Expanded(n + 1, s1 + x, s2 + Square(x), m) == s2 + Square(x) - 2.0 * m * (s1 + x) + (k + 1.0) * m * m;
    MulAssociates(k, m, m);
    MulAssociates(k + 1.0, m, m);
    MulDistributes(2.0 * m, s1, x);
  }

  lemma SquareOfDifference(x: real, m: real)
    ensures Square(x - m) == Square(x) - 2.0 * m * x + m * m
  {
  }

  lemma SquareIsNonnegative(d: real)
    ensures Square(d) >= 0.0
  {
    if d < 0.0 {
      assert Square(d) == (-d) * (-d);
    }
  }

  lemma MulDistributes(k: real, x: real, y: real)
    ensures k * (x + y) == k * x + k * y
  {
  }

  lemma MulAssociates(k: real, x: real, y: real)
    ensures k * x * y == k * (x * y)
  {
  }

  lemma OneMoreTimes(k: real, x: real)
    ensures (k + 1.0) * x == k * x + x
  {
  }

  lemma {:induction false} DeviationsExpand(xs: seq<real>, m: real)
    ensures Deviations(xs, m) == Expanded(|xs|, Sum(xs), SumSquares(xs), m)
    ensures Deviations(xs, m) >= 0.0
  {
    if xs == [] {
      assert Deviations(xs, m) == 0.0 && Sum(xs) == 0.0 && SumSquares(xs) == 0.0;
    } else {
      hide Of, Sum, SumSquares, Deviations, Expanded, Square;
      var front, x := xs[..|xs| - 1], xs[|xs| - 1];
      DeviationsExpand(front, m);
      LastAmount(xs, m);
      SquareStep(|front|, Sum(front), SumSquares(front), m, x);
      SquareIsNonnegative(x - m);
    }
  }

  lemma MeanStep(n: real, mean: real, x: real, s1: real)
    requires n >= 0.0 && mean * n == s1
    ensures (mean + (x - mean) / (n + 1.0)) * (n + 1.0) == s1 + x
  {
    var q := (x - mean) / (n + 1.0);
    assert q * (n + 1.0) == x - mean;
    assert (mean + q) * (n + 1.0) == mean * n + mean + q * (n + 1.0);
  }

  lemma M2Step(n: real, mean: real, mean1: real, x: real, s1: real, s2: real)
    requires mean * n == s1 && mean1 * (n + 1.0) == s1 + x
    ensures s2 - mean * s1 + (x - mean) * (x - mean1) == s2 + x * x - mean1 * (s1 + x)
  {
    assert mean * (s1 + x) == mean * mean1 * n + mean * mean1;
    assert mean1 * s1 == mean * mean1 * n;
    assert (x - mean) * (x - mean1) == x * x - x * mean1 - mean * x + mean * mean1;
  }

  ghost predicate Matches(a: Accumulator, n: nat, s1: real, s2: real) {
    a.n == n && a.mean * n as real == s1 && a.m2 == s2 - a.mean * s1
  }

  lemma AddMatches(a: Accumulator, n: nat, s1: real, s2: real, x: real)
    requires Matches(a, n, s1, s2)
    ensures Matches(a.Add(x), n + 1, s1 + x, s2 + Square(x))
  {
    MeanStep(n as real, a.mean, x, s1);
    M2Step(n as real, a.mean, a.Add(x).mean, x, s1, s2);
  }

  lemma {:induction false} RunningTotals(xs: seq<real>)
    ensures Matches(Of(xs), |xs|, Sum(xs), SumSquares(xs))
  {
    if xs != [] {
      hide Of, Sum, SumSquares, Deviations, Matches, Accumulator.Add, Square;
      var front, x := xs[..|xs| - 1], xs[|xs| - 1];
      RunningTotals(front);
      LastAmount(xs, 0.0);
      AddMatches(Of(front), |front|, Sum(front), SumSquares(front), x);
    }
  }

  lemma MeanIsQuotient(mean: real, n: real, s1: real)
    requires n > 0.0 && mean * n == s1
    ensures mean == s1 / n
  {
    assert mean * n / n == mean;
  }

  lemma DeviationAtMean(a: Accumulator, n: nat, s1: real, s2: real)
    requires Matches(a, n, s1, s2)
    ensures a.m2 == Expanded(n, s1, s2, a.mean)
    ensures n > 0 ==> a.mean == s1 / n as real
  {
    assert n as real * a.mean * a.mean == s1 * a.mean;
    if n > 0 {
      MeanIsQuotient(a.mean, n as real, s1);
    }
  }

  /** The accumulator holds exactly the count, the mean and the sum of squared deviations from that mean. */
  lemma AccumulatorIsExact(xs: seq<real>)
    ensures var a := Of(xs);
            && a.n == |xs|
            && (xs != [] ==> a.mean == Sum(xs) / |xs| as real)
            && a.m2 == Deviations(xs, a.mean) && a.m2 >= 0.0
  {
    hide Of, Sum, SumSquares, Deviations, Expanded;
    RunningTotals(xs);
    var a := Of(xs);
    DeviationsExpand(xs, a.mean);
    DeviationAtMean(a, |xs|, Sum(xs), SumSquares(xs));
  }

  function Without(xs: seq<real>, k: nat): seq<real>
    requires k < |xs|
  {
    xs[..k] + xs[k + 1..]
  }

  lemma {:induction false} RemoveOne(xs: seq<real>, k: nat)
    requires k < |xs|
    ensures Sum(xs) == Sum(Without(xs, k)) + xs[k]
    ensures SumSquares(xs) == SumSquares(Without(xs, k)) + Square(xs[k])
  {
    var front, rest := xs[..|xs| - 1], Without(xs, k);
    if k == |xs| - 1 {
      assert rest == front;
    } else {
      assert rest[..|rest| - 1] == Without(front, k) && rest[|rest| - 1] == xs[|xs| - 1];
      hide Of, Sum, SumSquares, Deviations, Without, Square;
      RemoveOne(front, k);
      LastAmount(xs, 0.0);
      LastAmount(rest, 0.0);
    }
  }

  lemma RemoveOneLeaves(xs: seq<real>, k: nat)
    requires k < |xs|
    ensures multiset(Without(xs, k)) == multiset(xs) - multiset{xs[k]}
  {
    assert xs == xs[..k] + [xs[k]] + xs[k + 1..];
  }

  lemma {:induction false} SumsIgnoreOrder(xs: seq<real>, ys: seq<real>)
    requires multiset(xs) == multiset(ys)
    ensures |xs| == |ys| && Sum(xs) == Sum(ys) && SumSquares(xs) == SumSquares(ys)
  {
    assert |multiset(xs)| == |xs| && |multiset(ys)| == |ys|;
    if xs != [] {
      hide Of, Sum, SumSquares, Deviations, Without, Square;
      var front, x := xs[..|xs| - 1], xs[|xs| - 1];
      assert xs == front + [x];
      assert x in multiset(ys);
      var k :| 0 <= k < |ys| && ys[k] == x;
      RemoveOneLeaves(ys, k);
      RemoveOne(ys, k);
      LastAmount(xs, 0.0);
      SumsIgnoreOrder(front, Without(ys, k));
    }
  }

  lemma TotalsDetermine(a: Accumulator, b: Accumulator, n: nat, s1: real, s2: real)
    requires Matches(a, n, s1, s2) && Matches(b, n, s1, s2) && n > 0
    ensures a == b
  {
    MeanIsQuotient(a.mean, n as real, s1);
    MeanIsQuotient(b.mean, n as real, s1);
  }

  /** The order the amounts came in leaves no trace. */
  lemma OrderDoesNotMatter(xs: seq<real>, ys: seq<real>)
    requires multiset(xs) == multiset(ys)
    ensures Of(xs) == Of(ys)
  {
    SumsIgnoreOrder(xs, ys);
    if xs != [] {
      hide Of, Sum, SumSquares, Matches;
      RunningTotals(xs);
      RunningTotals(ys);
      TotalsDetermine(Of(xs), Of(ys), |xs|, Sum(xs), SumSquares(xs));
    }
  }
}
