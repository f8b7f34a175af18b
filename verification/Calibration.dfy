/** How much a recorded run of liveness scores measured (scripts/calibrate_liveness.py).
    Scores are real numbers. */
module Calibration {
  type Scores = seq<real>

  // --- how much a run actually measured ------------------------------------------------------

  function Sum(xs: Scores): real {
    if xs == [] then 0.0 else Sum(xs[..|xs| - 1]) + xs[|xs| - 1]
  }

  /** Each score less the mean of the run. */
  function Deviations(xs: Scores): Scores
    requires xs != []
  {
    var mean := Sum(xs) / |xs| as real;
    seq(|xs|, i requires 0 <= i < |xs| => xs[i] - mean)
  }

  function Squares(d: Scores): real {
    if d == [] then 0.0 else Squares(d[..|d| - 1]) + d[|d| - 1] * d[|d| - 1]
  }

  /** Each deviation times the next one. */
  function Neighbours(d: Scores): real {
    if |d| < 2 then 0.0 else Neighbours(d[..|d| - 1]) + d[|d| - 2] * d[|d| - 1]
  }

  function Lag1(xs: Scores): real {
    if |xs| < 3 then 0.0
    else
      var d := Deviations(xs);
      if Squares(d) == 0.0 then 1.0 else Neighbours(d) / Squares(d)
  }

  /** max(0.0, min(0.99, r)) */
  function Clamp(r: real): real {
    if r > 0.99 then 0.99 else if r < 0.0 then 0.0 else r
  }

  function Weight(frames: nat, correlation: real): real
    requires 0.0 <= correlation <= 0.99
  {
    frames as real * (1.0 - correlation) / (1.0 + correlation)
  }

  function Worth(runs: seq<Scores>): real {
    if runs == [] then 0.0
    else Worth(runs[..|runs| - 1]) + Weight(|runs[|runs| - 1]|, Clamp(Lag1(runs[|runs| - 1])))
  }

  function Frames(runs: seq<Scores>): nat {
    if runs == [] then 0 else Frames(runs[..|runs| - 1]) + |runs[|runs| - 1]|
  }

  /** effective_samples */
  method EffectiveSamples(runs: seq<Scores>) returns (total: real)
    ensures total == Worth(runs)
  {
    total := 0.0;
    for k := 0 to |runs|
      invariant total == Worth(runs[..k])
    {
      assert runs[..k + 1][..k] == runs[..k];
      var r := Clamp(Lag1(runs[k]));
      total := total + |runs[k]| as real * (1.0 - r) / (1.0 + r);
    }
    assert runs[..|runs|] == runs;
  }

  lemma SquareIsNonnegative(x: real)
    ensures x * x >= 0.0
  {
    if x < 0.0 {
      assert x * x == (-x) * (-x);
    }
  }

  lemma ProductWithin(a: real, b: real)
    ensures 2.0 * (a * b) <= a * a + b * b
    ensures -2.0 * (a * b) <= a * a + b * b
  {
    SquareIsNonnegative(a - b);
    SquareIsNonnegative(a + b);
    assert (a - b) * (a - b) == a * a - 2.0 * (a * b) + b * b;
    assert (a + b) * (a + b) == a * a + 2.0 * (a * b) + b * b;
  }

  /** Neighbouring products are at most the squares, with half an end square to spare at each end. */
  lemma {:induction false} NeighboursWithin(d: Scores)
    requires d != []
    ensures var ends := d[0] * d[0] + d[|d| - 1] * d[|d| - 1];
            && 2.0 * Neighbours(d) <= 2.0 * Squares(d) - ends
            && -2.0 * Neighbours(d) <= 2.0 * Squares(d) - ends
    ensures Squares(d) >= 0.0
  {
    var n := |d|;
    if n == 1 {
      assert d[..0] == [];
    } else {
      NeighboursWithin(d[..n - 1]);
      ProductWithin(d[n - 2], d[n - 1]);
    }
  }

  lemma QuotientWithin(a: real, b: real)
    requires b > 0.0 && -b <= a <= b
    ensures -1.0 <= a / b <= 1.0
  {
  }

  /** The correlation of any run at all lies between -1 and 1. */
  lemma Lag1IsACorrelation(xs: Scores)
    ensures -1.0 <= Lag1(xs) <= 1.0
  {
    if |xs| >= 3 {
      var d := Deviations(xs);
      NeighboursWithin(d);
      assert d[0] * d[0] >= 0.0 && d[|d| - 1] * d[|d| - 1] >= 0.0;
      if Squares(d) != 0.0 {
        QuotientWithin(Neighbours(d), Squares(d));
      }
    }
  }

  /** So the clamp takes at most 0.01 off a positive correlation, and adds nothing to one. */
  lemma ClampTakesLittle(xs: Scores)
    ensures var r := Lag1(xs); r > 0.0 ==> 0.0 <= r - Clamp(r) <= 0.01
  {
    Lag1IsACorrelation(xs);
  }

  lemma WeightBounds(frames: nat, r: real)
    requires 0.0 <= r <= 0.99
    ensures 0.0 <= Weight(frames, r) <= frames as real
    ensures frames > 0 ==> Weight(frames, r) > 0.0
  {
    var f := frames as real;
    assert Weight(frames, r) * (1.0 + r) == f * (1.0 - r);
    assert f * (1.0 - r) <= f * (1.0 + r);
    if frames > 0 {
      assert f * (1.0 - r) > 0.0;
    }
  }

  lemma WeightFalls(frames: nat, r: real, s: real)
    requires 0.0 <= r <= s <= 0.99
    ensures Weight(frames, s) <= Weight(frames, r)
  {
    var f := frames as real;
    var a, b := (1.0 - r) / (1.0 + r), (1.0 - s) / (1.0 + s);
    QuotientsFall(1.0 - r, 1.0 + r, 1.0 - s, 1.0 + s);
    Larger(f, b, a);
    assert Weight(frames, s) == f * b && Weight(frames, r) == f * a;
  }

  lemma QuotientsFall(p: real, q: real, p': real, q': real)
    requires 0.0 <= p' <= p && 0.0 < q <= q'
    ensures p' / q' <= p / q
  {
    var a, b := p / q, p' / q';
    assert a * q == p && b * q' == p';
    Larger(a, q, q');
    SmallerFactor(b, a, q');
  }

  lemma Larger(k: real, x: real, y: real)
    requires k >= 0.0 && x <= y
    ensures k * x <= k * y
  {
  }

  lemma SmallerFactor(x: real, y: real, k: real)
    requires k > 0.0 && x * k <= y * k
    ensures x <= y
  {
  }

  /** effective_samples is positive as soon as there is a frame, and never more than the
      number of frames. */
  lemma {:induction false} WorthIsAtMostTheFrames(runs: seq<Scores>)
    ensures 0.0 <= Worth(runs) <= Frames(runs) as real
    ensures Frames(runs) > 0 ==> Worth(runs) > 0.0
  {
    if runs == [] {
    } else {
      WorthIsAtMostTheFrames(runs[..|runs| - 1]);
      WeightBounds(|runs[|runs| - 1]|, Clamp(Lag1(runs[|runs| - 1])));
    }
  }

  /** Replacing one run by another of the same length that resembles itself more never makes
      the whole worth more. */
  lemma {:induction false} WorthFallsWithCorrelation(runs: seq<Scores>, k: nat, run: Scores)
    requires k < |runs| && |run| == |runs[k]| && Lag1(run) >= Lag1(runs[k])
    ensures Worth(runs[k := run]) <= Worth(runs)
  {
    var n := |runs| - 1;
    if k == n {
      assert runs[k := run][..n] == runs[..n];
      WeightFalls(|run|, Clamp(Lag1(runs[k])), Clamp(Lag1(run)));
    } else {
      assert runs[k := run][..n] == runs[..n][k := run];
      WorthFallsWithCorrelation(runs[..n], k, run);
    }
  }

  // --- what the correlation of a run is ------------------------------------------------------------

  /** A run of one score repeated resembles itself wholly; two frames say nothing. */
  lemma ConstantRun(xs: Scores, x: real)
    requires forall i :: 0 <= i < |xs| ==> xs[i] == x
    ensures Lag1(xs) == if |xs| < 3 then 0.0 else 1.0
  {
    if |xs| >= 3 {
      SumOfEqual(xs, x);
      MeanOfEqual(|xs|, x);
      SquaresOfZero(Deviations(xs));
    }
  }

  lemma {:induction false} SumOfEqual(xs: Scores, x: real)
    requires forall i :: 0 <= i < |xs| ==> xs[i] == x
    ensures Sum(xs) == |xs| as real * x
  {
    if xs == [] {
    } else {
      SumOfEqual(xs[..|xs| - 1], x);
      assert |xs| as real * x == (|xs| - 1) as real * x + x;
    }
  }

  lemma MeanOfEqual(n: nat, x: real)
    requires n > 0
    ensures (n as real * x) / n as real == x
  {
  }

  lemma {:induction false} SquaresOfZero(d: Scores)
    requires forall i :: 0 <= i < |d| ==> d[i] == 0.0
    ensures Squares(d) == 0.0
  {
    if d == [] {
    } else {
      SquaresOfZero(d[..|d| - 1]);
    }
  }

  /** Two scores in turn, a first. */
  function Alternating(a: real, b: real, n: nat): Scores {
    seq(n, i requires 0 <= i < n => if i % 2 == 0 then a else b)
  }

  lemma AlternatingFront(a: real, b: real, n: nat)
    requires n > 0
    ensures Alternating(a, b, n)[..n - 1] == Alternating(a, b, n - 1)
  {
  }

  lemma OnceMore(m: nat, s: real)
    requires m > 0
    ensures m as real * s == (m - 1) as real * s + s
  {
  }

  lemma TwoMore(a: real, b: real, m: nat)
    requires m > 0
    ensures Sum(Alternating(a, b, 2 * m)) == Sum(Alternating(a, b, 2 * (m - 1))) + (a + b)
  {
    AlternatingFront(a, b, 2 * m);
    AlternatingFront(a, b, 2 * m - 1);
    assert Sum(Alternating(a, b, 2 * m - 1)) == Sum(Alternating(a, b, 2 * m - 2)) + a;
  }

  lemma {:induction false} SumOfAlternating(a: real, b: real, m: nat, s: real)
    requires s == a + b
    ensures Sum(Alternating(a, b, 2 * m)) == m as real * s
  {
    if m == 0 {
    } else {
      SumOfAlternating(a, b, m - 1, s);
      TwoMore(a, b, m);
      OnceMore(m, s);
    }
  }

  lemma {:induction false} SquaresOfAlternating(h: real, s: real, n: nat)
    requires s == h * h
    ensures Squares(Alternating(h, -h, n)) == n as real * s
  {
    if n == 0 {
    } else {
      SquaresOfAlternating(h, s, n - 1);
      AlternatingFront(h, -h, n);
      assert (-h) * (-h) == s;
      assert n as real * s == (n - 1) as real * s + s;
    }
  }

  lemma OppositeProduct(h: real, s: real)
    requires s == h * h
    ensures h * (-h) == -s && (-h) * h == -s
  {
  }

  lemma {:induction false} NeighboursOfAlternating(h: real, s: real, n: nat)
    requires n >= 1 && s == h * h
    ensures Neighbours(Alternating(h, -h, n)) == -((n - 1) as real * s)
  {
    if n == 1 {
    } else {
      NeighboursOfAlternating(h, s, n - 1);
      AlternatingFront(h, -h, n);
      OppositeProduct(h, s);
      OnceMore(n - 1, s);
    }
  }

  lemma QuotientIs(p: real, q: real, x: real)
    requires q != 0.0 && x * q == p
    ensures p / q == x
  {
  }

  lemma MeanOfAlternating(a: real, b: real, m: nat)
    requires m > 0
    ensures Sum(Alternating(a, b, 2 * m)) / (2 * m) as real == (a + b) / 2.0
  {
    SumOfAlternating(a, b, m, a + b);
    var n := (2 * m) as real;
    assert n == 2.0 * m as real;
    HalfTimesTwice(a + b, m as real);
    QuotientIs(Sum(Alternating(a, b, 2 * m)), n, (a + b) / 2.0);
  }

  lemma HalfTimesTwice(s: real, m: real)
    ensures s / 2.0 * (2.0 * m) == m * s
  {
  }

  lemma DeviationsOfAlternating(a: real, b: real, m: nat)
    requires m > 0
    ensures Deviations(Alternating(a, b, 2 * m)) == Alternating((a - b) / 2.0, -((a - b) / 2.0), 2 * m)
  {
    var xs, h := Alternating(a, b, 2 * m), (a - b) / 2.0;
    MeanOfAlternating(a, b, m);
    forall i | 0 <= i < 2 * m ensures Deviations(xs)[i] == Alternating(h, -h, 2 * m)[i] {
      assert Deviations(xs)[i] == xs[i] - (a + b) / 2.0;
    }
  }

  /** What Lag1 makes of the deviations. */
  function Ratio(d: Scores): real {
    if Squares(d) == 0.0 then 1.0 else Neighbours(d) / Squares(d)
  }

  lemma RatioOfAlternating(h: real, s: real, n: nat)
    requires s == h * h && s > 0.0 && n >= 1
    ensures Ratio(Alternating(h, -h, n)) == -((n - 1) as real) / n as real
  {
    SquaresOfAlternating(h, s, n);
    NeighboursOfAlternating(h, s, n);
    CommonFactor((n - 1) as real, n as real, s);
  }

  /** Going back and forth between two scores is as far from resembling itself as an even number
      of frames can be: -(n - 1) / n. */
  lemma AlternatingRun(a: real, b: real, m: nat)
    requires a != b && m >= 2
    ensures Lag1(Alternating(a, b, 2 * m)) == -((2 * m - 1) as real) / (2 * m) as real
  {
    var h: real :| h == (a - b) / 2.0;
    var s: real :| s == h * h;
    PositiveSquare(h, s);
    DeviationsOfAlternating(a, b, m);
    RatioOfAlternating(h, s, 2 * m);
    Lag1IsRatio(Alternating(a, b, 2 * m));
  }

  lemma Lag1IsRatio(xs: Scores)
    requires |xs| >= 3
    ensures Lag1(xs) == Ratio(Deviations(xs))
  {
  }

  lemma PositiveSquare(h: real, s: real)
    requires h != 0.0 && s == h * h
    ensures s > 0.0
  {
    if h < 0.0 {
      var g := -h;
      assert s / g == g;
    } else {
      assert s / h == h;
    }
  }

  lemma CommonFactor(p: real, q: real, s: real)
    requires q > 0.0 && s > 0.0
    ensures q * s > 0.0 && -(p * s) / (q * s) == -p / q
  {
    var x := -p / q;
    assert x * q == -p;
    Positive(q, s);
    Associative(x, q, s);
    assert (-p) * s == -(p * s);
    QuotientIs(-(p * s), q * s, x);
  }

  lemma Positive(x: real, y: real)
    requires x > 0.0 && y > 0.0
    ensures x * y > 0.0
  {
  }

  lemma Associative(x: real, y: real, z: real)
    ensures x * (y * z) == (x * y) * z
  {
  }

  /** The run in other units, from another zero. */
  function Rescaled(xs: Scores, k: real, c: real): Scores {
    seq(|xs|, i requires 0 <= i < |xs| => k * xs[i] + c)
  }

  lemma RescaledFront(xs: Scores, k: real, c: real)
    requires xs != []
    ensures Rescaled(xs, k, c)[..|xs| - 1] == Rescaled(xs[..|xs| - 1], k, c)
  {
    var front := xs[..|xs| - 1];
    forall i | 0 <= i < |front| ensures Rescaled(xs, k, c)[..|front|][i] == Rescaled(front, k, c)[i] {
      assert front[i] == xs[i];
    }
  }

  /** What becomes of a sum of n scores. */
  function RescaledSum(sum: real, n: nat, k: real, c: real): real {
    k * sum + n as real * c
  }

  lemma {:induction false} SumRescaled(xs: Scores, k: real, c: real)
    ensures Sum(Rescaled(xs, k, c)) == RescaledSum(Sum(xs), |xs|, k, c)
  {
    if xs == [] {
    } else {
      SumRescaled(xs[..|xs| - 1], k, c);
      RescaledFront(xs, k, c);
      OneScoreMore(Sum(xs[..|xs| - 1]), |xs| - 1, k, c, xs[|xs| - 1]);
    }
  }

  lemma OneScoreMore(sum: real, n: nat, k: real, c: real, x: real)
    ensures RescaledSum(sum + x, n + 1, k, c) == RescaledSum(sum, n, k, c) + (k * x + c)
  {
    assert (n + 1) as real * c == n as real * c + c;
  }

  lemma MeanRescaled(sum: real, n: nat, k: real, c: real)
    requires n > 0
    ensures RescaledSum(sum, n, k, c) / n as real == k * (sum / n as real) + c
  {
    var m := sum / n as real;
    assert m * n as real == sum;
    Distribute(k, m, c, n as real);
    QuotientIs(RescaledSum(sum, n, k, c), n as real, k * m + c);
  }

  lemma Distribute(k: real, m: real, c: real, n: real)
    ensures (k * m + c) * n == k * (m * n) + n * c
  {
    Associative(k, m, n);
    Distributive(k * m, c, n);
  }

  lemma Distributive(x: real, y: real, z: real)
    ensures (x + y) * z == x * z + z * y
  {
  }

  lemma {:induction false} SquaresRescaled(d: Scores, k: real, s: real)
    requires s == k * k
    ensures Squares(Rescaled(d, k, 0.0)) == s * Squares(d)
  {
    if d == [] {
    } else {
      SquaresRescaled(d[..|d| - 1], k, s);
      RescaledFront(d, k, 0.0);
      var last := d[|d| - 1];
      OneProductMore(k, s, Squares(d[..|d| - 1]), last, last);
    }
  }

  lemma {:induction false} NeighboursRescaled(d: Scores, k: real, s: real)
    requires s == k * k
    ensures Neighbours(Rescaled(d, k, 0.0)) == s * Neighbours(d)
  {
    if |d| < 2 {
    } else {
      NeighboursRescaled(d[..|d| - 1], k, s);
      RescaledFront(d, k, 0.0);
      OneProductMore(k, s, Neighbours(d[..|d| - 1]), d[|d| - 2], d[|d| - 1]);
    }
  }

  lemma OneProductMore(k: real, s: real, p: real, x: real, y: real)
    requires s == k * k
    ensures s * p + (k * x + 0.0) * (k * y + 0.0) == s * (p + x * y)
  {
    FactorsOut(k, x, y, s);
    DistributeSquare(s, p, x * y);
  }

  lemma FactorsOut(k: real, x: real, y: real, s: real)
    requires s == k * k
    ensures (k * x + 0.0) * (k * y + 0.0) == s * (x * y)
  {
    var u, v := k * x, k * y;
    Associative(u, k, y);
    assert u * k == (k * k) * x by {
      Associative(k, k, x);
    }
    assert (u * k) * y == (s * x) * y;
    Associative(s, x, y);
  }

  lemma DistributeSquare(s: real, p: real, q: real)
    ensures s * (p + q) == s * p + s * q
  {
  }

  lemma Difference(k: real, x: real, m: real, c: real)
    ensures k * x + c - (k * m + c) == k * (x - m) + 0.0
  {
  }

  function Less(xs: Scores, mean: real): Scores {
    seq(|xs|, i requires 0 <= i < |xs| => xs[i] - mean)
  }

  lemma LessRescaled(xs: Scores, k: real, c: real, mean: real, mean': real)
    requires mean' == k * mean + c
    ensures Less(Rescaled(xs, k, c), mean') == Rescaled(Less(xs, mean), k, 0.0)
  {
    forall i | 0 <= i < |xs| ensures Less(Rescaled(xs, k, c), mean')[i] == Rescaled(Less(xs, mean), k, 0.0)[i] {
      Difference(k, xs[i], mean, c);
    }
  }

  lemma DeviationsRescaled(xs: Scores, k: real, c: real)
    requires xs != []
    ensures Deviations(Rescaled(xs, k, c)) == Rescaled(Deviations(xs), k, 0.0)
  {
    SumRescaled(xs, k, c);
    MeanRescaled(Sum(xs), |xs|, k, c);
    var mean, mean' := Sum(xs) / |xs| as real, RescaledSum(Sum(xs), |xs|, k, c) / |xs| as real;
    LessRescaled(xs, k, c, mean, mean');
    assert Deviations(xs) == Less(xs, mean);
    assert Deviations(Rescaled(xs, k, c)) == Less(Rescaled(xs, k, c), mean');
  }

  lemma RatioRescaled(d: Scores, k: real, s: real)
    requires s == k * k && s > 0.0
    ensures Ratio(Rescaled(d, k, 0.0)) == Ratio(d)
  {
    SquaresRescaled(d, k, s);
    NeighboursRescaled(d, k, s);
    SameQuotient(Neighbours(d), Squares(d), s);
  }

  /** The correlation of a run does not depend on the unit or the zero of its scores. */
  lemma CorrelationHasNoUnit(xs: Scores, k: real, c: real)
    requires k != 0.0
    ensures Lag1(Rescaled(xs, k, c)) == Lag1(xs)
  {
    if |xs| >= 3 {
      var s: real :| s == k * k;
      PositiveSquare(k, s);
      DeviationsRescaled(xs, k, c);
      RatioRescaled(Deviations(xs), k, s);
      Lag1IsRatio(xs);
      Lag1IsRatio(Rescaled(xs, k, c));
    }
  }

  lemma SameQuotient(p: real, q: real, s: real)
    requires s > 0.0
    ensures s * q == 0.0 <==> q == 0.0
    ensures q != 0.0 ==> (s * p) / (s * q) == p / q
  {
    if q != 0.0 {
      var x := p / q;
      assert x * q == p;
      NotZero(s, q);
      Associative(x, s, q);
      Associative(s, x, q);
      assert x * s == s * x;
      QuotientIs(s * p, s * q, x);
    }
  }

  lemma NotZero(s: real, q: real)
    requires s > 0.0 && q != 0.0
    ensures s * q != 0.0
  {
    if q > 0.0 {
      Positive(s, q);
    } else {
      Positive(s, -q);
      assert s * (-q) == -(s * q);
    }
  }

  /** A run of frames that do not follow each other counts in full; otherwise, with r its
      correlation but no more than 0.99, it counts w frames where w (1 + r) = n (1 - r). */
  lemma OneRunIsWorth(run: Scores)
    ensures Lag1(run) <= 0.0 ==> Worth([run]) == |run| as real
    ensures 0.0 < Lag1(run) <= 0.99 ==>
              Worth([run]) * (1.0 + Lag1(run)) == |run| as real * (1.0 - Lag1(run))
    ensures Lag1(run) > 0.99 ==> Worth([run]) * 1.99 == |run| as real * 0.01
  {
    assert [run][..0] == [];
    WeightIs(|run|, Clamp(Lag1(run)));
  }

  lemma WeightIs(frames: nat, r: real)
    requires 0.0 <= r <= 0.99
    ensures Weight(frames, r) * (1.0 + r) == frames as real * (1.0 - r)
    ensures r == 0.0 ==> Weight(frames, r) == frames as real
  {
  }

  /** Runs are worth the sum of what each is worth. */
  lemma {:induction false} RunsAddUp(a: seq<Scores>, b: seq<Scores>)
    ensures Worth(a + b) == Worth(a) + Worth(b) && Frames(a + b) == Frames(a) + Frames(b)
  {
    if b == [] {
      assert a + b == a;
    } else {
      RunsAddUp(a, b[..|b| - 1]);
      assert (a + b)[..|a + b| - 1] == a + b[..|b| - 1];
    }
  }
}
