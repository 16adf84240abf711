/**
  The predictive autoscaler: the ring buffer of observations and the least-squares line fitted
  to the rates between them, in exact arithmetic.
 */
module LoadTrend {
  import opened Types

  datatype LoadObservation = LoadObservation(timestampSecs: u64, totalJobs: u64, pressureScore: real, dropRate: real)

  /** The job rate of one interval, placed at the interval's midpoint in whole seconds. */
  datatype Sample = Sample(x: nat, y: real)

  /** Real multiplication, named so that proofs about sums need not look inside it. */
  function Product(x: real, y: real): real {
    x * y
  }

  lemma Distribute(a: real, x: real, y: real)
    ensures Product(a, x + y) == Product(a, x) + Product(a, y)
  {
  }

  lemma CastProduct(m: int, n: int)
    ensures (m * n) as real == Product(m as real, n as real)
  {
  }

  // ---------- sums ----------

  function SumX(s: seq<Sample>): nat {
    if s == [] then 0 else SumX(s[..|s| - 1]) + s[|s| - 1].x
  }

  function SumXX(s: seq<Sample>): nat {
    if s == [] then 0 else SumXX(s[..|s| - 1]) + s[|s| - 1].x * s[|s| - 1].x
  }

  function SumY(s: seq<Sample>): real {
    if s == [] then 0.0 else SumY(s[..|s| - 1]) + s[|s| - 1].y
  }

  function SumXY(s: seq<Sample>): real {
    if s == [] then 0.0 else SumXY(s[..|s| - 1]) + Product(s[|s| - 1].x as real, s[|s| - 1].y)
  }

  function Denominator(s: seq<Sample>): int {
    |s| * SumXX(s) - SumX(s) * SumX(s)
  }

  ghost predicate SameX(s: seq<Sample>) {
    forall i, j | 0 <= i < j < |s| :: s[i].x == s[j].x
  }

  /** The sum of the squared distances from x. */
  ghost function SquaredDistance(s: seq<Sample>, x: int): nat
  {
    if s == [] then 0 else
      assert (x - s[|s| - 1].x) * (x - s[|s| - 1].x) >= 0;
      SquaredDistance(s[..|s| - 1], x) + (x - s[|s| - 1].x) * (x - s[|s| - 1].x)
  }

  lemma DistanceStep(n: nat, x: int, sx: int, sxx: int, z: int)
    ensures (n + 1) * (x * x) - 2 * x * (sx + z) + (sxx + z * z) ==
            (n * (x * x) - 2 * x * sx + sxx) + (x - z) * (x - z)
  {
  }

  lemma {:induction false} DistanceExpands(s: seq<Sample>, x: int)
    ensures SquaredDistance(s, x) == |s| * (x * x) - 2 * x * SumX(s) + SumXX(s)
  {
    if s == [] {
      assert SumX(s) == SumXX(s) == 0;
    } else {
      var t, z := s[..|s| - 1], s[|s| - 1].x;
      DistanceExpands(t, x);
      DistanceStep(|t|, x, SumX(t), SumXX(t), z);
      assert SumX(s) == SumX(t) + z && SumXX(s) == SumXX(t) + z * z;
      assert SquaredDistance(s, x) == SquaredDistance(t, x) + (x - z) * (x - z);
    }
  }

  lemma {:induction false} DistanceZero(s: seq<Sample>, x: int)
    ensures SquaredDistance(s, x) == 0 <==> forall i | 0 <= i < |s| :: s[i].x == x
  {
    if s != [] {
      var d := x - s[|s| - 1].x;
      DistanceZero(s[..|s| - 1], x);
      assert d != 0 ==> d * d > 0;
    }
  }

  lemma DenominatorStep(n: nat, sx: int, sxx: int, x: int)
    ensures (n + 1) * (sxx + x * x) - (sx + x) * (sx + x) ==
            (n * sxx - sx * sx) + (n * (x * x) - 2 * x * sx + sxx)
  {
  }

  /** The denominator vanishes exactly when all midpoints coincide, and is positive otherwise. */
  lemma {:induction false} DenominatorZero(s: seq<Sample>)
    ensures Denominator(s) >= 0
    ensures Denominator(s) == 0 <==> SameX(s)
  {
    if s != [] {
      var t, x := s[..|s| - 1], s[|s| - 1].x;
      DenominatorZero(t);
      DenominatorStep(|t|, SumX(t), SumXX(t), x);
      DistanceExpands(t, x);
      DistanceZero(t, x);
    }
  }

  // ---------- the fit ----------

  const EPSILON: real := 1.0 / 4_503_599_627_370_496.0

  datatype Line = Line(intercept: real, slope: real) {
    function At(x: real): real {
      intercept + Product(slope, x)
    }
  }

  /** The mean rate as a flat trend. */
  function FlatLine(s: seq<Sample>): Line
    requires s != []
  {
    Line(SumY(s) / |s| as real, 0.0)
  }

  function SlopedLine(s: seq<Sample>): Line
    requires s != [] && Denominator(s) != 0
  {
    var slope := (Product(|s| as real, SumXY(s)) - Product(SumX(s) as real, SumY(s))) / Denominator(s) as real;
    Line((SumY(s) - Product(slope, SumX(s) as real)) / |s| as real, slope)
  }

  /** The code compares a floating-point value with its epsilon. */
  predicate BelowEpsilon(denominator: int) {
    -EPSILON < denominator as real < EPSILON
  }

  lemma EpsilonTest(denominator: int)
    ensures BelowEpsilon(denominator) <==> denominator == 0
  {
  }

  function Fit(s: seq<Sample>): Line
    requires s != []
  {
    EpsilonTest(Denominator(s));
    if BelowEpsilon(Denominator(s)) then FlatLine(s) else SlopedLine(s)
  }

  ghost function Residual(line: Line, p: Sample): real {
    p.y - line.At(p.x as real)
  }

  ghost function SquaredError(s: seq<Sample>, line: Line): real {
    if s == [] then 0.0
    else SquaredError(s[..|s| - 1], line) + Product(Residual(line, s[|s| - 1]), Residual(line, s[|s| - 1]))
  }

  /** The squared differences between two lines at the sample points. */
  ghost function LineDistance(s: seq<Sample>, a: Line, b: Line): (d: real)
    ensures d >= 0.0
  {
    if s == [] then 0.0 else
      var e := a.At(s[|s| - 1].x as real) - b.At(s[|s| - 1].x as real);
      SquareNonnegative(e);
      LineDistance(s[..|s| - 1], a, b) + Product(e, e)
  }

  lemma SameSign(x: real, y: real)
    requires (x > 0.0 && y > 0.0) || (x < 0.0 && y < 0.0)
    ensures Product(x, y) > 0.0
  {
  }

  lemma SquareNonnegative(e: real)
    ensures Product(e, e) >= 0.0
    ensures e != 0.0 ==> Product(e, e) > 0.0
  {
    hide Product;
    if e == 0.0 {
      ZeroProduct(e);
    } else {
      SameSign(e, e);
    }
  }

  lemma ZeroProduct(x: real)
    ensures Product(0.0, x) == 0.0 && Product(x, 0.0) == 0.0
  {
  }

  /** The sum of the residuals, and their sum weighted by x. */
  ghost function Residuals(s: seq<Sample>, line: Line): real {
    if s == [] then 0.0 else Residuals(s[..|s| - 1], line) + Residual(line, s[|s| - 1])
  }

  ghost function Moments(s: seq<Sample>, line: Line): real {
    if s == [] then 0.0 else Moments(s[..|s| - 1], line) + Product(s[|s| - 1].x as real, Residual(line, s[|s| - 1]))
  }

  /** What the normal equations equate to zero. */
  ghost function ResidualForm(s: seq<Sample>, line: Line): real {
    SumY(s) - Product(|s| as real, line.intercept) - Product(line.slope, SumX(s) as real)
  }

  ghost function MomentForm(s: seq<Sample>, line: Line): real {
    SumXY(s) - Product(line.intercept, SumX(s) as real) - Product(line.slope, SumXX(s) as real)
  }

  lemma ResidualStep(a: real, b: real, x: real, y: real, n: real, sx: real, sy: real)
    ensures (sy + y) - Product(n + 1.0, a) - Product(b, sx + x) ==
            (sy - Product(n, a) - Product(b, sx)) + (y - (a + Product(b, x)))
  {
  }

  lemma {:induction false} ResidualsFromSums(s: seq<Sample>, line: Line)
    ensures Residuals(s, line) == ResidualForm(s, line)
  {
    if s == [] {
      ZeroProduct(line.intercept);
      ZeroProduct(line.slope);
    } else {
      var t, p := s[..|s| - 1], s[|s| - 1];
      hide Product;
      ResidualsFromSums(t, line);
      ResidualStep(line.intercept, line.slope, p.x as real, p.y, |t| as real, SumX(t) as real, SumY(t));
    }
  }

  lemma MomentStep(a: real, b: real, x: real, y: real, sx: real, sxx: real, sxy: real)
    ensures (sxy + Product(x, y)) - Product(a, sx + x) - Product(b, sxx + Product(x, x)) ==
            (sxy - Product(a, sx) - Product(b, sxx)) + Product(x, y - (a + Product(b, x)))
  {
  }

  lemma {:induction false} MomentsFromSums(s: seq<Sample>, line: Line)
    ensures Moments(s, line) == MomentForm(s, line)
  {
    if s == [] {
      ZeroProduct(line.intercept);
      ZeroProduct(line.slope);
    } else {
      var t, p := s[..|s| - 1], s[|s| - 1];
      hide Product;
      MomentsFromSums(t, line);
      CastProduct(p.x, p.x);
      MomentStep(line.intercept, line.slope, p.x as real, p.y, SumX(t) as real, SumXX(t) as real, SumXY(t));
    }
  }

  lemma ErrorStep(r: real, da: real, db: real, x: real)
    ensures var e := da + Product(db, x);
            Product(r + e, r + e) == Product(r, r) + Product(e, e) + 2.0 * (Product(da, r) + Product(db, Product(x, r)))
  {
  }

  lemma SlopeDifference(a: real, b: real, x: real)
    ensures Product(a, x) - Product(b, x) == Product(a - b, x)
  {
  }

  lemma {:induction false} ErrorExpands(s: seq<Sample>, a: Line, b: Line)
    ensures SquaredError(s, b) == SquaredError(s, a) + LineDistance(s, a, b) +
              2.0 * (Product(a.intercept - b.intercept, Residuals(s, a)) + Product(a.slope - b.slope, Moments(s, a)))
  {
    var da, db := a.intercept - b.intercept, a.slope - b.slope;
    if s == [] {
      ZeroProduct(da);
      ZeroProduct(db);
    } else {
      var t, p := s[..|s| - 1], s[|s| - 1];
      var r, x := Residual(a, p), p.x as real;
      hide Product;
      ErrorExpands(t, a, b);
      SlopeDifference(a.slope, b.slope, x);
      assert Residual(b, p) == r + (da + Product(db, x));
      ErrorStep(r, da, db, x);
      Distribute(da, Residuals(t, a), r);
      Distribute(db, Moments(t, a), Product(x, r));
    }
  }

  /** Solving the normal equations with a nonzero denominator. */
  lemma SlopeBalances(n: real, sx: real, sxx: real, sy: real, sxy: real, d: real, slope: real, intercept: real)
    requires n > 0.0 && d == Product(n, sxx) - Product(sx, sx) && d != 0.0
    requires slope == (Product(n, sxy) - Product(sx, sy)) / d && intercept == (sy - Product(slope, sx)) / n
    ensures sy - Product(n, intercept) - Product(slope, sx) == 0.0
    ensures sxy - Product(intercept, sx) - Product(slope, sxx) == 0.0
  {
  }

  lemma {:induction false} SameXSums(s: seq<Sample>, x: nat, line: Line)
    requires forall i | 0 <= i < |s| :: s[i].x == x
    ensures Moments(s, line) == Product(x as real, Residuals(s, line))
  {
    if s == [] {
      ZeroProduct(x as real);
    } else {
      hide Product;
      SameXSums(s[..|s| - 1], x, line);
      Distribute(x as real, Residuals(s[..|s| - 1], line), Residual(line, s[|s| - 1]));
    }
  }

  lemma Mean(n: real, sum: real)
    requires n > 0.0
    ensures Product(n, sum / n) == sum
  {
  }

  lemma FlatBalances(s: seq<Sample>)
    requires s != [] && Denominator(s) == 0
    ensures Residuals(s, FlatLine(s)) == 0.0 && Moments(s, FlatLine(s)) == 0.0
  {
    hide Product;
    DenominatorZero(s);
    ResidualsFromSums(s, FlatLine(s));
    Mean(|s| as real, SumY(s));
    ZeroProduct(SumX(s) as real);
    SameXSums(s, s[0].x, FlatLine(s));
    ZeroProduct(s[0].x as real);
  }

  lemma DenominatorCast(s: seq<Sample>)
    ensures Denominator(s) as real ==
            Product(|s| as real, SumXX(s) as real) - Product(SumX(s) as real, SumX(s) as real)
  {
    hide Product, SumX, SumXX;
    CastProduct(|s|, SumXX(s));
    CastProduct(SumX(s), SumX(s));
  }

  lemma SlopedBalances(s: seq<Sample>)
    requires s != [] && Denominator(s) != 0
    ensures Residuals(s, SlopedLine(s)) == 0.0 && Moments(s, SlopedLine(s)) == 0.0
  {
    hide Product, SumX, SumXX, SumY, SumXY, Residuals, Moments, Denominator;
    DenominatorCast(s);
    SlopeBalances(|s| as real, SumX(s) as real, SumXX(s) as real, SumY(s), SumXY(s), Denominator(s) as real,
                  SlopedLine(s).slope, SlopedLine(s).intercept);
    ResidualsFromSums(s, SlopedLine(s));
    MomentsFromSums(s, SlopedLine(s));
  }

  /** In both branches the fitted line leaves no residual sum and no moment. */
  lemma FitBalances(s: seq<Sample>)
    requires s != []
    ensures Residuals(s, Fit(s)) == 0.0 && Moments(s, Fit(s)) == 0.0
  {
    hide Denominator, FlatLine, SlopedLine, Residuals, Moments, BelowEpsilon;
    EpsilonTest(Denominator(s));
    if Denominator(s) == 0 {
      FlatBalances(s);
    } else {
      SlopedBalances(s);
    }
  }

  lemma BalancedError(s: seq<Sample>, line: Line)
    requires s != []
    ensures SquaredError(s, line) == SquaredError(s, Fit(s)) + LineDistance(s, Fit(s), line)
  {
    hide Product, Fit;
    FitBalances(s);
    ErrorExpands(s, Fit(s), line);
    ZeroProduct(Fit(s).intercept - line.intercept);
    ZeroProduct(Fit(s).slope - line.slope);
  }

  /** No line has a smaller sum of squared residuals than the fitted one. */
  lemma FitIsLeastSquares(s: seq<Sample>)
    requires s != []
    ensures forall line: Line :: SquaredError(s, Fit(s)) <= SquaredError(s, line)
  {
    forall line: Line
      ensures SquaredError(s, Fit(s)) <= SquaredError(s, line)
    {
      BalancedError(s, line);
    }
  }

  lemma {:induction false} NoDistance(s: seq<Sample>, a: Line, b: Line, i: nat)
    requires LineDistance(s, a, b) == 0.0 && i < |s|
    ensures a.At(s[i].x as real) == b.At(s[i].x as real)
  {
    hide Product;
    var t, x := s[..|s| - 1], s[|s| - 1].x as real;
    var e := a.At(x) - b.At(x);
    SquareNonnegative(e);
    assert LineDistance(s, a, b) == LineDistance(t, a, b) + Product(e, e);
    if i < |s| - 1 {
      NoDistance(t, a, b, i);
    }
  }

  /** Unless all midpoints coincide, every other line is strictly worse. */
  lemma FitIsUnique(s: seq<Sample>, line: Line)
    requires s != [] && !SameX(s) && line != Fit(s)
    ensures SquaredError(s, Fit(s)) < SquaredError(s, line)
  {
    hide Fit, Product;
    var a := Fit(s);
    BalancedError(s, line);
    if LineDistance(s, a, line) == 0.0 {
      var i: nat, j: nat :| i < j < |s| && s[i].x != s[j].x;
      NoDistance(s, a, line, i);
      NoDistance(s, a, line, j);
      TwoPoints(a, line, s[i].x as real, s[j].x as real);
    }
  }

  lemma TwoPoints(a: Line, b: Line, x: real, z: real)
    requires x != z && a.At(x) == b.At(x) && a.At(z) == b.At(z)
    ensures a == b
  {
  }

  lemma {:induction false} ConstantSums(s: seq<Sample>, r: real)
    requires forall i | 0 <= i < |s| :: s[i].y == r
    ensures SumY(s) == Product(|s| as real, r) && SumXY(s) == Product(SumX(s) as real, r)
  {
    if s == [] {
      ZeroProduct(r);
    } else {
      var t, p := s[..|s| - 1], s[|s| - 1];
      ConstantSums(t, r);
      hide Product;
      OneMore(|t| as real, 1.0, r);
      OneMore(SumX(t) as real, p.x as real, r);
      UnitProduct(r);
    }
  }

  lemma OneMore(n: real, k: real, r: real)
    ensures Product(n + k, r) == Product(n, r) + Product(k, r)
  {
  }

  lemma UnitProduct(r: real)
    ensures Product(1.0, r) == r
  {
  }

  lemma ConstantSlope(n: real, sx: real, r: real, d: real)
    requires n > 0.0 && d != 0.0
    ensures (Product(n, Product(sx, r)) - Product(sx, Product(n, r))) / d == 0.0
    ensures Product(n, r) / n == r
  {
  }

  /** A constant rate is predicted exactly, at any time. */
  lemma ConstantRate(s: seq<Sample>, r: real, at: real)
    requires s != [] && forall i | 0 <= i < |s| :: s[i].y == r
    ensures Fit(s).At(at) == r
  {
    hide Product, BelowEpsilon, Denominator, SumX, SumXX, SumY, SumXY;
    EpsilonTest(Denominator(s));
    ConstantSums(s, r);
    ConstantSlope(|s| as real, SumX(s) as real, r, if Denominator(s) == 0 then 1.0 else Denominator(s) as real);
    ZeroProduct(SumX(s) as real);
    ZeroProduct(at);
    assert Fit(s) == Line(r, 0.0);
  }

  ghost predicate OnLine(s: seq<Sample>, line: Line) {
    forall i | 0 <= i < |s| :: s[i].y == line.At(s[i].x as real)
  }

  lemma {:induction false} ErrorOnLine(s: seq<Sample>, line: Line)
    ensures SquaredError(s, line) >= 0.0
    ensures OnLine(s, line) ==> SquaredError(s, line) == 0.0
  {
    if s != [] {
      var t, r := s[..|s| - 1], Residual(line, s[|s| - 1]);
      ErrorOnLine(t, line);
      SquareNonnegative(r);
      ZeroProduct(0.0);
      hide Product;
      assert OnLine(s, line) ==> OnLine(t, line) && r == 0.0;
    }
  }

  /** Samples on a line are fitted by that line. */
  lemma ExactLine(s: seq<Sample>, line: Line)
    requires s != [] && !SameX(s) && OnLine(s, line)
    ensures Fit(s) == line
  {
    hide Fit, SquaredError, SameX, OnLine;
    ErrorOnLine(s, line);
    ErrorOnLine(s, Fit(s));
    if line != Fit(s) {
      FitIsUnique(s, line);
    }
  }

  // ---------- samples and prediction ----------

  function SaturatingAdd(a: u64, b: u64): u64 {
    Min(a + b, TWO_64 - 1)
  }

  function SampleOf(prev: LoadObservation, curr: LoadObservation, firstTs: u64): Sample
    requires curr.timestampSecs > prev.timestampSecs
  {
    var dt := curr.timestampSecs - prev.timestampSecs;
    Sample(SaturatingSub(SaturatingAdd(prev.timestampSecs, dt / 2), firstTs),
           SaturatingSub(curr.totalJobs, prev.totalJobs) as real / dt as real)
  }

  /** One sample for each interval in which the clock moves forward. */
  function Samples(obs: seq<LoadObservation>): seq<Sample>
  {
    if |obs| < 2 then []
    else
      var n := |obs| - 1;
      Samples(obs[..n]) +
      if obs[n].timestampSecs > obs[n - 1].timestampSecs
      then [SampleOf(obs[n - 1], obs[n], obs[0].timestampSecs)] else []
  }

  ghost function Prediction(obs: seq<LoadObservation>, horizon: real): real {
    if Samples(obs) == [] then 0.0
    else
      var at := SaturatingSub(obs[|obs| - 1].timestampSecs, obs[0].timestampSecs) as real + horizon;
      var rate := Fit(Samples(obs)).At(at);
      if rate > 0.0 then rate else 0.0
  }

  /** When every measured interval has rate r, the prediction is exactly r, whatever the horizon. */
  lemma SteadyLoadIsPredicted(obs: seq<LoadObservation>, horizon: real, r: real)
    requires Samples(obs) != [] && forall i | 0 <= i < |Samples(obs)| :: Samples(obs)[i].y == r
    ensures Prediction(obs, horizon) == r
  {
    hide Fit, SampleOf;
    ConstantRate(Samples(obs), r, SaturatingSub(obs[|obs| - 1].timestampSecs, obs[0].timestampSecs) as real + horizon);
    RatesAreNonnegative(obs);
    assert Samples(obs)[0].y >= 0.0;
  }

  lemma {:induction false} RatesAreNonnegative(obs: seq<LoadObservation>)
    ensures forall i | 0 <= i < |Samples(obs)| :: Samples(obs)[i].y >= 0.0
  {
    if |obs| >= 2 {
      RatesAreNonnegative(obs[..|obs| - 1]);
    }
  }

  /** A sample as its interval determines it: the rate, and the midpoint rounded down. */
  ghost predicate IsSampleOf(prev: LoadObservation, curr: LoadObservation, firstTs: u64, p: Sample) {
    && Product(p.y, (curr.timestampSecs - prev.timestampSecs) as real) ==
       (if curr.totalJobs >= prev.totalJobs then curr.totalJobs - prev.totalJobs else 0) as real
    && if prev.timestampSecs + curr.timestampSecs >= 2 * firstTs
       then 0 <= prev.timestampSecs + curr.timestampSecs - 2 * (p.x + firstTs) <= 1
       else p.x == 0
  }

  ghost predicate Forward(obs: seq<LoadObservation>, i: nat) {
    0 < i < |obs| && obs[i].timestampSecs > obs[i - 1].timestampSecs
  }

  /** The positions at which the clock has moved forward, in order. */
  ghost predicate AreForward(obs: seq<LoadObservation>, ends: seq<nat>) {
    && (forall j, k | 0 <= j < k < |ends| :: ends[j] < ends[k])
    && forall i: nat :: i in ends <==> Forward(obs, i)
  }

  lemma SampleIsSampleOf(prev: LoadObservation, curr: LoadObservation, firstTs: u64)
    requires curr.timestampSecs > prev.timestampSecs
    ensures IsSampleOf(prev, curr, firstTs, SampleOf(prev, curr, firstTs))
  {
    var dt := curr.timestampSecs - prev.timestampSecs;
    Quotient(SaturatingSub(curr.totalJobs, prev.totalJobs) as real, dt as real);
  }

  lemma Quotient(x: real, d: real)
    requires d > 0.0
    ensures Product(x / d, d) == x
  {
  }

  lemma SamplesNext(obs: seq<LoadObservation>, n: nat)
    requires |obs| == n + 1 && n > 0
    ensures Samples(obs) ==
            if obs[n].timestampSecs > obs[n - 1].timestampSecs
            then Samples(obs[..n]) + [SampleOf(obs[n - 1], obs[n], obs[0].timestampSecs)] else Samples(obs[..n])
  {
    assert Samples(obs[..n]) + [] == Samples(obs[..n]);
  }

  /** The sample belongs to the interval that ends at position i. */
  ghost predicate Measures(obs: seq<LoadObservation>, i: nat, p: Sample) {
    0 < i < |obs| && IsSampleOf(obs[i - 1], obs[i], obs[0].timestampSecs, p)
  }

  /** There is one sample for each interval in which the clock moves forward, in order. */
  lemma {:induction false} SamplesAreIntervals(obs: seq<LoadObservation>) returns (ends: seq<nat>)
    ensures AreForward(obs, ends) && |ends| == |Samples(obs)|
    ensures forall j | 0 <= j < |ends| :: Measures(obs, ends[j], Samples(obs)[j])
  {
    if |obs| < 2 {
      ends := [];
    } else {
      var n := |obs| - 1;
      var before := SamplesAreIntervals(obs[..n]);
      SamplesNext(obs, n);
      ForwardNext(obs, n, before);
      ends := if Forward(obs, n) then before + [n] else before;
      if Forward(obs, n) {
        SampleIsSampleOf(obs[n - 1], obs[n], obs[0].timestampSecs);
      }
      assert Forward(obs, n) ==> Measures(obs, n, SampleOf(obs[n - 1], obs[n], obs[0].timestampSecs));
      hide SampleOf, Samples, AreForward;
      forall j | 0 <= j < |ends|
        ensures Measures(obs, ends[j], Samples(obs)[j])
      {
        if j < |before| {
          MeasuresStill(obs, n, before[j], Samples(obs[..n])[j]);
        }
      }
    }
  }

  lemma ForwardNext(obs: seq<LoadObservation>, n: nat, before: seq<nat>)
    requires |obs| == n + 1 && n > 0 && AreForward(obs[..n], before)
    ensures AreForward(obs, if Forward(obs, n) then before + [n] else before)
  {
    assert forall j | 0 <= j < |before| :: before[j] in before;
    forall i: nat
      ensures Forward(obs[..n], i) <==> Forward(obs, i) && i < n
    {
    }
  }

  lemma MeasuresStill(obs: seq<LoadObservation>, n: nat, i: nat, p: Sample)
    requires n <= |obs| && Measures(obs[..n], i, p)
    ensures Measures(obs, i, p)
  {
  }

  /** In interval i the job count grows at the rate that the line has at the interval's midpoint. */
  ghost predicate GrowsBy(obs: seq<LoadObservation>, line: Line, i: nat)
    requires 0 < i < |obs|
  {
    var prev, curr := obs[i - 1], obs[i];
    var dt := curr.timestampSecs - prev.timestampSecs;
    && dt > 0 && dt % 2 == 0 && curr.totalJobs >= prev.totalJobs
    && (curr.totalJobs - prev.totalJobs) as real ==
       Product(line.At((prev.timestampSecs + dt / 2 - obs[0].timestampSecs) as real), dt as real)
  }

  ghost predicate LinearGrowth(obs: seq<LoadObservation>, line: Line) {
    obs != [] && forall i | 0 < i < |obs| :: GrowsBy(obs, line, i)
  }

  lemma RateIs(dj: real, dt: real, r: real)
    requires dt > 0.0 && dj == Product(r, dt)
    ensures dj / dt == r
  {
  }

  /** The samples lie on the line, exactly in the middle of the intervals. */
  ghost predicate Centred(obs: seq<LoadObservation>, s: seq<Sample>, line: Line) {
    && |obs| == |s| + 1 && OnLine(s, line)
    && forall k | 0 <= k < |s| :: 2 * (s[k].x + obs[0].timestampSecs) == obs[k].timestampSecs + obs[k + 1].timestampSecs
  }

  lemma {:induction false} LinearSamples(obs: seq<LoadObservation>, line: Line)
    requires LinearGrowth(obs, line)
    ensures Centred(obs, Samples(obs), line)
    ensures obs[0].timestampSecs <= obs[|obs| - 1].timestampSecs
  {
    if |obs| >= 2 {
      var n := |obs| - 1;
      LinearBefore(obs, line, n);
      LinearSamples(obs[..n], line);
      assert GrowsBy(obs, line, n);
      LinearSample(obs, line, n);
      SamplesNext(obs, n);
      hide SampleOf, GrowsBy, Product, Samples, LinearGrowth;
    }
  }

  lemma LinearBefore(obs: seq<LoadObservation>, line: Line, n: nat)
    requires LinearGrowth(obs, line) && 0 < n <= |obs|
    ensures LinearGrowth(obs[..n], line)
  {
    var before := obs[..n];
    forall i | 0 < i < n
      ensures GrowsBy(before, line, i)
    {
      assert GrowsBy(obs, line, i);
    }
  }

  lemma LinearSample(obs: seq<LoadObservation>, line: Line, i: nat)
    requires 0 < i < |obs| && GrowsBy(obs, line, i) && obs[0].timestampSecs <= obs[i - 1].timestampSecs
    ensures obs[i - 1].timestampSecs < obs[i].timestampSecs
    ensures var p := SampleOf(obs[i - 1], obs[i], obs[0].timestampSecs);
            && 2 * (p.x + obs[0].timestampSecs) == obs[i - 1].timestampSecs + obs[i].timestampSecs
            && p.y == line.At(p.x as real)
  {
    var prev, curr := obs[i - 1], obs[i];
    var dt := curr.timestampSecs - prev.timestampSecs;
    var m := prev.timestampSecs + dt / 2 - obs[0].timestampSecs;
    RateIs((curr.totalJobs - prev.totalJobs) as real, dt as real, line.At(m as real));
  }

  /**
    Linear growth is extrapolated exactly: with two intervals or more, the prediction is the
    rate that the line has at the last observation plus the horizon, or zero if that is
    negative.
   */
  lemma LinearGrowthIsPredicted(obs: seq<LoadObservation>, line: Line, horizon: real)
    requires LinearGrowth(obs, line) && |obs| >= 3
    ensures var rate := line.At((obs[|obs| - 1].timestampSecs - obs[0].timestampSecs) as real + horizon);
            Prediction(obs, horizon) == if rate > 0.0 then rate else 0.0
  {
    hide Fit, SampleOf, Samples;
    LinearSamples(obs, line);
    assert GrowsBy(obs, line, 1) && GrowsBy(obs, line, 2);
    assert Samples(obs)[0].x < Samples(obs)[1].x;
    ExactLine(Samples(obs), line);
  }

  /** Rates 1 and 2 at the midpoints 5 and 15 give 3.5 ten seconds after the last observation. */
  lemma PredictionOfThree(obs: seq<LoadObservation>)
    requires obs == [LoadObservation(0, 0, 0.0, 0.0), LoadObservation(10, 10, 0.0, 0.0),
                     LoadObservation(20, 30, 0.0, 0.0)]
    ensures Prediction(obs, 10.0) == 3.5
  {
    var line := Line(0.5, 0.1);
    assert GrowsBy(obs, line, 1) && GrowsBy(obs, line, 2);
    hide Prediction;
    LinearGrowthIsPredicted(obs, line, 10.0);
  }

  // ---------- the ring buffer ----------

  /** The last `cap` observations; a capacity of zero keeps everything. */
  function Window(cap: nat, seen: seq<LoadObservation>): seq<LoadObservation> {
    if cap == 0 || |seen| <= cap then seen else seen[|seen| - cap..]
  }

  /** The documented bound on the buffer holds exactly for a positive capacity. */
  lemma BufferBoundExactly(cap: nat)
    ensures (forall seen :: |Window(cap, seen)| <= cap) <==> cap > 0
  {
    if cap == 0 {
      var one := [LoadObservation(0, 0, 0.0, 0.0)];
      assert |Window(0, one)| == 1;
    }
  }

  /** The buffer holds the last observations: as many as fit, or all if the capacity is zero. */
  lemma WindowIsSuffix(cap: nat, seen: seq<LoadObservation>)
    ensures |Window(cap, seen)| == if cap == 0 then |seen| else Min(cap, |seen|)
    ensures Window(cap, seen) == seen[|seen| - |Window(cap, seen)|..]
  {
  }

  class Autoscaler {
    const ringBufferCap: nat
    var observations: seq<LoadObservation>
    ghost var seen: seq<LoadObservation>

    ghost predicate Valid()
      reads this
    {
      observations == Window(ringBufferCap, seen)
    }

    constructor (cap: nat)
      ensures Valid() && ringBufferCap == cap && seen == []
    {
      ringBufferCap, observations, seen := cap, [], [];
    }

    method Observe(obs: LoadObservation)
      requires Valid()
      modifies this
      ensures Valid() && seen == old(seen) + [obs]
      ensures observations != [] && observations[|observations| - 1] == obs
    {
      if |observations| == ringBufferCap && observations != [] {
        observations := observations[1..];
      }
      observations := observations + [obs];
      seen := seen + [obs];
    }

    /** `horizon` is the dynamic prediction horizon in seconds. */
    method PredictRate(horizon: real) returns (rate: real)
      ensures rate == Prediction(observations, horizon)
      ensures forall line: Line | LinearGrowth(observations, line) && |observations| >= 3 ::
                var r := line.At((observations[|observations| - 1].timestampSecs - observations[0].timestampSecs)
                                 as real + horizon);
                rate == if r > 0.0 then r else 0.0
    {
      forall line: Line | LinearGrowth(observations, line) && |observations| >= 3 {
        LinearGrowthIsPredicted(observations, line, horizon);
      }
      hide Fit, SampleOf, LinearGrowth, Product;
      if |observations| < 2 {
        return 0.0;
      }
      var firstTs := observations[0].timestampSecs;
      var samples: seq<Sample> := [];
      for i := 1 to |observations|
        invariant samples == Samples(observations[..i])
      {
        var prev, curr := observations[i - 1], observations[i];
        var dt := SaturatingSub(curr.timestampSecs, prev.timestampSecs);
        assert observations[..i + 1][..i] == observations[..i];
        if dt != 0 {
          samples := samples + [SampleOf(prev, curr, firstTs)];
        }
      }
      assert observations[..|observations|] == observations;
      if samples == [] {
        return 0.0;
      }
      var line := Fit(samples);
      var lastElapsed := SaturatingSub(observations[|observations| - 1].timestampSecs, firstTs) as real;
      var predicted := line.At(lastElapsed + horizon);
      rate := if predicted > 0.0 then predicted else 0.0;
    }
  }
}
