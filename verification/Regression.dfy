/**
 Ordinary least squares as the predictive engine computes it: from the sums of the times,
 the values, their products and the squared times.
 */
module Regression {
  import opened Common
  import opened RealArith
  import opened RealSeq

  /** One reading: seconds since the first one, and the score. */
  datatype DataPoint = DataPoint(time: real, value: real)

  datatype Line = Line(slope: real, intercept: real, rSquared: real)

  const GUARD: real := 0.0000000001

  function Abs(x: real): real {
    if x < 0.0 then -x else x
  }

  function Time(): DataPoint -> real {
    (x: DataPoint) => x.time
  }

  function Value(): DataPoint -> real {
    (x: DataPoint) => x.value
  }

  function Product(): DataPoint -> real {
    (x: DataPoint) => x.time * x.value
  }

  function TimeSquared(): DataPoint -> real {
    (x: DataPoint) => x.time * x.time
  }

  /** What the line misses at a reading. */
  function Residual(slope: real, intercept: real): DataPoint -> real {
    (x: DataPoint) => x.value - (slope * x.time + intercept)
  }

  function ResidualSquared(slope: real, intercept: real): DataPoint -> real {
    (x: DataPoint) => (x.value - (slope * x.time + intercept)) * (x.value - (slope * x.time + intercept))
  }

  function SquaredError(p: seq<DataPoint>, slope: real, intercept: real): real {
    SumOf(p, ResidualSquared(slope, intercept))
  }

  function Denominator(p: seq<DataPoint>): real {
    |p| as real * SumOf(p, TimeSquared()) - SumOf(p, Time()) * SumOf(p, Time())
  }

  function FittedSlope(p: seq<DataPoint>): real
    requires Denominator(p) != 0.0
  {
    (|p| as real * SumOf(p, Product()) - SumOf(p, Time()) * SumOf(p, Value())) / Denominator(p)
  }

  function FittedIntercept(p: seq<DataPoint>, slope: real): real
    requires |p| > 0
  {
    (SumOf(p, Value()) - slope * SumOf(p, Time())) / |p| as real
  }

  /** R-squared; a perfect fit when the values hardly vary. */
  function FitQuality(p: seq<DataPoint>, slope: real, intercept: real): real
    requires |p| > 0
  {
    var total := SquaredError(p, 0.0, SumOf(p, Value()) / |p| as real);
    if Abs(total) < GUARD then 1.0 else 1.0 - SquaredError(p, slope, intercept) / total
  }

  function LinearRegression(p: seq<DataPoint>): Option<Line> {
    if |p| < 3 || Abs(Denominator(p)) < GUARD then None
    else
      var slope := FittedSlope(p);
      var intercept := FittedIntercept(p, slope);
      Some(Line(slope, intercept, FitQuality(p, slope, intercept)))
  }

  // ---------- What makes a line the best one ----------

  /** A residual weighted by its time. */
  function ResidualTime(slope: real, intercept: real): DataPoint -> real {
    (x: DataPoint) => x.time * (x.value - (slope * x.time + intercept))
  }

  /** The squared height of the line `q * t + r`. */
  function HeightSquared(q: real, r: real): DataPoint -> real {
    (x: DataPoint) => (q * x.time + r) * (q * x.time + r)
  }

  lemma HeightSquaredNonNegative(p: seq<DataPoint>, q: real, r: real)
    ensures SumOf(p, HeightSquared(q, r)) >= 0.0
  {
    forall i | 0 <= i < |p| ensures HeightSquared(q, r)(p[i]) >= 0.0 {
      var h := q * p[i].time + r;
      assert h * h >= 0.0;
    }
    SumOfNonNegative(p, HeightSquared(q, r));
  }

  lemma ResidualExpand(p: seq<DataPoint>, a: real, b: real)
    ensures SumOf(p, Residual(a, b)) == 1.0 * SumOf(p, Value()) + (-a) * SumOf(p, Time()) + |p| as real * (-b)
  {
    hide SumOf;
    SumOfAffine(p, Residual(a, b), 1.0, Value(), -a, Time(), -b);
  }

  lemma ResidualTimeCombines(a: real, b: real)
    ensures Combines(ResidualTime(a, b), 1.0, Product(), -a, TimeSquared(), -b, Time(), 0.0, Time())
  {
  }

  lemma ResidualTimeExpand(p: seq<DataPoint>, a: real, b: real)
    ensures SumOf(p, ResidualTime(a, b))
         == 1.0 * SumOf(p, Product()) + (-a) * SumOf(p, TimeSquared()) + (-b) * SumOf(p, Time())
          + 0.0 * SumOf(p, Time())
  {
    hide SumOf, ResidualTime;
    ResidualTimeCombines(a, b);
    SumOfLinear(p, ResidualTime(a, b), 1.0, Product(), -a, TimeSquared(), -b, Time(), 0.0, Time());
  }

  lemma SquareOfLine(q: real, t: real, r: real)
    ensures (q * t + r) * (q * t + r) == (q * q) * (t * t) + (2.0 * q * r) * t + r * r
  {
    var u := q * t;
    assert u * u == (q * q) * (t * t);
    assert (u + r) * (u + r) == u * u + 2.0 * (u * r) + r * r;
    assert u * r == (q * r) * t;
  }

  lemma HeightSquaredAt(q: real, r: real, x: DataPoint)
    ensures HeightSquared(q, r)(x) == (q * q) * TimeSquared()(x) + (2.0 * q * r) * Time()(x) + r * r
  {
    SquareOfLine(q, x.time, r);
  }

  lemma HeightSquaredAffine(q: real, r: real)
    ensures Affine(HeightSquared(q, r), q * q, TimeSquared(), 2.0 * q * r, Time(), r * r)
  {
    forall x: DataPoint
      ensures HeightSquared(q, r)(x) == (q * q) * TimeSquared()(x) + (2.0 * q * r) * Time()(x) + r * r
    {
      HeightSquaredAt(q, r, x);
      hide HeightSquared, TimeSquared, Time;
    }
  }

  lemma HeightSquaredExpand(p: seq<DataPoint>, q: real, r: real)
    ensures SumOf(p, HeightSquared(q, r))
         == (q * q) * SumOf(p, TimeSquared()) + (2.0 * q * r) * SumOf(p, Time()) + |p| as real * (r * r)
  {
    hide SumOf, HeightSquared;
    HeightSquaredAffine(q, r);
    SumOfAffine(p, HeightSquared(q, r), q * q, TimeSquared(), 2.0 * q * r, Time(), r * r);
  }

  lemma SquareOfDifference(e: real, q: real, t: real, r: real)
    ensures (e - (q * t + r)) * (e - (q * t + r))
         == e * e + (-2.0 * q) * (t * e) + (-2.0 * r) * e + (q * t + r) * (q * t + r)
  {
  }

  lemma ErrorShiftPoint(x: DataPoint, a: real, b: real, q: real, r: real)
    ensures ResidualSquared(a + q, b + r)(x)
         == 1.0 * ResidualSquared(a, b)(x) + (-2.0 * q) * ResidualTime(a, b)(x)
            + (-2.0 * r) * Residual(a, b)(x) + 1.0 * HeightSquared(q, r)(x)
  {
    var e := x.value - (a * x.time + b);
    assert x.value - ((a + q) * x.time + (b + r)) == e - (q * x.time + r);
    SquareOfDifference(e, q, x.time, r);
  }

  lemma ErrorShiftCombines(a: real, b: real, q: real, r: real)
    ensures Combines(ResidualSquared(a + q, b + r), 1.0, ResidualSquared(a, b), -2.0 * q, ResidualTime(a, b),
                     -2.0 * r, Residual(a, b), 1.0, HeightSquared(q, r))
  {
    forall x: DataPoint {
      ErrorShiftPoint(x, a, b, q, r);
    }
  }

  /** How the squared error changes when the line is tilted by `q` and lifted by `r`. */
  lemma ErrorShift(p: seq<DataPoint>, a: real, b: real, q: real, r: real)
    ensures SquaredError(p, a + q, b + r)
         == 1.0 * SquaredError(p, a, b) + (-2.0 * q) * SumOf(p, ResidualTime(a, b))
          + (-2.0 * r) * SumOf(p, Residual(a, b))
            + 1.0 * SumOf(p, HeightSquared(q, r))
  {
    hide SumOf, ResidualSquared, ResidualTime, Residual, HeightSquared;
    ErrorShiftCombines(a, b, q, r);
    SumOfLinear(p, ResidualSquared(a + q, b + r), 1.0, ResidualSquared(a, b), -2.0 * q, ResidualTime(a, b),
                -2.0 * r, Residual(a, b), 1.0, HeightSquared(q, r));
  }

  lemma NormalEquations(n: real, t: real, v: real, tv: real, tt: real, d: real, a: real, b: real, sum: real,
                        moment: real)
    requires n > 0.0 && d == n * tt - t * t && d != 0.0
    requires a * d == n * tv - t * v && n * b == v - a * t
    requires sum == 1.0 * v + (-a) * t + n * (-b)
    requires moment == 1.0 * tv + (-a) * tt + (-b) * t + 0.0 * t
    ensures sum == 0.0 && moment == 0.0
  {
    assert n * moment == n * tv - a * (n * tt) - (n * b) * t;
    assert (n * b) * t == v * t - a * (t * t);
    assert a * d == a * (n * tt) - a * (t * t);
    assert n * moment == 0.0;
  }

  lemma SlopeEquation(p: seq<DataPoint>, n: real)
    requires Denominator(p) != 0.0 && n == |p| as real
    ensures FittedSlope(p) * Denominator(p) == n * SumOf(p, Product()) - SumOf(p, Time()) * SumOf(p, Value())
  {
    hide SumOf, Denominator;
    DivideThenMultiply(n * SumOf(p, Product()) - SumOf(p, Time()) * SumOf(p, Value()), Denominator(p));
  }

  lemma InterceptEquation(p: seq<DataPoint>, n: real, a: real)
    requires |p| > 0 && n == |p| as real
    ensures n * FittedIntercept(p, a) == SumOf(p, Value()) - a * SumOf(p, Time())
  {
    hide SumOf;
    DivideThenMultiply(SumOf(p, Value()) - a * SumOf(p, Time()), n);
  }

  lemma DenominatorEquation(p: seq<DataPoint>, n: real)
    requires n == |p| as real
    ensures Denominator(p) == n * SumOf(p, TimeSquared()) - SumOf(p, Time()) * SumOf(p, Time())
  {
    hide SumOf;
  }

  lemma FittedParts(p: seq<DataPoint>)
    requires LinearRegression(p).Some?
    ensures |p| > 0 && Denominator(p) != 0.0
    ensures LinearRegression(p).value.slope == FittedSlope(p)
    ensures LinearRegression(p).value.intercept == FittedIntercept(p, FittedSlope(p))
  {
    hide SumOf, Denominator, FittedSlope, FittedIntercept, FitQuality;
  }

  /** The count, the denominator and the two equations that the code divides out of. */
  lemma FittedEquations(p: seq<DataPoint>) returns (n: real, d: real, a: real, b: real)
    requires LinearRegression(p).Some?
    ensures n > 0.0 && n == |p| as real && d != 0.0
    ensures a == LinearRegression(p).value.slope && b == LinearRegression(p).value.intercept
    ensures d == n * SumOf(p, TimeSquared()) - SumOf(p, Time()) * SumOf(p, Time())
    ensures a * d == n * SumOf(p, Product()) - SumOf(p, Time()) * SumOf(p, Value())
    ensures n * b == SumOf(p, Value()) - a * SumOf(p, Time())
  {
    hide *;
    FittedParts(p);
    n, d, a := |p| as real, Denominator(p), FittedSlope(p);
    b := FittedIntercept(p, a);
    DenominatorEquation(p, n);
    SlopeEquation(p, n);
    InterceptEquation(p, n, a);
  }

  lemma ResidualsVanishAt(p: seq<DataPoint>, n: real, d: real, a: real, b: real)
    requires n > 0.0 && n == |p| as real && d != 0.0
    requires d == n * SumOf(p, TimeSquared()) - SumOf(p, Time()) * SumOf(p, Time())
    requires a * d == n * SumOf(p, Product()) - SumOf(p, Time()) * SumOf(p, Value())
    requires n * b == SumOf(p, Value()) - a * SumOf(p, Time())
    ensures SumOf(p, Residual(a, b)) == 0.0 && SumOf(p, ResidualTime(a, b)) == 0.0
  {
    hide *;
    ResidualExpand(p, a, b);
    ResidualTimeExpand(p, a, b);
    NormalEquations(n, SumOf(p, Time()), SumOf(p, Value()), SumOf(p, Product()), SumOf(p, TimeSquared()),
                    d, a, b, SumOf(p, Residual(a, b)), SumOf(p, ResidualTime(a, b)));
  }

  /** The residuals of the fitted line sum to zero and are orthogonal to the times. */
  lemma ResidualsVanish(p: seq<DataPoint>)
    requires LinearRegression(p).Some?
    ensures var line := LinearRegression(p).value;
            && SumOf(p, Residual(line.slope, line.intercept)) == 0.0
            && SumOf(p, ResidualTime(line.slope, line.intercept)) == 0.0
  {
    hide *;
    var n, d, a, b := FittedEquations(p);
    ResidualsVanishAt(p, n, d, a, b);
  }

  lemma DenominatorAlgebra(n: real, t: real, tt: real, d: real, height: real)
    requires n > 0.0 && height >= 0.0 && d == n * tt - t * t
    requires height == (n * n) * tt + (2.0 * n * (-t)) * t + n * ((-t) * (-t))
    ensures d >= 0.0
  {
    assert height == n * d;
  }

  lemma DenominatorWhenHeightKnown(p: seq<DataPoint>, n: real, t: real)
    requires n > 0.0 && n == |p| as real && t == SumOf(p, Time())
    requires Denominator(p) == n * SumOf(p, TimeSquared()) - t * t
    ensures Denominator(p) >= 0.0
  {
    hide *;
    HeightSquaredNonNegative(p, n, -t);
    HeightSquaredExpand(p, n, -t);
    DenominatorAlgebra(n, t, SumOf(p, TimeSquared()), Denominator(p), SumOf(p, HeightSquared(n, -t)));
  }

  /** Cauchy and Schwarz again: the guard only ever rejects denominators close to zero from above. */
  lemma DenominatorNonNegative(p: seq<DataPoint>)
    ensures Denominator(p) >= 0.0
  {
    if |p| > 0 {
      DenominatorWhenHeightKnown(p, |p| as real, SumOf(p, Time()));
    }
  }

  lemma SumVanishes(s2: real, q2: real, d: real, product: real)
    requires s2 >= 0.0 && q2 >= 0.0 && d > 0.0 && product == q2 * d && s2 + product <= 0.0
    ensures s2 <= 0.0 && q2 <= 0.0
  {
    ProductSign(q2, d);
  }

  lemma SquaresVanish(s: real, s2: real, q: real, q2: real, d: real, total: real)
    requires s2 == s * s && q2 == q * q && total == s2 + q2 * d && d > 0.0 && total <= 0.0
    ensures q == 0.0 && s == 0.0
  {
    assert s * s >= 0.0 && q * q >= 0.0;
    hide *;
    SumVanishes(s2, q2, d, q2 * d);
    if q != 0.0 {
      NonZeroSquare(q, q2);
      assert false;
    }
    if s != 0.0 {
      NonZeroSquare(s, s2);
      assert false;
    }
  }

  lemma HeightAlgebra(n: real, t: real, tt: real, d: real, q: real, r: real, height: real)
    requires n > 0.0 && d == n * tt - t * t && d > 0.0
    requires height == (q * q) * tt + (2.0 * q * r) * t + n * (r * r)
    requires height <= 0.0
    ensures q == 0.0 && r == 0.0
  {
    var s := n * r + q * t;
    assert n * height == s * s + (q * q) * d by {
      assert n * ((q * q) * tt) == (q * q) * (n * tt);
      assert s * s == n * (n * (r * r)) + n * ((2.0 * q * r) * t) + (q * q) * (t * t);
      assert (q * q) * d == (q * q) * (n * tt) - (q * q) * (t * t);
    }
    SquaresVanish(s, s * s, q, q * q, d, n * height);
    assert n * r == 0.0;
  }

  /** Every other line misses the readings by strictly more than the fitted one. */
  lemma LeastSquares(p: seq<DataPoint>, slope: real, intercept: real)
    requires LinearRegression(p).Some?
    ensures var line := LinearRegression(p).value;
            && SquaredError(p, line.slope, line.intercept) <= SquaredError(p, slope, intercept)
            && (SquaredError(p, line.slope, line.intercept) == SquaredError(p, slope, intercept)
                ==> slope == line.slope && intercept == line.intercept)
  {
    var a, b := LinearRegression(p).value.slope, LinearRegression(p).value.intercept;
    var q, r := slope - a, intercept - b;
    assert Abs(Denominator(p)) >= GUARD;
    hide SumOf, LinearRegression, HeightSquared;
    ErrorShift(p, a, b, q, r);
    ResidualsVanish(p);
    HeightSquaredNonNegative(p, q, r);
    assert a + q == slope && b + r == intercept;
    if SumOf(p, HeightSquared(q, r)) <= 0.0 {
      DenominatorNonNegative(p);
      HeightSquaredExpand(p, q, r);
      HeightAlgebra(|p| as real, SumOf(p, Time()), SumOf(p, TimeSquared()), Denominator(p), q, r,
                    SumOf(p, HeightSquared(q, r)));
    }
  }

  lemma SquaredErrorNonNegative(p: seq<DataPoint>, a: real, b: real)
    ensures SquaredError(p, a, b) >= 0.0
  {
    forall i | 0 <= i < |p| ensures ResidualSquared(a, b)(p[i]) >= 0.0 {
      var e := p[i].value - (a * p[i].time + b);
      assert e * e >= 0.0;
    }
    SumOfNonNegative(p, ResidualSquared(a, b));
  }

  lemma RatioInUnitInterval(part: real, whole: real)
    requires 0.0 <= part <= whole && whole > 0.0
    ensures 0.0 <= 1.0 - part / whole <= 1.0
  {
  }

  /** The goodness of fit always lies between 0 and 1: no line is worse than the horizontal one at the mean. */
  lemma RSquaredInUnitInterval(p: seq<DataPoint>)
    requires LinearRegression(p).Some?
    ensures 0.0 <= LinearRegression(p).value.rSquared <= 1.0
  {
    var line := LinearRegression(p).value;
    var mean := SumOf(p, Value()) / |p| as real;
    var total, missed := SquaredError(p, 0.0, mean), SquaredError(p, line.slope, line.intercept);
    assert line.rSquared == FitQuality(p, line.slope, line.intercept);
    hide SumOf, LinearRegression, SquaredError;
    LeastSquares(p, 0.0, mean);
    SquaredErrorNonNegative(p, line.slope, line.intercept);
    if Abs(total) >= GUARD {
      RatioInUnitInterval(missed, total);
    }
  }

  /** Readings on a line are recovered exactly, with a perfect fit. */
  lemma CollinearRecovered(p: seq<DataPoint>, slope: real, intercept: real)
    requires LinearRegression(p).Some?
    requires forall i :: 0 <= i < |p| ==> p[i].value == slope * p[i].time + intercept
    ensures LinearRegression(p).value == Line(slope, intercept, 1.0)
  {
    var line := LinearRegression(p).value;
    assert line.rSquared == FitQuality(p, line.slope, line.intercept);
    assert SquaredError(p, slope, intercept) <= 0.0 by {
      forall i | 0 <= i < |p| ensures ResidualSquared(slope, intercept)(p[i]) <= Constant<DataPoint>(0.0)(p[i]) {
        assert p[i].value - (slope * p[i].time + intercept) == 0.0;
      }
      SumOfMonotone(p, ResidualSquared(slope, intercept), Constant(0.0));
      SumOfConstant(p, 0.0);
    }
    hide SumOf, LinearRegression, SquaredError;
    LeastSquares(p, slope, intercept);
    SquaredErrorNonNegative(p, line.slope, line.intercept);
    assert SquaredError(p, slope, intercept) == 0.0;
  }

  // ---------- What R-squared is ----------

  function ValueSquared(): DataPoint -> real {
    (x: DataPoint) => x.value * x.value
  }

  /** `n` squared times the variance of the values. */
  function Variation(p: seq<DataPoint>): real {
    |p| as real * SumOf(p, ValueSquared()) - SumOf(p, Value()) * SumOf(p, Value())
  }

  /** `n` squared times the covariance of times and values. */
  function Covariation(p: seq<DataPoint>): real {
    |p| as real * SumOf(p, Product()) - SumOf(p, Time()) * SumOf(p, Value())
  }

  lemma ErrorFromNothing(p: seq<DataPoint>)
    ensures SquaredError(p, 0.0, 0.0) == SumOf(p, ValueSquared())
    ensures SumOf(p, Residual(0.0, 0.0)) == SumOf(p, Value())
  {
    assert Affine(ResidualSquared(0.0, 0.0), 1.0, ValueSquared(), 0.0, Value(), 0.0);
    hide SumOf, ResidualSquared, ValueSquared, Residual, Value, Affine;
    SumOfAffine(p, ResidualSquared(0.0, 0.0), 1.0, ValueSquared(), 0.0, Value(), 0.0);
    ResidualExpand(p, 0.0, 0.0);
    assert |p| as real * 0.0 == 0.0 && |p| as real * -0.0 == 0.0;
  }

  lemma TotalAlgebra(n: real, v: real, vv: real, m: real, total: real, height: real, moment: real)
    requires n * m == v && total == 1.0 * vv + (-2.0 * 0.0) * moment + (-2.0 * m) * v + 1.0 * height
    requires height == n * (m * m)
    ensures n * total == n * vv - v * v
  {
    assert n * ((-2.0 * m) * v) == -2.0 * ((n * m) * v);
    assert n * (n * (m * m)) == (n * m) * (n * m);
  }

  lemma FlatHeight(t: real, tt: real, n: real, m: real, height: real)
    requires height == (0.0 * 0.0) * tt + (2.0 * 0.0 * m) * t + n * (m * m)
    ensures height == n * (m * m)
  {
  }

  /** The squared distance of the values from their mean. */
  lemma TotalErrorIs(p: seq<DataPoint>, n: real, m: real)
    requires |p| > 0 && n == |p| as real && n * m == SumOf(p, Value())
    ensures n * SquaredError(p, 0.0, m) == n * SumOf(p, ValueSquared()) - SumOf(p, Value()) * SumOf(p, Value())
  {
    hide *;
    ErrorFromNothing(p);
    ErrorShift(p, 0.0, 0.0, 0.0, m);
    HeightSquaredExpand(p, 0.0, m);
    var height := SumOf(p, HeightSquared(0.0, m));
    FlatHeight(SumOf(p, Time()), SumOf(p, TimeSquared()), n, m, height);
    assert 0.0 + 0.0 == 0.0 && 0.0 + m == m;
    TotalAlgebra(n, SumOf(p, Value()), SumOf(p, ValueSquared()), m, SquaredError(p, 0.0, m), height,
                 SumOf(p, ResidualTime(0.0, 0.0)));
  }

  lemma ExplainedAlgebra(n: real, t: real, tt: real, a: real, d: real, c: real, r: real, height: real)
    requires d == n * tt - t * t && a * d == c && n * r == a * t
    requires height == ((-a) * (-a)) * tt + (2.0 * (-a) * r) * t + n * (r * r)
    ensures n * height * d == c * c
  {
    assert n * height == (a * a) * (n * tt) - 2.0 * (a * ((n * r) * t)) + (n * r) * (n * r);
    assert a * ((a * t) * t) == (a * a) * (t * t);
    assert (a * t) * (a * t) == (a * a) * (t * t);
    assert n * height == (a * a) * d;
    assert ((a * a) * d) * d == (a * d) * (a * d);
  }

  lemma ShiftAlgebra(total: real, missed: real, q: real, r: real, moment: real, sum: real, height: real)
    requires total == 1.0 * missed + (-2.0 * q) * moment + (-2.0 * r) * sum + 1.0 * height
    requires moment == 0.0 && sum == 0.0
    ensures total - missed == height
  {
  }

  /** Any other line misses more than the fitted one by the squared height of the difference. */
  lemma FittedShift(p: seq<DataPoint>, q: real, r: real)
    requires LinearRegression(p).Some?
    ensures var line := LinearRegression(p).value;
            SquaredError(p, line.slope + q, line.intercept + r) - SquaredError(p, line.slope, line.intercept)
            == SumOf(p, HeightSquared(q, r))
  {
    hide *;
    var a, b := LinearRegression(p).value.slope, LinearRegression(p).value.intercept;
    ErrorShift(p, a, b, q, r);
    ResidualsVanish(p);
    ShiftAlgebra(SquaredError(p, a + q, b + r), SquaredError(p, a, b), q, r, SumOf(p, ResidualTime(a, b)),
                 SumOf(p, Residual(a, b)), SumOf(p, HeightSquared(q, r)));
  }

  lemma ExplainedFinish(n: real, explained: real, height: real, d: real, c: real)
    requires explained == height && n * height * d == c * c
    ensures n * explained * d == c * c
  {
  }

  lemma InterceptGap(n: real, m: real, v: real, a: real, b: real, t: real)
    requires n * m == v && n * b == v - a * t
    ensures n * (m - b) == a * t
  {
  }

  lemma ExplainedAt(p: seq<DataPoint>, n: real, m: real, a: real, b: real, d: real, c: real)
    requires LinearRegression(p).Some? && n == |p| as real && n * m == SumOf(p, Value())
    requires a == LinearRegression(p).value.slope && b == LinearRegression(p).value.intercept
    requires d == n * SumOf(p, TimeSquared()) - SumOf(p, Time()) * SumOf(p, Time())
    requires a * d == c && n * b == SumOf(p, Value()) - a * SumOf(p, Time())
    ensures n * (SquaredError(p, 0.0, m) - SquaredError(p, a, b)) * d == c * c
  {
    hide *;
    FittedShift(p, -a, m - b);
    HeightSquaredExpand(p, -a, m - b);
    InterceptGap(n, m, SumOf(p, Value()), a, b, SumOf(p, Time()));
    var height := SumOf(p, HeightSquared(-a, m - b));
    ExplainedAlgebra(n, SumOf(p, Time()), SumOf(p, TimeSquared()), a, d, c, m - b, height);
    assert a + -a == 0.0 && b + (m - b) == m;
    ExplainedFinish(n, SquaredError(p, 0.0, m) - SquaredError(p, a, b), height, d, c);
  }

  /** What the fitted line explains of the values' distance from their mean. */
  lemma ExplainedIs(p: seq<DataPoint>, n: real, m: real, a: real, b: real)
    requires LinearRegression(p).Some? && n == |p| as real && n * m == SumOf(p, Value())
    requires a == LinearRegression(p).value.slope && b == LinearRegression(p).value.intercept
    ensures n * (SquaredError(p, 0.0, m) - SquaredError(p, a, b)) * Denominator(p) == Covariation(p) * Covariation(p)
  {
    hide *;
    CovariationIs(p, n);
    var n', d, a', b' := FittedEquations(p);
    DenominatorEquation(p, n);
    ExplainedAt(p, n, m, a, b, Denominator(p), Covariation(p));
  }

  lemma CovariationIs(p: seq<DataPoint>, n: real)
    requires n == |p| as real
    ensures Covariation(p) == n * SumOf(p, Product()) - SumOf(p, Time()) * SumOf(p, Value())
    ensures Variation(p) == n * SumOf(p, ValueSquared()) - SumOf(p, Value()) * SumOf(p, Value())
  {
    hide SumOf;
  }

  /** R-squared is the square of the correlation, multiplied out. */
  predicate IsSquaredCorrelation(r: real, p: seq<DataPoint>) {
    r * Denominator(p) * Variation(p) == Covariation(p) * Covariation(p)
  }

  /** The variance of `n` values is below the guard. */
  predicate HardlyVary(p: seq<DataPoint>, n: real) {
    Variation(p) < n * 0.0000000001
  }

  lemma QualityAlgebra(r: real, total: real, missed: real, n: real, d: real, c: real, variation: real)
    requires total != 0.0 && r == 1.0 - missed / total && n * total == variation
    requires n * (total - missed) * d == c * c
    ensures r * d * variation == c * c
    ensures r == 1.0 <==> missed == 0.0
  {
    DivideThenMultiply(missed, total);
    assert r * total == total - missed;
    assert r * d * variation == n * (r * total) * d;
    if missed != 0.0 {
      assert (1.0 - r) * total == missed;
    }
  }

  lemma QualityOf(p: seq<DataPoint>, r: real, total: real, missed: real, n: real)
    requires total != 0.0 && r == 1.0 - missed / total && n * total == Variation(p)
    requires n * (total - missed) * Denominator(p) == Covariation(p) * Covariation(p)
    ensures IsSquaredCorrelation(r, p)
    ensures r == 1.0 <==> missed == 0.0
  {
    hide Variation, Denominator, Covariation;
    QualityAlgebra(r, total, missed, n, Denominator(p), Covariation(p), Variation(p));
  }

  lemma {:induction false} SumOfSquaresZero(p: seq<DataPoint>, f: DataPoint -> real, i: nat)
    requires i < |p| && SumOf(p, f) <= 0.0 && forall j :: 0 <= j < |p| ==> f(p[j]) >= 0.0
    ensures f(p[i]) == 0.0
  {
    var init := p[..|p| - 1];
    SumOfNonNegative(init, f);
    if i == |p| - 1 {
    } else {
      assert init[i] == p[i];
      SumOfSquaresZero(init, f, i);
    }
  }

  lemma ZeroOnlyAtZero(e: real)
    ensures e * e == 0.0 <==> e == 0.0
  {
    if e != 0.0 {
      NonZeroSquare(e, e * e);
    }
  }

  ghost predicate OnLine(p: seq<DataPoint>, a: real, b: real) {
    forall i :: 0 <= i < |p| ==> p[i].value == a * p[i].time + b
  }

  lemma ResidualAt(x: DataPoint, a: real, b: real)
    ensures ResidualSquared(a, b)(x) >= 0.0
    ensures ResidualSquared(a, b)(x) == 0.0 <==> x.value == a * x.time + b
  {
    var e := x.value - (a * x.time + b);
    assert ResidualSquared(a, b)(x) == e * e;
    hide *;
    ZeroOnlyAtZero(e);
  }

  /** A line misses nothing exactly when all readings lie on it. */
  lemma NothingMissed(p: seq<DataPoint>, a: real, b: real)
    ensures SquaredError(p, a, b) == 0.0 <==> OnLine(p, a, b)
  {
    hide SumOf, ResidualSquared;
    forall i | 0 <= i < |p|
      ensures ResidualSquared(a, b)(p[i]) >= 0.0
      ensures ResidualSquared(a, b)(p[i]) == 0.0 <==> p[i].value == a * p[i].time + b
    {
      ResidualAt(p[i], a, b);
    }
    if SquaredError(p, a, b) == 0.0 {
      forall i | 0 <= i < |p| ensures p[i].value == a * p[i].time + b {
        SumOfSquaresZero(p, ResidualSquared(a, b), i);
      }
    } else if OnLine(p, a, b) {
      NoError(p, a, b);
    }
  }

  lemma NoError(p: seq<DataPoint>, a: real, b: real)
    requires forall i :: 0 <= i < |p| ==> ResidualSquared(a, b)(p[i]) == 0.0
    ensures SquaredError(p, a, b) == 0.0
  {
    hide SumOf, ResidualSquared;
    SumOfMonotone(p, ResidualSquared(a, b), Constant(0.0));
    SumOfConstant(p, 0.0);
    SquaredErrorNonNegative(p, a, b);
  }

  lemma QualityIs(p: seq<DataPoint>, n: real, m: real)
    requires LinearRegression(p).Some? && n == |p| as real && m == SumOf(p, Value()) / n
    ensures var line, total := LinearRegression(p).value, SquaredError(p, 0.0, m);
            line.rSquared
            == if Abs(total) < GUARD then 1.0 else 1.0 - SquaredError(p, line.slope, line.intercept) / total
  {
    hide SumOf, SquaredError, FittedSlope, FittedIntercept;
  }

  lemma GuardScaled(n: real, total: real, variation: real)
    requires n > 0.0 && total >= 0.0 && n * total == variation
    ensures Abs(total) < GUARD <==> variation < n * 0.0000000001
  {
    if variation < n * 0.0000000001 {
      CancelFactorStrict(total, 0.0000000001, n);
    } else {
      CancelFactor(0.0000000001, total, n);
    }
  }

  lemma GuardIs(p: seq<DataPoint>, n: real, total: real)
    requires n == |p| as real && n > 0.0 && total >= 0.0 && n * total == Variation(p)
    ensures Abs(total) < GUARD <==> HardlyVary(p, n)
  {
    hide Variation, Abs, GUARD;
    GuardScaled(n, total, Variation(p));
  }

  /**
   R-squared is the squared correlation of times and values, and 1 exactly when all readings lie on the
   fitted line; when the values hardly vary it is 1 in any case.
   */
  lemma RSquaredIsCorrelation(p: seq<DataPoint>)
    requires LinearRegression(p).Some?
    ensures var line := LinearRegression(p).value;
            if HardlyVary(p, |p| as real) then line.rSquared == 1.0
            else
              && IsSquaredCorrelation(line.rSquared, p)
              && (line.rSquared == 1.0 <==> OnLine(p, line.slope, line.intercept))
  {
    hide *;
    var n', d, a, b := FittedEquations(p);
    var m := SumOf(p, Value()) / |p| as real;
    DivideThenMultiply(SumOf(p, Value()), |p| as real);
    QualityIs(p, |p| as real, m);
    QualityMeans(p, |p| as real, m, a, b);
    NothingMissed(p, a, b);
  }

  lemma QualityMeans(p: seq<DataPoint>, n: real, m: real, a: real, b: real)
    requires LinearRegression(p).Some? && n == |p| as real && n * m == SumOf(p, Value()) && n > 0.0
    requires a == LinearRegression(p).value.slope && b == LinearRegression(p).value.intercept
    requires var total := SquaredError(p, 0.0, m);
             LinearRegression(p).value.rSquared
             == if Abs(total) < GUARD then 1.0 else 1.0 - SquaredError(p, a, b) / total
    ensures HardlyVary(p, n) ==> LinearRegression(p).value.rSquared == 1.0
    ensures !HardlyVary(p, n) ==> IsSquaredCorrelation(LinearRegression(p).value.rSquared, p)
    ensures !HardlyVary(p, n) ==> (LinearRegression(p).value.rSquared == 1.0 <==> SquaredError(p, a, b) == 0.0)
  {
    hide *;
    var total := SquaredError(p, 0.0, m);
    CovariationIs(p, n);
    TotalErrorIs(p, n, m);
    SquaredErrorNonNegative(p, 0.0, m);
    GuardIs(p, n, total);
    AbsOfZero(total);
    if !HardlyVary(p, n) {
      ExplainedIs(p, n, m, a, b);
      QualityOf(p, LinearRegression(p).value.rSquared, total, SquaredError(p, a, b), n);
    }
  }

  lemma AbsOfZero(x: real)
    ensures Abs(x) >= GUARD ==> x != 0.0
  {
  }

  /** The regression exists exactly from three readings on, when their times are spread beyond the guard. */
  lemma RegressionExistsExactly(p: seq<DataPoint>)
    ensures LinearRegression(p).Some?
       <==> |p| >= 3 && |p| as real * SumOf(p, TimeSquared()) - SumOf(p, Time()) * SumOf(p, Time()) >= 0.0000000001
  {
    DenominatorNonNegative(p);
    DenominatorEquation(p, |p| as real);
    hide SumOf, Denominator, FittedSlope, FittedIntercept, FitQuality;
  }

  // ---------- Readings five seconds apart ----------

  const STEP: real := 5.0

  ghost predicate EvenlySpaced(p: seq<DataPoint>) {
    forall i :: 0 < i < |p| ==> p[i].time == p[i - 1].time + STEP
  }

  lemma SpacingStep(n: real, start: real, t: real, tt: real, x: real, n': real, t': real, tt': real)
    requires t == n * start + 2.5 * n * (n - 1.0)
    requires tt == n * start * start + 5.0 * start * n * (n - 1.0) + 25.0 * n * (n - 1.0) * (2.0 * n - 1.0) / 6.0
    requires x == start + 5.0 * n && n' == n + 1.0 && t' == t + x && tt' == tt + x * x
    ensures t' == n' * start + 2.5 * n' * (n' - 1.0)
    ensures tt' == n' * start * start + 5.0 * start * n' * (n' - 1.0) + 25.0 * n' * (n' - 1.0) * (2.0 * n' - 1.0) / 6.0
  {
    assert x * x == start * start + 10.0 * (start * n) + 25.0 * (n * n);
  }

  lemma {:induction false} LastTime(p: seq<DataPoint>)
    requires EvenlySpaced(p) && |p| > 0
    ensures p[|p| - 1].time == p[0].time + 5.0 * (|p| as real - 1.0)
  {
    if |p| == 1 {
    } else {
      LastTime(p[..|p| - 1]);
    }
  }

  lemma SumsOfSnoc(p: seq<DataPoint>)
    requires |p| > 0
    ensures SumOf(p, Time()) == SumOf(p[..|p| - 1], Time()) + p[|p| - 1].time
    ensures SumOf(p, TimeSquared()) == SumOf(p[..|p| - 1], TimeSquared()) + p[|p| - 1].time * p[|p| - 1].time
  {
  }

  lemma SumsOfNone(p: seq<DataPoint>)
    requires |p| == 0
    ensures SumOf(p, Time()) == 0.0 && SumOf(p, TimeSquared()) == 0.0
  {
  }

  /** Closed forms for the sums of the times and of their squares. */
  lemma {:induction false} SpacedSums(p: seq<DataPoint>, n: real, start: real)
    requires EvenlySpaced(p) && n == |p| as real && (|p| > 0 ==> start == p[0].time)
    ensures SumOf(p, Time()) == n * start + 2.5 * n * (n - 1.0)
    ensures SumOf(p, TimeSquared())
         == n * start * start + 5.0 * start * n * (n - 1.0) + 25.0 * n * (n - 1.0) * (2.0 * n - 1.0) / 6.0
  {
    if |p| == 0 {
      SumsOfNone(p);
    } else {
      var p', m := p[..|p| - 1], n - 1.0;
      LastTime(p);
      SumsOfSnoc(p);
      assert EvenlySpaced(p');
      hide *;
      SpacedSums(p', m, start);
      SpacingStep(m, start, SumOf(p', Time()), SumOf(p', TimeSquared()), p[|p| - 1].time,
                  n, SumOf(p, Time()), SumOf(p, TimeSquared()));
    }
  }

  lemma SpacedDenominatorAlgebra(n: real, start: real, t: real, tt: real)
    requires t == n * start + 2.5 * n * (n - 1.0)
    requires tt == n * start * start + 5.0 * start * n * (n - 1.0) + 25.0 * n * (n - 1.0) * (2.0 * n - 1.0) / 6.0
    ensures n * tt - t * t == 25.0 * (n * n) * (n * n - 1.0) / 12.0
  {
  }

  /** The denominator depends on the number of readings alone, wherever the window starts. */
  lemma SpacedDenominator(p: seq<DataPoint>, n: real)
    requires EvenlySpaced(p) && n == |p| as real
    ensures Denominator(p) == 25.0 * (n * n) * (n * n - 1.0) / 12.0
  {
    var start := if |p| > 0 then p[0].time else 0.0;
    SpacedSums(p, n, start);
    DenominatorEquation(p, n);
    hide *;
    SpacedDenominatorAlgebra(n, start, SumOf(p, Time()), SumOf(p, TimeSquared()));
  }

  lemma DenominatorLarge(n: real, d: real)
    requires n >= 3.0 && d == 25.0 * (n * n) * (n * n - 1.0) / 12.0
    ensures d >= 150.0
  {
    var n2 := n * n;
    assert n2 >= 9.0;
    assert n2 * (n2 - 1.0) >= 9.0 * 8.0;
  }

  /** So on evenly spaced readings the regression exists exactly when there are three of them. */
  lemma SpacedRegressionExists(p: seq<DataPoint>)
    requires EvenlySpaced(p)
    ensures LinearRegression(p).Some? <==> |p| >= 3
  {
    if |p| >= 3 {
      SpacedDenominator(p, |p| as real);
      DenominatorLarge(|p| as real, Denominator(p));
      hide SumOf, Denominator, FittedSlope, FittedIntercept, FitQuality;
    }
  }
}
