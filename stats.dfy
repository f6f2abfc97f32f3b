/**
 * Sample statistics over exact reals: sum, mean, sample variance (ddof = 1),
 * sample standard deviation, Pearson correlation and decimal rounding.
 * Dafny's reals have no square root, so the standard deviation and the
 * correlation take the square root as a parameter `sqrt`; lemmas that need
 * to know what it computes require `IsSqrt(sqrt)`.
 */
module Stats {
  import opened Wrappers

  /**
   * What the model relies on of the square root: the root of zero is zero and
   * the root of a positive number is the positive number whose square it is.
   */
  ghost predicate IsSqrt(sqrt: real -> real) {
    && sqrt(0.0) == 0.0
    && forall v :: 0.0 < v ==> 0.0 < sqrt(v) && sqrt(v) * sqrt(v) == v
  }

  function Sum(xs: seq<real>): real {
    if xs == [] then 0.0 else xs[0] + Sum(xs[1..])
  }

  /** The arithmetic mean; undefined (NaN in pandas) for no values. */
  function Mean(xs: seq<real>): (m: Option<real>)
    ensures m.Some? <==> |xs| > 0
    ensures m.Some? ==> m.value * |xs| as real == Sum(xs)
  {
    if |xs| == 0 then None else Some(Sum(xs) / |xs| as real)
  }

  /**
   * `a` times `b`. Products are kept behind this name so that the solver treats
   * them as terms; a quotient of `a` by `b` is a `q` with `Times(q, b) == a`.
   */
  function Times(a: real, b: real): real {
    a * b
  }

  function Sq(d: real): real {
    Times(d, d)
  }

  /** The sum of squared deviations from `m`. */
  function SquaredDeviations(xs: seq<real>, m: real): real {
    if xs == [] then 0.0 else Sq(xs[0] - m) + SquaredDeviations(xs[1..], m)
  }

  /** The sum of products of paired deviations from `mx` and `my`. */
  function CrossDeviations(xs: seq<real>, ys: seq<real>, mx: real, my: real): real
    requires |xs| == |ys|
  {
    if xs == [] then 0.0 else (xs[0] - mx) * (ys[0] - my) + CrossDeviations(xs[1..], ys[1..], mx, my)
  }

  /** The sample variance (ddof = 1): undefined for fewer than two values. */
  function SampleVariance(xs: seq<real>): (v: Option<real>)
    ensures v.Some? <==> |xs| >= 2
  {
    if |xs| < 2 then None
    else Some(SquaredDeviations(xs, Sum(xs) / |xs| as real) / (|xs| - 1) as real)
  }

  /** The sample standard deviation: undefined for fewer than two values. */
  function SampleStd(xs: seq<real>, sqrt: real -> real): (sd: Option<real>)
    ensures sd.Some? <==> |xs| >= 2
  {
    match SampleVariance(xs)
    case None => None
    case Some(v) => Some(sqrt(v))
  }

  /** All values are equal. */
  predicate Constant(xs: seq<real>) {
    forall i | 0 <= i < |xs| :: xs[i] == xs[0]
  }

  lemma {:induction false} SumOfConstant(xs: seq<real>, c: real)
    requires forall i | 0 <= i < |xs| :: xs[i] == c
    ensures Sum(xs) == |xs| as real * c
  {
    if xs != [] {
      SumOfConstant(xs[1..], c);
    }
  }

  lemma {:induction false} SquaredDeviationsOfConstant(xs: seq<real>, m: real)
    requires forall i | 0 <= i < |xs| :: xs[i] == m
    ensures SquaredDeviations(xs, m) == 0.0
  {
    if xs != [] {
      SquaredDeviationsOfConstant(xs[1..], m);
    }
  }

  /** Equal values have zero sample variance, hence zero standard deviation. */
  lemma ConstantHasZeroStd(xs: seq<real>, sqrt: real -> real)
    requires IsSqrt(sqrt) && |xs| >= 2 && Constant(xs)
    ensures SampleStd(xs, sqrt) == Some(0.0)
  {
    SumOfConstant(xs, xs[0]);
    var m := Sum(xs) / |xs| as real;
    assert m == xs[0];
    SquaredDeviationsOfConstant(xs, m);
  }

  /**
   * The Pearson correlation of paired samples; undefined (NaN in pandas) when
   * there are no pairs or either sample has zero spread.
   */
  function Pearson(xs: seq<real>, ys: seq<real>, sqrt: real -> real): (r: Option<real>)
    requires |xs| == |ys|
    ensures r.Some? ==> |xs| > 0
  {
    if |xs| == 0 then None
    else
      var mx := Sum(xs) / |xs| as real;
      var my := Sum(ys) / |ys| as real;
      var d := sqrt(SquaredDeviations(xs, mx)) * sqrt(SquaredDeviations(ys, my));
      if d == 0.0 then None else Some(CrossDeviations(xs, ys, mx, my) / d)
  }

  /** A constant sample has no correlation (NaN in pandas). */
  lemma ConstantHasNoCorrelation(xs: seq<real>, ys: seq<real>, sqrt: real -> real)
    requires IsSqrt(sqrt) && |xs| == |ys| && |xs| > 0
    requires Constant(xs) || Constant(ys)
    ensures Pearson(xs, ys, sqrt) == None
  {
    var mx := Sum(xs) / |xs| as real;
    var my := Sum(ys) / |ys| as real;
    if Constant(xs) {
      SumOfConstant(xs, xs[0]);
      assert mx == xs[0];
      SquaredDeviationsOfConstant(xs, mx);
    } else {
      SumOfConstant(ys, ys[0]);
      assert my == ys[0];
      SquaredDeviationsOfConstant(ys, my);
    }
  }

  /** Factors of equal sign give a positive product. */
  lemma TimesPositive(a: real, b: real)
    requires (a > 0.0 && b > 0.0) || (a < 0.0 && b < 0.0)
    ensures Times(a, b) > 0.0
  {}

  /** A square is never negative, and positive unless its root is zero. */
  lemma Square(d: real)
    ensures Sq(d) >= 0.0
    ensures d != 0.0 ==> Sq(d) > 0.0
  {
    if d != 0.0 {
      TimesPositive(d, d);
    }
  }

  lemma {:induction false} SquaredDeviationsNonNegative(xs: seq<real>, m: real)
    ensures SquaredDeviations(xs, m) >= 0.0
  {
    if xs != [] {
      SquaredDeviationsNonNegative(xs[1..], m);
      Square(xs[0] - m);
    }
  }

  /** Squared deviations add up to nothing only when every value is `m`. */
  lemma {:induction false} NoSpreadMeansAllEqual(xs: seq<real>, m: real)
    requires SquaredDeviations(xs, m) == 0.0
    ensures forall i | 0 <= i < |xs| :: xs[i] == m
  {
    if xs != [] {
      SquaredDeviationsNonNegative(xs[1..], m);
      var d := xs[0] - m;
      Square(d);
      NoSpreadMeansAllEqual(xs[1..], m);
      forall i | 0 <= i < |xs| ensures xs[i] == m {
        if i > 0 {
          assert xs[i] == xs[1..][i - 1];
        }
      }
    }
  }

  /** A sample has zero spread about its mean exactly when its values are all equal. */
  lemma SpreadOfConstant(xs: seq<real>)
    requires |xs| > 0
    ensures SquaredDeviations(xs, Sum(xs) / |xs| as real) >= 0.0
    ensures SquaredDeviations(xs, Sum(xs) / |xs| as real) == 0.0 <==> Constant(xs)
  {
    var m := Sum(xs) / |xs| as real;
    SquaredDeviationsNonNegative(xs, m);
    if Constant(xs) {
      SumOfConstant(xs, xs[0]);
      assert m == xs[0];
      SquaredDeviationsOfConstant(xs, m);
    }
    if SquaredDeviations(xs, m) == 0.0 {
      NoSpreadMeansAllEqual(xs, m);
    }
  }

  /**
   * The correlation is defined exactly when there is a pair and neither
   * sample is constant (so at least two pairs): pandas gives NaN otherwise.
   */
  lemma PearsonDefined(xs: seq<real>, ys: seq<real>, sqrt: real -> real)
    requires IsSqrt(sqrt) && |xs| == |ys|
    ensures Pearson(xs, ys, sqrt).Some? <==> |xs| > 0 && !Constant(xs) && !Constant(ys)
    ensures Pearson(xs, ys, sqrt).Some? ==> |xs| >= 2
  {
    if |xs| > 0 {
      SpreadOfConstant(xs);
      SpreadOfConstant(ys);
      var sx := sqrt(SquaredDeviations(xs, Sum(xs) / |xs| as real));
      var sy := sqrt(SquaredDeviations(ys, Sum(ys) / |ys| as real));
      if !Constant(xs) && !Constant(ys) {
        assert sx > 0.0 && sy > 0.0;
        assert sx * sy > 0.0;
      }
      if |xs| == 1 {
        assert Constant(xs);
      }
    }
  }

  function Pow10(d: nat): (p: real)
    ensures p >= 1.0
  {
    if d == 0 then 1.0 else 10.0 * Pow10(d - 1)
  }

  /** The integer nearest to `x`, ties to the even one (numpy's rounding rule). */
  function RoundHalfEven(x: real): (k: int)
    ensures -0.5 <= k as real - x <= 0.5
  {
    var f := x.Floor;
    var frac := x - f as real;
    if frac < 0.5 then f
    else if frac > 0.5 then f + 1
    else if f % 2 == 0 then f
    else f + 1
  }

  /** `np.round(x, d)` on exact reals: within half a unit of the last kept digit. */
  function Round(x: real, d: nat): (r: real)
    ensures -0.5 <= (r - x) * Pow10(d) <= 0.5
  {
    var p := Pow10(d);
    var k := RoundHalfEven(x * p);
    var r := k as real / p;
    assert r * p == k as real;
    assert (r - x) * p == r * p - x * p;
    r
  }
}
