/**
 * The stress score: each feature is standardised (z-scored) over the whole
 * history, the three z-scores are blended with weights, and every row is
 * labelled Normal, Stress or Extreme by two thresholds.
 */
module Scoring {
  import opened Wrappers
  import opened Frame
  import opened Stats
  import opened Seqs

  // ---------------------------------------------------------------- z-score

  /** The standard deviation of the finite values is undefined (fewer than two) or zero. */
  predicate Degenerate(s: Series, sqrt: real -> real) {
    var sd := SampleStd(Finite(s), sqrt);
    sd.None? || sd.value == 0.0
  }

  /** `(x - mu) / sigma` for every finite entry; missing entries stay missing. */
  function Standardize(s: Series, mu: real, sigma: real): (z: Series)
    requires sigma != 0.0
    ensures |z| == |s|
    ensures forall i | 0 <= i < |s| :: z[i].Some? <==> s[i].Some?
    ensures forall i | 0 <= i < |s| :: s[i].Some? ==> z[i].value * sigma + mu == s[i].value
  {
    seq(|s|, i requires 0 <= i < |s| => if s[i].Some? then Some((s[i].value - mu) / sigma) else None)
  }

  /** Standardisation by an optional mean and standard deviation, zeros when the deviation is missing or zero. */
  function Normalise(s: Series, mu: Option<real>, sd: Option<real>): (z: Series)
    requires sd.Some? ==> mu.Some?
    ensures |z| == |s|
    ensures sd.None? || sd.value == 0.0 ==> forall i | 0 <= i < |z| :: z[i] == Some(0.0)
    ensures sd.Some? && sd.value != 0.0 ==>
      forall i | 0 <= i < |z| :: (z[i].Some? <==> s[i].Some?) && (s[i].Some? ==> z[i].value * sd.value + mu.value == s[i].value)
  {
    if sd.None? || sd.value == 0.0 then seq(|s|, _ => Some(0.0))
    else Standardize(s, mu.value, sd.value)
  }

  /**
   * The stable z-score: infinities count as missing, an undefined or zero
   * standard deviation gives a series of zeros (missing rows included),
   * otherwise each finite entry is standardised by the sample mean and the
   * sample standard deviation of the finite entries, so that scaling the
   * z-score back and adding the mean recovers the entry.
   */
  function ZScore(s: Series, sqrt: real -> real): (z: Series)
    ensures |z| == |s|
    ensures Degenerate(s, sqrt) ==> forall i | 0 <= i < |z| :: z[i] == Some(0.0)
    ensures !Degenerate(s, sqrt) ==> forall i | 0 <= i < |z| :: z[i].Some? <==> s[i].Some?
    ensures !Degenerate(s, sqrt) ==>
      var mu, sigma := Mean(Finite(s)).value, SampleStd(Finite(s), sqrt).value;
      forall i | 0 <= i < |z| && s[i].Some? :: z[i].value * sigma + mu == s[i].value
  {
    Normalise(s, Mean(Finite(s)), SampleStd(Finite(s), sqrt))
  }

  /** The finite values shifted by `mu` and scaled by `1 / sigma`, in order. */
  function Centered(xs: seq<real>, mu: real, sigma: real): (ys: seq<real>)
    requires sigma != 0.0
    ensures |ys| == |xs|
  {
    if xs == [] then [] else [(xs[0] - mu) / sigma] + Centered(xs[1..], mu, sigma)
  }

  lemma {:induction false} FiniteOfStandardize(s: Series, mu: real, sigma: real)
    requires sigma != 0.0
    ensures Finite(Standardize(s, mu, sigma)) == Centered(Finite(s), mu, sigma)
    decreases |s|
  {
    if s != [] {
      var z := Standardize(s, mu, sigma);
      assert z[1..] == Standardize(s[1..], mu, sigma);
      FiniteOfStandardize(s[1..], mu, sigma);
      if s[0].Some? {
        assert Finite(s) == [s[0].value] + Finite(s[1..]);
      } else {
        assert Finite(s) == Finite(s[1..]);
      }
    }
  }

  lemma {:induction false} SumOfCentered(xs: seq<real>, mu: real, sigma: real)
    requires sigma != 0.0
    ensures Sum(Centered(xs, mu, sigma)) * sigma == Sum(xs) - |xs| as real * mu
  {
    if xs != [] {
      SumOfCentered(xs[1..], mu, sigma);
      var head := (xs[0] - mu) / sigma;
      var tail := Sum(Centered(xs[1..], mu, sigma));
      assert head * sigma == xs[0] - mu;
      assert (head + tail) * sigma == head * sigma + tail * sigma;
    }
  }

  /** In the non-degenerate case the finite z-scores sum to zero. */
  lemma ZScoreIsCentered(s: Series, sqrt: real -> real)
    requires !Degenerate(s, sqrt)
    ensures Sum(Finite(ZScore(s, sqrt))) == 0.0
  {
    var xs := Finite(s);
    StandardizeIsCentered(s, Mean(xs).value, SampleStd(xs, sqrt).value);
  }

  /** Standardising by the mean of the finite values leaves finite values that sum to zero. */
  lemma StandardizeIsCentered(s: Series, mu: real, sigma: real)
    requires sigma != 0.0 && mu * |Finite(s)| as real == Sum(Finite(s))
    ensures Sum(Finite(Standardize(s, mu, sigma))) == 0.0
  {
    var xs := Finite(s);
    var cs := Centered(xs, mu, sigma);
    CenteredAtMean(xs, mu, sigma);
    assert Sum(cs) == 0.0;
    FiniteOfStandardize(s, mu, sigma);
    assert Finite(Standardize(s, mu, sigma)) == cs;
  }

  /** Finite values shifted by their own mean sum to zero, whatever the scale. */
  lemma CenteredAtMean(xs: seq<real>, mu: real, sigma: real)
    requires sigma != 0.0 && mu * |xs| as real == Sum(xs)
    ensures Sum(Centered(xs, mu, sigma)) == 0.0
  {
    SumOfCentered(xs, mu, sigma);
    NoDeviationLeft(Sum(Centered(xs, mu, sigma)), sigma, Sum(xs), |xs| as real, mu);
  }

  /** Deviations from the mean, scaled by a nonzero factor, add up to nothing. */
  lemma NoDeviationLeft(c: real, sigma: real, total: real, n: real, mu: real)
    requires sigma != 0.0 && mu * n == total && c * sigma == total - n * mu
    ensures c == 0.0
  {
    assert c * sigma == 0.0;
    assert c == c * sigma / sigma;
  }

  /** A feature whose finite values are all equal (or that has fewer than two) contributes zeros. */
  lemma ConstantFeatureIsNeutral(s: Series, sqrt: real -> real)
    requires IsSqrt(sqrt) && Constant(Finite(s))
    ensures Degenerate(s, sqrt)
    ensures forall i | 0 <= i < |s| :: ZScore(s, sqrt)[i] == Some(0.0)
  {
    if |Finite(s)| >= 2 {
      ConstantHasZeroStd(Finite(s), sqrt);
    }
  }

  // ---------------------------------------------------------- stress score

  /** The feature columns the stress score needs, in the order they are reported when absent. */
  const StressInputs: seq<string> := ["volatility", "vol_shock", "liq_proxy"]

  /** The weights the stress score uses unless the caller gives others. */
  const DefaultVolWeight: real := 0.4
  const DefaultShockWeight: real := 0.4
  const DefaultLiqWeight: real := 0.2

  /** The weighted sum of the three z-scores, row by row; missing wherever one of them is. */
  function Blend(zVol: Series, zShock: Series, zLiq: Series, wVol: real, wShock: real, wLiq: real): (score: Series)
    requires |zShock| == |zVol| && |zLiq| == |zVol|
    ensures |score| == |zVol|
    ensures forall i | 0 <= i < |score| :: score[i].Some? <==> zVol[i].Some? && zShock[i].Some? && zLiq[i].Some?
    ensures forall i | 0 <= i < |score| && score[i].Some? ::
      score[i].value == wVol * zVol[i].value + wShock * zShock[i].value + wLiq * zLiq[i].value
  {
    seq(|zVol|, i requires 0 <= i < |zVol| =>
      if zVol[i].Some? && zShock[i].Some? && zLiq[i].Some?
      then Some(wVol * zVol[i].value + wShock * zShock[i].value + wLiq * zLiq[i].value)
      else None)
  }

  /**
   * The default weights are non-negative and add up to one, so a present
   * default score is an average of its three z-scores: it lies between the
   * smallest and the largest of them.
   */
  lemma DefaultBlendIsAverage(zVol: Series, zShock: Series, zLiq: Series, i: nat)
    requires |zShock| == |zVol| && |zLiq| == |zVol| && i < |zVol|
    requires zVol[i].Some? && zShock[i].Some? && zLiq[i].Some?
    ensures DefaultVolWeight >= 0.0 && DefaultShockWeight >= 0.0 && DefaultLiqWeight >= 0.0
    ensures DefaultVolWeight + DefaultShockWeight + DefaultLiqWeight == 1.0
    ensures var score := Blend(zVol, zShock, zLiq, DefaultVolWeight, DefaultShockWeight, DefaultLiqWeight);
      var a, b, c := zVol[i].value, zShock[i].value, zLiq[i].value;
      && score[i].Some?
      && (score[i].value >= a || score[i].value >= b || score[i].value >= c)
      && (score[i].value <= a || score[i].value <= b || score[i].value <= c)
      && (a == b == c ==> score[i].value == a)
  {
    var score := Blend(zVol, zShock, zLiq, DefaultVolWeight, DefaultShockWeight, DefaultLiqWeight);
    assert score[i].value == 0.4 * zVol[i].value + 0.4 * zShock[i].value + 0.2 * zLiq[i].value;
  }

  /**
   * `compute_stress_score`: fails with the list of absent feature columns
   * when any is absent; otherwise appends the three z-scores and their
   * weighted blend.
   */
  function ComputeStressScore(t: Table, wVol: real, wShock: real, wLiq: real, sqrt: real -> real): (r: Result<Table, Error>)
    requires t.Valid()
    ensures (r.Err? && r.error.MissingColumns?) <==>
      "volatility" !in t.columns || "vol_shock" !in t.columns || "liq_proxy" !in t.columns
    ensures r.Err? && r.error.MissingColumns? ==>
      && SubsequenceOf(r.error.names, StressInputs)
      && forall i | 0 <= i < |StressInputs| :: StressInputs[i] in r.error.names <==> StressInputs[i] !in t.columns
    ensures r.Ok? <==> HasNumeric(t, "volatility") && HasNumeric(t, "vol_shock") && HasNumeric(t, "liq_proxy")
    ensures r.Ok? ==>
      var zVol := ZScore(t.columns["volatility"].values, sqrt);
      var zShock := ZScore(t.columns["vol_shock"].values, sqrt);
      var zLiq := ZScore(t.columns["liq_proxy"].values, sqrt);
      && Extends(t, r.value, {"vol_z", "volshock_z", "liq_z", "stress_score"})
      && r.value.columns["vol_z"] == Numeric(zVol)
      && r.value.columns["volshock_z"] == Numeric(zShock)
      && r.value.columns["liq_z"] == Numeric(zLiq)
      && r.value.columns["stress_score"] == Numeric(Blend(zVol, zShock, zLiq, wVol, wShock, wLiq))
  {
    var missing := MissingInputs(t);
    if missing != [] then
      Err(MissingColumns(missing))
    else
      var vol :- NumericColumn(t, "volatility");
      var shock :- NumericColumn(t, "vol_shock");
      var liq :- NumericColumn(t, "liq_proxy");
      Ok(AppendScores(t, ZScore(vol, sqrt), ZScore(shock, sqrt), ZScore(liq, sqrt), wVol, wShock, wLiq))
  }

  /** The absent feature columns, in the order of `StressInputs` (the list comprehension of the source). */
  function MissingInputs(t: Table): (missing: seq<string>)
    ensures SubsequenceOf(missing, StressInputs)
    ensures forall i | 0 <= i < |StressInputs| :: StressInputs[i] in missing <==> StressInputs[i] !in t.columns
    ensures missing == [] <==> "volatility" in t.columns && "vol_shock" in t.columns && "liq_proxy" in t.columns
  {
    var missing := Filter(StressInputs, (c: string) => c !in t.columns);
    assert forall i | 0 <= i < |missing| :: missing[i] in StressInputs && missing[i] !in t.columns;
    assert StressInputs[0] == "volatility" && StressInputs[1] == "vol_shock" && StressInputs[2] == "liq_proxy";
    missing
  }

  /** Appends the three z-score columns and the stress score blended from them. */
  function AppendScores(t: Table, zVol: Series, zShock: Series, zLiq: Series, wVol: real, wShock: real, wLiq: real): (u: Table)
    requires t.Valid() && |zVol| == t.Rows() && |zShock| == t.Rows() && |zLiq| == t.Rows()
    ensures Extends(t, u, {"vol_z", "volshock_z", "liq_z", "stress_score"})
    ensures u.columns["vol_z"] == Numeric(zVol)
    ensures u.columns["volshock_z"] == Numeric(zShock)
    ensures u.columns["liq_z"] == Numeric(zLiq)
    ensures u.columns["stress_score"] == Numeric(Blend(zVol, zShock, zLiq, wVol, wShock, wLiq))
  {
    var withVol := WithColumn(t, "vol_z", Numeric(zVol));
    var withShock := WithColumn(withVol, "volshock_z", Numeric(zShock));
    var withLiq := WithColumn(withShock, "liq_z", Numeric(zLiq));
    WithColumn(withLiq, "stress_score", Numeric(Blend(zVol, zShock, zLiq, wVol, wShock, wLiq)))
  }

  /** When no feature has spread (all constant, or too short), the stress score is zero in every row. */
  lemma FlatFeaturesGiveZeroScore(t: Table, wVol: real, wShock: real, wLiq: real, sqrt: real -> real)
    requires t.Valid() && ComputeStressScore(t, wVol, wShock, wLiq, sqrt).Ok?
    requires Degenerate(t.columns["volatility"].values, sqrt)
    requires Degenerate(t.columns["vol_shock"].values, sqrt)
    requires Degenerate(t.columns["liq_proxy"].values, sqrt)
    ensures var u := ComputeStressScore(t, wVol, wShock, wLiq, sqrt).value;
      forall k | 0 <= k < t.Rows() :: u.columns["stress_score"].values[k] == Some(0.0)
  {
    var u := ComputeStressScore(t, wVol, wShock, wLiq, sqrt).value;
    var zVol := ZScore(t.columns["volatility"].values, sqrt);
    var zShock := ZScore(t.columns["vol_shock"].values, sqrt);
    var zLiq := ZScore(t.columns["liq_proxy"].values, sqrt);
    assert u.columns["stress_score"].values == Blend(zVol, zShock, zLiq, wVol, wShock, wLiq);
    forall k | 0 <= k < t.Rows()
      ensures u.columns["stress_score"].values[k] == Some(0.0)
    {
      assert zVol[k] == Some(0.0) && zShock[k] == Some(0.0) && zLiq[k] == Some(0.0);
      assert Blend(zVol, zShock, zLiq, wVol, wShock, wLiq)[k] == Some(wVol * 0.0 + wShock * 0.0 + wLiq * 0.0);
    }
  }

  /** A row's stress score is missing exactly when a feature with spread is missing in that row. */
  lemma StressScoreMissing(t: Table, wVol: real, wShock: real, wLiq: real, sqrt: real -> real, k: nat)
    requires t.Valid() && ComputeStressScore(t, wVol, wShock, wLiq, sqrt).Ok? && k < t.Rows()
    ensures
      var vol, shock, liq := t.columns["volatility"].values, t.columns["vol_shock"].values, t.columns["liq_proxy"].values;
      ComputeStressScore(t, wVol, wShock, wLiq, sqrt).value.columns["stress_score"].values[k].None? <==>
        || (!Degenerate(vol, sqrt) && vol[k].None?)
        || (!Degenerate(shock, sqrt) && shock[k].None?)
        || (!Degenerate(liq, sqrt) && liq[k].None?)
  {
    var vol, shock, liq := t.columns["volatility"].values, t.columns["vol_shock"].values, t.columns["liq_proxy"].values;
    assert |vol| == t.Rows() && |shock| == t.Rows() && |liq| == t.Rows();
    BlendMissing(vol, shock, liq, wVol, wShock, wLiq, sqrt, k);
  }

  /** The series-level fact behind `StressScoreMissing`. */
  lemma BlendMissing(vol: Series, shock: Series, liq: Series, wVol: real, wShock: real, wLiq: real, sqrt: real -> real, k: nat)
    requires |shock| == |vol| && |liq| == |vol| && k < |vol|
    ensures Blend(ZScore(vol, sqrt), ZScore(shock, sqrt), ZScore(liq, sqrt), wVol, wShock, wLiq)[k].None? <==>
      || (!Degenerate(vol, sqrt) && vol[k].None?)
      || (!Degenerate(shock, sqrt) && shock[k].None?)
      || (!Degenerate(liq, sqrt) && liq[k].None?)
  {
    var zVol, zShock, zLiq := ZScore(vol, sqrt), ZScore(shock, sqrt), ZScore(liq, sqrt);
    assert zVol[k].None? <==> !Degenerate(vol, sqrt) && vol[k].None?;
    assert zShock[k].None? <==> !Degenerate(shock, sqrt) && shock[k].None?;
    assert zLiq[k].None? <==> !Degenerate(liq, sqrt) && liq[k].None?;
  }

  // ---------------------------------------------------------------- regimes

  /** The market regime of one row, ordered by severity. */
  datatype Regime = Normal | Stress | Extreme {
    function Rank(): nat {
      match this
      case Normal => 0
      case Stress => 1
      case Extreme => 2
    }

    function Name(): string {
      match this
      case Normal => "Normal"
      case Stress => "Stress"
      case Extreme => "Extreme"
    }
  }

  /** The thresholds the labelling uses unless the caller gives others. */
  const DefaultStressThreshold: real := 1.5
  const DefaultExtremeThreshold: real := 2.5

  /**
   * The label of one row: Normal, overwritten by Stress when the score is
   * above the stress threshold, then by Extreme when it is above the extreme
   * threshold. A missing score compares false and stays Normal.
   */
  function Label(score: Option<real>, stressThr: real, extremeThr: real): (g: Regime)
    ensures g == Extreme <==> score.Some? && score.value > extremeThr
    ensures g == Stress <==> score.Some? && stressThr < score.value <= extremeThr
    ensures g == Normal <==> score.None? || (score.value <= stressThr && score.value <= extremeThr)
  {
    var afterStress := if score.Some? && score.value > stressThr then Stress else Normal;
    if score.Some? && score.value > extremeThr then Extreme else afterStress
  }

  /** With the default thresholds: Normal up to 1.5, Stress in (1.5, 2.5], Extreme above 2.5. */
  lemma DefaultBands(x: real)
    ensures Label(Some(x), DefaultStressThreshold, DefaultExtremeThreshold) ==
      (if x > 2.5 then Extreme else if x > 1.5 then Stress else Normal)
  {
  }

  /** A higher score never gets a milder label, whatever the two thresholds. */
  lemma LabelMonotone(a: real, b: real, stressThr: real, extremeThr: real)
    requires a <= b
    ensures Label(Some(a), stressThr, extremeThr).Rank() <= Label(Some(b), stressThr, extremeThr).Rank()
  {
  }

  /** A missing score gets the mildest label. */
  lemma MissingIsMildest(x: Option<real>, stressThr: real, extremeThr: real)
    ensures Label(None, stressThr, extremeThr).Rank() <= Label(x, stressThr, extremeThr).Rank()
  {
  }

  /** The regime name of every row, each from that row's score alone. */
  function RegimeNames(score: Series, stressThr: real, extremeThr: real): (names: seq<string>)
    ensures |names| == |score|
    ensures forall i | 0 <= i < |score| :: names[i] == Label(score[i], stressThr, extremeThr).Name()
  {
    seq(|score|, i requires 0 <= i < |score| => Label(score[i], stressThr, extremeThr).Name())
  }

  /**
   * `add_regime` with its two cutoffs as parameters: fills the regime column
   * with Normal, then reads the score column, overwrites the rows whose score
   * is above the stress threshold, then those above the extreme threshold.
   * Scoring the regime column itself compares the Normal labels with a
   * number, which fails.
   */
  method AddRegime(t: Table, stressCol: string, stressThr: real, extremeThr: real) returns (r: Result<Table, Error>)
    requires t.Valid()
    ensures r.Ok? <==> HasNumeric(t, stressCol) && stressCol != "regime"
    ensures r.Err? ==> r.error == (if stressCol == "regime" || stressCol in t.columns then NotNumeric(stressCol) else KeyError([stressCol]))
    ensures r.Ok? ==>
      && Extends(t, r.value, {"regime"})
      && r.value.columns["regime"] == Text(RegimeNames(t.columns[stressCol].values, stressThr, extremeThr))
  {
    var filled := WithColumn(t, "regime", Text(seq(t.Rows(), _ => Normal.Name())));
    assert filled.columns["regime"].Text?;
    assert stressCol != "regime" && stressCol in t.columns ==> filled.columns[stressCol] == t.columns[stressCol];
    var column := NumericColumn(filled, stressCol);
    if column.Err? {
      return Err(column.error);
    }
    var score := column.value;
    assert score == t.columns[stressCol].values;
    var n := |score|;
    var regime := new Regime[n](_ => Normal);
    var i := 0;
    while i < n
      invariant 0 <= i <= n
      invariant forall k | 0 <= k < i :: regime[k] == (if score[k].Some? && score[k].value > stressThr then Stress else Normal)
      invariant forall k | i <= k < n :: regime[k] == Normal
    {
      if score[i].Some? && score[i].value > stressThr {
        regime[i] := Stress;
      }
      i := i + 1;
    }
    i := 0;
    while i < n
      invariant 0 <= i <= n
      invariant forall k | 0 <= k < i :: regime[k] == Label(score[k], stressThr, extremeThr)
      invariant forall k | i <= k < n :: regime[k] == (if score[k].Some? && score[k].value > stressThr then Stress else Normal)
    {
      if score[i].Some? && score[i].value > extremeThr {
        regime[i] := Extreme;
      }
      i := i + 1;
    }
    var names := seq(n, k requires 0 <= k < n reads regime => regime[k].Name());
    assert names == RegimeNames(score, stressThr, extremeThr);
    var u := WithColumn(filled, "regime", Text(names));
    ExtendsTrans(t, filled, u, {"regime"}, {"regime"});
    assert {"regime"} + {"regime"} == {"regime"};
    r := Ok(u);
  }
}
