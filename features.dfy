/**
 * The feature stage: each transform copies the table and appends columns
 * computed from shifted or trailing-window views of existing columns.
 * Nothing here raises on a numeric edge case: a zero divisor, a window that
 * is not yet full or a missing input gives a missing cell. A transform fails
 * only when a column it reads does not exist or does not hold numbers.
 */
module Features {
  import opened Wrappers
  import opened Frame
  import opened Stats

  // ---------------------------------------------------------------------------
  // Cell arithmetic
  // ---------------------------------------------------------------------------

  /**
   * Float division. A zero divisor gives an infinity or NaN in pandas; both are
   * missing here.
   */
  function Divide(a: Option<real>, b: Option<real>): (q: Option<real>)
    ensures q.Some? <==> a.Some? && b.Some? && b.value != 0.0
    ensures q.Some? ==> Times(q.value, b.value) == a.value
  {
    if a.Some? && b.Some? && b.value != 0.0 then Some(a.value / b.value) else None
  }

  function Subtract(a: Option<real>, b: Option<real>): Option<real> {
    if a.Some? && b.Some? then Some(a.value - b.value) else None
  }

  /** `.replace(0, np.nan)`: a zero becomes missing. */
  function ZeroToMissing(a: Option<real>): (r: Option<real>)
    ensures r.Some? <==> a.Some? && a.value != 0.0
    ensures r.Some? ==> r == a
  {
    if a.Some? && a.value == 0.0 then None else a
  }

  /** `base` grown by the relative change `rate`. */
  function Grown(base: real, rate: real): real {
    base * (1.0 + rate)
  }

  /** `x / y - 1`: the relative change from `y` to `x`. */
  function Change(x: Option<real>, y: Option<real>): (r: Option<real>)
    ensures r.Some? <==> x.Some? && y.Some? && y.value != 0.0
    ensures r.Some? ==> Grown(y.value, r.value) == x.value
  {
    var q := Divide(x, y);
    if q.Some? then Some(q.value - 1.0) else None
  }

  // ---------------------------------------------------------------------------
  // Shifts and windows
  // ---------------------------------------------------------------------------

  /** pandas `pct_change(k)`: the relative change from the row k places earlier. */
  function PctChange(s: Series, k: nat): (r: Series)
    ensures |r| == |s|
    ensures forall t {:trigger r[t]} | 0 <= t < |s| ::
      r[t].Some? <==> k <= t && s[t].Some? && s[t - k].Some? && s[t - k].value != 0.0
    ensures forall t {:trigger r[t]} | k <= t < |s| :: r[t].Some? ==> Grown(s[t - k].value, r[t].value) == s[t].value
  {
    seq(|s|, t requires 0 <= t < |s| => if t < k then None else Change(s[t], s[t - k]))
  }

  /**
   * pandas `rolling(w).agg()` with its default `min_periods = w`: the
   * aggregate of the `w` rows ending at row t, missing until `w` rows exist
   * and whenever one of them is missing.
   */
  function Rolling(s: Series, w: nat, agg: seq<real> -> Option<real>): (r: Series)
    ensures |r| == |s|
  {
    seq(|s|, t requires 0 <= t < |s| =>
      if t + 1 < w || !AllPresent(s[t + 1 - w .. t + 1]) then None
      else agg(Finite(s[t + 1 - w .. t + 1])))
  }

  function RollingMean(s: Series, w: nat): (r: Series)
    ensures |r| == |s|
  {
    Rolling(s, w, Mean)
  }

  function RollingStd(s: Series, w: nat, sqrt: real -> real): (r: Series)
    ensures |r| == |s|
  {
    Rolling(s, w, xs => SampleStd(xs, sqrt))
  }

  /** A window value is defined only if the window is full and every entry in it is present. */
  lemma RollingMissing(s: Series, w: nat, agg: seq<real> -> Option<real>, t: nat)
    requires t < |s|
    requires t + 1 < w || exists i :: t + 1 - w <= i <= t && s[i].None?
    ensures Rolling(s, w, agg)[t] == None
  {
    if t + 1 >= w {
      var i :| t + 1 - w <= i <= t && s[i].None?;
      var win := s[t + 1 - w .. t + 1];
      assert win[i - (t + 1 - w)] == s[i];
      assert !AllPresent(win);
    }
  }

  /** Row t of a rolling aggregate depends on rows t-w+1 .. t of the input and on nothing else. */
  lemma RollingDependsOnWindowOnly(a: Series, b: Series, w: nat, agg: seq<real> -> Option<real>, t: nat)
    requires t < |a| && t < |b| && w <= t + 1
    requires a[t + 1 - w .. t + 1] == b[t + 1 - w .. t + 1]
    ensures Rolling(a, w, agg)[t] == Rolling(b, w, agg)[t]
  {
  }

  /** Once full and free of missing entries, the window holds exactly the aggregate of those rows. */
  lemma RollingFullWindow(s: Series, w: nat, agg: seq<real> -> Option<real>, t: nat)
    requires w <= t + 1 && t < |s|
    requires forall i | t + 1 - w <= i <= t :: s[i].Some?
    ensures |Finite(s[t + 1 - w .. t + 1])| == w
    ensures Rolling(s, w, agg)[t] == agg(Finite(s[t + 1 - w .. t + 1]))
  {
    var win := s[t + 1 - w .. t + 1];
    assert forall j | 0 <= j < |win| :: win[j] == s[t + 1 - w + j];
  }

  /**
   * Fed by the one-step return, the rolling standard deviation over `w` rows is
   * missing in the first `w` rows: every window that ends before row `w` holds
   * row 0, whose return is missing.
   */
  lemma VolatilityWarmup(close: Series, w: nat, sqrt: real -> real, t: nat)
    requires t < |close| && t < w
    ensures RollingStd(PctChange(close, 1), w, sqrt)[t] == None
  {
    var ret := PctChange(close, 1);
    if t + 1 >= w {
      assert ret[0] == None;
      RollingMissing(ret, w, xs => SampleStd(xs, sqrt), t);
    }
  }

  // ---------------------------------------------------------------------------
  // Column expressions
  // ---------------------------------------------------------------------------

  /** `Volume / Volume.rolling(w).mean()`. */
  function VolumeShock(volume: Series, w: nat): (r: Series)
    ensures |r| == |volume|
  {
    var denom := RollingMean(volume, w);
    seq(|volume|, t requires 0 <= t < |volume| => Divide(volume[t], denom[t]))
  }

  /**
   * The volume shock is defined exactly when the trailing window is full, has
   * no missing volume and a non-zero mean; it is then the multiple of that
   * mean that the current volume is. A zero mean gives a missing value, not an
   * error.
   */
  lemma VolumeShockAt(volume: Series, w: nat, t: nat)
    requires t < |volume|
    ensures t + 1 < w ==> VolumeShock(volume, w)[t] == None
    ensures w <= t + 1 ==>
      var m := Mean(Finite(volume[t + 1 - w .. t + 1]));
      var shock := VolumeShock(volume, w)[t];
      && (shock.Some? <==> AllPresent(volume[t + 1 - w .. t + 1]) && volume[t].Some? && m.Some? && m.value != 0.0)
      && (shock.Some? ==> Times(shock.value, m.value) == volume[t].value)
  {
    var denom := RollingMean(volume, w);
    assert VolumeShock(volume, w)[t] == Divide(volume[t], denom[t]);
    RollingMeanAt(volume, w, t);
    if w <= t + 1 {
      var win := volume[t + 1 - w .. t + 1];
      if AllPresent(win) {
        var m := Mean(Finite(win));
        assert VolumeShock(volume, w)[t] == Divide(volume[t], m);
        if w > 0 {
          assert win[w - 1] == volume[t];
        }
      } else {
        assert VolumeShock(volume, w)[t] == None;
      }
    }
  }

  /** Row t of the rolling mean: missing before the window fills or when it holds a missing value. */
  lemma RollingMeanAt(s: Series, w: nat, t: nat)
    requires t < |s|
    ensures t + 1 < w ==> RollingMean(s, w)[t] == None
    ensures w <= t + 1 ==>
      RollingMean(s, w)[t] == (if AllPresent(s[t + 1 - w .. t + 1]) then Mean(Finite(s[t + 1 - w .. t + 1])) else None)
  {
  }

  /** `(High - Low).replace(0, np.nan)`. */
  function Range(high: Series, low: Series): (r: Series)
    requires |high| == |low|
    ensures |r| == |high|
    ensures forall t | 0 <= t < |r| ::
      r[t].Some? <==> high[t].Some? && low[t].Some? && high[t].value != low[t].value
    ensures forall t | 0 <= t < |r| :: r[t].Some? ==> r[t].value + low[t].value == high[t].value
  {
    seq(|high|, t requires 0 <= t < |high| => ZeroToMissing(Subtract(high[t], low[t])))
  }

  /** `Volume / range`: volume per unit of price range. */
  function LiquidityProxy(volume: Series, range: Series): (r: Series)
    requires |volume| == |range|
    ensures |r| == |volume|
    ensures forall t | 0 <= t < |r| :: r[t].Some? <==> volume[t].Some? && range[t].Some? && range[t].value != 0.0
    ensures forall t | 0 <= t < |r| :: r[t].Some? ==> Times(r[t].value, range[t].value) == volume[t].value
  {
    seq(|volume|, t requires 0 <= t < |volume| => Divide(volume[t], range[t]))
  }

  /** `short / long.replace(0, np.nan)`. */
  function MomentumDecay(short: Series, long: Series): (r: Series)
    requires |short| == |long|
    ensures |r| == |short|
    ensures forall t | 0 <= t < |r| :: r[t].Some? <==> short[t].Some? && long[t].Some? && long[t].value != 0.0
    ensures forall t | 0 <= t < |r| :: r[t].Some? ==> Times(r[t].value, long[t].value) == short[t].value
  {
    seq(|short|, t requires 0 <= t < |short| => Divide(short[t], ZeroToMissing(long[t])))
  }

  // ---------------------------------------------------------------------------
  // Table transforms
  // ---------------------------------------------------------------------------

  /** `add_returns`: appends `ret`, the one-step relative change of the price column. */
  function AddReturns(t: Table, priceCol: string): (r: Result<Table, Error>)
    requires t.Valid()
    ensures r.Ok? <==> HasNumeric(t, priceCol)
    ensures r.Ok? ==>
      && Extends(t, r.value, {"ret"})
      && r.value.columns["ret"] == Numeric(PctChange(t.columns[priceCol].values, 1))
  {
    var price :- NumericColumn(t, priceCol);
    Ok(WithColumn(t, "ret", Numeric(PctChange(price, 1))))
  }

  /** `add_rolling_volatility`: appends `volatility`, the trailing sample std of the return column. */
  function AddRollingVolatility(t: Table, retCol: string, window: nat, sqrt: real -> real): (r: Result<Table, Error>)
    requires t.Valid()
    ensures r.Ok? <==> HasNumeric(t, retCol)
    ensures r.Ok? ==>
      && Extends(t, r.value, {"volatility"})
      && r.value.columns["volatility"] == Numeric(RollingStd(t.columns[retCol].values, window, sqrt))
  {
    var ret :- NumericColumn(t, retCol);
    Ok(WithColumn(t, "volatility", Numeric(RollingStd(ret, window, sqrt))))
  }

  /** `add_volume_shock`: appends `vol_shock`, volume over its trailing mean. */
  function AddVolumeShock(t: Table, volCol: string, window: nat): (r: Result<Table, Error>)
    requires t.Valid()
    ensures r.Ok? <==> HasNumeric(t, volCol)
    ensures r.Ok? ==>
      && Extends(t, r.value, {"vol_shock"})
      && r.value.columns["vol_shock"] == Numeric(VolumeShock(t.columns[volCol].values, window))
  {
    var volume :- NumericColumn(t, volCol);
    Ok(WithColumn(t, "vol_shock", Numeric(VolumeShock(volume, window))))
  }

  /**
   * `add_liquidity_proxy`: appends `range` and then `liq_proxy`. The volume
   * column is read after `range` is written, as in the source.
   */
  function AddLiquidityProxy(t: Table, volCol: string): (r: Result<Table, Error>)
    requires t.Valid()
    ensures r.Ok? <==> HasNumeric(t, "High") && HasNumeric(t, "Low") && (volCol == "range" || HasNumeric(t, volCol))
    ensures r.Ok? ==>
      var range := Range(t.columns["High"].values, t.columns["Low"].values);
      var volume := if volCol == "range" then range else t.columns[volCol].values;
      && Extends(t, r.value, {"range", "liq_proxy"})
      && r.value.columns["range"] == Numeric(range)
      && r.value.columns["liq_proxy"] == Numeric(LiquidityProxy(volume, range))
  {
    var high :- NumericColumn(t, "High");
    var low :- NumericColumn(t, "Low");
    var withRange := WithColumn(t, "range", Numeric(Range(high, low)));
    var volume :- NumericColumn(withRange, volCol);
    var range := Range(high, low);
    Ok(WithColumn(withRange, "liq_proxy", Numeric(LiquidityProxy(volume, range))))
  }

  /**
   * `add_momentum_decay`: appends `ret_short`, `ret_long` and `mom_decay`,
   * re-reading the price column before each step as the source does.
   */
  function AddMomentumDecay(t: Table, priceCol: string, short: nat, long: nat): (r: Result<Table, Error>)
    requires t.Valid()
    ensures r.Ok? <==> HasNumeric(t, priceCol)
    ensures r.Ok? ==> Extends(t, r.value, {"ret_short", "ret_long", "mom_decay"})
    ensures r.Ok? && priceCol !in {"ret_short", "ret_long", "mom_decay"} ==>
      var price := t.columns[priceCol].values;
      && r.value.columns["ret_short"] == Numeric(PctChange(price, short))
      && r.value.columns["ret_long"] == Numeric(PctChange(price, long))
      && r.value.columns["mom_decay"] == Numeric(MomentumDecay(PctChange(price, short), PctChange(price, long)))
  {
    var price :- NumericColumn(t, priceCol);
    var t1 := WithColumn(t, "ret_short", Numeric(PctChange(price, short)));
    var price1 := NumericColumn(t1, priceCol).value;
    var t2 := WithColumn(t1, "ret_long", Numeric(PctChange(price1, long)));
    var retShort := NumericColumn(t2, "ret_short").value;
    var retLong := NumericColumn(t2, "ret_long").value;
    Ok(WithColumn(t2, "mom_decay", Numeric(MomentumDecay(retShort, retLong))))
  }

  /**
   * The momentum columns: `ret_short` is missing in the first `short` rows,
   * `ret_long` in the first `long` rows, and `mom_decay` wherever `ret_long`
   * is zero or missing.
   */
  lemma MomentumWarmup(price: Series, short: nat, long: nat, t: nat)
    requires t < |price|
    ensures t < short ==> PctChange(price, short)[t] == None
    ensures t < long ==> PctChange(price, long)[t] == None
    ensures t < long ==> MomentumDecay(PctChange(price, short), PctChange(price, long))[t] == None
  {
  }
}
