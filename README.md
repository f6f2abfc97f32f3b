# market-stress-explorer in Dafny

This project models the analytical core of market-stress-explorer, which turns daily
OHLCV bars into a market-stress score and summaries of it. The model covers three
stages:

- **Features** (`src/features.py`). Each transform copies the table and appends columns:
  - the one-step return `ret`;
  - the rolling volatility of the returns;
  - the volume shock, which is volume over its trailing mean;
  - the liquidity proxy, which is volume over the high-low range;
  - the momentum decay, which is the short-horizon return over the long-horizon one.
- **Scoring** (`src/scoring.py`):
  - a degenerate-safe z-score;
  - a weighted blend of three z-scores into `stress_score`, guarded by a check that its input columns exist;
  - the Normal / Stress / Extreme labelling, with the two thresholds as parameters. `app.py` applies the same rule with user-chosen cutoffs.
- **Analysis** (`src/analysis.py`):
  - forward returns and forward volatility (look-ahead columns);
  - the per-regime summary;
  - the top-N stress rows;
  - the correlation snapshot, which needs at least 30 paired rows.

A table is a row index plus a map from column names to columns. A column is either numeric
(`seq<Option<real>>`) or textual (the `regime` column). A numeric cell is `None` for a missing
value (NaN). Infinities are not represented: where pandas divides a nonzero value by zero, the
model's cell is missing. "## Left out" lists where that changes a result.

Floats are idealised as exact reals. The square root is not definable on Dafny's reals, so
the sample standard deviation and the Pearson correlation take it as a parameter `sqrt`.
Lemmas that depend on what it computes require `Stats.IsSqrt(sqrt)`.

Files:
- `wrappers.dfy`: Option and Result.
- `frame.dfy`: tables, columns and errors.
- `stats.dfy`: sums, mean, sample std, Pearson and rounding.
- `seqs.dfy`: filtering, subsequences and distinctness.
- `features.dfy`, `scoring.dfy`, `analysis.dfy`: the three stages.

Three operations are methods because the source updates state step by step:
- `add_regime` writes Normal, then Stress, then Extreme over a fresh array.
- `add_forward_metrics` loops over the horizons, adding columns.
- `correlation_snapshot` loops over the candidates, appending rows.

Each method is proved against a function or predicate, whose properties are proved as lemmas.

## Model

| member | source | states |
|---|---|---|
| `Frame.NumericColumn` | src/features.py:9 | A column lookup succeeds iff the column exists and holds numbers. It fails with KeyError when the column is absent and with NotNumeric when it holds labels. |
| `Frame.WithColumn` | src/features.py:8-10 | Assigning a column keeps the row index and every other column, and adds or replaces exactly that column. |
| `Frame.Finite` | src/scoring.py:11-13 | The finite entries, in order, are at most as many as the rows. When nothing is missing they are exactly the entries. |
| `Frame.FiniteIsPresent` | src/scoring.py:11-13 | The finite entries are exactly the values at the rows whose cell is present, in row order, one per such row. |
| `Stats.Mean` | src/scoring.py:12 | The mean is defined iff there is a value, and mean times count equals the sum. |
| `Stats.SampleStd` | src/features.py:15 | The sample standard deviation (ddof 1) is defined iff there are at least two values. |
| `Stats.ConstantHasZeroStd` | src/scoring.py:13-16 | Two or more equal values have standard deviation zero. |
| `Stats.SpreadOfConstant` | src/scoring.py:13-15 | A non-empty sample has a non-negative sum of squared deviations from its mean. That sum is zero iff all values are equal. |
| `Stats.Pearson` | src/analysis.py:61 | A correlation is defined only for a non-empty paired sample. |
| `Stats.ConstantHasNoCorrelation` | src/analysis.py:61 | When either sample is constant, the correlation is undefined (NaN). |
| `Stats.PearsonDefined` | src/analysis.py:61 | With a true square root, the correlation is defined iff there is a pair and neither sample is constant. A defined correlation has at least two pairs. |
| `Stats.RoundHalfEven` | src/analysis.py:62 | Rounding to an integer moves the value by at most one half. |
| `Stats.Round` | src/analysis.py:62 | Rounding to d decimals moves the value by at most half a unit of the last kept digit. |
| `Seqs.Filter` | src/scoring.py:33 | A guarded list comprehension keeps every element that passes the guard and nothing else, as a subsequence in the original order. |
| `Seqs.FilterCounts` | src/scoring.py:33 | Every element that passes the guard keeps all its occurrences. An element that fails it keeps none. |
| `Seqs.Positions` | src/analysis.py:46 | `dropna` keeps only in-range rows where the mask holds. |
| `Seqs.PositionsAreComplete` | src/analysis.py:46 | `dropna` keeps every row where the mask holds. |
| `Seqs.PositionsAscend` | src/analysis.py:46 | `dropna` keeps the rows in ascending row order. |
| `Features.Divide` | src/features.py:22 | A quotient is present iff both operands are present and the divisor is nonzero, and then quotient times divisor is the dividend. |
| `Features.ZeroToMissing` | src/features.py:31 | `replace(0, nan)` makes a zero missing and leaves every other value unchanged. |
| `Features.Change` | src/features.py:9 | The relative change from y to x is present iff both are present and y is nonzero. y grown by it is x. |
| `Features.PctChange` | src/features.py:9 | `pct_change(k)` keeps the length. Row t is present iff t >= k and rows t and t-k are present with row t-k nonzero. Row t-k grown by it gives row t. |
| `Features.Rolling` | src/features.py:15 | A rolling aggregate keeps the length. Per-row behaviour is in the lemmas below. |
| `Features.RollingMean` | src/features.py:21 | The trailing mean keeps the length. |
| `Features.RollingStd` | src/features.py:15 | The trailing sample std keeps the length. |
| `Features.RollingMissing` | src/features.py:15 | A window value is missing when row t comes before the window fills, or when any entry in the window is missing. |
| `Features.RollingDependsOnWindowOnly` | src/features.py:15 | Row t depends only on input rows t-w+1 .. t. |
| `Features.RollingFullWindow` | src/features.py:15 | For a full window with no missing entries, the value is the aggregate of exactly those w values. |
| `Features.VolatilityWarmup` | src/features.py:9-15 | When fed by the one-step return, the volatility is missing in the first `window` rows. |
| `Features.VolumeShock` | src/features.py:21-22 | The volume shock keeps the length. |
| `Features.VolumeShockAt` | src/features.py:21-22 | The shock is missing before the window fills. It is present iff the window is full and complete and its mean is nonzero. It is then the multiple of the trailing mean that the volume is. A zero mean gives a missing value, not an error. |
| `Features.RollingMeanAt` | src/features.py:21 | The trailing mean at row t is missing before the window fills and when the window holds a missing value. Otherwise it is the mean of the window. |
| `Features.Range` | src/features.py:31 | The range is missing iff High equals Low or an input is missing. Otherwise range plus Low is High. |
| `Features.LiquidityProxy` | src/features.py:32 | The proxy is present iff volume and a nonzero range are present. It is then the volume per unit of range. |
| `Features.MomentumDecay` | src/features.py:43 | The decay is present iff the short return is present and the long return is present and nonzero. Then the decay times the long return is the short return. |
| `Features.AddReturns` | src/features.py:7-10 | Succeeds iff the price column is numeric. It adds only `ret`, keeps everything else, and `ret` is `pct_change(1)` of the price. |
| `Features.AddRollingVolatility` | src/features.py:13-16 | Succeeds iff the return column is numeric. It adds only `volatility`, the trailing sample std. |
| `Features.AddVolumeShock` | src/features.py:19-23 | Succeeds iff the volume column is numeric. It adds only `vol_shock`. |
| `Features.AddLiquidityProxy` | src/features.py:26-33 | Succeeds iff High and Low are numeric and the volume column is numeric once `range` exists. It adds exactly `range` and `liq_proxy`, with their values. |
| `Features.AddMomentumDecay` | src/features.py:36-44 | Succeeds iff the price column is numeric. It adds exactly `ret_short`, `ret_long` and `mom_decay`, with their values. |
| `Features.MomentumWarmup` | src/features.py:41-43 | `ret_short` is missing in the first `short` rows. `ret_long` and `mom_decay` are missing in the first `long` rows. |
| `Scoring.Standardize` | src/scoring.py:18 | `(s - mu) / sigma` keeps the length and which rows are missing. Each z-value scaled back by sigma and shifted by mu recovers its entry. |
| `Scoring.Normalise` | src/scoring.py:15-18 | With an undefined or zero deviation, every row is 0.0, missing rows included. Otherwise the result is standardised as above. |
| `Scoring.ZScore` | src/scoring.py:7-18 | Infinities count as missing. A degenerate std gives all zeros. Otherwise a z-value is present iff its entry is, and it maps back to its entry through the sample mean and std. |
| `Scoring.FiniteOfStandardize` | src/scoring.py:18 | The finite z-values are the finite inputs centred and scaled, in order. |
| `Scoring.SumOfCentered` | src/scoring.py:18 | The sum of the centred values times sigma is the sum of the inputs minus n times mu. |
| `Scoring.ZScoreIsCentered` | src/scoring.py:12-18 | In the non-degenerate case, the finite z-scores sum to zero. |
| `Scoring.StandardizeIsCentered` | src/scoring.py:18 | Standardising by the mean of the finite values leaves finite values that sum to zero. |
| `Scoring.CenteredAtMean` | src/scoring.py:12-18 | Values centred at their own mean sum to zero, whatever the nonzero scale. |
| `Scoring.ConstantFeatureIsNeutral` | src/scoring.py:13-16 | A feature whose finite values are all equal, or that has fewer than two, is degenerate and scores 0.0 in every row. |
| `Scoring.Blend` | src/scoring.py:41-45 | The blended score keeps the length and is missing iff one of the three z-values is missing. A present score is the sum of each weight times its z-value. |
| `Scoring.DefaultBlendIsAverage` | src/scoring.py:21-45 | The default weights 0.4, 0.4 and 0.2 are non-negative and sum to one. So a complete row's default score lies between the smallest and the largest of its z-values, and equals them when they agree. |
| `Scoring.ComputeStressScore` | src/scoring.py:21-47 | Fails with MissingColumns iff a feature column is absent. The error lists exactly the absent ones, in order. Succeeds iff all three are numeric. It then adds exactly the three z-columns and `stress_score`, their weighted blend. |
| `Scoring.MissingInputs` | src/scoring.py:32-35 | The absent feature columns, in the fixed order: a subsequence that holds a name iff it is absent. It is empty iff all three exist. |
| `Scoring.AppendScores` | src/scoring.py:37-45 | Adds exactly `vol_z`, `volshock_z`, `liq_z` and `stress_score`, with their values. |
| `Scoring.FlatFeaturesGiveZeroScore` | src/scoring.py:37-45 | When no feature has spread, the stress score is 0.0 in every row. |
| `Scoring.StressScoreMissing` | src/scoring.py:37-45 | A row's score is missing iff some feature with spread is missing in that row. |
| `Scoring.BlendMissing` | src/scoring.py:37-45 | The same iff, stated over the three feature series. |
| `Scoring.Label` | src/scoring.py:59-61 | Extreme iff score > extreme threshold. Stress iff stress threshold < score <= extreme threshold. Normal iff the score is missing or at most both thresholds. |
| `Scoring.DefaultBands` | src/scoring.py:50-61 | With the default thresholds, a score is Normal up to 1.5, Stress in (1.5, 2.5] and Extreme above 2.5. |
| `Scoring.LabelMonotone` | app.py:167-169 | For any two thresholds, ordered or not, a higher score never gets a milder label. |
| `Scoring.MissingIsMildest` | src/scoring.py:59-61 | A missing score gets the mildest label. |
| `Scoring.RegimeNames` | src/scoring.py:59-61 | Each row's label comes from that row's score alone. |
| `Scoring.AddRegime` | src/scoring.py:50-62 | The two masked overwrites of a Normal-filled column. Succeeds iff the score column is numeric and is not `regime` itself. With `regime` as the score column, the comparison meets the Normal labels just written and fails with NotNumeric. An absent column fails with KeyError and a textual one with NotNumeric. On success it adds only `regime`, the per-row label. |
| `Analysis.HorizonNames` | src/analysis.py:17-18 | The formatted name of each horizon is its column name `fwd_ret_1d`, `fwd_ret_5d` or `fwd_ret_20d`. |
| `Analysis.ShiftBack` | src/analysis.py:18 | `shift(-h)`: row t holds row t+h, and the last h rows are missing. |
| `Analysis.ForwardReturn` | src/analysis.py:18 | Row t is present iff t+h < n and the prices at t and t+h are present, with the price at t nonzero. |
| `Analysis.ForwardReturnGrows` | src/analysis.py:17-18 | The forward return is missing in the last h rows. Where present, the price grown by it is the price h rows ahead. |
| `Analysis.ForwardIsLaggedChange` | src/analysis.py:18 | The forward return at t equals `pct_change(h)` at t+h. |
| `Analysis.ForwardVolatility` | src/analysis.py:19 | The forward volatility keeps the length. |
| `Analysis.ForwardVolatilityWindow` | src/analysis.py:19 | Missing in the last 20 rows and when a return in rows t+1 .. t+20 is missing. Otherwise it is the sample std of those 20 returns. |
| `Analysis.AddForwardMetrics` | src/analysis.py:7-21 | Succeeds iff the price column is numeric. It adds exactly `ret`, the three forward returns and `fwd_vol_20d`. `ret` is what `add_returns` computes, and the forward returns and volatility hold their values. |
| `Analysis.AddForwardReturns` | src/analysis.py:17-18 | The horizon loop adds exactly the three numeric forward-return columns. When the price column is not one of the columns `add_forward_metrics` writes, each is the forward return of the price column. |
| `Analysis.Cells` | src/analysis.py:28 | A column read as cells keeps one cell per row. |
| `Analysis.KeyPosition` | src/analysis.py:28 | Finds the first entry counting a value, or reports that none does. |
| `Analysis.Bump` | src/analysis.py:28 | Counting one more occurrence raises that value's count by one, or appends it with count 1 when the value is new. |
| `Analysis.BumpTotal` | src/analysis.py:28 | Counting one more occurrence adds one to the total. |
| `Analysis.BumpCounts` | src/analysis.py:28 | Counting one more occurrence keeps every count equal to its multiplicity and the values distinct. |
| `Analysis.Tally` | src/analysis.py:28 | The counts of a column sum to its number of rows. |
| `Analysis.TallyCounts` | src/analysis.py:28 | The tally holds each distinct value exactly once, each with its number of occurrences. |
| `Analysis.CountPosition` | src/analysis.py:28 | The insertion point comes after every count at least as large and before a smaller one. |
| `Analysis.Insert` | src/analysis.py:28 | Inserting adds exactly one entry. |
| `Analysis.InsertKeeps` | src/analysis.py:28 | Inserting keeps every entry, adds the new one, adds its count to the total and keeps the counts non-increasing. |
| `Analysis.InsertPermutes` | src/analysis.py:28 | Inserting adds exactly one occurrence of the new entry and changes no other multiplicity. |
| `Analysis.InsertKeys` | src/analysis.py:28 | Inserting a new value adds exactly that value and keeps the values distinct. |
| `Analysis.SortByCount` | src/analysis.py:28 | Sorting by count keeps the length. |
| `Analysis.SortByCountSorts` | src/analysis.py:28 | Sorting by count is a permutation of the entries: same multiset, same total. It leaves the counts non-increasing. |
| `Analysis.SortByCountKeys` | src/analysis.py:28 | Sorting by count keeps the set of values and their distinctness. |
| `Analysis.ValueCounts` | src/analysis.py:28 | `value_counts(dropna=False)` gives each distinct value once, with count = multiplicity >= 1. The counts sum to the row count and are non-increasing. |
| `Analysis.Percent` | src/analysis.py:29 | The percentage is days / total * 100, rounded to one decimal: within 0.05 of the exact share. |
| `Analysis.SummaryRows` | src/analysis.py:29-30 | One row per counted value, with its count and its share. The days sum to the total. |
| `Analysis.Summary` | src/analysis.py:28-30 | One row per distinct value present, with days = occurrences >= 1. Days sum to the row count and are non-increasing. Each pct is that row's rounded share. |
| `Analysis.RegimeSummary` | src/analysis.py:24-31 | Fails with KeyError iff the column is absent. Otherwise gives the summary of its cells, whose days sum to the number of rows. |
| `Analysis.ScorePosition` | src/analysis.py:46 | The insertion point comes after every higher score and before one not higher. |
| `Analysis.InsertByScore` | src/analysis.py:46 | Inserting a scored row adds exactly one occurrence of that row and keeps every other. |
| `Analysis.InsertByScoreSorts` | src/analysis.py:46 | Inserting keeps the rows ordered by non-increasing score, and distinct when the row is new. |
| `Analysis.SpliceByScore` | src/analysis.py:46 | A row placed after the higher scores and before the others keeps the order. |
| `Analysis.SortByScore` | src/analysis.py:46 | Sorting by score is a permutation of the rows (same multiset) and keeps every row scored. |
| `Analysis.SortByScoreSorts` | src/analysis.py:46 | Sorting gives non-increasing scores and keeps distinct rows distinct. |
| `Analysis.Head` | src/analysis.py:46 | `head(n)` is a prefix of length min(n, len) for n >= 0, and all but the last -n entries for n < 0. |
| `Analysis.TopStressEvents` | src/analysis.py:34-48 | Fails with KeyError listing the absent ones of score and Close. When the score's label is selected a second time, as Close or as a context column the table has, it fails with DuplicateLabel, as sorting by a repeated label does. A textual score fails with NotNumeric. Otherwise it gives the event columns and the top rows. |
| `Analysis.RepeatedScoreLabel` | src/analysis.py:42-46 | The score's label is selected twice iff it is Close, or it is a context column the table has. |
| `Analysis.EventColumns` | src/analysis.py:42-44 | The score, then Close, then exactly those context columns the table has, in their fixed order. A name follows Close iff it is a context column of the table. |
| `Analysis.TopRows` | src/analysis.py:46 | There are exactly as many rows as `head(n)` keeps of the present scores. They are distinct and scored, with non-increasing scores, and none beats a row left out. |
| `Analysis.TopRowsDominate` | src/analysis.py:46 | A prefix of a sorted list of present scores holds the highest of them. |
| `Analysis.Paired` | src/analysis.py:59 | `dropna` on the pair gives two aligned samples, no longer than the columns. When nothing is missing, they are exactly as long. |
| `Analysis.PairedIsComplete` | src/analysis.py:59 | The pairs are exactly the two values at each row where both are present, one pair per such row, in row order. |
| `Analysis.RoundCorr` | src/analysis.py:62 | Rounding to four decimals keeps NaN as NaN and moves a value by at most 0.00005. |
| `Analysis.SnapshotStatus` | src/analysis.py:57-62 | The snapshot fails iff some candidate fails. A candidate fails when it exists and it or the score is not numeric, or when it is the score column itself with at least 30 present rows. A bad score column gives the score's lookup error. Otherwise the error is that of the first failing candidate: DuplicateLabel for the score itself, NotNumeric for any other. |
| `Analysis.SnapshotRows` | src/analysis.py:57-62 | Output follows candidate order and lists a candidate iff it qualifies (a numeric column with >= 30 complete pairs). Each listed row holds its rounded correlation. |
| `Analysis.SelfCorrelationFails` | src/analysis.py:59-61 | When the score is itself a candidate with at least 30 present rows, the snapshot fails, because the selection `df[[stress_col, c]]` then holds the label twice. |
| `Analysis.SnapshotFailurePersists` | src/analysis.py:57-62 | Once a prefix of the candidates fails, the snapshot fails with that error. |
| `Analysis.CorrelationSnapshot` | src/analysis.py:51-63 | The loop computes the snapshot over the four candidates. It fails iff some candidate fails, as above, and otherwise lists exactly the qualifying candidates, in order, with their correlations. |

## Left out

- `app.py` is left out. It is the Streamlit page, session state, caching and CSV download. Its labelling step is the parametrised `Scoring.AddRegime`.
- `src/viz.py` (Plotly figures) and `src/data.py` (the yfinance download over the network) are not part of this model.
- `compute_thresholds` is not part of this model. `app.py` imports it from the analysis module, but it is not defined in `src/analysis.py`.
- Floating point is left out:
  - Arithmetic is on exact reals.
  - Infinities are missing values (see the list below).
  - The square root is a parameter.
  - Rounding is half-to-even on exact reals.
- The model does not claim that the percentages sum to 100. It does not prove that a correlation lies in [-1, 1].
- `pct_change` forward-fills missing prices by default. The model treats a missing price as missing, so it does not model that fill.
- Window and horizon sizes are natural numbers. pandas rejects a negative rolling window, but it accepts a negative `pct_change` period, which looks ahead. Negative `short` and `long` periods in `add_momentum_decay` are therefore left out.
- The row index is kept as a sequence of labels, but the tables the summaries return are not materialised:
  - `reset_index`, the `date` column and the renaming of `index` are not modelled.
  - Analysis.TopStressEvents returns the chosen column names and row positions rather than a copied table.
- Tie order is not promised. Rows with equal scores in `Analysis.TopRows`, and values with equal counts in `Analysis.ValueCounts`, come out in an order pandas does not guarantee. The contracts fix only the ordering by score or count.
- Analysis.AddForwardMetrics: the forward-return values are stated only when the price column is not one of the columns it writes. Otherwise the loop re-reads a price column it has just overwritten, and only the set of added columns is stated.
- Features.AddMomentumDecay: the values are stated only when the price column is not one of `ret_short`, `ret_long` or `mom_decay`, for the same reason.
- Analysis.TopStressEvents: a textual score column is reported as NotNumeric. pandas would sort the labels instead.
- Analysis.TopStressEvents: with `Close` as the score column and no Close column, the KeyError lists `Close` twice. pandas lists each missing label once.
- Analysis.CorrelationSnapshot: a textual score column, or a textual candidate that exists, makes the snapshot fail with NotNumeric, whatever the number of pairs. pandas fails only when that candidate has at least 30 complete rows and the correlation is taken. With fewer, pandas succeeds and leaves the candidate out.
- Scoring.AddRegime with a textual score column likewise fails with NotNumeric. pandas raises a TypeError from the comparison, except on an empty table, where there is nothing to compare and pandas may not raise.
- Infinities are left out. pandas produces them where a nonzero value is divided by zero: `pct_change` after a zero price, `fwd_ret` when Close is zero at row t, and `vol_shock` when the trailing mean volume is zero. The model makes each such cell missing. This changes the following results:
  - `dropna` at src/analysis.py:46 and :59 keeps infinite values. The model drops them, so an infinite forward return does not count toward the 30 pairs and is not correlated.
  - `add_regime` labels a +inf score Extreme. The model labels it as a missing score, Normal.
  - `mom_decay` is 0.0 where `ret_long` is infinite and `ret_short` finite. The model gives a missing value.
  - `zscore` maps infinities to NaN at src/scoring.py:11, so a `stress_score` built by `compute_stress_score` is never infinite.
- Analysis.AddForwardReturns: the values of the forward returns are stated only when the price column is not one of the columns `add_forward_metrics` writes (`ret`, the three forward returns and `fwd_vol_20d`). Otherwise it re-reads an overwritten price column, and only the set of added columns is stated.
- Scoring.AddRegime with `regime` as the score column fails with NotNumeric. pandas raises a TypeError, except on an empty table, where the comparison has nothing to compare and pandas may not raise.
