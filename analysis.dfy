/**
 * The analysis stage: forward-looking metrics appended to the table, and three
 * read-only summaries of it (regime mix, the highest-stress rows, and the
 * correlation of the score with the forward metrics).
 */
module Analysis {
  import opened Wrappers
  import opened Frame
  import opened Stats
  import opened Seqs
  import opened Features

  // ------------------------------------------------------- forward metrics

  /** The look-ahead horizons of the forward returns, in rows. */
  const Horizons: seq<nat> := [1, 5, 20]

  /** The window and the look-ahead of the forward volatility, in rows. */
  const ForwardVolWindow: nat := 20

  /** Every column the forward-metrics step writes. */
  const ForwardColumns: set<string> := {"ret", "fwd_ret_1d", "fwd_ret_5d", "fwd_ret_20d", "fwd_vol_20d"}

  function DigitChar(d: nat): char
    requires d < 10
  {
    "0123456789"[d]
  }

  /** The decimal digits of `n`, without leading zeros. */
  function NatToString(n: nat): (s: string)
    ensures |s| >= 1
  {
    if n < 10 then [DigitChar(n)] else NatToString(n / 10) + [DigitChar(n % 10)]
  }

  /** The name of the forward-return column for horizon `h`. */
  function FwdRetName(h: nat): string {
    "fwd_ret_" + NatToString(h) + "d"
  }

  /** The forward-return columns, one per horizon. */
  const HorizonColumns: seq<string> := ["fwd_ret_1d", "fwd_ret_5d", "fwd_ret_20d"]

  /** The forward-return columns written so far after `i` horizons, with `ret`. */
  function Written(i: nat): set<string>
    requires i <= |HorizonColumns|
  {
    if i == 0 then {"ret"} else Written(i - 1) + {HorizonColumns[i - 1]}
  }

  lemma WrittenColumns(i: nat)
    requires i <= |HorizonColumns|
    ensures "ret" in Written(i) && "fwd_vol_20d" !in Written(i)
    ensures forall j | 0 <= j < i :: HorizonColumns[j] in Written(i)
    ensures forall c | c in Written(i) :: c == "ret" || exists j | 0 <= j < i :: c == HorizonColumns[j]
  {
    if i > 0 {
      WrittenColumns(i - 1);
    }
  }

  /** Each horizon names its own forward-return column. */
  lemma HorizonNames()
    ensures forall i | 0 <= i < |Horizons| :: FwdRetName(Horizons[i]) == HorizonColumns[i]
  {
    assert NatToString(20) == NatToString(2) + [DigitChar(0)];
  }

  /** pandas `shift(-h)`: row t takes the value of row t+h; the last h rows are missing. */
  function ShiftBack(s: Series, h: nat): (r: Series)
    ensures |r| == |s|
    ensures forall t | 0 <= t < |s| :: r[t] == (if t + h < |s| then s[t + h] else None)
  {
    seq(|s|, t requires 0 <= t < |s| => if t + h < |s| then s[t + h] else None)
  }

  /** `price.shift(-h) / price - 1`: the relative change from row t to row t+h. */
  function ForwardReturn(price: Series, h: nat): (r: Series)
    ensures |r| == |price|
    ensures forall t {:trigger r[t]} | 0 <= t < |price| ::
      r[t].Some? <==> t + h < |price| && price[t + h].Some? && price[t].Some? && price[t].value != 0.0
  {
    var ahead := ShiftBack(price, h);
    seq(|price|, t requires 0 <= t < |price| => Change(ahead[t], price[t]))
  }

  /**
   * Where the forward return is defined, the price h rows ahead is the
   * current price grown by it; in the last h rows it is missing.
   */
  lemma ForwardReturnGrows(price: Series, h: nat, t: nat)
    requires t < |price|
    ensures |price| <= t + h ==> ForwardReturn(price, h)[t] == None
    ensures ForwardReturn(price, h)[t].Some? ==>
      t + h < |price| && price[t].Some? && price[t + h].Some?
      && Grown(price[t].value, ForwardReturn(price, h)[t].value) == price[t + h].value
  {
    ForwardReturnAt(price, h, t);
    if t + h < |price| {
      assert ForwardReturn(price, h)[t] == Change(price[t + h], price[t]);
    }
  }

  /** The forward return at row t is the trailing `pct_change(h)` at row t+h. */
  lemma ForwardIsLaggedChange(price: Series, h: nat, t: nat)
    requires t + h < |price|
    ensures ForwardReturn(price, h)[t] == PctChange(price, h)[t + h]
  {
    ForwardReturnAt(price, h, t);
    PctChangeAhead(price, h, t);
  }

  lemma ForwardReturnAt(price: Series, h: nat, t: nat)
    requires t < |price|
    ensures ForwardReturn(price, h)[t] == Change(if t + h < |price| then price[t + h] else None, price[t])
  {
  }

  /** `pct_change(k)` at row t+k compares with row t. */
  lemma PctChangeAhead(s: Series, k: nat, t: nat)
    requires t + k < |s|
    ensures PctChange(s, k)[t + k] == Change(s[t + k], s[t])
  {
    var u := t + k;
    assert u - k == t;
    assert PctChange(s, k)[u] == Change(s[u], s[u - k]);
  }

  /** `ret.rolling(20).std().shift(-20)`: the sample std of the 20 returns after row t. */
  function ForwardVolatility(ret: Series, sqrt: real -> real): (r: Series)
    ensures |r| == |ret|
  {
    ShiftBack(RollingStd(ret, ForwardVolWindow, sqrt), ForwardVolWindow)
  }

  /**
   * The forward volatility of row t is the sample std of the returns of rows
   * t+1 .. t+20; it is missing in the last 20 rows and when one of those
   * returns is missing.
   */
  lemma ForwardVolatilityWindow(ret: Series, sqrt: real -> real, t: nat)
    requires t < |ret|
    ensures t + 20 >= |ret| ==> ForwardVolatility(ret, sqrt)[t] == None
    ensures t + 20 < |ret| && !AllPresent(ret[t + 1 .. t + 21]) ==> ForwardVolatility(ret, sqrt)[t] == None
    ensures t + 20 < |ret| && AllPresent(ret[t + 1 .. t + 21]) ==>
      ForwardVolatility(ret, sqrt)[t] == SampleStd(Finite(ret[t + 1 .. t + 21]), sqrt)
  {
    if t + 20 < |ret| {
      assert ForwardVolatility(ret, sqrt)[t] == RollingStd(ret, 20, sqrt)[t + 20];
    }
  }

  /**
   * `add_forward_metrics`: appends `ret` as `add_returns` does, then for each
   * horizon the forward return of the price column (read again before each
   * horizon), then the forward volatility computed from `ret`.
   */
  method AddForwardMetrics(t: Table, priceCol: string, sqrt: real -> real) returns (r: Result<Table, Error>)
    requires t.Valid()
    ensures r.Ok? <==> HasNumeric(t, priceCol)
    ensures r.Err? ==> r.error == (if priceCol in t.columns then NotNumeric(priceCol) else KeyError([priceCol]))
    ensures r.Ok? ==>
      && Extends(t, r.value, ForwardColumns)
      && r.value.columns["ret"] == AddReturns(t, priceCol).value.columns["ret"]
      && r.value.columns["fwd_vol_20d"] == Numeric(ForwardVolatility(PctChange(t.columns[priceCol].values, 1), sqrt))
    ensures r.Ok? && priceCol !in ForwardColumns ==>
      forall i | 0 <= i < |Horizons| ::
        r.value.columns[HorizonColumns[i]] == Numeric(ForwardReturn(t.columns[priceCol].values, Horizons[i]))
  {
    var column := NumericColumn(t, priceCol);
    if column.Err? {
      return Err(column.error);
    }
    var out := WithColumn(t, "ret", Numeric(PctChange(column.value, 1)));
    HorizonsStart(t, priceCol);
    out := AddForwardReturns(t, out, priceCol);
    ForwardVolatilityStep(t, out, priceCol, sqrt);
    var ret := out.columns["ret"].values;
    r := Ok(WithColumn(out, "fwd_vol_20d", Numeric(ForwardVolatility(ret, sqrt))));
  }

  /** The loop over the horizons: writes one forward-return column per horizon. */
  method AddForwardReturns(t: Table, start: Table, priceCol: string) returns (out: Table)
    requires HorizonsFramed(t, start, priceCol, 0)
    ensures HorizonsFramed(t, out, priceCol, |Horizons|)
    ensures priceCol !in ForwardColumns ==> HorizonValues(t, out, priceCol, |Horizons|)
  {
    out := start;
    var i := 0;
    while i < |Horizons|
      invariant 0 <= i <= |Horizons|
      invariant HorizonsFramed(t, out, priceCol, i)
      invariant priceCol !in ForwardColumns ==> HorizonValues(t, out, priceCol, i)
    {
      var h := Horizons[i];
      var name := FwdRetName(h);
      assert name == HorizonColumns[i] by { HorizonNames(); }
      HorizonFrameStep(t, out, priceCol, i);
      HorizonValueStep(t, out, priceCol, i);
      var current := out.columns[priceCol].values;
      out := WithColumn(out, name, Numeric(ForwardReturn(current, h)));
      i := i + 1;
    }
  }

  /** Only `ret` and the first `i` forward-return columns are added, all numeric, and `ret` is the one-step return. */
  ghost predicate HorizonsFramed(t: Table, out: Table, priceCol: string, i: nat) {
    && i <= |Horizons|
    && t.Valid()
    && HasNumeric(t, priceCol)
    && Extends(t, out, Written(i))
    && (forall c | c in Written(i) :: out.columns[c].Numeric?)
    && "ret" in out.columns
    && out.columns["ret"] == Numeric(PctChange(t.columns[priceCol].values, 1))
  }

  /** The first `i` forward-return columns hold the forward returns of the price column. */
  ghost predicate HorizonValues(t: Table, out: Table, priceCol: string, i: nat)
    requires i <= |Horizons| && HasNumeric(t, priceCol)
  {
    forall j | 0 <= j < i ::
      && HorizonColumns[j] in out.columns
      && out.columns[HorizonColumns[j]] == Numeric(ForwardReturn(t.columns[priceCol].values, Horizons[j]))
  }

  lemma HorizonsStart(t: Table, priceCol: string)
    requires t.Valid() && HasNumeric(t, priceCol)
    ensures HorizonsFramed(t, WithColumn(t, "ret", Numeric(PctChange(t.columns[priceCol].values, 1))), priceCol, 0)
    ensures HorizonValues(t, WithColumn(t, "ret", Numeric(PctChange(t.columns[priceCol].values, 1))), priceCol, 0)
  {
    WrittenColumns(0);
  }

  lemma HorizonFrameStep(t: Table, out: Table, priceCol: string, i: nat)
    requires HorizonsFramed(t, out, priceCol, i) && i < |Horizons|
    ensures HasNumeric(out, priceCol)
    ensures HorizonsFramed(t, WithColumn(out, HorizonColumns[i], Numeric(ForwardReturn(out.columns[priceCol].values, Horizons[i]))), priceCol, i + 1)
  {
    var name := HorizonColumns[i];
    assert Written(i + 1) == Written(i) + {name};
    var column := out.columns[priceCol];
    assert column.Numeric? by {
      if priceCol !in Written(i) {
        assert column == t.columns[priceCol];
      }
    }
    var u := WithColumn(out, name, Numeric(ForwardReturn(column.values, Horizons[i])));
    ExtendsTrans(t, out, u, Written(i), {name});
    assert name != "ret" && u.columns["ret"] == out.columns["ret"];
    forall c | c in Written(i + 1) ensures u.columns[c].Numeric? {
      if c != name {
        assert u.columns[c] == out.columns[c];
      }
    }
  }

  lemma HorizonValueStep(t: Table, out: Table, priceCol: string, i: nat)
    requires HorizonsFramed(t, out, priceCol, i) && i < |Horizons|
    requires priceCol !in ForwardColumns ==> HorizonValues(t, out, priceCol, i)
    ensures HasNumeric(out, priceCol)
    ensures priceCol !in ForwardColumns ==> HorizonValues(t, WithColumn(out, HorizonColumns[i], Numeric(ForwardReturn(out.columns[priceCol].values, Horizons[i]))), priceCol, i + 1)
  {
    if priceCol in ForwardColumns {
      HorizonFrameStep(t, out, priceCol, i);
      return;
    }
    WrittenColumns(i);
    var name := HorizonColumns[i];
    assert priceCol !in Written(i);
    var column := out.columns[priceCol];
    assert column == t.columns[priceCol];
    var u := WithColumn(out, name, Numeric(ForwardReturn(column.values, Horizons[i])));
    forall j | 0 <= j < i + 1
      ensures HorizonColumns[j] in u.columns
      ensures u.columns[HorizonColumns[j]] == Numeric(ForwardReturn(t.columns[priceCol].values, Horizons[j]))
    {
      if j < i {
        assert HorizonColumns[j] != name;
      }
    }
  }

  lemma ForwardVolatilityStep(t: Table, out: Table, priceCol: string, sqrt: real -> real)
    requires HorizonsFramed(t, out, priceCol, |Horizons|)
    requires priceCol !in ForwardColumns ==> HorizonValues(t, out, priceCol, |Horizons|)
    ensures var u := WithColumn(out, "fwd_vol_20d", Numeric(ForwardVolatility(out.columns["ret"].values, sqrt)));
      && Extends(t, u, ForwardColumns)
      && u.columns["ret"] == AddReturns(t, priceCol).value.columns["ret"]
      && u.columns["fwd_vol_20d"] == Numeric(ForwardVolatility(PctChange(t.columns[priceCol].values, 1), sqrt))
      && (priceCol !in ForwardColumns ==>
           forall i | 0 <= i < |Horizons| ::
             u.columns[HorizonColumns[i]] == Numeric(ForwardReturn(t.columns[priceCol].values, Horizons[i])))
  {
    WrittenColumns(|Horizons|);
    assert Written(3) + {"fwd_vol_20d"} == ForwardColumns;
  }

  // -------------------------------------------------------- regime summary

  /** One cell as `value_counts` sees it: a number (missing included) or a word. */
  datatype Cell = Number(number: Option<real>) | Word(word: string)

  /** The cells of a column, in row order. */
  function Cells(c: Column): (cells: seq<Cell>)
    ensures |cells| == c.Length()
  {
    match c
    case Numeric(values) => seq(|values|, i requires 0 <= i < |values| => Number(values[i]))
    case Text(labels) => seq(|labels|, i requires 0 <= i < |labels| => Word(labels[i]))
  }

  /** The distinct values of a column with how often each occurs. */
  type Counts = seq<(Cell, nat)>

  function Keys(c: Counts): (keys: seq<Cell>)
    ensures |keys| == |c|
    ensures forall i | 0 <= i < |c| :: keys[i] == c[i].0
  {
    seq(|c|, i requires 0 <= i < |c| => c[i].0)
  }

  /** The sum of the counts. */
  function Total(c: Counts): nat {
    if c == [] then 0 else c[0].1 + Total(c[1..])
  }

  ghost predicate DistinctKeys(c: Counts) {
    forall i, j | 0 <= i < j < |c| :: c[i].0 != c[j].0
  }

  /** Counts sorted by non-increasing count. */
  ghost predicate ByCount(c: Counts) {
    forall i, j | 0 <= i < j < |c| :: c[i].1 >= c[j].1
  }

  lemma {:induction false} TotalOfAppend(c: Counts, p: (Cell, nat))
    ensures Total(c + [p]) == Total(c) + p.1
  {
    if c != [] {
      assert (c + [p])[1..] == c[1..] + [p];
      TotalOfAppend(c[1..], p);
    }
  }

  /** The first entry whose value is `x`, or `|c|` when there is none. */
  function KeyPosition(c: Counts, x: Cell): (k: nat)
    ensures k <= |c|
    ensures forall i | 0 <= i < k :: c[i].0 != x
    ensures k < |c| ==> c[k].0 == x
  {
    if c == [] then 0
    else if c[0].0 == x then 0
    else 1 + KeyPosition(c[1..], x)
  }

  /** `c` with the count of `x` raised by one, or `(x, 1)` appended when `x` is new. */
  function Bump(c: Counts, x: Cell): (d: Counts)
    ensures |d| == |c| + (if x in Keys(c) then 0 else 1)
    ensures DistinctKeys(c) ==> forall i | 0 <= i < |c| :: d[i] == (if c[i].0 == x then (x, c[i].1 + 1) else c[i])
    ensures x !in Keys(c) ==> d == c + [(x, 1)]
  {
    var k := KeyPosition(c, x);
    if k < |c| then
      assert Keys(c)[k] == x;
      c[k := (x, c[k].1 + 1)]
    else
      assert forall i | 0 <= i < |c| :: Keys(c)[i] != x;
      c + [(x, 1)]
  }

  lemma {:induction false} TotalOfUpdate(c: Counts, k: nat, q: (Cell, nat))
    requires k < |c|
    ensures Total(c[k := q]) + c[k].1 == Total(c) + q.1
  {
    var d := c[k := q];
    if k > 0 {
      assert d[0] == c[0] && d[1..] == c[1..][k - 1 := q];
      TotalOfUpdate(c[1..], k - 1, q);
    } else {
      assert d[1..] == c[1..];
    }
  }

  /** Bumping adds one to the total. */
  lemma BumpTotal(c: Counts, x: Cell)
    ensures Total(Bump(c, x)) == Total(c) + 1
  {
    var k := KeyPosition(c, x);
    if k < |c| {
      assert Bump(c, x) == c[k := (x, c[k].1 + 1)];
      TotalOfUpdate(c, k, (x, c[k].1 + 1));
    } else {
      assert Bump(c, x) == c + [(x, 1)];
      TotalOfAppend(c, (x, 1));
    }
  }

  /** One more occurrence of `x` keeps the counts exact and the values distinct. */
  lemma BumpCounts(c: Counts, x: Cell, m: multiset<Cell>)
    requires DistinctKeys(c)
    requires forall y :: y in Keys(c) <==> y in m
    requires forall i | 0 <= i < |c| :: c[i].1 == m[c[i].0]
    ensures DistinctKeys(Bump(c, x))
    ensures forall y :: y in Keys(Bump(c, x)) <==> y in m + multiset{x}
    ensures forall i | 0 <= i < |Bump(c, x)| :: Bump(c, x)[i].1 == (m + multiset{x})[Bump(c, x)[i].0]
  {
    if x in Keys(c) {
      BumpSeen(c, x, m);
    } else {
      BumpUnseen(c, x, m);
    }
  }

  lemma BumpSeen(c: Counts, x: Cell, m: multiset<Cell>)
    requires DistinctKeys(c) && x in Keys(c)
    requires forall i | 0 <= i < |c| :: c[i].1 == m[c[i].0]
    ensures Keys(Bump(c, x)) == Keys(c)
    ensures DistinctKeys(Bump(c, x))
    ensures forall i | 0 <= i < |Bump(c, x)| :: Bump(c, x)[i].1 == (m + multiset{x})[Bump(c, x)[i].0]
  {
    var d := Bump(c, x);
    assert forall i | 0 <= i < |c| :: d[i].0 == c[i].0;
  }

  lemma BumpUnseen(c: Counts, x: Cell, m: multiset<Cell>)
    requires DistinctKeys(c) && x !in Keys(c) && x !in m
    requires forall i | 0 <= i < |c| :: c[i].1 == m[c[i].0]
    ensures Keys(Bump(c, x)) == Keys(c) + [x]
    ensures DistinctKeys(Bump(c, x))
    ensures forall i | 0 <= i < |Bump(c, x)| :: Bump(c, x)[i].1 == (m + multiset{x})[Bump(c, x)[i].0]
  {
    var d := c + [(x, 1)];
    assert Keys(d) == Keys(c) + [x];
    forall i | 0 <= i < |d| ensures d[i].1 == (m + multiset{x})[d[i].0] {
      if i < |c| {
        assert c[i].0 in Keys(c);
        assert c[i].0 != x;
      } else {
        assert m[x] == 0;
      }
    }
    forall i, j | 0 <= i < j < |d| ensures d[i].0 != d[j].0 {
      if j == |c| {
        assert c[i].0 in Keys(c);
      }
    }
  }

  /** The distinct values of `s` in order of first occurrence, each with its number of occurrences. */
  function Tally(s: seq<Cell>): (c: Counts)
    ensures Total(c) == |s|
  {
    if s == [] then []
    else
      BumpTotal(Tally(s[..|s| - 1]), s[|s| - 1]);
      Bump(Tally(s[..|s| - 1]), s[|s| - 1])
  }

  lemma {:induction false} TallyCounts(s: seq<Cell>)
    ensures DistinctKeys(Tally(s))
    ensures forall x :: x in Keys(Tally(s)) <==> x in s
    ensures forall i | 0 <= i < |Tally(s)| :: Tally(s)[i].1 == multiset(s)[Tally(s)[i].0]
  {
    if s != [] {
      var init, last := s[..|s| - 1], s[|s| - 1];
      assert s == init + [last];
      assert multiset(s) == multiset(init) + multiset{last};
      TallyCounts(init);
      BumpCounts(Tally(init), last, multiset(init));
    }
  }

  /** The position after every entry whose count is at least `p`'s own. */
  function CountPosition(p: (Cell, nat), c: Counts): (k: nat)
    ensures k <= |c|
    ensures forall i | 0 <= i < k :: c[i].1 >= p.1
    ensures k < |c| ==> c[k].1 < p.1
  {
    if c == [] || p.1 > c[0].1 then 0 else 1 + CountPosition(p, c[1..])
  }

  /** Inserts `p` after every entry whose count is at least its own. */
  function Insert(p: (Cell, nat), c: Counts): (d: Counts)
    ensures |d| == |c| + 1
  {
    var k := CountPosition(p, c);
    c[..k] + [p] + c[k..]
  }

  lemma {:induction false} TotalOfConcat(a: Counts, b: Counts)
    ensures Total(a + b) == Total(a) + Total(b)
  {
    if a != [] {
      assert (a + b)[0] == a[0] && (a + b)[1..] == a[1..] + b;
      TotalOfConcat(a[1..], b);
      assert Total(a + b) == a[0].1 + Total(a[1..] + b);
    } else {
      assert a + b == b;
    }
  }

  /** Inserting keeps every entry, adds `p`, and keeps the counts ordered and their sum exact. */
  lemma InsertKeeps(p: (Cell, nat), c: Counts)
    ensures forall q :: q in Insert(p, c) <==> q == p || q in c
    ensures Total(Insert(p, c)) == Total(c) + p.1
    ensures ByCount(c) ==> ByCount(Insert(p, c))
  {
    var k := CountPosition(p, c);
    SpliceAt(c, k, p);
    assert c == c[..k] + c[k..];
    TotalOfConcat(c[..k], c[k..]);
    TotalOfConcat(c[..k] + [p], c[k..]);
    TotalOfConcat(c[..k], [p]);
    if ByCount(c) {
      SpliceByCount(c, k, p);
    }
  }

  /** Inserting adds exactly `p` to the entries. */
  lemma InsertPermutes(p: (Cell, nat), c: Counts)
    ensures multiset(Insert(p, c)) == multiset(c) + multiset{p}
  {
    SpliceMultiset(c, CountPosition(p, c), p);
  }

  /** Placing `p` after the counts at least its own and before the smaller ones keeps the order. */
  lemma SpliceByCount(c: Counts, k: nat, p: (Cell, nat))
    requires k <= |c| && ByCount(c)
    requires forall i | 0 <= i < k :: c[i].1 >= p.1
    requires k < |c| ==> c[k].1 < p.1
    ensures ByCount(c[..k] + [p] + c[k..])
  {
    SpliceAt(c, k, p);
    var d := c[..k] + [p] + c[k..];
    forall i, j | 0 <= i < j < |d| ensures d[i].1 >= d[j].1 {
      if j == k {
        assert d[i] == c[i];
      } else if i == k {
        assert d[j] == c[j - 1];
      }
    }
  }

  /** Inserting a new key keeps the keys distinct and adds exactly that key. */
  lemma InsertKeys(p: (Cell, nat), c: Counts)
    ensures forall y :: y in Keys(Insert(p, c)) <==> y == p.0 || y in Keys(c)
    ensures DistinctKeys(c) && p.0 !in Keys(c) ==> DistinctKeys(Insert(p, c))
  {
    var k := CountPosition(p, c);
    var keys := Keys(c);
    SpliceAt(keys, k, p.0);
    SpliceAt(c, k, p);
    assert Keys(Insert(p, c)) == keys[..k] + [p.0] + keys[k..];
    if DistinctKeys(c) && p.0 !in keys {
      assert Distinct(keys);
      DistinctSplice(keys, k, p.0);
    }
  }

  /** Counts ordered by non-increasing count (an insertion sort). */
  function SortByCount(c: Counts): (d: Counts)
    ensures |d| == |c|
  {
    if c == [] then [] else Insert(c[|c| - 1], SortByCount(c[..|c| - 1]))
  }

  /** Sorting by count is a permutation that leaves the counts non-increasing. */
  lemma {:induction false} SortByCountSorts(c: Counts)
    ensures multiset(SortByCount(c)) == multiset(c)
    ensures forall q :: q in SortByCount(c) <==> q in c
    ensures ByCount(SortByCount(c))
    ensures Total(SortByCount(c)) == Total(c)
  {
    if c != [] {
      var init, last := c[..|c| - 1], c[|c| - 1];
      assert c == init + [last];
      SortByCountSorts(init);
      InsertKeeps(last, SortByCount(init));
      InsertPermutes(last, SortByCount(init));
      TotalOfAppend(init, last);
      assert multiset(c) == multiset(init) + multiset{last};
    }
  }

  lemma {:induction false} SortByCountKeys(c: Counts)
    ensures forall y :: y in Keys(SortByCount(c)) <==> y in Keys(c)
    ensures DistinctKeys(c) ==> DistinctKeys(SortByCount(c))
  {
    if c != [] {
      var init, last := c[..|c| - 1], c[|c| - 1];
      assert c == init + [last];
      assert Keys(c) == Keys(init) + [last.0];
      SortByCountKeys(init);
      InsertKeys(last, SortByCount(init));
    }
  }

  /** pandas `value_counts(dropna=False)`: every distinct value with its count, most frequent first. */
  function ValueCounts(s: seq<Cell>): (c: Counts)
    ensures DistinctKeys(c) && ByCount(c)
    ensures Total(c) == |s|
    ensures forall x :: x in Keys(c) <==> x in s
    ensures forall i | 0 <= i < |c| :: c[i].1 == multiset(s)[c[i].0] && c[i].1 >= 1
  {
    var tally := Tally(s);
    TallyCounts(s);
    SortByCountSorts(tally);
    SortByCountKeys(tally);
    var sorted := SortByCount(tally);
    forall i | 0 <= i < |sorted|
      ensures sorted[i].1 == multiset(s)[sorted[i].0] && sorted[i].1 >= 1
    {
      assert sorted[i] in tally;
      var k :| 0 <= k < |tally| && tally[k] == sorted[i];
      assert tally[k].0 in Keys(tally);
    }
    sorted
  }

  /** One row of the regime summary: a value, its number of rows and its share in percent. */
  datatype SummaryRow = SummaryRow(regime: Cell, days: nat, pct: real)

  /** `days / total * 100`, rounded half to even to one decimal. */
  function Percent(days: nat, total: nat): (pct: real)
    requires total > 0
    ensures -0.5 <= (pct - days as real * 100.0 / total as real) * 10.0 <= 0.5
  {
    assert Pow10(1) == 10.0;
    assert days as real / total as real * 100.0 == days as real * 100.0 / total as real;
    Round(days as real / total as real * 100.0, 1)
  }

  /** The sum of the `days` column. */
  function Days(rows: seq<SummaryRow>): nat {
    if rows == [] then 0 else rows[0].days + Days(rows[1..])
  }

  function Regimes(rows: seq<SummaryRow>): (regimes: seq<Cell>)
    ensures |regimes| == |rows|
    ensures forall i | 0 <= i < |rows| :: regimes[i] == rows[i].regime
  {
    seq(|rows|, i requires 0 <= i < |rows| => rows[i].regime)
  }

  /** One summary row per counted value, its share taken of `total`. */
  function SummaryRows(c: Counts, total: nat): (rows: seq<SummaryRow>)
    requires total > 0
    ensures |rows| == |c|
    ensures forall i | 0 <= i < |c| :: rows[i] == SummaryRow(c[i].0, c[i].1, Percent(c[i].1, total))
    ensures Days(rows) == Total(c)
  {
    if c == [] then [] else [SummaryRow(c[0].0, c[0].1, Percent(c[0].1, total))] + SummaryRows(c[1..], total)
  }

  /** The summary of a column's cells: one row per distinct value, most frequent first. */
  function Summary(cells: seq<Cell>): (rows: seq<SummaryRow>)
    ensures forall i, j | 0 <= i < j < |rows| :: rows[i].regime != rows[j].regime
    ensures forall x :: x in Regimes(rows) <==> x in cells
    ensures forall i | 0 <= i < |rows| :: rows[i].days == multiset(cells)[rows[i].regime] && rows[i].days >= 1
    ensures Days(rows) == |cells|
    ensures forall i, j | 0 <= i < j < |rows| :: rows[i].days >= rows[j].days
    ensures forall i | 0 <= i < |rows| :: |cells| > 0 && rows[i].pct == Percent(rows[i].days, |cells|)
  {
    var counts := ValueCounts(cells);
    var total := Total(counts);
    if total == 0 then []
    else
      var rows := SummaryRows(counts, total);
      assert Regimes(rows) == Keys(counts);
      rows
  }

  /**
   * `regime_summary`: one row per distinct value of the column (a missing
   * value counts as a value), its number of rows and its percentage of all
   * rows, most frequent first.
   */
  function RegimeSummary(t: Table, regimeCol: string): (r: Result<seq<SummaryRow>, Error>)
    requires t.Valid()
    ensures r.Err? <==> regimeCol !in t.columns
    ensures r.Err? ==> r.error == KeyError([regimeCol])
    ensures r.Ok? ==> r.value == Summary(Cells(t.columns[regimeCol])) && Days(r.value) == t.Rows()
  {
    if regimeCol !in t.columns then Err(KeyError([regimeCol]))
    else Ok(Summary(Cells(t.columns[regimeCol])))
  }

  // ---------------------------------------------------- top stress events

  /** The context columns shown beside the score and the price, when the table has them. */
  const EventExtras: seq<string> := ["fwd_ret_1d", "fwd_ret_5d", "fwd_ret_20d", "fwd_vol_20d", "regime"]

  /** The selected events: the columns shown and the row positions, highest score first. */
  datatype Events = Events(columns: seq<string>, rows: seq<nat>)

  /** Every position is a row of `score` whose score is present. */
  ghost predicate Scored(rows: seq<nat>, score: Series) {
    forall i | 0 <= i < |rows| :: rows[i] < |score| && score[rows[i]].Some?
  }

  /** The positions are ordered by non-increasing score. */
  ghost predicate ByScore(rows: seq<nat>, score: Series)
    requires Scored(rows, score)
  {
    forall i, j | 0 <= i < j < |rows| :: score[rows[i]].value >= score[rows[j]].value
  }

  /** The position after every row whose score is above `p`'s own. */
  function ScorePosition(p: nat, rows: seq<nat>, score: Series): (k: nat)
    requires p < |score| && score[p].Some? && Scored(rows, score)
    ensures k <= |rows|
    ensures forall i | 0 <= i < k :: score[rows[i]].value > score[p].value
    ensures k < |rows| ==> score[rows[k]].value <= score[p].value
  {
    if rows == [] || score[p].value >= score[rows[0]].value then 0
    else 1 + ScorePosition(p, rows[1..], score)
  }

  /** Inserts `p` before the first position whose score is not above its own. */
  function InsertByScore(p: nat, rows: seq<nat>, score: Series): (d: seq<nat>)
    requires p < |score| && score[p].Some? && Scored(rows, score)
    ensures |d| == |rows| + 1
    ensures multiset(d) == multiset(rows) + multiset{p}
    ensures forall q :: q in d <==> q == p || q in rows
    ensures Scored(d, score)
  {
    var k := ScorePosition(p, rows, score);
    SpliceAt(rows, k, p);
    SpliceMultiset(rows, k, p);
    rows[..k] + [p] + rows[k..]
  }

  /** Inserting keeps the positions ordered by score, and distinct when `p` is new. */
  lemma InsertByScoreSorts(p: nat, rows: seq<nat>, score: Series)
    requires p < |score| && score[p].Some? && Scored(rows, score)
    ensures ByScore(rows, score) ==> ByScore(InsertByScore(p, rows, score), score)
    ensures Distinct(rows) && p !in rows ==> Distinct(InsertByScore(p, rows, score))
  {
    var k := ScorePosition(p, rows, score);
    if ByScore(rows, score) {
      SpliceByScore(rows, k, p, score);
    }
    if Distinct(rows) && p !in rows {
      DistinctSplice(rows, k, p);
    }
  }

  /** Placing `p` after the higher scores and before the others keeps the order. */
  lemma SpliceByScore(rows: seq<nat>, k: nat, p: nat, score: Series)
    requires p < |score| && score[p].Some? && Scored(rows, score) && ByScore(rows, score) && k <= |rows|
    requires forall i | 0 <= i < k :: score[rows[i]].value > score[p].value
    requires k < |rows| ==> score[rows[k]].value <= score[p].value
    ensures Scored(rows[..k] + [p] + rows[k..], score)
    ensures ByScore(rows[..k] + [p] + rows[k..], score)
  {
    SpliceAt(rows, k, p);
    var d := rows[..k] + [p] + rows[k..];
    forall i, j | 0 <= i < j < |d| ensures score[d[i]].value >= score[d[j]].value {
      if j == k {
        assert d[i] == rows[i];
      } else if i == k {
        assert d[j] == rows[j - 1];
      }
    }
  }

  /** The positions ordered by non-increasing score (an insertion sort). */
  function SortByScore(rows: seq<nat>, score: Series): (d: seq<nat>)
    requires Scored(rows, score)
    ensures |d| == |rows|
    ensures multiset(d) == multiset(rows)
    ensures forall q :: q in d <==> q in rows
    ensures Scored(d, score)
  {
    if rows == [] then []
    else
      var init := rows[..|rows| - 1];
      assert rows == init + [rows[|rows| - 1]];
      assert multiset(rows) == multiset(init) + multiset{rows[|rows| - 1]};
      InsertByScore(rows[|rows| - 1], SortByScore(init, score), score)
  }

  lemma {:induction false} SortByScoreSorts(rows: seq<nat>, score: Series)
    requires Scored(rows, score)
    ensures ByScore(SortByScore(rows, score), score)
    ensures Distinct(rows) ==> Distinct(SortByScore(rows, score))
  {
    if rows != [] {
      var init, last := rows[..|rows| - 1], rows[|rows| - 1];
      assert rows == init + [last];
      assert Scored(init, score);
      SortByScoreSorts(init, score);
      var sorted := SortByScore(init, score);
      if Distinct(rows) {
        assert Distinct(init) && last !in init;
        assert last !in sorted;
      }
      InsertByScoreSorts(last, sorted, score);
    }
  }

  /** pandas `head(n)`: the first `n` entries, or all but the last `-n` when `n` is negative. */
  function Head(rows: seq<nat>, n: int): (h: seq<nat>)
    ensures |h| == if n >= 0 then (if n < |rows| then n else |rows|) else (if |rows| + n > 0 then |rows| + n else 0)
    ensures h == rows[..|h|]
  {
    if n >= 0 then (if n < |rows| then rows[..n] else rows)
    else (if |rows| + n > 0 then rows[..|rows| + n] else [])
  }

  /**
   * `top_stress_events`: the score, the price and the context columns the
   * table has, for the `n` rows with the highest present score, highest
   * first (pandas `head(n)`, so a negative `n` drops rows from the end).
   * When the score's label is also selected as the price or a context
   * column, the selection holds that label twice and sorting by it fails.
   */
  function TopStressEvents(t: Table, stressCol: string, n: int): (r: Result<Events, Error>)
    requires t.Valid()
    ensures r.Ok? <==> HasNumeric(t, stressCol) && "Close" in t.columns && stressCol !in EventColumns(t, stressCol)[1..]
    ensures stressCol !in t.columns || "Close" !in t.columns ==>
      && r.Err? && r.error.KeyError?
      && SubsequenceOf(r.error.names, [stressCol, "Close"])
      && (stressCol in r.error.names <==> stressCol !in t.columns)
      && ("Close" in r.error.names <==> "Close" !in t.columns)
    ensures stressCol in t.columns && "Close" in t.columns && r.Err? ==>
      r.error == (if stressCol in EventColumns(t, stressCol)[1..] then DuplicateLabel(stressCol) else NotNumeric(stressCol))
    ensures r.Ok? ==> r.value == Events(EventColumns(t, stressCol), TopRows(t.columns[stressCol].values, n))
  {
    var needed := [stressCol, "Close"];
    var missing := Filter(needed, (c: string) => c !in t.columns);
    assert needed[0] == stressCol && needed[1] == "Close";
    assert forall i | 0 <= i < |missing| :: missing[i] in needed && missing[i] !in t.columns;
    if missing != [] then Err(KeyError(missing))
    else if stressCol in EventColumns(t, stressCol)[1..] then Err(DuplicateLabel(stressCol))
    else
      var score :- NumericColumn(t, stressCol);
      Ok(Events(EventColumns(t, stressCol), TopRows(score, n)))
  }

  /** The score's label is selected twice exactly when it is the price or a context column the table has. */
  lemma RepeatedScoreLabel(t: Table, stressCol: string)
    ensures stressCol in EventColumns(t, stressCol)[1..] <==> stressCol == "Close" || (stressCol in EventExtras && stressCol in t.columns)
  {
    var columns := EventColumns(t, stressCol);
    assert columns[1..] == ["Close"] + columns[2..];
  }

  /** The score, the price, then the context columns the table has, in their fixed order. */
  function EventColumns(t: Table, stressCol: string): (columns: seq<string>)
    ensures |columns| >= 2 && columns[..2] == [stressCol, "Close"]
    ensures SubsequenceOf(columns[2..], EventExtras)
    ensures forall i | 0 <= i < |EventExtras| :: EventExtras[i] in columns[2..] <==> EventExtras[i] in t.columns
    ensures forall c :: c in columns[2..] <==> c in EventExtras && c in t.columns
  {
    var extras := Filter(EventExtras, (c: string) => c in t.columns);
    assert forall i | 0 <= i < |extras| :: extras[i] in EventExtras && extras[i] in t.columns;
    var columns := [stressCol, "Close"] + extras;
    assert columns[2..] == extras;
    columns
  }

  /**
   * The positions of the `n` highest present scores, highest first: as many
   * as `head(n)` keeps of the present scores, and none of the positions left
   * out has a higher score than one kept.
   */
  function TopRows(score: Series, n: int): (rows: seq<nat>)
    ensures var m := |Finite(score)|;
      |rows| == (if n >= 0 then (if n < m then n else m) else (if m + n > 0 then m + n else 0))
    ensures Scored(rows, score) && Distinct(rows) && ByScore(rows, score)
    ensures forall i, p | 0 <= i < |rows| && 0 <= p < |score| && score[p].Some? && p !in rows ::
      score[rows[i]].value >= score[p].value
  {
    var defined := Positions(Presence(score), 0);
    PositionsAreComplete(Presence(score), 0);
    PositionsAscend(Presence(score), 0);
    FiniteIsPresent(score);
    assert Scored(defined, score);
    var sorted := SortByScore(defined, score);
    SortByScoreSorts(defined, score);
    var rows := Head(sorted, n);
    TopRowsDominate(sorted, rows, score);
    rows
  }

  /** A prefix of a sorted list of present scores holds the highest of them. */
  lemma TopRowsDominate(sorted: seq<nat>, rows: seq<nat>, score: Series)
    requires Scored(sorted, score) && ByScore(sorted, score) && Distinct(sorted)
    requires |rows| <= |sorted| && rows == sorted[..|rows|]
    ensures Scored(rows, score) && ByScore(rows, score) && Distinct(rows)
    ensures forall i, p | 0 <= i < |rows| && p in sorted && p !in rows :: score[rows[i]].value >= score[p].value
  {
    forall i, p | 0 <= i < |rows| && p in sorted && p !in rows
      ensures score[rows[i]].value >= score[p].value
    {
      var j :| 0 <= j < |sorted| && sorted[j] == p;
    }
  }

  // --------------------------------------------------- correlation snapshot

  /** The forward metrics correlated with the score, in the order they are reported. */
  const Candidates: seq<string> := ["fwd_vol_20d", "fwd_ret_1d", "fwd_ret_5d", "fwd_ret_20d"]

  /** The fewest rows with both values present for a correlation to be reported. */
  const MinPairs: nat := 30

  /** One reported correlation; a missing value is NaN (one of the two series has no spread). */
  datatype CorrRow = CorrRow(metric: string, corr: Option<real>)

  function Metrics(rows: seq<CorrRow>): (metrics: seq<string>)
    ensures |metrics| == |rows|
    ensures forall i | 0 <= i < |rows| :: metrics[i] == rows[i].metric
  {
    seq(|rows|, i requires 0 <= i < |rows| => rows[i].metric)
  }

  /** The rows where both series are present (`dropna` on the pair), as two aligned sequences. */
  function Paired(a: Series, b: Series): (p: (seq<real>, seq<real>))
    requires |a| == |b|
    ensures |p.0| == |p.1| <= |a|
    ensures AllPresent(a) && AllPresent(b) ==> |p.0| == |a|
  {
    if a == [] then ([], [])
    else
      var rest := Paired(a[1..], b[1..]);
      if a[0].Some? && b[0].Some? then ([a[0].value] + rest.0, [b[0].value] + rest.1) else rest
  }

  /** Which rows hold a present value in both series. */
  function PairPresence(a: Series, b: Series): (keep: seq<bool>)
    requires |a| == |b|
    ensures |keep| == |a|
    ensures forall i | 0 <= i < |a| :: keep[i] == (a[i].Some? && b[i].Some?)
  {
    seq(|a|, i requires 0 <= i < |a| => a[i].Some? && b[i].Some?)
  }

  /**
   * The pairs are exactly the values of the two series at the rows where
   * both are present, in row order.
   */
  lemma PairedIsComplete(a: Series, b: Series)
    requires |a| == |b|
    ensures var p, rows := Paired(a, b), Positions(PairPresence(a, b), 0);
      && |p.0| == |rows|
      && forall i | 0 <= i < |rows| :: p.0[i] == a[rows[i]].value && p.1[i] == b[rows[i]].value
  {
    PairedFrom(a, b, 0);
    assert a[0..] == a && b[0..] == b;
  }

  lemma {:induction false} PairedFrom(a: Series, b: Series, from: nat)
    requires |a| == |b| && from <= |a|
    decreases |a| - from
    ensures var p, rows := Paired(a[from..], b[from..]), Positions(PairPresence(a, b), from);
      && |p.0| == |rows|
      && forall i | 0 <= i < |rows| :: p.0[i] == a[rows[i]].value && p.1[i] == b[rows[i]].value
  {
    if from < |a| {
      PairedFrom(a, b, from + 1);
      PairedStep(a, b, from);
      if a[from].Some? && b[from].Some? {
        PairedCons(a, b, from, Paired(a[from + 1..], b[from + 1..]), Positions(PairPresence(a, b), from + 1));
      }
    }
  }

  /** Prepending the pair at row `from` to aligned pairs and rows keeps them aligned. */
  lemma PairedCons(a: Series, b: Series, from: nat, rest: (seq<real>, seq<real>), later: seq<nat>)
    requires from < |a| == |b| && a[from].Some? && b[from].Some?
    requires |rest.0| == |later| && |rest.1| == |later|
    requires forall i | 0 <= i < |later| :: later[i] < |a| && a[later[i]].Some? && b[later[i]].Some?
    requires forall i | 0 <= i < |later| :: rest.0[i] == a[later[i]].value && rest.1[i] == b[later[i]].value
    ensures var p, rows := ([a[from].value] + rest.0, [b[from].value] + rest.1), [from] + later;
      forall i | 0 <= i < |rows| :: p.0[i] == a[rows[i]].value && p.1[i] == b[rows[i]].value
  {
    var p, rows := ([a[from].value] + rest.0, [b[from].value] + rest.1), [from] + later;
    forall i | 0 <= i < |rows|
      ensures p.0[i] == a[rows[i]].value && p.1[i] == b[rows[i]].value
    {
      if i > 0 {
        assert p.0[i] == rest.0[i - 1] && p.1[i] == rest.1[i - 1] && rows[i] == later[i - 1];
      }
    }
  }

  /** One step of `Paired` from row `from`, with the matching step of the row list. */
  lemma PairedStep(a: Series, b: Series, from: nat)
    requires |a| == |b| && from < |a|
    ensures var rest, later := Paired(a[from + 1..], b[from + 1..]), Positions(PairPresence(a, b), from + 1);
      if a[from].Some? && b[from].Some? then
        && Paired(a[from..], b[from..]) == ([a[from].value] + rest.0, [b[from].value] + rest.1)
        && Positions(PairPresence(a, b), from) == [from] + later
      else
        && Paired(a[from..], b[from..]) == rest
        && Positions(PairPresence(a, b), from) == later
  {
    assert a[from..][1..] == a[from + 1..] && b[from..][1..] == b[from + 1..];
  }

  /** The correlation rounded to four decimals; NaN stays NaN. */
  function RoundCorr(corr: Option<real>): (r: Option<real>)
    ensures r.Some? <==> corr.Some?
    ensures r.Some? ==> -0.5 <= (r.value - corr.value) * 10000.0 <= 0.5
  {
    assert Pow10(4) == 10000.0;
    if corr.Some? then Some(Round(corr.value, 4)) else None
  }

  /** A candidate is reported when it and the score are numeric columns with at least 30 rows where both are present. */
  predicate Qualifies(t: Table, stressCol: string, c: string) {
    && HasNumeric(t, stressCol) && HasNumeric(t, c)
    && |t.columns[stressCol].values| == |t.columns[c].values|
    && |Paired(t.columns[stressCol].values, t.columns[c].values).0| >= MinPairs
  }

  /** The Pearson correlation of the score with a column over the rows where both are present. */
  function Correlation(t: Table, stressCol: string, c: string, sqrt: real -> real): Option<real>
    requires Qualifies(t, stressCol, c)
  {
    var pairs := Paired(t.columns[stressCol].values, t.columns[c].values);
    RoundCorr(Pearson(pairs.0, pairs.1, sqrt))
  }

  /** The rows the snapshot has after visiting the candidates `cands` in order. */
  function Snapshot(t: Table, stressCol: string, cands: seq<string>, sqrt: real -> real): Result<seq<CorrRow>, Error>
    requires t.Valid()
  {
    if cands == [] then Ok([])
    else
      var rows :- Snapshot(t, stressCol, cands[..|cands| - 1], sqrt);
      var c := cands[|cands| - 1];
      if c !in t.columns then Ok(rows)
      else
        var score :- NumericColumn(t, stressCol);
        var metric :- NumericColumn(t, c);
        var pairs := Paired(score, metric);
        if |pairs.0| < MinPairs then Ok(rows)
        else if c == stressCol then Err(DuplicateLabel(c))
        else Ok(rows + [CorrRow(c, RoundCorr(Pearson(pairs.0, pairs.1, sqrt)))])
  }

  /**
   * Visiting candidate `c` raises: it is a column of the table and it or the
   * score is not numeric, or it is the score column itself with enough pairs
   * for the correlation to be taken of the twice-selected label.
   */
  predicate Fails(t: Table, stressCol: string, c: string)
    requires t.Valid()
  {
    && c in t.columns
    && (|| !HasNumeric(t, stressCol) || !HasNumeric(t, c)
        || (c == stressCol && |Paired(t.columns[c].values, t.columns[c].values).0| >= MinPairs))
  }

  /**
   * The snapshot fails exactly when some candidate fails, and then with the
   * score's lookup error or the error of the first failing candidate.
   */
  lemma {:induction false} SnapshotStatus(t: Table, stressCol: string, cands: seq<string>, sqrt: real -> real)
    requires t.Valid()
    ensures var r := Snapshot(t, stressCol, cands, sqrt);
      && (r.Ok? <==> forall i | 0 <= i < |cands| :: !Fails(t, stressCol, cands[i]))
      && (r.Err? && !HasNumeric(t, stressCol) ==>
            r.error == (if stressCol in t.columns then NotNumeric(stressCol) else KeyError([stressCol])))
      && (r.Err? && HasNumeric(t, stressCol) ==>
            exists k | 0 <= k < |cands| ::
              && Fails(t, stressCol, cands[k])
              && r.error == (if cands[k] == stressCol then DuplicateLabel(stressCol) else NotNumeric(cands[k]))
              && forall j | 0 <= j < k :: !Fails(t, stressCol, cands[j]))
  {
    if cands != [] {
      var init, c := cands[..|cands| - 1], cands[|cands| - 1];
      assert cands == init + [c];
      assert forall i | 0 <= i < |init| :: cands[i] == init[i];
      SnapshotStatus(t, stressCol, init, sqrt);
      var r := Snapshot(t, stressCol, cands, sqrt);
      if r.Err? && HasNumeric(t, stressCol) {
        if Snapshot(t, stressCol, init, sqrt).Err? {
          var k :| 0 <= k < |init| && Fails(t, stressCol, init[k])
            && r.error == (if init[k] == stressCol then DuplicateLabel(stressCol) else NotNumeric(init[k]))
            && forall j | 0 <= j < k :: !Fails(t, stressCol, init[j]);
          assert cands[k] == init[k];
        } else {
          assert cands[|init|] == c;
        }
      }
    }
  }

  /**
   * A snapshot that succeeds lists, in candidate order, exactly the
   * candidates that qualify, each with its rounded correlation.
   */
  lemma {:induction false} SnapshotRows(t: Table, stressCol: string, cands: seq<string>, sqrt: real -> real)
    requires t.Valid() && Snapshot(t, stressCol, cands, sqrt).Ok?
    ensures var rows := Snapshot(t, stressCol, cands, sqrt).value;
      && SubsequenceOf(Metrics(rows), cands)
      && (forall i | 0 <= i < |cands| :: cands[i] in Metrics(rows) <==> Qualifies(t, stressCol, cands[i]))
      && (forall k | 0 <= k < |rows| ::
            Qualifies(t, stressCol, rows[k].metric)
            && rows[k].corr == Correlation(t, stressCol, rows[k].metric, sqrt))
  {
    if cands != [] {
      var init, c := cands[..|cands| - 1], cands[|cands| - 1];
      assert cands == init + [c];
      var prev := Snapshot(t, stressCol, init, sqrt);
      assert prev.Ok?;
      SnapshotRows(t, stressCol, init, sqrt);
      var rows := prev.value;
      SubsequenceOfSnoc(Metrics(rows), init, c);
      if Qualifies(t, stressCol, c) {
        var row := CorrRow(c, Correlation(t, stressCol, c, sqrt));
        assert Snapshot(t, stressCol, cands, sqrt).value == rows + [row];
        assert Metrics(rows + [row]) == Metrics(rows) + [c];
      } else {
        assert Snapshot(t, stressCol, cands, sqrt).value == rows;
      }
    }
  }

  /**
   * `correlation_snapshot`: visits the candidates in order and appends a
   * row for each one that is a column of the table and has at least 30
   * rows where it and the score are both present.
   */
  method CorrelationSnapshot(t: Table, stressCol: string, sqrt: real -> real) returns (r: Result<seq<CorrRow>, Error>)
    requires t.Valid()
    ensures r == Snapshot(t, stressCol, Candidates, sqrt)
    ensures r.Ok? <==> forall i | 0 <= i < |Candidates| :: !Fails(t, stressCol, Candidates[i])
    ensures r.Ok? ==>
      && SubsequenceOf(Metrics(r.value), Candidates)
      && (forall i | 0 <= i < |Candidates| :: Candidates[i] in Metrics(r.value) <==> Qualifies(t, stressCol, Candidates[i]))
      && (forall k | 0 <= k < |r.value| ::
            Qualifies(t, stressCol, r.value[k].metric)
            && r.value[k].corr == Correlation(t, stressCol, r.value[k].metric, sqrt))
  {
    var rows: seq<CorrRow> := [];
    var i := 0;
    while i < |Candidates|
      invariant 0 <= i <= |Candidates|
      invariant Snapshot(t, stressCol, Candidates[..i], sqrt) == Ok(rows)
    {
      var c := Candidates[i];
      assert Candidates[..i + 1][..i] == Candidates[..i];
      if c in t.columns {
        var score := NumericColumn(t, stressCol);
        if score.Err? {
          SnapshotFailurePersists(t, stressCol, Candidates, i + 1, sqrt);
          return Err(score.error);
        }
        var metric := NumericColumn(t, c);
        if metric.Err? {
          SnapshotFailurePersists(t, stressCol, Candidates, i + 1, sqrt);
          return Err(metric.error);
        }
        var pairs := Paired(score.value, metric.value);
        if |pairs.0| >= MinPairs {
          if c == stressCol {
            SnapshotFailurePersists(t, stressCol, Candidates, i + 1, sqrt);
            return Err(DuplicateLabel(c));
          }
          rows := rows + [CorrRow(c, RoundCorr(Pearson(pairs.0, pairs.1, sqrt)))];
        }
      }
      i := i + 1;
    }
    assert Candidates[..|Candidates|] == Candidates;
    SnapshotStatus(t, stressCol, Candidates, sqrt);
    SnapshotRows(t, stressCol, Candidates, sqrt);
    r := Ok(rows);
  }

  /**
   * Correlating the score with itself fails once it has 30 present rows:
   * selecting the score twice yields a two-column frame, not a series.
   */
  lemma SelfCorrelationFails(t: Table, stressCol: string, sqrt: real -> real)
    requires t.Valid() && HasNumeric(t, stressCol) && stressCol in Candidates
    requires |Paired(t.columns[stressCol].values, t.columns[stressCol].values).0| >= MinPairs
    ensures Snapshot(t, stressCol, Candidates, sqrt).Err?
  {
    SnapshotStatus(t, stressCol, Candidates, sqrt);
    var i :| 0 <= i < |Candidates| && Candidates[i] == stressCol;
    assert Fails(t, stressCol, Candidates[i]);
  }

  /** Once a prefix of the candidates fails, the whole snapshot fails with the same error. */
  lemma {:induction false} SnapshotFailurePersists(t: Table, stressCol: string, cands: seq<string>, k: nat, sqrt: real -> real)
    requires t.Valid() && k <= |cands| && Snapshot(t, stressCol, cands[..k], sqrt).Err?
    ensures Snapshot(t, stressCol, cands, sqrt) == Snapshot(t, stressCol, cands[..k], sqrt)
    decreases |cands|
  {
    if k < |cands| {
      var init := cands[..|cands| - 1];
      assert init[..k] == cands[..k];
      SnapshotFailurePersists(t, stressCol, init, k, sqrt);
    } else {
      assert cands[..k] == cands;
    }
  }
}
