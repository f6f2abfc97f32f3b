/**
 * The in-memory table the pipeline passes from stage to stage: row labels
 * (the bar dates, in chronological order) and named columns of equal length.
 * A numeric cell is `Some(x)` for a finite float and `None` for a missing
 * one (NaN). Infinities are not represented: every quotient the model forms
 * is missing where its divisor is zero or missing, so no infinity arises.
 */
module Frame {
  import opened Wrappers
  import opened Seqs

  /** A numeric column; `None` stands for a NaN. */
  type Series = seq<Option<real>>

  datatype Column = Numeric(values: Series) | Text(labels: seq<string>) {
    function Length(): nat {
      if Numeric? then |values| else |labels|
    }
  }

  datatype Table = Table(index: seq<int>, columns: map<string, Column>) {
    function Rows(): nat {
      |index|
    }

    /** Every column has one entry per row. */
    ghost predicate Valid() {
      forall name | name in columns :: columns[name].Length() == |index|
    }
  }

  /** What the pipeline raises. */
  datatype Error =
    | KeyError(names: seq<string>)      // a column that is looked up does not exist
    | NotNumeric(name: string)          // a column used in arithmetic holds labels
    | MissingColumns(names: seq<string>) // the scoring stage's own check
    | DuplicateLabel(name: string)      // a selection repeats a label that is then used as one column

  predicate HasNumeric(t: Table, name: string) {
    name in t.columns && t.columns[name].Numeric?
  }

  /** `df[name]` where the column must hold numbers. */
  function NumericColumn(t: Table, name: string): (r: Result<Series, Error>)
    requires t.Valid()
    ensures r.Ok? <==> HasNumeric(t, name)
    ensures r.Ok? ==> |r.value| == t.Rows() && t.columns[name] == Numeric(r.value)
    ensures r.Err? ==> r.error == (if name in t.columns then NotNumeric(name) else KeyError([name]))
  {
    if name !in t.columns then Err(KeyError([name]))
    else if t.columns[name].Text? then Err(NotNumeric(name))
    else Ok(t.columns[name].values)
  }

  /**
   * `u` keeps the rows and row labels of `t`, has exactly the columns of `t`
   * plus `added`, and every column of `t` whose name is not in `added` is
   * unchanged.
   */
  ghost predicate Extends(t: Table, u: Table, added: set<string>) {
    && u.Valid()
    && u.index == t.index
    && u.columns.Keys == t.columns.Keys + added
    && forall name | name in t.columns && name !in added :: u.columns[name] == t.columns[name]
  }

  /** `out[name] = c`: adds the column, or replaces one of that name. */
  function WithColumn(t: Table, name: string, c: Column): (u: Table)
    requires t.Valid() && c.Length() == t.Rows()
    ensures Extends(t, u, {name}) && u.columns[name] == c
  {
    t.(columns := t.columns[name := c])
  }

  lemma ExtendsTrans(t: Table, u: Table, v: Table, a: set<string>, b: set<string>)
    requires Extends(t, u, a) && Extends(u, v, b)
    ensures Extends(t, v, a + b)
  {
  }

  /** Every entry is a finite number. */
  predicate AllPresent(s: Series) {
    forall i | 0 <= i < |s| :: s[i].Some?
  }

  /** The finite entries of `s`, in row order (pandas' `skipna`). */
  function Finite(s: Series): (xs: seq<real>)
    ensures |xs| <= |s|
    ensures AllPresent(s) ==> |xs| == |s| && forall i | 0 <= i < |s| :: xs[i] == s[i].value
  {
    if s == [] then []
    else (if s[0].Some? then [s[0].value] else []) + Finite(s[1..])
  }

  /** Which rows hold a finite number. */
  function Presence(s: Series): (keep: seq<bool>)
    ensures |keep| == |s|
    ensures forall i | 0 <= i < |s| :: keep[i] == s[i].Some?
  {
    seq(|s|, i requires 0 <= i < |s| => s[i].Some?)
  }

  /** The finite entries are the values at the rows where one is present, in row order. */
  lemma FiniteIsPresent(s: Series)
    ensures var rows := Positions(Presence(s), 0);
      |Finite(s)| == |rows| && forall i | 0 <= i < |rows| :: Finite(s)[i] == s[rows[i]].value
  {
    FiniteFrom(s, 0);
    assert s[0..] == s;
  }

  lemma {:induction false} FiniteFrom(s: Series, from: nat)
    requires from <= |s|
    decreases |s| - from
    ensures var rows := Positions(Presence(s), from);
      |Finite(s[from..])| == |rows| && forall i | 0 <= i < |rows| :: Finite(s[from..])[i] == s[rows[i]].value
  {
    if from < |s| {
      FiniteFrom(s, from + 1);
      var keep := Presence(s);
      assert s[from..][1..] == s[from + 1..];
      var rest := Finite(s[from + 1..]);
      var later := Positions(keep, from + 1);
      if s[from].Some? {
        var xs := [s[from].value] + rest;
        assert Finite(s[from..]) == xs;
        var rows := [from] + later;
        assert Positions(keep, from) == rows;
        forall i | 0 <= i < |rows| ensures xs[i] == s[rows[i]].value {
          if i > 0 {
            assert xs[i] == rest[i - 1] && rows[i] == later[i - 1];
          }
        }
      } else {
        assert Finite(s[from..]) == rest;
        assert Positions(keep, from) == later;
      }
    }
  }
}
