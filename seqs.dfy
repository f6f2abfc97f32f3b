/** Sequence helpers shared by the scoring and analysis stages. */
module Seqs {

  /** `a` is `b` with some elements left out, the rest kept in order. */
  ghost predicate SubsequenceOf<T>(a: seq<T>, b: seq<T>)
    decreases |b|
  {
    if a == [] then true
    else if b == [] then false
    else (a[0] == b[0] && SubsequenceOf(a[1..], b[1..])) || SubsequenceOf(a, b[1..])
  }

  /** The elements of `s` that satisfy `keep`, in their original order (a list comprehension with a guard). */
  function Filter<T>(s: seq<T>, keep: T -> bool): (r: seq<T>)
    ensures forall i | 0 <= i < |r| :: r[i] in s && keep(r[i])
    ensures forall i | 0 <= i < |s| :: keep(s[i]) ==> s[i] in r
    ensures SubsequenceOf(r, s)
    ensures |r| <= |s|
  {
    if s == [] then []
    else
      assert s == [s[0]] + s[1..];
      if keep(s[0]) then [s[0]] + Filter(s[1..], keep)
      else Filter(s[1..], keep)
  }

  /** Filtering keeps every occurrence of a kept element and none of the others. */
  lemma {:induction false} FilterCounts<T>(s: seq<T>, keep: T -> bool)
    ensures forall i | 0 <= i < |s| :: multiset(Filter(s, keep))[s[i]] == if keep(s[i]) then multiset(s)[s[i]] else 0
  {
    if s != [] {
      var rest := s[1..];
      FilterCounts(rest, keep);
      var head: multiset<T> := if keep(s[0]) then multiset{s[0]} else multiset{};
      assert s == [s[0]] + rest;
      assert multiset(s) == multiset{s[0]} + multiset(rest);
      assert multiset(Filter(s, keep)) == head + multiset(Filter(rest, keep));
      forall i | 0 <= i < |s|
        ensures multiset(Filter(s, keep))[s[i]] == if keep(s[i]) then multiset(s)[s[i]] else 0
      {
        var x := s[i];
        if x !in rest {
          assert multiset(rest)[x] == 0;
          assert x == s[0];
        } else {
          var j :| 0 <= j < |rest| && rest[j] == x;
        }
      }
    }
  }

  /** The positions from `from` on where `keep` holds, ascending. */
  function Positions(keep: seq<bool>, from: nat): (rows: seq<nat>)
    decreases |keep| - from
    ensures forall i | 0 <= i < |rows| :: from <= rows[i] < |keep| && keep[rows[i]]
  {
    if from >= |keep| then []
    else (if keep[from] then [from] else []) + Positions(keep, from + 1)
  }

  /** `Positions` misses no position from `from` on where `keep` holds. */
  lemma {:induction false} PositionsAreComplete(keep: seq<bool>, from: nat)
    decreases |keep| - from
    ensures forall p | from <= p < |keep| && keep[p] :: p in Positions(keep, from)
  {
    if from < |keep| {
      PositionsAreComplete(keep, from + 1);
      var later := Positions(keep, from + 1);
      var rows := (if keep[from] then [from] else []) + later;
      assert Positions(keep, from) == rows;
      forall p | from <= p < |keep| && keep[p] ensures p in rows {
        if p > from {
          assert p in later;
        } else {
          assert rows[0] == p;
        }
      }
    }
  }

  /** `Positions` lists its positions in ascending order. */
  lemma {:induction false} PositionsAscend(keep: seq<bool>, from: nat)
    decreases |keep| - from
    ensures forall i, j | 0 <= i < j < |Positions(keep, from)| :: Positions(keep, from)[i] < Positions(keep, from)[j]
  {
    if from < |keep| {
      PositionsAscend(keep, from + 1);
      var later := Positions(keep, from + 1);
      var rows := (if keep[from] then [from] else []) + later;
      assert Positions(keep, from) == rows;
      forall i, j | 0 <= i < j < |rows| ensures rows[i] < rows[j] {
        if keep[from] {
          assert rows[j] == later[j - 1] && later[j - 1] > from;
          if i > 0 {
            assert rows[i] == later[i - 1] && later[i - 1] < later[j - 1];
          }
        } else {
          assert rows[i] == later[i] && rows[j] == later[j];
        }
      }
    }
  }

  /** No element occurs twice. */
  ghost predicate Distinct<T>(s: seq<T>) {
    forall i, j | 0 <= i < j < |s| :: s[i] != s[j]
  }

  /** `s` with `x` placed at position `k`: every element keeps its relative order. */
  lemma SpliceAt<T>(s: seq<T>, k: nat, x: T)
    requires k <= |s|
    ensures |s[..k] + [x] + s[k..]| == |s| + 1
    ensures forall i | 0 <= i < |s| + 1 ::
      (s[..k] + [x] + s[k..])[i] == if i < k then s[i] else if i == k then x else s[i - 1]
    ensures forall y :: y in s[..k] + [x] + s[k..] <==> y == x || y in s
  {
    assert s == s[..k] + s[k..];
  }

  /** Placing `x` anywhere adds exactly one `x` to the elements. */
  lemma SpliceMultiset<T>(s: seq<T>, k: nat, x: T)
    requires k <= |s|
    ensures multiset(s[..k] + [x] + s[k..]) == multiset(s) + multiset{x}
  {
    assert s == s[..k] + s[k..];
  }

  /** Placing a new element anywhere keeps the elements distinct. */
  lemma DistinctSplice<T>(s: seq<T>, k: nat, x: T)
    requires k <= |s| && Distinct(s) && x !in s
    ensures Distinct(s[..k] + [x] + s[k..])
  {
    SpliceAt(s, k, x);
    var d := s[..k] + [x] + s[k..];
    forall i, j | 0 <= i < j < |d| ensures d[i] != d[j] {
      if i == k {
        assert d[j] == s[j - 1];
      } else if j == k {
        assert d[i] == s[i];
      }
    }
  }

  lemma {:induction false} SubsequenceOfSnoc<T>(a: seq<T>, b: seq<T>, x: T)
    requires SubsequenceOf(a, b)
    ensures SubsequenceOf(a, b + [x])
    ensures SubsequenceOf(a + [x], b + [x])
    decreases |b|
  {
    if b == [] {
      assert a == [];
      assert ([] + [x])[1..] == [];
    } else {
      assert (b + [x])[1..] == b[1..] + [x];
      if a != [] && a[0] == b[0] && SubsequenceOf(a[1..], b[1..]) {
        SubsequenceOfSnoc(a[1..], b[1..], x);
        assert (a + [x])[1..] == a[1..] + [x];
      } else if a != [] {
        SubsequenceOfSnoc(a, b[1..], x);
      } else {
        SubsequenceOfSnoc(a, b[1..], x);
        assert ([] + [x])[1..] == [];
      }
    }
  }
}
