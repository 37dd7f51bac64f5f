/** The column arithmetic behind the weighted quantile estimator of
    `pandas_utils.py`: pandas sums, the `fill_value` product, the cumulative sum
    that does not skip missing weights, the cumulative weight fraction
    (`prop_cum`), the sort by value and the masked maximum. A missing cell (NaN)
    is `None`; numbers are exact reals. */
module WeightedStats {
  import opened Wrappers

  /** One row of an aggregated frame, restricted to the two columns the estimator
      reads for one value column: the value and its weight (a count). */
  datatype Row = Row(value: Option<real>, weight: Option<real>)

  /** The weight column of a sequence of rows. */
  function Weights(rows: seq<Row>): (ws: seq<Option<real>>)
    ensures |ws| == |rows| && forall k :: 0 <= k < |rows| ==> ws[k] == rows[k].weight
  {
    seq(|rows|, k requires 0 <= k < |rows| => rows[k].weight)
  }

  /** The value column of a sequence of rows. */
  function Values(rows: seq<Row>): (vs: seq<Option<real>>)
    ensures |vs| == |rows| && forall k :: 0 <= k < |rows| ==> vs[k] == rows[k].value
  {
    seq(|rows|, k requires 0 <= k < |rows| => rows[k].value)
  }

  /** What a cell adds to a sum that skips missing cells. */
  function OrZero(x: Option<real>): real {
    match x
    case Some(v) => v
    case None => 0.0
  }

  // ---------------------------------------------------------------------------
  // Sums

  /** `Series.sum()`: missing cells are skipped; an empty sum is 0. */
  function SkipNaSum(xs: seq<Option<real>>): (r: real)
  {
    if |xs| == 0 then 0.0 else SkipNaSum(xs[..|xs| - 1]) + OrZero(xs[|xs| - 1])
  }

  /** A sum that skips missing cells distributes over concatenation. */
  lemma {:induction false} SkipNaSumAppend(a: seq<Option<real>>, b: seq<Option<real>>)
    ensures SkipNaSum(a + b) == SkipNaSum(a) + SkipNaSum(b)
    decreases |b|
  {
    if |b| > 0 {
      var b' := b[..|b| - 1];
      assert (a + b)[..|a + b| - 1] == a + b';
      SkipNaSumAppend(a, b');
    } else {
      assert a + b == a;
    }
  }

  /** Extending a prefix by one cell adds that cell. */
  lemma SkipNaSumTake(xs: seq<Option<real>>, k: nat)
    requires k < |xs|
    ensures SkipNaSum(xs[..k + 1]) == SkipNaSum(xs[..k]) + OrZero(xs[k])
  {
    assert xs[..k + 1][..k] == xs[..k];
  }

  /** With no negative weight, every prefix of a weight column sums to at most
      the whole column and to at least 0. */
  lemma {:induction false} SkipNaSumPrefixBound(ws: seq<Option<real>>, m: nat)
    requires m <= |ws|
    requires forall k :: 0 <= k < |ws| && ws[k].Some? ==> ws[k].value >= 0.0
    ensures 0.0 <= SkipNaSum(ws[..m]) <= SkipNaSum(ws)
    decreases |ws|
  {
    if |ws| > 0 {
      var ws' := ws[..|ws| - 1];
      if m == |ws| {
        assert ws[..m] == ws;
        SkipNaSumPrefixBound(ws', m - 1);
        assert ws'[..m - 1] == ws';
      } else {
        SkipNaSumPrefixBound(ws', m);
        assert ws'[..m] == ws[..m];
        SkipNaSumPrefixBound(ws', |ws'|);
        assert ws'[..|ws'|] == ws';
      }
    }
  }

  // ---------------------------------------------------------------------------
  // The weighted mean

  /** `weight.multiply(value, fill_value=0.0)` for one row: a cell missing on one
      side counts as 0, a row missing on both sides stays missing. */
  function FilledProduct(w: Option<real>, v: Option<real>): (r: Option<real>)
    ensures r.None? <==> w.None? && v.None?
    ensures r.Some? && (w.None? || v.None?) ==> r.value == 0.0
    ensures w.Some? && v.Some? ==> r.Some? && r.value == w.value * v.value
  {
    if w.None? && v.None? then None else Some(OrZero(w) * OrZero(v))
  }

  /** The column `weight.multiply(value, fill_value=0.0)`. */
  function Products(rows: seq<Row>): (ps: seq<Option<real>>)
    ensures |ps| == |rows|
  {
    seq(|rows|, k requires 0 <= k < |rows| => FilledProduct(rows[k].weight, rows[k].value))
  }

  /** The weighted mean: the filled products' sum over the weight total. */
  function WeightedMean(rows: seq<Row>): real
    requires SkipNaSum(Weights(rows)) > 0.0
  {
    SkipNaSum(Products(rows)) / SkipNaSum(Weights(rows))
  }

  /** Every present weight is non-negative (a count). */
  predicate NonNegativeWeights(rows: seq<Row>) {
    forall k :: 0 <= k < |rows| && rows[k].weight.Some? ==> rows[k].weight.value >= 0.0
  }

  /** Every value is present and lies in [lo, hi]. */
  predicate ValuesWithin(rows: seq<Row>, lo: real, hi: real) {
    forall k :: 0 <= k < |rows| ==> rows[k].value.Some? && lo <= rows[k].value.value <= hi
  }

  /** With non-negative weights and every value present in [lo, hi], the
      weighted mean lies in [lo, hi]. */
  lemma MeanWithinValues(rows: seq<Row>, lo: real, hi: real)
    requires SkipNaSum(Weights(rows)) > 0.0
    requires NonNegativeWeights(rows) && ValuesWithin(rows, lo, hi)
    ensures lo <= WeightedMean(rows) <= hi
  {
    var num, total := SkipNaSum(Products(rows)), SkipNaSum(Weights(rows));
    ProductsWithin(rows, lo, hi);
    QuotientWithin(num, total, lo, hi);
  }

  /** `lo * t <= n <= hi * t` with `t > 0` puts `n / t` in [lo, hi]. */
  lemma QuotientWithin(n: real, t: real, lo: real, hi: real)
    requires t > 0.0 && Between(n, t, lo, hi)
    ensures lo <= n / t <= hi
  {
    assert (n / t) * t == n;
  }

  /** `lo * t <= n <= hi * t`: a numerator `n` lies between `lo` and `hi`
      times its denominator `t`. */
  predicate Between(n: real, t: real, lo: real, hi: real) {
    lo * t <= n <= hi * t
  }

  /** With non-negative weights and every value present in [lo, hi], the
      numerator of the mean lies between `lo` and `hi` times its denominator. */
  lemma {:induction false} ProductsWithin(rows: seq<Row>, lo: real, hi: real)
    requires NonNegativeWeights(rows) && ValuesWithin(rows, lo, hi)
    ensures Between(SkipNaSum(Products(rows)), SkipNaSum(Weights(rows)), lo, hi)
    decreases |rows|
  {
    if |rows| > 0 {
      var init, r := rows[..|rows| - 1], rows[|rows| - 1];
      assert rows == init + [r];
      assert forall k :: 0 <= k < |init| ==> init[k] == rows[k];
      ProductsWithin(init, lo, hi);
      SnocWithin(init, r, lo, hi);
    } else {
      assert SkipNaSum(Weights(rows)) == 0.0 && SkipNaSum(Products(rows)) == 0.0;
    }
  }

  /** One more row with its value in [lo, hi] and a non-negative weight keeps
      the numerator between `lo` and `hi` times the denominator. */
  lemma SnocWithin(init: seq<Row>, r: Row, lo: real, hi: real)
    requires Between(SkipNaSum(Products(init)), SkipNaSum(Weights(init)), lo, hi)
    requires r.value.Some? && lo <= r.value.value <= hi
    requires r.weight.Some? ==> r.weight.value >= 0.0
    ensures Between(SkipNaSum(Products(init + [r])), SkipNaSum(Weights(init + [r])), lo, hi)
  {
    MeanRowContribution(init, r);
    var n0, t0 := SkipNaSum(Products(init)), SkipNaSum(Weights(init));
    var n, t := SkipNaSum(Products(init + [r])), SkipNaSum(Weights(init + [r]));
    if r.weight.Some? {
      StepWithin(n0, t0, n, t, r.weight.value, r.value.value, lo, hi);
    } else {
      assert n == n0 && t == t0;
    }
  }

  /** Adding a row of weight `w >= 0` and value `v` in [lo, hi] to sums with
      `lo * t <= n <= hi * t` keeps the bounds for the new sums `n'`, `t'`. */
  lemma StepWithin(n: real, t: real, n': real, t': real, w: real, v: real, lo: real, hi: real)
    requires Between(n, t, lo, hi)
    requires w >= 0.0 && lo <= v <= hi
    requires n' == n + w * v && t' == t + w
    ensures Between(n', t', lo, hi)
  {
    assert w * (v - lo) >= 0.0;
    assert w * (hi - v) >= 0.0;
  }

  /** What one more row adds to the two sums of the mean: `w * v` to the
      numerator only when both cells are present (a missing value adds 0, a
      missing weight adds nothing), and its weight to the denominator whenever
      the weight is present, even if the value is missing. */
  lemma {:induction false} MeanRowContribution(rows: seq<Row>, r: Row)
    ensures SkipNaSum(Products(rows + [r])) == SkipNaSum(Products(rows))
      + (if r.weight.Some? && r.value.Some? then r.weight.value * r.value.value else 0.0)
    ensures SkipNaSum(Weights(rows + [r]))
      == SkipNaSum(Weights(rows)) + (if r.weight.Some? then r.weight.value else 0.0)
  {
    var all := rows + [r];
    assert Products(all)[..|rows|] == Products(rows);
    assert Weights(all)[..|rows|] == Weights(rows);
    assert Products(all)[|rows|] == FilledProduct(r.weight, r.value);
  }

  // ---------------------------------------------------------------------------
  // Sorting by value

  /** The order of `sort_values`: ascending, missing values last. */
  predicate KeyLe(a: Option<real>, b: Option<real>) {
    b.None? || (a.Some? && a.value <= b.value)
  }

  /** Rows ordered by value, missing values at the end. */
  predicate ValueOrdered(rows: seq<Row>) {
    forall i, j :: 0 <= i < j < |rows| ==> KeyLe(rows[i].value, rows[j].value)
  }

  /** Inserts `x` before the first row whose value it does not exceed. */
  function Insert(x: Row, rows: seq<Row>): (r: seq<Row>)
    ensures |r| == |rows| + 1
  {
    if |rows| == 0 then [x]
    else if KeyLe(x.value, rows[0].value) then [x] + rows
    else [rows[0]] + Insert(x, rows[1..])
  }

  /** Inserting adds exactly the one row. */
  lemma {:induction false} InsertPermutes(x: Row, rows: seq<Row>)
    ensures multiset(Insert(x, rows)) == multiset(rows) + multiset{x}
  {
    if |rows| > 0 && !KeyLe(x.value, rows[0].value) {
      InsertPermutes(x, rows[1..]);
      assert rows == [rows[0]] + rows[1..];
    }
  }

  /** Inserting into value-ordered rows keeps them value-ordered. */
  lemma {:induction false} InsertKeepsOrder(x: Row, rows: seq<Row>)
    requires ValueOrdered(rows)
    ensures ValueOrdered(Insert(x, rows))
  {
    if |rows| > 0 && !KeyLe(x.value, rows[0].value) {
      var tail := Insert(x, rows[1..]);
      InsertKeepsOrder(x, rows[1..]);
      InsertPermutes(x, rows[1..]);
      forall z | z in tail
        ensures KeyLe(rows[0].value, z.value)
      {
        assert z in multiset(rows[1..]) + multiset{x};
        if z != x {
          assert z in rows[1..];
        }
      }
      PrependKeepsOrder(rows[0], tail);
    } else if |rows| > 0 {
      forall z | z in rows
        ensures KeyLe(x.value, z.value)
      {
      }
      PrependKeepsOrder(x, rows);
    }
  }

  /** A row no greater than any of some value-ordered rows can go in front. */
  lemma PrependKeepsOrder(y: Row, rows: seq<Row>)
    requires ValueOrdered(rows)
    requires forall z :: z in rows ==> KeyLe(y.value, z.value)
    ensures ValueOrdered([y] + rows)
  {
    var r := [y] + rows;
    forall i, j | 0 <= i < j < |r|
      ensures KeyLe(r[i].value, r[j].value)
    {
      if i == 0 {
        assert r[j] in rows;
      } else {
        assert r[i] == rows[i - 1] && r[j] == rows[j - 1];
      }
    }
  }

  /** `DataFrame.sort_values(by=value)`: a value-ordered permutation of the rows
      (an insertion sort). */
  function SortByValue(rows: seq<Row>): (r: seq<Row>)
    ensures |r| == |rows|
  {
    if |rows| == 0 then [] else Insert(rows[0], SortByValue(rows[1..]))
  }

  /** The sorted rows are value-ordered. */
  lemma {:induction false} SortByValueOrdered(rows: seq<Row>)
    ensures ValueOrdered(SortByValue(rows))
  {
    if |rows| > 0 {
      SortByValueOrdered(rows[1..]);
      InsertKeepsOrder(rows[0], SortByValue(rows[1..]));
    }
  }

  /** The sorted rows are a permutation of the rows. */
  lemma {:induction false} SortByValuePermutes(rows: seq<Row>)
    ensures multiset(SortByValue(rows)) == multiset(rows)
  {
    if |rows| > 0 {
      SortByValuePermutes(rows[1..]);
      InsertPermutes(rows[0], SortByValue(rows[1..]));
      assert rows == [rows[0]] + rows[1..];
    }
  }

  /** Every sorted row is one of the input rows. */
  lemma SortedRowFromInput(rows: seq<Row>, k: nat)
    requires k < |rows|
    ensures SortByValue(rows)[k] in rows
  {
    SortByValuePermutes(rows);
    assert SortByValue(rows)[k] in multiset(SortByValue(rows));
  }

  /** Sorting keeps the set of values of the column. */
  lemma SortedValuesSameMembers(rows: seq<Row>)
    ensures forall x :: x in Values(SortByValue(rows)) <==> x in Values(rows)
  {
    var sorted := SortByValue(rows);
    SortByValuePermutes(rows);
    forall x | x in Values(sorted)
      ensures x in Values(rows)
    {
      var i :| 0 <= i < |sorted| && Values(sorted)[i] == x;
      assert sorted[i] in multiset(rows);
      var j :| 0 <= j < |rows| && rows[j] == sorted[i];
      assert Values(rows)[j] == x;
    }
    forall x | x in Values(rows)
      ensures x in Values(sorted)
    {
      var j :| 0 <= j < |rows| && Values(rows)[j] == x;
      assert rows[j] in multiset(sorted);
      var i :| 0 <= i < |sorted| && sorted[i] == rows[j];
      assert Values(sorted)[i] == x;
    }
  }

  /** A row in front adds its weight to the weight total. */
  lemma SkipNaSumCons(y: Row, rows: seq<Row>)
    ensures SkipNaSum(Weights([y] + rows)) == OrZero(y.weight) + SkipNaSum(Weights(rows))
  {
    assert Weights([y] + rows) == [y.weight] + Weights(rows);
    SkipNaSumAppend([y.weight], Weights(rows));
    assert [y.weight][..0] == [];
  }

  /** Inserting a row adds its weight to the weight total. */
  lemma {:induction false} InsertWeightTotal(x: Row, rows: seq<Row>)
    ensures SkipNaSum(Weights(Insert(x, rows))) == SkipNaSum(Weights(rows)) + OrZero(x.weight)
  {
    if |rows| == 0 {
      assert Weights([x]) == [x.weight];
      assert [x.weight][..0] == [];
    } else if KeyLe(x.value, rows[0].value) {
      SkipNaSumCons(x, rows);
    } else {
      InsertWeightTotal(x, rows[1..]);
      SkipNaSumCons(rows[0], Insert(x, rows[1..]));
      SkipNaSumCons(rows[0], rows[1..]);
      assert rows == [rows[0]] + rows[1..];
    }
  }

  /** Sorting keeps the weight total, the divisor of `prop_cum`. */
  lemma {:induction false} SortKeepsWeightTotal(rows: seq<Row>)
    ensures SkipNaSum(Weights(SortByValue(rows))) == SkipNaSum(Weights(rows))
  {
    if |rows| > 0 {
      SortKeepsWeightTotal(rows[1..]);
      InsertWeightTotal(rows[0], SortByValue(rows[1..]));
      SkipNaSumCons(rows[0], rows[1..]);
      assert rows == [rows[0]] + rows[1..];
    }
  }

  // ---------------------------------------------------------------------------
  // The cumulative weight fraction

  /** Adds two cells; a missing operand makes the sum missing. */
  function AddOrMissing(a: Option<real>, b: Option<real>): Option<real> {
    if a.Some? && b.Some? then Some(a.value + b.value) else None
  }

  /** The running total `cumsum(skipna=False)` reaches at the end of `s`: it
      stays missing from the first missing cell on. */
  function PrefixCum(s: seq<Option<real>>): Option<real> {
    if |s| == 0 then Some(0.0) else AddOrMissing(PrefixCum(s[..|s| - 1]), s[|s| - 1])
  }

  /** `Series.cumsum(skipna=False)`: the running total at every row. */
  function CumSum(ws: seq<Option<real>>): (r: seq<Option<real>>)
    ensures |r| == |ws|
  {
    seq(|ws|, k requires 0 <= k < |ws| => PrefixCum(ws[..k + 1]))
  }

  /** With no missing cell the running total is the plain sum. */
  lemma {:induction false} PrefixCumPresent(s: seq<Option<real>>)
    requires forall i :: 0 <= i < |s| ==> s[i].Some?
    ensures PrefixCum(s) == Some(SkipNaSum(s))
  {
    if |s| > 0 {
      PrefixCumPresent(s[..|s| - 1]);
    }
  }

  /** One missing cell makes the running total missing. */
  lemma {:induction false} PrefixCumMissing(s: seq<Option<real>>, j: nat)
    requires j < |s| && s[j].None?
    ensures PrefixCum(s) == None
  {
    if j < |s| - 1 {
      PrefixCumMissing(s[..|s| - 1], j);
    }
  }

  /** `cumsum(skipna=False)`: from the first missing weight on, every running
      total is missing. */
  lemma MissingWeightPoisons(ws: seq<Option<real>>, j: nat, k: nat)
    requires j <= k < |ws| && ws[j].None?
    ensures CumSum(ws)[k].None?
  {
    PrefixCumMissing(ws[..k + 1], j);
  }

  /** A present running total means no weight up to that row is missing. */
  lemma CumSumPresentPrefix(ws: seq<Option<real>>, j: nat)
    requires j < |ws| && CumSum(ws)[j].Some?
    ensures forall k :: 0 <= k <= j ==> ws[k].Some?
  {
    forall k | 0 <= k <= j
      ensures ws[k].Some?
    {
      if ws[k].None? {
        MissingWeightPoisons(ws, k, j);
      }
    }
  }

  /** With no missing weight up to row `k`, its running total is its prefix's sum. */
  lemma CumSumPresent(ws: seq<Option<real>>, k: nat)
    requires k < |ws|
    requires forall i :: 0 <= i <= k ==> ws[i].Some?
    ensures CumSum(ws)[k] == Some(SkipNaSum(ws[..k + 1]))
  {
    PrefixCumPresent(ws[..k + 1]);
  }

  /** The `prop_cum` column: each running total divided by `total`, the
      weight column's sum. */
  function PropCum(ws: seq<Option<real>>, total: real): (props: seq<Option<real>>)
    requires total > 0.0
    ensures |props| == |ws|
  {
    var cs := CumSum(ws);
    seq(|ws|, k requires 0 <= k < |ws| => if cs[k].Some? then Some(cs[k].value / total) else None)
  }

  /** With no negative weight, a present running total is at least 0, at most
      the column's sum, never decreases along the rows, and is present only if
      every earlier one is. */
  lemma CumSumMonotone(ws: seq<Option<real>>, i: nat, j: nat)
    requires forall k :: 0 <= k < |ws| && ws[k].Some? ==> ws[k].value >= 0.0
    requires i <= j < |ws| && CumSum(ws)[j].Some?
    ensures CumSum(ws)[i].Some?
    ensures 0.0 <= CumSum(ws)[i].value <= CumSum(ws)[j].value <= SkipNaSum(ws)
  {
    CumSumPresentPrefix(ws, j);
    assert forall k :: 0 <= k <= i ==> ws[k].Some?;
    CumSumPresent(ws, i);
    CumSumPresent(ws, j);
    var a, b := SkipNaSum(ws[..i + 1]), SkipNaSum(ws[..j + 1]);
    PrefixSumsOrdered(ws, i + 1, j + 1);
    assert CumSum(ws)[i].value == a && CumSum(ws)[j].value == b;
  }

  /** With no negative weight, longer prefixes have larger sums. */
  lemma PrefixSumsOrdered(ws: seq<Option<real>>, m: nat, n: nat)
    requires m <= n <= |ws|
    requires forall k :: 0 <= k < |ws| && ws[k].Some? ==> ws[k].value >= 0.0
    ensures 0.0 <= SkipNaSum(ws[..m]) <= SkipNaSum(ws[..n]) <= SkipNaSum(ws)
  {
    SkipNaSumPrefixBound(ws, n);
    SkipNaSumPrefixBound(ws[..n], m);
    assert ws[..n][..m] == ws[..m];
  }

  /** With no negative weight, a present `prop_cum` lies in [0, 1], never
      decreases along the rows, and is present only if every earlier one is. */
  lemma PropCumMonotone(ws: seq<Option<real>>, i: nat, j: nat)
    requires SkipNaSum(ws) > 0.0
    requires forall k :: 0 <= k < |ws| && ws[k].Some? ==> ws[k].value >= 0.0
    requires i <= j < |ws| && PropCum(ws, SkipNaSum(ws))[j].Some?
    ensures PropCum(ws, SkipNaSum(ws))[i].Some?
    ensures 0.0 <= PropCum(ws, SkipNaSum(ws))[i].value <= PropCum(ws, SkipNaSum(ws))[j].value <= 1.0
  {
    var cs, t := CumSum(ws), SkipNaSum(ws);
    CumSumMonotone(ws, i, j);
    FractionsOrdered(cs[i].value, cs[j].value, t);
  }

  /** Dividing `0 <= a <= b <= t` by a positive `t` gives `0 <= a/t <= b/t <= 1`. */
  lemma FractionsOrdered(a: real, b: real, t: real)
    requires t > 0.0 && 0.0 <= a <= b <= t
    ensures 0.0 <= a / t <= b / t <= 1.0
  {
    DivideMonotone(a, b, t);
    DivideMonotone(0.0, a, t);
    DivideMonotone(b, t, t);
  }

  /** Dividing by a positive total keeps the order. */
  lemma DivideMonotone(a: real, b: real, t: real)
    requires t > 0.0 && a <= b
    ensures a / t <= b / t
  {
    assert b / t - a / t == (b - a) / t;
  }

  /** With no missing weight, the last running total is the column's sum. */
  lemma CumSumLast(ws: seq<Option<real>>)
    requires |ws| > 0
    requires forall k :: 0 <= k < |ws| ==> ws[k].Some?
    ensures CumSum(ws)[|ws| - 1] == Some(SkipNaSum(ws))
  {
    CumSumPresent(ws, |ws| - 1);
    assert ws[..|ws|] == ws;
  }

  /** The last row's `prop_cum` is 1 when no weight is missing. */
  lemma PropCumLastIsOne(ws: seq<Option<real>>)
    requires SkipNaSum(ws) > 0.0
    requires forall k :: 0 <= k < |ws| ==> ws[k].Some?
    ensures |ws| > 0 && PropCum(ws, SkipNaSum(ws))[|ws| - 1] == Some(1.0)
  {
    assert |ws| > 0;
    CumSumLast(ws);
    DivideSelf(SkipNaSum(ws));
  }

  /** A positive total divided by itself is 1. */
  lemma DivideSelf(t: real)
    requires t > 0.0
    ensures t / t == 1.0
  {
  }

  // ---------------------------------------------------------------------------
  // The per-percentile estimate

  /** Row `k` passes the mask `prop_cum <= p`; a missing `prop_cum` never does. */
  predicate Qualifies(props: seq<Option<real>>, p: real, k: int)
    requires 0 <= k < |props|
  {
    props[k].Some? && props[k].value <= p
  }

  /** `Series.max()`: the largest present cell, missing when no cell is present. */
  function ColumnMax(vs: seq<Option<real>>): (m: Option<real>)
    ensures m.Some? ==> m in vs
    ensures m.None? <==> forall k :: 0 <= k < |vs| ==> vs[k].None?
    ensures forall k :: 0 <= k < |vs| && vs[k].Some? ==> m.Some? && vs[k].value <= m.value
  {
    if |vs| == 0 then None
    else
      var rest := ColumnMax(vs[..|vs| - 1]);
      var last := vs[|vs| - 1];
      assert vs == vs[..|vs| - 1] + [last];
      if last.None? then rest
      else if rest.Some? && rest.value >= last.value then rest
      else last
  }

  /** From the first missing weight on, no row passes the mask `prop_cum <= p`,
      whatever `p` is. */
  lemma PoisonedRowsNeverQualify(ws: seq<Option<real>>, total: real, p: real, j: nat, k: nat)
    requires total > 0.0
    requires j <= k < |ws| && ws[j].None?
    ensures !Qualifies(PropCum(ws, total), p, k)
  {
    MissingWeightPoisons(ws, j, k);
  }

  /** `max()` depends only on which cells occur, not on their order. */
  lemma ColumnMaxSameMembers(a: seq<Option<real>>, b: seq<Option<real>>)
    requires forall x :: x in a <==> x in b
    ensures ColumnMax(a) == ColumnMax(b)
  {
    var ma, mb := ColumnMax(a), ColumnMax(b);
    if ma.Some? {
      var j :| 0 <= j < |b| && b[j] == ma;
      var i :| 0 <= i < |a| && a[i] == mb;
    }
  }

  /** `column[prop_cum <= p]`: the cells of the rows that pass the mask, in order. */
  function Masked(vs: seq<Option<real>>, props: seq<Option<real>>, p: real): (r: seq<Option<real>>)
    requires |vs| == |props|
    ensures forall x :: x in r ==> exists k :: 0 <= k < |vs| && Qualifies(props, p, k) && vs[k] == x
    ensures forall k :: 0 <= k < |vs| && Qualifies(props, p, k) ==> vs[k] in r
  {
    if |vs| == 0 then []
    else
      var n := |vs| - 1;
      var rest := Masked(vs[..n], props[..n], p);
      assert forall k :: 0 <= k < n ==> vs[..n][k] == vs[k] && props[..n][k] == props[k];
      if Qualifies(props, p, n) then rest + [vs[n]] else rest
  }

  /** `df_sorted[df_sorted["prop_cum"] <= p][value].max()`. */
  function Estimate(vs: seq<Option<real>>, props: seq<Option<real>>, p: real): (e: Option<real>)
    requires |vs| == |props|
    ensures e.Some? ==> e in vs
  {
    ColumnMax(Masked(vs, props, p))
  }

  /** The estimate is the largest present value among the rows whose `prop_cum`
      is at most `p`; it is missing exactly when no such row has a value. */
  lemma EstimateIsMaskedMax(vs: seq<Option<real>>, props: seq<Option<real>>, p: real)
    requires |vs| == |props|
    ensures var e := Estimate(vs, props, p);
      && (e.Some? ==> exists k :: 0 <= k < |vs| && Qualifies(props, p, k) && vs[k] == e)
      && (e.None? <==> forall k :: 0 <= k < |vs| && Qualifies(props, p, k) ==> vs[k].None?)
      && (forall k :: 0 <= k < |vs| && Qualifies(props, p, k) && vs[k].Some? ==>
            e.Some? && vs[k].value <= e.value)
  {
    var m := Masked(vs, props, p);
    var e := ColumnMax(m);
    if e.None? {
      forall k | 0 <= k < |vs| && Qualifies(props, p, k)
        ensures vs[k].None?
      {
        assert vs[k] in m;
      }
    }
  }

  /** The estimate never decreases as the percentile grows: the rows that pass
      `prop_cum <= p` only gain members. */
  lemma EstimateMonotone(vs: seq<Option<real>>, props: seq<Option<real>>, p1: real, p2: real)
    requires |vs| == |props| && p1 <= p2
    requires Estimate(vs, props, p1).Some?
    ensures Estimate(vs, props, p2).Some?
    ensures Estimate(vs, props, p1).value <= Estimate(vs, props, p2).value
  {
    EstimateIsMaskedMax(vs, props, p1);
    EstimateIsMaskedMax(vs, props, p2);
    var k :| 0 <= k < |vs| && Qualifies(props, p1, k) && vs[k] == Estimate(vs, props, p1);
    assert Qualifies(props, p2, k);
  }

  /** With no missing and no negative weight, `p = 1` selects every row, so the
      estimate is the column's maximum present value. */
  lemma EstimateAtOneIsMax(vs: seq<Option<real>>, ws: seq<Option<real>>)
    requires |vs| == |ws| && SkipNaSum(ws) > 0.0
    requires forall k :: 0 <= k < |ws| ==> ws[k].Some? && ws[k].value >= 0.0
    ensures Estimate(vs, PropCum(ws, SkipNaSum(ws)), 1.0) == ColumnMax(vs)
  {
    var props := PropCum(ws, SkipNaSum(ws));
    forall k | 0 <= k < |ws|
      ensures Qualifies(props, 1.0, k)
    {
      PropCumLastIsOne(ws);
      PropCumMonotone(ws, k, |ws| - 1);
    }
    MaskAllIsIdentity(vs, props, 1.0);
  }

  /** A mask every row passes keeps the whole column. */
  lemma {:induction false} MaskAllIsIdentity(vs: seq<Option<real>>, props: seq<Option<real>>, p: real)
    requires |vs| == |props|
    requires forall k :: 0 <= k < |vs| ==> Qualifies(props, p, k)
    ensures Masked(vs, props, p) == vs
  {
    if |vs| > 0 {
      var n := |vs| - 1;
      forall k | 0 <= k < n
        ensures Qualifies(props[..n], p, k)
      {
        assert Qualifies(props, p, k);
        assert props[..n][k] == props[k];
      }
      MaskAllIsIdentity(vs[..n], props[..n], p);
      assert vs == vs[..n] + [vs[n]];
    }
  }
}
