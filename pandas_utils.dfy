/** `pandas_utils.py`: the percentile-list checks shared by both describe
    functions, and `describe_aggregated_df_using_quantiles_per_column`, which
    summarises a frame of (value, weight) rows by the weighted mean and weighted
    percentiles of each value column. */
module PandasUtils {
  import opened Wrappers
  import opened WeightedStats

  // ---------------------------------------------------------------------------
  // The percentile list

  /** An element of the `percentiles` argument as Python types it: a float, or
      anything else (an int, a string, None, ...). */
  datatype Element = FloatElem(x: real) | OtherElem

  /** The `percentiles` argument: a Python list, or something that is not one. */
  datatype PercentilesArg = ListArg(items: seq<Element>) | NotAList

  /** Why the percentile checks raise: one of the four asserts fails, or `min`
      raises on an empty list. */
  datatype ValidationError =
    | NotAListError     // the argument is not a list
    | NotAllFloats      // some element is not a float
    | EmptyPercentiles  // the list is empty, so taking its minimum raises
    | BelowZero         // the smallest percentile is negative
    | AboveOne          // the largest percentile exceeds 1

  /** The default `percentiles` of both describe functions. */
  const DefaultPercentiles: seq<real> := [0.05, 0.25, 0.5, 0.75, 0.95]

  /** `min` of a non-empty list. */
  function Min(xs: seq<real>): (m: real)
    requires |xs| > 0
    ensures m in xs && forall i :: 0 <= i < |xs| ==> m <= xs[i]
  {
    if |xs| == 1 then xs[0]
    else
      var rest := Min(xs[1..]);
      assert forall i :: 1 <= i < |xs| ==> xs[i] == xs[1..][i - 1];
      if xs[0] <= rest then xs[0] else rest
  }

  /** `max` of a non-empty list. */
  function Max(xs: seq<real>): (m: real)
    requires |xs| > 0
    ensures m in xs && forall i :: 0 <= i < |xs| ==> xs[i] <= m
  {
    if |xs| == 1 then xs[0]
    else
      var rest := Max(xs[1..]);
      assert forall i :: 1 <= i < |xs| ==> xs[i] == xs[1..][i - 1];
      if xs[0] >= rest then xs[0] else rest
  }

  /** Every element is a float. */
  predicate AllFloats(items: seq<Element>) {
    forall i :: 0 <= i < |items| ==> items[i].FloatElem?
  }

  /** The range test on the percentiles: below zero is reported first, then
      above one. */
  function CheckRange(ps: seq<real>): (r: Result<seq<real>, ValidationError>)
    requires |ps| > 0
    ensures r.Success? <==> forall i :: 0 <= i < |ps| ==> 0.0 <= ps[i] <= 1.0
    ensures r.Success? ==> r.value == ps
    ensures (exists i :: 0 <= i < |ps| && ps[i] < 0.0) ==> r == Failure(BelowZero)
    ensures (forall i :: 0 <= i < |ps| ==> ps[i] >= 0.0) && (exists i :: 0 <= i < |ps| && ps[i] > 1.0)
      ==> r == Failure(AboveOne)
  {
    if Min(ps) < 0.0 then Failure(BelowZero)
    else if Max(ps) > 1.0 then Failure(AboveOne)
    else Success(ps)
  }

  /** The four asserts at the top of both describe functions, in their order.
      On success the list of fractions is returned. */
  function ValidatePercentiles(arg: PercentilesArg): (r: Result<seq<real>, ValidationError>)
    ensures r.Success? <==>
      && arg.ListArg? && |arg.items| > 0
      && forall i :: 0 <= i < |arg.items| ==>
           arg.items[i].FloatElem? && 0.0 <= arg.items[i].x <= 1.0
    ensures r.Success? ==>
      |r.value| == |arg.items| && forall i :: 0 <= i < |arg.items| ==> r.value[i] == arg.items[i].x
    ensures arg.NotAList? ==> r == Failure(NotAListError)
    ensures arg.ListArg? && !AllFloats(arg.items) ==> r == Failure(NotAllFloats)
    ensures arg.ListArg? && AllFloats(arg.items) && |arg.items| == 0 ==> r == Failure(EmptyPercentiles)
    ensures arg.ListArg? && AllFloats(arg.items)
      && (exists i :: 0 <= i < |arg.items| && arg.items[i].x < 0.0)
      ==> r == Failure(BelowZero)
    ensures arg.ListArg? && AllFloats(arg.items)
      && (forall i :: 0 <= i < |arg.items| ==> arg.items[i].x >= 0.0)
      && (exists i :: 0 <= i < |arg.items| && arg.items[i].x > 1.0)
      ==> r == Failure(AboveOne)
  {
    match arg
    case NotAList => Failure(NotAListError)
    case ListArg(items) =>
      if !AllFloats(items) then Failure(NotAllFloats)
      else if |items| == 0 then Failure(EmptyPercentiles)
      else
        var ps := seq(|items|, i requires 0 <= i < |items| => items[i].x);
        assert forall i :: 0 <= i < |items| ==> items[i].x == ps[i];
        CheckRange(ps)
  }

  /** The default list passes the checks. */
  lemma DefaultPercentilesAccepted()
    ensures ValidatePercentiles(ListArg(seq(5, i requires 0 <= i < 5 => FloatElem(DefaultPercentiles[i]))))
      == Success(DefaultPercentiles)
  {
    var items := seq(5, i requires 0 <= i < 5 => FloatElem(DefaultPercentiles[i]));
    assert forall i :: 0 <= i < |items| ==> items[i].FloatElem? && 0.0 <= items[i].x <= 1.0;
    var r := ValidatePercentiles(ListArg(items));
    assert r.Success?;
    assert r.value == DefaultPercentiles;
  }

  // ---------------------------------------------------------------------------
  // The aggregated frame and the description

  /** The column the estimator adds to its sorted copy of the frame. */
  const PropCumColumn: string := "prop_cum"

  /** A frame of numeric columns by name, each `height` cells long; `None` is a
      missing cell. */
  datatype Frame = Frame(height: nat, columns: map<string, seq<Option<real>>>)

  /** Every column has one cell per row. */
  predicate WellFormed(df: Frame) {
    forall c :: c in df.columns ==> |df.columns[c]| == df.height
  }

  /** The (value, weight) rows the estimator reads for one value column. */
  function RowsFor(df: Frame, weightCol: string, valueCol: string): (rows: seq<Row>)
    requires WellFormed(df) && weightCol in df.columns && valueCol in df.columns
    ensures Weights(rows) == df.columns[weightCol] && Values(rows) == df.columns[valueCol]
  {
    seq(df.height, k requires 0 <= k < df.height =>
      Row(df.columns[valueCol][k], df.columns[weightCol][k]))
  }

  /** A row label of the description: `"mean"` or a percentile. */
  datatype RowLabel = MeanLabel | PercentileLabel(p: real)

  /** The returned frame: its index, its columns in order, and each column's cells. */
  datatype Description = Description(
    index: seq<RowLabel>,
    columnNames: seq<string>,
    cells: map<string, seq<Option<real>>>)

  /** Why the estimator raises: a failed percentile check, or a column name the
      frame does not have (a KeyError). */
  datatype DescribeError = InvalidPercentiles(reason: ValidationError) | MissingColumn(name: string)

  /** Taking one more element of a sequence appends it; stated generically so
      that it is proved once, not for each element type. */
  lemma TakeOneMore<T>(s: seq<T>, i: nat)
    requires i < |s|
    ensures s[..i + 1] == s[..i] + [s[i]]
  {
  }

  /** The names in first-occurrence order, as the keys of a dict filled in that
      order. */
  function Dedup(names: seq<string>): (r: seq<string>)
    ensures forall x :: x in r <==> x in names
    ensures forall i, j :: 0 <= i < j < |r| ==> r[i] != r[j]
  {
    if |names| == 0 then []
    else
      var prev := Dedup(names[..|names| - 1]);
      var last := names[|names| - 1];
      assert names == names[..|names| - 1] + [last];
      if last in prev then prev else prev + [last]
  }

  /** One more name is appended unless it was seen before. */
  lemma DedupStep(names: seq<string>, i: nat)
    requires i < |names|
    ensures Dedup(names[..i + 1])
      == if names[i] in names[..i] then Dedup(names[..i]) else Dedup(names[..i]) + [names[i]]
  {
    assert names[..i + 1][..i] == names[..i];
  }

  /** The column order after one more assignment: a name already seen keeps
      the order, a new one goes last. */
  lemma NamesStep(cols: seq<string>, i: nat, seen: bool, before: seq<string>, after: seq<string>)
    requires i < |cols| && before == Dedup(cols[..i]) && (seen <==> cols[i] in cols[..i])
    requires after == if seen then before else before + [cols[i]]
    ensures after == Dedup(cols[..i + 1])
  {
    DedupStep(cols, i);
  }

  /** The index `["mean"] + percentiles`. */
  function Index(ps: seq<real>): (labels: seq<RowLabel>)
    ensures |labels| == |ps| + 1 && labels[0] == MeanLabel
    ensures forall k :: 0 <= k < |ps| ==> labels[k + 1] == PercentileLabel(ps[k])
  {
    [MeanLabel] + seq(|ps|, k requires 0 <= k < |ps| => PercentileLabel(ps[k]))
  }

  /** The `prop_cum` column of the rows sorted by value: running totals of the
      sorted weights over `num`, the weight sum taken before sorting. */
  function SortedPropCum(rows: seq<Row>): (props: seq<Option<real>>)
    requires SkipNaSum(Weights(rows)) > 0.0
    ensures |props| == |rows|
  {
    PropCum(Weights(SortByValue(rows)), SkipNaSum(Weights(rows)))
  }

  /** The column `max()` reads after the mask: the sorted value column, or
      `prop_cum` itself when the value column is named `prop_cum` (the
      assignment replaces it). */
  function ReportedColumn(rows: seq<Row>, valueCol: string): (vs: seq<Option<real>>)
    requires SkipNaSum(Weights(rows)) > 0.0
    ensures |vs| == |rows|
  {
    if valueCol == PropCumColumn then SortedPropCum(rows) else Values(SortByValue(rows))
  }

  /** The estimates for the percentiles `ps`, in their order. */
  function Estimates(vs: seq<Option<real>>, props: seq<Option<real>>, ps: seq<real>): (es: seq<Option<real>>)
    requires |vs| == |props|
    ensures |es| == |ps|
  {
    if |ps| == 0 then [] else Estimates(vs, props, ps[..|ps| - 1]) + [Estimate(vs, props, ps[|ps| - 1])]
  }

  /** The `k`-th estimate answers the `k`-th percentile. */
  lemma {:induction false} EstimatesAt(vs: seq<Option<real>>, props: seq<Option<real>>, ps: seq<real>, k: nat)
    requires |vs| == |props| && k < |ps|
    ensures Estimates(vs, props, ps)[k] == Estimate(vs, props, ps[k])
    decreases |ps|
  {
    var n := |ps| - 1;
    if k < n {
      EstimatesAt(vs, props, ps[..n], k);
      assert ps[..n][k] == ps[k];
    }
  }

  /** One output column: the weighted mean, then the estimate for each percentile. */
  function ColumnSummary(rows: seq<Row>, valueCol: string, ps: seq<real>): (cells: seq<Option<real>>)
    requires SkipNaSum(Weights(rows)) > 0.0
    ensures |cells| == |ps| + 1 && cells[0] == Some(WeightedMean(rows))
  {
    [Some(WeightedMean(rows))] + Estimates(ReportedColumn(rows, valueCol), SortedPropCum(rows), ps)
  }

  /** The cell after the mean for percentile `ps[k]` is the estimate at `ps[k]`:
      the percentiles are answered in their given order. */
  lemma ColumnSummaryCell(rows: seq<Row>, valueCol: string, ps: seq<real>, k: nat)
    requires SkipNaSum(Weights(rows)) > 0.0 && k < |ps|
    ensures ColumnSummary(rows, valueCol, ps)[k + 1]
              == Estimate(ReportedColumn(rows, valueCol), SortedPropCum(rows), ps[k])
  {
    EstimatesAt(ReportedColumn(rows, valueCol), SortedPropCum(rows), ps, k);
  }

  /** For a value column other than `prop_cum`, a present estimate is one of
      the column's values; a missing one means no row with a value passes the
      mask. */
  lemma EstimateIsColumnValue(rows: seq<Row>, valueCol: string, ps: seq<real>, k: nat)
    requires SkipNaSum(Weights(rows)) > 0.0
    requires valueCol != PropCumColumn && k < |ps|
    requires ColumnSummary(rows, valueCol, ps)[k + 1].Some?
    ensures ColumnSummary(rows, valueCol, ps)[k + 1] in Values(rows)
  {
    var vs, props := Values(SortByValue(rows)), SortedPropCum(rows);
    ColumnSummaryCell(rows, valueCol, ps, k);
    EstimateIsMaskedMax(vs, props, ps[k]);
    SortedValuesSameMembers(rows);
  }

  /** The estimates never decrease as the percentile grows. */
  lemma SummaryMonotone(rows: seq<Row>, valueCol: string, ps: seq<real>, a: nat, b: nat)
    requires SkipNaSum(Weights(rows)) > 0.0
    requires a < |ps| && b < |ps| && ps[a] <= ps[b]
    requires ColumnSummary(rows, valueCol, ps)[a + 1].Some?
    ensures ColumnSummary(rows, valueCol, ps)[b + 1].Some?
    ensures ColumnSummary(rows, valueCol, ps)[a + 1].value <= ColumnSummary(rows, valueCol, ps)[b + 1].value
  {
    ColumnSummaryCell(rows, valueCol, ps, a);
    ColumnSummaryCell(rows, valueCol, ps, b);
    EstimateMonotone(ReportedColumn(rows, valueCol), SortedPropCum(rows), ps[a], ps[b]);
  }

  /** With no missing and no negative weight, percentile 1 gives the column's
      largest present value. */
  lemma SummaryAtOneIsMax(rows: seq<Row>, valueCol: string, ps: seq<real>, k: nat)
    requires SkipNaSum(Weights(rows)) > 0.0
    requires forall i :: 0 <= i < |rows| ==> rows[i].weight.Some? && rows[i].weight.value >= 0.0
    requires valueCol != PropCumColumn && k < |ps| && ps[k] == 1.0
    ensures ColumnSummary(rows, valueCol, ps)[k + 1] == ColumnMax(Values(rows))
  {
    var sorted := SortByValue(rows);
    var ws := Weights(sorted);
    ColumnSummaryCell(rows, valueCol, ps, k);
    SortKeepsWeightTotal(rows);
    forall i | 0 <= i < |ws|
      ensures ws[i].Some? && ws[i].value >= 0.0
    {
      SortedRowFromInput(rows, i);
    }
    EstimateAtOneIsMax(Values(sorted), ws);
    SortedValuesSameMembers(rows);
    ColumnMaxSameMembers(Values(sorted), Values(rows));
  }

  /** A value column named `prop_cum` is overwritten by the cumulative
      fraction, so its estimates are fractions no larger than the percentile. */
  lemma PropCumNamedColumnBounded(rows: seq<Row>, ps: seq<real>, k: nat)
    requires SkipNaSum(Weights(rows)) > 0.0 && k < |ps|
    requires ColumnSummary(rows, PropCumColumn, ps)[k + 1].Some?
    ensures ColumnSummary(rows, PropCumColumn, ps)[k + 1].value <= ps[k]
  {
    var props := SortedPropCum(rows);
    ColumnSummaryCell(rows, PropCumColumn, ps, k);
    EstimateIsMaskedMax(props, props, ps[k]);
  }

  /** Four rows of weight 1 with values 10, 20, 30 and 40. */
  const QuarterRows: seq<Row> :=
    [Row(Some(10.0), Some(1.0)), Row(Some(20.0), Some(1.0)),
     Row(Some(30.0), Some(1.0)), Row(Some(40.0), Some(1.0))]

  lemma QuartersMean()
    ensures SkipNaSum(Weights(QuarterRows)) == 4.0 && WeightedMean(QuarterRows) == 25.0
  {
    var ws, prods := Weights(QuarterRows), Products(QuarterRows);
    assert ws[..0] == [] && prods[..0] == [];
    SkipNaSumTake(ws, 0);
    SkipNaSumTake(ws, 1);
    SkipNaSumTake(ws, 2);
    SkipNaSumTake(ws, 3);
    assert ws[..4] == ws && prods[..4] == prods;
    SkipNaSumTake(prods, 0);
    SkipNaSumTake(prods, 1);
    SkipNaSumTake(prods, 2);
    SkipNaSumTake(prods, 3);
  }

  lemma QuartersCumSum()
    ensures CumSum(Weights(QuarterRows)) == [Some(1.0), Some(2.0), Some(3.0), Some(4.0)]
  {
    var ws := Weights(QuarterRows);
    assert ws[..0] == [];
    SkipNaSumTake(ws, 0);
    SkipNaSumTake(ws, 1);
    SkipNaSumTake(ws, 2);
    SkipNaSumTake(ws, 3);
    CumSumPresent(ws, 0);
    CumSumPresent(ws, 1);
    CumSumPresent(ws, 2);
    CumSumPresent(ws, 3);
  }

  lemma QuartersPropCum()
    ensures SkipNaSum(Weights(QuarterRows)) == 4.0
    ensures SortByValue(QuarterRows) == QuarterRows
    ensures SortedPropCum(QuarterRows) == [Some(0.25), Some(0.5), Some(0.75), Some(1.0)]
  {
    QuartersMean();
    QuartersCumSum();
    assert SortByValue(QuarterRows) == QuarterRows;
  }

  lemma QuartersEstimate()
    ensures SkipNaSum(Weights(QuarterRows)) == 4.0
    ensures Estimate(Values(QuarterRows), SortedPropCum(QuarterRows), 0.5) == Some(20.0)
  {
    QuartersPropCum();
    var props, vs := SortedPropCum(QuarterRows), Values(QuarterRows);
    EstimateIsMaskedMax(vs, props, 0.5);
    assert Qualifies(props, 0.5, 1);
    var k :| 0 <= k < 4 && Qualifies(props, 0.5, k) && vs[k] == Estimate(vs, props, 0.5);
    assert k <= 1;
  }

  /** Values 10, 20, 30, 40 with weight 1 each: the mean is 25 and the
      median estimate is 20, the largest value whose `prop_cum` (0.25, 0.5,
      0.75, 1) is at most 0.5. */
  lemma QuartersExample()
    ensures SkipNaSum(Weights(QuarterRows)) == 4.0
    ensures ColumnSummary(QuarterRows, "value", [0.5]) == [Some(25.0), Some(20.0)]
  {
    QuartersMean();
    QuartersPropCum();
    QuartersEstimate();
    assert ReportedColumn(QuarterRows, "value") == Values(QuarterRows);
    var cells := ColumnSummary(QuarterRows, "value", [0.5]);
    ColumnSummaryCell(QuarterRows, "value", [0.5], 0);
    assert |cells| == 2 && cells[0] == Some(25.0);
    assert cells[1] == Some(20.0);
  }

  /** The output column for value column `c` of the frame. */
  function FrameSummary(df: Frame, weightCol: string, c: string, ps: seq<real>): (cells: seq<Option<real>>)
    requires WellFormed(df) && weightCol in df.columns && c in df.columns
    requires SkipNaSum(df.columns[weightCol]) > 0.0
    ensures |cells| == |ps| + 1
  {
    ColumnSummary(RowsFor(df, weightCol, c), c, ps)
  }

  /** The dict of output columns, filled as the loop fills it: each value
      column in turn is assigned its summary (a repeated name is assigned the
      same column again). */
  ghost function Summaries(df: Frame, weightCol: string, cols: seq<string>, ps: seq<real>): (cells: map<string, seq<Option<real>>>)
    requires WellFormed(df) && weightCol in df.columns && SkipNaSum(df.columns[weightCol]) > 0.0
    requires forall c :: c in cols ==> c in df.columns
    decreases |cols|
  {
    if |cols| == 0 then map[]
    else
      var last := cols[|cols| - 1];
      assert forall c :: c in cols[..|cols| - 1] ==> c in cols;
      Summaries(df, weightCol, cols[..|cols| - 1], ps)[last := FrameSummary(df, weightCol, last, ps)]
  }

  /** Assigning one more column updates the dict at that key. */
  lemma SummariesStep(df: Frame, weightCol: string, cols: seq<string>, i: nat, ps: seq<real>)
    requires WellFormed(df) && weightCol in df.columns && SkipNaSum(df.columns[weightCol]) > 0.0
    requires i < |cols| && forall c :: c in cols[..i + 1] ==> c in df.columns
    ensures forall c :: c in cols[..i] ==> c in df.columns
    ensures Summaries(df, weightCol, cols[..i + 1], ps)
      == Summaries(df, weightCol, cols[..i], ps)[cols[i] := FrameSummary(df, weightCol, cols[i], ps)]
  {
    TakeOneMore(cols, i);
    assert cols[..i + 1][..i] == cols[..i];
  }

  /** The dict has exactly the named columns as keys. */
  lemma {:induction false} SummariesKeys(df: Frame, weightCol: string, cols: seq<string>, ps: seq<real>)
    requires WellFormed(df) && weightCol in df.columns && SkipNaSum(df.columns[weightCol]) > 0.0
    requires forall c :: c in cols ==> c in df.columns
    ensures forall c :: c in Summaries(df, weightCol, cols, ps) <==> c in cols
    decreases |cols|
  {
    if |cols| > 0 {
      var n := |cols| - 1;
      TakeOneMore(cols, n);
      assert cols[..n + 1] == cols;
      SummariesKeys(df, weightCol, cols[..n], ps);
    }
  }

  /** Each named column holds its own summary. */
  lemma {:induction false} SummariesCells(df: Frame, weightCol: string, cols: seq<string>, ps: seq<real>)
    requires WellFormed(df) && weightCol in df.columns && SkipNaSum(df.columns[weightCol]) > 0.0
    requires forall c :: c in cols ==> c in df.columns
    ensures forall c :: c in cols ==>
      c in Summaries(df, weightCol, cols, ps) && Summaries(df, weightCol, cols, ps)[c] == FrameSummary(df, weightCol, c, ps)
    decreases |cols|
  {
    if |cols| > 0 {
      var n := |cols| - 1;
      TakeOneMore(cols, n);
      assert cols[..n + 1] == cols;
      SummariesCells(df, weightCol, cols[..n], ps);
    }
  }

  /** `d` is what the estimator returns for these inputs. */
  ghost predicate Describes(d: Description, df: Frame, weightCol: string, valueCols: seq<string>, ps: seq<real>)
    requires WellFormed(df) && weightCol in df.columns && SkipNaSum(df.columns[weightCol]) > 0.0
    requires forall c :: c in valueCols ==> c in df.columns
  {
    && d.index == Index(ps)
    && d.columnNames == Dedup(valueCols)
    && d.cells == Summaries(df, weightCol, valueCols, ps)
  }

  /** The shape of a description: the index is `"mean"` then the percentiles
      in their order; there is one column per distinct value column name, in
      first-occurrence order, each holding 1 + |ps| cells. */
  lemma DescribesShape(d: Description, df: Frame, weightCol: string, valueCols: seq<string>, ps: seq<real>)
    requires WellFormed(df) && weightCol in df.columns && SkipNaSum(df.columns[weightCol]) > 0.0
    requires forall c :: c in valueCols ==> c in df.columns
    requires Describes(d, df, weightCol, valueCols, ps)
    ensures |d.index| == |ps| + 1 && d.index[0] == MeanLabel
    ensures forall k :: 0 <= k < |ps| ==> d.index[k + 1] == PercentileLabel(ps[k])
    ensures forall c :: c in d.columnNames <==> c in valueCols
    ensures forall i, j :: 0 <= i < j < |d.columnNames| ==> d.columnNames[i] != d.columnNames[j]
    ensures forall c :: c in d.columnNames ==> c in d.cells && |d.cells[c]| == |ps| + 1
  {
    SummariesKeys(df, weightCol, valueCols, ps);
    SummariesCells(df, weightCol, valueCols, ps);
  }

  /** The body of the per-column loop: the weighted mean over the total weight
      `num`, then one estimate per percentile, appended in order. */
  method SummarizeColumn(rows: seq<Row>, valueCol: string, ps: seq<real>, num: real)
    returns (column: seq<Option<real>>)
    requires num == SkipNaSum(Weights(rows)) > 0.0
    ensures column == ColumnSummary(rows, valueCol, ps)
  {
    var mean := Some(SkipNaSum(Products(rows)) / num);
    var props := SortedPropCum(rows);
    var reported := ReportedColumn(rows, valueCol);
    column := [mean];
    var k := 0;
    while k < |ps|
      invariant 0 <= k <= |ps|
      invariant column == [mean] + Estimates(reported, props, ps[..k])
    {
      assert ps[..k + 1][..k] == ps[..k];
      column := column + [Estimate(reported, props, ps[k])];
      k := k + 1;
    }
    assert ps[..k] == ps;
  }

  /** One turn of the outer loop: `output_dict[name] = column`, a new key going
      last in the column order and a repeated key keeping its place. */
  method AddColumn(df: Frame, weightCol: string, name: string, ps: seq<real>, num: real,
                   names: seq<string>, cells: map<string, seq<Option<real>>>)
    returns (names': seq<string>, cells': map<string, seq<Option<real>>>)
    requires WellFormed(df) && weightCol in df.columns && name in df.columns
    requires num == SkipNaSum(df.columns[weightCol]) > 0.0
    ensures names' == if name in cells then names else names + [name]
    ensures cells' == cells[name := FrameSummary(df, weightCol, name, ps)]
  {
    var column := SummarizeColumn(RowsFor(df, weightCol, name), name, ps, num);
    names' := if name in cells then names else names + [name];
    cells' := cells[name := column];
  }

  /** The outer loop over the value columns, once the percentiles and the
      weight column have passed: the first name missing from the frame raises,
      otherwise every column is summarised. */
  method SummarizeColumns(df: Frame, weightCol: string, valueCols: seq<string>, ps: seq<real>, num: real)
    returns (r: Result<Description, DescribeError>)
    requires WellFormed(df) && weightCol in df.columns
    requires num == SkipNaSum(df.columns[weightCol]) > 0.0
    ensures r.Success? <==> forall c :: c in valueCols ==> c in df.columns
    ensures r.Failure? ==>
      exists i :: 0 <= i < |valueCols| && r.error == MissingColumn(valueCols[i])
        && valueCols[i] !in df.columns && forall j :: 0 <= j < i ==> valueCols[j] in df.columns
    ensures r.Success? ==> Describes(r.value, df, weightCol, valueCols, ps)
  {
    var cells: map<string, seq<Option<real>>> := map[];
    var names: seq<string> := [];
    var i := 0;
    while i < |valueCols|
      invariant 0 <= i <= |valueCols|
      invariant forall c :: c in valueCols[..i] ==> c in df.columns
      invariant names == Dedup(valueCols[..i])
      invariant cells == Summaries(df, weightCol, valueCols[..i], ps)
    {
      var name := valueCols[i];
      TakeOneMore(valueCols, i);
      if name !in df.columns {
        assert forall j :: 0 <= j < i ==> valueCols[..i][j] in df.columns;
        return Failure(MissingColumn(name));
      }
      SummariesKeys(df, weightCol, valueCols[..i], ps);
      ghost var seen := name in cells;
      ghost var before := names;
      names, cells := AddColumn(df, weightCol, name, ps, num, names, cells);
      NamesStep(valueCols, i, seen, before, names);
      SummariesStep(df, weightCol, valueCols, i, ps);
      i := i + 1;
    }
    assert valueCols[..i] == valueCols;
    return Success(Description(Index(ps), names, cells));
  }

  /** `describe_aggregated_df_using_quantiles_per_column`: check the
      percentiles, look up and sum the weight column, then summarise each value
      column (the weighted mean, and per percentile the largest value whose
      `prop_cum` is at most the percentile). */
  method DescribeAggregated(df: Frame, weightCol: string, valueCols: seq<string>, arg: PercentilesArg)
    returns (r: Result<Description, DescribeError>)
    requires WellFormed(df)
    requires weightCol in df.columns ==> SkipNaSum(df.columns[weightCol]) > 0.0
    ensures ValidatePercentiles(arg).Failure? ==>
      r == Failure(InvalidPercentiles(ValidatePercentiles(arg).error))
    ensures ValidatePercentiles(arg).Success? && weightCol !in df.columns ==>
      r == Failure(MissingColumn(weightCol))
    ensures r.Success? <==>
      ValidatePercentiles(arg).Success? && weightCol in df.columns
      && forall c :: c in valueCols ==> c in df.columns
    ensures ValidatePercentiles(arg).Success? && weightCol in df.columns && r.Failure? ==>
      exists i :: 0 <= i < |valueCols| && r.error == MissingColumn(valueCols[i])
        && valueCols[i] !in df.columns && forall j :: 0 <= j < i ==> valueCols[j] in df.columns
    ensures r.Success? ==> Describes(r.value, df, weightCol, valueCols, ValidatePercentiles(arg).value)
  {
    var checked := ValidatePercentiles(arg);
    if checked.Failure? {
      return Failure(InvalidPercentiles(checked.error));
    }
    if weightCol !in df.columns {
      return Failure(MissingColumn(weightCol));
    }
    var num := SkipNaSum(df.columns[weightCol]);
    r := SummarizeColumns(df, weightCol, valueCols, checked.value, num);
  }
}
