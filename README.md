# tower_of_utils core, modelled in Dafny

This project models three groups of helpers from a small Python utility
repository and proves properties about them.

- **`pandas_utils.py`**:
  - the percentile-list checks shared by both describe functions;
  - `describe_aggregated_df_using_quantiles_per_column`, a weighted quantile
    estimator over a frame whose rows carry a value and a weight (a count).
    For every value column it reports the weighted mean, then, for each
    percentile `p`, the largest value whose cumulative weight fraction
    `prop_cum` is at most `p`.
- **`tower_of_utils/general_utils.py`**:
  - `flatten_list_of_lists`;
  - `which_is_true`;
  - the key-path search `find_all_paths_leading_to_key` over nested dicts and
    lists;
  - the price validator `is_price` with its inner `is_price_symbol`.
- **`tower_of_utils/os_utils.py`**: the string and number helpers
  `get_extension_from_path`, `remove_extension_from_filename`,
  `is_subfolder_descendant_of_folder`, `beautify_bytes_size` and
  `size_string_to_bytes`.

## Files

- `wrappers.dfy`: `Option`, `Result`, and `PyError`, the `ValueError` and `IndexError`
  that `is_price` and `size_string_to_bytes` raise.
- `strings.dfy` (module `Strings`): the Python `str` operations the helpers use,
  stated over `seq<char>`:
  - `split` on one character, `replace(pat, "")`, `isdigit` and `strip`;
  - substring tests;
  - lemmas about them.
- `weighted_stats.dfy` (module `WeightedStats`): the pandas column arithmetic
  of the estimator, with exact reals and `None` for a missing cell:
  - `Series.sum()` skipping missing cells;
  - `multiply(fill_value=0.0)`;
  - `cumsum(skipna=False)`;
  - `prop_cum`;
  - the sort by value, with missing values last;
  - the masked `max()`.
- `pandas_utils.dfy` (module `PandasUtils`): the percentile checks, and the
  estimator as two loops.
  - The outer loop fills the output dict column by column.
  - The inner loop appends one estimate per percentile.
  - Both are proved against recursive specification functions (`Summaries`,
    `ColumnSummary`).
- `general_utils.dfy` (module `GeneralUtils`):
  - `Flatten`, `WhichIsTrue`;
  - `FindAllPaths`, a recursive method with the source's loops, proved equal
    to the function `PathsTo`;
  - `IsPriceSymbol`, characterised by a grammar of amounts;
  - `IsPrice`, the source's while loop, proved equal to `PriceAsWritten`;
  - `PriceIntended`.
- `os_utils.dfy` (module `OsUtils`): the path and byte-size helpers.

Inputs that the Python code obtains from the environment are parameters:
- `Path(path).is_dir()` is the boolean `isDir`;
- `float(text)` is a function `parse: string -> Option<real>`;
- `os.sep` is `'/'`.

The cumulative fraction is computed by dividing each running total by the
weight total, as the code does; no cross-multiplied form is used.

## Model

| member | source | states |
|---|---|---|
| PandasUtils.Min | pandas_utils.py:42 | `min` of a non-empty list is one of its elements and at most every element |
| PandasUtils.Max | pandas_utils.py:43 | `max` of a non-empty list is one of its elements and at least every element |
| PandasUtils.CheckRange | pandas_utils.py:42-43 | the list passes exactly when every percentile lies in [0, 1]; a negative one raises the `min` assert, otherwise one above 1 raises the `max` assert |
| PandasUtils.ValidatePercentiles | pandas_utils.py:40-43 | the argument is accepted exactly when it is a non-empty list of floats, each in [0, 1], and then its values are returned in order; otherwise the first failing check names the error: not a list, a non-float, an empty list (`min` raises), below 0, above 1. The same four asserts open `describe_df_using_quantiles_per_column` at lines 14-17 |
| PandasUtils.DefaultPercentilesAccepted | pandas_utils.py:32 | the default list [0.05, 0.25, 0.5, 0.75, 0.95] passes the checks unchanged |
| WeightedStats.SkipNaSum | pandas_utils.py:46 | `Series.sum()`: the sum of the present cells, 0 for none; characterised by SkipNaSumAppend and SkipNaSumPrefixBound |
| WeightedStats.SkipNaSumAppend | pandas_utils.py:46 | `Series.sum()`, which skips missing cells, distributes over concatenation |
| WeightedStats.FilledProduct | pandas_utils.py:49 | `multiply(fill_value=0.0)` on one row: missing exactly when both cells are missing, 0 when only one is, and the plain product when both are present |
| WeightedStats.Products | pandas_utils.py:49 | the column of filled products, one cell per row; MeanRowContribution gives what each row adds to its sum |
| WeightedStats.WeightedMean | pandas_utils.py:46-51 | the sum of the filled products over the weight total; characterised by MeanRowContribution and MeanWithinValues |
| WeightedStats.MeanWithinValues | pandas_utils.py:46-51 | with no negative weight and every value present in [lo, hi], the weighted mean lies in [lo, hi] |
| WeightedStats.MeanRowContribution | pandas_utils.py:49-50 | one more row adds `w*v` to the numerator only when both cells are present (a missing value adds 0, a missing weight nothing), and adds its weight to the denominator whenever the weight is present |
| WeightedStats.InsertPermutes | pandas_utils.py:52 | inserting a row into the sorted rows adds exactly that row |
| WeightedStats.InsertKeepsOrder | pandas_utils.py:52 | inserting into value-ordered rows keeps them value-ordered (ascending, missing values last) |
| WeightedStats.SortByValue | pandas_utils.py:52 | `sort_values(by=value)`: as many rows as the input; characterised by SortByValueOrdered, SortByValuePermutes and SortKeepsWeightTotal |
| WeightedStats.SortByValueOrdered | pandas_utils.py:52 | `sort_values(by=value)` yields value-ordered rows, missing values last |
| WeightedStats.SortByValuePermutes | pandas_utils.py:52 | the sorted rows are a permutation of the input rows |
| WeightedStats.SortedValuesSameMembers | pandas_utils.py:52 | sorting keeps the set of values of the column |
| WeightedStats.SortKeepsWeightTotal | pandas_utils.py:52-55 | the weight total of the sorted copy equals the input's, so `prop_cum` divides by the same number the mean does |
| WeightedStats.CumSum | pandas_utils.py:54 | `cumsum(skipna=False)`: one running total per row; characterised by CumSumPresent, MissingWeightPoisons and CumSumMonotone |
| WeightedStats.PropCum | pandas_utils.py:53-56 | `prop_cum`: one fraction per row, each running total over the weight total; characterised by PropCumMonotone and PropCumLastIsOne |
| WeightedStats.PrefixCumPresent | pandas_utils.py:54 | with no missing cell the running total is the plain sum |
| WeightedStats.MissingWeightPoisons | pandas_utils.py:54 | `cumsum(skipna=False)` is missing at every row from the first missing weight on |
| WeightedStats.CumSumPresentPrefix | pandas_utils.py:54 | a present running total means every weight up to that row is present |
| WeightedStats.CumSumPresent | pandas_utils.py:54 | with the weights up to row k present, the running total at k is the sum of the first k+1 weights |
| WeightedStats.CumSumMonotone | pandas_utils.py:54 | with non-negative weights, the present running totals lie between 0 and the weight total and never decrease along the rows |
| WeightedStats.PropCumMonotone | pandas_utils.py:53-56 | with non-negative weights, `prop_cum` lies in [0, 1] and never decreases along the sorted rows |
| WeightedStats.PropCumLastIsOne | pandas_utils.py:53-56 | with no missing weight and a positive total, the last row's `prop_cum` is 1 |
| WeightedStats.PoisonedRowsNeverQualify | pandas_utils.py:54-59 | from the first missing weight on, no row satisfies `prop_cum <= p`, whatever `p` is |
| WeightedStats.ColumnMax | pandas_utils.py:59 | `Series.max()` is a present cell at least every present cell, and is missing exactly when every cell is |
| WeightedStats.ColumnMaxSameMembers | pandas_utils.py:59 | `max()` depends only on which cells occur, not on their order |
| WeightedStats.Masked | pandas_utils.py:59 | the masked column holds exactly the cells of the rows with `prop_cum <= p` |
| WeightedStats.Estimate | pandas_utils.py:59 | `df_sorted[prop_cum <= p][value].max()`: a defined estimate is one of the column's cells; characterised by EstimateIsMaskedMax |
| WeightedStats.EstimateIsMaskedMax | pandas_utils.py:59 | the estimate is the largest present value among the rows with `prop_cum <= p`, and is missing (not an error) exactly when no such row has a value |
| WeightedStats.EstimateMonotone | pandas_utils.py:57-59 | for p1 <= p2, a defined estimate at p1 implies a defined estimate at p2 that is at least as large |
| WeightedStats.EstimateAtOneIsMax | pandas_utils.py:53-59 | with no missing and no negative weight, the estimate at p = 1 is the column maximum |
| WeightedStats.MaskAllIsIdentity | pandas_utils.py:59 | when every row qualifies the mask keeps the whole column |
| PandasUtils.RowsFor | pandas_utils.py:49 | the rows read for a value column carry exactly the frame's weight column and that value column, row-aligned |
| PandasUtils.Dedup | pandas_utils.py:47-48 | the dict's keys are the value column names without repeats, every name occurring |
| PandasUtils.DedupStep | pandas_utils.py:47-48 | one more assignment appends a new key and leaves a known key in place |
| PandasUtils.SortedPropCum | pandas_utils.py:52-56 | the `prop_cum` column of the rows sorted by value, divided by the weight total of line 46; one fraction per row |
| PandasUtils.ReportedColumn | pandas_utils.py:53-59 | the column `max()` reads: the sorted value column, or the fraction column when the value column is named `prop_cum`; one cell per row |
| PandasUtils.Index | pandas_utils.py:63 | the index is `"mean"` followed by the percentiles in their given order |
| PandasUtils.EstimatesAt | pandas_utils.py:57-60 | the k-th appended estimate answers the k-th percentile |
| PandasUtils.ColumnSummary | pandas_utils.py:48-60 | an output column has 1 + len(percentiles) cells, the first being the weighted mean |
| PandasUtils.ColumnSummaryCell | pandas_utils.py:48-60 | the cell after the mean for `ps[k]` is the masked maximum at `ps[k]` over the rows sorted by value |
| PandasUtils.EstimateIsColumnValue | pandas_utils.py:59 | a defined estimate is one of the column's values |
| PandasUtils.SummaryMonotone | pandas_utils.py:57-59 | within one output column, estimates never decrease as the percentile grows |
| PandasUtils.SummaryAtOneIsMax | pandas_utils.py:48-59 | with no missing and no negative weight, percentile 1 gives the column's largest present value |
| PandasUtils.PropCumNamedColumnBounded | pandas_utils.py:53-59 | a value column literally named `prop_cum` is overwritten by the fraction column, so its estimates are at most the percentile |
| PandasUtils.QuartersMean | pandas_utils.py:46-51 | values 10, 20, 30, 40 with weight 1 each: the weight total is 4 and the mean 25 |
| PandasUtils.QuartersCumSum | pandas_utils.py:54 | the same rows have running totals 1, 2, 3, 4 |
| PandasUtils.QuartersPropCum | pandas_utils.py:52-56 | the same rows are already sorted and get `prop_cum` 0.25, 0.5, 0.75, 1 |
| PandasUtils.QuartersEstimate | pandas_utils.py:59 | the same rows give estimate 20 at p = 0.5 |
| PandasUtils.QuartersExample | pandas_utils.py:48-60 | the output column for the same rows and percentiles [0.5] is [25, 20] |
| PandasUtils.FrameSummary | pandas_utils.py:48-60 | each column of the frame yields 1 + len(percentiles) cells |
| PandasUtils.Summaries | pandas_utils.py:47-60 | the output dict after the outer loop has seen the given names, each assigned its column's summary; characterised by SummariesStep, SummariesKeys and SummariesCells |
| PandasUtils.SummariesStep | pandas_utils.py:47-48 | one more turn of the outer loop updates the dict at that name |
| PandasUtils.SummariesKeys | pandas_utils.py:47-48 | the output dict's keys are exactly the value column names |
| PandasUtils.SummariesCells | pandas_utils.py:47-60 | every named column holds its own summary, even when the name repeats |
| PandasUtils.DescribesShape | pandas_utils.py:47-63 | the returned frame has the index `"mean"` then the percentiles in order, one column per distinct value column name in first-occurrence order, and 1 + len(percentiles) cells per column |
| PandasUtils.SummarizeColumn | pandas_utils.py:48-60 | the inner loop builds the column: the mean over the weight total, then the estimates appended in percentile order |
| PandasUtils.AddColumn | pandas_utils.py:47-60 | one turn of the outer loop assigns the column's summary to `output_dict[name]`, a new name going last |
| PandasUtils.SummarizeColumns | pandas_utils.py:47-62 | the outer loop succeeds exactly when every value column exists; otherwise the first missing one raises; on success the result describes the frame |
| PandasUtils.DescribeAggregated | pandas_utils.py:28-64 | a failed percentile check raises first, then a missing weight column, then the first missing value column; it succeeds exactly when none of these happens, and then it returns the description of the frame |
| Strings.Split | tower_of_utils/os_utils.py:52-53 | `str.split(c)`, also used at general_utils.py:52 and 63 and os_utils.py:137-138: at least one piece and no piece holds `c`; characterised by SplitCount, JoinSplit and SplitLast |
| Strings.RemoveChar | tower_of_utils/general_utils.py:46 | `replace(c, "")` for one character: the result is shorter by the occurrences of `c`, and holds exactly the characters of the string other than `c` |
| Strings.RemoveAll | tower_of_utils/os_utils.py:62 | `replace(pat, "")`, also used at general_utils.py:108: never longer than the string; DeletionJoinsPieces and RemoveRepeatedExtension show its left-to-right deletion |
| Strings.SplitCount | tower_of_utils/general_utils.py:52-54 | `str.split(c)` gives one piece more than the occurrences of `c` |
| Strings.JoinSplit | tower_of_utils/os_utils.py:52-53 | joining `str.split(c)`'s pieces with `c` gives the string back |
| Strings.SplitLast | tower_of_utils/os_utils.py:52-53 | the last piece of `str.split(c)` is the suffix following the last `c`, or all of the string when there is none |
| Strings.Strip | tower_of_utils/general_utils.py:108 | `rstrip().lstrip()`: never longer, and the result neither starts nor ends with whitespace |
| Strings.TrimStart | tower_of_utils/general_utils.py:108 | `lstrip()` removes exactly the leading whitespace: what it removes is whitespace and what it keeps does not start with whitespace |
| Strings.TrimEnd | tower_of_utils/general_utils.py:108 | `rstrip()` removes exactly the trailing whitespace: what it removes is whitespace and what it keeps does not end with whitespace |
| GeneralUtils.Flatten | tower_of_utils/general_utils.py:11-12 | the result's length is the sum of the inner lengths |
| GeneralUtils.FlattenAppend | tower_of_utils/general_utils.py:11-12 | flattening distributes over concatenation of the outer list |
| GeneralUtils.FlattenAt | tower_of_utils/general_utils.py:11-12 | each inner list appears whole, in order, between the lists before and after it |
| GeneralUtils.WhichIsTrue | tower_of_utils/general_utils.py:38-40 | the result holds exactly the indices whose element is true, in strictly increasing order |
| GeneralUtils.WhichIsTrueCount | tower_of_utils/general_utils.py:38-40 | the result has one entry per true element |
| GeneralUtils.PathsTo | tower_of_utils/general_utils.py:15-35 | the paths the search reports, each extending the current path by at least one step; characterised by PathsSound and PathsComplete |
| GeneralUtils.EntryPaths | tower_of_utils/general_utils.py:25-30 | the paths the dict loop has collected after its first n items, each extending the current path; EntryPathsGrow and MatchBeforeInner give their order |
| GeneralUtils.ItemPaths | tower_of_utils/general_utils.py:31-34 | the paths the list loop has collected after its first n elements, each extending the current path; ItemPathsGrow and ItemsInOrder give their order |
| GeneralUtils.FindAllPaths | tower_of_utils/general_utils.py:15-35 | the recursive search with its two loops returns exactly `PathsTo`; a value that is neither dict nor list yields no path |
| GeneralUtils.PathsSound | tower_of_utils/general_utils.py:22-35 | every reported path is the current path followed by dict keys and list indices that exist at their depth, ending with the target key |
| GeneralUtils.PathsComplete | tower_of_utils/general_utils.py:25-35 | every such path to the target key is reported |
| GeneralUtils.EntryPathsGrow | tower_of_utils/general_utils.py:26-30 | the dict loop only appends: paths found for earlier items stay a prefix |
| GeneralUtils.ItemPathsGrow | tower_of_utils/general_utils.py:32-34 | the list loop only appends: paths found for earlier elements stay a prefix |
| GeneralUtils.MatchBeforeInner | tower_of_utils/general_utils.py:28-30 | a matching key's path is reported before the paths found inside its value, and the search goes on below the match |
| GeneralUtils.ItemsInOrder | tower_of_utils/general_utils.py:32-34 | the paths inside a list element follow those of the earlier elements |
| GeneralUtils.IsPriceSymbol | tower_of_utils/general_utils.py:44-72 | `is_price_symbol`: an accepted string is made of digits, `sep` and `dec` and holds a digit; characterised by IsPriceSymbolIsAmount |
| GeneralUtils.RemovedSeparators | tower_of_utils/general_utils.py:46-47 | removing `dec` and `sep` leaves a digit string exactly when the string is made of digits, `sep` and `dec` and holds a digit |
| GeneralUtils.PriceSymbolRules | tower_of_utils/general_utils.py:46-59 | accepted strings are digits and separators with a digit; a digit string is accepted; at most one `dec`, with something before it and only digits after it |
| GeneralUtils.TriplesSplit | tower_of_utils/general_utils.py:68-71 | the grouping test "every later group has 3 characters" on digits and `sep` is the grammar of triples |
| GeneralUtils.IntegerPartBySplit | tower_of_utils/general_utils.py:61-72 | on digits and `sep`, one group, or a first group of at most 3 and later groups of exactly 3, is the integer-part grammar |
| GeneralUtils.AmountWithoutDecimals | tower_of_utils/general_utils.py:46-72 | without `dec`, `is_price_symbol` accepts exactly the integer-part grammar |
| GeneralUtils.AmountWithDecimals | tower_of_utils/general_utils.py:46-72 | with `dec`, it accepts exactly an integer part, one `dec`, and a non-empty digit string |
| GeneralUtils.DecimalAmountAccepted | tower_of_utils/general_utils.py:52-72 | every amount with a decimal part is accepted |
| GeneralUtils.AcceptedDecimalIsAmount | tower_of_utils/general_utils.py:52-72 | every accepted string with `dec` is such an amount |
| GeneralUtils.IsPriceSymbolIsAmount | tower_of_utils/general_utils.py:44-72 | for any convention `is_price_symbol` accepts exactly the amounts of the grammar |
| GeneralUtils.AmountChars | tower_of_utils/general_utils.py:46-47 | every amount of the grammar is non-empty, made of digits and separators, and holds a digit |
| GeneralUtils.FirstMatch | tower_of_utils/general_utils.py:99-103 | the scan stops at the first currency occurring in the string, and finds none exactly when none occurs |
| GeneralUtils.PriceAsWritten | tower_of_utils/general_utils.py:99-114 | no currency gives false; the index error, the only error, is raised exactly when only the last currency of the list occurs |
| GeneralUtils.IsPrice | tower_of_utils/general_utils.py:99-114 | the while loop and the removal compute `PriceAsWritten` |
| GeneralUtils.LeadingLetterNotPrice | tower_of_utils/general_utils.py:110-114 | a string starting with a character that is no digit, separator or blank passes none of the three conventions |
| GeneralUtils.AsWrittenDeletesNextCurrency | tower_of_utils/general_utils.py:101-108 | a currency, a space and a valid amount of the first two conventions is rejected as written when the next list entry's first character does not occur in the string, no earlier entry occurs, and the currency does not start with a digit, a blank, ',' or '.'; the intended function accepts the same string |
| GeneralUtils.UsdTwelve | tower_of_utils/general_utils.py:101-108 | over the list ["USD", "EUR"], "USD 12" is rejected as written and accepted as intended |
| GeneralUtils.LastCurrencyRaises | tower_of_utils/general_utils.py:101-108 | "12 円", which holds only the last currency, raises the index error |
| GeneralUtils.PriceIntended | tower_of_utils/general_utils.py:99-114 | the corrected function, which deletes the matched currency; it accepts only strings holding a currency |
| GeneralUtils.IntendedAcceptsSymbolAmount | tower_of_utils/general_utils.py:105-114 | the corrected function accepts a non-empty currency that does not start with a digit, a blank, ',' or '.', followed by a space and an amount of the first two conventions, when no earlier currency of the list occurs in the string |
| OsUtils.ExtensionFromPath | tower_of_utils/os_utils.py:48-54 | the last '.'-piece of the last `os.sep`-piece: empty for a directory or a path without '.', and never holding '.'; characterised by ExtensionIsLastSuffix |
| OsUtils.ExtensionIsLastSuffix | tower_of_utils/os_utils.py:48-54 | a directory or a path without '.' has no extension; otherwise the extension is a suffix free of '.' and `os.sep`, preceded by one of them (the whole last segment when it has no dot) |
| OsUtils.DottedExtension | tower_of_utils/os_utils.py:52-54 | the last '.'-piece of the last `os.sep`-piece is such a suffix |
| OsUtils.ExtensionOfName | tower_of_utils/os_utils.py:48-54 | the extension of `stem.ext` is `ext` |
| OsUtils.RemoveExtension | tower_of_utils/os_utils.py:61-66 | deletes every occurrence of '.' + extension: never longer than the name, and never empty for a non-empty name; characterised by RemoveSingleExtension and RemoveRepeatedExtension |
| OsUtils.RemoveSingleExtension | tower_of_utils/os_utils.py:61-66 | a name with one dot loses `.ext`, except a dot-file, which would be left empty and is returned whole |
| OsUtils.RemoveRepeatedExtension | tower_of_utils/os_utils.py:61-66 | every occurrence of '.' + extension is deleted: a dot-free stem with its extension repeated ("a.txt.txt") loses both copies; an empty stem is returned whole |
| OsUtils.DeletionCanRebuildExtension | tower_of_utils/os_utils.py:61-66 | the deletion can leave a new occurrence of '.' + extension, which is kept: ".a.abb.ab" becomes ".ab" |
| OsUtils.DeletionJoinsPieces | tower_of_utils/os_utils.py:62 | `str.replace` deletes the non-overlapping occurrences found left to right, and what is left is joined: ".a.abb.ab" without ".ab" is ".ab" |
| OsUtils.DotfileKept | tower_of_utils/os_utils.py:61-66 | ".bashrc" is returned unchanged |
| OsUtils.ReportLosesExtension | tower_of_utils/os_utils.py:61-66 | "report.pdf" becomes "report" |
| OsUtils.NoDotKept | tower_of_utils/os_utils.py:61-66 | a name without '.' is returned unchanged |
| OsUtils.DirectoryLosesDots | tower_of_utils/os_utils.py:61-66 | for a directory the extension is empty, so every '.' is deleted unless nothing would be left |
| OsUtils.IsSubfolderDescendant | tower_of_utils/os_utils.py:69-70 | `startswith(folder + os.sep)`: a descendant is longer than the folder, starts with it and has `os.sep` right after it; DescendantShape gives the converse |
| OsUtils.DescendantShape | tower_of_utils/os_utils.py:69-70 | a descendant is the folder, `os.sep` and a rest; it is longer than the folder, so no folder is its own descendant |
| OsUtils.DescendantTransitive | tower_of_utils/os_utils.py:69-70 | a descendant of a descendant is a descendant |
| OsUtils.BeautifyBytesSize | tower_of_utils/os_utils.py:84-97 | the unit is the largest of bytes, KB, MB, GB (base 1024) not exceeding the size, bytes when none does, and the value times the unit is the size |
| OsUtils.ScaledValueReadable | tower_of_utils/os_utils.py:90-97 | from 1024 bytes on the value is at least 1, and below 1024 for every unit but GB |
| OsUtils.Multiplier | tower_of_utils/os_utils.py:139-146 | "KB" multiplies by 1024, "MB" by 1024², "GB" by 1024³, and any other unit name ("TB", "kb", "bytes") by 1 |
| OsUtils.SizeStringToBytes | tower_of_utils/os_utils.py:135-146 | succeeds exactly when the string holds a space and `float` accepts its first token, and then returns that number times the multiplier of the second token ("12 KB extra" gives 12·1024, "12  KB" gives 12, its unit token being empty); a first token `float` rejects raises the value error, and a number without a space raises the index error |
| OsUtils.MultiplierOfName | tower_of_utils/os_utils.py:139-146 | each unit name printed by `beautify_bytes_size` maps back to its scale |
| OsUtils.ParseTwoTokens | tower_of_utils/os_utils.py:137-146 | a number, a space and a unit name convert to the number times the unit's multiplier |
| OsUtils.BeautifyRoundTrip | tower_of_utils/os_utils.py:139-146 | writing the beautified value and unit and converting back gives the original byte count |

## Left out

- The unweighted `describe_df_using_quantiles_per_column` (`np.quantile`, `np.round` and the rounded string labels) is not modelled beyond its percentile checks, which are the same as the weighted function's.
- Floating point: all numbers are exact reals. There is no rounding, NaN arithmetic or formatting, and NaN is `None`.
- PandasUtils.DescribeAggregated: requires a positive weight total. The code has no guard, and pandas would produce NaN or infinity for a zero total.
- PandasUtils.DescribeAggregated: all columns of a frame are row-aligned, so index alignment in `multiply` is not modelled.
- PandasUtils.DescribeAggregated: the frame holds numeric columns only. Non-numeric cells and dtype checks are not modelled.
- WeightedStats.SortByValue: ties keep input order (a stable insertion sort). pandas' default quicksort may order ties differently, which can change an estimate when tied rows have different weights. The properties proved (monotone estimates, estimates are column values, the maximum at p = 1) do not depend on that order.
- GeneralUtils.Currencies: a representative part of `currency_list` in its order (its first entries, common codes and symbols, and its last entry `"円"`). Because entries are skipped, the entry that follows a currency is not always the one that follows it in the full list ("USD" is followed by "$" here, by "UYU" there). So `PriceAsWritten(s, Currencies)` is not the program's `is_price` in general. `IsPrice` and the general lemmas take any list as a parameter.
- Strings.IsDigit, Strings.IsSpace: ASCII digits and ASCII whitespace only, not Unicode `str.isdigit` and `str.isspace`.
- GeneralUtils.FindAllPaths: dict keys are strings; keys of other types are not modelled.
- GeneralUtils.WhichIsTrue: the elements are booleans; Python truthiness of other values is not modelled.
- OsUtils.ExtensionFromPath: `Path(path).is_dir()` is a boolean parameter, since the filesystem is not modelled.
- OsUtils.SizeStringToBytes: `float()` is a parameter `parse`, since parsing float syntax is not modelled.
- OsUtils.BeautifyBytesSize: returns the scaled value and the unit but not the formatted string.
- The filesystem helpers of `os_utils.py`, `get_parent_directory`, `get_filename_from_path` and `dir_` are not part of this model. Neither are `pickle_utils.py`, `dates_utils.py` and `sklearn_utils.py`, which are I/O, date-library wrappers and random sampling.

## Findings

| source | as written | input that shows it | evidently intended | confidence | as-written member | corrected member |
|---|---|---|---|---|---|---|
| tower_of_utils/general_utils.py:101-108 | after the loop, `i` is one past the matched currency, so `st.replace(currency_list[i], "")` deletes the NEXT entry of the list; a match on the last entry indexes past the end | "USD 12" with the list ["USD", "EUR"] is rejected; "12 円", holding only the list's last entry "円", raises IndexError | delete the matched currency, `currency_list[i - 1]`, so that a currency followed by a valid amount is a price | not executed | GeneralUtils.AsWrittenDeletesNextCurrency | GeneralUtils.IntendedAcceptsSymbolAmount |
