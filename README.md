# COVID-19 analysis toolkit: dataset store, quote-aware substitution and data preparation

This Dafny project models the computational core of HanishKVC's COVID-19 analysis scripts and proves properties of it.

- **The `AnalPlot` dataset store** (`analplot.dfy`). It is a class whose single field `data` maps string keys to entries. An entry is either a data matrix or a row/column header.
  - `set_raw` resets the store and seeds `"raw"`, `"rawRowHdr"` and `"rawColHdr"`.
  - `calc_rel2mean`, `calc_rel2sum` and `calc_movavg` each read a selector `sel` and its two header keys. They write a derived matrix under `sel + ".rel2mean"` (or `.rel2sum` or `.movavg`), with header keys named by the same rule.
  - The store invariant is proved to hold after every call. It says that a matrix key has both header siblings, and that a header key is named after a matrix key. Because of it, every derived key can serve as a selector again. The one exception is `rel2mean` or `rel2sum` on a non-empty `movavg` output: its all-zero column 0 makes numpy divide by zero, which is outside the model (`Analplot.MovAvgBlocksDivision`).
  - Each `calc_*` method is proved equal to a pure transition function `Calc`. `Calc`'s contract gives:
    - the order of the key lookups;
    - the keys written, with every other key unchanged;
    - the derived matrix;
    - the header rules.
- **Matrices and numpy** (`matrices.dfy`). A matrix carries its shape explicitly, so an empty (0 × C) array is a value like any other.
  - Arithmetic is exact (`real`).
  - `np.convolve(a, v, 'valid')` is modelled in full: it swaps the operands when `v` is longer and raises on an empty operand. With uniform weights it is proved to give the window means.
- **`replace_ifwithin`** (`helpers.dfy`). The character loop is a method proved against a recursive specification. Lemmas give:
  - positions are preserved;
  - a character changes only when it is `find` inside quotes (both directions);
  - quotes are kept;
  - a string without quotes is unchanged;
  - an unmatched quote opens to the end of the string;
  - the substitution is idempotent.
- **Data preparation of `hkvc-covid19india.py`** (`covid19india.dfy`). This covers `date2float`, including Python's `str.split` and `int()`, and the body of `extract_data` after the CSV parse:
  - drop the last column;
  - record the missing cells in row-major order;
  - zero them;
  - re-fill each one in turn from a clamped window of its column, divided by 6.

  The re-filling is modelled twice, once as written and once as evidently intended (see Findings).

`outcomes.dfy` holds the `Option` and `Result` types.

`analplot.py` has no key grammar, no memoization and no removal of derived keys: keys are built by plain concatenation, and every `calc_*` call recomputes its result and overwrites its target.

`calc_movavg` succeeds iff `0 <= avgOver <= R + 1` and (`C <= 1` or `1 <= avgOver <= R`) (`Analplot.MovAvgAccepts`). `np.ones(avgOver)` and `np.zeros((R-(avgOver-1), C))` need non-negative sizes. Once the column loop runs (C >= 2), `np.convolve` needs non-empty operands and must return exactly R-(avgOver-1) values.

## Model

| member | source | states |
|---|---|---|
| Analplot.AnalPlot.constructor | analplot.py:10-14 | The store starts empty and satisfies the store invariant. Before `set_raw` every lookup fails, as with the missing attribute. |
| Analplot.AnalPlot.SetRaw | analplot.py:13-17 | Every previous entry is discarded. Exactly the keys "raw", "rawRowHdr" and "rawColHdr" remain, holding the given matrix and headers. The `skip*` arguments have no effect, and the invariant is established. |
| Analplot.AnalPlot.CalcRel2Mean | analplot.py:20-26 | On success, the new store is `Calc(old, sel, Rel2Mean)`. On a missing key, that KeyError is returned and the store is unchanged. The invariant is kept. |
| Analplot.AnalPlot.CalcRel2Sum | analplot.py:29-35 | On success, the new store is `Calc(old, sel, Rel2Sum)`. On a missing key, that KeyError is returned and the store is unchanged. The invariant is kept. |
| Analplot.AnalPlot.CalcMovAvg | analplot.py:38-48 | On success, the new store is `Calc(old, sel, MovAvg(avgOver))`. On a KeyError or a numpy ValueError, that error is returned and the store is unchanged. The default window is 7. |
| Analplot.Calc | analplot.py:21-48 | Lookups fail with KeyError in source order: sel, then sel+"ColHdr", then sel+"RowHdr". movavg fails exactly when its shape is not accepted. On success: the keys are the old keys plus exactly the three targets; every other key is unchanged; the target holds the derived matrix; the ColHdr is copied; the RowHdr is copied for rel2mean/rel2sum and regenerated as 0..rows-1 for movavg; the store invariant is kept. |
| Analplot.SelectorIsData | analplot.py:21-23 | Under the invariant, a key whose two header keys are present holds a matrix. |
| Analplot.InsertKeepsInvariant | analplot.py:24-26 | Writing a matrix under a fresh-shaped target, together with its two header entries, keeps the store invariant. |
| Analplot.HeadersOfSelector | analplot.py:22-23 | The header siblings of a selector hold headers, never matrices. |
| Analplot.TargetShape | analplot.py:24 | A target key is longer than its selector plus six characters and does not end in 'r', so it can never be confused with a header key. |
| Analplot.ChainedSelector | analplot.py:22-26 | Chaining: a further `calc_*` on a freshly derived key never fails for a missing key. Only movavg can fail there, for its window. It covers rel2mean/rel2sum only where their divisors are non-zero, which excludes a non-empty movavg output. |
| Analplot.MovAvgBlocksDivision | analplot.py:43-44 | A movavg output with rows and columns has a column 0 summing to zero, so a following rel2mean or rel2sum does not meet the non-zero-divisor condition. |
| Analplot.RecalcIsStable | analplot.py:24-26 | Repeating a `calc_*` on the store it produced recomputes and overwrites the same three entries, leaving the store unchanged. Nothing is reused or cached. |
| Analplot.DivideByColumnMean | analplot.py:24 | `d / np.mean(d, axis=0)` keeps the shape, and cell (i, c) times the mean of column c is d[i][c]. |
| Analplot.DivideByColumnSum | analplot.py:33 | `d / np.sum(d, axis=0)` keeps the shape, and cell (i, c) times the sum of column c is d[i][c]. |
| Analplot.RelToMeanColumnsAverageOne | analplot.py:24 | Every column of the rel2mean matrix has mean 1. |
| Analplot.RelToSumColumnsSumToOne | analplot.py:33 | Every column of the rel2sum matrix sums to 1. |
| Analplot.MovAvgAccepts | analplot.py:42-45 | The shapes `calc_movavg` accepts: 0 <= avgOver <= R+1, and 1 <= avgOver <= R once there is a column 1. |
| Analplot.AcceptedShapes | analplot.py:42-45 | A shape is accepted iff `np.ones`/`np.zeros` get non-negative sizes and, when C >= 2, convolving a column of R values with the weights succeeds and returns exactly R-(avgOver-1) values. |
| Analplot.MovAvgError | analplot.py:42-45 | The first numpy error raised for a rejected shape: a negative size, then an empty convolution operand, then a broadcast shape mismatch. |
| Analplot.MovingAverageOf | analplot.py:42-45 | The movavg matrix has R-(avgOver-1) rows and C columns. Column 0 is all zero. For i >= 1, cell (j, i) is the mean of rows j..j+avgOver-1 of column i. |
| Analplot.MovingAverage | analplot.py:42-45 | The column loop succeeds iff the shape is accepted, and otherwise raises numpy's error. The result has R-(avgOver-1) rows and C columns and equals `MovingAverageOf`. Column 0 is all zero. For i >= 1, cell (j, i) is the mean of rows j..j+avgOver-1 of column i. |
| Analplot.MovingAverageOfCells | analplot.py:43-45 | A matrix of the output shape with zeros in column 0 and window means elsewhere is exactly the moving-average matrix. |
| Analplot.Indices | analplot.py:47 | `list(range(n))` has n labels, and label j is j. |
| Matrices.Uniform | analplot.py:42 | `np.ones(n)/n` has n weights, each of which times n is 1. |
| Matrices.SetColumn | analplot.py:45 | `dataConv[:, i] = col` replaces column i by `col` and keeps every other cell and the shape. |
| Matrices.ColSum | analplot.py:33 | `np.sum(d, axis=0)[c]`, the sum of column c; 0 for a matrix without rows. |
| Matrices.ColMean | analplot.py:24 | `np.mean(d, axis=0)[c]` of a matrix with rows: the mean times the row count is the column sum. |
| Analplot.Target | analplot.py:24-48 | The key `"{}.rel2mean".format(sel)` (resp. `.rel2sum`, `.movavg`): longer than `sel` and starting with it. |
| Analplot.Targets | analplot.py:24-48 | The three keys one `calc_*` call writes: the target and its RowHdr and ColHdr keys. |
| Analplot.Derived | analplot.py:24-46 | The matrix written under the target: division by the column means, by the column sums, or the moving average. |
| Matrices.Zeros | analplot.py:43 | `np.zeros((R, C))` has shape R × C, and every cell is 0. |
| Matrices.ConvolveValid | analplot.py:45 | `np.convolve(a, v, 'valid')` succeeds iff both operands are non-empty, raising otherwise. Its length is max(len(a),len(v)) - min(len(a),len(v)) + 1. |
| Matrices.ConvolveUniform | analplot.py:42-45 | Convolving with `np.ones(n)/n`, where 0 < n <= len(a), gives len(a)-n+1 values, and value j is the mean of a[j..j+n-1]. |
| Matrices.ConvDotConstant | analplot.py:42-45 | Against constant weights k, the dot product is k times the sum of the window. |
| Matrices.SumOfZeros | analplot.py:43-44 | A sequence of zeros, such as the untouched column 0 of `np.zeros`, sums to zero. |
| Matrices.SumDivided | hkvc-covid19india.py:53-54 | Summing after an elementwise division by t equals dividing the sum by t. |
| Matrices.Divided | hkvc-covid19india.py:53 | Elementwise division by t keeps the length, and each quotient times t gives back the element. |
| Helpers.Replaced | helpers.py:16-25 | The specification of the substitution: each position contributes `replace` when it holds `find` with an odd count of quotes up to and including it, and itself otherwise. |
| Helpers.ReplaceIfWithin | helpers.py:16-25 | The loop's output is `Replaced(lIn, ...)`. With a one-character `replace`, the output has the input's length, and position i holds `replace` when lIn[i] is `find` inside quotes and lIn[i] otherwise. |
| Helpers.ReplacedAt | helpers.py:18-24 | With a one-character `replace`, the prefix produced by n characters has length n, and each position follows the rule above. |
| Helpers.ChangedIff | helpers.py:20-23 | With a one-character `replace` different from `find`, position i changes iff lIn[i] is `find` and the count of quotes in lIn[0..i], inclusive, is odd. |
| Helpers.NoQuoteUnchanged | helpers.py:19-24 | Without a quote in the first n characters, the flag stays off and the output prefix is the input prefix. |
| Helpers.NoQuoteIdentity | helpers.py:19-24 | A string without the quote character is returned unchanged. |
| Helpers.UnmatchedQuoteOpens | helpers.py:20-21 | After an opening quote (an even number of quotes before it) that no later quote in the string closes, every later position is inside. |
| Helpers.QuotesKept | helpers.py:22-24 | With one-character arguments, `withIn != find` and `replace != withIn`, quote characters are copied, so every prefix of the output has as many quotes as the input's. |
| Helpers.ReplaceIdempotent | helpers.py:20-24 | For one-character arguments where `replace` differs from `find` and `withIn`, and `withIn` differs from `find`, applying the substitution twice equals applying it once. |
| CovidIndia.Split | hkvc-covid19india.py:31 | `str.split('-')` yields one more field than there are separators, and no field contains a separator. |
| CovidIndia.SplitWithoutSeparator | hkvc-covid19india.py:31 | A string without a separator splits into itself alone. |
| CovidIndia.SplitAtFirst | hkvc-covid19india.py:31 | Splitting `a + "-" + b`, where a has no separator, gives a followed by the fields of b. |
| CovidIndia.SplitThree | hkvc-covid19india.py:31 | `d-m-y` with separator-free parts splits into exactly [d, m, y]. |
| CovidIndia.Decimal | hkvc-covid19india.py:32-33 | The decimal rendering of a number is a non-empty string of digits. |
| CovidIndia.StripLeftSuffix | hkvc-covid19india.py:32-33 | The whitespace `int()` strips on the left leaves a suffix of the field that does not start with a space. |
| CovidIndia.StripRightPrefix | hkvc-covid19india.py:32-33 | The whitespace `int()` strips on the right leaves a prefix of the field that does not end in a space. |
| CovidIndia.StrippedIsInside | hkvc-covid19india.py:32-33 | The stripped text is a contiguous slice of the field. |
| CovidIndia.ParseSigned | hkvc-covid19india.py:32-33 | An optional sign followed by digits. When it is accepted, the text holds a digit. |
| CovidIndia.ParseInt | hkvc-covid19india.py:32-33 | Python's `int()` on a field: surrounding whitespace, an optional sign, then digits. It accepts a field only if the field holds a digit, so an all-whitespace field is rejected. |
| CovidIndia.DecimalValue | hkvc-covid19india.py:32-33 | The digits of n read back as n. |
| CovidIndia.ParseDecimal | hkvc-covid19india.py:32-33 | `int()` of the decimal rendering of n is n. |
| CovidIndia.Date2Float | hkvc-covid19india.py:29-34 | `date2float` fails with the IndexError of `sDate[2]` exactly when the field has fewer than two separators. |
| CovidIndia.DateCode | hkvc-covid19india.py:29-34 | For any separator-free day, month and year fields that `int()` reads as d and y, the date maps to (y + 2000) * 10000 + d. This holds however the fields are spelled: leading zeros, a sign or surrounding whitespace. |
| CovidIndia.DateCodeOfDecimals | hkvc-covid19india.py:29-34 | The corollary for fields written as `str` writes numbers. |
| CovidIndia.ParseZeroPadded | hkvc-covid19india.py:33 | `int("01")` is 1: a zero-padded day field is accepted and read as its value. |
| CovidIndia.DateCodePaddedExample | hkvc-covid19india.py:29-34 | The zero-padded "01-Apr-20" becomes 20200001. |
| CovidIndia.MonthIgnored | hkvc-covid19india.py:31-34 | Dates that differ only in the middle field give the same value or the same error. |
| CovidIndia.TooFewFieldsFail | hkvc-covid19india.py:31-32 | With fewer than two separators there is no third field, and the call fails. |
| CovidIndia.NotAnIntegerFails | hkvc-covid19india.py:32-33 | A year field that `int()` rejects fails the call. So does a rejected day field once the year parses, because the year is read first. |
| CovidIndia.DateCodeExample | hkvc-covid19india.py:29-34 | "14-Mar-20" becomes 20200014. |
| CovidIndia.DropLastColumn | hkvc-covid19india.py:40 | `data[:, 0:-1]` keeps the row count, drops one column (none of an empty table), and keeps every remaining cell. |
| CovidIndia.Missing | hkvc-covid19india.py:42 | `np.argwhere(np.isnan(data))` lists a position iff it is a missing cell of the table. Every position is in bounds, and the list is strictly ordered row-major, so each cell appears once. |
| CovidIndia.MissingInRowFacts | hkvc-covid19india.py:42 | Within one row, the listed positions are exactly that row's missing cells, in column order. |
| CovidIndia.MissingInRowsFacts | hkvc-covid19india.py:42 | Over the first m rows, the listed positions are exactly their missing cells, in row-major order. |
| CovidIndia.Zeroed | hkvc-covid19india.py:43 | `data[np.isnan(data)] = 0` sets every missing cell to 0 and keeps every observed cell. |
| CovidIndia.WindowStart | hkvc-covid19india.py:45-47 | `max(0, r - 3)`: at most r, and 3 below r unless clamped to 0. |
| CovidIndia.WindowEnd | hkvc-covid19india.py:48-50 | `min(R, r + 4)`: at most R and at most r + 4, equal to one of them. |
| CovidIndia.WindowBounds | hkvc-covid19india.py:45-50 | For a missing cell in row r: 0 <= iS <= r < iE <= R, and iE - iS <= 7. |
| CovidIndia.ImputedValue | hkvc-covid19india.py:53-54 | The re-filled value times 6 is the sum of the column over the window, whatever the window's length. |
| CovidIndia.SetCell | hkvc-covid19india.py:54 | The intended `data[r, c] = v` changes cell (r, c) alone. |
| CovidIndia.SetRow | hkvc-covid19india.py:54 | `data[r] = v` sets every cell of row r to v and keeps the other rows. |
| CovidIndia.Impute | hkvc-covid19india.py:44-54 | The intended re-filling keeps the matrix's shape. |
| CovidIndia.AsWrittenStep | hkvc-covid19india.py:54 | The as-written step `data[[r, c]] = v` raises IndexError iff c >= R. Otherwise it keeps the shape, writes v into every cell of rows r and c, and keeps every other row. |
| CovidIndia.ImputeAsWritten | hkvc-covid19india.py:44-54 | When the as-written re-filling succeeds, the shape is kept. |
| CovidIndia.AsWrittenFailsIff | hkvc-covid19india.py:44-54 | As written, `extract_data` raises iff some missing cell's column number is not below the row count. |
| CovidIndia.AsWrittenLastStep | hkvc-covid19india.py:44-54 | The as-written loop over one more position raises iff the shorter loop raised or the new position's column is past the rows. |
| CovidIndia.AsWrittenKeepsOtherRows | hkvc-covid19india.py:44-54 | As written, a cell keeps its value when its row is neither the row nor the column number of any listed position. |
| CovidIndia.AsWrittenStaysFailed | hkvc-covid19india.py:44-54 | Once one step has raised, the whole loop ends with that error. |
| CovidIndia.ExtractDataAsWritten | hkvc-covid19india.py:40-56 | The loop as written yields exactly `ImputeAsWritten` over the zeroed table and its missing cells, and on success keeps the row count. |
| CovidIndia.AsWrittenOverwritesObserved | hkvc-covid19india.py:54 | For [[1, NaN], [2, 6], [3, 12]], the as-written loop replaces the observed 1 and 6 with 3. The intended loop keeps 1 and 6 and puts 3 in the gap. |
| CovidIndia.AsWrittenRaisesOnNarrowTable | hkvc-covid19india.py:54 | In a two-row table with three kept columns, a gap in column 2 makes the as-written loop raise IndexError for index 2 of 2 rows. |
| CovidIndia.ExtractData | hkvc-covid19india.py:40-56 | The intended loop yields exactly `Impute` over the zeroed table and its missing cells. It keeps the row count and has one column fewer, and every observed cell keeps its parsed value. |
| CovidIndia.ObservedCellsKept | hkvc-covid19india.py:42-54 | After the intended re-filling, every observed cell holds its parsed value. |
| CovidIndia.ImputeKeepsOthers | hkvc-covid19india.py:44-54 | A cell that is not listed keeps its value through the re-filling. |
| CovidIndia.ImputeFinalValue | hkvc-covid19india.py:44-54 | With each cell listed once, in row-major order as `np.argwhere` lists them, each listed cell ends with the value computed at its own turn, from the matrix as the earlier turns left it, so later windows see earlier fills. |
| CovidIndia.MissingCellsFilled | hkvc-covid19india.py:44-54 | Every missing cell of the table ends with the window value computed at its own turn. |

## Left out

- `AnalPlot.plot` (analplot.py:51-66): matplotlib rendering, which is output only.
- `dprint` (helpers.py:7-12): console output.
- `get_data`, the command-line and top-level code, and the `np.genfromtxt` CSV parse of hkvc-covid19india.py: downloading, the clock, `sys.argv` and file reading. The model starts from the parsed table, where `None` marks a cell read as NaN.
- A CSV file with a single data row, which `np.genfromtxt` returns as a 1-D array, so that line 40 raises: the parsed table is always two-dimensional here.
- The `print` calls inside `extract_data` (hkvc-covid19india.py:51-52, 55): console output only.
- The UTF-8 `decode` in `date2float` (hkvc-covid19india.py:30): the model works on the decoded characters.
- datasrc.py, hkvc-mygov-india.py and hkvc-covid19-analtoolkit.py are not part of this model. They are download drivers (subprocess, clock, filesystem) and matplotlib figures.
- IEEE floating point: results are exact reals, so neither rounding in `np.convolve`/`np.sum` nor NaN/inf is modelled.
- Analplot.AnalPlot.CalcRel2Mean: requires non-zero column means whenever the matrix has rows, because a zero mean gives NaN/inf in numpy, which exact reals do not have.
- Analplot.AnalPlot.CalcRel2Sum: requires non-zero column sums whenever the matrix has rows, for the same reason.
- Analplot.Calc: carries the same non-zero-divisor requirement for rel2mean and rel2sum.
- Analplot.ChainedSelector: `calc_rel2mean` or `calc_rel2sum` on a non-empty `calc_movavg` output is outside the model. That output's column 0 is never written and so sums to 0, and numpy fills the column with NaN; `Analplot.MovAvgBlocksDivision` proves the condition fails. Of the nine chaining pairs, movavg→rel2mean and movavg→rel2sum are therefore not covered for any input with rows and columns.
- CovidIndia.ParseInt: models `int()` on ASCII whitespace, an optional sign and ASCII digits. Underscore digit separators, non-ASCII digits and non-ASCII whitespace are not modelled.
- Store entries hold only matrices and header label lists. Python accepts any object as `data` or a header, and numpy's broadcasting of other shapes is not modelled.
- Analplot.AnalPlot.constructor: Python creates `self.data` only in `set_raw`, so an earlier `calc_*` raises AttributeError. The model starts with an empty store instead, where the same call fails with KeyError.

## Findings

| source | as written | input that shows it | evidently intended | confidence | as-written member | corrected member |
|---|---|---|---|---|---|---|
| hkvc-covid19india.py:54 | `data[i] = value`, with `i` the pair `[r, c]` from `np.argwhere`, is numpy integer-array indexing on the first axis. It overwrites all of rows r and c, and raises IndexError when c >= R. | The table [[1, NaN], [2, 6], [3, 12]] (after dropping the last column): the observed 1 and 6 both become 3. A two-row table with a gap in column 2 raises. | `data[r, c] = value`, so that only the missing cell changes and every observed cell keeps its value. | high, not executed | CovidIndia.ExtractDataAsWritten | CovidIndia.ExtractData |
