# fx-volatility-trading in Dafny

A model of the core of fx-volatility-trading, a backtest of one-month EURUSD variance swaps.

- **Daily trades.** Every day on which market data is present, buy a variance swap at the fair strike. Settle it on the spot levels observed up to its value date.
- **Hit-rate heat map.** Group the trade dates into a grid of cells, with the implied-vol percentile on one axis and the vol carry on the other. On each cell, measure how often the trade was profitable.

The modules follow the repository's files:

| module | file | contents |
|---|---|---|
| `Common` | (shared) | `Option`, `Result`, and `Float` (NaN or a number). Sums and quotients. The laws assumed of `sqrt` and `exp`. |
| `StatMethods` | `algorithm/stat_methods.py` | Log returns, annual realised vol and the moving sum of squares. Moving realised vol computed two ways, a loop and a matrix. Percentile and moving percentile. The EMA vol forecast. |
| `Gridiser` | `gridiserFactory` in `algorithm/stat_methods.py` | Binning of a point into grid cells. |
| `PyText` | (shared) | The Python built-ins the cell strings rely on: `str` of an int and of a tuple, `str.replace`, `str.split`, `str.strip` and `int()`. |
| `Graphics` | `algorithm/graphics.py` | The heat-map plot: the `cell` column, the grouping of rows by cell, the hit-rate matrix and the cell-string parser. |
| `TradeClasses` | `algorithm/trade_classes.py` | `Trade` and `VarianceSwap`: direction validation, notional derivation, payoff, mark-to-market, fair strike and final realised vol. |
| `Utils` | `algorithm/utils.py` | `get_index_of_first`, the `FileDef` check, and the merge of dated CSV columns into one record per date string. |
| `Algorithm` | `algorithm.py` | The backtest loop and the derived `profitable` and `vol_carry` columns. |
| `Fixtures` | `tests/` | The exact fixtures of the statistics tests. |

How the model is written:

- **Transcendental functions.** `log`, `sqrt` and `exp` are function parameters (`ln`, `sqrt`, `exp`). Properties that need them are proved under the laws `IsSqrt` (a non-negative root whose square is its argument) and `IsExp` (`exp(0) = 1`).
- **NaN.** numpy's NaN is the `NaN` constructor of `Float`.
- **State changes.**
  - Loops that fill numpy arrays or Python lists are methods with loop invariants. Each is proved equal to a reference function.
  - The heat matrix is an `array2` filled in place.
  - `Trade`, `VarianceSwap` and `HeatMapPlot` are classes whose constructors set their fields once. The source never changes them afterwards.
- **Dates** are day numbers. The uuid trade id is a parameter.

Where one might expect a check the code does not make, the model follows the code:

- `forecast_ema_vol` does not check `_lambda`, and nothing checks that levels are positive. The model adds no error for either. For a weight outside `[0, 1]` the radicand of a step can be negative. numpy's `** 0.5` then gives NaN, and every later step is NaN too. The model returns `NaN` entries from that step on.
- Heat-matrix cells that no row falls into hold 0, which looks the same as a 0% hit rate. They hold no sentinel value.
- `VarianceSwap.payoff` ignores the trade's direction. A sell has the same payoff as a buy.

## Model

| member | source | states |
|---|---|---|
| StatMethods.LogReturns | algorithm/stat_methods.py:6-10 | There are `n - w` log returns for a window `w` within the data, and none otherwise. |
| StatMethods.LogReturnsAt | algorithm/stat_methods.py:6-10 | Log return `k` is `ln(levels[k + w] / levels[k])`. |
| StatMethods.LogReturnsOfSlice | algorithm/stat_methods.py:40-47 | The log returns of the levels slice `[a, b)` are the full log returns on `[a, b - 1)`. So the loop branch's windows see the same returns as the matrix branch. |
| StatMethods.AnnualRealisedVol | algorithm/stat_methods.py:13-16 | The annual realised vol is NaN exactly when there are no levels. |
| StatMethods.AnnualRealisedVolSquared | algorithm/stat_methods.py:13-16 | For non-empty levels the vol is a non-negative number. Its square is 252 times the sum of squared daily log returns, divided by the number of levels (not the number of returns). |
| StatMethods.VolFromSumSquared | algorithm/stat_methods.py:49 | `sqrt(252 * s / count)` is non-negative, and its square is `252 * s / count`. |
| StatMethods.PyTail | algorithm/stat_methods.py:43 | `output[1:]` drops the first entry, and is empty on an empty array. |
| StatMethods.MatVec | algorithm/stat_methods.py:28 | Entry `i` of `np.matmul(matrix, v)` is the dot product of row `i` with `v`. |
| StatMethods.DotMasked | algorithm/stat_methods.py:24-28 | A row that copies `arr` on `[lo, hi)` and is zero elsewhere, dotted with `arr`, gives the sum of squares of `arr[lo..hi)`. This also holds for every prefix. |
| StatMethods.MatVecOfMasks | algorithm/stat_methods.py:21-28 | On the transition matrix, each row `j >= w - 1` holds the window ending at `j` and earlier rows are zero. Multiplied by `arr`, it gives 0 before `w - 1` and, at `j`, the sum of squares of `arr[j + 1 - w..j + 1]`. |
| StatMethods.SumSquaresMovingWindow | algorithm/stat_methods.py:19-28 | `sum_squares_moving_window` returns `|arr|` entries. They are zero before index `w - 1`; from there on, entry `j` is the sum of squares of the `w` elements ending at `j`. |
| StatMethods.MovingRealisedVol | algorithm/stat_methods.py:31-52 | As a reference definition, the moving realised vol has `n - 1` entries (none for no levels). |
| StatMethods.TrailingVols | algorithm/stat_methods.py:35-41 | The loop's output array has one entry per level. |
| StatMethods.MovingRealisedVolAt | algorithm/stat_methods.py:37-52 | Entry `k` of the moving vol is NaN exactly when `k + 1 < w`. Otherwise it is `sqrt(252 * S / (w + 1))`, where `S` is the sum of the squares of the `w` log returns ending at `k`. |
| StatMethods.TrailingVol | algorithm/stat_methods.py:40-41 | The realised vol of the `w + 1` levels ending at `j` is the vol of the sum of squares of the `w` log returns before `j`, divided by `w + 1`. |
| StatMethods.VolOfReturns | algorithm/stat_methods.py:13-16 | The realised vol of a window depends only on its log returns and its length. |
| StatMethods.MovingVolByLoop | algorithm/stat_methods.py:37-43 | The `by_matrix=False` branch returns the reference moving realised vol. |
| StatMethods.MovingVolByMatrix | algorithm/stat_methods.py:44-52 | The `by_matrix=True` branch returns the reference moving realised vol. So the two branches agree on every input. |
| StatMethods.MatrixVols | algorithm/stat_methods.py:49-51 | The matrix branch's NaN-prefixed output has one entry per level. |
| StatMethods.MatrixVolsAreTrailingVols | algorithm/stat_methods.py:44-52 | Given moving sums of squares of the log returns, the matrix branch's output equals the loop branch's output array, entry by entry. |
| StatMethods.MovingAnnualRealisedVol | algorithm/stat_methods.py:31-52 | `calc_moving_annual_realised_vol` returns the reference moving realised vol, whichever branch `by_matrix` selects. |
| StatMethods.CountLess | algorithm/stat_methods.py:56 | `sum(arr < value)` is at most `len(arr)`. |
| StatMethods.CountLessIsCardinality | algorithm/stat_methods.py:56 | `sum(arr < value)` is the number of indices whose element is strictly less than `value`. Ties do not count. |
| StatMethods.Percentile | algorithm/stat_methods.py:55-56 | The percentile lies in `[0, 1]`. |
| StatMethods.PercentileCounts | algorithm/stat_methods.py:55-56 | The percentile times `len(arr)` is the number of elements strictly less than the value. |
| StatMethods.PercentileOfLast | algorithm/stat_methods.py:65-67 | The last element of a window is never strictly less than itself, so its percentile is at most `(len - 1) / len`. |
| StatMethods.MovingPercentiles | algorithm/stat_methods.py:59-69 | As a reference definition, the moving percentile has one entry per element. |
| StatMethods.MovingPercentilesBounded | algorithm/stat_methods.py:64-67 | Every defined moving percentile lies in `[0, (w - 1) / w]`. |
| StatMethods.MovingPercentile | algorithm/stat_methods.py:59-69 | The loop returns the reference moving percentile. That is NaN before `w - 1`, and at `j` the percentile of `arr[j]` within the window ending at `j`. |
| StatMethods.ForecastEmaVol | algorithm/stat_methods.py:72-82 | The result has one entry per level. Entry `i` is the EMA recurrence started at `vol_0` for `i <= n - w`, NaN from the first negative radicand on. Later entries, which the loop never writes, stay 0. |
| StatMethods.EmaStep | algorithm/stat_methods.py:81 | One step is NaN exactly when the previous step is NaN or the radicand `λ·prev² + (1 - λ)·r²` is negative. Otherwise it is a non-negative number whose square is the radicand. |
| StatMethods.EmaAt | algorithm/stat_methods.py:77-81 | The EMA recurrence seeded with `vol_0`. Its contract is carried by `EmaDefined`, `EmaNaNPersists`, `EmaSquaredStep` and `EmaBounded`. |
| StatMethods.EmaDefined | algorithm/stat_methods.py:77-81 | For `λ` in `[0, 1]` no step is NaN. |
| StatMethods.EmaNaNPersists | algorithm/stat_methods.py:77-81 | Once a step is NaN, every later step is NaN. |
| StatMethods.EmaNegativeWeight | algorithm/stat_methods.py:81 | `λ = 2`, `vol_0 = 0.1` and a return of 1 give a radicand of `-0.98`, so the first step is NaN. |
| StatMethods.EmaSquaredStep | algorithm/stat_methods.py:81 | For `λ` in `[0, 1]` each EMA vol is a non-negative number. Its square is `λ·prev² + (1 - λ)·r²`. |
| StatMethods.RadicandNonNegative | algorithm/stat_methods.py:81 | For `λ` in `[0, 1]` the radicand is never negative. |
| StatMethods.EmaBounded | algorithm/stat_methods.py:79-81 | If `vol_0²` and every `r²` are at most a bound, every EMA vol is a number and its square is at most that bound, for `λ` in `[0, 1]`. |
| Gridiser.FirstBin | algorithm/stat_methods.py:94-97 | The search from bin `i` returns a bin in `[i, divisions)`. |
| Gridiser.Cell | algorithm/stat_methods.py:88-97 | `fit_cell` succeeds exactly when the value lies in `[min, max]`, and then returns a bin below `divisions`. Otherwise it raises `ValueError` for that axis. |
| Gridiser.Gridise | algorithm/stat_methods.py:99-105 | `gridise` raises `TypeError` exactly when the argument count differs from the number of axes. On success it gives one bin per axis, each below that axis' divisions. |
| Gridiser.CellsFrom | algorithm/stat_methods.py:105 | The comprehension from axis `dim` on fails only with a `ValueError`. On success it gives one bin per remaining axis, each below that axis' divisions. |
| Gridiser.FitCell | algorithm/stat_methods.py:88-97 | `fit_cell` raises `ValueError(dim)` outside `[min, max]`. Otherwise it returns the first bin whose upper edge exceeds the normalised value, or the last bin. |
| Gridiser.FirstBinSkips | algorithm/stat_methods.py:94-96 | Bins whose edge the value has passed do not change the result of the search. |
| Gridiser.FirstBinLeast | algorithm/stat_methods.py:94-96 | The bin found is the least bin whose edge exceeds the value, or the last bin. |
| Gridiser.CellsFromSpec | algorithm/stat_methods.py:105 | Fitting the axes from `dim` on succeeds exactly when every value is in bounds, and then gives each axis its own cell. Otherwise the error names the first axis that is out of bounds. |
| Gridiser.GridiseSpec | algorithm/stat_methods.py:99-105 | `gridise` raises `TypeError(|shape|, |args|)` exactly when the argument count is wrong. It succeeds exactly when every value is within its axis, and then gives one cell per axis. Otherwise it raises `ValueError` for the first axis out of bounds. |
| Gridiser.CellIsLeastBin | algorithm/stat_methods.py:93-97 | An in-bounds value gets the least bin `i < divisions` with `normalised < (i + 1) / divisions`, or the last bin when no such bin exists. |
| Gridiser.EdgeValue | algorithm/stat_methods.py:95 | The edge of bin `i` is `(i + 1) / divisions`. |
| Gridiser.EdgeInUnit | algorithm/stat_methods.py:95 | Every bin edge lies in `(0, 1]`. |
| Gridiser.MinInFirstBin | algorithm/stat_methods.py:88-97 | The minimum of an axis falls in bin 0. |
| Gridiser.MaxInLastBin | algorithm/stat_methods.py:88-97 | The maximum of an axis falls in the last bin, since the upper edge is closed. |
| Gridiser.FirstBinAtTop | algorithm/stat_methods.py:94-97 | A normalised value of 1 runs through every bin and ends at `divisions - 1`. |
| Gridiser.CellMonotone | algorithm/stat_methods.py:88-97 | The bin index never decreases as the value grows. |
| Gridiser.FirstBinMonotone | algorithm/stat_methods.py:94-97 | The search result never decreases as the normalised value grows. |
| PyText.NatRepr | algorithm/graphics.py:65 | `str` of a natural number is non-empty. |
| PyText.NatReprValue | algorithm/graphics.py:124 | `str(n)` consists of digits that read back as `n`. |
| PyText.Remove | algorithm/graphics.py:125-128 | After `replace(c, "")` the string does not contain `c`. |
| PyText.Split | algorithm/graphics.py:129 | `split(sep)` always returns at least one piece. |
| PyText.ParseIntRepr | algorithm/graphics.py:124 | `int()` reads back `str(i)`, with or without the leading space that follows a comma in `str(tuple)`. |
| PyText.StripRepr | algorithm/graphics.py:124 | Stripping `str(i)`, or `str(i)` preceded by one space, gives `str(i)`. |
| PyText.RemoveAppend | algorithm/graphics.py:125-128 | `replace(c, "")` distributes over concatenation. |
| PyText.RemoveAbsent | algorithm/graphics.py:125-128 | `replace(c, "")` leaves a string without `c` unchanged. |
| PyText.SplitAbsent | algorithm/graphics.py:129 | Splitting a string that lacks the separator gives the string itself. |
| PyText.SplitAt | algorithm/graphics.py:129 | Splitting `a + sep + b`, where `a` lacks `sep`, gives `a` followed by the pieces of `b`. |
| Graphics.ParseAll | algorithm/graphics.py:123-124 | `int()` over the pieces succeeds exactly when every piece parses, and then gives one int per piece, in order. |
| Graphics.ParseTuple | algorithm/graphics.py:121-130 | `_parse_tuple` succeeds exactly when every comma-separated piece of the cleaned string parses as an int, and then gives one int per piece, in order. |
| Graphics.CleanedParens | algorithm/graphics.py:125-128 | The four `replace` calls turn `"(" + body + ")"` back into `body` when the body holds only digits, signs, commas and spaces. |
| Graphics.CleanedRepr | algorithm/graphics.py:125-128 | On `str(t)` with `|t| >= 2`, the four `replace` calls leave exactly the comma-separated numbers. |
| Graphics.SplitJoined | algorithm/graphics.py:129 | Splitting the joined numbers at `,` gives one piece per number, each after its separating space. |
| Graphics.ParsePieces | algorithm/graphics.py:123-124 | `int()` of every piece gives back the numbers. |
| Graphics.ParseTupleRoundTrip | algorithm/graphics.py:121-130 | `_parse_tuple(str(t)) == t` for every integer tuple of length at least 2. |
| Graphics.ParseTupleSingletonFails | algorithm/graphics.py:121-130 | `_parse_tuple(str((x,)))` fails. The trailing comma leaves an empty piece that `int()` rejects. |
| Graphics.CleanedSingleton | algorithm/graphics.py:125-128 | Cleaning `str((x,))` leaves `str(x)` followed by a comma. |
| Graphics.MinOf | algorithm/graphics.py:44-47 | `min()` of a column is at most every value and is one of them. |
| Graphics.MaxOf | algorithm/graphics.py:44-47 | `max()` of a column is at least every value and is one of them. |
| Graphics.GridShape | algorithm/graphics.py:59-62 | The shape built from the columns' divisions, minimum and maximum is a valid two-axis shape. |
| Graphics.CellColumn | algorithm/graphics.py:64-66 | The `cell` column, when built, has one string per row. |
| Graphics.RowInBounds | algorithm/graphics.py:59-66 | No row triggers the gridiser's `ValueError`, because the bounds are the observed minimum and maximum. Each row gets an x index below `xdivs` and a y index below `ydivs`. |
| Graphics.GridCell | algorithm/graphics.py:64-65 | The cell of each row is a pair of indices within the divisions. |
| Graphics.CellStrings | algorithm/graphics.py:64-66 | The `cell` strings of the first `n` rows are `n` strings. |
| Graphics.CellColumnOk | algorithm/graphics.py:64-66 | Building the `cell` column never fails, and gives `str(gridise(x, y))` row by row. |
| Graphics.CellStringsWellFormed | algorithm/graphics.py:64-66 | Every `cell` string is `str` of an in-bounds pair. |
| Graphics.DataToGrid | algorithm/graphics.py:49-67 | The loop that adds the `cell` column and groups the rows returns exactly the grouped table of the reference definition. |
| Graphics.DistinctCells | algorithm/graphics.py:81-101 | The grouped index lists each cell once, and exactly the cells that occur. |
| Graphics.Count | algorithm/graphics.py:87-92 | A cell's `total_count` is at most the number of rows, and positive exactly when the cell occurs. |
| Graphics.Positives | algorithm/graphics.py:95-100 | A cell's `positive_count` never exceeds its `total_count`. |
| Graphics.XsIn | algorithm/graphics.py:81-86 | The x values averaged for a cell are one per row in that cell. |
| Graphics.YsIn | algorithm/graphics.py:81-86 | The y values averaged for a cell are one per row in that cell. |
| Graphics.ParseCells | algorithm/graphics.py:105 | The parsed `coordinates` column, when it parses, has one entry per cell. |
| Graphics.ParseCellsSpec | algorithm/graphics.py:105 | The `coordinates` column parses exactly when every cell string parses, and then holds each string's tuple. |
| Graphics.GroupDataframe | algorithm/graphics.py:69-106 | When it parses, the grouped table has one row per distinct cell, in the order of `DistinctCells`. Each row's `total_count` is the number of rows in its cell, and its `coordinates` are `_parse_tuple` of its cell string. |
| Graphics.GroupParses | algorithm/graphics.py:69-106 | Grouping always succeeds on the `cell` column. It gives, for each distinct cell, its parsed coordinates and its statistics. |
| Graphics.EachRowInOneCell | algorithm/graphics.py:87-93 | Each row's cell occurs exactly once in the grouped index. |
| Graphics.DistinctOccursOnce | algorithm/graphics.py:87-93 | In a list without repeats, each string occurs once if present and otherwise not at all. |
| Graphics.CountsCoverRows | algorithm/graphics.py:87-93 | The counts of the distinct cells add up to the number of rows. |
| Graphics.TotalCountsAre | algorithm/graphics.py:87-93 | The `total_count` column adds up to the sum of the cell counts. |
| Graphics.TotalCountIsRowCount | algorithm/graphics.py:87-93 | The `total_count` column of the grouped table adds up to the number of rows. |
| Graphics.PositivesAreLabelledRows | algorithm/graphics.py:95-101 | A cell's `positive_count` is the number of rows in it whose label is true. |
| Graphics.HitRateSpec | algorithm/graphics.py:95-104 | For an occurring cell, `total_count > 0` and `positive_count` counts its positive rows. Also `hit_rate = positive_count / total_count`, which lies in `[0, 1]`. |
| Graphics.SumBetween | algorithm/graphics.py:81-86 | The sum of values within `[lo, hi]` lies within `[n·lo, n·hi]`. |
| Graphics.MeanBetween | algorithm/graphics.py:81-86 | A non-empty mean lies between the minimum and the maximum. |
| Graphics.MeanWithin | algorithm/graphics.py:81-86 | A mean of values within `[lo, hi]` lies within `[lo, hi]`. |
| Graphics.CellMeansBetween | algorithm/graphics.py:81-86 | A cell's mean x and mean y each lie between the minimum and maximum of that cell's rows. |
| Graphics.MaxInt | algorithm/graphics.py:115 | `max()` of the index columns is at least every index and is one of them. |
| Graphics.Firsts | algorithm/graphics.py:112 | The x indices are one per grouped row. |
| Graphics.Seconds | algorithm/graphics.py:113 | The y indices are one per grouped row. |
| Graphics.HeatmapMatrix | algorithm/graphics.py:108-119 | The matrix is new and sized `(max x + 1, max y + 1)`. Each entry is the `z` of the last row with those coordinates, and 0 where no row has them. |
| Graphics.HeatEntrySnoc | algorithm/graphics.py:116-118 | One more row overwrites its own entry and leaves every other entry as it was. |
| Graphics.HeatEntryDistinct | algorithm/graphics.py:115-119 | With distinct coordinates, an observed cell holds its own `z` and an unobserved cell holds 0. |
| Graphics.Coordinates | algorithm/graphics.py:41-43 | The `coordinates` column has one entry per grouped row. |
| Graphics.HitRates | algorithm/graphics.py:41-43 | The `hit_rate` column has one entry per grouped row. |
| Graphics.GroupedCoordinates | algorithm/graphics.py:105-115 | The grouped coordinates are non-empty, distinct pairs within the divisions. |
| Graphics.GroupedCoordinate | algorithm/graphics.py:105 | The coordinates of grouped row `k` are the in-bounds pair whose `str` is the `k`-th distinct cell. |
| Graphics.HeatMapPlot.constructor | algorithm/graphics.py:18-47 | The plot keeps the divisions and the grouped table of `_data_to_grid`. Its heat matrix has each cell's hit rate at its coordinates, and its bounds are the column minima and maxima. |
| Graphics.BinnedCoordinates | algorithm/graphics.py:49-67 | The grouped table exists for every dataframe with at least one row, at least one division per axis and distinct minimum and maximum on each axis. Its coordinates are distinct, in-bounds pairs. |
| TradeClasses.Lower | algorithm/trade_classes.py:27 | `lower()` keeps the length. |
| TradeClasses.DirectionOf | algorithm/trade_classes.py:27-32 | A direction is accepted exactly when its lower-case form is `"buy"` or `"sell"`, and it is stored lower-cased. Anything else raises a `ValueError`. The source's message lists the allowed directions; the model's error value carries the input as given, which is a model choice. |
| TradeClasses.DirectionRoundTrip | algorithm/trade_classes.py:8 | Each allowed direction's name is accepted as that direction. |
| TradeClasses.DirectionIgnoresCase | algorithm/trade_classes.py:27-32 | `"BUY"` and `"Sell"` are accepted as buy and sell, and `"hold"` is rejected. |
| TradeClasses.Attributes | algorithm/trade_classes.py:36 | The attributes set are exactly the names passed as keyword arguments. |
| TradeClasses.SetAttributes | algorithm/trade_classes.py:36 | The `setattr` loop fails with `AttributeError` exactly when some keyword is `trade_id`, a property without a setter (trade_classes.py:60-62). Otherwise it gives the attribute map of the keyword arguments. |
| TradeClasses.ClashFrom | algorithm/trade_classes.py:18-25 | Finds the first keyword argument that repeats a parameter name, or none exactly when no keyword does. |
| TradeClasses.AttributesHoldArguments | algorithm/trade_classes.py:36 | Every keyword argument is readable back as an attribute with its value. |
| TradeClasses.AttributeOf | algorithm/trade_classes.py:36 | An argument not overridden later is an attribute with its value. |
| TradeClasses.AttributesSnoc | algorithm/trade_classes.py:36 | A later `setattr` overwrites its name and keeps the others. |
| TradeClasses.Trade.constructor | algorithm/trade_classes.py:32-36 | The fields hold the given id, direction, underlying, dates and attributes. |
| TradeClasses.NewTrade | algorithm/trade_classes.py:18-36 | `Trade(...)` fails with `TypeError` for a keyword that repeats a parameter, else with `ValueError` for an invalid direction, else with `AttributeError` for a `trade_id` keyword. It succeeds exactly when none of these holds, and then it is a new trade with the lower-cased direction, the arguments and the keyword attributes. |
| TradeClasses.VarianceSwap.constructor | algorithm/trade_classes.py:91-98 | The fields hold the given id, direction, underlying, dates, strike and vega notional. |
| TradeClasses.VarianceSwap.CalcFinalRealisedVol | algorithm/trade_classes.py:171-180 | `calc_final_realised_vol` is `calc_annual_realised_vol`, NaN exactly for no levels. |
| TradeClasses.NewVarianceSwap | algorithm/trade_classes.py:77-98 | With neither notional there is a `ValueError`, checked before the direction; an invalid direction raises its own `ValueError`. It succeeds on all other inputs, with the vega notional taken from `vega_amount` or derived from `var_amount`. |
| TradeClasses.Notional | algorithm/trade_classes.py:87-90 | The notional fails, with the missing-notional `ValueError`, exactly when both amounts are missing. A given `vega_amount` wins over `var_amount`; the derived `var_amount * strike * 2` is checked by `VarAmountRoundTrip`. |
| TradeClasses.YearsFromDays | algorithm/trade_classes.py:129-130 | `(days - 1) / 365` is zero exactly when `days` is 1, and positive exactly when `days` is more than 1. |
| TradeClasses.VarianceSwap.VarAmount | algorithm/trade_classes.py:190-192 | `var_amount` times twice the strike is the vega notional. |
| TradeClasses.VarianceSwap.Payoff | algorithm/trade_classes.py:106-114 | `var_amount * (realised_vol² - strike²)`. Its contract is carried by `PayoffAtStrike` and `PayoffSign`: zero at the strike, and positive, zero or negative as the vol is above, at or below the strike. |
| TradeClasses.VarianceSwap.CalcMtm | algorithm/trade_classes.py:116-140 | The mark-to-market with `T` and `t` from `YearsFromDays`. Its contract is carried by `MtmAtValueDate`: on the value date it equals the payoff. |
| TradeClasses.VarianceSwap.EstimateFairStrike | algorithm/trade_classes.py:142-169 | With a linear skew the fair strike exists exactly when `1 + 3·T·slope²` is non-negative; with a log-linear skew, exactly when the log-linear radicand is. A failure is the complex root of `** 0.5` exactly on the linear branch, and `math.sqrt`'s `ValueError` on the other. |
| TradeClasses.VarAmountRoundTrip | algorithm/trade_classes.py:190-192 | With a non-zero strike, a swap built from `var_amount` alone reports that `var_amount` back. |
| TradeClasses.PayoffAtStrike | algorithm/trade_classes.py:106-114 | The payoff at a realised vol equal to the strike is 0. |
| TradeClasses.PayoffSign | algorithm/trade_classes.py:106-114 | With a positive strike and `var_amount` and a non-negative vol, the payoff is positive, zero or negative exactly when the vol is above, at or below the strike. |
| TradeClasses.MtmAtValueDate | algorithm/trade_classes.py:116-140 | When the valuation date is the value date, `t = T`, so the discount is `exp(0) = 1` and the MTM equals the payoff. |
| TradeClasses.LinearFairStrike | algorithm/trade_classes.py:158-159 | The linear-skew fair strike exists exactly when `1 + 3·T·slope²` is non-negative. Its square is then `vol²·(1 + 3·T·slope²)`. |
| TradeClasses.LinearFairStrikeAtLeastVol | algorithm/trade_classes.py:158-159 | For non-negative inputs, the linear-skew fair strike is at least `vol_atmf`, and equals it when the slope is 0. |
| TradeClasses.LogLinearFairStrike | algorithm/trade_classes.py:160-169 | The log-linear fair strike exists exactly when its radicand is non-negative. It is then a non-negative root of it, and it equals `vol_atmf` when the slope is 0. |
| Utils.GetIndexOfFirst | algorithm/utils.py:83-87 | The index returned is the least one whose element satisfies `cond`. None is returned exactly when no element does. |
| Utils.CheckFileDefs | algorithm/utils.py:40-41 | The arguments pass exactly when all are `FileDef`s, and then they are kept in order. |
| Utils.FileEntries | algorithm/utils.py:62-68 | Each CSV row of a file gives one `(date string, column, value)` entry. |
| Utils.LoadCsvData | algorithm/utils.py:20-70 | `load_csv_data` raises `TypeError` exactly when some argument is not a `FileDef`. Otherwise it returns the records of the merged table, one per date string, in the table's order. Each record is a dict holding `"date"` and the columns read. |
| Utils.FirstVisit | algorithm/utils.py:64-67 | The first row of a date string is the one at which `hash_output` creates its record. |
| Utils.MergedKeys | algorithm/utils.py:64-67 | The merged table has one record per distinct date string, and each record's date string is listed once in order. |
| Utils.AbsorbKeys | algorithm/utils.py:63-68 | One row adds its date string to the records, extends the order only when that date is new, and keeps the order free of repeats. |
| Utils.MergedWellOrdered | algorithm/utils.py:56-69 | Every listed date string has a record, and every record is listed. |
| Utils.MergedRecords | algorithm/utils.py:64-68 | A record's keys are `"date"` and exactly the columns seen with its date string. Each seen column holds the last value read for that pair. `"date"` holds the parse of the date string unless a column named `"date"` was seen, which overwrites it. |
| Utils.LaterVisit | algorithm/utils.py:68 | A later row of a date string sets its column on the record and leaves the other keys alone. |
| Utils.FirstVisitRecord | algorithm/utils.py:64-68 | The first row of a date string creates the record with the parsed `"date"`, then sets its column. |
| Utils.Absorb | algorithm/utils.py:63-68 | One row. Its contract is carried by `AbsorbKeys`, `LaterVisit` and `FirstVisitRecord`: the order grows only for a new date string, and the record gains or overwrites exactly the row's column. |
| Utils.Merged | algorithm/utils.py:56-68 | `hash_output` after the rows. Its contract is carried by `MergedKeys`, `MergedRecords` and `MergedOrder`. |
| Utils.Frame | algorithm/utils.py:69 | `hash_output.values()` in insertion order. `LoadCsvData` returns it, and `MergedOrder` orders it by first appearance. |
| Utils.MergedOrder | algorithm/utils.py:64-69 | Records come out in order of the first appearance of their date strings. |
| Algorithm.ValueDateOffsetRounds | algorithm.py:125 | `round(365 * T_swap)` is 30 days, with `T_swap = 21 / 252`. |
| Algorithm.MonthVol | algorithm.py:65 | The monthly vol is NaN exactly when the annualised vol is. |
| Algorithm.MonthVolSquared | algorithm.py:65 | The square of the monthly vol is the annual variance times `T_swap`. |
| Algorithm.LatestDate | algorithm.py:109 | `df["date"].max()` is missing exactly for an empty frame. Otherwise it bounds every date and is one of them. |
| Algorithm.StopFrom | algorithm.py:137-139 | The first row from `i` on at which the loop breaks: none before it breaks, and none at all when it returns nothing. |
| Algorithm.StopIndex | algorithm.py:137-139 | The row at which the loop breaks is the first row whose booked trade expires after the latest date. There is none exactly when no row is such. |
| Algorithm.Reached | algorithm.py:113-139 | A row is visited when the loop has not broken before it. `Backtest` stores a trade exactly on the booked rows it reaches. |
| Algorithm.Settles | algorithm.py:137-141 | A row is visited and the loop does not break at it. `StopExcludesUnresolved` shows that a booked row settles exactly when its trade is resolved. |
| Algorithm.Booked | algorithm.py:115-116 | A row is booked exactly when neither its monthly vol nor its spot is NaN. `Backtest` and `ScanRow` state which slots this fills. |
| Algorithm.FairStrikeIsVol | algorithm.py:117-119 | With zero skew the fair strike is the annualised ATMF vol. |
| Algorithm.FairStrike | algorithm.py:117-119 | `estimate_fair_strike` with `T = T_swap` and no skew. `FairStrikeIsVol` shows it equals the annualised ATMF vol. |
| Algorithm.IsFairTrade | algorithm.py:121-128 | The trade of a row is a buy of EURUSD from the row's date to 30 days later, at the fair strike, with vega 1. `NewFairTrade` builds it. |
| Algorithm.TradeDays | algorithm.py:134 | The row indices selected are exactly those with `trade_date < date <= value_date`, in increasing order. |
| Algorithm.Window | algorithm.py:134-135 | The levels of a trade are the spots of exactly those rows, in row order. |
| Algorithm.Levels | algorithm.py:135 | A window's numbers, when it holds no NaN, are its spots. |
| Algorithm.Settle | algorithm.py:140-141 | The payoff of a trade over its window is NaN exactly when the window is empty, or has two or more levels and a NaN spot among them. A one-level window has no log returns, so it settles at vol 0 whatever its spot. |
| Algorithm.SettleLoneNaN | algorithm.py:135-141 | A window holding only a NaN spot settles at `-var_amount·strike²`: numpy sums no returns, so the vol is `sqrt(0)`. |
| Algorithm.Backtest | algorithm.py:109-141 | Both lists have one slot per row. A row holds a trade exactly when it has both a vol and a spot and the loop reaches it; that trade is its fair trade. It holds a payoff exactly when the loop also goes past it; that payoff is the settlement over its window. Every other slot stays NaN. |
| Algorithm.ScanRow | algorithm.py:114-141 | One loop body: skip a row with a NaN vol or spot, otherwise book its trade. Stop exactly when that trade's value date is after the latest date, and otherwise settle it. |
| Algorithm.NewFairTrade | algorithm.py:121-128 | The trade booked on a row is a buy of EURUSD with vega 1, valued 30 days later, at a strike equal to the row's annualised vol. |
| Algorithm.StopExcludesUnresolved | algorithm.py:138-139 | For date-sorted rows, a booked row settles exactly when its value date is not after the latest date. Stopping at the first unresolved trade therefore excludes every unresolved trade. |
| Algorithm.SettlesAt | algorithm.py:138-139 | For date-sorted rows, one booked row settles exactly when its trade is resolved. |
| Algorithm.ProfitableIffVolAboveStrike | algorithm.py:140-145 | A settled trade is `profitable` exactly when its window has levels and no NaN, and its final realised vol is above its strike. NaN payoffs, and the payoff of a lone NaN spot, are not profitable. |
| Algorithm.Profitable | algorithm.py:145 | `payoff > 0`, false for a NaN payoff. `ProfitableIffVolAboveStrike` states when it holds. |
| Algorithm.VarAmountPositive | algorithm.py:127 | A positive strike and vega give a positive variance notional. |
| Algorithm.VolCarry | algorithm.py:149 | `vol_carry` is defined exactly when both vols are, and then `vol_carry + forecast = 1m_atmf_vol`. |
| Fixtures.SumSquaresExample | tests/test_stat_methods.py:21-24 | `sum_squares_moving_window(1..9, 4)` is `[0, 0, 0, 30, 54, 86, 126, 174, 230]`. |
| Fixtures.SumsValues | tests/test_data/data.py:3-5 | Moving sums of squares with window 4 over `1..9` equal the expected array. |
| Fixtures.MovingPercentileExample | tests/test_stat_methods.py:34-40 | `calc_moving_percentile(dummy_implied_vols, 3)` is `[NaN, NaN, 0, 0, 2/3, 1/3, 0, 0, 2/3, 0]`. |
| Fixtures.PercentileValuesLow | tests/test_data/data.py:18-23 | Entries 0 to 4 of the moving percentile of the dummy implied vols are the expected ones. |
| Fixtures.PercentileValuesHigh | tests/test_data/data.py:18-23 | Entries 5 to 9 of the moving percentile of the dummy implied vols are the expected ones. |

## Left out

- **File I/O.**
  - CSV reading, `strptime` and `datetime` parsing, and the pandas loading branch of `load_csv_data` are left out. The merge works on rows already read, and dates are parsed by a function parameter.
  - `timed` measures wall-clock time and is left out.
- **Libraries, network and presentation.** These are left out:
  - the QSVM/IBMQ experiment, the API token and the random train/test mask in `algorithm.py`;
  - `PandasHeatMapPlot.show` (seaborn and matplotlib);
  - the `print` calls;
  - `__str__`/`__repr__` formatting;
  - `notebook.py`, a copy of `algorithm.py`;
  - the unused root `stat_methods.py`.
- **Floating point.**
  - Arithmetic is exact real arithmetic.
  - `log`, `sqrt` and `exp` are uninterpreted parameters.
  - The decimal fixtures (0.387, 0.272, …, 22.3, 22.8, −357,247) and the EMA fixture depend on rounded transcendental values, so they are not reproduced.
- **Column set-up in `algorithm.py:63-92`.**
  - The division of the vol by 100 and the `sort_values` by date are not modelled; the backtest takes rows that are already sorted, with vols as fractions.
  - The vol-percentile and EMA columns, and `get_index_of_first` on the first year of spots, are modelled only as the operations they call.
  - `dropna` is left out. The loop's own skip of NaN rows is modelled.
- **Degenerate inputs.** Inputs on which the source crashes or divides by zero are preconditions: a window of at least 1, at least one division of each axis, `min < max` on both plot axes, a non-zero strike, positive vols and spots, at least one level for `forecast_ema_vol`, and, for `calc_mtm`, a value date other than the day after the trade date (there `T = 0` and `t / T` divides by zero).
- **NaN inside numeric inputs.** NaN is not modelled inside the statistics functions' inputs; levels there are positive numbers. NaN is modelled in the market rows, in the windows of the backtest and in the outputs. A window of two or more levels with a NaN spot settles at NaN; a window of one level settles at vol 0 whatever its spot, as numpy does.
- Graphics.GroupDataframe: groups cells in order of first appearance, whereas pandas' `pivot_table` sorts the index by cell string. The statistics per cell, and the heat matrix, do not depend on that order.
- TradeClasses.NewTrade: the trade id is a parameter, not a fresh `uuid4`. Keyword arguments are a separate attribute map, so one named like a core field (`_direction`, say) does not overwrite that field. The only `setattr` failure modelled is the read-only `trade_id` property; names such as `__class__`, which Python's object machinery treats specially, are not.
- Graphics.ParseTuple, Graphics.ParseAll (through PyText.ParseInt): `int()` is modelled on ASCII digits with an optional sign and surrounding ASCII whitespace. Python's `int()` also accepts digit-group underscores (`"1_0"` is 10), Unicode digits and Unicode whitespace; the model rejects these. `str(tuple)` of an integer tuple never produces them, so the round trip is unaffected.
- TradeClasses.Lower: lower-cases ASCII letters only. Unicode case mapping is not modelled.
- Utils.LoadCsvData: the result is a sequence of records, each a map from column name to value, not a pandas `DataFrame`. Each missing column stands for a NaN cell of the outer join.
