/** The rolling-window estimators of `algorithm/stat_methods.py`: log returns, annualised
    realised volatility (whole slice and moving window, by loop and by matrix), the
    strict-less percentile rank and its moving version, and the EMA volatility forecast.
    The natural logarithm and the square root are parameters (`ln`, `sqrt`); what is proved
    about a square root holds for every `sqrt` obeying `IsSqrt`. */
module StatMethods {
  import opened Common

  /** Trading days per year, the annualisation factor of every variance estimate. */
  const TradingDays: real := 252.0

  /** A price level: strictly positive, so every ratio of two levels is defined. */
  type Level = x: real | x > 0.0 witness 1.0

  /** Python's `s[1:]`, which is empty (not an error) for an empty vector. */
  function PyTail<T>(s: seq<T>): (r: seq<T>)
    ensures |s| == 0 ==> r == []
    ensures |s| > 0 ==> r == s[1..]
  {
    if |s| == 0 then [] else s[1..]
  }

  // ---------------------------------------------------------------------------------------
  // calc_log_returns, calc_annual_realised_vol

  /** `calc_log_returns(levels, w)`: the levels are divided elementwise by the vector shifted
      right by `w` places and the first `w` quotients (those over the zero padding) are
      dropped, so entry `k` is the log of level `k + w` over level `k`. */
  function LogReturns(levels: seq<Level>, w: nat, ln: real -> real): (r: seq<real>)
    requires w >= 1
    ensures |r| == if w <= |levels| then |levels| - w else 0
  {
    if |levels| <= w then
      []
    else
      seq(|levels| - w, k requires 0 <= k < |levels| - w => ln(Ratio(levels[k + w], levels[k])))
  }

  /** The quotient of two levels. */
  function Ratio(a: Level, b: Level): real
  {
    a / b
  }

  /** `calc_annual_realised_vol`: the square root of 252 times the mean square of the
      one-step log returns, the mean taken over `len(levels)` (not over the number of
      returns). An empty slice gives numpy's 0/0, that is NaN. */
  function AnnualRealisedVol(levels: seq<Level>, ln: real -> real, sqrt: real -> real): (r: Float)
    ensures r.NaN? <==> |levels| == 0
  {
    if |levels| == 0 then NaN
    else VolFromSum(SumSquares(LogReturns(levels, 1, ln)), |levels|, sqrt)
  }

  /** Annualised vol from a sum of squared returns averaged over `count`:
      `sqrt(252 * sumSquares / count)`. */
  function VolFromSum(sumSquares: real, count: nat, sqrt: real -> real): Float
    requires count > 0
  {
    Num(sqrt(Quotient(TradingDays * sumSquares, count as real)))
  }

  /** The realised volatility of a non-empty slice is the non-negative number whose square
      is 252 times the sum of squared one-step returns over the number of levels. */
  lemma AnnualRealisedVolSquared(levels: seq<Level>, ln: real -> real, sqrt: real -> real)
    requires IsSqrt(sqrt) && |levels| > 0
    ensures AnnualRealisedVol(levels, ln, sqrt).Num?
    ensures var v := AnnualRealisedVol(levels, ln, sqrt).x;
      v >= 0.0 && v * v == Quotient(TradingDays * SumSquares(LogReturns(levels, 1, ln)), |levels| as real)
  {
    SumSquaresNonNegative(LogReturns(levels, 1, ln));
    VolFromSumSquared(SumSquares(LogReturns(levels, 1, ln)), |levels|, sqrt);
  }

  /** A vol computed from a non-negative sum of squares is non-negative and squares back to
      the annualised mean square. */
  lemma VolFromSumSquared(sumSquares: real, count: nat, sqrt: real -> real)
    requires IsSqrt(sqrt) && count > 0 && sumSquares >= 0.0
    ensures var v := VolFromSum(sumSquares, count, sqrt).x;
      v >= 0.0 && v * v == Quotient(TradingDays * sumSquares, count as real)
  {
    assert Quotient(TradingDays * sumSquares, count as real) >= 0.0;
  }

  /** Entry `k` of the log returns is the log of the level `w` places later over level `k`. */
  lemma LogReturnsAt(levels: seq<Level>, w: nat, ln: real -> real, k: nat)
    requires w >= 1 && k + w < |levels|
    ensures LogReturns(levels, w, ln)[k] == ln(Ratio(levels[k + w], levels[k]))
  {
  }

  /** The one-step log returns of a contiguous slice are the matching slice of the returns. */
  lemma LogReturnsOfSlice(levels: seq<Level>, a: nat, b: nat, ln: real -> real)
    requires a < b <= |levels|
    ensures LogReturns(levels[a..b], 1, ln) == LogReturns(levels, 1, ln)[a..b - 1]
  {
    var sub := levels[a..b];
    var lhs, rhs := LogReturns(sub, 1, ln), LogReturns(levels, 1, ln)[a..b - 1];
    assert |lhs| == |rhs|;
    forall k | 0 <= k < |lhs| ensures lhs[k] == rhs[k] {
      LogReturnsAt(sub, 1, ln, k);
      LogReturnsAt(levels, 1, ln, a + k);
      assert sub[k + 1] == levels[a + k + 1] && sub[k] == levels[a + k];
    }
  }

  // ---------------------------------------------------------------------------------------
  // sum_squares_moving_window

  /** Entry (r, c) of the transition matrix of `sum_squares_moving_window`: row `w + i - 1`
      holds `arr[i .. i + w]` in the same columns, every other entry is zero. */
  function TransitionEntry(arr: seq<real>, w: nat, r: nat, c: nat): real
    requires c < |arr|
  {
    if w <= r + 1 && r + 1 - w <= c <= r then arr[c] else 0.0
  }

  /** `np.matmul` of a matrix (as its rows) with a vector. */
  function MatVec(rows: seq<seq<real>>, v: seq<real>): (r: seq<real>)
    requires forall i :: 0 <= i < |rows| ==> |rows[i]| == |v|
    ensures |r| == |rows|
    ensures forall i :: 0 <= i < |rows| ==> r[i] == Dot(rows[i], v)
  {
    seq(|rows|, i requires 0 <= i < |rows| => Dot(rows[i], v))
  }

  /** `s` with every entry outside `[lo, hi)` replaced by zero. */
  function Masked(s: seq<real>, lo: nat, hi: nat): (m: seq<real>)
    ensures |m| == |s|
  {
    seq(|s|, c requires 0 <= c < |s| => if lo <= c < hi then s[c] else 0.0)
  }

  /** Multiplying a vector by its own masked copy sums the squares inside the mask. */
  lemma {:induction false} DotMasked(s: seq<real>, lo: nat, hi: nat, k: nat)
    requires lo <= hi <= |s| && k <= |s|
    ensures Dot(Masked(s, lo, hi)[..k], s[..k])
         == SumSquares(s[(if lo < k then lo else k)..(if hi < k then hi else k)])
  {
    var m := Masked(s, lo, hi);
    if k > 0 {
      DotMasked(s, lo, hi, k - 1);
      DotSnoc(m, s, k);
      if lo <= k - 1 < hi {
        SumSquaresSnoc(s, lo, k);
      } else {
        assert m[k - 1] == 0.0;
      }
    }
  }

  /** The dot product of two prefixes grows by the product of their last entries. */
  lemma DotSnoc(a: seq<real>, b: seq<real>, k: nat)
    requires |a| == |b| && 0 < k <= |a|
    ensures Dot(a[..k], b[..k]) == Dot(a[..k - 1], b[..k - 1]) + a[k - 1] * b[k - 1]
  {
    assert a[..k][..k - 1] == a[..k - 1];
    assert b[..k][..k - 1] == b[..k - 1];
  }

  /** The sum of squares of a slice grows by the square of its last entry. */
  lemma SumSquaresSnoc(s: seq<real>, lo: nat, k: nat)
    requires lo < k <= |s|
    ensures SumSquares(s[lo..k]) == SumSquares(s[lo..k - 1]) + s[k - 1] * s[k - 1]
  {
    var win := s[lo..k];
    assert win[..|win| - 1] == s[lo..k - 1];
  }

  /** `sum_squares_moving_window(arr, w)`: a zero n-by-n matrix whose row `w + i - 1` is
      filled with `arr[i .. i + w]` for every `i <= n - w`, multiplied by `arr`. Position
      `w + i - 1` of the result is the sum of squares of the window of `w` values ending
      there; the first `w - 1` positions are zero. */
  method SumSquaresMovingWindow(arr: seq<real>, w: nat) returns (sums: seq<real>)
    requires w >= 1
    ensures |sums| == |arr|
    ensures forall j :: 0 <= j < |arr| && j + 1 < w ==> sums[j] == 0.0
    ensures forall j :: w <= j + 1 <= |arr| ==> sums[j] == SumSquares(arr[j + 1 - w..j + 1])
  {
    var n := |arr|;
    var matrix := new real[n, n]((_, _) => 0.0);
    var i := 0;
    while i <= n - w
      invariant 0 <= i <= if n >= w then n - w + 1 else 0
      invariant forall r, c :: 0 <= r < n && 0 <= c < n ==>
        matrix[r, c] == if r + 2 <= w + i then TransitionEntry(arr, w, r, c) else 0.0
    {
      forall c | i <= c < w + i {
        matrix[w + i - 1, c] := arr[c];
      }
      i := i + 1;
    }
    var rows := seq(n, r requires 0 <= r < n reads matrix =>
                      seq(n, c requires 0 <= c < n reads matrix => matrix[r, c]));
    forall r | 0 <= r < n ensures rows[r] == Masked(arr, WindowStart(w, r), WindowEnd(w, r)) {
    }
    sums := MatVec(rows, arr);
    MatVecOfMasks(arr, w, rows);
  }

  /** Row `r` of the transition matrix keeps the columns `[WindowStart, WindowEnd)`. */
  function WindowStart(w: nat, r: nat): nat
  {
    if w <= r + 1 then r + 1 - w else 0
  }

  function WindowEnd(w: nat, r: nat): nat
  {
    if w <= r + 1 then r + 1 else 0
  }

  /** Multiplying the transition matrix, given by its masked rows, with the vector yields the
      moving sums of squares. */
  lemma MatVecOfMasks(arr: seq<real>, w: nat, rows: seq<seq<real>>)
    requires w >= 1 && |rows| == |arr|
    requires forall r :: 0 <= r < |rows| ==> |rows[r]| == |arr|
    requires forall r :: 0 <= r < |rows| ==> rows[r] == Masked(arr, WindowStart(w, r), WindowEnd(w, r))
    ensures forall j :: 0 <= j < |arr| && j + 1 < w ==> MatVec(rows, arr)[j] == 0.0
    ensures forall j :: w <= j + 1 <= |arr| ==> MatVec(rows, arr)[j] == SumSquares(arr[j + 1 - w..j + 1])
  {
    var n := |arr|;
    forall r | 0 <= r < n
      ensures MatVec(rows, arr)[r] == SumSquares(arr[WindowStart(w, r)..WindowEnd(w, r)])
    {
      DotMasked(arr, WindowStart(w, r), WindowEnd(w, r), n);
      assert rows[r][..n] == rows[r] && arr[..n] == arr;
    }
  }

  // ---------------------------------------------------------------------------------------
  // calc_moving_annual_realised_vol

  /** Reference definition of `calc_moving_annual_realised_vol`: position `j` of the full
      n-vector is `calc_annual_realised_vol` of the `w + 1` trailing levels ending at `j`
      when `j >= w`, NaN before; the first position is then dropped. */
  function MovingRealisedVol(levels: seq<Level>, w: nat, ln: real -> real, sqrt: real -> real): (out: seq<Float>)
    requires w >= 1
    ensures |out| == if |levels| == 0 then 0 else |levels| - 1
  {
    PyTail(TrailingVols(levels, w, ln, sqrt))
  }

  /** The n-vector before its first entry is dropped. */
  function TrailingVols(levels: seq<Level>, w: nat, ln: real -> real, sqrt: real -> real): (v: seq<Float>)
    requires w >= 1
    ensures |v| == |levels|
  {
    seq(|levels|, j requires 0 <= j < |levels| =>
      if j < w then NaN else AnnualRealisedVol(levels[j - w..j + 1], ln, sqrt))
  }

  /** Entry `k` of the reference definition is NaN exactly when `k + 1 < w`; every defined
      entry is the vol of the `w` one-step returns ending at level `k + 1`, averaged over the
      `w + 1` levels of the window (whose square VolFromSumSquared gives). */
  lemma MovingRealisedVolAt(levels: seq<Level>, w: nat, ln: real -> real, sqrt: real -> real, k: nat)
    requires w >= 1 && k + 1 < |levels|
    ensures MovingRealisedVol(levels, w, ln, sqrt)[k].NaN? <==> k + 1 < w
    ensures w <= k + 1 ==>
      MovingRealisedVol(levels, w, ln, sqrt)[k] ==
      VolFromSum(SumSquares(LogReturns(levels, 1, ln)[k + 1 - w..k + 1]), w + 1, sqrt)
  {
    if w <= k + 1 {
      TrailingVol(levels, w, ln, sqrt, k + 1);
    }
  }

  /** The realised vol of the `w + 1` levels ending at `j` in terms of the `w` one-step
      returns ending there. */
  lemma TrailingVol(levels: seq<Level>, w: nat, ln: real -> real, sqrt: real -> real, j: nat)
    requires w >= 1 && w <= j < |levels|
    ensures AnnualRealisedVol(levels[j - w..j + 1], ln, sqrt) ==
      VolFromSum(SumSquares(LogReturns(levels, 1, ln)[j - w..j]), w + 1, sqrt)
  {
    var window, rets := levels[j - w..j + 1], LogReturns(levels, 1, ln)[j - w..j];
    LogReturnsOfSlice(levels, j - w, j + 1, ln);
    assert LogReturns(window, 1, ln) == rets;
    VolOfReturns(window, rets, w + 1, ln, sqrt);
  }

  /** The realised vol of a slice depends on the slice only through its returns and its
      length. */
  lemma VolOfReturns(window: seq<Level>, logReturns: seq<real>, count: nat, ln: real -> real, sqrt: real -> real)
    requires |window| == count > 0 && LogReturns(window, 1, ln) == logReturns
    ensures AnnualRealisedVol(window, ln, sqrt) == VolFromSum(SumSquares(logReturns), count, sqrt)
  {
  }

  /** The loop branch of `calc_moving_annual_realised_vol` (`by_matrix=False`). */
  method MovingVolByLoop(levels: seq<Level>, w: nat, ln: real -> real, sqrt: real -> real)
    returns (out: seq<Float>)
    requires w >= 1
    ensures out == MovingRealisedVol(levels, w, ln, sqrt)
  {
    var n := |levels|;
    var output := new Float[n](_ => NaN);
    ghost var spec := TrailingVols(levels, w, ln, sqrt);
    var i := 0;
    while i < n - w
      invariant 0 <= i && (n >= w ==> i <= n - w) && (n < w ==> i == 0)
      invariant forall j :: 0 <= j < n ==> output[j] == if w <= j < i + w then spec[j] else NaN
    {
      assert levels[i..i + w + 1] == levels[(i + w) - w..(i + w) + 1];
      output[i + w] := AnnualRealisedVol(levels[i..i + w + 1], ln, sqrt);
      i := i + 1;
    }
    assert output[..] == spec;
    out := PyTail(output[..]);
  }

  /** The matrix branch of `calc_moving_annual_realised_vol` (`by_matrix=True`): the moving
      sums of squared returns, scaled by 252 / (w + 1), square-rooted and written from
      position `w` of a NaN vector. */
  method MovingVolByMatrix(levels: seq<Level>, w: nat, ln: real -> real, sqrt: real -> real)
    returns (out: seq<Float>)
    requires w >= 1
    ensures out == MovingRealisedVol(levels, w, ln, sqrt)
  {
    var n := |levels|;
    var logReturns := LogReturns(levels, 1, ln);
    var summed := SumSquaresMovingWindow(logReturns, w);
    var output := MatrixVols(summed, w, n, sqrt);
    MatrixVolsAreTrailingVols(levels, w, ln, sqrt, summed);
    out := PyTail(output);
  }

  /** The n-vector of the matrix branch: NaN in the first `w` positions, then the vol of
      each moving sum of squares, from the sum ending at return `w - 1` on. */
  function MatrixVols(summed: seq<real>, w: nat, n: nat, sqrt: real -> real): (v: seq<Float>)
    requires w >= 1 && |summed| + 1 >= n
    ensures |v| == n
  {
    seq(n, j requires 0 <= j < n => if j < w then NaN else VolFromSum(summed[j - 1], w + 1, sqrt))
  }

  /** Given the moving sums of squared one-step returns, the matrix branch yields the same
      n-vector as realised vol over each trailing window. */
  lemma MatrixVolsAreTrailingVols(levels: seq<Level>, w: nat, ln: real -> real, sqrt: real -> real,
                                  summed: seq<real>)
    requires w >= 1 && |summed| == |LogReturns(levels, 1, ln)|
    requires forall j :: w <= j + 1 <= |summed| ==>
      summed[j] == SumSquares(LogReturns(levels, 1, ln)[j + 1 - w..j + 1])
    ensures MatrixVols(summed, w, |levels|, sqrt) == TrailingVols(levels, w, ln, sqrt)
  {
    var output, spec := MatrixVols(summed, w, |levels|, sqrt), TrailingVols(levels, w, ln, sqrt);
    forall j | 0 <= j < |levels| ensures output[j] == spec[j] {
      if w <= j {
        assert output[j] == VolFromSum(summed[j - 1], w + 1, sqrt);
        assert summed[j - 1] == SumSquares(LogReturns(levels, 1, ln)[j - w..j]);
        assert spec[j] == AnnualRealisedVol(levels[j - w..j + 1], ln, sqrt);
        TrailingVol(levels, w, ln, sqrt, j);
      }
    }
  }

  /** `calc_moving_annual_realised_vol(levels, w, by_matrix)`. Both branches compute the
      same vector, the reference definition. */
  method MovingAnnualRealisedVol(levels: seq<Level>, w: nat, byMatrix: bool,
                                 ln: real -> real, sqrt: real -> real)
    returns (out: seq<Float>)
    requires w >= 1
    ensures out == MovingRealisedVol(levels, w, ln, sqrt)
  {
    if !byMatrix {
      out := MovingVolByLoop(levels, w, ln, sqrt);
    } else {
      out := MovingVolByMatrix(levels, w, ln, sqrt);
    }
  }

  // ---------------------------------------------------------------------------------------
  // calc_percentile, calc_moving_percentile

  /** How many elements are strictly less than `v` (`sum(arr < value)`). */
  function CountLess(arr: seq<real>, v: real): (c: nat)
    ensures c <= |arr|
  {
    if |arr| == 0 then 0
    else CountLess(arr[..|arr| - 1], v) + (if arr[|arr| - 1] < v then 1 else 0)
  }

  /** The indices whose element is strictly less than `v`. */
  function LessIndices(arr: seq<real>, v: real): set<nat>
  {
    set i: nat | i < |arr| && arr[i] < v
  }

  /** The recursive count is the number of indices holding a smaller element. */
  lemma {:induction false} CountLessIsCardinality(arr: seq<real>, v: real)
    ensures CountLess(arr, v) == |LessIndices(arr, v)|
  {
    if |arr| > 0 {
      var init := arr[..|arr| - 1];
      CountLessIsCardinality(init, v);
      var last := |arr| - 1;
      forall i: nat | i < last ensures arr[i] == init[i] { }
      if arr[last] < v {
        assert LessIndices(arr, v) == LessIndices(init, v) + {last};
        assert last !in LessIndices(init, v);
      } else {
        assert LessIndices(arr, v) == LessIndices(init, v);
      }
    }
  }

  /** `calc_percentile(arr, value)`: the fraction of elements strictly less than `value`. */
  function Percentile(arr: seq<real>, v: real): (p: real)
    requires |arr| > 0
    ensures 0.0 <= p <= 1.0
  {
    var c := CountLess(arr, v);
    QuotientBetween(c as real, |arr| as real, 0.0, 1.0);
    Quotient(c as real, |arr| as real)
  }

  /** Ties do not count: the value `v` itself is never strictly less than `v`, so a window
      ending in `v` ranks it at most `(|arr| - 1) / |arr|`. */
  lemma PercentileOfLast(arr: seq<real>)
    requires |arr| > 0
    ensures CountLess(arr, arr[|arr| - 1]) <= |arr| - 1
    ensures Percentile(arr, arr[|arr| - 1]) <= Quotient((|arr| - 1) as real, |arr| as real)
  {
    QuotientMonotone(CountLess(arr, arr[|arr| - 1]) as real, (|arr| - 1) as real, |arr| as real);
  }

  /** Percentile ranks `v` by the exact count of strictly smaller elements. */
  lemma PercentileCounts(arr: seq<real>, v: real)
    requires |arr| > 0
    ensures Percentile(arr, v) * |arr| as real == |LessIndices(arr, v)| as real
  {
    CountLessIsCardinality(arr, v);
  }

  /** Reference definition of `calc_moving_percentile`: NaN before the first full window,
      then the percentile of the current value within the `w` values ending at it. */
  function MovingPercentiles(arr: seq<real>, w: nat): (out: seq<Float>)
    requires w >= 1
    ensures |out| == |arr|
  {
    seq(|arr|, j requires 0 <= j < |arr| =>
      if j + 1 < w then NaN else Num(Percentile(arr[j + 1 - w..j + 1], arr[j])))
  }

  /** Every defined moving percentile lies in `[0, (w - 1) / w]`. */
  lemma MovingPercentilesBounded(arr: seq<real>, w: nat, j: nat)
    requires w >= 1 && w <= j + 1 < |arr| + 1
    ensures MovingPercentiles(arr, w)[j].Num?
    ensures 0.0 <= MovingPercentiles(arr, w)[j].x <= Quotient((w - 1) as real, w as real)
  {
    var win := arr[j + 1 - w..j + 1];
    assert |win| == w && win[|win| - 1] == arr[j];
    PercentileOfLast(win);
  }

  /** `calc_moving_percentile(arr, w)`: a NaN vector whose position `i + w - 1` receives the
      percentile of `arr[i + w - 1]` within `arr[i .. i + w]`, for every `i <= n - w`. */
  method MovingPercentile(arr: seq<real>, w: nat) returns (out: seq<Float>)
    requires w >= 1
    ensures out == MovingPercentiles(arr, w)
  {
    var n := |arr|;
    var output := new Float[n](_ => NaN);
    ghost var spec := MovingPercentiles(arr, w);
    var i := 0;
    while i <= n - w
      invariant 0 <= i && (n >= w ==> i <= n - w + 1) && (n < w ==> i == 0)
      invariant forall j :: 0 <= j < n ==> output[j] == if w <= j + 1 < w + i then spec[j] else NaN
    {
      var window := arr[i..i + w];
      var value := arr[i + w - 1];
      assert window == arr[(i + w - 1) + 1 - w..(i + w - 1) + 1];
      output[i + w - 1] := Num(Percentile(window, value));
      i := i + 1;
    }
    assert output[..] == spec;
    out := output[..];
  }

  // ---------------------------------------------------------------------------------------
  // forecast_ema_vol

  /** The EMA recurrence: the seed `vol0` at step 0, then step `i` is `EmaStep` of step
      `i - 1` and return `i - 1`. */
  function EmaAt(vol0: real, rs: seq<real>, lambda: real, sqrt: real -> real, i: nat): Float
    requires i <= |rs|
  {
    if i == 0 then Num(vol0) else EmaStep(EmaAt(vol0, rs, lambda, sqrt, i - 1), rs[i - 1], lambda, sqrt)
  }

  /** `lambda * prev ** 2 + (1 - lambda) * r ** 2`. */
  function EmaRadicand(prev: real, r: real, lambda: real): real
  {
    lambda * (prev * prev) + (1.0 - lambda) * (r * r)
  }

  /** One step of the recurrence, `(lambda * prev ** 2 + (1 - lambda) * r ** 2) ** 0.5`.
      `_lambda` is not checked, and outside [0, 1] the radicand can be negative; numpy's
      float power then gives NaN. A NaN previous step stays NaN, since `nan ** 2` is NaN. */
  function EmaStep(prev: Float, r: real, lambda: real, sqrt: real -> real): (v: Float)
    ensures v.NaN? <==> prev.NaN? || EmaRadicand(prev.x, r, lambda) < 0.0
    ensures IsSqrt(sqrt) && v.Num? ==> v.x >= 0.0 && v.x * v.x == EmaRadicand(prev.x, r, lambda)
  {
    if prev.NaN? || EmaRadicand(prev.x, r, lambda) < 0.0 then NaN
    else Num(sqrt(EmaRadicand(prev.x, r, lambda)))
  }

  /** `forecast_ema_vol(levels, vol_0, w, lambda)`: a zero vector of `len(levels)` entries
      whose position 0 is `vol_0` and whose position `i + 1` is the EMA step over the i-th
      `w`-step log return. Only the first `n - w + 1` positions are written; the rest keep 0. */
  method ForecastEmaVol(levels: seq<Level>, vol0: real, w: nat, lambda: real,
                        ln: real -> real, sqrt: real -> real)
    returns (vols: seq<Float>)
    requires w >= 1 && |levels| >= 1
    ensures |vols| == |levels|
    ensures forall i :: 0 <= i < |levels| ==>
      vols[i] == if i <= |LogReturns(levels, w, ln)| then EmaAt(vol0, LogReturns(levels, w, ln), lambda, sqrt, i) else Num(0.0)
  {
    var logReturns := LogReturns(levels, w, ln);
    var emaVols := new Float[|levels|](_ => Num(0.0));
    emaVols[0] := Num(vol0);
    for i := 0 to |logReturns|
      invariant forall k :: 0 <= k < |levels| ==>
        emaVols[k] == if k <= i then EmaAt(vol0, logReturns, lambda, sqrt, k) else Num(0.0)
    {
      emaVols[i + 1] := EmaStep(emaVols[i], logReturns[i], lambda, sqrt);
    }
    vols := emaVols[..];
  }

  lemma SquareNonNegative(a: real)
    ensures a * a >= 0.0
  {
  }

  lemma ProductNonNegative(a: real, b: real)
    requires a >= 0.0 && b >= 0.0
    ensures a * b >= 0.0
  {
  }

  /** With a weight in [0, 1] the radicand is a convex combination of squares, so it is
      never negative. */
  lemma RadicandNonNegative(prev: real, r: real, lambda: real)
    requires 0.0 <= lambda <= 1.0
    ensures EmaRadicand(prev, r, lambda) >= 0.0
  {
    SquareNonNegative(prev);
    SquareNonNegative(r);
    ProductNonNegative(lambda, prev * prev);
    ProductNonNegative(1.0 - lambda, r * r);
  }

  /** With a weight in [0, 1] no step is NaN. */
  lemma {:induction false} EmaDefined(vol0: real, rs: seq<real>, lambda: real, sqrt: real -> real, i: nat)
    requires 0.0 <= lambda <= 1.0 && i <= |rs|
    ensures EmaAt(vol0, rs, lambda, sqrt, i).Num?
  {
    if i > 0 {
      EmaDefined(vol0, rs, lambda, sqrt, i - 1);
      RadicandNonNegative(EmaAt(vol0, rs, lambda, sqrt, i - 1).x, rs[i - 1], lambda);
    }
  }

  /** With a weight in [0, 1] each EMA step is a non-negative number and its square is the
      convex combination of the previous square and the squared return. */
  lemma EmaSquaredStep(vol0: real, rs: seq<real>, lambda: real, sqrt: real -> real, i: nat)
    requires IsSqrt(sqrt) && 0.0 <= lambda <= 1.0 && 0 < i <= |rs|
    ensures EmaAt(vol0, rs, lambda, sqrt, i).Num? && EmaAt(vol0, rs, lambda, sqrt, i - 1).Num?
    ensures EmaAt(vol0, rs, lambda, sqrt, i).x >= 0.0
    ensures var prev := EmaAt(vol0, rs, lambda, sqrt, i - 1).x;
      EmaAt(vol0, rs, lambda, sqrt, i).x * EmaAt(vol0, rs, lambda, sqrt, i).x
        == lambda * (prev * prev) + (1.0 - lambda) * (rs[i - 1] * rs[i - 1])
  {
    EmaDefined(vol0, rs, lambda, sqrt, i);
    EmaDefined(vol0, rs, lambda, sqrt, i - 1);
  }

  /** Once a step is NaN, every later step is NaN. */
  lemma {:induction false} EmaNaNPersists(vol0: real, rs: seq<real>, lambda: real, sqrt: real -> real, i: nat, j: nat)
    requires i <= j <= |rs| && EmaAt(vol0, rs, lambda, sqrt, i).NaN?
    ensures EmaAt(vol0, rs, lambda, sqrt, j).NaN?
    decreases j - i
  {
    if i < j {
      EmaNaNPersists(vol0, rs, lambda, sqrt, i + 1, j);
    }
  }

  /** A weight outside [0, 1] can make the radicand negative: `lambda = 2`, `vol_0 = 0.1` and a
      return of 1 give `0.02 - 1`, so the first step is NaN. */
  lemma EmaNegativeWeight(sqrt: real -> real)
    ensures EmaAt(0.1, [1.0], 2.0, sqrt, 1).NaN?
  {
    assert EmaRadicand(0.1, 1.0, 2.0) == -0.98;
  }

  /** A convex combination of two values below a bound stays below it. */
  lemma ConvexBelow(lambda: real, a: real, b: real, bound: real)
    requires 0.0 <= lambda <= 1.0 && a <= bound && b <= bound
    ensures lambda * a + (1.0 - lambda) * b <= bound
  {
    ProductNonNegative(lambda, bound - a);
    ProductNonNegative(1.0 - lambda, bound - b);
  }

  /** The forecast never leaves the band set by the seed and the returns: if the seed's
      square and every squared return are at most `bound`, so is every squared forecast. */
  lemma {:induction false} EmaBounded(vol0: real, rs: seq<real>, lambda: real, sqrt: real -> real,
                                       bound: real, i: nat)
    requires IsSqrt(sqrt) && 0.0 <= lambda <= 1.0 && i <= |rs|
    requires vol0 * vol0 <= bound
    requires forall k :: 0 <= k < |rs| ==> rs[k] * rs[k] <= bound
    ensures EmaAt(vol0, rs, lambda, sqrt, i).Num?
    ensures EmaAt(vol0, rs, lambda, sqrt, i).x * EmaAt(vol0, rs, lambda, sqrt, i).x <= bound
  {
    if i > 0 {
      EmaBounded(vol0, rs, lambda, sqrt, bound, i - 1);
      EmaSquaredStep(vol0, rs, lambda, sqrt, i);
      var prev := EmaAt(vol0, rs, lambda, sqrt, i - 1).x;
      ConvexBelow(lambda, prev * prev, rs[i - 1] * rs[i - 1], bound);
    }
  }
}
