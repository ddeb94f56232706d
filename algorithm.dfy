/** The backtest of `algorithm.py`: one one-month variance swap is bought on each usable
    day at the fair strike, and settled on the spot levels it covers, until the first trade
    whose value date lies beyond the data; then the derived `profitable` and `vol_carry`
    columns. Dates are day numbers; the market data is given as rows sorted by date. */
module Algorithm {
  import opened Common
  import opened StatMethods
  import opened TradeClasses

  /** `YEAR_WINDOW`: one year in business days. */
  const YearWindow: nat := 252

  /** `swap_window_size`: one month in business days. */
  const SwapWindowSize: nat := 21

  /** `T_swap = swap_window_size / YEAR_WINDOW`, in years. */
  const TSwap: real := 21.0 / 252.0

  /** `round(365 * T_swap)`: the calendar days from trade date to value date. */
  const ValueDateOffset: int := 30

  /** `365 * T_swap` is 30.41..., which rounds to 30. */
  lemma ValueDateOffsetRounds()
    ensures ValueDateOffset as real - 0.5 < 365.0 * TSwap < ValueDateOffset as real + 0.5
    ensures TSwap == SwapWindowSize as real / YearWindow as real
  {
  }

  /** One row of the dataframe the loop scans: the date, the annualised one-month ATMF
      implied vol as a fraction, and the spot. */
  datatype MarketRow = MarketRow(date: int, annualVol: Float, spot: Float)

  /** Every vol and spot present is positive. */
  predicate PositiveData(rows: seq<MarketRow>)
  {
    forall k :: 0 <= k < |rows| ==>
      (rows[k].annualVol.Num? ==> rows[k].annualVol.x > 0.0) && (rows[k].spot.Num? ==> rows[k].spot.x > 0.0)
  }

  /** `df["1m_atmf_vol"] = df["1m_annualised_atmf_vol"] * (swap_window_size / 252) ** 0.5`. */
  function MonthVol(annualVol: Float, sqrt: real -> real): (r: Float)
    ensures r.NaN? <==> annualVol.NaN?
  {
    match annualVol
    case NaN => NaN
    case Num(v) => Num(v * sqrt(TSwap))
  }

  /** The monthly vol is the annualised vol scaled to the swap's term: its square is the
      annual variance times `T_swap`. */
  lemma MonthVolSquared(annualVol: real, sqrt: real -> real)
    requires IsSqrt(sqrt)
    ensures MonthVol(Num(annualVol), sqrt).x * MonthVol(Num(annualVol), sqrt).x == annualVol * annualVol * TSwap
  {
    var root := sqrt(TSwap);
    assert root * root == TSwap;
    ScaledSquare(annualVol, root);
  }

  /** The row is not skipped: neither the monthly vol nor the spot is NaN. */
  predicate Booked(row: MarketRow, sqrt: real -> real)
  {
    !(MonthVol(row.annualVol, sqrt).NaN? || row.spot.NaN?)
  }

  /** `df["date"].max()`, absent for an empty frame. */
  function LatestDate(rows: seq<MarketRow>): (r: Option<int>)
    ensures r.None? <==> |rows| == 0
    ensures r.Some? ==> forall k :: 0 <= k < |rows| ==> rows[k].date <= r.value
    ensures r.Some? ==> exists k :: 0 <= k < |rows| && rows[k].date == r.value
  {
    if |rows| == 0 then None
    else
      var init := LatestDate(rows[..|rows| - 1]);
      var last := rows[|rows| - 1].date;
      if init.Some? && init.value > last then init else Some(last)
  }

  /** `latest_date < trade.value_date`; a comparison with the NaT of an empty frame is
      false. */
  predicate Unresolved(latest: Option<int>, valueDate: int)
  {
    latest.Some? && latest.value < valueDate
  }

  /** The loop breaks at row `k`: the row is booked and its trade expires after the data. */
  predicate StopsAt(rows: seq<MarketRow>, sqrt: real -> real, k: nat)
    requires k < |rows|
  {
    Booked(rows[k], sqrt) && Unresolved(LatestDate(rows), rows[k].date + ValueDateOffset)
  }

  /** The first row from `i` on at which the loop breaks. */
  function StopFrom(rows: seq<MarketRow>, sqrt: real -> real, i: nat): (r: Option<nat>)
    requires i <= |rows|
    ensures r.Some? ==> i <= r.value < |rows| && StopsAt(rows, sqrt, r.value)
    ensures r.Some? ==> forall k :: i <= k < r.value ==> !StopsAt(rows, sqrt, k)
    ensures r.None? ==> forall k :: i <= k < |rows| ==> !StopsAt(rows, sqrt, k)
    decreases |rows| - i
  {
    if i == |rows| then None
    else if StopsAt(rows, sqrt, i) then Some(i)
    else StopFrom(rows, sqrt, i + 1)
  }

  /** The row at which the loop breaks, if any. */
  function StopIndex(rows: seq<MarketRow>, sqrt: real -> real): (r: Option<nat>)
    ensures r.Some? ==> r.value < |rows| && StopsAt(rows, sqrt, r.value)
    ensures r.Some? ==> forall k :: 0 <= k < r.value ==> !StopsAt(rows, sqrt, k)
    ensures r.None? <==> forall k :: 0 <= k < |rows| ==> !StopsAt(rows, sqrt, k)
  {
    StopFrom(rows, sqrt, 0)
  }

  /** Row `i` is visited: the loop has not broken before it. */
  predicate Reached(rows: seq<MarketRow>, sqrt: real -> real, i: nat)
  {
    StopIndex(rows, sqrt).None? || i <= StopIndex(rows, sqrt).value
  }

  /** Row `i` is visited and the loop does not break at it. */
  predicate Settles(rows: seq<MarketRow>, sqrt: real -> real, i: nat)
  {
    StopIndex(rows, sqrt).None? || i < StopIndex(rows, sqrt).value
  }

  /** `VarianceSwap.estimate_fair_strike(vol, T=T_swap, skew_slope=0)` on the linear
      branch, whose radicand is 1. */
  function FairStrike(annualVol: real, sqrt: real -> real): real
  {
    assert LinearRadicand(TSwap, 0.0) == 1.0;
    VarianceSwap.EstimateFairStrike(annualVol, TSwap, 0.0, true, sqrt).value
  }

  /** With no skew the fair strike is the annualised ATMF vol. */
  lemma FairStrikeIsVol(annualVol: real, sqrt: real -> real)
    requires IsSqrt(sqrt) && annualVol >= 0.0
    ensures FairStrike(annualVol, sqrt) == annualVol
  {
    LinearFairStrikeAtLeastVol(annualVol, TSwap, 0.0, sqrt);
  }

  /** The trade booked on a row: a buy of EURUSD variance from the row's date to 30 days
      later, at the fair strike, with a vega notional of 1. */
  predicate IsFairTrade(s: VarianceSwap, row: MarketRow, tradeId: nat, sqrt: real -> real)
    requires row.annualVol.Num?
  {
    s.tradeId == tradeId && s.direction == Buy && s.underlying == "EURUSD" &&
    s.tradeDate == row.date && s.valueDate == row.date + ValueDateOffset &&
    s.strike == FairStrike(row.annualVol.x, sqrt) && s.vegaAmount == 1.0
  }

  /** The indices of the first `n` rows inside `(tradeDate, valueDate]`, in row order. */
  function TradeDays(rows: seq<MarketRow>, tradeDate: int, valueDate: int, n: nat): (ks: seq<nat>)
    requires n <= |rows|
    ensures forall j :: 0 <= j < |ks| ==> ks[j] < n && tradeDate < rows[ks[j]].date <= valueDate
    ensures forall j, j' :: 0 <= j < j' < |ks| ==> ks[j] < ks[j']
    ensures forall k :: 0 <= k < n && tradeDate < rows[k].date <= valueDate ==> k in ks
  {
    if n == 0 then []
    else
      var ks := TradeDays(rows, tradeDate, valueDate, n - 1);
      if tradeDate < rows[n - 1].date <= valueDate then ks + [n - 1] else ks
  }

  /** `df.loc[(df["date"] > trade_date) & (df["date"] <= value_date), "spot"]`. */
  function Window(rows: seq<MarketRow>, tradeDate: int, valueDate: int): (w: seq<Float>)
    ensures var ks := TradeDays(rows, tradeDate, valueDate, |rows|);
      |w| == |ks| && forall j :: 0 <= j < |w| ==> w[j] == rows[ks[j]].spot
  {
    var ks := TradeDays(rows, tradeDate, valueDate, |rows|);
    seq(|ks|, j requires 0 <= j < |ks| => rows[ks[j]].spot)
  }

  predicate PositiveLevels(w: seq<Float>)
  {
    forall j :: 0 <= j < |w| ==> w[j].Num? ==> w[j].x > 0.0
  }

  lemma WindowPositive(rows: seq<MarketRow>, tradeDate: int, valueDate: int)
    requires PositiveData(rows)
    ensures PositiveLevels(Window(rows, tradeDate, valueDate))
  {
    var ks := TradeDays(rows, tradeDate, valueDate, |rows|);
    forall j | 0 <= j < |ks| ensures rows[ks[j]].spot.Num? ==> rows[ks[j]].spot.x > 0.0 {
      assert ks[j] < |rows|;
    }
  }

  /** The numbers of a window without NaN. */
  function Levels(w: seq<Float>): (ls: seq<Level>)
    requires PositiveLevels(w) && forall j :: 0 <= j < |w| ==> w[j].Num?
    ensures |ls| == |w| && forall j :: 0 <= j < |w| ==> ls[j] == w[j].x
  {
    seq(|w|, j requires 0 <= j < |w| && PositiveLevels(w) && w[j].Num? => w[j].x as Level)
  }

  /** `trade.payoff(VarianceSwap.calc_final_realised_vol(levels))`. An empty window gives
      numpy's 0/0, that is NaN. A window of one level has no returns, so its spot never
      enters the vol, NaN or not: the vol is `sqrt(252 * 0 / 1)`. In a longer window every
      level enters a return, so a NaN spot makes the vol, and the payoff, NaN. */
  function Settle(s: VarianceSwap, w: seq<Float>, ln: real -> real, sqrt: real -> real): (r: Float)
    requires s.strike != 0.0 && PositiveLevels(w)
    ensures r.NaN? <==> |w| == 0 || (|w| >= 2 && exists j :: 0 <= j < |w| && w[j].NaN?)
  {
    if |w| == 1 && w[0].NaN? then Num(s.Payoff(VolFromSum(0.0, 1, sqrt).x))
    else if exists j :: 0 <= j < |w| && w[j].NaN? then NaN
    else match VarianceSwap.CalcFinalRealisedVol(Levels(w), ln, sqrt)
      case NaN => NaN
      case Num(rv) => Num(s.Payoff(rv))
  }

  /** The state of slot `k` of `fair_trades` and `payoffs`: a trade exactly when the row is
      booked and visited, the fair trade of the row; a payoff when the trade also settles,
      the settlement over its window; NaN otherwise. */
  predicate Slot(rows: seq<MarketRow>, tradeIds: seq<nat>, ln: real -> real, sqrt: real -> real, k: nat,
                 t: Option<VarianceSwap>, p: Float, reached: bool, settled: bool)
    requires k < |rows| && |tradeIds| == |rows|
  {
    (t.Some? <==> Booked(rows[k], sqrt) && reached) &&
    (t.Some? ==>
      rows[k].annualVol.Num? && IsFairTrade(t.value, rows[k], tradeIds[k], sqrt) &&
      t.value.strike == rows[k].annualVol.x) &&
    if t.Some? && settled then
      PositiveLevels(Window(rows, t.value.tradeDate, t.value.valueDate)) && t.value.strike != 0.0 &&
      p == Settle(t.value, Window(rows, t.value.tradeDate, t.value.valueDate), ln, sqrt)
    else p == NaN
  }

  /** The loop of `algorithm.py`: both slot lists (`fair_trades`, `payoffs`) start as NaN; a skipped row stays so; a
      booked row stores its trade, and its payoff unless the trade expires after the
      latest date, in which case the loop stops. With a square root obeying its law the
      fair strike is the (positive) vol, so the payoff is defined. */
  method Backtest(rows: seq<MarketRow>, tradeIds: seq<nat>, ln: real -> real, sqrt: real -> real)
    returns (fairTrades: seq<Option<VarianceSwap>>, payoffs: seq<Float>)
    requires |tradeIds| == |rows| && PositiveData(rows) && IsSqrt(sqrt)
    ensures |fairTrades| == |rows| && |payoffs| == |rows|
    ensures forall i :: 0 <= i < |rows| ==>
      Slot(rows, tradeIds, ln, sqrt, i, fairTrades[i], payoffs[i], Reached(rows, sqrt, i), Settles(rows, sqrt, i))
  {
    var latestDate := LatestDate(rows);
    fairTrades := seq(|rows|, _ => None);
    payoffs := seq(|rows|, _ => NaN);
    for indx := 0 to |rows|
      invariant |fairTrades| == |rows| && |payoffs| == |rows|
      invariant forall k :: indx <= k < |rows| ==> fairTrades[k].None? && payoffs[k].NaN?
      invariant StopFrom(rows, sqrt, indx) == StopIndex(rows, sqrt)
      invariant forall k :: 0 <= k < indx ==>
        Slot(rows, tradeIds, ln, sqrt, k, fairTrades[k], payoffs[k], true, true)
    {
      var trade, stop, payoff := ScanRow(rows, tradeIds, latestDate, indx, ln, sqrt);
      fairTrades := fairTrades[indx := trade];
      if stop {
        break;
      }
      payoffs := payoffs[indx := payoff];
    }
  }

  /** One pass of the loop body on row `indx`: skip a row with a NaN monthly vol or spot;
      otherwise book its trade, take the spot levels of its window and, unless the trade
      expires after the latest date (`stop`), its payoff. */
  method ScanRow(rows: seq<MarketRow>, tradeIds: seq<nat>, latestDate: Option<int>, indx: nat,
                 ln: real -> real, sqrt: real -> real)
    returns (trade: Option<VarianceSwap>, stop: bool, payoff: Float)
    requires indx < |rows| && |tradeIds| == |rows| && PositiveData(rows) && IsSqrt(sqrt)
    requires latestDate == LatestDate(rows)
    ensures stop == StopsAt(rows, sqrt, indx)
    ensures Slot(rows, tradeIds, ln, sqrt, indx, trade, payoff, true, !stop)
  {
    var row := rows[indx];
    if MonthVol(row.annualVol, sqrt).NaN? || row.spot.NaN? {
      return None, false, NaN;
    }
    var booked := NewFairTrade(row, tradeIds[indx], sqrt);
    var levels := Window(rows, booked.tradeDate, booked.valueDate);
    WindowPositive(rows, booked.tradeDate, booked.valueDate);
    if Unresolved(latestDate, booked.valueDate) {
      SlotFilled(rows, tradeIds, ln, sqrt, indx, booked, NaN, false);
      return Some(booked), true, NaN;
    }
    payoff := Settle(booked, levels, ln, sqrt);
    SlotFilled(rows, tradeIds, ln, sqrt, indx, booked, payoff, true);
    return Some(booked), false, payoff;
  }

  /** The body of the loop up to the booking: `VarianceSwap(direction="buy",
      underlying="EURUSD", trade_date=date, value_date=date + 30 days, strike=fair_strike,
      vega_amount=1)`. */
  method NewFairTrade(row: MarketRow, tradeId: nat, sqrt: real -> real) returns (trade: VarianceSwap)
    requires row.annualVol.Num? && row.annualVol.x > 0.0 && IsSqrt(sqrt)
    ensures IsFairTrade(trade, row, tradeId, sqrt) && trade.strike == row.annualVol.x
  {
    var fairStrike := FairStrike(row.annualVol.x, sqrt);
    FairStrikeIsVol(row.annualVol.x, sqrt);
    DirectionRoundTrip(Buy);
    var made := NewVarianceSwap(tradeId, "buy", "EURUSD", row.date, row.date + ValueDateOffset,
                                fairStrike, Some(1.0), None);
    assert made.Ok?;
    trade := made.value;
  }

  /** A booked row's slot once its trade is stored, and its payoff when it settles. */
  lemma SlotFilled(rows: seq<MarketRow>, tradeIds: seq<nat>, ln: real -> real, sqrt: real -> real, k: nat,
                   trade: VarianceSwap, p: Float, settled: bool)
    requires k < |rows| && |tradeIds| == |rows| && Booked(rows[k], sqrt) && rows[k].annualVol.x > 0.0
    requires IsFairTrade(trade, rows[k], tradeIds[k], sqrt) && trade.strike == rows[k].annualVol.x
    requires PositiveLevels(Window(rows, trade.tradeDate, trade.valueDate))
    requires settled ==> p == Settle(trade, Window(rows, trade.tradeDate, trade.valueDate), ln, sqrt)
    requires !settled ==> p == NaN
    ensures Slot(rows, tradeIds, ln, sqrt, k, Some(trade), p, true, settled)
  {
  }

  // ---------------------------------------------------------------------------------------
  // Properties of the scan

  /** With the rows sorted by date and a fixed term, breaking at the first unresolved trade
      loses nothing: a booked row settles exactly when its trade expires within the data. */
  lemma StopExcludesUnresolved(rows: seq<MarketRow>, sqrt: real -> real)
    requires forall i, j :: 0 <= i < j < |rows| ==> rows[i].date <= rows[j].date
    ensures forall i :: 0 <= i < |rows| && Booked(rows[i], sqrt) ==>
      (Settles(rows, sqrt, i) <==> !Unresolved(LatestDate(rows), rows[i].date + ValueDateOffset))
  {
    forall i | 0 <= i < |rows| && Booked(rows[i], sqrt)
      ensures Settles(rows, sqrt, i) <==> !Unresolved(LatestDate(rows), rows[i].date + ValueDateOffset)
    {
      SettlesAt(rows, sqrt, i);
    }
  }

  lemma SettlesAt(rows: seq<MarketRow>, sqrt: real -> real, i: nat)
    requires forall i, j :: 0 <= i < j < |rows| ==> rows[i].date <= rows[j].date
    requires i < |rows| && Booked(rows[i], sqrt)
    ensures Settles(rows, sqrt, i) <==> !Unresolved(LatestDate(rows), rows[i].date + ValueDateOffset)
  {
    var stop := StopIndex(rows, sqrt);
    var latest := LatestDate(rows);
    if stop.None? {
      assert !StopsAt(rows, sqrt, i);
    } else if i < stop.value {
      assert !StopsAt(rows, sqrt, i);
    } else {
      var s := stop.value;
      assert StopsAt(rows, sqrt, s);
      assert rows[s].date <= rows[i].date by {
        if s < i {
          assert rows[s].date <= rows[i].date;
        }
      }
      assert Unresolved(latest, rows[s].date + ValueDateOffset);
    }
  }

  // ---------------------------------------------------------------------------------------
  // Derived columns

  /** `df["payoff"] > 0`: a NaN payoff compares false. */
  predicate Profitable(payoff: Float)
  {
    payoff.Num? && payoff.x > 0.0
  }

  /** A bought swap with a positive strike and notional is profitable exactly when its
      window is non-empty and free of NaN and the realised vol over it exceeds the strike. */
  lemma ProfitableIffVolAboveStrike(s: VarianceSwap, w: seq<Float>, ln: real -> real, sqrt: real -> real)
    requires IsSqrt(sqrt) && s.strike > 0.0 && s.vegaAmount > 0.0 && PositiveLevels(w)
    ensures Profitable(Settle(s, w, ln, sqrt)) <==>
      |w| > 0 && (forall j :: 0 <= j < |w| ==> w[j].Num?) &&
      VarianceSwap.CalcFinalRealisedVol(Levels(w), ln, sqrt).x > s.strike
  {
    if |w| == 1 && w[0].NaN? {
      SettleLoneNaN(s, w, ln, sqrt);
      VarAmountPositive(s);
    } else if |w| > 0 && forall j :: 0 <= j < |w| ==> w[j].Num? {
      var levels := Levels(w);
      AnnualRealisedVolSquared(levels, ln, sqrt);
      var rv := VarianceSwap.CalcFinalRealisedVol(levels, ln, sqrt).x;
      VarAmountPositive(s);
      PayoffSign(s, rv);
    }
  }

  /** A window holding only a NaN spot settles as if the realised vol were 0: the buyer
      pays the whole strike variance. */
  lemma SettleLoneNaN(s: VarianceSwap, w: seq<Float>, ln: real -> real, sqrt: real -> real)
    requires IsSqrt(sqrt) && s.strike != 0.0 && w == [NaN]
    ensures Settle(s, w, ln, sqrt) == Num(-(s.VarAmount() * (s.strike * s.strike)))
  {
    VolFromSumSquared(0.0, 1, sqrt);
    var v := VolFromSum(0.0, 1, sqrt).x;
    assert Quotient(TradingDays * 0.0, 1 as real) == 0.0;
    ProductZero(v, v);
  }

  lemma VarAmountPositive(s: VarianceSwap)
    requires s.strike > 0.0 && s.vegaAmount > 0.0
    ensures s.VarAmount() > 0.0
  {
    assert s.VarAmount() * (2.0 * s.strike) == s.vegaAmount;
  }

  /** `df["1m_atmf_vol"] - df["1m_realised_ema_vol_forecast"]`: NaN when either is NaN. */
  function VolCarry(monthVol: Float, forecast: Float): (r: Float)
    ensures r.Num? <==> monthVol.Num? && forecast.Num?
    ensures r.Num? ==> r.x + forecast.x == monthVol.x
  {
    if monthVol.NaN? || forecast.NaN? then NaN else Num(monthVol.x - forecast.x)
  }
}
