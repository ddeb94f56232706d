/** The trade value objects of `algorithm/trade_classes.py`: a generic `Trade` and the
    `VarianceSwap` the backtest books. Both are built once by their constructors and only
    read afterwards, so their fields are constants. Dates are day numbers; the random trade
    id is supplied by the caller. */
module TradeClasses {
  import opened Common
  import opened StatMethods

  // ---------------------------------------------------------------------------------------
  // Direction

  /** `ALLOWED_DIRECTIONS`. */
  datatype Direction = Buy | Sell

  /** The string a direction is stored as. */
  function Name(d: Direction): string
  {
    match d
    case Buy => "buy"
    case Sell => "sell"
  }

  /** The exceptions the constructors raise. */
  datatype TradeError =
    | InvalidDirection(given: string)  // the direction as given; its lower-cased form is not allowed
    | MissingNotional                  // neither the vega nor the variance amount was given
    | ArgumentClash(name: string)       // TypeError: a keyword argument repeats a parameter
    | ReadOnlyAttribute(name: string)   // AttributeError: `setattr` of a property without a setter

  /** `str.lower()` on one character (its ASCII part). */
  function LowerChar(c: char): char
  {
    if 'A' <= c <= 'Z' then (c as int - 'A' as int + 'a' as int) as char else c
  }

  function Lower(s: string): (r: string)
    ensures |r| == |s|
  {
    seq(|s|, i requires 0 <= i < |s| => LowerChar(s[i]))
  }

  /** The validation of `Trade.__init__`: lower-case the direction, then reject anything
      outside the allowed directions. A direction is accepted exactly when its lower-cased
      form is allowed, and it is then stored in that form. */
  function DirectionOf(s: string): (r: Result<Direction, TradeError>)
    ensures r.Ok? <==> Lower(s) == "buy" || Lower(s) == "sell"
    ensures r.Ok? ==> Name(r.value) == Lower(s)
    ensures r.Err? ==> r == Err(InvalidDirection(s))
  {
    var l := Lower(s);
    if l == "buy" then Ok(Buy) else if l == "sell" then Ok(Sell) else Err(InvalidDirection(s))
  }

  /** Lower-casing is idempotent, so a stored direction is accepted again unchanged. */
  lemma DirectionRoundTrip(d: Direction)
    ensures DirectionOf(Name(d)) == Ok(d)
  {
    assert Lower("buy") == "buy";
    assert Lower("sell") == "sell";
  }

  /** Upper or mixed case is accepted: "BUY" and "Sell" are valid. */
  lemma DirectionIgnoresCase()
    ensures DirectionOf("BUY") == Ok(Buy) && DirectionOf("Sell") == Ok(Sell)
    ensures DirectionOf("hold").Err?
  {
    assert Lower("BUY") == "buy";
    assert Lower("Sell") == "sell";
    assert Lower("hold") == "hold";
  }

  // ---------------------------------------------------------------------------------------
  // Trade

  /** A keyword-argument value; the class accepts any, the model strings and numbers. */
  datatype AttrValue = Text(s: string) | Number(x: real)

  /** The attributes `setattr` leaves after the keyword arguments in order: a later name
      overrides an earlier one. */
  function Attributes(kwargs: seq<(string, AttrValue)>): (m: map<string, AttrValue>)
    ensures m.Keys == set i | 0 <= i < |kwargs| :: kwargs[i].0
  {
    if |kwargs| == 0 then map[]
    else
      var init := kwargs[..|kwargs| - 1];
      var m := Attributes(init);
      assert forall i :: 0 <= i < |kwargs| - 1 ==> init[i] == kwargs[i];
      m[kwargs[|kwargs| - 1].0 := kwargs[|kwargs| - 1].1]
  }

  /** The one read-only property of `Trade` a keyword argument can reach: the other
      properties are parameters, which the call binds first. */
  const TradeIdProperty: string := "trade_id"

  /** The setattr loop over `kwargs.items()`: the first argument named `trade_id` raises
      AttributeError; otherwise every argument is set in order. */
  method SetAttributes(kwargs: seq<(string, AttrValue)>) returns (r: Result<map<string, AttrValue>, TradeError>)
    ensures r.Err? <==> exists i :: 0 <= i < |kwargs| && kwargs[i].0 == TradeIdProperty
    ensures r.Err? ==> r.error == ReadOnlyAttribute(TradeIdProperty)
    ensures r.Ok? ==> r.value == Attributes(kwargs)
  {
    var attrs := map[];
    for i := 0 to |kwargs|
      invariant attrs == Attributes(kwargs[..i])
      invariant forall j :: 0 <= j < i ==> kwargs[j].0 != TradeIdProperty
    {
      var (k, v) := kwargs[i];
      if k == TradeIdProperty {
        return Err(ReadOnlyAttribute(k));
      }
      attrs := attrs[k := v];
      assert kwargs[..i + 1][..i] == kwargs[..i];
    }
    assert kwargs[..|kwargs|] == kwargs;
    return Ok(attrs);
  }

  /** The parameters of `Trade.__init__`. */
  predicate IsParameter(name: string)
  {
    name == "self" || name == "direction" || name == "underlying" || name == "trade_date" || name == "value_date"
  }

  /** The first keyword argument from `i` on that repeats a parameter, which the call
      rejects with TypeError before the body runs. */
  function ClashFrom(kwargs: seq<(string, AttrValue)>, i: nat): (r: Option<nat>)
    requires i <= |kwargs|
    ensures r.Some? ==> i <= r.value < |kwargs| && IsParameter(kwargs[r.value].0)
    ensures r.Some? ==> forall j :: i <= j < r.value ==> !IsParameter(kwargs[j].0)
    ensures r.None? <==> forall j :: i <= j < |kwargs| ==> !IsParameter(kwargs[j].0)
    decreases |kwargs| - i
  {
    if i == |kwargs| then None
    else if IsParameter(kwargs[i].0) then Some(i)
    else ClashFrom(kwargs, i + 1)
  }

  /** Keyword arguments have distinct names, so every argument becomes an attribute with
      its own value. */
  lemma AttributesHoldArguments(kwargs: seq<(string, AttrValue)>)
    requires forall i, j :: 0 <= i < j < |kwargs| ==> kwargs[i].0 != kwargs[j].0
    ensures forall i :: 0 <= i < |kwargs| ==> Attributes(kwargs)[kwargs[i].0] == kwargs[i].1
  {
    forall i | 0 <= i < |kwargs| ensures Attributes(kwargs)[kwargs[i].0] == kwargs[i].1 {
      AttributeOf(kwargs, i);
    }
  }

  /** The attribute of argument `i`, when no later argument has its name. */
  lemma {:induction false} AttributeOf(kwargs: seq<(string, AttrValue)>, i: nat)
    requires i < |kwargs| && forall j :: i < j < |kwargs| ==> kwargs[j].0 != kwargs[i].0
    ensures kwargs[i].0 in Attributes(kwargs) && Attributes(kwargs)[kwargs[i].0] == kwargs[i].1
  {
    var n := |kwargs| - 1;
    var init := kwargs[..n];
    AttributesSnoc(kwargs);
    if i < n {
      assert forall j :: i < j < n ==> init[j] == kwargs[j];
      assert init[i] == kwargs[i];
      AttributeOf(init, i);
    }
  }

  lemma AttributesSnoc(kwargs: seq<(string, AttrValue)>)
    requires |kwargs| > 0
    ensures Attributes(kwargs) == Attributes(kwargs[..|kwargs| - 1])[kwargs[|kwargs| - 1].0 := kwargs[|kwargs| - 1].1]
  {
  }

  /** `Trade`: id, direction, underlying, trade and value dates, and the extra attributes. */
  class Trade {
    const tradeId: nat
    const direction: Direction
    const underlying: string
    const tradeDate: int
    const valueDate: int
    const attributes: map<string, AttrValue>

    constructor (tradeId: nat, direction: Direction, underlying: string, tradeDate: int, valueDate: int,
                 attributes: map<string, AttrValue>)
      ensures this.tradeId == tradeId && this.direction == direction && this.underlying == underlying
      ensures this.tradeDate == tradeDate && this.valueDate == valueDate && this.attributes == attributes
    {
      this.tradeId := tradeId;
      this.direction := direction;
      this.underlying := underlying;
      this.tradeDate := tradeDate;
      this.valueDate := valueDate;
      this.attributes := attributes;
    }
  }

  /** `Trade(direction, underlying, trade_date, value_date, **kwargs)`: TypeError for a
      keyword argument that repeats a parameter; then ValueError unless the direction is
      allowed; then AttributeError for a keyword argument named `trade_id`; otherwise a new
      trade with the lower-cased direction and the keyword arguments as attributes. */
  method NewTrade(tradeId: nat, direction: string, underlying: string, tradeDate: int, valueDate: int,
                  kwargs: seq<(string, AttrValue)>) returns (r: Result<Trade, TradeError>)
    ensures ClashFrom(kwargs, 0).Some? ==> r == Err(ArgumentClash(kwargs[ClashFrom(kwargs, 0).value].0))
    ensures ClashFrom(kwargs, 0).None? && DirectionOf(direction).Err? ==> r == Err(InvalidDirection(direction))
    ensures (ClashFrom(kwargs, 0).None? && DirectionOf(direction).Ok? &&
             exists i :: 0 <= i < |kwargs| && kwargs[i].0 == TradeIdProperty) ==>
      r == Err(ReadOnlyAttribute(TradeIdProperty))
    ensures r.Ok? <==>
      (forall i :: 0 <= i < |kwargs| ==> !IsParameter(kwargs[i].0) && kwargs[i].0 != TradeIdProperty) &&
      DirectionOf(direction).Ok?
    ensures r.Ok? ==>
      fresh(r.value) && r.value.tradeId == tradeId &&
      r.value.direction == DirectionOf(direction).value && r.value.underlying == underlying &&
      r.value.tradeDate == tradeDate && r.value.valueDate == valueDate &&
      r.value.attributes == Attributes(kwargs)
  {
    var clash := ClashFrom(kwargs, 0);
    if clash.Some? {
      return Err(ArgumentClash(kwargs[clash.value].0));
    }
    var d := DirectionOf(direction);
    if d.Err? {
      return Err(d.error);
    }
    var attrs := SetAttributes(kwargs);
    if attrs.Err? {
      return Err(attrs.error);
    }
    var t := new Trade(tradeId, d.value, underlying, tradeDate, valueDate, attrs.value);
    return Ok(t);
  }

  // ---------------------------------------------------------------------------------------
  // VarianceSwap

  /** The vega notional `VarianceSwap.__init__` stores: the given vega amount, else
      `var_amount * strike * 2`, else ValueError. */
  function Notional(strike: real, vegaAmount: Option<real>, varAmount: Option<real>): (r: Result<real, TradeError>)
    ensures r.Err? <==> vegaAmount.None? && varAmount.None?
    ensures r.Err? ==> r.error == MissingNotional
    ensures vegaAmount.Some? ==> r == Ok(vegaAmount.value)
  {
    if vegaAmount.None? && varAmount.None? then Err(MissingNotional)
    else if vegaAmount.None? then Ok(varAmount.value * strike * 2.0)
    else Ok(vegaAmount.value)
  }

  /** `T` and `t` of `calc_mtm`: `(days - 1) / 365`. It is zero exactly one day after the
      trade date and grows with the days. */
  function YearsFromDays(days: int): (r: real)
    ensures r == 0.0 <==> days == 1
    ensures r > 0.0 <==> days > 1
  {
    Quotient((days - 1) as real, 365.0)
  }

  /** The result of a square root the fair strike cannot take in the reals. */
  datatype FairStrikeError =
    | ComplexRoot   // `** 0.5` of a negative float yields a complex number
    | DomainError   // `math.sqrt` of a negative float raises ValueError

  /** `VarianceSwap`: the trade fields plus the strike and the vega notional. */
  class VarianceSwap {
    const tradeId: nat
    const direction: Direction
    const underlying: string
    const tradeDate: int
    const valueDate: int
    const strike: real
    const vegaAmount: real

    constructor (tradeId: nat, direction: Direction, underlying: string, tradeDate: int, valueDate: int,
                 strike: real, vegaAmount: real)
      ensures this.tradeId == tradeId && this.direction == direction && this.underlying == underlying
      ensures this.tradeDate == tradeDate && this.valueDate == valueDate
      ensures this.strike == strike && this.vegaAmount == vegaAmount
    {
      this.tradeId := tradeId;
      this.direction := direction;
      this.underlying := underlying;
      this.tradeDate := tradeDate;
      this.valueDate := valueDate;
      this.strike := strike;
      this.vegaAmount := vegaAmount;
    }

    /** The `var_amount` property, `vega_amount / (2 * strike)`: the variance notional that
        twice the strike scales back to the vega notional. */
    function VarAmount(): (r: real)
      requires strike != 0.0
      ensures r * (2.0 * strike) == vegaAmount
    {
      Quotient(vegaAmount, 2.0 * strike)
    }

    /** `payoff(realised_vol)`: `var_amount * (realised_vol ** 2 - strike ** 2)`. */
    function Payoff(realisedVol: real): real
      requires strike != 0.0
    {
      VarAmount() * (realisedVol * realisedVol - strike * strike)
    }

    /** `calc_mtm(realised_vol, fair_strike, r, valuation_date)`: the accrued realised
        variance and the fair variance for the remaining term, weighted by elapsed time,
        less the strike variance, discounted and scaled by the variance notional. */
    function CalcMtm(realisedVol: real, fairStrike: real, r: real, valuationDate: int, exp: real -> real): real
      requires strike != 0.0 && valueDate - tradeDate != 1
    {
      var bigT := YearsFromDays(valueDate - tradeDate);
      var t := YearsFromDays(valuationDate - tradeDate);
      VarAmount() * exp(-r * (bigT - t)) *
        (Quotient(t, bigT) * (realisedVol * realisedVol) + Quotient(bigT - t, bigT) * (fairStrike * fairStrike)
         - strike * strike)
    }

    /** `estimate_fair_strike(vol_atmf, T, skew_slope, linear_skew)`: with a linear skew,
        `vol_atmf * (1 + 3 T slope^2) ** 0.5`; with a log-linear skew, the square root of
        `vol^2 + slope vol^3 T + (slope / 2)^2 (12 vol^2 T + 5 vol^4 T^2)`. */
    static function EstimateFairStrike(volAtmf: real, bigT: real, skewSlope: real, linearSkew: bool,
                                       sqrt: real -> real): (r: Result<real, FairStrikeError>)
      ensures linearSkew ==> (r.Ok? <==> LinearRadicand(bigT, skewSlope) >= 0.0)
      ensures !linearSkew ==> (r.Ok? <==> LogLinearRadicand(volAtmf, bigT, skewSlope) >= 0.0)
      ensures r.Err? ==> (r.error == ComplexRoot <==> linearSkew)
    {
      if linearSkew then
        var radicand := LinearRadicand(bigT, skewSlope);
        if radicand < 0.0 then Err(ComplexRoot) else Ok(volAtmf * sqrt(radicand))
      else
        var radicand := LogLinearRadicand(volAtmf, bigT, skewSlope);
        if radicand < 0.0 then Err(DomainError) else Ok(sqrt(radicand))
    }

    /** `calc_final_realised_vol(levels)`: the annualised realised volatility of the
        levels, NaN exactly when there are none. */
    static function CalcFinalRealisedVol(levels: seq<Level>, ln: real -> real, sqrt: real -> real): (r: Float)
      ensures r.NaN? <==> |levels| == 0
    {
      AnnualRealisedVol(levels, ln, sqrt)
    }
  }

  function LinearRadicand(bigT: real, skewSlope: real): real
  {
    1.0 + 3.0 * bigT * (skewSlope * skewSlope)
  }

  function LogLinearRadicand(vol: real, bigT: real, beta: real): real
  {
    var half := beta / 2.0;
    vol * vol + beta * (vol * vol * vol) * bigT +
      half * half * (12.0 * (vol * vol) * bigT + 5.0 * (vol * vol * vol * vol) * (bigT * bigT))
  }

  /** `VarianceSwap(direction, underlying, trade_date, value_date, strike, vega_amount,
      var_amount)`: the notional check comes first, then the direction check of `Trade`. */
  method NewVarianceSwap(tradeId: nat, direction: string, underlying: string, tradeDate: int, valueDate: int,
                         strike: real, vegaAmount: Option<real>, varAmount: Option<real>)
    returns (r: Result<VarianceSwap, TradeError>)
    ensures vegaAmount.None? && varAmount.None? ==> r == Err(MissingNotional)
    ensures (vegaAmount.Some? || varAmount.Some?) && DirectionOf(direction).Err? ==>
      r == Err(InvalidDirection(direction))
    ensures r.Ok? <==> (vegaAmount.Some? || varAmount.Some?) && DirectionOf(direction).Ok?
    ensures r.Ok? ==>
      fresh(r.value) && r.value.tradeId == tradeId &&
      r.value.direction == DirectionOf(direction).value && r.value.underlying == underlying &&
      r.value.tradeDate == tradeDate && r.value.valueDate == valueDate && r.value.strike == strike &&
      r.value.vegaAmount == Notional(strike, vegaAmount, varAmount).value
  {
    var notional := Notional(strike, vegaAmount, varAmount);
    if notional.Err? {
      return Err(notional.error);
    }
    var d := DirectionOf(direction);
    if d.Err? {
      return Err(d.error);
    }
    var s := new VarianceSwap(tradeId, d.value, underlying, tradeDate, valueDate, strike, notional.value);
    return Ok(s);
  }

  // ---------------------------------------------------------------------------------------
  // Properties of the variance swap

  /** Notional round trip: a swap built from a variance amount alone reports that variance
      amount back, for any non-zero strike. */
  lemma VarAmountRoundTrip(s: VarianceSwap, varAmount: real)
    requires s.strike != 0.0
    requires s.vegaAmount == Notional(s.strike, None, Some(varAmount)).value
    ensures s.VarAmount() == varAmount
  {
    assert s.vegaAmount == varAmount * (2.0 * s.strike);
    QuotientScale(varAmount, 2.0 * s.strike);
  }

  lemma QuotientScale(a: real, d: real)
    requires d != 0.0
    ensures Quotient(a * d, d) == a
  {
  }

  /** The payoff is zero when the realised volatility equals the strike. */
  lemma PayoffAtStrike(s: VarianceSwap)
    requires s.strike != 0.0
    ensures s.Payoff(s.strike) == 0.0
  {
  }

  /** For a positive variance notional and non-negative volatilities, the payoff is positive
      exactly when the realised volatility exceeds the strike, zero exactly when they are
      equal, and negative exactly when it falls short. */
  lemma PayoffSign(s: VarianceSwap, realisedVol: real)
    requires s.strike > 0.0 && s.VarAmount() > 0.0 && realisedVol >= 0.0
    ensures s.Payoff(realisedVol) > 0.0 <==> realisedVol > s.strike
    ensures s.Payoff(realisedVol) == 0.0 <==> realisedVol == s.strike
    ensures s.Payoff(realisedVol) < 0.0 <==> realisedVol < s.strike
  {
    SquareOrder(realisedVol, s.strike);
    SignOfProduct(s.VarAmount(), realisedVol * realisedVol - s.strike * s.strike);
  }

  /** For non-negative reals, squares are ordered as the reals are. */
  lemma SquareOrder(a: real, b: real)
    requires a >= 0.0 && b >= 0.0
    ensures a * a > b * b <==> a > b
    ensures a * a == b * b <==> a == b
  {
    assert a * a - b * b == (a - b) * (a + b);
    if a > b {
      SignOfProduct(a + b, a - b);
    } else if a < b {
      SignOfProduct(a + b, a - b);
    }
  }

  lemma SignOfProduct(p: real, q: real)
    requires p > 0.0
    ensures p * q > 0.0 <==> q > 0.0
    ensures p * q == 0.0 <==> q == 0.0
    ensures p * q < 0.0 <==> q < 0.0
  {
    if q > 0.0 {
      assert p * q > 0.0;
    } else if q < 0.0 {
      assert p * q < 0.0;
    }
  }

  /** On the value date the mark-to-market is the payoff: the elapsed fraction is 1, the
      remaining term 0 and the discount factor `exp(0) = 1`. */
  lemma MtmAtValueDate(s: VarianceSwap, realisedVol: real, fairStrike: real, r: real, exp: real -> real)
    requires IsExp(exp)
    requires s.strike != 0.0 && s.valueDate - s.tradeDate != 1
    ensures s.CalcMtm(realisedVol, fairStrike, r, s.valueDate, exp) == s.Payoff(realisedVol)
  {
    var bigT := YearsFromDays(s.valueDate - s.tradeDate);
    assert bigT != 0.0;
    QuotientSelf(bigT);
    assert -r * (bigT - bigT) == 0.0;
    assert Quotient(bigT - bigT, bigT) == 0.0;
  }

  /** With a linear skew the fair strike exists exactly when `1 + 3 T slope^2` is
      non-negative and then squares to `vol^2 (1 + 3 T slope^2)`. */
  lemma LinearFairStrike(volAtmf: real, bigT: real, skewSlope: real, sqrt: real -> real)
    requires IsSqrt(sqrt)
    ensures var fs := VarianceSwap.EstimateFairStrike(volAtmf, bigT, skewSlope, true, sqrt);
      (fs.Ok? <==> LinearRadicand(bigT, skewSlope) >= 0.0) &&
      (fs.Ok? ==> fs.value * fs.value == volAtmf * volAtmf * LinearRadicand(bigT, skewSlope))
  {
    var radicand := LinearRadicand(bigT, skewSlope);
    if radicand >= 0.0 {
      var root := sqrt(radicand);
      assert root * root == radicand;
      ScaledSquare(volAtmf, root);
    }
  }

  lemma ScaledSquare(v: real, root: real)
    ensures (v * root) * (v * root) == v * v * (root * root)
  {
  }

  /** For a non-negative volatility and term the linear fair strike exists and is at least
      the at-the-money volatility, with equality when the skew is flat. */
  lemma LinearFairStrikeAtLeastVol(volAtmf: real, bigT: real, skewSlope: real, sqrt: real -> real)
    requires IsSqrt(sqrt) && volAtmf >= 0.0 && bigT >= 0.0
    ensures VarianceSwap.EstimateFairStrike(volAtmf, bigT, skewSlope, true, sqrt).Ok?
    ensures VarianceSwap.EstimateFairStrike(volAtmf, bigT, skewSlope, true, sqrt).value >= volAtmf
    ensures skewSlope == 0.0 ==> VarianceSwap.EstimateFairStrike(volAtmf, bigT, skewSlope, true, sqrt) == Ok(volAtmf)
  {
    var radicand := LinearRadicand(bigT, skewSlope);
    SquareNonNegative(skewSlope);
    ProductNonNegative(3.0 * bigT, skewSlope * skewSlope);
    assert radicand >= 1.0;
    RootAtLeastOne(radicand, sqrt);
    ProductNonNegative(volAtmf, sqrt(radicand) - 1.0);
    if skewSlope == 0.0 {
      assert radicand == 1.0;
      SqrtOfSquare(sqrt, 1.0);
    }
  }

  /** The root of a number at least 1 is at least 1. */
  lemma RootAtLeastOne(x: real, sqrt: real -> real)
    requires IsSqrt(sqrt) && x >= 1.0
    ensures sqrt(x) >= 1.0
  {
    var root := sqrt(x);
    assert root >= 0.0 && root * root == x;
    SquareOrder(root, 1.0);
  }

  /** With a log-linear skew the fair strike exists exactly when the radicand is
      non-negative and then squares to it; for a flat skew it is the at-the-money
      volatility. */
  lemma LogLinearFairStrike(volAtmf: real, bigT: real, skewSlope: real, sqrt: real -> real)
    requires IsSqrt(sqrt)
    ensures var fs := VarianceSwap.EstimateFairStrike(volAtmf, bigT, skewSlope, false, sqrt);
      (fs.Ok? <==> LogLinearRadicand(volAtmf, bigT, skewSlope) >= 0.0) &&
      (fs.Ok? ==> fs.value >= 0.0 && fs.value * fs.value == LogLinearRadicand(volAtmf, bigT, skewSlope))
    ensures skewSlope == 0.0 && volAtmf >= 0.0 ==>
      VarianceSwap.EstimateFairStrike(volAtmf, bigT, skewSlope, false, sqrt) == Ok(volAtmf)
  {
    var radicand := LogLinearRadicand(volAtmf, bigT, skewSlope);
    if radicand >= 0.0 {
      assert sqrt(radicand) * sqrt(radicand) == radicand;
    }
    if skewSlope == 0.0 && volAtmf >= 0.0 {
      assert radicand == volAtmf * volAtmf;
      SqrtOfSquare(sqrt, volAtmf);
    }
  }
}
