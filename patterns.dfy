/** The four candlestick detectors of src/feature_engineering.py. Each classifies one
    candle from its own prices and, for engulfing and inside bar, the previous candle's;
    the first candle has no previous one (pandas `shift(1)` gives NaN there, and every
    comparison with NaN is false). */
module Patterns {
  import opened Wrappers

  datatype Candle = Candle(open: real, high: real, low: real, close: real)

  /** Open and close lie between low and high. */
  predicate WellFormed(c: Candle) {
    c.low <= c.open <= c.high && c.low <= c.close <= c.high
  }

  function Abs(x: real): real {
    if x < 0.0 then -x else x
  }

  /** `abs(Open - Close)`. */
  function Body(c: Candle): real {
    Abs(c.open - c.close)
  }

  /** `High - Low` (the source calls it `wick`). */
  function Range(c: Candle): real {
    c.high - c.low
  }

  /** The candle before position `t`, or none for the first candle. */
  function Prior(cs: seq<Candle>, t: nat): Option<Candle>
    requires t < |cs|
  {
    if t == 0 then None else Some(cs[t - 1])
  }

  // ---------------------------------------------------------------- engulfing

  predicate BullishEngulfing(prev: Option<Candle>, c: Candle) {
    && prev.Some?
    && prev.value.close < prev.value.open
    && c.close > c.open
    && c.close > prev.value.open
    && c.open < prev.value.close
  }

  predicate BearishEngulfing(prev: Option<Candle>, c: Candle) {
    && prev.Some?
    && prev.value.close > prev.value.open
    && c.close < c.open
    && c.close < prev.value.open
    && c.open > prev.value.close
  }

  /** `np.select([bullish, bearish], [1, -1], default=0)`. */
  function Engulfing(prev: Option<Candle>, c: Candle): (s: int)
    ensures s == 1 <==> BullishEngulfing(prev, c)
    ensures s == -1 <==> BearishEngulfing(prev, c)
    ensures s == 0 <==> !BullishEngulfing(prev, c) && !BearishEngulfing(prev, c)
  {
    if BullishEngulfing(prev, c) then 1 else if BearishEngulfing(prev, c) then -1 else 0
  }

  /** The two engulfing conditions never hold together (one needs a bearish prior
      body, the other a bullish one), so the order of `np.select` does not matter. */
  lemma EngulfingExclusive(prev: Option<Candle>, c: Candle)
    ensures !(BullishEngulfing(prev, c) && BearishEngulfing(prev, c))
  {
  }

  // ------------------------------------------------------------------ pin bar

  /** Hammer: `High - Close > 2*body` and `Open - Low < body`. */
  predicate Hammer(c: Candle) {
    c.high - c.close > 2.0 * Body(c) && c.open - c.low < Body(c)
  }

  /** Shooting star: `Open - Low > 2*body` and `High - Close < body`. */
  predicate ShootingStar(c: Candle) {
    c.open - c.low > 2.0 * Body(c) && c.high - c.close < Body(c)
  }

  function PinBar(c: Candle): (s: int)
    ensures s == 1 <==> Hammer(c)
    ensures s == -1 <==> ShootingStar(c)
    ensures s == 0 <==> !Hammer(c) && !ShootingStar(c)
  {
    if Hammer(c) then 1 else if ShootingStar(c) then -1 else 0
  }

  /** A hammer's lower wick is below the body and a shooting star's is above twice
      the body, which a non-negative body rules out together. */
  lemma PinBarExclusive(c: Candle)
    ensures !(Hammer(c) && ShootingStar(c))
  {
  }

  /** A well-formed candle with no body is not a pin bar. */
  lemma PinBarZeroBody(c: Candle)
    requires WellFormed(c) && Body(c) == 0.0
    ensures PinBar(c) == 0
  {
  }

  // --------------------------------------------------------------- inside bar

  /** `(High < High.shift(1)) & (Low > Low.shift(1))` as 0/1. */
  function InsideBar(prev: Option<Candle>, c: Candle): (s: int)
    ensures s == 0 || s == 1
    ensures s == 1 <==> prev.Some? && c.high < prev.value.high && c.low > prev.value.low
  {
    if prev.Some? && c.high < prev.value.high && c.low > prev.value.low then 1 else 0
  }

  // ----------------------------------------------------------------- marubozu

  /** `body / wick > 0.95` under floating-point division: `x / 0` is +infinity for
      `x > 0` (above the threshold) and `0 / 0` is NaN (compares false). */
  predicate BodyDominates(c: Candle) {
    if Range(c) == 0.0 then Body(c) > 0.0 else Body(c) / Range(c) > 0.95
  }

  function Marubozu(c: Candle): (s: int)
    ensures s == 1 <==> c.close > c.open && BodyDominates(c)
    ensures s == -1 <==> c.open > c.close && BodyDominates(c)
    ensures s == 0 <==> !BodyDominates(c) || c.open == c.close
  {
    if c.close > c.open && BodyDominates(c) then 1
    else if c.open > c.close && BodyDominates(c) then -1
    else 0
  }

  /** On a well-formed candle: a zero range gives 0 rather than an error, and
      otherwise the candle is a marubozu exactly when its body exceeds 95% of its
      range, the sign following the body's direction. */
  lemma MarubozuWellFormed(c: Candle)
    requires WellFormed(c)
    ensures Range(c) == 0.0 ==> Marubozu(c) == 0
    ensures Marubozu(c) == 1 <==> c.close > c.open && Body(c) > 0.95 * Range(c)
    ensures Marubozu(c) == -1 <==> c.open > c.close && Body(c) > 0.95 * Range(c)
  {
    if Range(c) > 0.0 {
      RatioAbove(Body(c), Range(c), 0.95);
    }
  }

  lemma RatioAbove(x: real, y: real, k: real)
    requires y > 0.0
    ensures x / y > k <==> x > k * y
  {
    assert x == (x / y) * y;
  }

  // ------------------------------------------------------------ whole columns

  /** `is_engulfing(df)`: one value per candle, 0 on the first. */
  function EngulfingColumn(cs: seq<Candle>): (r: seq<int>)
    ensures |r| == |cs|
    ensures forall t :: 0 <= t < |cs| ==> r[t] == Engulfing(Prior(cs, t), cs[t])
    ensures |cs| > 0 ==> r[0] == 0
  {
    seq(|cs|, t requires 0 <= t < |cs| => Engulfing(Prior(cs, t), cs[t]))
  }

  /** `is_pin_bar(df)`. */
  function PinBarColumn(cs: seq<Candle>): (r: seq<int>)
    ensures |r| == |cs|
    ensures forall t :: 0 <= t < |cs| ==> r[t] == PinBar(cs[t])
  {
    seq(|cs|, t requires 0 <= t < |cs| => PinBar(cs[t]))
  }

  /** `is_inside_bar(df)`: one 0/1 value per candle, 0 on the first. */
  function InsideBarColumn(cs: seq<Candle>): (r: seq<int>)
    ensures |r| == |cs|
    ensures forall t :: 0 <= t < |cs| ==> r[t] == InsideBar(Prior(cs, t), cs[t])
    ensures |cs| > 0 ==> r[0] == 0
  {
    seq(|cs|, t requires 0 <= t < |cs| => InsideBar(Prior(cs, t), cs[t]))
  }

  /** `is_marubozu(df)`. */
  function MarubozuColumn(cs: seq<Candle>): (r: seq<int>)
    ensures |r| == |cs|
    ensures forall t :: 0 <= t < |cs| ==> r[t] == Marubozu(cs[t])
  {
    seq(|cs|, t requires 0 <= t < |cs| => Marubozu(cs[t]))
  }

  /** Every detector yields one value per candle, in {-1, 0, 1} (inside bar: {0, 1}). */
  lemma DetectorRanges(cs: seq<Candle>)
    ensures forall t :: 0 <= t < |cs| ==> -1 <= EngulfingColumn(cs)[t] <= 1
    ensures forall t :: 0 <= t < |cs| ==> -1 <= PinBarColumn(cs)[t] <= 1
    ensures forall t :: 0 <= t < |cs| ==> 0 <= InsideBarColumn(cs)[t] <= 1
    ensures forall t :: 0 <= t < |cs| ==> -1 <= MarubozuColumn(cs)[t] <= 1
  {
  }
}
