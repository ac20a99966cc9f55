/** `create_features` of src/feature_engineering.py: adds the lag returns, the
    indicator columns, the four pattern columns, `price_future` and `target` to the
    frame it is given, one column at a time, then returns `df.dropna()`. */
module Features {
  import opened Wrappers
  import opened Frame
  import opened Patterns
  import Decimal

  /** `f'lag_{i}'`. */
  function LagName(i: nat): (n: string)
    ensures |n| > 4 && n[..4] == "lag_"
  {
    "lag_" + Decimal.NatToString(i)
  }

  /** `lag_1, ..., lag_lags` (none when `lags <= 0`, as `range(1, lags + 1)` is empty). */
  function LagNames(lags: int): (ns: seq<string>)
    ensures |ns| == if lags <= 0 then 0 else lags
    ensures forall k :: 0 <= k < |ns| ==> ns[k] == LagName(k + 1)
  {
    if lags <= 0 then [] else LagNames(lags - 1) + [LagName(lags)]
  }

  const IndicatorNames: seq<string> := ["ema_5", "ema_15", "ema_100", "rsi"]
  const PatternNames: seq<string> := ["engulfing", "pin_bar", "inside_bar", "marubozu"]
  const LabelNames: seq<string> := ["price_future", "target"]
  /** The columns written after the lag loop, in writing order. */
  const FixedNames: seq<string> := IndicatorNames + PatternNames + LabelNames

  /** Every column `create_features` writes, in the order it writes them. */
  function AddedNames(lags: int): seq<string> {
    LagNames(lags) + FixedNames
  }

  /** The lag columns are pairwise distinct and differ from every fixed column name. */
  lemma AddedNamesDistinct(lags: int)
    ensures Distinct(AddedNames(lags))
  {
    var ls, fixed := LagNames(lags), FixedNames;
    forall i, j | 0 <= i < j < |ls| ensures ls[i] != ls[j] {
      Decimal.NatToStringInjective(i + 1, j + 1);
      assert ls[i][4..] == Decimal.NatToString(i + 1);
      assert ls[j][4..] == Decimal.NatToString(j + 1);
    }
    forall i, j | 0 <= i < |ls| && 0 <= j < |fixed| ensures ls[i] != fixed[j] {
      assert ls[i][0] == 'l';
    }
    FixedNamesDistinct();
    DistinctAppend(ls, fixed);
  }

  lemma FixedNamesDistinct()
    ensures Distinct(FixedNames)
  {
  }

  /** The technical indicators of the `ta` library (EMA over 5, 15 and 100 candles,
      RSI over 14), taken as given columns whose early rows may be missing. */
  datatype Indicators = Indicators(ema5: Column, ema15: Column, ema100: Column, rsi: Column) {
    predicate Fits(n: nat) {
      |ema5| == n && |ema15| == n && |ema100| == n && |rsi| == n
    }

    predicate DefinedAt(r: nat)
      requires r < |ema5| && r < |ema15| && r < |ema100| && r < |rsi|
    {
      ema5[r].Some? && ema15[r].Some? && ema100[r].Some? && rsi[r].Some?
    }
  }

  /** Column `name` exists and has a value in every row. */
  ghost predicate Present(t: Table, name: string)
    requires t.Valid()
  {
    name in t.names && forall r :: 0 <= r < t.height ==> t.cols[name][r].Some?
  }

  /** The frame holds Open/High/Low/Close with a value in every row, and every close
      is positive. */
  ghost predicate HasPrices(t: Table) {
    && t.Valid()
    && Present(t, "Open") && Present(t, "High") && Present(t, "Low") && Present(t, "Close")
    && (forall r :: 0 <= r < t.height ==> t.cols["Close"][r].value > 0.0)
  }

  function Closes(t: Table): (cs: seq<real>)
    requires HasPrices(t)
    ensures |cs| == t.height
    ensures forall r :: 0 <= r < |cs| ==> cs[r] > 0.0
  {
    seq(t.height, r requires 0 <= r < t.height => t.cols["Close"][r].value)
  }

  function Candles(t: Table): (cs: seq<Candle>)
    requires HasPrices(t)
    ensures |cs| == t.height
    ensures forall r :: 0 <= r < |cs| ==> cs[r].close == Closes(t)[r]
  {
    seq(t.height, r requires 0 <= r < t.height =>
      Candle(t.cols["Open"][r].value, t.cols["High"][r].value,
             t.cols["Low"][r].value, t.cols["Close"][r].value))
  }

  predicate Positive(closes: seq<real>) {
    forall r :: 0 <= r < |closes| ==> closes[r] > 0.0
  }

  /** The relative change from `before` to `now`. */
  function Change(now: real, before: real): real
    requires before != 0.0
  {
    now / before - 1.0
  }

  /** `Close.pct_change(periods=i)`. */
  function PctChange(closes: seq<real>, i: nat): (col: Column)
    requires Positive(closes)
    ensures |col| == |closes|
    ensures forall r :: 0 <= r < |closes| && r < i ==> col[r] == None
    ensures forall r :: i <= r < |closes| ==> col[r] == Some(Change(closes[r], closes[r - i]))
  {
    seq(|closes|, r requires 0 <= r < |closes| =>
      if r < i then None else Some(Change(closes[r], closes[r - i])))
  }

  /** `Close.shift(-1)`: the next close, missing on the final candle. */
  function PriceFuture(closes: seq<real>): (col: Column)
    ensures |col| == |closes|
    ensures forall r :: 0 <= r < |closes| - 1 ==> col[r] == Some(closes[r + 1])
    ensures |closes| > 0 ==> col[|closes| - 1] == None
  {
    seq(|closes|, r requires 0 <= r < |closes| =>
      if r + 1 < |closes| then Some(closes[r + 1]) else None)
  }

  /** `np.where(price_future > Close, 1, 0)`: a comparison with the missing future
      price is false, so the final candle gets 0 rather than a missing value. */
  function Target(closes: seq<real>): (col: Column)
    ensures |col| == |closes|
    ensures forall r :: 0 <= r < |closes| ==> col[r] == Some(0.0) || col[r] == Some(1.0)
    ensures forall r :: 0 <= r < |closes| - 1 ==> (col[r] == Some(1.0) <==> closes[r + 1] > closes[r])
    ensures |closes| > 0 ==> col[|closes| - 1] == Some(0.0)
  {
    seq(|closes|, r requires 0 <= r < |closes| =>
      Some(if r + 1 < |closes| && closes[r + 1] > closes[r] then 1.0 else 0.0))
  }

  /** An integer column as a float column. */
  function Numbers(xs: seq<int>): (col: Column)
    ensures |col| == |xs|
  {
    seq(|xs|, r requires 0 <= r < |xs| => Some(xs[r] as real))
  }

  /** The columns the lag loop writes: `PctChange(closes, i)` for `i = 1..lags`. */
  function LagColumns(closes: seq<real>, lags: int): (vs: seq<Column>)
    requires Positive(closes)
    ensures |vs| == |LagNames(lags)| && Fit(vs, |closes|)
    ensures forall k :: 0 <= k < |vs| ==> vs[k] == PctChange(closes, k + 1)
  {
    if lags <= 0 then [] else LagColumns(closes, lags - 1) + [PctChange(closes, lags)]
  }

  /** The columns written after the lag loop, in the order of `FixedNames`. */
  function FixedColumns(t: Table, ind: Indicators): (vs: seq<Column>)
    requires HasPrices(t) && ind.Fits(t.height)
    ensures |vs| == |FixedNames| && Fit(vs, t.height)
  {
    var closes, cs := Closes(t), Candles(t);
    [ind.ema5, ind.ema15, ind.ema100, ind.rsi,
     Numbers(EngulfingColumn(cs)), Numbers(PinBarColumn(cs)),
     Numbers(InsideBarColumn(cs)), Numbers(MarubozuColumn(cs)),
     PriceFuture(closes), Target(closes)]
  }

  /** Every column `create_features` writes, in the order of `AddedNames`. */
  function AddedColumns(t: Table, lags: int, ind: Indicators): (vs: seq<Column>)
    requires HasPrices(t) && ind.Fits(t.height)
    ensures |vs| == |AddedNames(lags)| && Fit(vs, t.height)
  {
    LagColumns(Closes(t), lags) + FixedColumns(t, ind)
  }

  /** The frame after every column has been written, before `dropna()`. */
  function Featured(t: Table, lags: int, ind: Indicators): (u: Table)
    requires HasPrices(t) && ind.Fits(t.height)
    ensures u.Valid() && u.height == t.height
  {
    WithAll(t, AddedNames(lags), AddedColumns(t, lags, ind))
  }

  /** What `create_features` returns. */
  function FeatureTable(t: Table, lags: int, ind: Indicators): (o: Table)
    requires HasPrices(t) && ind.Fits(t.height)
    ensures o.Valid() && o.names == Featured(t, lags, ind).names
    ensures o.height <= t.height
  {
    DropNa(Featured(t, lags, ind))
  }

  /** `price_future` is missing on the final candle, so `create_features` returns
      fewer rows than it was given (none for an empty frame). */
  lemma FeatureTableDropsLast(t: Table, lags: int, ind: Indicators)
    requires HasPrices(t) && ind.Fits(t.height) && t.height > 0
    ensures FeatureTable(t, lags, ind).height < t.height
  {
    var f, last := Featured(t, lags, ind), t.height - 1;
    FeaturedFixed(t, lags, ind, 8);
    assert FixedNames[8] == "price_future";
    assert f.cols["price_future"][last] == None;
    assert !f.Complete(last);
  }

  /** The three candles closing at 1.1, 1.25 and 1.22: the first rises, the second
      falls, and the last has no successor, so the labels are 1, 0, 0. */
  lemma TargetScenario()
    ensures Target([1.1, 1.25, 1.22]) == [Some(1.0), Some(0.0), Some(0.0)]
  {
    var col := Target([1.1, 1.25, 1.22]);
    assert col[0] == Some(1.0) && col[1] == Some(0.0) && col[2] == Some(0.0);
  }

  /** Writing the first `i` lag columns is writing the first `i - 1`, then `lag_i`. */
  lemma LagStep(t: Table, closes: seq<real>, i: nat)
    requires t.Valid() && |closes| == t.height && Positive(closes) && i >= 1
    ensures WithAll(t, LagNames(i), LagColumns(closes, i))
         == WithAll(t, LagNames(i - 1), LagColumns(closes, i - 1)).With(LagName(i), PctChange(closes, i))
  {
    assert LagNames(i)[..i - 1] == LagNames(i - 1);
    assert LagColumns(closes, i)[..i - 1] == LagColumns(closes, i - 1);
  }

  /** The lag loop of `create_features`: `df[f'lag_{i}'] = df['Close'].pct_change(periods=i)`
      for `i` in `range(1, lags + 1)`. */
  method AddLags(df: DataFrame, closes: seq<real>, lags: int)
    requires df.Valid() && |closes| == df.height && Positive(closes)
    modifies df
    ensures df.Valid()
    ensures df.Snapshot() == WithAll(old(df.Snapshot()), LagNames(lags), LagColumns(closes, lags))
  {
    ghost var t := df.Snapshot();
    var n := if lags >= 1 then lags else 0;
    assert LagNames(lags) == LagNames(n) && LagColumns(closes, lags) == LagColumns(closes, n);
    for i := 1 to n + 1
      invariant df.Valid()
      invariant df.Snapshot() == WithAll(t, LagNames(i - 1), LagColumns(closes, i - 1))
    {
      LagStep(t, closes, i);
      df.SetColumn(LagName(i), PctChange(closes, i));
    }
  }

  /** `create_features(df, lags)`: writes the new columns into `df` one at a time (the
      lag loop, then the ten fixed columns in source order) and returns the rows of
      the result that have no missing value. */
  method CreateFeatures(df: DataFrame, lags: int, ind: Indicators) returns (out: Table)
    requires df.Valid() && HasPrices(df.Snapshot()) && ind.Fits(df.height)
    modifies df
    ensures df.Valid()
    ensures df.Snapshot() == Featured(old(df.Snapshot()), lags, ind)
    ensures out == DropNa(df.Snapshot())
  {
    ghost var t := df.Snapshot();
    // No step overwrites Open/High/Low/Close, so reading them once is reading them
    // at each use.
    var closes, cs := Closes(df.Snapshot()), Candles(df.Snapshot());
    AddLags(df, closes, lags);
    ghost var u := df.Snapshot();
    var fixed := [ind.ema5, ind.ema15, ind.ema100, ind.rsi,
                  Numbers(EngulfingColumn(cs)), Numbers(PinBarColumn(cs)),
                  Numbers(InsideBarColumn(cs)), Numbers(MarubozuColumn(cs)),
                  PriceFuture(closes), Target(closes)];
    assert fixed == FixedColumns(t, ind);
    df.SetColumns(FixedNames, fixed);
    WithAllAppend(t, LagNames(lags), LagColumns(closes, lags), FixedNames, fixed);
    assert AddedColumns(t, lags, ind) == LagColumns(closes, lags) + fixed;
    out := DropNa(df.Snapshot());
  }

  // ------------------------------------------------------------------ lemmas

  /** Before `dropna()`, each written name holds the column written for it. */
  lemma FeaturedColumn(t: Table, lags: int, ind: Indicators, k: nat)
    requires HasPrices(t) && ind.Fits(t.height) && k < |AddedNames(lags)|
    ensures AddedNames(lags)[k] in Featured(t, lags, ind).names
    ensures Featured(t, lags, ind).cols[AddedNames(lags)[k]] == AddedColumns(t, lags, ind)[k]
  {
    AddedNamesDistinct(lags);
    WithAllWritten(t, AddedNames(lags), AddedColumns(t, lags, ind), k);
  }

  /** Before `dropna()`, `lag_i` holds `Close[t] / Close[t - i] - 1`, missing for `t < i`. */
  lemma FeaturedLag(t: Table, lags: int, ind: Indicators, i: int)
    requires HasPrices(t) && ind.Fits(t.height) && 1 <= i <= lags
    ensures LagName(i) in Featured(t, lags, ind).names
    ensures Featured(t, lags, ind).cols[LagName(i)] == PctChange(Closes(t), i)
  {
    FeaturedColumn(t, lags, ind, i - 1);
  }

  /** Before `dropna()`, fixed column `j` holds what its step computed. */
  lemma FeaturedFixed(t: Table, lags: int, ind: Indicators, j: nat)
    requires HasPrices(t) && ind.Fits(t.height) && j < |FixedNames|
    ensures FixedNames[j] in Featured(t, lags, ind).names
    ensures Featured(t, lags, ind).cols[FixedNames[j]] == FixedColumns(t, ind)[j]
  {
    FeaturedColumn(t, lags, ind, |LagNames(lags)| + j);
  }

  /** A column that `create_features` does not write keeps its values. */
  lemma FeaturedOther(t: Table, lags: int, ind: Indicators, c: string)
    requires HasPrices(t) && ind.Fits(t.height) && c !in AddedNames(lags)
    ensures c in Featured(t, lags, ind).names <==> c in t.names
    ensures c in t.names ==> Featured(t, lags, ind).cols[c] == t.cols[c]
  {
    WithAllOther(t, AddedNames(lags), AddedColumns(t, lags, ind), c);
  }

  /** On a frame with none of the written names (an OHLCV frame), the new names follow
      the old ones in writing order: exactly `lags` lag columns, then the fixed ten. */
  lemma FeaturedNames(t: Table, lags: int, ind: Indicators)
    requires HasPrices(t) && ind.Fits(t.height)
    requires forall c :: c in AddedNames(lags) ==> c !in t.names
    ensures Featured(t, lags, ind).names == t.names + AddedNames(lags)
  {
    AddedNamesDistinct(lags);
    WithAllNames(t, AddedNames(lags), AddedColumns(t, lags, ind));
  }

  /** The label columns after `dropna()`, for any frame holding them. */
  lemma LabelsAfterDropNa(f: Table, closes: seq<real>, j: nat)
    requires f.Valid() && |closes| == f.height && j < |f.Kept()|
    requires "price_future" in f.names && f.cols["price_future"] == PriceFuture(closes)
    requires "target" in f.names && f.cols["target"] == Target(closes)
    ensures f.Kept()[j] + 1 < |closes|
    ensures DropNa(f).At("price_future", j) == Some(closes[f.Kept()[j] + 1])
    ensures DropNa(f).At("target", j) ==
      Some(if closes[f.Kept()[j] + 1] > closes[f.Kept()[j]] then 1.0 else 0.0)
  {
    DropNaCell(f, "price_future", j);
    DropNaCell(f, "target", j);
  }

  /** A lag column after `dropna()`, for any frame holding it. */
  lemma LagAfterDropNa(f: Table, closes: seq<real>, i: nat, j: nat)
    requires f.Valid() && |closes| == f.height && Positive(closes) && j < |f.Kept()|
    requires LagName(i) in f.names && f.cols[LagName(i)] == PctChange(closes, i)
    ensures i <= f.Kept()[j]
    ensures DropNa(f).At(LagName(i), j) ==
      Some(Change(closes[f.Kept()[j]], closes[f.Kept()[j] - i]))
  {
    DropNaCell(f, LagName(i), j);
  }

  /** Output row `j` of `create_features` comes from candle `r = Kept[j]`, which has
      `lags` candles before it and one after it, so the final candle is never kept;
      the row's `target` is 1 exactly when the next close is higher than its own, and
      its `price_future` is that next close. */
  lemma FeatureRow(t: Table, lags: int, ind: Indicators, j: nat)
    requires HasPrices(t) && ind.Fits(t.height)
    requires j < |Featured(t, lags, ind).Kept()|
    ensures var r, o, closes := Featured(t, lags, ind).Kept()[j], FeatureTable(t, lags, ind), Closes(t);
      && lags <= r && r + 1 < t.height
      && o.At("price_future", j) == Some(closes[r + 1])
      && o.At("target", j) == Some(if closes[r + 1] > closes[r] then 1.0 else 0.0)
  {
    var f, closes := Featured(t, lags, ind), Closes(t);
    FeaturedFixed(t, lags, ind, 8);
    FeaturedFixed(t, lags, ind, 9);
    assert FixedNames[8] == "price_future" && FixedNames[9] == "target";
    LabelsAfterDropNa(f, closes, j);
    if lags >= 1 {
      FeaturedLag(t, lags, ind, lags);
      LagAfterDropNa(f, closes, lags, j);
    }
  }

  /** When `create_features` returns a row, the last one comes from a candle that
      has a successor. */
  lemma LastKeptBeforeEnd(t: Table, lags: int, ind: Indicators)
    requires HasPrices(t) && ind.Fits(t.height) && FeatureTable(t, lags, ind).height > 0
    ensures var kept := Featured(t, lags, ind).Kept();
      |kept| > 0 && kept[|kept| - 1] + 1 < t.height
  {
    FeatureRow(t, lags, ind, |Featured(t, lags, ind).Kept()| - 1);
  }

  /** Column `lag_i` of output row `j` is the `i`-period return of its candle. */
  lemma FeatureRowLag(t: Table, lags: int, ind: Indicators, i: nat, j: nat)
    requires HasPrices(t) && ind.Fits(t.height) && 1 <= i <= lags
    requires j < |Featured(t, lags, ind).Kept()|
    ensures var r, closes := Featured(t, lags, ind).Kept()[j], Closes(t);
      && i <= r
      && FeatureTable(t, lags, ind).At(LagName(i), j) == Some(Change(closes[r], closes[r - i]))
  {
    FeaturedLag(t, lags, ind, i);
    LagAfterDropNa(Featured(t, lags, ind), Closes(t), i, j);
  }

  /** The lag columns all have a value at candle `r` exactly from candle `lags` on. */
  lemma LagColumnsPresent(closes: seq<real>, lags: int, r: nat)
    requires Positive(closes) && r < |closes|
    ensures AllSome(LagColumns(closes, lags), r) <==> lags <= r
  {
    var ls := LagColumns(closes, lags);
    if lags >= 1 && AllSome(ls, r) {
      assert ls[lags - 1] == PctChange(closes, lags);
    }
  }

  /** The fixed columns all have a value at candle `r` exactly when the four
      indicators are defined there and `r` is not the final candle: the pattern
      columns and `target` are never missing. */
  lemma FixedColumnsPresent(t: Table, ind: Indicators, r: nat)
    requires HasPrices(t) && ind.Fits(t.height) && r < t.height
    ensures AllSome(FixedColumns(t, ind), r) <==> r + 1 < t.height && ind.DefinedAt(r)
    ensures forall k :: 4 <= k < 10 && k != 8 ==> FixedColumns(t, ind)[k][r].Some?
  {
    var fs := FixedColumns(t, ind);
    var closes := Closes(t);
    assert fs[0] == ind.ema5 && fs[1] == ind.ema15 && fs[2] == ind.ema100 && fs[3] == ind.rsi;
    assert fs[8] == PriceFuture(closes) && fs[9] == Target(closes);
    assert fs[4][r].Some? && fs[5][r].Some? && fs[6][r].Some? && fs[7][r].Some?;
    assert fs[9][r].Some?;
    forall k | 4 <= k < 10 && k != 8 ensures fs[k][r].Some? {
      assert k == 4 || k == 5 || k == 6 || k == 7 || k == 9;
    }
    if r + 1 < t.height && ind.DefinedAt(r) {
      forall k | 0 <= k < |fs| ensures r < |fs[k]| && fs[k][r].Some? {
        assert k == 0 || k == 1 || k == 2 || k == 3 || k == 4 || k == 5 || k == 6 || k == 7 || k == 8 || k == 9;
      }
    }
  }

  /** On an OHLCV frame (none of the written names present), `create_features` keeps
      candle `r` exactly when it has `lags` predecessors and a successor, all four
      indicators are defined there, and the frame's own columns have no gap there. */
  lemma FeatureRowKept(t: Table, lags: int, ind: Indicators, r: nat)
    requires HasPrices(t) && ind.Fits(t.height) && r < t.height
    requires forall c :: c in AddedNames(lags) ==> c !in t.names
    ensures r in Featured(t, lags, ind).Kept() <==>
      lags <= r && r + 1 < t.height && ind.DefinedAt(r) && t.Complete(r)
  {
    AddedNamesDistinct(lags);
    CompleteAfterWithAll(t, AddedNames(lags), AddedColumns(t, lags, ind), r);
    AllSomeAppend(LagColumns(Closes(t), lags), FixedColumns(t, ind), r);
    LagColumnsPresent(Closes(t), lags, r);
    FixedColumnsPresent(t, ind, r);
    DropNaRows(Featured(t, lags, ind));
  }
}
