/** The data handling of `train_model` in src/model_trainer.py: the feature list, the
    chronological train/test split with its guard, and the ranking of the feature
    importances. Fitting, evaluating and saving the random forest are not modelled;
    the fitted model enters only through the importances it reports. */
module Trainer {
  import opened Wrappers
  import opened Frame
  import Features

  /** The columns that are not features: prices, volume and the label columns. */
  const ExcludedColumns: seq<string> :=
    ["Open", "High", "Low", "Close", "Volume", "price_future", "target"]

  /** `[col for col in df.columns if col not in excluded_cols]`: a filter, so never
      longer than the column list. */
  function FeatureColumns(names: seq<string>): (fs: seq<string>)
    ensures |fs| <= |names|
  {
    Without(names, ExcludedColumns)
  }

  /** The features are exactly the columns that are not excluded, each once; neither
      label column is ever a feature. */
  lemma FeatureColumnsMembers(names: seq<string>)
    ensures forall c :: c in FeatureColumns(names) <==> c in names && c !in ExcludedColumns
    ensures "target" !in FeatureColumns(names) && "price_future" !in FeatureColumns(names)
    ensures Distinct(names) ==> Distinct(FeatureColumns(names))
  {
    WithoutMembers(names, ExcludedColumns);
  }

  /** The feature list keeps the column order: it is built name by name. */
  lemma FeatureColumnsOrder(a: seq<string>, b: seq<string>)
    ensures FeatureColumns(a + b) == FeatureColumns(a) + FeatureColumns(b)
  {
    WithoutAppend(a, b, ExcludedColumns);
  }

  lemma IndicatorsNotExcluded()
    ensures forall k :: 0 <= k < |Features.IndicatorNames| ==> Features.IndicatorNames[k] !in ExcludedColumns
  {
    var ns := Features.IndicatorNames;
    assert ns[0] !in ExcludedColumns && ns[1] !in ExcludedColumns;
    assert ns[2] !in ExcludedColumns && ns[3] !in ExcludedColumns;
  }

  lemma PatternsNotExcluded()
    ensures forall k :: 0 <= k < |Features.PatternNames| ==> Features.PatternNames[k] !in ExcludedColumns
  {
    var ns := Features.PatternNames;
    assert ns[0] !in ExcludedColumns && ns[1] !in ExcludedColumns;
    assert ns[2] !in ExcludedColumns && ns[3] !in ExcludedColumns;
  }

  /** Of the ten fixed columns, the indicators and the patterns are features. */
  lemma FixedFeatures()
    ensures FeatureColumns(Features.FixedNames)
         == Features.IndicatorNames + Features.PatternNames
  {
    FeatureColumnsOrder(Features.IndicatorNames + Features.PatternNames, Features.LabelNames);
    FeatureColumnsOrder(Features.IndicatorNames, Features.PatternNames);
    IndicatorsNotExcluded();
    PatternsNotExcluded();
    WithoutNone(Features.IndicatorNames, ExcludedColumns);
    WithoutNone(Features.PatternNames, ExcludedColumns);
    assert FeatureColumns(Features.LabelNames) == [];
  }

  /** Every lag column is a feature. */
  lemma LagFeatures(lags: int)
    ensures FeatureColumns(Features.LagNames(lags)) == Features.LagNames(lags)
  {
    var ls := Features.LagNames(lags);
    forall k | 0 <= k < |ls| ensures ls[k] !in ExcludedColumns {
      assert ls[k][0] == 'l';
    }
    WithoutNone(ls, ExcludedColumns);
  }

  /** The columns of a fetched OHLCV frame. */
  const PriceColumns: seq<string> := ["Open", "High", "Low", "Close", "Volume"]

  /** The price and volume columns are none of the written ones. */
  lemma PricesNotAdded(lags: int, c: string)
    requires c in PriceColumns
    ensures c !in Features.AddedNames(lags)
  {
  }

  /** Excluded columns in front of a list add no feature. */
  lemma ExcludedPrefix(base: seq<string>, ns: seq<string>)
    requires forall k :: 0 <= k < |base| ==> base[k] in ExcludedColumns
    ensures FeatureColumns(base + ns) == FeatureColumns(ns)
  {
    FeatureColumnsOrder(base, ns);
    WithoutAll(base, ExcludedColumns);
  }

  /** Of the columns `create_features` writes, the lag columns, the indicators and the
      pattern columns are features, in writing order. */
  lemma AddedFeatures(lags: int)
    ensures FeatureColumns(Features.AddedNames(lags))
         == Features.LagNames(lags) + Features.IndicatorNames + Features.PatternNames
  {
    FeatureColumnsOrder(Features.LagNames(lags), Features.FixedNames);
    LagFeatures(lags);
    FixedFeatures();
  }

  /** Price and volume columns followed by the written names: the names are new, and
      the features are the lag columns, then the indicators, then the pattern columns. */
  lemma FeaturesOfNames(base: seq<string>, lags: int)
    requires forall k :: 0 <= k < |base| ==> base[k] in PriceColumns
    ensures forall c :: c in Features.AddedNames(lags) ==> c !in base
    ensures FeatureColumns(base + Features.AddedNames(lags))
         == Features.LagNames(lags) + Features.IndicatorNames + Features.PatternNames
  {
    forall c | c in Features.AddedNames(lags) ensures c !in base {
      if c in base {
        PricesNotAdded(lags, c);
      }
    }
    ExcludedPrefix(base, Features.AddedNames(lags));
    AddedFeatures(lags);
  }

  /** For the frame `create_features` builds from an OHLCV frame, the features are the
      lag columns, then the indicators, then the pattern columns, in writing order. */
  lemma FeaturesOfCreatedFrame(t: Table, lags: int, ind: Features.Indicators)
    requires Features.HasPrices(t) && ind.Fits(t.height)
    requires forall k :: 0 <= k < |t.names| ==> t.names[k] in PriceColumns
    ensures FeatureColumns(Features.Featured(t, lags, ind).names)
         == Features.LagNames(lags) + Features.IndicatorNames + Features.PatternNames
  {
    FeaturesOfNames(t.names, lags);
    Features.FeaturedNames(t, lags, ind);
  }

  /** `int(n * (1 - 0.2))`. The double nearest 0.8 lies just above 4/5, so the product
      never falls below an integer it should reach and the floor is that of `4n/5`. */
  function SplitIndex(n: nat): (s: nat)
    ensures s <= n && 5 * s <= 4 * n < 5 * s + 5
  {
    (4 * n) / 5
  }

  /** The split leaves both partitions non-empty exactly when there are two rows. */
  lemma SplitIndexInside(n: nat)
    ensures 0 < SplitIndex(n) < n <==> n >= 2
  {
  }

  /** `df[features].iloc[r]` for every row `r`. */
  function Matrix(t: Table, fs: seq<string>): (x: seq<seq<Cell>>)
    ensures |x| == t.height
    ensures forall r :: 0 <= r < t.height ==> x[r] == t.Row(r, fs)
  {
    seq(t.height, r requires 0 <= r < t.height => t.Row(r, fs))
  }

  datatype TrainError = MissingColumn(name: string) | NotEnoughData | LengthMismatch

  /** The four partitions `X_train, X_test, y_train, y_test` and the feature list. */
  datatype Split = Split(features: seq<string>,
                         xTrain: seq<seq<Cell>>, xTest: seq<seq<Cell>>,
                         yTrain: seq<Cell>, yTest: seq<Cell>)

  /** Lines 21-34 of `train_model`: select the features and the label (a frame without
      `target` raises `KeyError`), cut both at the split index, and raise `ValueError`
      when a partition is empty. */
  function TrainTestSplit(t: Table): (r: Result<Split, TrainError>)
    requires t.Valid()
    ensures "target" !in t.names ==> r == Failure(MissingColumn("target"))
    ensures "target" in t.names ==> (r.Failure? <==> t.height <= 1)
    ensures "target" in t.names && r.Failure? ==> r.error == NotEnoughData
    ensures r.Success? ==>
      && r.value.features == FeatureColumns(t.names)
      && |r.value.xTrain| == |r.value.yTrain| == SplitIndex(t.height) > 0
      && |r.value.xTest| == |r.value.yTest| == t.height - SplitIndex(t.height) > 0
  {
    var fs := FeatureColumns(t.names);
    if "target" !in t.names then Failure(MissingColumn("target"))
    else
      var x, y := Matrix(t, fs), t.cols["target"];
      var s := SplitIndex(t.height);
      if s == 0 || s == t.height then Failure(NotEnoughData)
      else Success(Split(fs, x[..s], x[s..], y[..s], y[s..]))
  }

  /** The four partitions are the two halves of X and of y, cut at `SplitIndex`. */
  lemma SplitParts(t: Table)
    requires t.Valid() && TrainTestSplit(t).Success?
    ensures var sp, s := TrainTestSplit(t).value, SplitIndex(t.height);
      var x, y := Matrix(t, sp.features), t.cols["target"];
      && sp.xTrain == x[..s] && sp.xTest == x[s..]
      && sp.yTrain == y[..s] && sp.yTest == y[s..]
  {
  }

  /** Train followed by test is the whole feature matrix and the whole label column. */
  lemma SplitPartition(t: Table)
    requires t.Valid() && TrainTestSplit(t).Success?
    ensures var sp := TrainTestSplit(t).value;
      && sp.xTrain + sp.xTest == Matrix(t, sp.features)
      && sp.yTrain + sp.yTest == t.cols["target"]
  {
    SplitParts(t);
    var sp, s := TrainTestSplit(t).value, SplitIndex(t.height);
    Rejoin(Matrix(t, sp.features), s);
    Rejoin(t.cols["target"], s);
  }

  lemma Rejoin<T>(x: seq<T>, s: nat)
    requires s <= |x|
    ensures x[..s] + x[s..] == x
  {
  }

  /** X and y are cut at the same index: train entry `k` is row `k` with its own
      label, and test entry `k` is row `SplitIndex + k` with its own label. */
  lemma SplitAligned(t: Table)
    requires t.Valid() && TrainTestSplit(t).Success?
    ensures var sp, s := TrainTestSplit(t).value, SplitIndex(t.height);
      && (forall k :: 0 <= k < |sp.xTrain| ==>
            sp.xTrain[k] == t.Row(k, sp.features) && sp.yTrain[k] == t.cols["target"][k])
      && (forall k :: 0 <= k < |sp.xTest| ==>
            sp.xTest[k] == t.Row(s + k, sp.features) && sp.yTest[k] == t.cols["target"][s + k])
  {
    SplitParts(t);
  }

  /** The last test entry is the last row of the frame. */
  lemma LastTestRow(t: Table)
    requires t.Valid() && TrainTestSplit(t).Success?
    ensures var sp := TrainTestSplit(t).value;
      sp.xTest[|sp.xTest| - 1] == t.Row(t.height - 1, sp.features)
  {
    SplitParts(t);
  }

  /** On the output of `create_features`, every training row comes from an earlier
      candle than every test row: the split never lets the model see the future. */
  lemma SplitChronological(t: Table, lags: int, ind: Features.Indicators, i: nat, j: nat)
    requires Features.HasPrices(t) && ind.Fits(t.height)
    requires TrainTestSplit(Features.FeatureTable(t, lags, ind)).Success?
    requires i < |TrainTestSplit(Features.FeatureTable(t, lags, ind)).value.xTrain|
    requires j < |TrainTestSplit(Features.FeatureTable(t, lags, ind)).value.xTest|
    ensures var kept, s := Features.Featured(t, lags, ind).Kept(), SplitIndex(|Features.Featured(t, lags, ind).Kept()|);
      i < s + j < |kept| && kept[i] < kept[s + j]
  {
    var f := Features.Featured(t, lags, ind);
    DropNaRows(f);
  }

  /** One feature with its reported importance: an entry of the importance Series. */
  datatype Ranked = Ranked(feature: string, importance: real)

  predicate SortedDesc(s: seq<Ranked>) {
    forall i, j :: 0 <= i < j < |s| ==> s[i].importance >= s[j].importance
  }

  /** An entry not below the first of a sorted list can go in front of it. */
  lemma PrependSorted(y: Ranked, s: seq<Ranked>)
    requires SortedDesc(s) && (s == [] || s[0].importance <= y.importance)
    ensures SortedDesc([y] + s)
  {
  }

  /** Places `x` before the first entry it is not below. */
  function Insert(x: Ranked, s: seq<Ranked>): (r: seq<Ranked>)
    requires SortedDesc(s)
    ensures SortedDesc(r)
    ensures multiset(r) == multiset(s) + multiset{x}
    ensures |r| == |s| + 1 && (r[0] == x || (s != [] && r[0] == s[0]))
  {
    if s == [] || x.importance >= s[0].importance then
      PrependSorted(x, s);
      [x] + s
    else
      var rest := Insert(x, s[1..]);
      assert s == [s[0]] + s[1..];
      PrependSorted(s[0], rest);
      [s[0]] + rest
  }

  /** `sort_values(ascending=False)`: the entries by non-increasing importance. */
  function SortDesc(s: seq<Ranked>): (r: seq<Ranked>)
    ensures SortedDesc(r)
    ensures multiset(r) == multiset(s)
  {
    if s == [] then []
    else
      assert s == [s[0]] + s[1..];
      Insert(s[0], SortDesc(s[1..]))
  }

  /** `pd.Series(values, index=features)`, which needs one value per feature. */
  function Pair(fs: seq<string>, values: seq<real>): (ps: seq<Ranked>)
    requires |fs| == |values|
    ensures |ps| == |fs|
    ensures forall k :: 0 <= k < |fs| ==> ps[k] == Ranked(fs[k], values[k])
  {
    seq(|fs|, k requires 0 <= k < |fs| => Ranked(fs[k], values[k]))
  }

  /** Line 45: the importances indexed by feature and sorted, largest first. */
  function RankImportances(fs: seq<string>, values: seq<real>): (r: Result<seq<Ranked>, TrainError>)
    ensures r.Failure? <==> |fs| != |values|
    ensures r.Failure? ==> r.error == LengthMismatch
    ensures r.Success? ==> SortedDesc(r.value) && multiset(r.value) == multiset(Pair(fs, values))
  {
    if |fs| != |values| then Failure(LengthMismatch) else Success(SortDesc(Pair(fs, values)))
  }

  /** What `train_model` computes besides the fitted model. */
  datatype Report = Report(split: Split, ranking: seq<Ranked>)

  /** `train_model(df)`, with the random forest's training reduced to the importances
      it reports for the training partition. */
  function TrainModel(t: Table, importances: (seq<seq<Cell>>, seq<Cell>) -> seq<real>): (r: Result<Report, TrainError>)
    requires t.Valid()
    ensures TrainTestSplit(t).Failure? ==> r == Failure(TrainTestSplit(t).error)
    ensures TrainTestSplit(t).Success? ==> var sp := TrainTestSplit(t).value;
      var values := importances(sp.xTrain, sp.yTrain);
      && (r.Success? <==> |values| == |sp.features|)
      && (r.Success? ==>
            && r.value.split == sp
            && SortedDesc(r.value.ranking)
            && multiset(r.value.ranking) == multiset(Pair(sp.features, values)))
  {
    var sp :- TrainTestSplit(t);
    var ranking :- RankImportances(sp.features, importances(sp.xTrain, sp.yTrain));
    Success(Report(sp, ranking))
  }
}
