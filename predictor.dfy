/** `make_prediction` in src/predictor.py: select the same feature columns as the
    trainer, score the most recent row with the fitted classifier, and read out a
    direction and a confidence. Loading the model and printing are not modelled; the
    classifier is a function from a feature row to its predicted class and the class
    probabilities. */
module Predictor {
  import opened Wrappers
  import opened Frame
  import Features
  import Trainer

  /** The predictor's own copy of the list of columns that are not features. */
  const ExcludedColumns: seq<string> :=
    ["Open", "High", "Low", "Close", "Volume", "price_future", "target"]

  /** `[col for col in df_full.columns if col not in excluded_cols]`: the predictor
      feeds the model the very columns, in the very order, that the trainer fitted it
      on. */
  function FeatureColumns(names: seq<string>): (fs: seq<string>)
    ensures fs == Trainer.FeatureColumns(names)
  {
    assert ExcludedColumns == Trainer.ExcludedColumns;
    Without(names, ExcludedColumns)
  }

  /** What the classifier returns for one row: `predict(X)[0]` and `predict_proba(X)[0]`. */
  datatype Scores = Scores(predicted: int, proba: seq<real>)

  datatype Prediction = Prediction(direction: string, confidence: real)

  datatype PredictError = EmptyTable | ClassOutOfRange(index: int)

  /** numpy's `a[i]`: a negative index counts from the end; outside `-len..len-1` it
      raises `IndexError`. */
  function Element(a: seq<real>, i: int): (x: Option<real>)
    ensures x.Some? <==> -|a| <= i < |a|
    ensures 0 <= i < |a| ==> x == Some(a[i])
    ensures -|a| <= i < 0 ==> x == Some(a[|a| + i])
  {
    if 0 <= i < |a| then Some(a[i])
    else if -|a| <= i < 0 then Some(a[|a| + i])
    else None
  }

  /** `"SUBIR" if prediction == 1 else "CAIR"`. */
  function Direction(predicted: int): (d: string)
    ensures d == "SUBIR" <==> predicted == 1
    ensures d == "CAIR" <==> predicted != 1
  {
    if predicted == 1 then "SUBIR" else "CAIR"
  }

  /** `df_full[features].iloc[[-1]]`: the feature values of the last row. */
  function RecentRow(t: Table): (x: seq<Cell>)
    requires t.height > 0
    ensures |x| == |FeatureColumns(t.names)|
  {
    t.Row(t.height - 1, FeatureColumns(t.names))
  }

  /** `make_prediction(df_full)`. An empty frame has no last row; a predicted class
      that is no valid index into the probability vector raises `IndexError`. */
  function MakePrediction(t: Table, classify: seq<Cell> -> Scores): (r: Result<Prediction, PredictError>)
    requires t.Valid()
    ensures t.height == 0 ==> r == Failure(EmptyTable)
    ensures t.height > 0 ==> var sc := classify(RecentRow(t));
      && (r.Failure? <==> Element(sc.proba, sc.predicted).None?)
      && (r.Failure? ==> r.error == ClassOutOfRange(sc.predicted))
      && (r.Success? ==> r.value.direction == Direction(sc.predicted)
                         && r.value.confidence == Element(sc.proba, sc.predicted).value * 100.0)
  {
    if t.height == 0 then Failure(EmptyTable)
    else
      var sc := classify(RecentRow(t));
      match Element(sc.proba, sc.predicted)
      case None => Failure(ClassOutOfRange(sc.predicted))
      case Some(p) => Success(Prediction(Direction(sc.predicted), p * 100.0))
  }

  /** With probabilities in [0, 1] the confidence is a percentage. */
  lemma ConfidencePercent(t: Table, classify: seq<Cell> -> Scores)
    requires t.Valid() && t.height > 0
    requires forall k :: 0 <= k < |classify(RecentRow(t)).proba| ==>
      0.0 <= classify(RecentRow(t)).proba[k] <= 1.0
    requires MakePrediction(t, classify).Success?
    ensures 0.0 <= MakePrediction(t, classify).value.confidence <= 100.0
  {
    var sc := classify(RecentRow(t));
    var p := Element(sc.proba, sc.predicted).value;
    assert p in sc.proba;
  }

  /** For the usual classes 0 and 1 the confidence is the probability of the class
      that was predicted: P(up) for "SUBIR" but P(down) for "CAIR". */
  lemma ConfidenceOfPredictedClass(t: Table, classify: seq<Cell> -> Scores)
    requires t.Valid() && t.height > 0
    requires classify(RecentRow(t)).predicted in {0, 1} && |classify(RecentRow(t)).proba| == 2
    ensures var sc, r := classify(RecentRow(t)), MakePrediction(t, classify);
      && r.Success?
      && (r.value.direction == "SUBIR" ==> r.value.confidence == sc.proba[1] * 100.0)
      && (r.value.direction == "CAIR" ==> r.value.confidence == sc.proba[0] * 100.0)
  {
  }

  /** A model that has only seen class 1 reports one probability, and predicting 1
      then indexes past its end: `make_prediction` fails instead of answering. */
  lemma SingleClassFails(t: Table, classify: seq<Cell> -> Scores)
    requires t.Valid() && t.height > 0
    requires classify(RecentRow(t)).predicted == 1 && |classify(RecentRow(t)).proba| == 1
    ensures MakePrediction(t, classify) == Failure(ClassOutOfRange(1))
  {
  }

  /** The row scored is the last row of the trainer's test partition. */
  lemma ScoresLastTestRow(t: Table)
    requires t.Valid() && Trainer.TrainTestSplit(t).Success?
    ensures var xTest := Trainer.TrainTestSplit(t).value.xTest;
      RecentRow(t) == xTest[|xTest| - 1]
  {
    var sp := Trainer.TrainTestSplit(t).value;
    Trainer.LastTestRow(t);
    assert sp.features == FeatureColumns(t.names);
  }

  /** On the output of `create_features` the scored row never comes from the newest
      candle, whose `price_future` is missing; it comes from the second newest
      whenever that candle's row is complete. */
  lemma ScoredCandle(t: Table, lags: int, ind: Features.Indicators)
    requires Features.HasPrices(t) && ind.Fits(t.height)
    requires Features.FeatureTable(t, lags, ind).height > 0
    ensures var kept := Features.Featured(t, lags, ind).Kept();
      && 2 <= t.height
      && kept[|kept| - 1] <= t.height - 2
      && (Features.Featured(t, lags, ind).Complete(t.height - 2) ==> kept[|kept| - 1] == t.height - 2)
  {
    var f := Features.Featured(t, lags, ind);
    Features.LastKeptBeforeEnd(t, lags, ind);
    KeptLastBeforeEnd(f);
  }
}
