# Candle feature pipeline of a binary-option signal bot

This project models the deterministic core of a trading-signal bot and proves properties of that model in Dafny. The intended flow of one tick is as follows:

- take a series of Open/High/Low/Close/Volume candles;
- add lag returns, technical indicators, four candlestick-pattern columns and an up/down label;
- drop every row with a missing value;
- cut the result chronologically into a training and a test part, and rank the feature importances of a random forest;
- score the newest row with the fitted model.

src/log_handler.py holds the helpers for a log entry with the direction, the pattern messages and the expiry time. main.py does not import src/log_handler.py, so the tick in main.py never reaches these helpers.

As written, the pipeline does not get past its first step. main.py:37 calls `fetch_data` with three arguments, but src/data_handler.py:7 accepts two. Every tick therefore raises `TypeError`, and the generic handler at main.py:54 catches it. The model describes each step as its own function would behave when called.

The modules follow the source files:

| module | file | what it holds |
|---|---|---|
| `Wrappers` | wrappers.dfy | `Option` and `Result`. |
| `Decimal` | decimal.dfy | Decimal text of naturals: the `lag_{i}` names and `int(digits)`. |
| `Frame` | frame.dfy | A pandas frame. It exists as a value (`Table`) and as an object updated in place (`DataFrame`). Also holds column assignment, the name filter of a list comprehension, and `dropna()`. |
| `Patterns` | patterns.dfy | `is_engulfing`, `is_pin_bar`, `is_inside_bar`, `is_marubozu` (src/feature_engineering.py). |
| `Features` | features.dfy | `create_features` as a method that writes the columns into a `DataFrame` one at a time. `Featured` and `FeatureTable` are the functions that specify it, and the lemmas say which rows survive `dropna()` and what they hold. |
| `Trainer` | trainer.dfy | The data handling of `train_model`: the feature list, the split index, the slicing, the empty-partition error and the sorted importances. |
| `Predictor` | predictor.dfy | `make_prediction`: the same feature list, the last row, the direction and the confidence. |
| `LogHandler` | log_handler.dfy | `format_prediction`, `get_pattern_messages` as a loop, and the interval and expiry arithmetic of `log_operation`. |

Modelling choices:

- Prices are `real` and a missing (NaN) cell is `None`. Any comparison with a missing value is false, as in pandas.
- The EMA and RSI columns come from the `ta` library. They are parameters (`Features.Indicators`), and their early rows may be missing.
- The random forest is a parameter. The trainer takes a function that returns the importances. The predictor takes a function that returns the predicted class and the class probabilities for one row.

Where the system's specification and its code disagree, the model follows the code:

- The specification puts the first `ceil(0.8 n)` rows in the training part. `int(len(X) * (1 - 0.2))` takes the floor, so `Trainer.SplitIndex` is `(4 n) / 5`. The double nearest 0.8 lies just above 4/5, so the floor is the same as for the exact product.
- The specification lets the newest candle reach the predictor without a label. In the code its `price_future` is NaN, so `dropna()` always removes it (`Features.FeatureRow`). The scored row is therefore at best the second newest candle (`Predictor.ScoredCandle`).
- The specification's three-candle scenario asks for `target == 1` on the second candle, whose next close is lower. The `target` column the code writes before `dropna()` holds 0 there (`Features.TargetScenario`, with `Features.FeaturedFixed` placing that column in the frame). After `dropna()` a three-candle series keeps no row at all: the 100-candle EMA and the 14-candle RSI are missing on every one of its candles, and a candle with a missing indicator is dropped (`Features.FeatureRowKept`).
- `target` is `np.where(price_future > Close, 1, 0)`. On the final candle it is 0, not missing, because the comparison with NaN is false.

## Model

| member | source | states |
|---|---|---|
| Patterns.Engulfing | src/feature_engineering.py:6-16 | 1 exactly for a bullish engulfing (a bearish prior body with a bullish body that closes above the prior open and opens below the prior close), -1 exactly for the mirror case, 0 exactly when neither holds; there is no prior candle for the first one |
| Patterns.EngulfingExclusive | src/feature_engineering.py:13-16 | the bullish and bearish conditions never hold together, so the order of `np.select` is irrelevant |
| Patterns.PinBar | src/feature_engineering.py:18-31 | 1 exactly for a hammer (`High-Close > 2 body` and `Open-Low < body`), -1 exactly for a shooting star, 0 exactly for neither |
| Patterns.PinBarExclusive | src/feature_engineering.py:20-31 | hammer and shooting star exclude each other |
| Patterns.PinBarZeroBody | src/feature_engineering.py:20-31 | a well-formed candle with no body is not a pin bar |
| Patterns.InsideBar | src/feature_engineering.py:33-41 | 0 or 1, and 1 exactly when the high is below and the low above the previous candle's |
| Patterns.Marubozu | src/feature_engineering.py:43-51 | 1 exactly for a rising candle whose body/range exceeds 0.95, -1 for a falling one, 0 otherwise; a zero range follows the float division (`x/0` is infinity, `0/0` is NaN) |
| Patterns.MarubozuWellFormed | src/feature_engineering.py:45-51 | on a well-formed candle a zero range gives 0 and no fault, and the sign is ±1 exactly when the body exceeds 95% of the range in that direction |
| Patterns.EngulfingColumn | src/feature_engineering.py:6-16 | one value per candle, each the detector on that candle and its predecessor, 0 on the first candle |
| Patterns.PinBarColumn | src/feature_engineering.py:18-31 | one value per candle, each the detector on that candle |
| Patterns.InsideBarColumn | src/feature_engineering.py:33-41 | one value per candle, each the detector on that candle and its predecessor, 0 on the first candle |
| Patterns.MarubozuColumn | src/feature_engineering.py:43-51 | one value per candle, each the detector on that candle |
| Patterns.DetectorRanges | src/feature_engineering.py:6-51 | engulfing, pin bar and marubozu lie in {-1, 0, 1}, inside bar in {0, 1}, at every candle |
| Decimal.NatToString | src/feature_engineering.py:67 | `f'{i}'` is a non-empty string of digits without a leading zero |
| Decimal.ValueOfNatToString | src/log_handler.py:65 | reading the rendering of `n` back with `int` gives `n` |
| Decimal.NatToStringInjective | src/feature_engineering.py:66-67 | distinct lag numbers have distinct renderings |
| Decimal.ValueLeadingZero | src/log_handler.py:65 | a leading zero does not change the value (`int("05") == 5`) |
| Frame.Table.With | src/feature_engineering.py:67 | `df[name] = values` keeps the frame well-formed, replaces an existing column in place or appends a new name at the end, and changes only that column |
| Frame.DataFrame.SetColumn | src/feature_engineering.py:67 | the frame object afterwards is the old frame with that one column written |
| Frame.DataFrame.SetColumns | src/feature_engineering.py:70-83 | the frame object afterwards is the old frame with the columns written one after another |
| Frame.WithAll | src/feature_engineering.py:65-83 | a sequence of `df[name] = values` assignments, applied in order, keeps the frame well-formed and its row count; what each name then holds is stated by the lemmas below |
| Frame.WithAllAppend | src/feature_engineering.py:65-83 | writing one batch of columns and then another is writing both in order |
| Frame.WithAllWritten | src/feature_engineering.py:65-83 | after writing distinct names, each name holds the column written for it |
| Frame.WithAllOther | src/feature_engineering.py:65-83 | a column that is not written keeps its values, and its presence is unchanged |
| Frame.WithAllNames | src/feature_engineering.py:65-83 | new distinct names are appended in the order they are written |
| Frame.CompleteAfterWithAll | src/feature_engineering.py:65-86 | after new columns are written, a row has no gap exactly when it had none before and every new column has a value there |
| Frame.Table.KeptRows | src/feature_engineering.py:86 | the complete rows, ascending, each of them included, at most one per row |
| Frame.DropNa | src/feature_engineering.py:86 | `dropna()` keeps the column names, and its row count is the number of complete rows |
| Frame.DropNaRows | src/feature_engineering.py:86 | a row survives iff it is complete; survivors keep their order and their values; no missing cell is left |
| Frame.DropNaCell | src/feature_engineering.py:86 | cell `j` of a column after `dropna()` is that column's cell at the `j`-th complete row, and it is present |
| Frame.KeptLastBeforeEnd | src/feature_engineering.py:82-86 | when the final row is not kept, the last kept row is at most the second last, and it is the second last whenever that row is complete |
| Frame.Table.Row | src/predictor.py:22 | `df[fs].iloc[r]` holds the cells of the columns `fs` at row `r`, in the order of `fs` |
| Frame.WithoutMembers | src/model_trainer.py:22 | the comprehension keeps exactly the names outside the excluded list, and distinct names stay distinct |
| Frame.WithoutAppend | src/model_trainer.py:22 | the comprehension filters name by name, so it keeps the relative order |
| Features.LagName | src/feature_engineering.py:67 | every lag name starts with `lag_` followed by at least one character |
| Features.LagNames | src/feature_engineering.py:66-67 | `range(1, lags + 1)` gives exactly `lags` names `lag_1 .. lag_lags` (none when `lags <= 0`) |
| Features.AddedNamesDistinct | src/feature_engineering.py:66-83 | the lag names and the ten fixed names are pairwise distinct |
| Features.PctChange | src/feature_engineering.py:67 | `Close.pct_change(periods=i)`: missing on the first `i` candles, and `Close[r] / Close[r-i] - 1` from candle `i` on |
| Features.PriceFuture | src/feature_engineering.py:82 | `Close.shift(-1)`: every candle but the last holds the next close, and the last holds a missing value |
| Features.Target | src/feature_engineering.py:83 | every cell is 0 or 1; before the final candle it is 1 exactly when the next close is higher; on the final candle it is 0, since a comparison with NaN is false |
| Features.TargetScenario | src/feature_engineering.py:82-83 | closes 1.1, 1.25, 1.22 give the labels 1, 0, 0 |
| Features.LagColumns | src/feature_engineering.py:66-67 | one column per lag name, column `i` being `Close.pct_change(periods=i)` |
| Features.Featured | src/feature_engineering.py:65-83 | after all the columns are written the frame is well-formed and keeps its row count |
| Features.FeatureTable | src/feature_engineering.py:86-88 | the returned frame is well-formed, has every column of the built frame, and has no more rows than the input |
| Features.FeatureTableDropsLast | src/feature_engineering.py:82-88 | for a non-empty input the returned frame has strictly fewer rows, because the final candle has no `price_future` |
| Features.AddLags | src/feature_engineering.py:66-67 | the lag loop leaves the frame as the old frame with `lag_1 .. lag_lags` written in that order |
| Features.CreateFeatures | src/feature_engineering.py:54-88 | the caller's frame ends up with the lag, indicator, pattern and label columns written in source order, and the result is that frame after `dropna()` |
| Features.FeaturedColumn | src/feature_engineering.py:65-83 | before `dropna()` each written name holds the column its step computed |
| Features.FeaturedLag | src/feature_engineering.py:66-67 | before `dropna()` `lag_i` is `Close[t] / Close[t-i] - 1`, missing for `t < i` |
| Features.FeaturedFixed | src/feature_engineering.py:70-83 | before `dropna()` each indicator, pattern and label column holds what its step computed |
| Features.FeaturedOther | src/feature_engineering.py:65-83 | a column `create_features` does not write keeps its values |
| Features.FeaturedNames | src/feature_engineering.py:65-83 | on an OHLCV frame the new names follow the old ones: exactly `lags` lag columns, then the ten fixed ones |
| Features.LabelsAfterDropNa | src/feature_engineering.py:82-86 | a surviving row has a successor; its `price_future` is the next close and its `target` is 1 exactly when the next close is higher |
| Features.LagAfterDropNa | src/feature_engineering.py:66-86 | a surviving row has at least `i` predecessors, and its `lag_i` is its `i`-period return |
| Features.FeatureRow | src/feature_engineering.py:82-86 | output row `j` comes from a candle with `lags` predecessors and a successor (so the final candle is always dropped); `price_future` is the next close; `target` is 1 iff the next close is higher |
| Features.LastKeptBeforeEnd | src/feature_engineering.py:82-86 | when rows are returned, the last one comes from a candle that has a successor |
| Features.FeatureRowLag | src/feature_engineering.py:66-86 | column `lag_i` of output row `j` is the `i`-period return of its candle |
| Features.LagColumnsPresent | src/feature_engineering.py:66-67 | all lag columns have a value at candle `r` exactly when `lags <= r` |
| Features.FixedColumnsPresent | src/feature_engineering.py:70-83 | the fixed columns all have a value at candle `r` exactly when the indicators are defined there and `r` is not the final candle; the pattern columns and `target` are never missing |
| Features.FeatureRowKept | src/feature_engineering.py:65-86 | on an OHLCV frame candle `r` survives exactly when it has `lags` predecessors and a successor, the indicators are defined there, and the input row is complete |
| Trainer.FeatureColumns | src/model_trainer.py:22 | the comprehension is a filter and is never longer than the column list; its members, distinctness and order are stated by the next two rows |
| Trainer.FeatureColumnsMembers | src/model_trainer.py:21-22 | the features are exactly the columns outside the seven excluded names, each once; `target` and `price_future` are never features |
| Trainer.FeatureColumnsOrder | src/model_trainer.py:22 | the feature list keeps the column order |
| Trainer.FixedFeatures | src/model_trainer.py:21-22 | of the ten fixed columns the four indicators and the four patterns are features, in that order |
| Trainer.LagFeatures | src/model_trainer.py:21-22 | every lag column is a feature |
| Trainer.AddedFeatures | src/model_trainer.py:21-22 | of the written columns the features are the lags, then the indicators, then the patterns |
| Trainer.FeaturesOfNames | src/model_trainer.py:21-22 | after price and volume columns, the written names are all new and the features are the lags, indicators and patterns in writing order |
| Trainer.FeaturesOfCreatedFrame | src/model_trainer.py:21-22 | on the frame `create_features` builds from an OHLCV frame, the features are `lag_1..lag_lags`, the indicators and the patterns, in that order |
| Trainer.SplitIndex | src/model_trainer.py:27-28 | the split index is the floor of `4n/5` |
| Trainer.SplitIndexInside | src/model_trainer.py:27-34 | both partitions are non-empty exactly when `n >= 2` |
| Trainer.Matrix | src/model_trainer.py:23 | `X = df[features]` has one row per frame row, each being that row's feature cells |
| Trainer.TrainTestSplit | src/model_trainer.py:21-34 | a frame without `target` fails with a missing column; otherwise the result fails exactly when `n <= 1`, and then with `NotEnoughData` (the `ValueError`); on success the partitions have the split index and the rest as lengths, with the features as listed |
| Trainer.SplitParts | src/model_trainer.py:30-31 | the partitions are the prefix and the suffix of X and y at the split index |
| Trainer.SplitPartition | src/model_trainer.py:30-31 | train followed by test is the whole of X and the whole of y |
| Trainer.SplitAligned | src/model_trainer.py:30-31 | X and y are cut at the same index, so every partition row keeps its own label |
| Trainer.LastTestRow | src/model_trainer.py:30 | the last test row is the last row of the frame |
| Trainer.SplitChronological | src/model_trainer.py:30-31 | on the output of `create_features` every training row comes from an earlier candle than every test row |
| Trainer.Insert | src/model_trainer.py:45 | inserting into a sorted ranking keeps it sorted and adds exactly the one entry |
| Trainer.SortDesc | src/model_trainer.py:45 | `sort_values(ascending=False)` is non-increasing and a permutation of its input |
| Trainer.Pair | src/model_trainer.py:45 | `pd.Series(values, index=features)` pairs the `k`-th feature with the `k`-th value |
| Trainer.RankImportances | src/model_trainer.py:45 | fails exactly when there is not one value per feature; otherwise the ranking is non-increasing and a permutation of the feature/value pairs |
| Trainer.TrainModel | src/model_trainer.py:8-53 | a split error propagates unchanged; otherwise the report holds the split and a ranking that is sorted and a permutation of the importances, failing only when their number does not match the features |
| Predictor.FeatureColumns | src/predictor.py:18-19 | the predictor's own exclusion list selects the very columns, in the very order, that the trainer's does |
| Predictor.Element | src/predictor.py:32 | numpy indexing: defined exactly for `-len <= i < len`, negative indices counting from the end |
| Predictor.Direction | src/predictor.py:31 | "SUBIR" exactly when the predicted class is 1, "CAIR" otherwise |
| Predictor.RecentRow | src/predictor.py:22 | the last row has one cell per feature |
| Predictor.MakePrediction | src/predictor.py:5-32 | an empty frame fails; otherwise the last row is scored, the result fails exactly when the predicted class is no index into the probabilities, and on success it holds the direction and `probabilities[prediction] * 100` |
| Predictor.ConfidencePercent | src/predictor.py:32 | with probabilities in [0, 1] the confidence is in [0, 100] |
| Predictor.ConfidenceOfPredictedClass | src/predictor.py:31-32 | for classes 0/1 the confidence is P(up) for "SUBIR" and P(down) for "CAIR", not always P(up) |
| Predictor.SingleClassFails | src/predictor.py:28-32 | a model that reports only one probability and predicts class 1 makes the read-out fail |
| Predictor.ScoresLastTestRow | src/predictor.py:22 | the scored row is the trainer's last test row |
| Predictor.ScoredCandle | src/predictor.py:22 | on the output of `create_features` the scored row never comes from the newest candle, and it comes from the second newest whenever that candle's row is complete |
| LogHandler.Upper | src/log_handler.py:8 | each letter `a`-`z` becomes its own capital, the dotless i becomes `I`, the long s becomes `S`, and every other character is kept |
| LogHandler.UpperString | src/log_handler.py:8 | `upper()` works character by character and keeps the length |
| LogHandler.UpperStringIdempotent | src/log_handler.py:8-10 | upper-casing twice is upper-casing once |
| LogHandler.FormatPrediction | src/log_handler.py:6-12 | CALL/BUY/SUBIR in any case give "subir ⬆️", PUT/SELL/CAIR give "descer ⬇️", anything else is returned unchanged |
| LogHandler.FormatIdempotent | src/log_handler.py:6-12 | formatting a formatted direction changes nothing |
| LogHandler.FormatIgnoresCase | src/log_handler.py:8-10 | two spellings of a keyword that agree after `upper()` format alike |
| LogHandler.UpperOfSpelling | src/log_handler.py:8 | `upper()` turns every spelling of a capitalised word, with each letter in either case, into that word |
| LogHandler.FormatAnySpelling | src/log_handler.py:8-11 | every mix of cases of CALL/BUY/SUBIR gives "subir ⬆️", and every mix of cases of PUT/SELL/CAIR gives "descer ⬇️" |
| LogHandler.FormatExamples | src/log_handler.py:6-12 | "SUBIR" and "call" go up, "Cair" and "sell" go down, "hold" is kept |
| LogHandler.EntryMessages | src/log_handler.py:25-33 | one dict entry gives at most one message: the bullish one for value 1, the bearish one for -1, "Inside Bar" for `inside_bar` with value 1, nothing otherwise |
| LogHandler.GetPatternMessages | src/log_handler.py:14-38 | the loop returns the entries' messages in iteration order, or exactly the default message when there are none |
| LogHandler.Collected | src/log_handler.py:25-33 | the messages of the entries in iteration order, at most one per entry |
| LogHandler.CollectedStep | src/log_handler.py:25-33 | handling one more entry appends exactly that entry's messages |
| LogHandler.CollectedAppend | src/log_handler.py:25-33 | messages follow the order of the entries |
| LogHandler.CollectedNotDefault | src/log_handler.py:35-38 | no pattern message is the default one, so the default appears exactly when no entry matched |
| LogHandler.CollectedExample | src/log_handler.py:19-33 | an engulfing of value 1, an inside bar, a flat marubozu and an unknown key give the bullish engulfing message and "Inside Bar" |
| LogHandler.Digits | src/log_handler.py:65 | the filter keeps only digits and never lengthens the text |
| LogHandler.DigitsAppend | src/log_handler.py:65 | the filter works character by character |
| LogHandler.DigitsOfDigits | src/log_handler.py:65 | digits pass whole; text without digits leaves nothing |
| LogHandler.IntervalMinutes | src/log_handler.py:63-67 | the number the digits spell, or 1 when there is no digit or more digits than `int` converts (4300); both are the `ValueError` fallback |
| LogHandler.IntervalOfTimeframe | src/log_handler.py:64-67 | a timeframe holding the number `n` and no other digit denotes `n` minutes, or 1 minute when `n` has more than 4300 digits |
| LogHandler.IntervalExamples | src/log_handler.py:63-67 | "M5" is 5, "15m" is 15, "M" is 1, and "1h" is 1, since the unit letter is ignored |
| LogHandler.ExpiryTime | src/log_handler.py:69 | the expiry is never before the entry and lies a whole number of minutes after it |
| LogHandler.ExpiryOfTimeframe | src/log_handler.py:63-69 | the expiry is exactly the timeframe's number of minutes after the entry, or one minute after it when that number has more than 4300 digits |

## Left out

- main.py is not part of this model: the scheduler loop, configuration loading and the catch-all error handling at the tick boundary.
- src/data_handler.py is not part of this model: it is a network client for market data.
- EMA and RSI (src/feature_engineering.py:70-73) are numerical routines of the `ta` library. They enter only as given columns, whose missing early rows decide which rows `dropna()` keeps.
- The random forest is left out: its fitting, `predict`, `predict_proba`, `accuracy_score`, the classification report, and `joblib.dump`/`joblib.load` with `os.makedirs`. These are foreign library calls and file I/O, so the model takes functions that stand for them.
- Printing is left out: the previews and the printed prediction in `make_prediction`, the log text, the time zone conversion and the `strftime` formatting in `log_operation`.
- LogHandler.ExpiryTime: times are whole seconds, and time zones and wall-clock formatting are not modelled. The range of Python's `datetime` is not modelled either. `timedelta(minutes=m)` raises `OverflowError` beyond 999999999 days, and so does adding it to a time when the result passes year 9999; for a timeframe such as "M5000000000" `log_operation` raises, while the model returns a time.
- `log_operation` builds its message by appending lines in a loop. Only what goes into that message is modelled: the formatted direction, the pattern messages, and the interval and expiry.
- Features.HasPrices: every Open, High, Low and Close cell is taken to be present, as the market-data source delivers complete candles; the source itself checks nothing. With a missing Open, the detectors would give 0 at that candle (comparisons with NaN are false) and `dropna()` would drop its row. With a missing Close, `pct_change` would fill it forward under pandas' default `fill_method`. Neither case is modelled.
- Floating point is left out. Prices are exact reals, and every close must be positive so that `pct_change` never divides by zero; the infinities and NaNs a zero close would create are not modelled. Marubozu's division by a zero range is the one float case that is modelled.
- LogHandler.Upper: `str.upper()` is modelled only for characters whose upper case is an ASCII letter (`a`-`z`, dotless i, long s). That is enough to decide membership in the keyword lists. Characters that upper-case to several characters (such as `ß`) or to other non-ASCII letters are kept unchanged.
- LogHandler.IntervalMinutes: the digit limit is CPython's default of 4300 (Python 3.11 and later, and the security releases of 3.7 to 3.10). Older interpreters have no limit, and `PYTHONINTMAXSTRDIGITS` or `sys.set_int_max_str_digits` can change it; the model fixes it at 4300.
- LogHandler.Digits: `str.isdigit` is modelled for ASCII digits only. Other Unicode digits would also pass Python's filter.
- Trainer.SortDesc: pandas' default sort is not stable. Only the non-increasing order and the permutation are promised, not the order among equal importances.
- The pattern dict of `get_pattern_messages` is given as its list of items in iteration order. Its values are integers, as the pattern columns produce.
- `Close.shift(-1)` and `shift(1)` over a frame with a date index are modelled by position. The frame's index labels are not modelled.
