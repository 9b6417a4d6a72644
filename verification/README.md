# Macro-averaged precision, recall and F1 for Zeno group metrics

This project models the metric engine of the Zeno backend
(`backend/zeno_backend/processing/metrics/f1.py`). Each of `recall` and
`precision` runs four read-only queries against a project's table:
true positives counted per label, negatives counted per key, the total
row count, and the distinct labels. It then reduces those results in
memory to a `GroupMetric(metric, size)`. `f1` combines one precision
call and one recall call.

The database is abstracted away. Each query's result is an input
(`MetricTypes.MetricQueries`):

- the two count queries are `Option<seq<CountRow>>`, where a row is a
  `nat` count and a string group key;
- the total is `Option<Value>`, the value `num_total[0]`: the first row of
  the total result;
- the distinct labels are `Option<seq<Value>>`, the first field `label[0]`
  of each row. A field may or may not be a string.

The model takes `execute_return` to hand back every result as a list of
row tuples, the shape the code's own indexing of the other results assumes
(`label[0]`, `item[0]`, `item[1]`). The total's first row is then a
one-field tuple `(count,)`. The source tests that row itself with
`isinstance(num_total[0], int)`, which a tuple never passes; the model
reads the count `num_total[0][0]` instead (see "## Findings").

`None` stands for a query that returned nothing. Scores are Dafny `real`s.

Modules:

- `MetricTypes` (metric_types.dfy) holds the data model.
- `LabelAggregator` (label_aggregator.dfy) holds the string-label filter
  and the per-label count maps. A map starts at 0 for every label, and
  then each query row overwrites its key.
- `MetricReducer` (metric_reducer.dfy) holds the per-label ratio, the
  macro average, the shared reduction `MacroMetric`, and `Recall` and
  `Precision`.
- `F1Score` (f1_score.dfy) holds the F1 combination rule.

Recall and precision run the same reduction. They differ only in which
query fills `negatives`:

- For recall, it holds rows with output different from label, grouped by
  ground-truth label. These are the false negatives.
- For precision, it holds the same rows grouped by the predicted output
  value (f1.py:116-121). These are the false positives per predicted
  class.

Precision still looks those rows up under the ground-truth labels
(f1.py:163-165). The model keeps this behaviour as written. Its effect is
stated in `MetricReducer.UnlabelledGroupsIgnored`: a predicted value that
no row carries as its label never enters the average.

In the model, the score is null only when a query result is absent, or
when the total's first row holds no integer count. Complete results with no string label
score 0, and the size is the total (`MetricReducer.NoLabelsScoreZero`).
Results that are present but empty, with a total of 0, score 0 with size 0
(`MetricReducer.EmptyResultsScoreZero`). Whether an empty table reaches the
code in that form depends on `execute_return`, which is not modelled (see
"## Left out").

## Model

| member | source | states |
|---|---|---|
| LabelAggregator.StringLabels | backend/zeno_backend/processing/metrics/f1.py:67-70 | The label list holds at most as many entries as the label rows. A string is in it exactly when some label row is that string. |
| LabelAggregator.StringLabelsAppend | backend/zeno_backend/processing/metrics/f1.py:68-70 | Filtering the label rows distributes over concatenation, so the label list keeps the order of the rows. |
| LabelAggregator.StringLabelsSingle | backend/zeno_backend/processing/metrics/f1.py:69-70 | A row whose first field is a string contributes exactly that string. A row whose first field is anything else (an integer, NULL, ...) is dropped. |
| LabelAggregator.StringLabelsAllStrings | backend/zeno_backend/processing/metrics/f1.py:68-70 | When every label row is a string, none is dropped and the i-th label is the i-th row. |
| LabelAggregator.CollectLabels | backend/zeno_backend/processing/metrics/f1.py:67-70 | The label loop, which appends each string-valued first field, yields exactly the filtered label list. |
| LabelAggregator.LastCount | backend/zeno_backend/processing/metrics/f1.py:74-77 | A key has a count exactly when some row names it. That count comes from a row with the key that no later row with the key follows, so the last assignment wins. |
| LabelAggregator.Overlay | backend/zeno_backend/processing/metrics/f1.py:74-77 | Overwriting with the rows in order adds every row key. A key some row names gets its last row's count. Every other key keeps its earlier value. |
| LabelAggregator.CountMap | backend/zeno_backend/processing/metrics/f1.py:71-77 | Each count map has as keys the labels plus the row keys. Every label maps to its last row's count, or to 0 when no row names it. |
| LabelAggregator.BuildCountMap | backend/zeno_backend/processing/metrics/f1.py:65-77 | The two loops (zero every label, then overwrite with each row) give every label its last row's count or 0, with keys labels plus row keys. |
| MetricReducer.Ratio | backend/zeno_backend/processing/metrics/f1.py:81-84 | A label's ratio lies in [0, 1]. It is 0 when hits + misses is 0. Otherwise, multiplied by hits + misses, it gives back the hits. |
| MetricReducer.MacroAverage | backend/zeno_backend/processing/metrics/f1.py:78-86 | Ratios in [0, 1] average to a score in [0, 100]. When every label has the same ratio c, the score is 100 * c whatever the number of labels, because the mean is unweighted. |
| MetricReducer.Ratios | backend/zeno_backend/processing/metrics/f1.py:78-84 | There is one ratio per label, and each lies in [0, 1]. |
| MetricReducer.MacroMetric | backend/zeno_backend/processing/metrics/f1.py:56-88 | Any absent query result, or a total row without an integer count, gives exactly (null, 0), whatever the other results are. Otherwise the size is the count `num_total[0][0]`, and the score is the macro average of the per-label ratios read straight from the rows (last row per key wins, 0 by default). |
| MetricReducer.MacroMetricBounds | backend/zeno_backend/processing/metrics/f1.py:78-88 | Every non-null score lies in [0, 100]. |
| MetricReducer.NoLabelsScoreZero | backend/zeno_backend/processing/metrics/f1.py:85-88 | Complete results with no string label score 0, not null, and the size is the total. |
| MetricReducer.CountOfIgnoresOtherKeys | backend/zeno_backend/processing/metrics/f1.py:74-77 | Appending rows that never name a label leaves that label's count unchanged. |
| MetricReducer.SameLabelCountsSameMetric | backend/zeno_backend/processing/metrics/f1.py:74-84 | Two complete results that agree on labels, total, and each label's two counts give the same GroupMetric. Keys outside the labels do not matter. |
| MetricReducer.UnlabelledGroupsIgnored | backend/zeno_backend/processing/metrics/f1.py:159-165 | Adding count groups whose key is no string label changes nothing. For precision, false positives of a predicted value that is never a ground-truth label are not averaged in. |
| MetricReducer.AllZeroCountsScoreZero | backend/zeno_backend/processing/metrics/f1.py:78-88 | When every label has zero hits and zero misses, the score is 0, not null. |
| MetricReducer.NoMissesScoreHundred | backend/zeno_backend/processing/metrics/f1.py:78-88 | When every label has hits and no misses, the score is 100. |
| MetricReducer.CatDogRecall | backend/zeno_backend/processing/metrics/f1.py:64-88 | Labels cat and dog with true positives 8 and 5 and false negatives 2 and 5 give a recall of 65, with the total as size. |
| MetricReducer.AverageRatios | backend/zeno_backend/processing/metrics/f1.py:78-88 | The loop over the labels, which accumulates per-label ratios from the two maps, yields their macro average, a score in [0, 100]. |
| MetricReducer.ComputeMacroMetric | backend/zeno_backend/processing/metrics/f1.py:56-88 | The whole reduction, run loop by loop, equals the functional reduction. It is null exactly when the results are incomplete. |
| MetricReducer.Recall | backend/zeno_backend/processing/metrics/f1.py:56-88 | Recall is null exactly when a result is absent or the total row holds no integer count. The size is that count, or 0 in the null case. Otherwise the score is the macro average over the string labels of tp / (tp + fn), each count being that of the label's last group, or 0 when there is none; it lies in [0, 100]. |
| MetricReducer.Precision | backend/zeno_backend/processing/metrics/f1.py:141-173 | Precision is null, with size 0, exactly when a result is absent or the total row holds no integer count. Otherwise the size is that count. The score is the macro average over ground-truth labels of tp / (tp + fp), where fp is the count of the last false-positive group whose PREDICTED value equals that label, or 0 when there is none. A non-null precision lies in [0, 100]. |
| MetricReducer.MacroMetricAsWritten | backend/zeno_backend/processing/metrics/f1.py:56-63 | With the guard and size as written, a total whose first row is a tuple gives exactly (null, 0), whatever the other results hold. A non-null score needs a bare integer in that place, which is then the size, and complete results with a bare integer there always score. |
| MetricReducer.AsWrittenRejectsEveryCount | backend/zeno_backend/processing/metrics/f1.py:56-63 | On every complete result, the intended reading gives a score with the count as size, while the guard as written gives (null, 0). |
| MetricReducer.CatDogAsWritten | backend/zeno_backend/processing/metrics/f1.py:56-88 | With the total returned as the row `(total,)`, the cat/dog example scores 65 under the intended reading and (null, 0) as written. |
| MetricReducer.EmptyResultsScoreZero | backend/zeno_backend/processing/metrics/f1.py:64-88 | Present but empty results (no count rows, no label rows, a total of 0) give recall and precision of 0, not null, with size 0. |
| F1Score.Combine | backend/zeno_backend/processing/metrics/f1.py:192-203 | The size is always precision's size. F1 is null exactly when a component is null or both are 0. Otherwise p + r > 0 and h * (p + r) == 2 * p * r. |
| F1Score.HarmonicMeanBetween | backend/zeno_backend/processing/metrics/f1.py:199-203 | For non-negative p and r that are not both 0, 2pr/(p+r) lies between min(p, r) and max(p, r). |
| F1Score.CombineBetween | backend/zeno_backend/processing/metrics/f1.py:199-203 | A non-null F1 lies between the precision and recall scores. |
| F1Score.F1 | backend/zeno_backend/processing/metrics/f1.py:190-203 | The size equals precision's size: the precision total, or 0. Incomplete results on either side give a null F1. A non-null F1 lies in [0, 100] and between precision and recall. |
| F1Score.F1IncompletePrecision | backend/zeno_backend/processing/metrics/f1.py:190-198 | Incomplete precision results give exactly (null, 0), whatever recall's results are. |
| F1Score.F1Characterised | backend/zeno_backend/processing/metrics/f1.py:192-198 | F1 is non-null exactly when both sides are complete and precision and recall are not both 0. |
| F1Score.AllZeroCountsNullF1 | backend/zeno_backend/processing/metrics/f1.py:192-198 | When every label on both sides has zero counts, both components score 0. F1 is then null, with precision's total as size. |
| F1Score.EightySixtyFive | backend/zeno_backend/processing/metrics/f1.py:199-203 | Precision 80 and recall 65 give an F1 of 10400/145 (about 71.72), with precision's size. |

## Left out

- Query construction is not modelled: the psycopg `sql.Composed` building, the optional filter clause, and identifier quoting (f1.py:23-55). Each query's result is an input instead.
- The `Database()` context manager and `execute_return` are I/O, and `backend/zeno_backend/database/database.py` is not part of this model. So a datastore failure, which the source lets propagate, has no counterpart here. So does the exact row shape `execute_return` hands back.
- `column_id_from_name_and_model` resolves a column name to an opaque identifier that only the queries use, so it is not modelled.
- The model assumes one result shape for every query: a list of row tuples. `backend/zeno_backend/database/database.py` is not part of this model, so the shape is not derived from it. If one-column results arrived as bare values instead, `label[0]` (f1.py:69, f1.py:154) would be the first character of each label, and a NULL label would raise `TypeError`; `StringLabels`, which reads whole first fields, does not model that shape.
- `Recall`, `Precision` and `F1` use the corrected total reading `num_total[0][0]`, not the guard as written; the as-written behaviour is `MetricReducer.MacroMetricAsWritten` (see "## Findings"). A bare integer in place of the total row, which a row-returning datastore never produces, is treated as having no count and gives (null, 0): the corrected reading would raise `TypeError` on `num_total[0][0]`. The source as written passes its `isinstance` test and scores such an input, with that integer as size (`MetricReducer.MacroMetricAsWritten`).
- A present but empty total result would raise `IndexError` in the source. It is not represented, because a `COUNT(*)` query always yields one row.
- What an empty table produces depends on `execute_return`: `None` for an empty GROUP BY or DISTINCT result gives (null, 0), an empty list gives a score of 0. The model covers both inputs but does not decide which one the datastore delivers.
- Python's `bool` passes `isinstance(..., int)`. A boolean total is not represented.
- Counts are `nat`, because SQL `COUNT(*)` is never negative. With negative counts, F1's `p + r` could be 0 while p and r are not both 0, and the source would raise `ZeroDivisionError`. For the same reason, `F1Score.Combine` requires non-negative component scores.
- Group keys are strings. A group keyed by SQL NULL, or by any other non-string value, cannot be represented. In the source it would land in the dict under a non-string key, and only string labels are ever looked up (f1.py:78-80).
- IEEE float rounding is not modelled: ratios and scores are exact reals.
- The other files of the repository are not part of this model. These are the FastAPI project routes (`backend/zeno_backend/routers/project.py`), the frontend cookie refresh (`frontend/src/lib/util/userCookieRefresh.ts`), the generated `User` type, and the SvelteKit page loaders. They are I/O, authentication and CRUD glue with no computed result.

## Findings

| source | as written | input that shows it | evidently intended | confidence | as-written member | corrected member |
|---|---|---|---|---|---|---|
| backend/zeno_backend/processing/metrics/f1.py:56-63 | `isinstance(num_total[0], int)` tests the first row of the total result, and `size=num_total[0]` (line 87) reports that row; precision repeats both (lines 146 and 172) | total result `[(20,)]` with labels cat and dog, true positives 8 and 5, false negatives 2 and 5: the row `(20,)` is not an `int`, so recall is (null, 0) (`MetricReducer.CatDogAsWritten`) | test and report the count `num_total[0][0]`, giving recall 65 with size 20 (`MetricReducer.CatDogRecall`) | medium, not executed; depends on `execute_return` returning rows, as the other results are indexed | MetricReducer.MacroMetricAsWritten | MetricReducer.MacroMetric |
