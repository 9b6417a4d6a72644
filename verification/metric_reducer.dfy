/**
 Macro-averaged recall and precision. Both metrics run the same reduction
 over their four query results; they differ only in which query filled
 `negatives`. Recall's rows count false negatives per ground-truth label.
 Precision's rows count false positives per PREDICTED output value, and are
 still looked up with the ground-truth labels, so a predicted value that is
 never a ground-truth label takes no part in the average.
 */
module MetricReducer {
  import opened MetricTypes
  import opened LabelAggregator

  /** One label's ratio: hits / (hits + misses), or 0 when both are 0. */
  function Ratio(hits: nat, misses: nat): (r: real)
    ensures 0.0 <= r <= 1.0
    ensures hits + misses == 0 ==> r == 0.0
    ensures hits + misses > 0 ==> r * (hits + misses) as real == hits as real
  {
    if hits + misses == 0 then 0.0
    else (hits as real) / ((hits + misses) as real)
  }

  /** The sum of a list of scores, added left to right. */
  function Sum(xs: seq<real>): real
  {
    if |xs| == 0 then 0.0 else Sum(xs[..|xs| - 1]) + xs[|xs| - 1]
  }

  predicate InUnitInterval(xs: seq<real>)
  {
    forall i :: 0 <= i < |xs| ==> 0.0 <= xs[i] <= 1.0
  }

  /** A sum of values in [0, 1] lies between 0 and the number of values. */
  lemma {:induction false} SumBounds(xs: seq<real>)
    requires InUnitInterval(xs)
    ensures 0.0 <= Sum(xs) <= |xs| as real
    decreases |xs|
  {
    if |xs| > 0 {
      SumBounds(xs[..|xs| - 1]);
    }
  }

  /** The sum of n copies of c is n * c. */
  lemma {:induction false} SumConstant(xs: seq<real>, c: real)
    requires forall i :: 0 <= i < |xs| ==> xs[i] == c
    ensures Sum(xs) == |xs| as real * c
    decreases |xs|
  {
    if |xs| > 0 {
      SumConstant(xs[..|xs| - 1], c);
    }
  }

  /** What the macro average needs to know about a sum: values in [0, 1]
      sum to between 0 and their number, and n copies of c sum to n * c. */
  lemma SumFacts(xs: seq<real>)
    ensures InUnitInterval(xs) ==> 0.0 <= Sum(xs) <= |xs| as real
    ensures |xs| > 0 && (forall i :: 0 <= i < |xs| ==> xs[i] == xs[0]) ==>
      Sum(xs) == |xs| as real * xs[0]
  {
    if InUnitInterval(xs) {
      SumBounds(xs);
    }
    if |xs| > 0 {
      var c := xs[0];
      if forall i :: 0 <= i < |xs| ==> xs[i] == c {
        SumConstant(xs, c);
        assert Sum(xs) == |xs| as real * c;
      }
    }
  }

  /** The unweighted mean of the per-label ratios, as a percentage; an empty
      list of ratios scores 0. Ratios in [0, 1] give a score in [0, 100], and
      labels that all share one ratio c give 100 * c whatever their number. */
  function MacroAverage(ratios: seq<real>): (score: real)
    ensures InUnitInterval(ratios) ==> 0.0 <= score <= 100.0
    ensures |ratios| > 0 && (forall i :: 0 <= i < |ratios| ==> ratios[i] == ratios[0]) ==>
      score == 100.0 * ratios[0]
  {
    SumFacts(ratios);
    if |ratios| > 0 then 100.0 * Sum(ratios) / |ratios| as real else 0.0
  }

  /** The per-label ratios read from the two count maps, in label order. */
  function Ratios(labels: seq<string>, hits: map<string, nat>, misses: map<string, nat>): (rs: seq<real>)
    requires forall l :: l in labels ==> l in hits && l in misses
    ensures |rs| == |labels|
    ensures InUnitInterval(rs)
  {
    seq(|labels|, i requires 0 <= i < |labels| => Ratio(hits[labels[i]], misses[labels[i]]))
  }

  /** Reference definition of the per-label ratios, read straight from the
      query rows (last row per key wins, 0 by default) with no maps at all. */
  function RowRatios(labels: seq<string>, hitRows: seq<CountRow>, missRows: seq<CountRow>): seq<real>
  {
    seq(|labels|, i requires 0 <= i < |labels| =>
      Ratio(CountOf(hitRows, labels[i]), CountOf(missRows, labels[i])))
  }

  /** The count held by the first row of the total result, `num_total[0][0]`:
      present when that row is a tuple whose first field is an integer. */
  function TotalCount(row: Value): Option<int>
  {
    if row.Tuple? && |row.fields| > 0 && row.fields[0].IntV? then Some(row.fields[0].i) else None
  }

  /** The guard both metrics apply before reducing: every query returned a
      result and the total row holds an integer count. */
  predicate Complete(q: MetricQueries)
  {
    && q.truePositives.Some?
    && q.negatives.Some?
    && q.total.Some?
    && q.labelRows.Some?
    && TotalCount(q.total.value).Some?
  }

  /** The row count of the filtered group, read from complete results. */
  function Total(q: MetricQueries): int
    requires Complete(q)
  {
    TotalCount(q.total.value).value
  }

  /** The reduction shared by recall and precision, with the corrected total
      reading `num_total[0][0]`: labels, then the two count maps, then the
      macro average. */
  function MacroMetric(q: MetricQueries): (g: GroupMetric)
    ensures q.truePositives.None? || q.negatives.None? || q.total.None? || q.labelRows.None?
      ==> g == GroupMetric(None, 0)
    ensures q.total.Some? && TotalCount(q.total.value).None? ==> g == GroupMetric(None, 0)
    ensures Complete(q) ==> g.size == Total(q)
    ensures Complete(q) ==>
      g.metric == Some(MacroAverage(RowRatios(StringLabels(q.labelRows.value),
                                              q.truePositives.value, q.negatives.value)))
  {
    if !Complete(q) then GroupMetric(None, 0)
    else
      var labels := StringLabels(q.labelRows.value);
      var tpMap := CountMap(labels, q.truePositives.value);
      var negMap := CountMap(labels, q.negatives.value);
      assert Ratios(labels, tpMap, negMap) ==
             RowRatios(labels, q.truePositives.value, q.negatives.value);
      GroupMetric(Some(MacroAverage(Ratios(labels, tpMap, negMap))), Total(q))
  }

  /** The reduction with the guard and the size exactly as the source writes
      them: the first ROW of the total result must itself be an integer, and
      that row is reported as the size. A row is a tuple, never an integer,
      so whatever the other results hold the answer is (null, 0). */
  function MacroMetricAsWritten(q: MetricQueries): (g: GroupMetric)
    ensures q.total.Some? && q.total.value.Tuple? ==> g == GroupMetric(None, 0)
    ensures g.metric.Some? ==> q.total.Some? && q.total.value.IntV? && g.size == q.total.value.i
    ensures (q.truePositives.Some? && q.negatives.Some? && q.labelRows.Some?
             && q.total.Some? && q.total.value.IntV?) ==> g.metric.Some?
  {
    if || q.truePositives.None? || q.negatives.None? || q.total.None? || q.labelRows.None?
       || !q.total.value.IntV?
    then GroupMetric(None, 0)
    else
      var labels := StringLabels(q.labelRows.value);
      GroupMetric(Some(MacroAverage(RowRatios(labels, q.truePositives.value, q.negatives.value))),
                  q.total.value.i)
  }

  /** The discrepancy on every complete result: the intended reading scores
      it and reports the count as the size, the guard as written rejects it. */
  lemma AsWrittenRejectsEveryCount(q: MetricQueries)
    requires Complete(q)
    ensures MacroMetric(q).metric.Some? && MacroMetric(q).size == Total(q)
    ensures MacroMetricAsWritten(q) == GroupMetric(None, 0)
  {
  }

  /** On complete results the score is a percentage. */
  lemma MacroMetricBounds(q: MetricQueries)
    ensures MacroMetric(q).metric.Some? ==> 0.0 <= MacroMetric(q).metric.value <= 100.0
  {
    if Complete(q) {
      var labels := StringLabels(q.labelRows.value);
      assert InUnitInterval(RowRatios(labels, q.truePositives.value, q.negatives.value));
    }
  }

  /** With no string label the score is 0, not null, and the size is still the total. */
  lemma NoLabelsScoreZero(q: MetricQueries)
    requires Complete(q)
    requires forall i :: 0 <= i < |q.labelRows.value| ==> !q.labelRows.value[i].StrV?
    ensures MacroMetric(q) == GroupMetric(Some(0.0), Total(q))
  {
  }

  /** Rows appended after `rows` that never name `lbl` leave its count alone. */
  lemma {:induction false} CountOfIgnoresOtherKeys(rows: seq<CountRow>, extra: seq<CountRow>, lbl: string)
    requires forall i :: 0 <= i < |extra| ==> extra[i].key != lbl
    ensures CountOf(rows + extra, lbl) == CountOf(rows, lbl)
    decreases |extra|
  {
    if |extra| > 0 {
      var init := extra[..|extra| - 1];
      var all := rows + extra;
      assert all[|all| - 1] == extra[|extra| - 1];
      assert all[..|all| - 1] == rows + init;
      CountOfIgnoresOtherKeys(rows, init, lbl);
    } else {
      assert rows + extra == rows;
    }
  }

  /** The score depends on the count rows only through the counts they give
      the string labels: two complete results that agree on the labels, the
      total and every label's counts score the same. */
  lemma SameLabelCountsSameMetric(q: MetricQueries, q': MetricQueries)
    requires Complete(q) && Complete(q')
    requires q'.labelRows == q.labelRows && q'.total == q.total
    requires forall l :: l in StringLabels(q.labelRows.value) ==>
      && CountOf(q'.truePositives.value, l) == CountOf(q.truePositives.value, l)
      && CountOf(q'.negatives.value, l) == CountOf(q.negatives.value, l)
    ensures MacroMetric(q') == MacroMetric(q)
  {
    var labels := StringLabels(q.labelRows.value);
    assert RowRatios(labels, q'.truePositives.value, q'.negatives.value)
        == RowRatios(labels, q.truePositives.value, q.negatives.value);
  }

  /** Groups keyed by something that is not a ground-truth label never change
      the score. For precision this is the case of a predicted value that no
      row carries as its label: its false positives are not averaged in. */
  lemma UnlabelledGroupsIgnored(q: MetricQueries, tpExtra: seq<CountRow>, negExtra: seq<CountRow>)
    requires Complete(q)
    requires forall i :: 0 <= i < |tpExtra| ==> StrV(tpExtra[i].key) !in q.labelRows.value
    requires forall i :: 0 <= i < |negExtra| ==> StrV(negExtra[i].key) !in q.labelRows.value
    ensures MacroMetric(q.(truePositives := Some(q.truePositives.value + tpExtra),
                           negatives := Some(q.negatives.value + negExtra)))
         == MacroMetric(q)
  {
    var q' := q.(truePositives := Some(q.truePositives.value + tpExtra),
                 negatives := Some(q.negatives.value + negExtra));
    forall l | l in StringLabels(q.labelRows.value)
      ensures CountOf(q'.truePositives.value, l) == CountOf(q.truePositives.value, l)
      ensures CountOf(q'.negatives.value, l) == CountOf(q.negatives.value, l)
    {
      CountOfIgnoresOtherKeys(q.truePositives.value, tpExtra, l);
      CountOfIgnoresOtherKeys(q.negatives.value, negExtra, l);
    }
    SameLabelCountsSameMetric(q, q');
  }

  /** Labels that all have zero hits and zero misses score 0, not null. */
  lemma AllZeroCountsScoreZero(q: MetricQueries)
    requires Complete(q)
    requires forall l :: l in StringLabels(q.labelRows.value) ==>
      CountOf(q.truePositives.value, l) == 0 && CountOf(q.negatives.value, l) == 0
    ensures MacroMetric(q).metric == Some(0.0)
  {
    var labels := StringLabels(q.labelRows.value);
    var rs := RowRatios(labels, q.truePositives.value, q.negatives.value);
    ZeroCountsZeroRatios(labels, q.truePositives.value, q.negatives.value);
    assert MacroAverage(rs) == 0.0;
  }

  /** Labels with zero hits and zero misses each get ratio 0. */
  lemma ZeroCountsZeroRatios(labels: seq<string>, hitRows: seq<CountRow>, missRows: seq<CountRow>)
    requires forall l :: l in labels ==> CountOf(hitRows, l) == 0 && CountOf(missRows, l) == 0
    ensures forall i :: 0 <= i < |labels| ==> RowRatios(labels, hitRows, missRows)[i] == 0.0
  {
    var rs := RowRatios(labels, hitRows, missRows);
    forall i | 0 <= i < |labels|
      ensures rs[i] == 0.0
    {
      assert labels[i] in labels;
    }
  }

  /** Labels that all have hits and no misses score 100. */
  lemma NoMissesScoreHundred(q: MetricQueries)
    requires Complete(q)
    requires |StringLabels(q.labelRows.value)| > 0
    requires forall l :: l in StringLabels(q.labelRows.value) ==>
      CountOf(q.truePositives.value, l) > 0 && CountOf(q.negatives.value, l) == 0
    ensures MacroMetric(q).metric == Some(100.0)
  {
    var labels := StringLabels(q.labelRows.value);
    var rs := RowRatios(labels, q.truePositives.value, q.negatives.value);
    NoMissesUnitRatios(labels, q.truePositives.value, q.negatives.value);
    assert rs[0] == 1.0;
    assert MacroAverage(rs) == 100.0;
  }

  /** Labels with hits and no misses each get ratio 1. */
  lemma NoMissesUnitRatios(labels: seq<string>, hitRows: seq<CountRow>, missRows: seq<CountRow>)
    requires forall l :: l in labels ==> CountOf(hitRows, l) > 0 && CountOf(missRows, l) == 0
    ensures forall i :: 0 <= i < |labels| ==> RowRatios(labels, hitRows, missRows)[i] == 1.0
  {
    var rs := RowRatios(labels, hitRows, missRows);
    forall i | 0 <= i < |labels|
      ensures rs[i] == 1.0
    {
      assert labels[i] in labels;
      var tp := CountOf(hitRows, labels[i]);
      assert rs[i] == Ratio(tp, 0) == tp as real / tp as real;
    }
  }

  /** The worked example: labels cat and dog, true positives 8 and 5, false
      negatives 2 and 5, give per-label recall 0.8 and 0.5, so 65. */
  lemma CatDogRecall(total: int)
    ensures MacroMetric(MetricQueries(
      Some([CountRow(8, "cat"), CountRow(5, "dog")]),
      Some([CountRow(2, "cat"), CountRow(5, "dog")]),
      Some(Tuple([IntV(total)])),
      Some([StrV("cat"), StrV("dog")]))) == GroupMetric(Some(65.0), total)
  {
    var tp := [CountRow(8, "cat"), CountRow(5, "dog")];
    var fn := [CountRow(2, "cat"), CountRow(5, "dog")];
    var rows := [StrV("cat"), StrV("dog")];
    assert StringLabels(rows) == ["cat", "dog"] by {
      assert rows[1..] == [StrV("dog")];
      assert rows[1..][1..] == [];
    }
    assert CountOf(tp, "cat") == 8 && CountOf(fn, "cat") == 2 by {
      assert tp[..1] == [CountRow(8, "cat")] && fn[..1] == [CountRow(2, "cat")];
    }
    assert CountOf(tp, "dog") == 5 && CountOf(fn, "dog") == 5;
    var rs := RowRatios(["cat", "dog"], tp, fn);
    assert rs[0] == Ratio(8, 2) == 0.8;
    assert rs[1] == Ratio(5, 5) == 0.5;
    assert |rs| == 2;
    assert Sum(rs) == 1.3 by {
      assert rs[..|rs| - 1] == [0.8];
      assert Sum([0.8]) == 0.8 by {
        assert [0.8][..0] == [];
      }
    }
  }

  /** The worked example with the total result as one row `(total,)`: the
      intended reading gives 65, the guard as written gives null. */
  lemma CatDogAsWritten(total: int)
    ensures var q := MetricQueries(
      Some([CountRow(8, "cat"), CountRow(5, "dog")]),
      Some([CountRow(2, "cat"), CountRow(5, "dog")]),
      Some(Tuple([IntV(total)])),
      Some([StrV("cat"), StrV("dog")]));
      && MacroMetric(q) == GroupMetric(Some(65.0), total)
      && MacroMetricAsWritten(q) == GroupMetric(None, 0)
  {
    CatDogRecall(total);
  }

  /** The source's loop over the labels: accumulate the per-label ratios
      read from the two count maps, then average them. */
  method AverageRatios(labels: seq<string>, hits: map<string, nat>, misses: map<string, nat>)
    returns (score: real)
    requires forall l :: l in labels ==> l in hits && l in misses
    ensures score == MacroAverage(Ratios(labels, hits, misses))
    ensures 0.0 <= score <= 100.0
  {
    var rs := Ratios(labels, hits, misses);
    var total := 0.0;
    for i := 0 to |labels|
      invariant total == Sum(rs[..i])
    {
      var tp := hits[labels[i]];
      var fn := misses[labels[i]];
      var ratio := if tp + fn == 0 then 0.0 else tp as real / (tp + fn) as real;
      assert rs[..i + 1][..i] == rs[..i];
      total := total + ratio;
    }
    assert rs[..|labels|] == rs;
    score := if |labels| > 0 then 100.0 * total / |labels| as real else 0.0;
  }

  /** The whole reduction run loop by loop, as the source's loops run it,
      with the corrected total reading `num_total[0][0]`. */
  method ComputeMacroMetric(q: MetricQueries) returns (g: GroupMetric)
    ensures g == MacroMetric(q)
    ensures g.metric.None? <==> !Complete(q)
  {
    if q.truePositives.None? || q.negatives.None? || q.total.None? || q.labelRows.None? {
      return GroupMetric(None, 0);
    }
    var row := q.total.value;
    if !row.Tuple? || |row.fields| == 0 || !row.fields[0].IntV? {
      return GroupMetric(None, 0);
    }
    var labels := CollectLabels(q.labelRows.value);
    var tpMap := BuildCountMap(labels, q.truePositives.value);
    var negMap := BuildCountMap(labels, q.negatives.value);
    var score := AverageRatios(labels, tpMap, negMap);
    g := GroupMetric(Some(score), row.fields[0].i);
  }

  /** Macro-averaged recall. `q.negatives` counts, per ground-truth label,
      the rows whose output differs from it (false negatives). The score is
      null exactly when the results are incomplete, and is then paired with
      size 0; otherwise it is a percentage and the size is the total. */
  function Recall(q: MetricQueries): (g: GroupMetric)
    ensures g.metric.None? <==> !Complete(q)
    ensures g.size == if Complete(q) then Total(q) else 0
    ensures g.metric.Some? ==> 0.0 <= g.metric.value <= 100.0
    ensures Complete(q) ==>
      g.metric == Some(MacroAverage(RowRatios(StringLabels(q.labelRows.value),
                                              q.truePositives.value, q.negatives.value)))
  {
    MacroMetricBounds(q);
    MacroMetric(q)
  }

  /** Macro-averaged precision. `q.negatives` counts, per PREDICTED output
      value, the rows whose output differs from their label (false
      positives); each ground-truth label is looked up among those predicted
      values, and takes 0 false positives when none equals it. */
  function Precision(q: MetricQueries): (g: GroupMetric)
    ensures g.metric.None? <==> !Complete(q)
    ensures !Complete(q) ==> g.size == 0
    ensures g.metric.Some? ==> 0.0 <= g.metric.value <= 100.0
    ensures Complete(q) ==>
      var labels := StringLabels(q.labelRows.value);
      && g.size == Total(q)
      && g.metric == Some(MacroAverage(seq(|labels|, i requires 0 <= i < |labels| =>
           Ratio(CountOf(q.truePositives.value, labels[i]),
                 LastCount(q.negatives.value, labels[i]).GetOr(0)))))
  {
    MacroMetricBounds(q);
    FalsePositiveLookup(q);
    MacroMetric(q)
  }

  /** Precision's per-label ratios: each ground-truth label's false positives
      are those of the last group whose predicted value equals it, or 0. */
  lemma FalsePositiveLookup(q: MetricQueries)
    ensures Complete(q) ==>
      var labels := StringLabels(q.labelRows.value);
      seq(|labels|, i requires 0 <= i < |labels| =>
        Ratio(CountOf(q.truePositives.value, labels[i]),
              LastCount(q.negatives.value, labels[i]).GetOr(0)))
      == RowRatios(labels, q.truePositives.value, q.negatives.value)
  {
  }

  /** Results that are present but empty (no count rows, no label rows, a
      total of 0) score 0, not null, with size 0. */
  lemma EmptyResultsScoreZero()
    ensures Recall(MetricQueries(Some([]), Some([]), Some(Tuple([IntV(0)])), Some([])))
         == GroupMetric(Some(0.0), 0)
    ensures Precision(MetricQueries(Some([]), Some([]), Some(Tuple([IntV(0)])), Some([])))
         == GroupMetric(Some(0.0), 0)
  {
    NoLabelsScoreZero(MetricQueries(Some([]), Some([]), Some(Tuple([IntV(0)])), Some([])));
  }
}
