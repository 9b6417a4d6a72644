/**
 The F1 score: precision and recall are computed independently, each from
 its own four query results, and combined by their harmonic mean. A null
 component, or two components that are both exactly 0, give a null F1. The
 size of the result is always the size precision reported.
 */
module F1Score {
  import opened MetricTypes
  import opened MetricReducer

  /** A score that is null or non-negative, as every recall and precision score is. */
  predicate NonNegative(g: GroupMetric)
  {
    g.metric.Some? ==> g.metric.value >= 0.0
  }

  /** True when the two components admit no F1: one is null, or both are 0. */
  predicate Degenerate(prec: GroupMetric, rec: GroupMetric)
  {
    || prec.metric.None?
    || rec.metric.None?
    || (prec.metric.value == 0.0 && rec.metric.value == 0.0)
  }

  function Min(a: real, b: real): real { if a <= b then a else b }
  function Max(a: real, b: real): real { if a <= b then b else a }

  /** The combination rule. A non-null result h is the harmonic mean of p
      and r: h * (p + r) == 2 * p * r, with p + r > 0. */
  function Combine(prec: GroupMetric, rec: GroupMetric): (g: GroupMetric)
    requires NonNegative(prec) && NonNegative(rec)
    ensures g.size == prec.size
    ensures g.metric.None? <==> Degenerate(prec, rec)
    ensures g.metric.Some? ==>
      && prec.metric.value + rec.metric.value > 0.0
      && g.metric.value * (prec.metric.value + rec.metric.value)
         == 2.0 * prec.metric.value * rec.metric.value
  {
    if Degenerate(prec, rec) then GroupMetric(None, prec.size)
    else
      var p := prec.metric.value;
      var r := rec.metric.value;
      GroupMetric(Some(2.0 * (p * r) / (p + r)), prec.size)
  }

  /** The harmonic mean of two non-negative numbers, not both 0, lies
      between the smaller and the larger of them. */
  lemma HarmonicMeanBetween(p: real, r: real)
    requires p >= 0.0 && r >= 0.0 && p + r > 0.0
    ensures Min(p, r) <= 2.0 * (p * r) / (p + r) <= Max(p, r)
  {
    var h := 2.0 * (p * r) / (p + r);
    assert h * (p + r) == 2.0 * (p * r);
    if p <= r {
      assert p * (p + r) <= 2.0 * (p * r) by {
        assert p * p <= p * r;
      }
      assert 2.0 * (p * r) <= r * (p + r) by {
        assert p * r <= r * r;
      }
      assert p * (p + r) <= h * (p + r) <= r * (p + r);
    } else {
      assert r * (p + r) <= 2.0 * (p * r) by {
        assert r * r <= p * r;
      }
      assert 2.0 * (p * r) <= p * (p + r) by {
        assert p * r <= p * p;
      }
      assert r * (p + r) <= h * (p + r) <= p * (p + r);
    }
  }

  /** A non-null F1 lies between precision and recall, hence in [0, 100]
      when both of them are. */
  lemma CombineBetween(prec: GroupMetric, rec: GroupMetric)
    requires NonNegative(prec) && NonNegative(rec)
    ensures Combine(prec, rec).metric.Some? ==>
      && Min(prec.metric.value, rec.metric.value) <= Combine(prec, rec).metric.value
      && Combine(prec, rec).metric.value <= Max(prec.metric.value, rec.metric.value)
  {
    if !Degenerate(prec, rec) {
      var p := prec.metric.value;
      var r := rec.metric.value;
      assert Combine(prec, rec).metric.value == 2.0 * (p * r) / (p + r);
      HarmonicMeanBetween(p, r);
    }
  }

  /** F1 from the query results of a precision call and of a recall call. */
  function F1(precQ: MetricQueries, recQ: MetricQueries): (g: GroupMetric)
    ensures g.size == Precision(precQ).size
    ensures g.size == if Complete(precQ) then Total(precQ) else 0
    ensures !Complete(precQ) || !Complete(recQ) ==> g.metric.None?
    ensures g.metric.Some? ==> 0.0 <= g.metric.value <= 100.0
    ensures g.metric.Some? ==>
      && Min(Precision(precQ).metric.value, Recall(recQ).metric.value) <= g.metric.value
      && g.metric.value <= Max(Precision(precQ).metric.value, Recall(recQ).metric.value)
  {
    var prec := Precision(precQ);
    var rec := Recall(recQ);
    CombineBetween(prec, rec);
    Combine(prec, rec)
  }

  /** Incomplete precision results give exactly (null, 0), whatever recall's
      results are. */
  lemma F1IncompletePrecision(precQ: MetricQueries, recQ: MetricQueries)
    requires !Complete(precQ)
    ensures F1(precQ, recQ) == GroupMetric(None, 0)
  {
  }

  /** F1 is non-null exactly when both components are complete and not
      both 0; it then lies between precision and recall. */
  lemma F1Characterised(precQ: MetricQueries, recQ: MetricQueries)
    ensures F1(precQ, recQ).metric.Some? <==>
      && Complete(precQ) && Complete(recQ)
      && !(Precision(precQ).metric == Some(0.0) && Recall(recQ).metric == Some(0.0))
  {
    var prec := Precision(precQ);
    var rec := Recall(recQ);
    assert F1(precQ, recQ) == Combine(prec, rec);
    assert Combine(prec, rec).metric.Some? <==> !Degenerate(prec, rec);
  }

  /** All labels with zero counts on both sides: precision and recall both
      score 0, so F1 is null, and its size is precision's size. */
  lemma AllZeroCountsNullF1(precQ: MetricQueries, recQ: MetricQueries)
    requires Complete(precQ) && Complete(recQ)
    requires forall l :: l in LabelAggregator.StringLabels(precQ.labelRows.value) ==>
      && LabelAggregator.CountOf(precQ.truePositives.value, l) == 0
      && LabelAggregator.CountOf(precQ.negatives.value, l) == 0
    requires forall l :: l in LabelAggregator.StringLabels(recQ.labelRows.value) ==>
      && LabelAggregator.CountOf(recQ.truePositives.value, l) == 0
      && LabelAggregator.CountOf(recQ.negatives.value, l) == 0
    ensures F1(precQ, recQ) == GroupMetric(None, Total(precQ))
  {
    AllZeroCountsScoreZero(precQ);
    AllZeroCountsScoreZero(recQ);
  }

  /** The worked example: precision 80 and recall 65 give 10400 / 145. */
  lemma EightySixtyFive(precSize: int, recSize: int)
    ensures Combine(GroupMetric(Some(80.0), precSize), GroupMetric(Some(65.0), recSize))
         == GroupMetric(Some(10400.0 / 145.0), precSize)
  {
  }
}
