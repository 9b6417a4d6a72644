/**
 The values the metric engine exchanges with its datastore and its callers:
 the loosely typed fields of query rows, the four query results one metric
 call reduces, and the `GroupMetric` envelope it returns.
 */
module MetricTypes {

  /** A result that may be absent: a query that returned nothing, or a null score. */
  datatype Option<+T> = None | Some(value: T) {

    /** The carried value, or `default` when there is none. */
    function GetOr(default: T): T {
      match this
      case Some(v) => v
      case None => default
    }
  }

  /** One loosely typed value handed back by the datastore: a field of a
      row, or a whole row (`Tuple`). `Other` stands for anything else that
      is neither an integer nor a string (a float, ...). */
  datatype Value = IntV(i: int) | StrV(s: string) | NullV | Tuple(fields: seq<Value>) | Other

  /** A row of a `COUNT(*) ... GROUP BY key` query: the group's row count and
      the group key (a ground-truth label, or a predicted output value).
      A SQL count is never negative. */
  datatype CountRow = CountRow(count: nat, key: string)

  /** The four query results one recall or precision call works on.
      - `truePositives`: rows whose output equals their label, counted per label;
      - `negatives`: rows whose output differs from their label, counted per
        ground-truth label (recall: false negatives) or per predicted output
        value (precision: false positives);
      - `total`: `num_total[0]`, the first row of the total-count result.
        The model takes every result to be a list of row tuples, so this
        is a one-field `Tuple` holding the count;
      - `labelRows`: the first field `label[0]` of every row of the
        distinct-label query.
      `None` means the query returned no result at all. */
  datatype MetricQueries = MetricQueries(
    truePositives: Option<seq<CountRow>>,
    negatives: Option<seq<CountRow>>,
    total: Option<Value>,
    labelRows: Option<seq<Value>>)

  /** A score (null when it cannot be computed) and the size of the filtered group. */
  datatype GroupMetric = GroupMetric(metric: Option<real>, size: int)
}
