/**
 Reshaping raw query rows into the structures the reducer works on: the list
 of string labels, and the per-label count maps that start at 0 for every
 known label and are then overwritten, row by row, by the count query.
 */
module LabelAggregator {
  import opened MetricTypes

  /** The string-valued entries of the distinct-label result, in their
      original order; every other entry is dropped. */
  function StringLabels(rows: seq<Value>): (labels: seq<string>)
    ensures |labels| <= |rows|
    ensures forall s :: s in labels <==> StrV(s) in rows
  {
    if |rows| == 0 then []
    else
      (match rows[0] case StrV(s) => [s] case _ => []) + StringLabels(rows[1..])
  }

  /** Filtering distributes over concatenation, so the order of the result
      follows the order of the rows. */
  lemma {:induction false} StringLabelsAppend(a: seq<Value>, b: seq<Value>)
    ensures StringLabels(a + b) == StringLabels(a) + StringLabels(b)
    decreases |a|
  {
    if |a| == 0 {
      assert a + b == b;
    } else {
      assert (a + b)[1..] == a[1..] + b;
      StringLabelsAppend(a[1..], b);
    }
  }

  /** A string row contributes exactly its string; any other row contributes nothing. */
  lemma StringLabelsSingle(v: Value)
    ensures v.StrV? ==> StringLabels([v]) == [v.s]
    ensures !v.StrV? ==> StringLabels([v]) == []
  {
    assert [v][1..] == [];
  }

  /** When every row is a string, nothing is dropped and positions are kept. */
  lemma {:induction false} StringLabelsAllStrings(rows: seq<Value>)
    requires forall i :: 0 <= i < |rows| ==> rows[i].StrV?
    ensures |StringLabels(rows)| == |rows|
    ensures forall i :: 0 <= i < |rows| ==> StringLabels(rows)[i] == rows[i].s
    decreases |rows|
  {
    if |rows| > 0 {
      StringLabelsAllStrings(rows[1..]);
    }
  }

  /** The label loop: append the first field of each row that is a string. */
  method CollectLabels(rows: seq<Value>) returns (labels: seq<string>)
    ensures labels == StringLabels(rows)
    ensures forall s :: s in labels <==> StrV(s) in rows
  {
    labels := [];
    for i := 0 to |rows|
      invariant labels == StringLabels(rows[..i])
    {
      StringLabelsAppend(rows[..i], [rows[i]]);
      StringLabelsSingle(rows[i]);
      assert rows[..i + 1] == rows[..i] + [rows[i]];
      if rows[i].StrV? {
        labels := labels + [rows[i].s];
      }
    }
    assert rows[..|rows|] == rows;
  }

  /** The keys named by some count row. */
  function RowKeys(rows: seq<CountRow>): set<string>
  {
    set r | r in rows :: r.key
  }

  /** The count of the LAST row keyed `key`, or `None` when no row has that key. */
  function LastCount(rows: seq<CountRow>, key: string): (c: Option<nat>)
    ensures c.None? <==> key !in RowKeys(rows)
    ensures c.Some? ==>
      exists i :: 0 <= i < |rows| && rows[i] == CountRow(c.value, key)
        && forall j :: i < j < |rows| ==> rows[j].key != key
  {
    if |rows| == 0 then None
    else if rows[|rows| - 1].key == key then Some(rows[|rows| - 1].count)
    else
      var init := rows[..|rows| - 1];
      assert rows == init + [rows[|rows| - 1]];
      LastCount(init, key)
  }

  /** The count a label ends up with: the last row's count, 0 by default. */
  function CountOf(rows: seq<CountRow>, lbl: string): nat
  {
    LastCount(rows, lbl).GetOr(0)
  }

  /** The initial map: every known label counts 0. */
  function Defaults(labels: seq<string>): (m: map<string, nat>)
    ensures m.Keys == set l | l in labels
    ensures forall l :: l in m ==> m[l] == 0
  {
    map l | l in labels :: 0
  }

  /** Writes the rows into `m` in order, each row overwriting its key. */
  function Overlay(m: map<string, nat>, rows: seq<CountRow>): (r: map<string, nat>)
    ensures r.Keys == m.Keys + RowKeys(rows)
    ensures forall k :: k in RowKeys(rows) ==> r[k] == LastCount(rows, k).value
    ensures forall k :: k in m && k !in RowKeys(rows) ==> r[k] == m[k]
  {
    if |rows| == 0 then m
    else
      var init := rows[..|rows| - 1];
      var last := rows[|rows| - 1];
      assert rows == init + [last];
      assert RowKeys(rows) == RowKeys(init) + {last.key};
      Overlay(m, init)[last.key := last.count]
  }

  /** The per-label count map: defaults first, then the query rows on top.
      Every label has a key; a label named by some row takes the count of
      the last such row, any other label counts 0. */
  function CountMap(labels: seq<string>, rows: seq<CountRow>): (m: map<string, nat>)
    ensures m.Keys == (set l | l in labels) + RowKeys(rows)
    ensures forall l :: l in labels ==> m[l] == CountOf(rows, l)
  {
    Overlay(Defaults(labels), rows)
  }

  /** The two loops that build a count map: zero every label, then overwrite
      with each row in turn. */
  method BuildCountMap(labels: seq<string>, rows: seq<CountRow>) returns (m: map<string, nat>)
    ensures m.Keys == (set l | l in labels) + RowKeys(rows)
    ensures forall l :: l in labels ==> m[l] == CountOf(rows, l)
    ensures m == CountMap(labels, rows)
  {
    m := map[];
    for i := 0 to |labels|
      invariant m == Defaults(labels[..i])
    {
      assert labels[..i + 1] == labels[..i] + [labels[i]];
      m := m[labels[i] := 0];
    }
    assert labels[..|labels|] == labels;
    for i := 0 to |rows|
      invariant m == Overlay(Defaults(labels), rows[..i])
    {
      assert rows[..i + 1][..i] == rows[..i];
      m := m[rows[i].key := rows[i].count];
    }
    assert rows[..|rows|] == rows;
  }
}
