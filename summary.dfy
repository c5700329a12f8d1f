/**
 * The per-group summaries: `df[[key] + metrics].dropna().groupby(key)`
 * followed by the mean of each metric.
 */
module Summary {
  import opened Wrappers
  import opened Table
  import opened Ordering
  import opened Averages

  /** One row of `df[[key] + metrics].dropna()`. */
  datatype Row = Row(key: string, values: seq<real>)

  /** One row of the summary frame after `reset_index()`: a key and one mean per metric. */
  datatype GroupSummary = GroupSummary(key: string, means: seq<real>)

  /** The record has a value in the key column and in every metric column. */
  predicate Complete(r: Record, key: KeyColumn, metrics: seq<MetricColumn>)
  {
    KeyOf(r, key).Some? && forall j :: 0 <= j < |metrics| ==> MetricOf(r, metrics[j]).Some?
  }

  // ---- Reference definitions, stated over the table itself ----

  /** The number of complete records whose key is `k`. */
  function TableCount(t: Table, key: KeyColumn, metrics: seq<MetricColumn>, k: string): nat
  {
    if t == [] then 0
    else (if Complete(t[0], key, metrics) && KeyOf(t[0], key) == Some(k) then 1 else 0)
         + TableCount(t[1..], key, metrics, k)
  }

  /** The values of metric `j` over the complete records whose key is `k`, in table order. */
  function GroupValues(t: Table, key: KeyColumn, metrics: seq<MetricColumn>, k: string, j: nat): (v: seq<real>)
    requires j < |metrics|
    ensures |v| == TableCount(t, key, metrics, k)
  {
    if t == [] then []
    else if Complete(t[0], key, metrics) && KeyOf(t[0], key) == Some(k)
    then [MetricOf(t[0], metrics[j]).value] + GroupValues(t[1..], key, metrics, k, j)
    else GroupValues(t[1..], key, metrics, k, j)
  }

  /** The arithmetic mean of metric `j` over group `k`. */
  function Mean(t: Table, key: KeyColumn, metrics: seq<MetricColumn>, k: string, j: nat): (m: real)
    requires j < |metrics| && TableCount(t, key, metrics, k) > 0
    ensures m * (TableCount(t, key, metrics, k) as real) == Sum(GroupValues(t, key, metrics, k, j))
  {
    Average(GroupValues(t, key, metrics, k, j))
  }

  /** A group is present exactly when some complete record carries its key. */
  lemma {:induction false} TableCountPositive(t: Table, key: KeyColumn, metrics: seq<MetricColumn>, k: string)
    ensures TableCount(t, key, metrics, k) > 0 <==>
            exists i :: 0 <= i < |t| && Complete(t[i], key, metrics) && KeyOf(t[i], key) == Some(k)
  {
    if t != [] {
      TableCountPositive(t[1..], key, metrics, k);
      if exists i :: 0 <= i < |t[1..]| && Complete(t[1..][i], key, metrics) && KeyOf(t[1..][i], key) == Some(k) {
        var i :| 0 <= i < |t[1..]| && Complete(t[1..][i], key, metrics) && KeyOf(t[1..][i], key) == Some(k);
        assert t[i + 1] == t[1..][i];
      }
      if exists i :: 0 <= i < |t| && Complete(t[i], key, metrics) && KeyOf(t[i], key) == Some(k) {
        var i :| 0 <= i < |t| && Complete(t[i], key, metrics) && KeyOf(t[i], key) == Some(k);
        if i > 0 {
          assert t[1..][i - 1] == t[i];
        }
      }
    }
  }

  // ---- The computation: project and drop, then group the projected rows ----

  function ProjectRow(r: Record, key: KeyColumn, metrics: seq<MetricColumn>): Row
    requires Complete(r, key, metrics)
  {
    Row(KeyOf(r, key).value, seq(|metrics|, j requires 0 <= j < |metrics| => MetricOf(r, metrics[j]).value))
  }

  /** The records that `dropna()` keeps, in table order. */
  function CompleteRecords(t: Table, key: KeyColumn, metrics: seq<MetricColumn>): (c: Table)
    ensures forall i :: 0 <= i < |c| ==> Complete(c[i], key, metrics)
  {
    Where(t, r => Complete(r, key, metrics))
  }

  /**
   * `df[[key] + metrics].dropna()`: exactly the complete records, in table
   * order, each projected to its key and its metric values.
   */
  function Project(t: Table, key: KeyColumn, metrics: seq<MetricColumn>): (rows: seq<Row>)
    ensures forall i :: 0 <= i < |rows| ==> |rows[i].values| == |metrics|
  {
    if t == [] then []
    else if Complete(t[0], key, metrics) then [ProjectRow(t[0], key, metrics)] + Project(t[1..], key, metrics)
    else Project(t[1..], key, metrics)
  }

  /** The projection keeps exactly the complete records, in table order, each projected. */
  lemma {:induction false} ProjectIsCompleteRecords(t: Table, key: KeyColumn, metrics: seq<MetricColumn>)
    ensures |Project(t, key, metrics)| == |CompleteRecords(t, key, metrics)|
    ensures forall i :: 0 <= i < |Project(t, key, metrics)| ==>
              Project(t, key, metrics)[i] == ProjectRow(CompleteRecords(t, key, metrics)[i], key, metrics)
  {
    if t != [] {
      ProjectIsCompleteRecords(t[1..], key, metrics);
    }
  }

  function RowKeys(rows: seq<Row>): seq<string>
  {
    if rows == [] then [] else [rows[0].key] + RowKeys(rows[1..])
  }

  function RowCount(rows: seq<Row>, k: string): nat
  {
    if rows == [] then 0 else (if rows[0].key == k then 1 else 0) + RowCount(rows[1..], k)
  }

  function RowSum(rows: seq<Row>, k: string, j: nat): real
    requires forall i :: 0 <= i < |rows| ==> j < |rows[i].values|
  {
    if rows == [] then 0.0
    else (if rows[0].key == k then rows[0].values[j] else 0.0) + RowSum(rows[1..], k, j)
  }

  /** Counting, summing and listing keys over the projected rows agree with the reference definitions. */
  lemma {:induction false} ProjectAgrees(t: Table, key: KeyColumn, metrics: seq<MetricColumn>, k: string)
    ensures RowCount(Project(t, key, metrics), k) == TableCount(t, key, metrics, k)
    ensures forall j :: 0 <= j < |metrics| ==> RowSum(Project(t, key, metrics), k, j) == Sum(GroupValues(t, key, metrics, k, j))
    ensures k in RowKeys(Project(t, key, metrics)) <==> TableCount(t, key, metrics, k) > 0
  {
    if t != [] {
      ProjectAgrees(t[1..], key, metrics, k);
      var rest := Project(t[1..], key, metrics);
      if Complete(t[0], key, metrics) {
        var row := ProjectRow(t[0], key, metrics);
        assert Project(t, key, metrics) == [row] + rest;
        assert ([row] + rest)[1..] == rest;
        if KeyOf(t[0], key) == Some(k) {
          forall j | 0 <= j < |metrics|
            ensures Sum(GroupValues(t, key, metrics, k, j)) == row.values[j] + Sum(GroupValues(t[1..], key, metrics, k, j))
          {
            var v := [MetricOf(t[0], metrics[j]).value];
            assert (v + GroupValues(t[1..], key, metrics, k, j))[1..] == GroupValues(t[1..], key, metrics, k, j);
          }
        }
      }
    }
  }

  function SummaryKeys(s: seq<GroupSummary>): seq<string>
  {
    seq(|s|, i requires 0 <= i < |s| => s[i].key)
  }

  /**
   * `df[[key] + metrics].dropna().groupby(key).mean().reset_index()`:
   * one summary per group, in ascending key order, whose keys are exactly
   * those of the complete records, each holding the mean of every metric
   * over its group.
   */
  function GroupMean(t: Table, key: KeyColumn, metrics: seq<MetricColumn>): (s: seq<GroupSummary>)
    ensures Ascending(SummaryKeys(s))
    ensures forall k :: k in SummaryKeys(s) <==> TableCount(t, key, metrics, k) > 0
    ensures forall i :: 0 <= i < |s| ==> |s[i].means| == |metrics| && TableCount(t, key, metrics, s[i].key) > 0
    ensures forall i, j :: 0 <= i < |s| && 0 <= j < |metrics| ==> s[i].means[j] == Mean(t, key, metrics, s[i].key, j)
  {
    var rows := Project(t, key, metrics);
    var keys := SortedDistinct(RowKeys(rows));
    var s := seq(|keys|, i requires 0 <= i < |keys| =>
      ProjectAgrees(t, key, metrics, keys[i]);
      GroupSummary(keys[i], seq(|metrics|, j requires 0 <= j < |metrics| =>
        RowSum(rows, keys[i], j) / (RowCount(rows, keys[i]) as real))));
    assert SummaryKeys(s) == keys;
    assert forall k :: k in keys <==> TableCount(t, key, metrics, k) > 0 by {
      forall k ensures k in keys <==> TableCount(t, key, metrics, k) > 0 {
        ProjectAgrees(t, key, metrics, k);
      }
    }
    assert forall i, j :: 0 <= i < |s| && 0 <= j < |metrics| ==> s[i].means[j] == Mean(t, key, metrics, s[i].key, j) by {
      forall i, j | 0 <= i < |s| && 0 <= j < |metrics|
        ensures s[i].means[j] == Mean(t, key, metrics, s[i].key, j)
      {
        ProjectAgrees(t, key, metrics, keys[i]);
      }
    }
    s
  }

  lemma {:induction false} ProjectConcat(a: Table, b: Table, key: KeyColumn, metrics: seq<MetricColumn>)
    ensures Project(a + b, key, metrics) == Project(a, key, metrics) + Project(b, key, metrics)
  {
    if a == [] {
      assert a + b == b;
    } else {
      assert (a + b)[0] == a[0];
      assert (a + b)[1..] == a[1..] + b;
      ProjectConcat(a[1..], b, key, metrics);
    }
  }

  /** A record missing the key or any metric does not affect the summary. */
  lemma IncompleteRecordIgnored(a: Table, r: Record, b: Table, key: KeyColumn, metrics: seq<MetricColumn>)
    requires !Complete(r, key, metrics)
    ensures GroupMean(a + [r] + b, key, metrics) == GroupMean(a + b, key, metrics)
  {
    ProjectConcat(a + [r], b, key, metrics);
    ProjectConcat(a, [r], key, metrics);
    ProjectConcat(a, b, key, metrics);
    assert Project([r], key, metrics) == [];
    assert Project(a + [r] + b, key, metrics) == Project(a + b, key, metrics);
  }

  /** There are no groups exactly when no record is complete; in particular for the empty table. */
  lemma NoGroupsIffNoCompleteRecord(t: Table, key: KeyColumn, metrics: seq<MetricColumn>)
    ensures GroupMean(t, key, metrics) == [] <==> forall i :: 0 <= i < |t| ==> !Complete(t[i], key, metrics)
  {
    var s := GroupMean(t, key, metrics);
    if s != [] {
      assert s[0].key in SummaryKeys(s);
      TableCountPositive(t, key, metrics, s[0].key);
    }
    if exists i :: 0 <= i < |t| && Complete(t[i], key, metrics) {
      var i :| 0 <= i < |t| && Complete(t[i], key, metrics);
      var k := KeyOf(t[i], key).value;
      TableCountPositive(t, key, metrics, k);
      assert k in SummaryKeys(s);
    }
  }

  /** Bounds on a group's values bound its mean: the mean is an average. */
  lemma MeanWithinBounds(t: Table, key: KeyColumn, metrics: seq<MetricColumn>, k: string, j: nat, lo: real, hi: real)
    requires j < |metrics| && TableCount(t, key, metrics, k) > 0
    requires forall v :: v in GroupValues(t, key, metrics, k, j) ==> lo <= v <= hi
    ensures lo <= Mean(t, key, metrics, k, j) <= hi
  {
    var vs := GroupValues(t, key, metrics, k, j);
    assert forall i :: 0 <= i < |vs| ==> vs[i] in vs;
    AverageWithinBounds(vs, lo, hi);
  }
}
