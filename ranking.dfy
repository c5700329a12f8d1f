/**
 * Ranking: `idxmax`/`idxmin` over a summary column (one winner, the first
 * of any tie) and the best-sleepers selection over raw records (every tie).
 */
module Ranking {
  import opened Wrappers
  import opened Table
  import opened Summary
  import Selection

  /** `Series.max()` of a non-empty column. */
  function SeqMax(v: seq<real>): (m: real)
    requires |v| > 0
    ensures m in v
    ensures forall j :: 0 <= j < |v| ==> v[j] <= m
  {
    if |v| == 1 then v[0]
    else
      var m := SeqMax(v[..|v| - 1]);
      if v[|v| - 1] > m then v[|v| - 1] else m
  }

  /** `Series.min()` of a non-empty column. */
  function SeqMin(v: seq<real>): (m: real)
    requires |v| > 0
    ensures m in v
    ensures forall j :: 0 <= j < |v| ==> m <= v[j]
  {
    if |v| == 1 then v[0]
    else
      var m := SeqMin(v[..|v| - 1]);
      if v[|v| - 1] < m then v[|v| - 1] else m
  }

  /** Position `i` holds a value at least every value of the column. */
  ghost predicate IsLargest(v: seq<real>, i: int)
    requires 0 <= i < |v|
  {
    forall j :: 0 <= j < |v| ==> v[j] <= v[i]
  }

  /** Position `i` holds a value at most every value of the column. */
  ghost predicate IsSmallest(v: seq<real>, i: int)
    requires 0 <= i < |v|
  {
    forall j :: 0 <= j < |v| ==> v[i] <= v[j]
  }

  /** Equalling `max()` (resp. `min()`) is being a largest (resp. smallest) value. */
  lemma ExtremesCharacterised(v: seq<real>, i: int)
    requires 0 <= i < |v|
    ensures v[i] == SeqMax(v) <==> IsLargest(v, i)
    ensures v[i] == SeqMin(v) <==> IsSmallest(v, i)
  {
  }

  /** `Series.idxmax()`: the first position holding the largest value. */
  function IdxMax(v: seq<real>): (i: nat)
    requires |v| > 0
    ensures i < |v|
    ensures forall j :: 0 <= j < |v| ==> v[j] <= v[i]
    ensures forall j :: 0 <= j < i ==> v[j] < v[i]
  {
    if |v| == 1 then 0
    else
      var k := IdxMax(v[..|v| - 1]);
      if v[|v| - 1] > v[k] then |v| - 1 else k
  }

  /** `Series.idxmin()`: the first position holding the smallest value. */
  function IdxMin(v: seq<real>): (i: nat)
    requires |v| > 0
    ensures i < |v|
    ensures forall j :: 0 <= j < |v| ==> v[i] <= v[j]
    ensures forall j :: 0 <= j < i ==> v[i] < v[j]
  {
    if |v| == 1 then 0
    else
      var k := IdxMin(v[..|v| - 1]);
      if v[|v| - 1] < v[k] then |v| - 1 else k
  }

  /** The tie-break is deterministic: only one position is a first maximum. */
  lemma IdxMaxIsTheFirstMaximum(v: seq<real>, i: nat)
    requires i < |v|
    requires forall j :: 0 <= j < |v| ==> v[j] <= v[i]
    requires forall j :: 0 <= j < i ==> v[j] < v[i]
    ensures IdxMax(v) == i
  {
  }

  lemma IdxMinIsTheFirstMinimum(v: seq<real>, i: nat)
    requires i < |v|
    requires forall j :: 0 <= j < |v| ==> v[i] <= v[j]
    requires forall j :: 0 <= j < i ==> v[i] < v[j]
    ensures IdxMin(v) == i
  {
  }

  /** Every summary row holds a mean for metric `j`. */
  ghost predicate HasMetric(s: seq<GroupSummary>, j: nat)
  {
    forall i :: 0 <= i < |s| ==> j < |s[i].means|
  }

  /** The summary column of metric `j`, as `summary[metric]`. */
  function Column(s: seq<GroupSummary>, j: nat): (c: seq<real>)
    requires HasMetric(s, j)
    ensures |c| == |s|
    ensures forall i :: 0 <= i < |s| ==> c[i] == s[i].means[j]
  {
    seq(|s|, i requires 0 <= i < |s| => s[i].means[j])
  }

  /**
   * `summary.loc[summary[metric].idxmax()]`: a group whose mean is at
   * least every other group's, and no earlier group has the same mean.
   */
  function Leader(s: seq<GroupSummary>, j: nat): (g: GroupSummary)
    requires |s| > 0 && HasMetric(s, j)
    ensures exists i :: 0 <= i < |s| && s[i] == g && forall h :: 0 <= h < i ==> s[h].means[j] < g.means[j]
    ensures forall h :: 0 <= h < |s| ==> s[h].means[j] <= g.means[j]
  {
    var c := Column(s, j);
    var i := IdxMax(c);
    assert forall h :: 0 <= h < |s| ==> c[h] == s[h].means[j];
    s[i]
  }

  /** `summary.loc[summary[metric].idxmin()]`: the first group with the smallest mean. */
  function Laggard(s: seq<GroupSummary>, j: nat): (g: GroupSummary)
    requires |s| > 0 && HasMetric(s, j)
    ensures exists i :: 0 <= i < |s| && s[i] == g && forall h :: 0 <= h < i ==> g.means[j] < s[h].means[j]
    ensures forall h :: 0 <= h < |s| ==> g.means[j] <= s[h].means[j]
  {
    var c := Column(s, j);
    var i := IdxMin(c);
    assert forall h :: 0 <= h < |s| ==> c[h] == s[h].means[j];
    s[i]
  }

  /**
   * The summary of a table with a complete record can be ranked on every
   * metric; the leader is a group of the table whose mean is the largest.
   */
  lemma LeaderOfGroupMean(t: Table, key: KeyColumn, metrics: seq<MetricColumn>, j: nat, i0: nat)
    requires j < |metrics|
    requires i0 < |t| && Complete(t[i0], key, metrics)
    ensures |GroupMean(t, key, metrics)| > 0 && HasMetric(GroupMean(t, key, metrics), j)
    ensures TableCount(t, key, metrics, Leader(GroupMean(t, key, metrics), j).key) > 0
    ensures forall k :: TableCount(t, key, metrics, k) > 0 ==>
              Mean(t, key, metrics, k, j) <= Leader(GroupMean(t, key, metrics), j).means[j]
  {
    var s := GroupMean(t, key, metrics);
    NoGroupsIffNoCompleteRecord(t, key, metrics);
    var g := Leader(s, j);
    forall k | TableCount(t, key, metrics, k) > 0
      ensures Mean(t, key, metrics, k, j) <= g.means[j]
    {
      assert k in SummaryKeys(s);
      var h :| 0 <= h < |s| && SummaryKeys(s)[h] == k;
      assert s[h].key == k;
    }
  }

  // ---- Best sleepers ----

  /** `df['Quality of Sleep'].max()`, skipping missing cells; None when every cell is missing. */
  function MaxQuality(t: Table): (m: Option<int>)
    ensures m.None? <==> forall i :: 0 <= i < |t| ==> t[i].qualityOfSleep.None?
    ensures m.Some? ==> exists i :: 0 <= i < |t| && t[i].qualityOfSleep == m
    ensures m.Some? ==> forall i :: 0 <= i < |t| && t[i].qualityOfSleep.Some? ==> t[i].qualityOfSleep.value <= m.value
  {
    if t == [] then None
    else
      var rest := MaxQuality(t[..|t| - 1]);
      match t[|t| - 1].qualityOfSleep
      case None => rest
      case Some(q) => if rest.Some? && rest.value >= q then rest else Some(q)
  }

  /** `row['Quality of Sleep'] == m`, false when either side is missing. */
  predicate ScoresExactly(x: Record, m: Option<int>)
    ensures x.qualityOfSleep.None? || m.None? ==> !ScoresExactly(x, m)
    ensures x.qualityOfSleep.Some? && m.Some? ==> (ScoresExactly(x, m) <==> x.qualityOfSleep.value == m.value)
  {
    x.qualityOfSleep.Some? && x.qualityOfSleep == m
  }

  /** The record has a quality score and no record of `t` scores higher. */
  ghost predicate IsTopSleeper(t: Table, x: Record)
  {
    x.qualityOfSleep.Some? &&
    forall i :: 0 <= i < |t| && t[i].qualityOfSleep.Some? ==> t[i].qualityOfSleep.value <= x.qualityOfSleep.value
  }

  /**
   * `filtered[filtered['Quality of Sleep'] == max_quality]`, or None where
   * the dashboard shows "No data available" for an empty table: all the
   * top-scoring records, ties included, in table order.
   */
  function BestSleepers(t: Table): (r: Option<Table>)
    ensures r.None? <==> |t| == 0
    ensures r.Some? ==> IsSubsequence(r.value, t)
    ensures r.Some? ==> forall x :: multiset(r.value)[x] == if IsTopSleeper(t, x) then multiset(t)[x] else 0
    ensures r.Some? ==> (|r.value| > 0 <==> exists i :: 0 <= i < |t| && t[i].qualityOfSleep.Some?)
  {
    if |t| == 0 then None
    else
      var m := MaxQuality(t);
      var best := Where(t, x => ScoresExactly(x, m));
      TopSleeperIsAtMax(t, m, best);
      Some(best)
  }

  lemma TopSleeperIsAtMax(t: Table, m: Option<int>, best: Table)
    requires m == MaxQuality(t)
    requires best == Where(t, x => ScoresExactly(x, m))
    ensures forall x :: multiset(best)[x] == if IsTopSleeper(t, x) then multiset(t)[x] else 0
    ensures |best| > 0 <==> exists i :: 0 <= i < |t| && t[i].qualityOfSleep.Some?
  {
    forall x ensures multiset(best)[x] == if IsTopSleeper(t, x) then multiset(t)[x] else 0 {
      if x in t {
        ScoresMaxIffTop(t, m, x);
      }
    }
    if exists i :: 0 <= i < |t| && t[i].qualityOfSleep.Some? {
      var i :| 0 <= i < |t| && t[i].qualityOfSleep == m;
      assert multiset(best)[t[i]] > 0;
    }
    if |best| > 0 {
      assert multiset(best)[best[0]] > 0;
    }
  }

  /**
   * The best-sleepers view as the page computes it, on the gender-filtered
   * table: None when the selection is empty; otherwise top sleepers of the
   * selection, each a record of the table of the selected gender.
   */
  function SelectedBestSleepers(t: Table, sel: string): (r: Option<Table>)
    ensures r.None? <==> |Selection.SelectGender(t, sel)| == 0
    ensures r.Some? ==> forall i :: 0 <= i < |r.value| ==>
              r.value[i] in t && IsTopSleeper(Selection.SelectGender(t, sel), r.value[i])
    ensures r.Some? && sel != Selection.ALL ==> forall i :: 0 <= i < |r.value| ==> Selection.GenderMatches(r.value[i], sel)
    ensures r.Some? ==> IsSubsequence(r.value, Selection.SelectGender(t, sel))
    ensures r.Some? ==> forall x :: multiset(r.value)[x] ==
                                   if IsTopSleeper(Selection.SelectGender(t, sel), x) then multiset(Selection.SelectGender(t, sel))[x] else 0
  {
    var f := Selection.SelectGender(t, sel);
    var r := BestSleepers(f);
    if r.Some? then
      BestSleepersOccur(f, r.value);
      Selection.SelectedRowsOccur(t, sel);
      r
    else r
  }

  lemma BestSleepersOccur(f: Table, best: Table)
    requires BestSleepers(f) == Some(best)
    ensures forall i :: 0 <= i < |best| ==> best[i] in f && IsTopSleeper(f, best[i])
  {
    forall i | 0 <= i < |best|
      ensures best[i] in f && IsTopSleeper(f, best[i])
    {
      assert multiset(best)[best[i]] > 0;
    }
  }

  /** For a record of the table, scoring the maximum is the same as scoring no lower than anyone. */
  lemma ScoresMaxIffTop(t: Table, m: Option<int>, x: Record)
    requires m == MaxQuality(t) && x in t
    ensures ScoresExactly(x, m) <==> IsTopSleeper(t, x)
  {

  }
}
