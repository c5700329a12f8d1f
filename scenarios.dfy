/** Small fixed tables on which the pipeline's results are worked out in full. */
module Scenarios {
  import opened Wrappers
  import opened Table
  import opened Ordering
  import opened Selection
  import opened Summary
  import opened Ranking

  function Person(id: int, gender: string, quality: int, stress: int): Record
  {
    Record(id, Some(gender), None, None, None, Some(quality), None, Some(stress))
  }

  /** Genders Male, Female, Male with stress levels 6, 4 and 8. */
  function StressFixture(): Table
  {
    [Person(1, "Male", 7, 6), Person(2, "Female", 7, 4), Person(3, "Male", 7, 8)]
  }

  lemma StressFixtureRows()
    ensures Project(StressFixture(), GenderColumn, [StressLevel])
         == [Row("Male", [6.0]), Row("Female", [4.0]), Row("Male", [8.0])]
  {
    var p1, p2, p3 := Person(1, "Male", 7, 6), Person(2, "Female", 7, 4), Person(3, "Male", 7, 8);
    var t := [p1, p2, p3];
    var ms := [StressLevel];
    assert ProjectRow(p1, GenderColumn, ms).values == [6.0];
    assert ProjectRow(p2, GenderColumn, ms).values == [4.0];
    assert ProjectRow(p3, GenderColumn, ms).values == [8.0];
    assert t[1..] == [p2, p3] && [p2, p3][1..] == [p3] && [p3][1..] == [];
    assert Project([p3], GenderColumn, ms) == [Row("Male", [8.0])];
    assert Project([p2, p3], GenderColumn, ms) == [Row("Female", [4.0]), Row("Male", [8.0])];
  }

  lemma MaleIsNotFemale()
    ensures "Male" != "Female" && Below("Female", "Male") && !Below("Male", "Female")
  {

  }

  lemma StressFixtureKeys()
    ensures SortedDistinct(["Male", "Female", "Male"]) == ["Female", "Male"]
  {
    MaleIsNotFemale();
    assert ["Male", "Female", "Male"][..2] == ["Male", "Female"];
    assert ["Male", "Female"][..1] == ["Male"];
    assert SortedDistinct(["Male"]) == ["Male"];
    assert SortedDistinct(["Male", "Female"]) == ["Female", "Male"];
    assert ["Female", "Male"][1..] == ["Male"];
  }

  lemma StressFixtureSums(rows: seq<Row>)
    requires rows == [Row("Male", [6.0]), Row("Female", [4.0]), Row("Male", [8.0])]
    ensures RowKeys(rows) == ["Male", "Female", "Male"]
    ensures RowCount(rows, "Female") == 1 && RowSum(rows, "Female", 0) == 4.0
    ensures RowCount(rows, "Male") == 2 && RowSum(rows, "Male", 0) == 14.0
  {
    MaleIsNotFemale();
    var r1, r2, r3 := Row("Male", [6.0]), Row("Female", [4.0]), Row("Male", [8.0]);
    var none: seq<Row> := [];
    assert rows == [r1, r2, r3];
    assert rows[1..] == [r2, r3] && [r2, r3][1..] == [r3] && [r3][1..] == none;
    assert RowKeys([r3]) == ["Male"];
    assert RowKeys([r2, r3]) == ["Female", "Male"];
    assert RowSum(none, "Female", 0) == 0.0 && RowSum(none, "Male", 0) == 0.0;
    assert RowSum([r3], "Female", 0) == 0.0 + RowSum(none, "Female", 0);
    assert RowSum([r3], "Male", 0) == r3.values[0] + RowSum(none, "Male", 0);
    assert RowCount(none, "Female") == 0 && RowCount(none, "Male") == 0;
    assert RowCount([r3], "Female") == 0 && RowCount([r3], "Male") == 1;
    assert RowSum([r2, r3], "Female", 0) == r2.values[0] + RowSum([r3], "Female", 0);
    assert RowSum([r2, r3], "Male", 0) == 0.0 + RowSum([r3], "Male", 0);
    assert RowCount([r2, r3], "Female") == 1 && RowSum([r2, r3], "Female", 0) == 4.0;
    assert RowCount([r2, r3], "Male") == 1 && RowSum([r2, r3], "Male", 0) == 8.0;
  }

  /** Mean stress by gender over stress levels 6, 4 and 8: Female 4, then Male 7. */
  lemma StressByGender()
    ensures GroupMean(StressFixture(), GenderColumn, [StressLevel])
         == [GroupSummary("Female", [4.0]), GroupSummary("Male", [7.0])]
  {
    var rows := Project(StressFixture(), GenderColumn, [StressLevel]);
    StressFixtureRows();
    StressFixtureSums(rows);
    StressFixtureKeys();
    var s := GroupMean(StressFixture(), GenderColumn, [StressLevel]);
    assert |s| == 2 && s[0].key == "Female" && s[1].key == "Male";
    assert s[0].means == [4.0];
    assert s[1].means == [7.0];
  }

  /** Filtering the stress table to "Female" and showing its first row gives the first Female record. */
  lemma FirstFemaleRow()
    ensures DisplayedRows(StressFixture(), "Female", First, 1) == [Person(2, "Female", 7, 4)]
  {

  }

  /** Quality scores 9, 7, 9 and 8. */
  function SleepFixture(): Table
  {
    [Person(1, "Male", 9, 5), Person(2, "Female", 7, 5), Person(3, "Male", 9, 5), Person(4, "Female", 8, 5)]
  }

  lemma SleepFixtureMax()
    ensures MaxQuality(SleepFixture()) == Some(9)
  {

  }

  lemma SleepFixtureTop()
    ensures Where(SleepFixture(), x => ScoresExactly(x, Some(9))) == [Person(1, "Male", 9, 5), Person(3, "Male", 9, 5)]
  {
    var p1, p2, p3, p4 := Person(1, "Male", 9, 5), Person(2, "Female", 7, 5), Person(3, "Male", 9, 5), Person(4, "Female", 8, 5);
    var t := [p1, p2, p3, p4];
    var p: Record -> bool := x => ScoresExactly(x, Some(9));
    var none: seq<Record> := [];
    assert t[1..] == [p2, p3, p4] && [p2, p3, p4][1..] == [p3, p4] && [p3, p4][1..] == [p4] && [p4][1..] == none;
    assert Where(none, p) == none;
    assert Where([p4], p) == none;
    assert Where([p3, p4], p) == [p3];
    assert Where([p2, p3, p4], p) == [p3];
    assert Where(t, p) == [p1, p3];
  }

  /** Quality scores 9, 7, 9 and 8: both records scoring 9 are kept, in order. */
  lemma BestSleepersKeepTies()
    ensures BestSleepers(SleepFixture()) == Some([Person(1, "Male", 9, 5), Person(3, "Male", 9, 5)])
  {
    var t := SleepFixture();
    SleepFixtureMax();
    SleepFixtureTop();
    WhereCongruence(t, x => ScoresExactly(x, MaxQuality(t)), x => ScoresExactly(x, Some(9)));
  }

  /** Two groups tied on the largest mean: `idxmax` picks the earlier one. */
  lemma FirstOfTiedGroupsLeads()
    ensures Leader([GroupSummary("Doctor", [6.0]), GroupSummary("Nurse", [7.5]), GroupSummary("Teacher", [7.5])], 0)
         == GroupSummary("Nurse", [7.5])
  {

  }
}
