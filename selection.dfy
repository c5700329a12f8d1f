/**
 * The interactive view: the gender drop-down's options, the gender filter
 * and the first/last-rows window applied to the filtered table.
 */
module Selection {
  import opened Wrappers
  import opened Table
  import opened Ordering

  /** The drop-down entry that disables the gender filter. */
  const ALL := "All"

  /** The row-count slider's bounds. */
  const MIN_ROWS := 1
  const MAX_ROWS := 20

  /** The length of the fixed previews shown above the drop-down. */
  const PREVIEW_ROWS := 5

  /** Which end of the filtered table the window shows. */
  datatype RowPosition = First | Last

  function Min(a: int, b: int): int
  {
    if a <= b then a else b
  }

  /**
   * `df['Gender'].str.lower() == sel.lower()`: a missing gender never
   * matches.
   */
  predicate GenderMatches(r: Record, sel: string)
  {
    r.gender.Some? && Lower(r.gender.value) == Lower(sel)
  }

  /** The whole table for "All"; otherwise the rows of the selected gender, in table order. */
  function SelectGender(t: Table, sel: string): (r: Table)
    ensures sel == ALL ==> r == t
    ensures sel != ALL ==> IsSubsequence(r, t)
    ensures sel != ALL ==> forall i :: 0 <= i < |r| ==> GenderMatches(r[i], sel)
    ensures sel != ALL ==> forall x :: multiset(r)[x] == if GenderMatches(x, sel) then multiset(t)[x] else 0
  {
    if sel == ALL then t else Where(t, x => GenderMatches(x, sel))
  }

  /** The filter ignores letter case in the selection. */
  lemma SelectionIgnoresCase(t: Table, a: string, b: string)
    requires a != ALL && b != ALL && Lower(a) == Lower(b)
    ensures SelectGender(t, a) == SelectGender(t, b)
  {
    WhereCongruence(t, x => GenderMatches(x, a), x => GenderMatches(x, b));
  }

  /** `head(n)` for First, `tail(n)` for Last. */
  function Window(t: Table, pos: RowPosition, n: nat): (r: Table)
    ensures |r| == Min(n, |t|)
    ensures pos == First ==> r <= t
    ensures pos == Last ==> t == t[..|t| - |r|] + r
  {
    var m := Min(n, |t|);
    match pos
    case First => t[..m]
    case Last => t[|t| - m..]
  }

  /** A window at least as long as the table shows the whole table, from either end. */
  lemma WindowCoversShortTable(t: Table, n: nat)
    requires |t| <= n
    ensures Window(t, First, n) == t && Window(t, Last, n) == t
  {
  }

  /** `df.head(5)` and `df.tail(5)`: the fixed previews of the whole table. */
  function Preview(t: Table, pos: RowPosition): (r: Table)
    ensures |r| == Min(PREVIEW_ROWS, |t|)
    ensures pos == First ==> r <= t
    ensures pos == Last ==> t == t[..|t| - |r|] + r
  {
    Window(t, pos, PREVIEW_ROWS)
  }

  /** `df[df['Gender'].str.lower() == 'male'].head(5)`: the fixed preview of the male rows. */
  function MalePreview(t: Table): (r: Table)
    ensures |r| == Min(PREVIEW_ROWS, |SelectGender(t, "male")|)
    ensures r <= SelectGender(t, "male")
    ensures forall i :: 0 <= i < |r| ==> GenderMatches(r[i], "Male")
  {
    Window(SelectGender(t, "male"), First, PREVIEW_ROWS)
  }

  /** The rows shown for the drop-down, radio and slider settings. */
  function DisplayedRows(t: Table, sel: string, pos: RowPosition, n: nat): (r: Table)
    requires MIN_ROWS <= n <= MAX_ROWS
    ensures |r| == Min(n, |SelectGender(t, sel)|) && |r| <= MAX_ROWS
    ensures pos == First ==> r <= SelectGender(t, sel)
    ensures pos == Last ==> SelectGender(t, sel) == SelectGender(t, sel)[..|SelectGender(t, sel)| - |r|] + r
    ensures forall i :: 0 <= i < |r| ==> r[i] in t
    ensures sel != ALL ==> forall i :: 0 <= i < |r| ==> GenderMatches(r[i], sel)
  {
    var f := SelectGender(t, sel);
    WindowRowsOccur(f, pos, n);
    SelectedRowsOccur(t, sel);
    Window(f, pos, n)
  }

  lemma WindowRowsOccur(t: Table, pos: RowPosition, n: nat)
    ensures forall i :: 0 <= i < |Window(t, pos, n)| ==> Window(t, pos, n)[i] in t
  {

  }

  lemma SelectedRowsOccur(t: Table, sel: string)
    ensures forall x :: x in SelectGender(t, sel) ==> x in t
  {

  }

  /** Some row has gender `g`. */
  ghost predicate HasGender(t: Table, g: string)
  {
    exists i :: 0 <= i < |t| && t[i].gender == Some(g)
  }

  /** `df['Gender'].dropna().unique()`: each present gender once, in order of first appearance. */
  function Genders(t: Table): (u: seq<string>)
    ensures NoDuplicates(u)
    ensures forall g :: g in u <==> HasGender(t, g)
  {
    if t == [] then []
    else
      var init := t[..|t| - 1];
      var u := Genders(init);
      assert forall g :: HasGender(t, g) <==> HasGender(init, g) || t[|t| - 1].gender == Some(g) by {
        forall g ensures HasGender(t, g) <==> HasGender(init, g) || t[|t| - 1].gender == Some(g) {
          if HasGender(t, g) {
            var i :| 0 <= i < |t| && t[i].gender == Some(g);
            if i < |t| - 1 {
              assert init[i] == t[i];
            }
          }
          if HasGender(init, g) {
            var i :| 0 <= i < |init| && init[i].gender == Some(g);
            assert t[i] == init[i];
          }
        }
      }
      match t[|t| - 1].gender
      case None => u
      case Some(g) => if g in u then u else u + [g]
  }

  /** The index of the first row whose gender is `g`, or `|t|` when there is none. */
  function FirstRow(t: Table, g: string): (k: nat)
    ensures k <= |t|
    ensures k < |t| ==> t[k].gender == Some(g)
    ensures forall i :: 0 <= i < k ==> t[i].gender != Some(g)
  {
    if t == [] then 0
    else if t[0].gender == Some(g) then 0
    else 1 + FirstRow(t[1..], g)
  }

  lemma FirstRowOfPresentGender(t: Table, g: string)
    requires HasGender(t, g)
    ensures FirstRow(t, g) < |t|
  {
  }

  /** Appending a row does not move the first appearance of a gender already present. */
  lemma FirstRowStable(t: Table, x: Record, g: string)
    requires HasGender(t, g)
    ensures FirstRow(t + [x], g) == FirstRow(t, g)
  {
    var k := FirstRow(t, g);
    var k' := FirstRow(t + [x], g);
    assert (t + [x])[k] == t[k];
  }

  /** The drop-down lists genders in the order in which they first appear in the table. */
  lemma {:induction false} GendersInFirstAppearanceOrder(t: Table)
    ensures forall i, j :: 0 <= i < j < |Genders(t)| ==> FirstRow(t, Genders(t)[i]) < FirstRow(t, Genders(t)[j])
  {
    if t != [] {
      var init := t[..|t| - 1];
      var x := t[|t| - 1];
      assert t == init + [x];
      GendersInFirstAppearanceOrder(init);
      var u, w := Genders(init), Genders(t);
      assert w[..|u|] == u;
      forall i | 0 <= i < |u| ensures FirstRow(t, u[i]) == FirstRow(init, u[i]) < |init| {
        FirstRowStable(init, x, u[i]);
        FirstRowOfPresentGender(init, u[i]);
      }
      if |w| > |u| {
        var g := x.gender.value;
        assert w == u + [g];
        assert !HasGender(init, g);
        assert FirstRow(t, g) == |init|;
      }
    }
  }

  /** The drop-down options: "All", then each present gender exactly once. */
  function GenderOptions(t: Table): (r: seq<string>)
    ensures |r| >= 1 && r[0] == ALL
    ensures NoDuplicates(r[1..])
    ensures forall g :: g in r[1..] <==> HasGender(t, g)
  {
    assert ([ALL] + Genders(t))[1..] == Genders(t);
    [ALL] + Genders(t)
  }

  /** Every drop-down choice other than "All" selects at least one row. */
  lemma OptionSelectsSomeRow(t: Table, sel: string)
    requires sel in GenderOptions(t)
    requires |t| > 0
    ensures |SelectGender(t, sel)| > 0
  {
    if sel != ALL {
      var r := GenderOptions(t);
      var k :| 0 <= k < |r| && r[k] == sel;
      assert r[1..][k - 1] == sel;
      var i :| 0 <= i < |t| && t[i].gender == Some(sel);
      assert GenderMatches(t[i], sel);
      assert multiset(SelectGender(t, sel))[t[i]] > 0;
    }
  }
}
