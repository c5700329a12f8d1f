/**
 * The in-memory survey table: one record per person, in file order, with
 * every cell that the file may leave empty as an Option.
 */
module Table {
  import opened Wrappers

  /** One row of the sleep health and lifestyle dataset (the columns the dashboard reads). */
  datatype Record = Record(
    personId: int,
    gender: Option<string>,
    age: Option<int>,
    occupation: Option<string>,
    sleepDuration: Option<real>,
    qualityOfSleep: Option<int>,
    physicalActivityLevel: Option<int>,
    stressLevel: Option<int>)

  type Table = seq<Record>

  /** The categorical columns the summaries group by. */
  datatype KeyColumn = GenderColumn | OccupationColumn

  /** The numeric columns the summaries average. */
  datatype MetricColumn = QualityOfSleep | SleepDuration | PhysicalActivityLevel | StressLevel

  function KeyOf(r: Record, c: KeyColumn): Option<string>
  {
    match c
    case GenderColumn => r.gender
    case OccupationColumn => r.occupation
  }

  function AsReal(v: Option<int>): Option<real>
  {
    match v
    case None => None
    case Some(x) => Some(x as real)
  }

  function MetricOf(r: Record, c: MetricColumn): Option<real>
  {
    match c
    case QualityOfSleep => AsReal(r.qualityOfSleep)
    case SleepDuration => r.sleepDuration
    case PhysicalActivityLevel => AsReal(r.physicalActivityLevel)
    case StressLevel => AsReal(r.stressLevel)
  }

  /** `a` is obtained from `b` by deleting elements, keeping the order of the rest. */
  predicate IsSubsequence<T(==)>(a: seq<T>, b: seq<T>)
    decreases |b|
  {
    a == [] || (b != [] && ((a[0] == b[0] && IsSubsequence(a[1..], b[1..])) || IsSubsequence(a, b[1..])))
  }

  /**
   * Boolean-mask selection `df[cond]`: the rows satisfying `p`, in table
   * order, each as often as it occurs in `s`, and no other rows.
   */
  function Where<T(==,!new)>(s: seq<T>, p: T -> bool): (r: seq<T>)
    ensures IsSubsequence(r, s)
    ensures forall i :: 0 <= i < |r| ==> p(r[i])
    ensures forall x :: multiset(r)[x] == if p(x) then multiset(s)[x] else 0
  {
    if s == [] then []
    else
      assert s == [s[0]] + s[1..];
      if p(s[0]) then [s[0]] + Where(s[1..], p) else Where(s[1..], p)
  }

  /** Selecting from a concatenation selects from each part. */
  lemma {:induction false} WhereConcat<T(!new)>(a: seq<T>, b: seq<T>, p: T -> bool)
    ensures Where(a + b, p) == Where(a, p) + Where(b, p)
  {
    if a == [] {
      assert a + b == b;
    } else {
      assert (a + b)[0] == a[0];
      assert (a + b)[1..] == a[1..] + b;
      WhereConcat(a[1..], b, p);
    }
  }

  /** Two masks that agree on every row select the same rows. */
  lemma {:induction false} WhereCongruence<T(!new)>(s: seq<T>, p: T -> bool, q: T -> bool)
    requires forall x :: p(x) == q(x)
    ensures Where(s, p) == Where(s, q)
  {
    if s != [] {
      WhereCongruence(s[1..], p, q);
    }
  }

  /** ASCII lower-casing of one character. */
  function LowerChar(c: char): char
  {
    if 'A' <= c <= 'Z' then (c as int + 32) as char else c
  }

  /** `str.lower()` restricted to ASCII letters. */
  function Lower(s: string): (r: string)
    ensures |r| == |s|
    ensures forall i :: 0 <= i < |s| && 'A' <= s[i] <= 'Z' ==> r[i] as int == s[i] as int + 32
    ensures forall i :: 0 <= i < |s| && !('A' <= s[i] <= 'Z') ==> r[i] == s[i]
    ensures forall i :: 0 <= i < |r| ==> !('A' <= r[i] <= 'Z')
  {
    seq(|s|, i requires 0 <= i < |s| => LowerChar(s[i]))
  }
}
