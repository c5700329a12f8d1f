/** Sums and arithmetic means of sequences of reals. */
module Averages {

  function Sum(s: seq<real>): real
  {
    if s == [] then 0.0 else s[0] + Sum(s[1..])
  }

  /** The mean of a non-empty sequence of values. */
  function Average(s: seq<real>): (m: real)
    requires |s| > 0
    ensures m * (|s| as real) == Sum(s)
  {
    Sum(s) / (|s| as real)
  }

  lemma {:induction false} SumWithinBounds(s: seq<real>, lo: real, hi: real)
    requires forall i :: 0 <= i < |s| ==> lo <= s[i] <= hi
    ensures lo * (|s| as real) <= Sum(s) <= hi * (|s| as real)
  {
    if s != [] {
      SumWithinBounds(s[1..], lo, hi);
      assert lo * (|s| as real) == lo * (|s[1..]| as real) + lo;
      assert hi * (|s| as real) == hi * (|s[1..]| as real) + hi;
    }
  }

  /** The mean lies between any lower and upper bound of the values. */
  lemma AverageWithinBounds(s: seq<real>, lo: real, hi: real)
    requires |s| > 0
    requires forall i :: 0 <= i < |s| ==> lo <= s[i] <= hi
    ensures lo <= Average(s) <= hi
  {
    SumWithinBounds(s, lo, hi);
    var c := |s| as real;
    var m := Average(s);
    assert m * c == Sum(s);
    assert (m - lo) * c == Sum(s) - lo * c;
    assert (hi - m) * c == hi * c - Sum(s);
  }
}
