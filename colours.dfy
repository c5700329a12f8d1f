/** The bar colours of the two stress-level charts. */
module Colours {
  import opened Ranking

  /** The matplotlib colours 'red', 'green' and 'gray'. */
  datatype Colour = Red | Green | Gray

  /**
   * One colour per summary value, appended in column order: red for the
   * largest value, otherwise green for the smallest, otherwise gray.
   */
  method BarColours(values: seq<real>) returns (colours: seq<Colour>)
    ensures |colours| == |values|
    ensures forall i :: 0 <= i < |values| ==> (colours[i] == Red <==> IsLargest(values, i))
    ensures forall i :: 0 <= i < |values| ==>
              (colours[i] == Green <==> !IsLargest(values, i) && IsSmallest(values, i))
    ensures forall i :: 0 <= i < |values| ==>
              (colours[i] == Gray <==> !IsLargest(values, i) && !IsSmallest(values, i))
    ensures |values| > 0 ==> Red in colours
    ensures (forall i, j :: 0 <= i < |values| && 0 <= j < |values| ==> values[i] == values[j]) ==>
              forall i :: 0 <= i < |colours| ==> colours[i] == Red
  {
    colours := [];
    // On an empty column pandas yields NaN here; the loop below then never runs.
    var maxVal := if |values| > 0 then SeqMax(values) else 0.0;
    var minVal := if |values| > 0 then SeqMin(values) else 0.0;
    for k := 0 to |values|
      invariant |colours| == k
      invariant forall i :: 0 <= i < k ==> (colours[i] == Red <==> values[i] == maxVal)
      invariant forall i :: 0 <= i < k ==> (colours[i] == Green <==> values[i] != maxVal && values[i] == minVal)
      invariant forall i :: 0 <= i < k ==> (colours[i] == Gray <==> values[i] != maxVal && values[i] != minVal)
    {
      if values[k] == maxVal {
        colours := colours + [Red];
      } else if values[k] == minVal {
        colours := colours + [Green];
      } else {
        colours := colours + [Gray];
      }
    }
    forall i | 0 <= i < |values|
      ensures (values[i] == maxVal <==> IsLargest(values, i)) && (values[i] == minVal <==> IsSmallest(values, i))
    {
      ExtremesCharacterised(values, i);
    }
    if |values| > 0 {
      var top :| 0 <= top < |values| && values[top] == maxVal;
      assert colours[top] == Red;
    }
  }
}
