/**
 The scan shared by selectNode and getBestChild: keep the first value
 strictly greater than the best so far, starting from a floor value.
 */
module ArgMax {
  import opened Options

  /** `i` holds a maximal value of `xs`, and every earlier value is strictly smaller. */
  predicate IsFirstMax(xs: seq<real>, i: int)
  {
    && 0 <= i < |xs|
    && (forall j :: 0 <= j < |xs| ==> xs[j] <= xs[i])
    && (forall j :: 0 <= j < i ==> xs[j] < xs[i])
  }

  /**
   The first index of a maximal value, provided that value beats `floor`;
   None when no value exceeds `floor`.
   */
  method FirstMax(xs: seq<real>, floor: real) returns (r: Option<nat>)
    ensures r.None? <==> forall j :: 0 <= j < |xs| ==> xs[j] <= floor
    ensures r.Some? ==> IsFirstMax(xs, r.value) && xs[r.value] > floor
  {
    var best := floor;
    r := None;
    for i := 0 to |xs|
      invariant r.None? ==> best == floor && forall j :: 0 <= j < i ==> xs[j] <= floor
      invariant r.Some? ==> r.value < i && best == xs[r.value] && best > floor
      invariant r.Some? ==> forall j :: 0 <= j < i ==> xs[j] <= best
      invariant r.Some? ==> forall j :: 0 <= j < r.value ==> xs[j] < best
    {
      if xs[i] > best {
        best := xs[i];
        r := Some(i);
      }
    }
  }

  lemma FirstMaxUnique(xs: seq<real>, i: int, k: int)
    requires IsFirstMax(xs, i) && IsFirstMax(xs, k)
    ensures i == k
  {
    assert xs[k] <= xs[i] && xs[i] <= xs[k];
  }
}
