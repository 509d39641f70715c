/** Weighted sums over sequences, used to count threads by what they are doing. */
module Sums {

  function Sum<T>(s: seq<T>, weight: T -> nat): nat
  {
    if s == [] then 0 else Sum(s[..|s| - 1], weight) + weight(s[|s| - 1])
  }

  lemma {:induction false} SumUpdate<T>(s: seq<T>, i: nat, x: T, weight: T -> nat)
    requires i < |s|
    ensures Sum(s[i := x], weight) + weight(s[i]) == Sum(s, weight) + weight(x)
  {
    var last := |s| - 1;
    if i < last {
      SumUpdate(s[..last], i, x, weight);
      assert s[i := x][..last] == s[..last][i := x];
    } else {
      assert s[i := x][..last] == s[..last];
    }
  }

  lemma SumAppend<T>(s: seq<T>, x: T, weight: T -> nat)
    ensures Sum(s + [x], weight) == Sum(s, weight) + weight(x)
  {
    assert (s + [x])[..|s|] == s;
  }

  /** A positive total has a positive summand. */
  lemma {:induction false} SumPositive<T>(s: seq<T>, weight: T -> nat) returns (i: nat)
    requires Sum(s, weight) > 0
    ensures i < |s| && weight(s[i]) > 0
  {
    var last := |s| - 1;
    if weight(s[last]) > 0 {
      i := last;
    } else {
      i := SumPositive(s[..last], weight);
    }
  }

  /** Every summand is bounded by the total. */
  lemma {:induction false} SumAtLeast<T>(s: seq<T>, i: nat, weight: T -> nat)
    requires i < |s|
    ensures weight(s[i]) <= Sum(s, weight)
  {
    if i < |s| - 1 {
      SumAtLeast(s[..|s| - 1], i, weight);
    }
  }
}
