/**
 Sums of natural numbers, used as measures of the work that is left.
 */
module Measures {

  function SumOf(ns: seq<nat>): nat {
    if ns == [] then 0 else SumOf(ns[..|ns| - 1]) + ns[|ns| - 1]
  }

  lemma {:induction false} SumUpdate(ns: seq<nat>, i: nat, x: nat)
    requires i < |ns|
    ensures SumOf(ns[i := x]) == SumOf(ns) - ns[i] + x
  {
    var ns' := ns[i := x];
    if i == |ns| - 1 {
      assert ns'[..|ns| - 1] == ns[..|ns| - 1];
    } else {
      SumUpdate(ns[..|ns| - 1], i, x);
      assert ns'[..|ns| - 1] == ns[..|ns| - 1][i := x];
    }
  }

  lemma {:induction false} SumSmaller(a: seq<nat>, b: seq<nat>)
    requires |a| == |b| > 0 && forall i :: 0 <= i < |a| ==> a[i] < b[i]
    ensures SumOf(a) < SumOf(b)
  {
    if |a| > 1 {
      SumSmaller(a[..|a| - 1], b[..|b| - 1]);
    } else {
      assert a[..0] == [] && b[..0] == [];
    }
  }
}
