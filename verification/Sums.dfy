/**
 Finite sums of reals.
 */
module Sums {
  import opened Reals

  function Sum(n: nat, f: nat -> real): real {
    if n == 0 then 0.0 else Sum(n - 1, f) + f(n - 1)
  }

  lemma {:induction false} SumEq(n: nat, f: nat -> real, g: nat -> real)
    requires forall i: nat :: i < n ==> f(i) == g(i)
    ensures Sum(n, f) == Sum(n, g)
  {
    if n > 0 {
      SumEq(n - 1, f, g);
    }
  }

  lemma {:induction false} SumZero(n: nat, f: nat -> real)
    requires forall i: nat :: i < n ==> f(i) == 0.0
    ensures Sum(n, f) == 0.0
  {
    if n > 0 {
      SumZero(n - 1, f);
    }
  }

  lemma {:induction false} SumPlus(n: nat, f: nat -> real, g: nat -> real, h: nat -> real)
    requires forall i: nat :: i < n ==> h(i) == f(i) + g(i)
    ensures Sum(n, h) == Sum(n, f) + Sum(n, g)
  {
    if n > 0 {
      SumPlus(n - 1, f, g, h);
    }
  }

  lemma {:induction false} SumScale(n: nat, c: real, f: nat -> real, g: nat -> real)
    requires forall i: nat :: i < n ==> g(i) == Times(c, f(i))
    ensures Sum(n, g) == Times(c, Sum(n, f))
  {
    if n > 0 {
      SumScale(n - 1, c, f, g);
      Distributes(c, Sum(n - 1, f), f(n - 1));
    }
  }

  /** A sum of which one term changes. */
  lemma {:induction false} SumChange(n: nat, f: nat -> real, g: nat -> real, k: nat)
    requires k < n && forall i: nat :: i < n && i != k ==> g(i) == f(i)
    ensures Sum(n, g) == Sum(n, f) + (g(k) - f(k))
  {
    if k == n - 1 {
      SumEq(n - 1, f, g);
    } else {
      SumChange(n - 1, f, g, k);
    }
  }

  lemma {:induction false} SumNonNegative(n: nat, f: nat -> real)
    requires forall i: nat :: i < n ==> f(i) >= 0.0
    ensures Sum(n, f) >= 0.0
    ensures forall i: nat :: i < n ==> f(i) <= Sum(n, f)
  {
    if n > 0 {
      SumNonNegative(n - 1, f);
    }
  }

  lemma {:induction false} SumPositive(n: nat, f: nat -> real) returns (i: nat)
    requires Sum(n, f) > 0.0
    ensures i < n && f(i) > 0.0
  {
    if f(n - 1) > 0.0 {
      i := n - 1;
    } else {
      i := SumPositive(n - 1, f);
    }
  }

  /** The order of a double summation may be exchanged. */
  lemma {:induction false} SumSwap(n: nat, m: nat, f: (nat, nat) -> real)
    ensures Sum(n, (i: nat) => Sum(m, (j: nat) => f(i, j))) == Sum(m, (j: nat) => Sum(n, (i: nat) => f(i, j)))
  {
    var rows := (i: nat) => Sum(m, (j: nat) => f(i, j));
    var cols := (j: nat) => Sum(n, (i: nat) => f(i, j));
    if n == 0 {
      SumZero(m, cols);
    } else {
      var fewer := (j: nat) => Sum(n - 1, (i: nat) => f(i, j));
      var last := (j: nat) => f(n - 1, j);
      SumSwap(n - 1, m, f);
      SumEq(n - 1, rows, (i: nat) => Sum(m, (j: nat) => f(i, j)));
      SumEq(m, fewer, (j: nat) => Sum(n - 1, (i: nat) => f(i, j)));
      SumPlus(m, fewer, last, cols);
      SumEq(m, last, (j: nat) => f(n - 1, j));
    }
  }
}
