/**
 The specification of rounding determines the result: a magnitude has one canonical form, and an
 exact value rounds to one magnitude in each direction.
 */
module FloatUnique {
  import opened Powers
  import opened FloatSpec

  lemma OneFormOrdered(sem: Semantics, E: int, S: int, e: int, m: int)
    requires ValidSemantics(sem) && Canonical(sem, E, S) && Canonical(sem, e, m) && e <= E
    requires Mag(sem, E, S) == Mag(sem, e, m)
    ensures E == e && S == m
  {
    UnitsExact(sem, e, m, E);
    ScaleOrder(S as real, Units(e, m, E), Lsb(sem, E));
    assert (m as real) / 2.0 < Pow2(sem.precision - 1) as real;
    if e < E {
      ScaleDown(m as real, e - E);
    }
  }

  /** Canonical forms of one magnitude are the same. */
  lemma OneForm(sem: Semantics, r: Rounded, s: Rounded)
    requires ValidSemantics(sem) && r.Finite? && s.Finite?
    requires Canonical(sem, r.e, r.m) && Canonical(sem, s.e, s.m) && Mag(sem, r.e, r.m) == Mag(sem, s.e, s.m)
    ensures r == s
  {
    if s.e <= r.e {
      OneFormOrdered(sem, r.e, r.m, s.e, s.m);
    } else {
      OneFormOrdered(sem, s.e, s.m, r.e, r.m);
    }
  }

  /** Of two equally close magnitudes on either side of `x`, the upper one is the successor of the lower. */
  lemma TieNeighbours(sem: Semantics, x: real, r: Rounded, s: Rounded)
    requires ValidSemantics(sem) && r.Finite? && s.Finite?
    requires Canonical(sem, r.e, r.m) && Canonical(sem, s.e, s.m)
    requires Mag(sem, r.e, r.m) < x < Mag(sem, s.e, s.m)
    requires forall e, m :: Representable(sem, e, m) ==> Distance(Mag(sem, r.e, r.m), x) <= Distance(Mag(sem, e, m), x)
    requires Distance(Mag(sem, r.e, r.m), x) == Distance(Mag(sem, s.e, s.m), x)
    ensures s == Successor(sem, r.e, r.m)
  {
    var w, l := Units(s.e, s.m, r.e), Lsb(sem, r.e);
    Gap(sem, r.e, r.m, s.e, s.m);
    UnitsExact(sem, s.e, s.m, r.e);
    ScaleOrder(w, r.m as real, l);
    ScaleOrder((r.m + 1) as real, w, l);
    ScaleOrder(r.m as real, (r.m + 1) as real, l);
    SuccessorValue(sem, r.e, r.m);
    var n := Successor(sem, r.e, r.m);
    if n.Finite? {
      assert Representable(sem, n.e, n.m);
      OneForm(sem, n, s);
    } else {
      NoneAbove(sem, r.e, r.m, s.e, s.m);
    }
  }

  lemma NoneAbove(sem: Semantics, E: int, S: int, e: int, m: int)
    requires ValidSemantics(sem) && Canonical(sem, E, S) && Successor(sem, E, S).Infinite? && Representable(sem, e, m)
    ensures Units(e, m, E) <= S as real
  {
    SuccessorValue(sem, E, S);
    Gap(sem, E, S, e, m);
  }

  /** Rounding is a function: the specification admits one result. */
  lemma RoundingIsUnique(sem: Semantics, d: Direction, x: real, r: Rounded, s: Rounded)
    requires ValidSemantics(sem) && RoundsTo(sem, d, x, r) && RoundsTo(sem, d, x, s)
    ensures r == s
  {
    match d {
      case Down => OneForm(sem, r, s);
      case Up => if r.Finite? && s.Finite? { OneForm(sem, r, s); }
      case NearestEven => NearestIsUnique(sem, x, r, s, true);
      case NearestAway => NearestIsUnique(sem, x, r, s, false);
    }
  }

  lemma NearestIsUnique(sem: Semantics, x: real, r: Rounded, s: Rounded, toEven: bool)
    requires ValidSemantics(sem) && RoundsNearest(sem, x, r, toEven) && RoundsNearest(sem, x, s, toEven)
    ensures r == s
  {
    if r.Finite? {
      var a, b := Mag(sem, r.e, r.m), Mag(sem, s.e, s.m);
      assert Representable(sem, r.e, r.m) && Representable(sem, s.e, s.m);
      assert Closer(a, b, x, if toEven then r.m % 2 == 0 else a > x);
      assert Closer(b, a, x, if toEven then s.m % 2 == 0 else b > x);
      if a == b {
        OneForm(sem, r, s);
      } else if a < b {
        NoTieOfEvens(sem, x, r, s);
      } else {
        NoTieOfEvens(sem, x, s, r);
      }
    }
  }

  /** Two closest magnitudes cannot both be even. */
  lemma NoTieOfEvens(sem: Semantics, x: real, r: Rounded, s: Rounded)
    requires ValidSemantics(sem) && RoundsNearest(sem, x, r, true) && RoundsNearest(sem, x, s, true)
    requires r.Finite? && s.Finite?
    ensures !(Mag(sem, r.e, r.m) < Mag(sem, s.e, s.m))
  {
    var a, b := Mag(sem, r.e, r.m), Mag(sem, s.e, s.m);
    if a < b {
      assert Closer(a, b, x, r.m % 2 == 0);
      assert Closer(b, a, x, s.m % 2 == 0);
      TieNeighbours(sem, x, r, s);
      SuccessorValue(sem, r.e, r.m);
    }
  }
}
