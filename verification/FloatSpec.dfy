/**
 What a correctly rounded result is: the representable magnitudes of a binary format and, for
 each direction, which of them an exact real magnitude rounds to (section 4.3 of IEEE 754-2008).
 Nothing here refers to how a result is computed.
 */
module FloatSpec {
  import opened Powers

  /** Exponent range and number of significand bits, including the integer bit. */
  datatype Semantics = Semantics(maxExponent: int, minExponent: int, precision: nat)

  const IEEE_HALF := Semantics(15, -14, 11)
  const IEEE_SINGLE := Semantics(127, -126, 24)
  const IEEE_DOUBLE := Semantics(1023, -1022, 53)

  predicate ValidSemantics(sem: Semantics) {
    sem.minExponent <= sem.maxExponent && sem.precision >= 2
  }

  lemma FormatsAreValid()
    ensures ValidSemantics(IEEE_HALF) && ValidSemantics(IEEE_SINGLE) && ValidSemantics(IEEE_DOUBLE)
  {
  }

  datatype RoundingMode = NearestTiesToEven | TowardPositive | TowardNegative | TowardZero | NearestTiesToAway

  /** The effect of a rounding mode on the magnitude of a number of given sign. */
  datatype Direction = Down | Up | NearestEven | NearestAway

  function DirectionOf(mode: RoundingMode, negative: bool): Direction {
    match mode
    case NearestTiesToEven => NearestEven
    case NearestTiesToAway => NearestAway
    case TowardZero => Down
    case TowardPositive => if negative then Down else Up
    case TowardNegative => if negative then Up else Down
  }

  // ---------------------------------------------------------------- scaling by powers of two

  /** `x` times two to the `k`. */
  function Scale(x: real, k: int): real
    decreases if k >= 0 then k else -k
  {
    if k == 0 then x else if k > 0 then 2.0 * Scale(x, k - 1) else Scale(x, k + 1) / 2.0
  }

  lemma ScaleStep(x: real, k: int)
    ensures Scale(x, k + 1) == 2.0 * Scale(x, k)
  {
  }

  lemma {:induction false} ScaleScale(x: real, a: int, b: int)
    ensures Scale(Scale(x, a), b) == Scale(x, a + b)
    decreases if b >= 0 then b else -b
  {
    if b > 0 {
      ScaleScale(x, a, b - 1);
      ScaleStep(x, a + b - 1);
    } else if b < 0 {
      ScaleScale(x, a, b + 1);
      ScaleStep(x, a + b);
    }
  }

  lemma {:induction false} ScaleSum(a: real, b: real, k: int)
    ensures Scale(a + b, k) == Scale(a, k) + Scale(b, k)
    ensures Scale(a - b, k) == Scale(a, k) - Scale(b, k)
    decreases if k >= 0 then k else -k
  {
    if k > 0 {
      ScaleSum(a, b, k - 1);
    } else if k < 0 {
      ScaleSum(a, b, k + 1);
    }
  }

  lemma {:induction false} ScaleOrder(a: real, b: real, k: int)
    ensures a <= b <==> Scale(a, k) <= Scale(b, k)
    ensures a < b <==> Scale(a, k) < Scale(b, k)
    ensures a == b <==> Scale(a, k) == Scale(b, k)
    decreases if k >= 0 then k else -k
  {
    if k > 0 {
      ScaleOrder(a, b, k - 1);
    } else if k < 0 {
      ScaleOrder(a, b, k + 1);
    }
  }

  lemma {:induction false} ScaleNat(m: int, k: nat)
    ensures Scale(m as real, k) == (m * Pow2(k)) as real
  {
    if k > 0 {
      ScaleNat(m, k - 1);
      assert m * Pow2(k) == 2 * (m * Pow2(k - 1));
    }
  }

  lemma ScaleZero(k: int)
    ensures Scale(0.0, k) == 0.0
  {
    ScaleSum(0.0, 0.0, k);
  }

  lemma {:induction false} ScaleDown(x: real, k: int)
    requires x >= 0.0 && k < 0
    ensures 0.0 <= Scale(x, k) <= x / 2.0
    decreases -k
  {
    if k < -1 {
      ScaleDown(x, k + 1);
    } else {
      ScaleStep(x, -1);
    }
  }

  // ---------------------------------------------------------------- representable magnitudes

  /** The exponent of the last significand bit at exponent `e`. */
  function Lsb(sem: Semantics, e: int): int {
    e - sem.precision + 1
  }

  function Mag(sem: Semantics, e: int, m: int): real {
    Scale(m as real, Lsb(sem, e))
  }

  predicate Representable(sem: Semantics, e: int, m: int) {
    sem.minExponent <= e <= sem.maxExponent && 0 <= m < Pow2(sem.precision)
  }

  /** The form in which numbers are kept: full precision except at the smallest exponent. */
  predicate Canonical(sem: Semantics, e: int, m: int)
    requires ValidSemantics(sem)
  {
    Representable(sem, e, m) && (m >= Pow2(sem.precision - 1) || e == sem.minExponent)
  }

  datatype Rounded = Finite(e: int, m: int) | Infinite

  /** Halfway between the largest finite magnitude and the next power of two. */
  function OverflowThreshold(sem: Semantics): real {
    Scale((Pow2(sem.precision) as real) - 0.5, Lsb(sem, sem.maxExponent))
  }

  function Distance(a: real, b: real): real {
    if a <= b then b - a else a - b
  }

  /** `r` is the magnitude to which the exact magnitude `x` rounds in direction `d`. */
  ghost predicate RoundsTo(sem: Semantics, d: Direction, x: real, r: Rounded)
    requires ValidSemantics(sem)
  {
    match d
    case Down => RoundsDown(sem, x, r)
    case Up => RoundsUp(sem, x, r)
    case NearestEven => RoundsNearest(sem, x, r, true)
    case NearestAway => RoundsNearest(sem, x, r, false)
  }

  /** The largest representable magnitude not above `x`. */
  ghost predicate RoundsDown(sem: Semantics, x: real, r: Rounded)
    requires ValidSemantics(sem)
  {
    && r.Finite? && Canonical(sem, r.e, r.m) && Mag(sem, r.e, r.m) <= x
    && forall e, m :: Representable(sem, e, m) && Mag(sem, e, m) <= x ==> Mag(sem, e, m) <= Mag(sem, r.e, r.m)
  }

  /** The smallest representable magnitude not below `x`, or infinity if there is none. */
  ghost predicate RoundsUp(sem: Semantics, x: real, r: Rounded)
    requires ValidSemantics(sem)
  {
    if r.Finite? then
      && Canonical(sem, r.e, r.m) && Mag(sem, r.e, r.m) >= x
      && forall e, m :: Representable(sem, e, m) && Mag(sem, e, m) >= x ==> Mag(sem, e, m) >= Mag(sem, r.e, r.m)
    else
      forall e, m :: Representable(sem, e, m) ==> Mag(sem, e, m) < x
  }

  /** The closest representable magnitude; between two equally close ones the even one, or the
      one farther from zero; infinity from the overflow threshold on. */
  ghost predicate RoundsNearest(sem: Semantics, x: real, r: Rounded, toEven: bool)
    requires ValidSemantics(sem)
  {
    if x >= OverflowThreshold(sem) then r.Infinite?
    else
      && r.Finite? && Canonical(sem, r.e, r.m)
      && forall e, m :: Representable(sem, e, m) ==>
           Closer(Mag(sem, r.e, r.m), Mag(sem, e, m), x, if toEven then r.m % 2 == 0 else Mag(sem, r.e, r.m) > x)
  }

  /** `v` is at least as close to `x` as `w`, and strictly closer unless it wins ties. */
  predicate Closer(v: real, w: real, x: real, winsTies: bool) {
    && Distance(v, x) <= Distance(w, x)
    && (w != v && Distance(v, x) == Distance(w, x) ==> winsTies)
  }

  // ---------------------------------------------------------------- neighbours

  /** A representable magnitude in units of the last place at exponent `E`. */
  function Units(e: int, m: int, E: int): real {
    Scale(m as real, e - E)
  }

  lemma UnitsExact(sem: Semantics, e: int, m: int, E: int)
    ensures Mag(sem, e, m) == Scale(Units(e, m, E), Lsb(sem, E))
  {
    ScaleScale(m as real, e - E, Lsb(sem, E));
  }

  lemma WholeUnits(n: int, S: int, w: real)
    requires w == n as real
    ensures w <= S as real || w >= (S + 1) as real
  {
    if n <= S {
      assert n as real <= S as real;
    } else {
      assert n as real >= (S + 1) as real;
    }
  }

  /** In those units no representable magnitude lies strictly between `S` and `S + 1`. */
  lemma Gap(sem: Semantics, E: int, S: int, e: int, m: int)
    requires ValidSemantics(sem) && Canonical(sem, E, S) && Representable(sem, e, m)
    ensures Units(e, m, E) <= S as real || Units(e, m, E) >= (S + 1) as real
    ensures e < E ==> Units(e, m, E) <= S as real
  {
    if e >= E {
      ScaleNat(m, e - E);
      WholeUnits(m * Pow2(e - E), S, Units(e, m, E));
    } else {
      ScaleDown(m as real, e - E);
      assert Pow2(sem.precision) == 2 * Pow2(sem.precision - 1);
    }
  }

  /** The magnitude one unit up, renormalised if the significand overflows. */
  function Successor(sem: Semantics, E: int, S: int): Rounded
    requires ValidSemantics(sem)
  {
    if S + 1 < Pow2(sem.precision) then Finite(E, S + 1)
    else if E < sem.maxExponent then Finite(E + 1, Pow2(sem.precision - 1))
    else Infinite
  }

  lemma SuccessorValue(sem: Semantics, E: int, S: int)
    requires ValidSemantics(sem) && Canonical(sem, E, S)
    ensures var r := Successor(sem, E, S);
            && (r.Finite? ==> Canonical(sem, r.e, r.m) && Mag(sem, r.e, r.m) == Mag(sem, E, S + 1))
            && (r.Finite? && S % 2 == 1 ==> r.m % 2 == 0)
            && (r.Infinite? ==> E == sem.maxExponent && S + 1 == Pow2(sem.precision) && S % 2 == 1)
  {
    var p := sem.precision;
    if S + 1 < Pow2(p) {
      OneUp(S);
    } else {
      OddTop(p);
      EvenPower(p - 1);
      CarryValue(sem, E, Pow2(p - 1));
    }
  }

  lemma OneUp(S: int)
    ensures S % 2 == 1 ==> (S + 1) % 2 == 0
  {
  }

  lemma EvenPower(p: nat)
    requires p >= 1
    ensures Pow2(p) % 2 == 0
  {
    Even(Pow2(p), Pow2(p - 1));
  }

  lemma Even(n: int, h: int)
    requires n == 2 * h
    ensures n % 2 == 0
  {
  }

  lemma CarryValue(sem: Semantics, E: int, half: int)
    ensures Mag(sem, E + 1, half) == Mag(sem, E, 2 * half)
  {
    UnitsExact(sem, E + 1, half, E);
    ScaleStep(half as real, 0);
  }

  lemma OddTop(p: nat)
    requires p >= 1
    ensures (Pow2(p) - 1) % 2 == 1
  {
    Odd(Pow2(p) - 1, Pow2(p - 1) - 1);
  }

  lemma Odd(n: int, h: int)
    requires n == 2 * h + 1
    ensures n % 2 == 1
  {
  }

  /** `x` lies `g` units above the canonical number `(E, S)`. */
  predicate Above(sem: Semantics, E: int, S: int, g: real, x: real)
    requires ValidSemantics(sem)
  {
    Canonical(sem, E, S) && 0.0 <= g < 1.0 && x == Scale((S as real) + g, Lsb(sem, E))
  }

  /** Comparing a representable magnitude with `x` is comparing units. */
  lemma Compare(sem: Semantics, E: int, S: int, g: real, x: real, e: int, m: int)
    requires ValidSemantics(sem) && Above(sem, E, S, g, x)
    ensures var w := Units(e, m, E);
            && (Mag(sem, e, m) <= x <==> w <= (S as real) + g)
            && (Mag(sem, e, m) >= x <==> w >= (S as real) + g)
            && (Mag(sem, e, m) <= Mag(sem, E, S) <==> w <= S as real)
            && (Mag(sem, e, m) >= Mag(sem, E, S + 1) <==> w >= (S + 1) as real)
  {
    var w := Units(e, m, E);
    UnitsExact(sem, e, m, E);
    ScaleOrder(w, (S as real) + g, Lsb(sem, E));
    ScaleOrder((S as real) + g, w, Lsb(sem, E));
    ScaleOrder(w, S as real, Lsb(sem, E));
    ScaleOrder((S + 1) as real, w, Lsb(sem, E));
  }

  // ---------------------------------------------------------------- rounding at a known position

  lemma TruncatingRoundsDown(sem: Semantics, E: int, S: int, g: real, x: real)
    requires ValidSemantics(sem) && Above(sem, E, S, g, x)
    ensures RoundsTo(sem, Down, x, Finite(E, S))
  {
    Compare(sem, E, S, g, x, E, S);
    forall e, m | Representable(sem, e, m) && Mag(sem, e, m) <= x ensures Mag(sem, e, m) <= Mag(sem, E, S) {
      Compare(sem, E, S, g, x, e, m);
      Gap(sem, E, S, e, m);
    }
  }

  lemma IncrementRoundsUp(sem: Semantics, E: int, S: int, g: real, x: real)
    requires ValidSemantics(sem) && Above(sem, E, S, g, x) && g > 0.0
    ensures RoundsTo(sem, Up, x, Successor(sem, E, S))
  {
    SuccessorValue(sem, E, S);
    var r := Successor(sem, E, S);
    if r.Finite? {
      Compare(sem, E, S, g, x, E, S + 1);
      forall e, m | Representable(sem, e, m) && Mag(sem, e, m) >= x ensures Mag(sem, e, m) >= Mag(sem, r.e, r.m) {
        Compare(sem, E, S, g, x, e, m);
        Gap(sem, E, S, e, m);
      }
    } else {
      forall e, m | Representable(sem, e, m) ensures Mag(sem, e, m) < x {
        Compare(sem, E, S, g, x, e, m);
        Gap(sem, E, S, e, m);
      }
    }
  }

  lemma BelowThreshold(sem: Semantics, E: int, S: int, g: real, x: real)
    requires ValidSemantics(sem) && Above(sem, E, S, g, x)
    ensures x >= OverflowThreshold(sem) <==>
            E == sem.maxExponent && S + 1 == Pow2(sem.precision) && g >= 0.5
  {
    var T, p := sem.maxExponent, sem.precision;
    var y := Scale((S as real) + g, E - T);
    ScaleScale((S as real) + g, E - T, Lsb(sem, T));
    ScaleOrder((Pow2(p) as real) - 0.5, y, Lsb(sem, T));
    if E < T {
      ScaleDown((S as real) + g, E - T);
    }
  }

  /** Distances, too, may be compared in units. */
  lemma CloserInUnits(v: real, w: real, y: real, k: int, winsTies: bool)
    requires Closer(v, w, y, winsTies)
    ensures Closer(Scale(v, k), Scale(w, k), Scale(y, k), winsTies)
  {
    ScaleSum(v, y, k);
    ScaleSum(y, v, k);
    ScaleSum(w, y, k);
    ScaleSum(y, w, k);
    ScaleOrder(v, y, k);
    ScaleOrder(w, y, k);
    ScaleOrder(v, w, k);
    ScaleOrder(Distance(v, y), Distance(w, y), k);
  }

  lemma NearestLow(sem: Semantics, E: int, S: int, g: real, x: real, toEven: bool)
    requires ValidSemantics(sem) && Above(sem, E, S, g, x)
    requires g < 0.5 || (g == 0.5 && toEven && S % 2 == 0)
    ensures RoundsNearest(sem, x, Finite(E, S), toEven)
  {
    BelowThreshold(sem, E, S, g, x);
    OddTop(sem.precision);
    forall e, m | Representable(sem, e, m)
      ensures Closer(Mag(sem, E, S), Mag(sem, e, m), x, if toEven then S % 2 == 0 else Mag(sem, E, S) > x)
    {
      Gap(sem, E, S, e, m);
      UnitsExact(sem, e, m, E);
      CloserInUnits(S as real, Units(e, m, E), (S as real) + g, Lsb(sem, E),
                    if toEven then S % 2 == 0 else Mag(sem, E, S) > x);
    }
  }

  lemma NearestHigh(sem: Semantics, E: int, S: int, g: real, x: real, toEven: bool)
    requires ValidSemantics(sem) && Above(sem, E, S, g, x)
    requires g > 0.5 || (g == 0.5 && (toEven ==> S % 2 == 1))
    ensures RoundsNearest(sem, x, Successor(sem, E, S), toEven)
  {
    BelowThreshold(sem, E, S, g, x);
    SuccessorValue(sem, E, S);
    var r := Successor(sem, E, S);
    if r.Finite? {
      Compare(sem, E, S, g, x, E, S + 1);
      forall e, m | Representable(sem, e, m)
        ensures Closer(Mag(sem, r.e, r.m), Mag(sem, e, m), x, if toEven then r.m % 2 == 0 else Mag(sem, r.e, r.m) > x)
      {
        Gap(sem, E, S, e, m);
        UnitsExact(sem, e, m, E);
        CloserInUnits((S + 1) as real, Units(e, m, E), (S as real) + g, Lsb(sem, E),
                      if toEven then r.m % 2 == 0 else Mag(sem, r.e, r.m) > x);
      }
    }
  }

  lemma ExactRounds(sem: Semantics, d: Direction, E: int, S: int, x: real)
    requires ValidSemantics(sem) && Above(sem, E, S, 0.0, x)
    ensures RoundsTo(sem, d, x, Finite(E, S))
  {
    match d {
      case Down => TruncatingRoundsDown(sem, E, S, 0.0, x);
      case Up => assert Mag(sem, E, S) == x;
      case NearestEven => NearestLow(sem, E, S, 0.0, x, true);
      case NearestAway => NearestLow(sem, E, S, 0.0, x, false);
    }
  }

  /** The largest finite magnitude. */
  function Largest(sem: Semantics): Rounded {
    Finite(sem.maxExponent, Pow2(sem.precision) - 1)
  }

  /** From the next power of two on, truncation yields the largest finite magnitude and every other
      direction infinity. */
  lemma OverflowRounds(sem: Semantics, d: Direction, x: real)
    requires ValidSemantics(sem) && x >= Scale(Pow2(sem.precision) as real, Lsb(sem, sem.maxExponent))
    ensures RoundsTo(sem, d, x, if d == Down then Largest(sem) else Infinite)
    ensures forall e, m :: Representable(sem, e, m) ==> Mag(sem, e, m) < x
  {
    var T, p := sem.maxExponent, sem.precision;
    assert Pow2(p) == 2 * Pow2(p - 1);
    ScaleOrder((Pow2(p) - 1) as real, Pow2(p) as real, Lsb(sem, T));
    ScaleOrder((Pow2(p) as real) - 0.5, Pow2(p) as real, Lsb(sem, T));
    forall e, m | Representable(sem, e, m) ensures Mag(sem, e, m) < x && Mag(sem, e, m) <= Mag(sem, T, Pow2(p) - 1) {
      Gap(sem, T, Pow2(p) - 1, e, m);
      UnitsExact(sem, e, m, T);
      ScaleOrder(Units(e, m, T), (Pow2(p) - 1) as real, Lsb(sem, T));
    }
  }
}
