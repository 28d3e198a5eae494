/**
 What the five rounding modes mean for signed numbers, stated on the real line: toward positive
 yields the least representable number not below the exact one, toward negative the greatest not
 above it, toward zero the one farthest from zero that is not beyond it, and to nearest the closest.
 */
module FloatSigned {
  import opened Powers
  import opened FloatSpec
  import opened FloatExact

  function SignedMag(sem: Semantics, negative: bool, e: int, m: int): real {
    Signed(negative, Mag(sem, e, m))
  }

  /** `v` is representable and not below `z`, and no representable number is between them. */
  ghost predicate LeastAbove(sem: Semantics, z: real, v: real) {
    v >= z && forall e, m, n :: Representable(sem, e, m) && SignedMag(sem, n, e, m) >= z ==> SignedMag(sem, n, e, m) >= v
  }

  ghost predicate GreatestBelow(sem: Semantics, z: real, v: real) {
    v <= z && forall e, m, n :: Representable(sem, e, m) && SignedMag(sem, n, e, m) <= z ==> SignedMag(sem, n, e, m) <= v
  }

  /** Between zero and `z`, and no representable number is between `v` and `z`. */
  ghost predicate FarthestWithin(sem: Semantics, z: real, v: real) {
    && (0.0 <= v <= z || z <= v <= 0.0)
    && forall e, m, n :: Representable(sem, e, m) ==> !(v < SignedMag(sem, n, e, m) <= z) && !(z <= SignedMag(sem, n, e, m) < v)
  }

  ghost predicate ClosestTo(sem: Semantics, z: real, v: real, winsTies: bool) {
    forall e, m, n :: Representable(sem, e, m) ==> Closer(v, SignedMag(sem, n, e, m), z, winsTies)
  }

  /** No finite number is as far from zero, on the side of `z`. */
  ghost predicate BeyondFinite(sem: Semantics, z: real) {
    forall e, m :: Representable(sem, e, m) ==> Mag(sem, e, m) < z
  }

  /** The number with magnitude `r` and the given sign is the rounded `z`. */
  ghost predicate SignedRounds(sem: Semantics, mode: RoundingMode, z: real, r: Rounded, negative: bool)
    requires ValidSemantics(sem)
  {
    && (r.Finite? ==> Canonical(sem, r.e, r.m))
    && match mode
       case TowardPositive =>
         if r.Finite? then LeastAbove(sem, z, SignedMag(sem, negative, r.e, r.m))
         else !negative && BeyondFinite(sem, z)
       case TowardNegative =>
         if r.Finite? then GreatestBelow(sem, z, SignedMag(sem, negative, r.e, r.m))
         else negative && BeyondFinite(sem, -z)
       case TowardZero =>
         r.Finite? && FarthestWithin(sem, z, SignedMag(sem, negative, r.e, r.m))
       case NearestTiesToEven =>
         if Abs(z) >= OverflowThreshold(sem) then r.Infinite? && negative == (z < 0.0)
         else r.Finite? && ClosestTo(sem, z, SignedMag(sem, negative, r.e, r.m), r.m % 2 == 0)
       case NearestTiesToAway =>
         if Abs(z) >= OverflowThreshold(sem) then r.Infinite? && negative == (z < 0.0)
         else r.Finite? && ClosestTo(sem, z, SignedMag(sem, negative, r.e, r.m), Mag(sem, r.e, r.m) > Abs(z))
  }

  /** The sign fits the exact number, and an exact zero stays a zero. */
  predicate SignFits(sem: Semantics, z: real, r: Rounded, negative: bool) {
    && (z > 0.0 ==> !negative) && (z < 0.0 ==> negative)
    && (z == 0.0 ==> r == Finite(sem.minExponent, 0))
  }

  lemma MagNotNegative(sem: Semantics, e: int, m: nat)
    ensures Mag(sem, e, m) >= 0.0
    ensures m == 0 ==> Mag(sem, e, m) == 0.0
  {
    ScaleZero(Lsb(sem, e));
    ScaleOrder(0.0, m as real, Lsb(sem, e));
  }

  lemma ZeroIsRepresentable(sem: Semantics)
    requires ValidSemantics(sem)
    ensures Representable(sem, sem.minExponent, 0) && Mag(sem, sem.minExponent, 0) == 0.0
  {
    MagNotNegative(sem, sem.minExponent, 0);
  }

  /** Rounding magnitudes up rounds a number away from zero. */
  lemma UpIsAway(sem: Semantics, z: real, r: Rounded, negative: bool)
    requires ValidSemantics(sem) && SignFits(sem, z, r, negative) && RoundsUp(sem, Abs(z), r)
    ensures r.Finite? && !negative ==> LeastAbove(sem, z, SignedMag(sem, negative, r.e, r.m))
    ensures r.Finite? && negative ==> GreatestBelow(sem, z, SignedMag(sem, negative, r.e, r.m))
    ensures r.Infinite? ==> BeyondFinite(sem, Abs(z))
  {
    ZeroIsRepresentable(sem);
    if r.Finite? {
      forall e, m, n | Representable(sem, e, m)
        ensures !negative && SignedMag(sem, n, e, m) >= z ==> SignedMag(sem, n, e, m) >= Mag(sem, r.e, r.m)
        ensures negative && SignedMag(sem, n, e, m) <= z ==> SignedMag(sem, n, e, m) <= -Mag(sem, r.e, r.m)
      {
        MagNotNegative(sem, e, m);
        MagNotNegative(sem, r.e, r.m);
      }
    }
  }

  /** Rounding magnitudes down rounds a number toward zero. */
  lemma DownIsToward(sem: Semantics, z: real, r: Rounded, negative: bool)
    requires ValidSemantics(sem) && SignFits(sem, z, r, negative) && RoundsDown(sem, Abs(z), r)
    ensures FarthestWithin(sem, z, SignedMag(sem, negative, r.e, r.m))
    ensures negative ==> LeastAbove(sem, z, SignedMag(sem, negative, r.e, r.m))
    ensures !negative ==> GreatestBelow(sem, z, SignedMag(sem, negative, r.e, r.m))
  {
    ZeroIsRepresentable(sem);
    MagNotNegative(sem, r.e, r.m);
    var v := SignedMag(sem, negative, r.e, r.m);
    forall e, m, n | Representable(sem, e, m)
      ensures !(v < SignedMag(sem, n, e, m) <= z) && !(z <= SignedMag(sem, n, e, m) < v)
      ensures negative && SignedMag(sem, n, e, m) >= z ==> SignedMag(sem, n, e, m) >= v
      ensures !negative && SignedMag(sem, n, e, m) <= z ==> SignedMag(sem, n, e, m) <= v
    {
      MagNotNegative(sem, e, m);
    }
  }

  lemma NearestIsClosest(sem: Semantics, z: real, r: Rounded, negative: bool, toEven: bool)
    requires ValidSemantics(sem) && SignFits(sem, z, r, negative) && RoundsNearest(sem, Abs(z), r, toEven)
    requires Abs(z) < OverflowThreshold(sem)
    ensures ClosestTo(sem, z, SignedMag(sem, negative, r.e, r.m),
                      if toEven then r.m % 2 == 0 else Mag(sem, r.e, r.m) > Abs(z))
  {
    ZeroIsRepresentable(sem);
    MagNotNegative(sem, r.e, r.m);
    var v, x := Mag(sem, r.e, r.m), Abs(z);
    var wins := if toEven then r.m % 2 == 0 else v > x;
    assert Closer(v, Mag(sem, sem.minExponent, 0), x, wins);
    forall e, m, n | Representable(sem, e, m)
      ensures Closer(SignedMag(sem, negative, r.e, r.m), SignedMag(sem, n, e, m), z, wins)
    {
      MagNotNegative(sem, e, m);
      assert Closer(v, Mag(sem, e, m), x, wins);
      SameSide(v, Mag(sem, e, m), x, z, negative, n, wins);
    }
  }

  /** Comparing distances of magnitudes is comparing distances of numbers; a number on the other
      side of zero is no closer than zero is. */
  lemma SameSide(v: real, w: real, x: real, z: real, negative: bool, n: bool, wins: bool)
    requires v >= 0.0 && w >= 0.0 && x == Abs(z) && (z > 0.0 ==> !negative) && (z < 0.0 ==> negative)
    requires z == 0.0 ==> v == 0.0
    requires Closer(v, w, x, wins) && Closer(v, 0.0, x, wins)
    ensures Closer(Signed(negative, v), Signed(n, w), z, wins)
  {
  }

  lemma ThresholdPositive(sem: Semantics)
    requires ValidSemantics(sem)
    ensures OverflowThreshold(sem) > 0.0
  {
    ScaleZero(Lsb(sem, sem.maxExponent));
    ScaleOrder(0.0, (Pow2(sem.precision) as real) - 0.5, Lsb(sem, sem.maxExponent));
  }

  /** Rounding the magnitude in the direction chosen for mode and sign rounds the number as the
      mode prescribes. */
  lemma DirectionIsRight(sem: Semantics, mode: RoundingMode, z: real, r: Rounded, negative: bool)
    requires ValidSemantics(sem) && SignFits(sem, z, r, negative)
    requires RoundsTo(sem, DirectionOf(mode, negative), Abs(z), r)
    ensures SignedRounds(sem, mode, z, r, negative)
  {
    ZeroIsRepresentable(sem);
    ThresholdPositive(sem);
    match mode
    case TowardPositive =>
      if negative { DownIsToward(sem, z, r, negative); } else { UpIsAway(sem, z, r, negative); }
    case TowardNegative =>
      if negative { UpIsAway(sem, z, r, negative); } else { DownIsToward(sem, z, r, negative); }
    case TowardZero => DownIsToward(sem, z, r, negative);
    case NearestTiesToEven =>
      if Abs(z) < OverflowThreshold(sem) { NearestIsClosest(sem, z, r, negative, true); }
    case NearestTiesToAway =>
      if Abs(z) < OverflowThreshold(sem) { NearestIsClosest(sem, z, r, negative, false); }
  }
}
