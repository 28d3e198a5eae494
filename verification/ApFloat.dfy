/**
 Arbitrary-precision binary floating point: the significand operations, normalisation and the
 four arithmetic operations, each proved to deliver the correctly rounded exact result.
 */
module ApFloats {
  import opened Powers
  import opened Reals
  import opened FloatSpec
  import opened LostFractions
  import opened FloatExact
  import opened FloatSigned

  datatype Category = Infinity | NaN | Normal | Zero

  /** The status flags; none set is the plain success. */
  datatype Status = Status(invalidOp: bool, divByZero: bool, overflow: bool, underflow: bool, inexact: bool)

  const OK := Status(false, false, false, false, false)
  const INVALID_OP := OK.(invalidOp := true)
  const DIV_BY_ZERO := OK.(divByZero := true)
  const INEXACT := OK.(inexact := true)
  const OVERFLOW := INEXACT.(overflow := true)
  const UNDERFLOW := INEXACT.(underflow := true)

  /** What the flags say when the exact magnitude `x` has become `r`: inexact if it changed,
      overflow if it became infinite, underflow if it changed and is now below the normal range. */
  predicate Reports(sem: Semantics, x: real, r: Rounded, st: Status)
    requires ValidSemantics(sem)
  {
    && !st.invalidOp && !st.divByZero
    && (st.inexact <==> r.Infinite? || Mag(sem, r.e, r.m) != x)
    && (st.overflow <==> r.Infinite?)
    && (st.underflow <==> st.inexact && r.Finite? && r.m < Pow2(sem.precision - 1))
  }

  /** `r` is the correctly rounded `x` and the flags say so. */
  ghost predicate CorrectResult(sem: Semantics, mode: RoundingMode, negative: bool, x: real, r: Rounded, st: Status)
    requires ValidSemantics(sem)
  {
    RoundsTo(sem, DirectionOf(mode, negative), x, r) && Reports(sem, x, r, st)
  }

  // ---------------------------------------------------------------- the rounding decision

  function RoundsAway(mode: RoundingMode, negative: bool, lost: LostFraction, odd: bool): bool {
    match mode
    case NearestTiesToAway => lost == ExactlyHalf || lost == MoreThanHalf
    case NearestTiesToEven => lost == MoreThanHalf || (lost == ExactlyHalf && odd)
    case TowardZero => false
    case TowardPositive => !negative
    case TowardNegative => negative
  }

  /** The decision taken from the summary is the one the exact value calls for. */
  lemma RoundingDecision(sem: Semantics, mode: RoundingMode, negative: bool, E: int, S: int, lost: LostFraction, g: real, x: real)
    requires ValidSemantics(sem) && Above(sem, E, S, g, x) && Means(lost, g) && lost != ExactlyZero
    ensures RoundsTo(sem, DirectionOf(mode, negative), x,
                     if RoundsAway(mode, negative, lost, S % 2 == 1) then Successor(sem, E, S) else Finite(E, S))
  {
    match DirectionOf(mode, negative) {
      case Down => TruncatingRoundsDown(sem, E, S, g, x);
      case Up => IncrementRoundsUp(sem, E, S, g, x);
      case NearestEven =>
        if RoundsAway(mode, negative, lost, S % 2 == 1) {
          NearestHigh(sem, E, S, g, x, true);
        } else {
          NearestLow(sem, E, S, g, x, true);
        }
      case NearestAway =>
        if RoundsAway(mode, negative, lost, S % 2 == 1) {
          NearestHigh(sem, E, S, g, x, false);
        } else {
          NearestLow(sem, E, S, g, x, false);
        }
    }
  }

  /** Neither neighbour of a number strictly between them is exact. */
  lemma NeitherIsExact(sem: Semantics, E: int, S: int, g: real, x: real)
    requires ValidSemantics(sem) && Above(sem, E, S, g, x) && g > 0.0
    ensures Mag(sem, E, S) < x < Mag(sem, E, S + 1)
    ensures var r := Successor(sem, E, S); r.Finite? ==> Mag(sem, r.e, r.m) != x
  {
    ScaleOrder(S as real, (S as real) + g, Lsb(sem, E));
    ScaleOrder((S as real) + g, (S + 1) as real, Lsb(sem, E));
    SuccessorValue(sem, E, S);
  }

  // ---------------------------------------------------------------- placing the significand

  lemma {:induction false} ScaleExponent(x: real, a: int, b: int)
    requires x >= 0.0 && a <= b
    ensures 0.0 <= Scale(x, a) <= Scale(x, b)
    decreases b - a
  {
    ScaleZero(a);
    ScaleOrder(0.0, x, a);
    if a < b {
      ScaleStep(x, a);
      ScaleExponent(x, a + 1, b);
    }
  }

  lemma TooLarge(sem: Semantics, s: nat, f: real, e: int)
    requires ValidSemantics(sem) && s > 0 && f >= 0.0 && e + BitLen(s) - sem.precision > sem.maxExponent
    ensures Scale((s as real) + f, Lsb(sem, e)) >= Scale(Pow2(sem.precision) as real, Lsb(sem, sem.maxExponent))
  {
    var k, p := BitLen(s) - 1, sem.precision;
    BitLenBounds(s);
    ScaleNat(1, k);
    ScaleNat(1, p);
    ScaleOrder(Pow2(k) as real, (s as real) + f, Lsb(sem, e));
    ScaleScale(1.0, k, Lsb(sem, e));
    ScaleScale(1.0, p, Lsb(sem, sem.maxExponent));
    ScaleExponent(1.0, sem.maxExponent + 1, k + Lsb(sem, e));
  }

  lemma LeftShiftExact(s: nat, k: nat, l: int)
    ensures Scale((s * Pow2(k)) as real, l - k) == Scale(s as real, l)
  {
    ScaleNat(s, k);
    ScaleScale(s as real, k, l - k);
  }

  lemma LeftShiftFits(s: nat, k: nat, p: nat)
    requires s > 0 && BitLen(s) + k <= p
    ensures 0 < s * Pow2(k) < Pow2(p)
    ensures BitLen(s) + k == p ==> s * Pow2(k) >= Pow2(p - 1)
  {
    var b := BitLen(s);
    BitLenBounds(s);
    Pow2Add(b - 1, k);
    Pow2Add(b, k);
    Pow2Monotone(b + k, p);
    Products(Pow2(b - 1), s, Pow2(b), Pow2(k));
  }

  lemma Products(lo: nat, s: nat, hi: nat, w: nat)
    requires lo <= s < hi && w >= 1 && s > 0
    ensures lo * w <= s * w < hi * w && s * w > 0
  {
  }

  /** Cutting off `b` bits leaves a canonical significand, if `b` brings the leading bit to its
      place or the exponent up to the smallest. */
  lemma RightShiftPlaces(sem: Semantics, s: nat, e: int, b: nat)
    requires ValidSemantics(sem) && s > 0 && sem.minExponent <= e + b <= sem.maxExponent
    requires BitLen(s) - b <= sem.precision
    requires BitLen(s) - b == sem.precision || e + b == sem.minExponent
    ensures Canonical(sem, e + b, Shr(s, b))
  {
    ShrBitLen(s, b);
    var S := Shr(s, b);
    if S > 0 {
      BitLenBounds(S);
      Pow2Monotone(BitLen(S), sem.precision);
    }
  }

  lemma LeftShiftRounds(sem: Semantics, d: Direction, s: nat, e: int, k: nat, S: nat)
    requires ValidSemantics(sem) && s > 0 && sem.minExponent <= e - k <= sem.maxExponent && S == s * Pow2(k)
    requires BitLen(s) + k <= sem.precision
    requires BitLen(s) + k == sem.precision || e - k == sem.minExponent
    ensures var x := Scale(s as real, Lsb(sem, e));
            Canonical(sem, e - k, S) && S > 0 && Mag(sem, e - k, S) == x && RoundsTo(sem, d, x, Finite(e - k, S))
  {
    LeftShiftFits(s, k, sem.precision);
    LeftShiftExact(s, k, Lsb(sem, e));
    ShiftedRounds(sem, d, e - k, S, Scale(s as real, Lsb(sem, e)));
  }

  lemma ShiftedRounds(sem: Semantics, d: Direction, e: int, S: nat, x: real)
    requires ValidSemantics(sem) && sem.minExponent <= e <= sem.maxExponent && S < Pow2(sem.precision)
    requires S >= Pow2(sem.precision - 1) || e == sem.minExponent
    requires x == Scale(S as real, Lsb(sem, e))
    ensures Canonical(sem, e, S) && Mag(sem, e, S) == x && RoundsTo(sem, d, x, Finite(e, S))
  {
    ExactRounds(sem, d, e, S, x);
  }

  lemma StaysPositive(s: nat, b: nat)
    requires b < BitLen(s)
    ensures Shr(s, b) > 0
  {
    ShrBitLen(s, b);
  }

  lemma RightShiftMeans(sem: Semantics, s: nat, e: int, lost: LostFraction, f: real, b: nat)
    requires ValidSemantics(sem) && Means(lost, f) && Canonical(sem, e + b, Shr(s, b))
    ensures var all := if b > 0 then Combine(LostFractionThroughTruncation(s, b), lost) else lost;
            Means(all, Fraction(s, f, b))
    ensures Above(sem, e + b, Shr(s, b), Fraction(s, f, b), Scale((s as real) + f, Lsb(sem, e)))
  {
    TruncationMeans(s, lost, f, b);
    TruncationExact(s, f, b, Lsb(sem, e));
  }

  class ApFloat {
    const sem: Semantics
    var category: Category
    var negative: bool
    var exponent: int
    var significand: nat

    predicate Valid()
      reads this
    {
      && ValidSemantics(sem)
      && (category.Normal? ==> Canonical(sem, exponent, significand) && significand > 0)
    }

    /** The magnitude as the specification of rounding names it. */
    function AsRounded(): Rounded
      reads this
      requires !category.NaN?
    {
      match category
      case Infinity => Infinite
      case Zero => Finite(sem.minExponent, 0)
      case Normal => Finite(exponent, significand)
    }

    constructor Copy(rhs: ApFloat)
      ensures sem == rhs.sem && category == rhs.category && negative == rhs.negative
      ensures exponent == rhs.exponent && significand == rhs.significand
    {
      sem, category, negative := rhs.sem, rhs.category, rhs.negative;
      exponent, significand := rhs.exponent, rhs.significand;
    }

    method ShiftSignificandRight(bits: nat) returns (lost: LostFraction)
      modifies this`exponent, this`significand
      ensures exponent == old(exponent) + bits && significand == Shr(old(significand), bits)
      ensures lost == LostFractionThroughTruncation(old(significand), bits)
    {
      exponent := exponent + bits;
      lost := LostFractionThroughTruncation(significand, bits);
      significand := Shr(significand, bits);
    }

    method ShiftSignificandLeft(bits: nat)
      requires bits < sem.precision
      modifies this`exponent, this`significand
      ensures exponent == old(exponent) - bits && significand == old(significand) * Pow2(bits)
    {
      if bits != 0 {
        significand := significand * Pow2(bits);
        exponent := exponent - bits;
      }
    }

    method HandleOverflow(mode: RoundingMode, ghost x: real) returns (st: Status)
      requires ValidSemantics(sem)
      requires x >= Scale(Pow2(sem.precision) as real, Lsb(sem, sem.maxExponent))
      modifies this`category, this`exponent, this`significand
      ensures Valid() && !category.NaN? && !category.Zero?
      ensures RoundsTo(sem, DirectionOf(mode, negative), x, AsRounded())
      ensures Reports(sem, x, AsRounded(), st) && st.inexact
    {
      OverflowRounds(sem, DirectionOf(mode, negative), x);
      var p := sem.precision;
      assert Pow2(p) == 2 * Pow2(p - 1);
      if mode == NearestTiesToEven || mode == NearestTiesToAway ||
         (mode == TowardPositive && !negative) || (mode == TowardNegative && negative) {
        category := Infinity;
        return OVERFLOW;
      }
      category := Normal;
      exponent := sem.maxExponent;
      significand := Pow2(p) - 1;
      assert Representable(sem, exponent, significand);
      return INEXACT;
    }

    /** The last part of `normalize`: the significand is in place, `lost` says what was cut off. */
    method Round(mode: RoundingMode, lost: LostFraction, ghost g: real, ghost x: real) returns (st: Status)
      requires category.Normal? && ValidSemantics(sem)
      requires Above(sem, exponent, significand, g, x) && Means(lost, g)
      modifies this`category, this`exponent, this`significand
      ensures Valid() && !category.NaN?
      ensures RoundsTo(sem, DirectionOf(mode, negative), x, AsRounded())
      ensures Reports(sem, x, AsRounded(), st)
      ensures old(significand) > 0 ==> !category.Zero?
      ensures lost != ExactlyZero ==> st.inexact
    {
      ghost var E, S := exponent, significand;
      if lost == ExactlyZero {
        ExactRounds(sem, DirectionOf(mode, negative), E, S, x);
        if significand == 0 {
          ScaleZero(Lsb(sem, E));
          ScaleZero(Lsb(sem, sem.minExponent));
          category := Zero;
        }
        return OK;
      }
      RoundingDecision(sem, mode, negative, E, S, lost, g, x);
      NeitherIsExact(sem, E, S, g, x);
      if RoundsAway(mode, negative, lost, significand % 2 == 1) {
        SuccessorValue(sem, E, S);
        st := Increment();
      } else if significand >= Pow2(sem.precision - 1) {
        st := INEXACT;
      } else {
        if significand == 0 {
          category := Zero;
        }
        st := UNDERFLOW;
      }
    }

    /** The increment of the significand, with renormalisation when it overflows. */
    method Increment() returns (st: Status)
      requires category.Normal? && ValidSemantics(sem) && Canonical(sem, exponent, significand)
      modifies this`category, this`exponent, this`significand
      ensures !category.NaN? && !category.Zero? && Valid()
      ensures AsRounded() == Successor(sem, old(exponent), old(significand))
      ensures st == if category.Infinity? then OVERFLOW
                    else if significand < Pow2(sem.precision - 1) then UNDERFLOW else INEXACT
    {
      var p := sem.precision;
      assert Pow2(p) == 2 * Pow2(p - 1);
      significand := significand + 1;
      if significand == Pow2(p) {
        if exponent == sem.maxExponent {
          category := Infinity;
          return OVERFLOW;
        }
        var _ := ShiftSignificandRight(1);
        assert significand == Pow2(p - 1);
        return INEXACT;
      }
      return if significand >= Pow2(p - 1) then INEXACT else UNDERFLOW;
    }

    /** The middle part of `normalize`: moves the leading bit to its place, then rounds. */
    method Place(mode: RoundingMode, change: int, lost: LostFraction, ghost f: real, ghost x: real) returns (st: Status)
      requires category.Normal? && ValidSemantics(sem) && Means(lost, f) && significand > 0
      requires x == Scale((significand as real) + f, Lsb(sem, exponent))
      requires sem.minExponent <= exponent + change <= sem.maxExponent && BitLen(significand) - change <= sem.precision
      requires BitLen(significand) - change == sem.precision || exponent + change == sem.minExponent
      requires change < 0 ==> lost == ExactlyZero
      modifies this`category, this`exponent, this`significand
      ensures Valid() && !category.NaN?
      ensures RoundsTo(sem, DirectionOf(mode, negative), x, AsRounded())
      ensures Reports(sem, x, AsRounded(), st)
      ensures old(exponent) >= sem.minExponent ==> !category.Zero?
      ensures lost != ExactlyZero ==> st.inexact
    {
      ghost var s, e := significand, exponent;
      if change < 0 {
        LeftShiftRounds(sem, DirectionOf(mode, negative), s, e, -change, s * Pow2(-change));
        ShiftSignificandLeft(-change);
        return OK;
      }
      RightShiftPlaces(sem, s, e, change);
      RightShiftMeans(sem, s, e, lost, f, change);
      if change < BitLen(s) {
        StaysPositive(s, change);
      }
      var all := lost;
      if change > 0 {
        var more := ShiftSignificandRight(change);
        all := Combine(more, lost);
      }
      st := Round(mode, all, Fraction(s, f, change), x);
    }

    /** Rounds the number whose significand also carries the fraction `f`, of which `lost` is the
        summary. The result is the correctly rounded value of the whole. */
    method Normalize(mode: RoundingMode, lost: LostFraction, ghost f: real) returns (st: Status)
      requires ValidSemantics(sem)
      requires category.Normal? ==>
                 Means(lost, f) &&
                 (lost == ExactlyZero || BitLen(significand) >= sem.precision ||
                  (if significand == 0 then exponent == sem.minExponent
                   else exponent <= sem.minExponent || exponent + BitLen(significand) - sem.precision > sem.maxExponent))
      modifies this`category, this`exponent, this`significand
      ensures !old(category).Normal? ==> st == OK && unchanged(this)
      ensures old(category).Normal? ==>
                && Valid() && !category.NaN?
                && var x := Scale((old(significand) as real) + f, Lsb(sem, old(exponent)));
                   RoundsTo(sem, DirectionOf(mode, negative), x, AsRounded()) && Reports(sem, x, AsRounded(), st)
      ensures old(category).Normal? && old(significand) > 0 && old(exponent) >= sem.minExponent ==> !category.Zero?
      ensures old(category).Normal? && old(significand) == 0 && lost == ExactlyZero ==> category.Zero? && st == OK
      ensures old(category).Normal? && lost != ExactlyZero ==> st.inexact
    {
      if category != Normal {
        return OK;
      }
      ghost var s, e := significand, exponent;
      ghost var x := Scale((s as real) + f, Lsb(sem, e));
      var omsb := BitLen(significand);
      if omsb == 0 {
        if lost == ExactlyZero {
          ExactZero(sem, mode, negative, x, e);
          category := Zero;
          return OK;
        }
        st := Round(mode, lost, f, x);
        return;
      }
      var change := omsb - sem.precision;
      if exponent + change > sem.maxExponent {
        TooLarge(sem, s, f, e);
        st := HandleOverflow(mode, x);
        return;
      }
      if exponent + change < sem.minExponent {
        change := sem.minExponent - exponent;
      }
      st := Place(mode, change, lost, f, x);
    }

    // -------------------------------------------------------------- addition and subtraction

    predicate IsFinite()
      reads this
    {
      category.Normal? || category.Zero?
    }

    function Magnitude(): real
      reads this
      requires IsFinite()
    {
      if category.Zero? then 0.0 else Mag(sem, exponent, significand)
    }

    /** The operation on magnitudes is an addition. */
    method AddMagnitudes(rhs: ApFloat) returns (lost: LostFraction, ghost f: real)
      requires Valid() && rhs.Valid() && sem == rhs.sem && category.Normal? && rhs.category.Normal?
      modifies this`exponent, this`significand
      ensures Means(lost, f) && exponent >= sem.minExponent && significand > 0
      ensures lost != ExactlyZero ==> BitLen(significand) >= sem.precision
      ensures old(Magnitude()) + old(rhs.Magnitude()) == Scale((significand as real) + f, Lsb(sem, exponent))
    {
      var bits := exponent - rhs.exponent;
      if bits > 0 {
        SumExact(sem, significand, exponent, rhs.significand, rhs.exponent);
        f := Fraction(rhs.significand, 0.0, bits);
        var tempRhs := new ApFloat.Copy(rhs);
        lost := tempRhs.ShiftSignificandRight(bits);
        significand := significand + tempRhs.significand;
      } else {
        SumExact(sem, rhs.significand, rhs.exponent, significand, exponent);
        f := Fraction(significand, 0.0, -bits);
        lost := ShiftSignificandRight(-bits);
        significand := significand + rhs.significand;
      }
    }

    /** What is left when `other` and a borrow for the lost fraction are subtracted, the other way
        round if `reverse`. */
    function Left(other: nat, reverse: bool, lost: LostFraction): int
      reads this
    {
      var d := if reverse then other - significand else significand - other;
      d - if lost != ExactlyZero then 1 else 0
    }

    /** Brings both significands to one exponent, the smaller number with a guard bit. */
    method Align(rhs: ApFloat) returns (other: nat, reverse: bool, lost: LostFraction, ghost f: real)
      requires Valid() && rhs.Valid() && sem == rhs.sem && category.Normal? && rhs.category.Normal?
      modifies this`exponent, this`significand
      ensures Means(Invert(lost), f) && exponent >= sem.minExponent && Left(other, reverse, lost) >= 0
      ensures lost != ExactlyZero ==> BitLen(Left(other, reverse, lost)) >= sem.precision
      ensures var d := old(Magnitude()) - old(rhs.Magnitude());
              && Abs(d) == Scale((Left(other, reverse, lost) as real) + f, Lsb(sem, exponent))
              && (d > 0.0 ==> !reverse) && (d < 0.0 ==> reverse)
    {
      var bits := exponent - rhs.exponent;
      if bits == 0 {
        EqualExponents(significand, rhs.significand, Lsb(sem, exponent));
        other, reverse, lost, f := rhs.significand, significand < rhs.significand, ExactlyZero, 0.0;
      } else if bits > 0 {
        other, lost, f := AlignRight(rhs);
        reverse := false;
      } else {
        other, lost, f := AlignLeft(rhs);
        reverse := true;
      }
    }

    /** The right operand has the smaller exponent. */
    method AlignRight(rhs: ApFloat) returns (other: nat, lost: LostFraction, ghost f: real)
      requires Valid() && rhs.Valid() && sem == rhs.sem && category.Normal? && rhs.category.Normal? && exponent > rhs.exponent
      modifies this`exponent, this`significand
      ensures Means(Invert(lost), f) && exponent >= sem.minExponent && Left(other, false, lost) > 0
      ensures lost != ExactlyZero ==> BitLen(Left(other, false, lost)) >= sem.precision
      ensures old(Magnitude()) - old(rhs.Magnitude()) ==
              Scale((Left(other, false, lost) as real) + f, Lsb(sem, exponent)) > 0.0
    {
      var tempRhs := new ApFloat.Copy(rhs);
      var bits := exponent - rhs.exponent;
      DifferenceExact(sem, significand, exponent, rhs.significand, rhs.exponent);
      f := Rest(Fraction(rhs.significand, 0.0, bits - 1));
      lost := tempRhs.ShiftSignificandRight(bits - 1);
      ShiftSignificandLeft(1);
      other := tempRhs.significand;
    }

    /** The left operand has the smaller exponent. */
    method AlignLeft(rhs: ApFloat) returns (other: nat, lost: LostFraction, ghost f: real)
      requires Valid() && rhs.Valid() && sem == rhs.sem && category.Normal? && rhs.category.Normal? && exponent < rhs.exponent
      modifies this`exponent, this`significand
      ensures Means(Invert(lost), f) && exponent >= sem.minExponent && Left(other, true, lost) > 0
      ensures lost != ExactlyZero ==> BitLen(Left(other, true, lost)) >= sem.precision
      ensures old(rhs.Magnitude()) - old(Magnitude()) ==
              Scale((Left(other, true, lost) as real) + f, Lsb(sem, exponent)) > 0.0
    {
      var tempRhs := new ApFloat.Copy(rhs);
      var bits := exponent - rhs.exponent;
      DifferenceExact(sem, rhs.significand, rhs.exponent, significand, exponent);
      f := Rest(Fraction(significand, 0.0, -bits - 1));
      lost := ShiftSignificandRight(-bits - 1);
      tempRhs.ShiftSignificandLeft(1);
      other := tempRhs.significand;
    }

    /** The operation on magnitudes is a subtraction; the sign follows the larger one. */
    method SubtractMagnitudes(rhs: ApFloat) returns (lost: LostFraction, ghost f: real)
      requires Valid() && rhs.Valid() && sem == rhs.sem && category.Normal? && rhs.category.Normal?
      modifies this`exponent, this`significand, this`negative
      ensures Means(lost, f) && exponent >= sem.minExponent
      ensures lost != ExactlyZero ==> BitLen(significand) >= sem.precision
      ensures var d := old(Magnitude()) - old(rhs.Magnitude());
              && Abs(d) == Scale((significand as real) + f, Lsb(sem, exponent))
              && (d > 0.0 ==> negative == old(negative)) && (d < 0.0 ==> negative == !old(negative))
    {
      var other, reverse;
      other, reverse, lost, f := Align(rhs);
      var borrow := if lost != ExactlyZero then 1 else 0;
      if reverse {
        significand := other - significand - borrow;
        negative := !negative;
      } else {
        significand := significand - other - borrow;
      }
      lost := Invert(lost);
    }

    method AddOrSubtractSignificand(rhs: ApFloat, subtract: bool) returns (lost: LostFraction, ghost f: real)
      requires Valid() && rhs.Valid() && sem == rhs.sem && category.Normal? && rhs.category.Normal?
      modifies this`exponent, this`significand, this`negative
      ensures Means(lost, f) && exponent >= sem.minExponent
      ensures lost != ExactlyZero ==> BitLen(significand) >= sem.precision
      ensures var z := Signed(old(negative), old(Magnitude())) + Signed(old(rhs.negative) != subtract, old(rhs.Magnitude()));
              && Abs(z) == Scale((significand as real) + f, Lsb(sem, exponent))
              && (z > 0.0 ==> !negative) && (z < 0.0 ==> negative)
    {
      MagPositive(sem, exponent, significand);
      MagPositive(sem, rhs.exponent, rhs.significand);
      if subtract != (negative != rhs.negative) {
        lost, f := SubtractMagnitudes(rhs);
      } else {
        lost, f := AddMagnitudes(rhs);
      }
    }

    method MakeNaN()
      requires ValidSemantics(sem)
      modifies this`category, this`negative, this`significand
      ensures category.NaN? && !negative && significand == Pow2(sem.precision - 2)
    {
      category, negative := NaN, false;
      significand := Pow2(sem.precision - 2);
    }

    /** Everything but two normal operands, for which the division-by-zero flag is the answer. */
    method AddOrSubtractSpecials(rhs: ApFloat, subtract: bool, ghost mode: RoundingMode) returns (st: Status)
      requires Valid() && rhs.Valid() && sem == rhs.sem
      modifies this
      ensures Valid()
      ensures st == DIV_BY_ZERO <==> old(category).Normal? && old(rhs.category).Normal?
      ensures st == DIV_BY_ZERO ==> unchanged(this)
      ensures SpecialSum(sem, old(category), old(negative), old(significand), old(rhs.category),
                         old(rhs.negative) != subtract, old(rhs.significand), category, negative, significand, st)
      ensures old(IsFinite() && rhs.IsFinite()) && st != DIV_BY_ZERO ==>
                && !category.NaN? && (old(category).Zero? && old(rhs.category).Zero? ==> negative == old(negative))
                && SumUpToZeroSign(sem, mode, old(negative), old(Magnitude()), old(rhs.negative) != subtract,
                                   old(rhs.Magnitude()), AsRounded(), negative, st)
    {
      match (category, rhs.category)
      case (NaN, _) => st := OK;
      case (_, NaN) =>
        category, significand := NaN, rhs.significand;
        st := OK;
      case (Infinity, Infinity) =>
        if (negative != rhs.negative) != subtract {
          MakeNaN();
          st := INVALID_OP;
        } else {
          st := OK;
        }
      case (_, Infinity) =>
        category, negative := Infinity, rhs.negative != subtract;
        st := OK;
      case (Infinity, _) => st := OK;
      case (Zero, Normal) =>
        category, exponent, significand := Normal, rhs.exponent, rhs.significand;
        negative := rhs.negative != subtract;
        OneZero(sem, mode, exponent, significand, negative);
        st := OK;
      case (Normal, Zero) =>
        OneZero(sem, mode, exponent, significand, negative);
        st := OK;
      case (Normal, Normal) => st := DIV_BY_ZERO;
      case (_, _) => st := OK;
    }

    method AddNormals(rhs: ApFloat, mode: RoundingMode, subtract: bool) returns (st: Status)
      requires Valid() && rhs.Valid() && sem == rhs.sem && category.Normal? && rhs.category.Normal?
      modifies this
      ensures Valid() && !category.NaN?
      ensures SumUpToZeroSign(sem, mode, old(negative), old(Magnitude()), old(rhs.negative) != subtract,
                              old(rhs.Magnitude()), AsRounded(), negative, st)
    {
      ghost var f: real;
      var lost: LostFraction;
      lost, f := AddOrSubtractSignificand(rhs, subtract);
      ZeroOnlyIfExact(sem, significand, lost, f, exponent);
      st := Normalize(mode, lost, f);
    }

    /** The sum of the operands, and the sign of an exact zero. */
    method AddAndSign(rhs: ApFloat, mode: RoundingMode, subtract: bool) returns (st: Status)
      requires Valid() && rhs.Valid() && sem == rhs.sem
      modifies this
      ensures Valid()
      ensures SpecialSum(sem, old(category), old(negative), old(significand), old(rhs.category),
                         old(rhs.negative) != subtract, old(rhs.significand), category, negative, significand, st)
      ensures old(IsFinite() && rhs.IsFinite()) ==>
                !category.NaN? &&
                CorrectSum(sem, mode, old(negative), old(Magnitude()), old(rhs.negative) != subtract, old(rhs.Magnitude()),
                           AsRounded(), negative, st)
    {
      if IsFinite() && rhs.IsFinite() {
        MagnitudeZero();
        rhs.MagnitudeZero();
      }
      st := AddOrSubtractSpecials(rhs, subtract, mode);
      if st == DIV_BY_ZERO {
        st := AddNormals(rhs, mode, subtract);
      }
      if category.Zero? {
        if rhs.category != Zero || (negative == rhs.negative) == subtract {
          negative := mode == TowardNegative;
        }
        ZeroSum(sem, DirectionOf(mode, negative));
      }
    }

    /** Finite operands yield their correctly rounded sum, the others what IEEE 754 prescribes. */
    method AddOrSubtract(rhs: ApFloat, mode: RoundingMode, subtract: bool) returns (st: Status)
      requires Valid() && rhs.Valid() && sem == rhs.sem
      modifies this
      ensures Valid()
      ensures SpecialSum(sem, old(category), old(negative), old(significand), old(rhs.category),
                         old(rhs.negative) != subtract, old(rhs.significand), category, negative, significand, st)
      ensures old(IsFinite() && rhs.IsFinite()) ==>
                && !category.NaN?
                && CorrectSum(sem, mode, old(negative), old(Magnitude()), old(rhs.negative) != subtract, old(rhs.Magnitude()),
                              AsRounded(), negative, st)
                && SignedRounds(sem, mode, Signed(old(negative), old(Magnitude())) +
                                           Signed(old(rhs.negative) != subtract, old(rhs.Magnitude())), AsRounded(), negative)
    {
      st := AddAndSign(rhs, mode, subtract);
      if old(IsFinite() && rhs.IsFinite()) {
        SumIsRight(sem, mode, old(negative), old(Magnitude()), old(rhs.negative) != subtract, old(rhs.Magnitude()),
                   AsRounded(), negative, st);
      }
    }

    lemma MagnitudeZero()
      requires Valid() && IsFinite()
      ensures Magnitude() >= 0.0
      ensures Magnitude() == 0.0 <==> category.Zero?
    {
      if category.Normal? {
        MagPositive(sem, exponent, significand);
      }
    }

    method Add(rhs: ApFloat, mode: RoundingMode) returns (st: Status)
      requires Valid() && rhs.Valid() && sem == rhs.sem
      modifies this
      ensures Valid()
      ensures SpecialSum(sem, old(category), old(negative), old(significand), old(rhs.category),
                         old(rhs.negative), old(rhs.significand), category, negative, significand, st)
      ensures old(IsFinite() && rhs.IsFinite()) ==>
                !category.NaN? &&
                CorrectSum(sem, mode, old(negative), old(Magnitude()), old(rhs.negative), old(rhs.Magnitude()),
                           AsRounded(), negative, st)
      ensures old(IsFinite() && rhs.IsFinite()) ==>
                SignedRounds(sem, mode, Signed(old(negative), old(Magnitude())) +
                                        Signed(old(rhs.negative), old(rhs.Magnitude())), AsRounded(), negative)
    {
      st := AddOrSubtract(rhs, mode, false);
    }

    method Subtract(rhs: ApFloat, mode: RoundingMode) returns (st: Status)
      requires Valid() && rhs.Valid() && sem == rhs.sem
      modifies this
      ensures Valid()
      ensures SpecialSum(sem, old(category), old(negative), old(significand), old(rhs.category),
                         !old(rhs.negative), old(rhs.significand), category, negative, significand, st)
      ensures old(IsFinite() && rhs.IsFinite()) ==>
                !category.NaN? &&
                CorrectSum(sem, mode, old(negative), old(Magnitude()), !old(rhs.negative), old(rhs.Magnitude()),
                           AsRounded(), negative, st)
      ensures old(IsFinite() && rhs.IsFinite()) ==>
                SignedRounds(sem, mode, Signed(old(negative), old(Magnitude())) +
                                        Signed(!old(rhs.negative), old(rhs.Magnitude())), AsRounded(), negative)
    {
      st := AddOrSubtract(rhs, mode, true);
    }

    // -------------------------------------------------------------- multiplication

    method MultiplySignificand(rhs: ApFloat) returns (lost: LostFraction, ghost f: real)
      requires Valid() && rhs.Valid() && sem == rhs.sem && category.Normal? && rhs.category.Normal?
      modifies this`exponent, this`significand
      ensures Means(lost, f) && (lost != ExactlyZero ==> BitLen(significand) >= sem.precision)
      ensures Times(old(Magnitude()), old(rhs.Magnitude())) == Scale((significand as real) + f, Lsb(sem, exponent))
    {
      var full := significand * rhs.significand;
      ghost var x := Times(Magnitude(), rhs.Magnitude());
      MagProduct(sem, significand, exponent, rhs.significand, rhs.exponent, full, x);
      var omsb := BitLen(full);
      exponent := exponent + rhs.exponent - (sem.precision - 1);
      lost, f := ExactlyZero, 0.0;
      if omsb > sem.precision {
        var bits := omsb - sem.precision;
        CutToPrecision(sem, full, exponent, bits);
        f := Fraction(full, 0.0, bits);
        lost := Combine(LostFractionThroughTruncation(full, bits), lost);
        full := Shr(full, bits);
        exponent := exponent + bits;
      }
      significand := full;
    }

    method MultiplySpecials(rhs: ApFloat) returns (st: Status)
      requires Valid() && rhs.Valid() && sem == rhs.sem
      modifies this`category, this`negative, this`significand
      ensures ValidSemantics(sem)
      ensures SpecialProduct(sem, old(category), old(negative), old(significand), old(rhs.category), old(rhs.significand),
                             category, negative, significand, st)
      ensures category.Normal? <==> old(category).Normal? && old(rhs.category).Normal?
      ensures category.Normal? ==> unchanged(this)
    {
      match (category, rhs.category)
      case (NaN, _) => st := OK;
      case (_, NaN) =>
        category, significand := NaN, rhs.significand;
        st := OK;
      case (Zero, Infinity) | (Infinity, Zero) =>
        MakeNaN();
        st := INVALID_OP;
      case (Infinity, _) | (_, Infinity) =>
        category := Infinity;
        st := OK;
      case (Normal, Normal) => st := OK;
      case (_, _) =>
        category := Zero;
        st := OK;
    }

    method MultiplyNormals(rhs: ApFloat, mode: RoundingMode) returns (st: Status)
      requires Valid() && rhs.Valid() && sem == rhs.sem && category.Normal? && rhs.category.Normal?
      modifies this`category, this`exponent, this`significand
      ensures Valid() && !category.NaN?
      ensures CorrectResult(sem, mode, negative, Times(old(Magnitude()), old(rhs.Magnitude())), AsRounded(), st)
    {
      ghost var f: real;
      var lost: LostFraction;
      lost, f := MultiplySignificand(rhs);
      st := Normalize(mode, lost, f);
      if lost != ExactlyZero {
        st := st.(inexact := true);
      }
    }

    /** Finite operands yield their correctly rounded product. */
    method Multiply(rhs: ApFloat, mode: RoundingMode) returns (st: Status)
      requires Valid() && rhs.Valid() && sem == rhs.sem
      modifies this
      ensures Valid()
      ensures SpecialProduct(sem, old(category), old(negative) != old(rhs.negative), old(significand), old(rhs.category),
                             old(rhs.significand), category, negative, significand, st)
      ensures old(IsFinite() && rhs.IsFinite()) ==>
                && !category.NaN? && negative == (old(negative) != old(rhs.negative))
                && CorrectResult(sem, mode, negative, Times(old(Magnitude()), old(rhs.Magnitude())), AsRounded(), st)
                && SignedRounds(sem, mode, Signed(negative, Times(old(Magnitude()), old(rhs.Magnitude()))), AsRounded(), negative)
    {
      ghost var x: real := 0.0;
      if IsFinite() && rhs.IsFinite() {
        x := Times(Magnitude(), rhs.Magnitude());
        MagnitudeZero();
        rhs.MagnitudeZero();
        ZeroProduct(Magnitude(), rhs.Magnitude());
      }
      negative := negative != rhs.negative;
      st := MultiplySpecials(rhs);
      if category.Normal? {
        st := MultiplyNormals(rhs, mode);
      } else {
        ZeroSum(sem, DirectionOf(mode, negative));
      }
      if old(IsFinite() && rhs.IsFinite()) {
        ResultIsRight(sem, mode, negative, x, AsRounded(), st);
      }
    }

    // -------------------------------------------------------------- division

    method DivideSignificand(rhs: ApFloat) returns (lost: LostFraction, ghost f: real)
      requires Valid() && rhs.Valid() && sem == rhs.sem && category.Normal? && rhs.category.Normal?
      modifies this`exponent, this`significand
      ensures Means(lost, f) && BitLen(significand) == sem.precision
      ensures old(rhs.Magnitude()) > 0.0
      ensures Quotient(old(Magnitude()), old(rhs.Magnitude())) == Scale((significand as real) + f, Lsb(sem, exponent))
    {
      ghost var L, R, e, er := significand, rhs.significand, exponent, rhs.exponent;
      var p := sem.precision;
      var dividend, divisor := significand, rhs.significand;
      exponent := exponent - rhs.exponent;
      BitLenLess(divisor, p);
      var bit := p - BitLen(divisor);
      LeftShiftFits(divisor, bit, p);
      divisor := divisor * Pow2(bit);
      exponent := exponent + bit;
      ghost var j := bit;
      BitLenLess(dividend, p);
      bit := p - BitLen(dividend);
      LeftShiftFits(dividend, bit, p);
      dividend := dividend * Pow2(bit);
      exponent := exponent - bit;
      ghost var i := bit;
      assert Pow2(p) == 2 * Pow2(p - 1);
      if dividend < divisor {
        exponent := exponent - 1;
        ShiftOnce(L, i);
        dividend := dividend * 2;
        i := i + 1;
      }
      var q, d := LongDivision(dividend, divisor, p);
      significand := q;
      BitLenIs(q, p - 1);
      lost := if d > divisor then MoreThanHalf else if d == divisor then ExactlyHalf
              else if d == 0 then ExactlyZero else LessThanHalf;
      f := ((d / 2) as real) / (divisor as real);
      RemainderMeans(d / 2, divisor);
      QuotientOfShifted(sem, L, e, i, R, er, j, q, d / 2);
    }

    method DivideSpecials(rhs: ApFloat) returns (st: Status)
      requires Valid() && rhs.Valid() && sem == rhs.sem
      modifies this`category, this`negative, this`significand
      ensures ValidSemantics(sem)
      ensures SpecialQuotient(sem, old(category), old(negative), old(significand), old(rhs.category), old(rhs.significand),
                              category, negative, significand, st)
      ensures category.Normal? <==> old(category).Normal? && old(rhs.category).Normal?
      ensures category.Normal? ==> unchanged(this)
    {
      match (category, rhs.category)
      case (NaN, _) => st := OK;
      case (_, NaN) =>
        category, significand := NaN, rhs.significand;
        st := OK;
      case (Infinity, Infinity) | (Zero, Zero) =>
        MakeNaN();
        st := INVALID_OP;
      case (Normal, Infinity) =>
        category := Zero;
        st := OK;
      case (Normal, Zero) =>
        category := Infinity;
        st := DIV_BY_ZERO;
      case (_, _) => st := OK;
    }

    method DivideNormals(rhs: ApFloat, mode: RoundingMode) returns (st: Status)
      requires Valid() && rhs.Valid() && sem == rhs.sem && category.Normal? && rhs.category.Normal?
      modifies this`category, this`exponent, this`significand
      ensures Valid() && !category.NaN? && old(rhs.Magnitude()) > 0.0
      ensures CorrectResult(sem, mode, negative, Quotient(old(Magnitude()), old(rhs.Magnitude())), AsRounded(), st)
    {
      ghost var f: real;
      var lost: LostFraction;
      lost, f := DivideSignificand(rhs);
      st := Normalize(mode, lost, f);
      if lost != ExactlyZero {
        st := st.(inexact := true);
      }
    }

    /** A finite dividend and a finite non-zero divisor yield their correctly rounded quotient. */
    method Divide(rhs: ApFloat, mode: RoundingMode) returns (st: Status)
      requires Valid() && rhs.Valid() && sem == rhs.sem
      modifies this
      ensures Valid()
      ensures SpecialQuotient(sem, old(category), old(negative) != old(rhs.negative), old(significand), old(rhs.category),
                              old(rhs.significand), category, negative, significand, st)
      ensures old(IsFinite()) && old(rhs.category).Normal? ==>
                && !category.NaN? && negative == (old(negative) != old(rhs.negative)) && old(rhs.Magnitude()) > 0.0
                && CorrectResult(sem, mode, negative, Quotient(old(Magnitude()), old(rhs.Magnitude())), AsRounded(), st)
                && SignedRounds(sem, mode, Signed(negative, Quotient(old(Magnitude()), old(rhs.Magnitude()))), AsRounded(), negative)
    {
      ghost var x: real := 0.0;
      if rhs.category.Normal? {
        MagPositive(sem, rhs.exponent, rhs.significand);
        ZeroQuotient(rhs.Magnitude());
        if IsFinite() {
          MagnitudeZero();
          x := Quotient(Magnitude(), rhs.Magnitude());
          QuotientSign(Magnitude(), rhs.Magnitude());
        }
      }
      negative := negative != rhs.negative;
      st := DivideSpecials(rhs);
      if category.Normal? {
        st := DivideNormals(rhs, mode);
      } else {
        ZeroSum(sem, DirectionOf(mode, negative));
      }
      if old(IsFinite()) && old(rhs.category).Normal? {
        ResultIsRight(sem, mode, negative, x, AsRounded(), st);
      }
    }
  }

  /** The loop of `divideSignificand`: one quotient bit at a time, from the top. */
  method LongDivision(dividend: nat, divisor: nat, p: nat) returns (q: nat, d: nat)
    requires divisor <= dividend < 2 * divisor && p >= 1
    ensures dividend * Pow2(p - 1) == q * divisor + d / 2 && d / 2 < divisor && d % 2 == 0
    ensures Pow2(p - 1) <= q < Pow2(p)
  {
    q, d := 0, dividend;
    var bit := p;
    ghost var found: nat := 0;
    while bit > 0
      invariant 0 <= bit <= p
      invariant Dividing(dividend, divisor, p - bit, found, d)
      invariant q == found * Pow2(bit)
    {
      DividingStep(dividend, divisor, p - bit, found, d);
      BitBelow(found, bit);
      if d >= divisor {
        d := d - divisor;
        q := q + Pow2(bit - 1);
        found := 2 * found + 1;
      } else {
        found := 2 * found;
      }
      d := 2 * d;
      bit := bit - 1;
    }
    DividingDone(dividend, divisor, p, found, d);
  }

  lemma BitBelow(found: nat, bit: nat)
    requires bit > 0
    ensures found * Pow2(bit) == (2 * found) * Pow2(bit - 1)
    ensures found * Pow2(bit) + Pow2(bit - 1) == (2 * found + 1) * Pow2(bit - 1)
  {
  }

  lemma ShiftOnce(L: nat, i: nat)
    ensures (L * Pow2(i)) * 2 == L * Pow2(i + 1)
  {
  }

  lemma ZeroQuotient(b: real)
    requires b > 0.0
    ensures Quotient(0.0, b) == 0.0
  {
  }

  lemma QuotientOfShifted(sem: Semantics, L: nat, e: int, i: nat, R: nat, er: int, j: nat, q: nat, rem: nat)
    requires R > 0 && sem.precision >= 1
    requires (L * Pow2(i)) * Pow2(sem.precision - 1) == q * (R * Pow2(j)) + rem
    ensures Mag(sem, er, R) > 0.0
    ensures Quotient(Mag(sem, e, L), Mag(sem, er, R)) ==
            Scale((q as real) + (rem as real) / ((R * Pow2(j)) as real), Lsb(sem, e - er + j - i))
  {
    LeftShiftExact(L, i, Lsb(sem, e));
    LeftShiftExact(R, j, Lsb(sem, er));
    QuotientExact(L * Pow2(i), R * Pow2(j), q, rem, sem.precision, Lsb(sem, e) - i, Lsb(sem, er) - j);
  }

  /** A finite number is its own rounding. */
  lemma OwnRounding(sem: Semantics, d: Direction, e: int, m: nat)
    requires ValidSemantics(sem) && Canonical(sem, e, m)
    ensures RoundsTo(sem, d, Mag(sem, e, m), Finite(e, m)) && Reports(sem, Mag(sem, e, m), Finite(e, m), OK)
  {
    ExactRounds(sem, d, e, m, Mag(sem, e, m));
  }

  /** The sum of a number and a zero. */
  lemma OneZero(sem: Semantics, mode: RoundingMode, e: int, m: nat, negative: bool)
    requires ValidSemantics(sem) && Canonical(sem, e, m) && m > 0
    ensures Mag(sem, e, m) > 0.0
    ensures forall n :: CorrectSum(sem, mode, n, 0.0, negative, Mag(sem, e, m), Finite(e, m), negative, OK)
    ensures forall n :: CorrectSum(sem, mode, negative, Mag(sem, e, m), n, 0.0, Finite(e, m), negative, OK)
  {
    OwnRounding(sem, DirectionOf(mode, negative), e, m);
    MagPositive(sem, e, m);
  }

  predicate NoFlags(st: Status) {
    !st.invalidOp && !st.divByZero && !st.overflow && !st.underflow && !st.inexact
  }

  predicate IsInvalid(st: Status) {
    st.invalidOp && !st.divByZero && !st.overflow && !st.underflow && !st.inexact
  }

  predicate IsDivByZero(st: Status) {
    !st.invalidOp && st.divByZero && !st.overflow && !st.underflow && !st.inexact
  }

  /** The significand of the default quiet not-a-number: its first fraction bit is set. */
  function QuietNaN(sem: Semantics): nat {
    if sem.precision >= 2 then Pow2(sem.precision - 2) else 0
  }

  /** The results prescribed when an operand is infinite or not a number. */
  predicate SpecialSum(sem: Semantics, ca: Category, na: bool, sa: nat, cb: Category, nb: bool, sb: nat,
                       c: Category, n: bool, s: nat, st: Status)
  {
    if ca.NaN? then c.NaN? && n == na && s == sa && NoFlags(st)
    else if cb.NaN? then c.NaN? && n == na && s == sb && NoFlags(st)
    else if ca.Infinity? && cb.Infinity? then
      if na == nb then c.Infinity? && n == na && NoFlags(st) else c.NaN? && !n && s == QuietNaN(sem) && IsInvalid(st)
    else if ca.Infinity? then c.Infinity? && n == na && NoFlags(st)
    else if cb.Infinity? then c.Infinity? && n == nb && NoFlags(st)
    else true
  }

  predicate SpecialProduct(sem: Semantics, ca: Category, n0: bool, sa: nat, cb: Category, sb: nat,
                           c: Category, n: bool, s: nat, st: Status)
  {
    if ca.NaN? then c.NaN? && n == n0 && s == sa && NoFlags(st)
    else if cb.NaN? then c.NaN? && n == n0 && s == sb && NoFlags(st)
    else if (ca.Infinity? && cb.Zero?) || (ca.Zero? && cb.Infinity?) then c.NaN? && !n && s == QuietNaN(sem) && IsInvalid(st)
    else if ca.Infinity? || cb.Infinity? then c.Infinity? && n == n0 && NoFlags(st)
    else if ca.Zero? || cb.Zero? then c.Zero? && n == n0 && NoFlags(st)
    else true
  }

  predicate SpecialQuotient(sem: Semantics, ca: Category, n0: bool, sa: nat, cb: Category, sb: nat,
                            c: Category, n: bool, s: nat, st: Status)
  {
    if ca.NaN? then c.NaN? && n == n0 && s == sa && NoFlags(st)
    else if cb.NaN? then c.NaN? && n == n0 && s == sb && NoFlags(st)
    else if (ca.Infinity? && cb.Infinity?) || (ca.Zero? && cb.Zero?) then c.NaN? && !n && s == QuietNaN(sem) && IsInvalid(st)
    else if ca.Infinity? then c.Infinity? && n == n0 && NoFlags(st)
    else if cb.Infinity? then c.Zero? && n == n0 && NoFlags(st)
    else if cb.Zero? then c.Infinity? && n == n0 && IsDivByZero(st)
    else if ca.Zero? then c.Zero? && n == n0 && NoFlags(st)
    else true
  }

  /** The correctly rounded sum of two finite numbers. An exact zero is positive unless rounding
      toward negative, except that the sum of two zeros of one sign keeps that sign. */
  ghost predicate CorrectSum(sem: Semantics, mode: RoundingMode, na: bool, A: real, nb: bool, B: real,
                             r: Rounded, negative: bool, st: Status)
    requires ValidSemantics(sem)
  {
    var z := Signed(na, A) + Signed(nb, B);
    && RoundsTo(sem, DirectionOf(mode, negative), Abs(z), r) && Reports(sem, Abs(z), r, st)
    && (z > 0.0 ==> !negative) && (z < 0.0 ==> negative)
    && (z == 0.0 ==> r == Finite(sem.minExponent, 0) &&
                     negative == if A == 0.0 && B == 0.0 && na == nb then na else mode == TowardNegative)
  }

  /** The same, with the sign of an exact zero still open. */
  ghost predicate SumUpToZeroSign(sem: Semantics, mode: RoundingMode, na: bool, A: real, nb: bool, B: real,
                                  r: Rounded, negative: bool, st: Status)
    requires ValidSemantics(sem)
  {
    if Signed(na, A) + Signed(nb, B) == 0.0 then r == Finite(sem.minExponent, 0) && st == OK
    else !(r.Finite? && r.m == 0) && CorrectSum(sem, mode, na, A, nb, B, r, negative, st)
  }

  /** The same, said of signed numbers. */
  lemma SumIsRight(sem: Semantics, mode: RoundingMode, na: bool, A: real, nb: bool, B: real,
                   r: Rounded, negative: bool, st: Status)
    requires ValidSemantics(sem) && CorrectSum(sem, mode, na, A, nb, B, r, negative, st)
    ensures SignedRounds(sem, mode, Signed(na, A) + Signed(nb, B), r, negative)
  {
    DirectionIsRight(sem, mode, Signed(na, A) + Signed(nb, B), r, negative);
  }

  lemma ResultIsRight(sem: Semantics, mode: RoundingMode, negative: bool, x: real, r: Rounded, st: Status)
    requires ValidSemantics(sem) && CorrectResult(sem, mode, negative, x, r, st) && x >= 0.0
    requires x == 0.0 ==> r == Finite(sem.minExponent, 0)
    ensures SignedRounds(sem, mode, Signed(negative, x), r, negative)
  {
    DirectionIsRight(sem, mode, Signed(negative, x), r, negative);
  }

  lemma QuotientSign(a: real, b: real)
    requires a >= 0.0 && b > 0.0
    ensures Quotient(a, b) >= 0.0 && (Quotient(a, b) == 0.0 <==> a == 0.0)
  {
  }

  lemma ZeroSum(sem: Semantics, d: Direction)
    requires ValidSemantics(sem)
    ensures RoundsTo(sem, d, 0.0, Finite(sem.minExponent, 0)) && Reports(sem, 0.0, Finite(sem.minExponent, 0), OK)
  {
    ScaleZero(Lsb(sem, sem.minExponent));
    ExactRounds(sem, d, sem.minExponent, 0, 0.0);
  }

  lemma ZeroOnlyIfExact(sem: Semantics, s: nat, lost: LostFraction, f: real, e: int)
    requires Means(lost, f) && (lost != ExactlyZero ==> s > 0)
    ensures Scale((s as real) + f, Lsb(sem, e)) == 0.0 <==> s == 0
    ensures s == 0 ==> lost == ExactlyZero
  {
    ScaleZero(Lsb(sem, e));
    ScaleOrder(0.0, (s as real) + f, Lsb(sem, e));
  }

  lemma MagPositive(sem: Semantics, e: int, m: nat)
    requires m > 0
    ensures Mag(sem, e, m) > 0.0
  {
    ScalePositive(m as real, Lsb(sem, e));
  }

  lemma FullPrecision(n: nat, p: nat)
    requires p >= 1 && n >= Pow2(p - 1)
    ensures BitLen(n) >= p
  {
    BitLenBounds(n);
    if BitLen(n) < p {
      Pow2Monotone(BitLen(n), p - 1);
    }
  }

  lemma SumExact(sem: Semantics, L: nat, e: int, R: nat, er: int)
    requires ValidSemantics(sem) && Canonical(sem, e, L) && Canonical(sem, er, R) && er <= e && L > 0
    ensures var bits: nat := e - er;
            var lost, f := LostFractionThroughTruncation(R, bits), Fraction(R, 0.0, bits);
            && Means(lost, f)
            && Mag(sem, e, L) + Mag(sem, er, R) == Scale(((L + Shr(R, bits)) as real) + f, Lsb(sem, e))
            && (lost != ExactlyZero ==> BitLen(L + Shr(R, bits)) >= sem.precision)
  {
    AlignedSum(L, R, e - er, Lsb(sem, e));
    if e > er {
      FullPrecision(L + Shr(R, e - er), sem.precision);
    }
  }

  lemma ZeroProduct(a: real, b: real)
    ensures a == 0.0 || b == 0.0 ==> Times(a, b) == 0.0
    ensures a > 0.0 && b > 0.0 ==> Times(a, b) > 0.0
  {
  }

  lemma MagProduct(sem: Semantics, L: nat, e: int, R: nat, er: int, full: nat, x: real)
    requires full == L * R && x == Times(Mag(sem, e, L), Mag(sem, er, R))
    ensures x == Scale(full as real, Lsb(sem, e + er - (sem.precision - 1)))
  {
    ProductExact(L, R, full, Lsb(sem, e), Lsb(sem, er));
  }

  lemma CutToPrecision(sem: Semantics, full: nat, e: int, bits: nat)
    requires BitLen(full) == sem.precision + bits
    ensures Scale(full as real, Lsb(sem, e)) == Scale((Shr(full, bits) as real) + Fraction(full, 0.0, bits), Lsb(sem, e + bits))
    ensures Means(LostFractionThroughTruncation(full, bits), Fraction(full, 0.0, bits))
    ensures BitLen(Shr(full, bits)) == sem.precision
  {
    Truncated(full, bits, Lsb(sem, e + bits));
    ShrBitLen(full, bits);
  }

  lemma EqualExponents(L: nat, R: nat, l: int)
    ensures Scale(L as real, l) - Scale(R as real, l) == Scale((L - R) as real, l)
    ensures Scale(R as real, l) - Scale(L as real, l) == Scale((R - L) as real, l)
    ensures Scale(L as real, l) < Scale(R as real, l) <==> L < R
  {
    ScaleSum(L as real, R as real, l);
    ScaleSum(R as real, L as real, l);
    ScaleOrder(L as real, R as real, l);
  }

  /** What is left of the shifted significand `twice` when the other, shifted right `b`, is subtracted. */
  function Remaining(twice: nat, R: nat, b: nat): int {
    twice - Shr(R, b) - if LostFractionThroughTruncation(R, b) != ExactlyZero then 1 else 0
  }

  lemma DifferenceExact(sem: Semantics, L: nat, e: int, R: nat, er: int)
    requires ValidSemantics(sem) && Canonical(sem, e, L) && Canonical(sem, er, R) && er < e
    ensures var b: nat := e - er - 1;
            var lost, f, D := LostFractionThroughTruncation(R, b), Rest(Fraction(R, 0.0, b)), Remaining(L * Pow2(1), R, b);
            && Means(Invert(lost), f) && D > 0
            && Mag(sem, e, L) - Mag(sem, er, R) == Scale((D as real) + f, Lsb(sem, e - 1)) > 0.0
            && (lost != ExactlyZero ==> BitLen(D) >= sem.precision)
  {
    var b: nat := e - er - 1;
    var D := Remaining(L * Pow2(1), R, b);
    assert L * Pow2(1) == 2 * L;
    DifferenceIsLarge(sem, L, R, e - er);
    AlignedDifference(L, R, e - er, Lsb(sem, e), D);
    ScalePositive((D as real) + Rest(Fraction(R, 0.0, b)), Lsb(sem, e - 1));
  }

  lemma DifferenceIsLarge(sem: Semantics, L: nat, R: nat, bits: nat)
    requires ValidSemantics(sem) && bits >= 1 && Pow2(sem.precision - 1) <= L && R < Pow2(sem.precision)
    ensures var D := Remaining(2 * L, R, bits - 1);
            D > 0 && (LostFractionThroughTruncation(R, bits - 1) != ExactlyZero ==> BitLen(D) >= sem.precision)
  {
    DifferenceSize(L, R, bits, sem.precision);
    var D := Remaining(2 * L, R, bits - 1);
    if LostFractionThroughTruncation(R, bits - 1) != ExactlyZero {
      FullPrecision(D, sem.precision);
    }
  }

  lemma ExactZero(sem: Semantics, mode: RoundingMode, negative: bool, x: real, e: int)
    requires ValidSemantics(sem) && x == Scale(0.0, Lsb(sem, e))
    ensures x == Mag(sem, sem.minExponent, 0)
    ensures RoundsTo(sem, DirectionOf(mode, negative), x, Finite(sem.minExponent, 0))
  {
    ScaleZero(Lsb(sem, e));
    ScaleZero(Lsb(sem, sem.minExponent));
    ExactRounds(sem, DirectionOf(mode, negative), sem.minExponent, 0, x);
  }
}
