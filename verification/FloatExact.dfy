/**
 The exact arithmetic behind the floating-point operations: how sums, differences, products and
 quotients of scaled significands are again scaled significands with a fraction.
 */
module FloatExact {
  import opened Powers
  import opened Reals
  import opened FloatSpec
  import opened LostFractions

  function Signed(negative: bool, a: real): real {
    if negative then -a else a
  }

  function Quotient(a: real, b: real): real
    requires b != 0.0
  {
    a / b
  }

  function Abs(z: real): real {
    if z < 0.0 then -z else z
  }

  // ---------------------------------------------------------------- sums and differences

  lemma Truncated(R: nat, bits: nat, l: int)
    ensures Scale(R as real, l - bits) == Scale((Shr(R, bits) as real) + Fraction(R, 0.0, bits), l)
    ensures Means(LostFractionThroughTruncation(R, bits), Fraction(R, 0.0, bits))
  {
    TruncationExact(R, 0.0, bits, l - bits);
    TruncationMeans(R, ExactlyZero, 0.0, bits);
  }

  /** The summand with the smaller exponent is shifted right `bits` places. */
  lemma AlignedSum(L: nat, R: nat, bits: nat, l: int)
    ensures Scale(L as real, l) + Scale(R as real, l - bits) ==
            Scale(((L + Shr(R, bits)) as real) + Fraction(R, 0.0, bits), l)
    ensures Means(LostFractionThroughTruncation(R, bits), Fraction(R, 0.0, bits))
  {
    Truncated(R, bits, l);
    ScaleSum(L as real, (Shr(R, bits) as real) + Fraction(R, 0.0, bits), l);
  }

  function Invert(lost: LostFraction): LostFraction {
    match lost
    case LessThanHalf => MoreThanHalf
    case MoreThanHalf => LessThanHalf
    case _ => lost
  }

  /** The fraction left when a fraction `g` is subtracted with a borrow. */
  function Rest(g: real): real {
    if g == 0.0 then 0.0 else 1.0 - g
  }

  /** The subtrahend is shifted right one place less and the minuend left one place; what the
      subtrahend lost is borrowed. */
  lemma AlignedDifference(L: nat, R: nat, bits: nat, l: int, D: int)
    requires bits >= 1
    requires D == 2 * L - Shr(R, bits - 1) - if LostFractionThroughTruncation(R, bits - 1) != ExactlyZero then 1 else 0
    ensures var g := Fraction(R, 0.0, bits - 1);
            && Scale(L as real, l) - Scale(R as real, l - bits) == Scale((D as real) + Rest(g), l - 1)
            && Means(Invert(LostFractionThroughTruncation(R, bits - 1)), Rest(g))
  {
    var g := Fraction(R, 0.0, bits - 1);
    Truncated(R, bits - 1, l - 1);
    ScaleScale(L as real, 1, l - 1);
    ScaleStep(L as real, 0);
    ScaleSum((2 * L) as real, (Shr(R, bits - 1) as real) + g, l - 1);
    Borrowed(L, Shr(R, bits - 1), g, D);
  }

  lemma Borrowed(L: nat, r: nat, g: real, D: int)
    requires D == 2 * L - r - if g != 0.0 then 1 else 0
    ensures (D as real) + Rest(g) == ((2 * L) as real) - ((r as real) + g)
  {
  }

  lemma {:induction false} ShrHalves(R: nat, bits: nat)
    requires bits >= 1
    ensures 2 * Shr(R, bits) <= R
  {
    if bits > 1 {
      ShrHalves(R, bits - 1);
    }
  }

  /** No further borrow is needed, and a difference that lost something still has full precision. */
  lemma DifferenceSize(L: nat, R: nat, bits: nat, p: nat)
    requires p >= 2 && bits >= 1 && Pow2(p - 1) <= L && R < Pow2(p)
    ensures var lost := LostFractionThroughTruncation(R, bits - 1);
            var D := 2 * L - Shr(R, bits - 1) - if lost != ExactlyZero then 1 else 0;
            D > 0 && (lost != ExactlyZero ==> D >= Pow2(p - 1))
  {
    assert Pow2(p) == 2 * Pow2(p - 1);
    if bits > 1 {
      ShrHalves(R, bits - 1);
    }
  }

  // ---------------------------------------------------------------- products and quotients

  lemma {:induction false} ScaleFactor(x: real, y: real, a: int)
    ensures Times(Scale(x, a), y) == Scale(Times(x, y), a)
    decreases if a >= 0 then a else -a
  {
    if a > 0 {
      ScaleFactor(x, y, a - 1);
      Twice(Scale(x, a - 1), y);
    } else if a < 0 {
      ScaleFactor(x, y, a + 1);
      Twice(Scale(x, a), y);
    }
  }

  lemma Twice(x: real, y: real)
    ensures Times(2.0 * x, y) == 2.0 * Times(x, y)
  {
  }

  lemma ScaleProduct(x: real, y: real, a: int, b: int)
    ensures Times(Scale(x, a), Scale(y, b)) == Scale(Times(x, y), a + b)
  {
    ScaleFactor(x, Scale(y, b), a);
    Commutes(x, Scale(y, b));
    ScaleFactor(y, x, b);
    Commutes(x, y);
    ScaleScale(Times(x, y), b, a);
  }

  lemma ProductExact(L: nat, R: nat, full: nat, a: int, b: int)
    requires full == L * R
    ensures Times(Scale(L as real, a), Scale(R as real, b)) == Scale(full as real, a + b)
  {
    RealProduct(L, R, full);
    ScaleProduct(L as real, R as real, a, b);
  }

  lemma RealProduct(L: nat, R: nat, full: nat)
    requires full == L * R
    ensures full as real == Times(L as real, R as real)
  {
  }

  lemma ScalePositive(x: real, k: int)
    requires x > 0.0
    ensures Scale(x, k) > 0.0
  {
    ScaleZero(k);
    ScaleOrder(0.0, x, k);
  }

  lemma QuotientIs(a: real, b: real, q: real)
    requires b != 0.0 && Times(q, b) == a
    ensures a / b == q
  {
  }

  lemma ScaleQuotient(x: real, y: real, q: real, a: int, b: int)
    requires y > 0.0 && Times(q, y) == x
    ensures Scale(y, b) > 0.0 && Scale(x, a) / Scale(y, b) == Scale(q, a - b)
  {
    ScalePositive(y, b);
    ScaleProduct(q, y, a - b, b);
    QuotientIs(Scale(x, a), Scale(y, b), Scale(q, a - b));
  }

  /** Long division: from `D` times two to the `p - 1` divided by `V` to the quotient of the
      numbers from which `D` and `V` were shifted. */
  lemma QuotientExact(D: nat, V: nat, Q: nat, rem: nat, p: nat, a: int, b: int)
    requires V > 0 && p >= 1 && D * Pow2(p - 1) == Q * V + rem
    ensures Scale(V as real, b) > 0.0
    ensures Scale(D as real, a) / Scale(V as real, b) ==
            Scale((Q as real) + (rem as real) / (V as real), a - b - p + 1)
  {
    ScaleNat(D, p - 1);
    ScaleScale(D as real, p - 1, a - p + 1);
    Divided(Q, V, rem);
    ScaleQuotient((D * Pow2(p - 1)) as real, V as real, (Q as real) + (rem as real) / (V as real), a - p + 1, b);
  }

  lemma Divided(Q: nat, V: nat, rem: nat)
    requires V > 0
    ensures Times((Q as real) + (rem as real) / (V as real), V as real) == (Q * V + rem) as real
  {
    var q, v, r := Q as real, V as real, rem as real;
    var f := r / v;
    assert f * v == r;
    assert (q + f) * v == q * v + f * v;
  }

  /** Comparing twice the remainder with the divisor classifies the fraction. */
  lemma RemainderMeans(rem: nat, V: nat)
    requires rem < V
    ensures var lost := if 2 * rem > V then MoreThanHalf else if 2 * rem == V then ExactlyHalf
                        else if rem == 0 then ExactlyZero else LessThanHalf;
            Means(lost, (rem as real) / (V as real))
  {
    var r, v := rem as real, V as real;
    var f := r / v;
    assert f * v == r;
    Classify(f, v, r);
  }

  lemma Classify(f: real, v: real, r: real)
    requires v > 0.0 && f * v == r && 0.0 <= r < v
    ensures 0.0 <= f < 1.0
    ensures 2.0 * r > v <==> f > 0.5
    ensures 2.0 * r == v <==> f == 0.5
    ensures r == 0.0 <==> f == 0.0
  {
    CompareTimes(f, 0.0, v, r, 0.0);
    CompareTimes(f, 0.5, v, r, v / 2.0);
    CompareTimes(f, 1.0, v, r, v);
  }

  lemma CompareTimes(f: real, c: real, v: real, fv: real, cv: real)
    requires v > 0.0 && fv == f * v && cv == c * v
    ensures f < c <==> fv < cv
    ensures f == c <==> fv == cv
  {
    if f < c {
      TimesLess(f, c, v);
    } else if f > c {
      TimesLess(c, f, v);
    }
  }

  lemma TimesLess(a: real, b: real, c: real)
    requires a < b && c > 0.0
    ensures a * c < b * c
  {
  }

  // ---------------------------------------------------------------- long division

  /** `q` is the part of the quotient found after `k` steps, `d` what is left, doubled. */
  predicate Dividing(D: nat, V: nat, k: nat, q: nat, d: nat) {
    D * Pow2(k) == 2 * (q * V) + d && d < 2 * V && q < Pow2(k) && (k > 0 ==> q >= Pow2(k - 1) && d % 2 == 0)
  }

  lemma DividingStep(D: nat, V: nat, k: nat, q: nat, d: nat)
    requires V <= D && Dividing(D, V, k, q, d)
    ensures Dividing(D, V, k + 1, if d >= V then 2 * q + 1 else 2 * q, if d >= V then 2 * (d - V) else 2 * d)
  {
    var b := if d >= V then 1 else 0;
    StepExact(D, Pow2(k), q, V, d, b);
    if k == 0 {
      assert D * 1 == d;
    }
  }

  lemma StepExact(D: nat, w: nat, q: nat, V: nat, d: nat, b: nat)
    requires D * w == 2 * (q * V) + d
    ensures D * (2 * w) == 2 * ((2 * q + b) * V) + 2 * (d - b * V)
  {
    var X, Y := q * V, b * V;
    assert (2 * q + b) * V == 2 * X + Y;
    assert D * (2 * w) == 2 * (D * w);
  }

  lemma DividingDone(D: nat, V: nat, p: nat, q: nat, d: nat)
    requires p >= 1 && Dividing(D, V, p, q, d)
    ensures D * Pow2(p - 1) == q * V + d / 2 && d / 2 < V && Pow2(p - 1) <= q < Pow2(p)
  {
    Halved(D, Pow2(p - 1), q * V, d);
  }

  lemma Halved(D: nat, w: nat, X: nat, d: nat)
    requires D * (2 * w) == 2 * X + d && d % 2 == 0
    ensures D * w == X + d / 2
  {
    assert D * (2 * w) == 2 * (D * w);
  }
}
