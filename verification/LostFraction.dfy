/**
 How much is cut off when a significand is truncated: the four-valued summary that the
 floating-point code carries beside a truncated significand, and the real fraction it stands for.
 */
module LostFractions {
  import opened Powers
  import opened FloatSpec

  datatype LostFraction = ExactlyZero | LessThanHalf | ExactlyHalf | MoreThanHalf

  /** What a summary says of the fraction, in units of the last place kept. */
  predicate Means(lf: LostFraction, f: real) {
    match lf
    case ExactlyZero => f == 0.0
    case LessThanHalf => 0.0 < f < 0.5
    case ExactlyHalf => f == 0.5
    case MoreThanHalf => 0.5 < f < 1.0
  }

  // ---------------------------------------------------------------- bits

  function Shr(n: nat, bits: nat): (r: nat)
    ensures r <= n
  {
    if bits == 0 then n else Shr(n, bits - 1) / 2
  }

  predicate Bit(n: nat, i: nat) {
    Shr(n, i) % 2 == 1
  }

  function BitLen(n: nat): nat {
    if n == 0 then 0 else 1 + BitLen(n / 2)
  }

  /** The position of the lowest bit set. */
  function LowestBit(n: nat): nat
    requires n > 0
  {
    if n % 2 == 1 then 0 else 1 + LowestBit(n / 2)
  }

  lemma {:induction false} ShrHalf(n: nat, i: nat)
    ensures Shr(n / 2, i) == Shr(n, i + 1)
  {
    if i > 0 {
      ShrHalf(n, i - 1);
    }
  }

  lemma {:induction false} LowestBitIs(n: nat, i: nat)
    requires n > 0
    ensures i < LowestBit(n) ==> !Bit(n, i)
    ensures i == LowestBit(n) ==> Bit(n, i)
  {
    if n % 2 == 0 && i > 0 {
      LowestBitIs(n / 2, i - 1);
      ShrHalf(n, i - 1);
    }
  }

  lemma {:induction false} BitLenBounds(n: nat)
    requires n > 0
    ensures BitLen(n) >= 1 && Pow2(BitLen(n) - 1) <= n < Pow2(BitLen(n))
  {
    if n > 1 {
      BitLenBounds(n / 2);
    }
  }

  lemma {:induction false} BitLenIs(n: nat, k: nat)
    requires Pow2(k) <= n < Pow2(k + 1)
    ensures BitLen(n) == k + 1
  {
    if k > 0 {
      BitLenIs(n / 2, k - 1);
    }
  }

  lemma BitLenLess(n: nat, k: nat)
    requires n < Pow2(k)
    ensures BitLen(n) <= k
  {
    if n > 0 && BitLen(n) > k {
      BitLenBounds(n);
      Pow2Monotone(k, BitLen(n) - 1);
    }
  }

  lemma {:induction false} ShrBitLen(n: nat, bits: nat)
    ensures BitLen(Shr(n, bits)) == if bits <= BitLen(n) then BitLen(n) - bits else 0
  {
    if bits > 0 {
      ShrBitLen(n, bits - 1);
    }
  }

  // ---------------------------------------------------------------- truncation

  function LostFractionThroughTruncation(n: nat, bits: nat): LostFraction {
    if n == 0 || bits <= LowestBit(n) then ExactlyZero
    else if bits == LowestBit(n) + 1 then ExactlyHalf
    else if Bit(n, bits - 1) then MoreThanHalf
    else LessThanHalf
  }

  function Combine(moreSignificant: LostFraction, lessSignificant: LostFraction): LostFraction {
    if lessSignificant == ExactlyZero then moreSignificant
    else match moreSignificant
      case ExactlyZero => LessThanHalf
      case ExactlyHalf => MoreThanHalf
      case _ => moreSignificant
  }

  /** The fraction beside `Shr(n, bits)` when `n` itself carried the fraction `f`. */
  function Fraction(n: nat, f: real, bits: nat): real {
    Scale((n as real) + f, 0 - bits) - (Shr(n, bits) as real)
  }

  lemma HalveFraction(n: nat, f: real, bits: nat)
    ensures Fraction(n, f, bits + 1) == ((if Bit(n, bits) then 1.0 else 0.0) + Fraction(n, f, bits)) / 2.0
  {
    var s := Shr(n, bits);
    ScaleStep((n as real) + f, 0 - bits - 1);
    Halves(s, s / 2);
  }

  lemma Halves(s: nat, h: nat)
    requires h == s / 2
    ensures s as real == 2.0 * (h as real) + if s % 2 == 1 then 1.0 else 0.0
  {
    assert s == 2 * h + s % 2;
  }

  /** Truncating a significand that already carries a fraction: the combination of the two
      summaries describes the whole fraction now lost. */
  lemma {:induction false} TruncationMeans(n: nat, lf: LostFraction, f: real, bits: nat)
    requires Means(lf, f)
    ensures bits > 0 ==> Means(Combine(LostFractionThroughTruncation(n, bits), lf), Fraction(n, f, bits))
    ensures bits == 0 ==> Fraction(n, f, bits) == f
    ensures LostFractionThroughTruncation(n, 0) == ExactlyZero
  {
    if bits > 0 {
      TruncationMeans(n, lf, f, bits - 1);
      HalveFraction(n, f, bits - 1);
      TruncationStep(n, bits - 1);
    }
  }

  /** One more bit cut off. */
  lemma TruncationStep(n: nat, bits: nat)
    ensures var before, after := LostFractionThroughTruncation(n, bits), LostFractionThroughTruncation(n, bits + 1);
            after == if Bit(n, bits) then (if before == ExactlyZero then ExactlyHalf else MoreThanHalf)
                     else (if before == ExactlyZero then ExactlyZero else LessThanHalf)
  {
    if n == 0 {
      ShrZero(bits);
    } else {
      LowestBitIs(n, bits);
    }
  }

  lemma {:induction false} ShrZero(bits: nat)
    ensures Shr(0, bits) == 0
  {
    if bits > 0 {
      ShrZero(bits - 1);
    }
  }

  /** The truncated significand, the fraction and the raised exponent denote the same number. */
  lemma TruncationExact(n: nat, f: real, bits: nat, k: int)
    ensures Scale((n as real) + f, k) == Scale((Shr(n, bits) as real) + Fraction(n, f, bits), k + bits)
  {
    ScaleScale((n as real) + f, 0 - bits, k + bits);
  }
}
