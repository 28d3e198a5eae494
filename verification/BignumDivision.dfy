/**
 Shift-and-subtract division of word arrays, and its reconstruction by multiplication.
 */
module BignumDivision {
  import opened Arith
  import opened Powers
  import opened Words
  import opened Bignum
  import opened BignumShift

  lemma ValUpdate(s: seq<Word>, n: nat, w: Word)
    requires n < |s|
    ensures Val(s[n := w]) + s[n] * Weight(n) == Val(s) + w * Weight(n)
  {
    var s' := s[n := w];
    ValSplit(s, n + 1);
    ValSplit(s', n + 1);
    ValPrefix(s, n);
    ValPrefix(s', n);
    assert s'[..n] == s[..n] && s'[n + 1..] == s[n + 1..];
  }

  /** Bit `k` of the quotient is word `k / 64`, bit `k % 64`. */
  lemma BitWeight(k: nat)
    ensures Pow2(k % 64) * Weight(k / 64) == Pow2(k)
  {
    WeightIsPow2(k / 64);
    Pow2Add(k % 64, 64 * (k / 64));
  }

  /** All quotient bits up to and including bit `k` are still clear. */
  ghost predicate ClearFrom(q: seq<Word>, k: nat) {
    && k / 64 < |q|
    && (forall i :: 0 <= i < k / 64 ==> q[i] == 0)
    && Divides(Pow2(k % 64 + 1), q[k / 64])
  }

  ghost predicate Divides(m: nat, x: nat) {
    exists u: nat :: IsMultiple(x, m, u)
  }

  predicate IsMultiple(x: nat, m: nat, u: nat) {
    x == u * m
  }

  /** `q |= bit k` adds `2^k` when the bit is clear. */
  lemma SetClearBit(q: seq<Word>, k: nat)
    requires ClearFrom(q, k)
    ensures var w := BitOr(q[k / 64], Pow2(k % 64));
            && w < BASE
            && Val(q[k / 64 := w]) == Val(q) + Pow2(k)
            && (k > 0 ==> ClearFrom(q[k / 64 := w], k - 1))
    ensures k > 0 ==> ClearFrom(q, k - 1)
  {
    var n, b := k / 64, k % 64;
    var w: Word := OrClearBit(q[n], b);
    ValUpdate(q, n, w);
    BitWeight(k);
    BitAdd(Val(q[n := w]), Val(q), q[n], w, Pow2(b), Weight(n), Pow2(k));
    if k > 0 {
      if b > 0 {
        assert (k - 1) / 64 == n && (k - 1) % 64 + 1 == b;
      } else {
        assert (k - 1) / 64 == n - 1 && (k - 1) % 64 + 1 == 64;
        assert IsMultiple(q[n - 1], Pow2(64), 0);
      }
    }
  }

  lemma BitAdd(v': nat, v: nat, x: nat, y: nat, p: nat, w: nat, pk: nat)
    requires v' + x * w == v + y * w && y == x + p && p * w == pk
    ensures v' == v + pk
  {
    Distribute(w, x, p);
  }

  lemma OrClearBit(x: Word, b: nat) returns (w: Word)
    requires b < 64 && Divides(Pow2(b + 1), x)
    ensures w == BitOr(x, Pow2(b)) == x + Pow2(b)
    ensures Divides(Pow2(b), x) && Divides(Pow2(b), w)
  {
    var u: nat :| IsMultiple(x, Pow2(b + 1), u);
    OrDisjoint(u, b + 1, Pow2(b));
    PowSplit(b + 1);
    RoomForBit(u, Pow2(b + 1), Pow2(64 - (b + 1)), Pow2(b));
    w := x + Pow2(b);
    Assoc(u, 2, Pow2(b));
    Distribute(Pow2(b), 2 * u, 1);
    assert IsMultiple(x, Pow2(b), 2 * u);
    assert IsMultiple(w, Pow2(b), 2 * u + 1);
  }

  lemma RoomForBit(u: nat, m: nat, h: nat, half: nat)
    requires m * h == BASE && u * m < BASE && m == 2 * half && half >= 1
    ensures u * m + half < BASE
  {
    Cancel(u, h, m);
    MulLe(u + 1, h, m);
    Distribute(m, u, 1);
  }

  /** What the loop keeps: dividend = divisor * quotient so far + remainder, with the remainder below
      twice the shifted divisor. */
  predicate Divided(a: nat, r: nat, q: nat, rem: nat, s: nat, k: nat) {
    s == r * Pow2(k) && a == r * q + rem && rem < 2 * s
  }

  lemma SubtractRound(a: nat, r: nat, q: nat, rem: nat, s: nat, k: nat)
    requires Divided(a, r, q, rem, s, k) && rem >= s
    ensures a == r * (q + Pow2(k)) + (rem - s) && rem - s < s
  {
    Distribute(r, q, Pow2(k));
  }

  lemma HalveDivisor(a: nat, r: nat, q: nat, rem: nat, s: nat, k: nat, s': nat, low: nat)
    requires s == r * Pow2(k) && a == r * q + rem && rem < s && k > 0
    requires s == Pow2(1) * s' + low && low < Pow2(1)
    ensures Divided(a, r, q, rem, s', k - 1)
  {
    assert Pow2(1) == 2;
    Assoc(r, 2, Pow2(k - 1));
    assert s == 2 * (r * Pow2(k - 1));
  }

  /** Divides `lhs` by `rhs` in place. A zero divisor is reported and changes nothing; otherwise
      `lhs` becomes the quotient and `remainder` the remainder. `srhs` is scratch. */
  method TcDivide(lhs: array<Word>, rhs: array<Word>, remainder: array<Word>, srhs: array<Word>, parts: nat)
    returns (divByZero: bool)
    requires lhs != remainder && lhs != srhs && remainder != srhs
    requires 0 < parts == lhs.Length == remainder.Length == srhs.Length && parts <= rhs.Length
    modifies lhs, remainder, srhs
    ensures divByZero <==> old(Val(rhs[..parts])) == 0
    ensures divByZero ==> lhs[..] == old(lhs[..]) && remainder[..] == old(remainder[..])
    ensures !divByZero ==>
              && old(Val(lhs[..])) == old(Val(rhs[..parts])) * Val(lhs[..]) + Val(remainder[..])
              && Val(remainder[..]) < old(Val(rhs[..parts]))
  {
    ghost var a, r := Val(lhs[..]), Val(rhs[..parts]);
    var msb := TcMSB(rhs, parts);
    if msb + 1 == 0 {
      return true;
    }
    var shiftCount := parts * WIDTH - (msb + 1);
    PrepareDivisor(srhs, rhs, parts, shiftCount, msb);
    TcAssign(remainder, lhs, parts);
    assert remainder[..parts] == remainder[..] && lhs[..parts] == lhs[..] && srhs[..parts] == srhs[..];
    TcSet(lhs, 0, parts);
    assert lhs[..parts] == lhs[..];
    ValBound(remainder[..]);
    assert IsMultiple(lhs[..][shiftCount / 64], Pow2(shiftCount % 64 + 1), 0);
    DivideLoop(lhs, remainder, srhs, parts, shiftCount, a, r);
    divByZero := false;
  }

  /** The divisor moved up until its top bit is the top bit of the array; nothing is shifted out. */
  method PrepareDivisor(srhs: array<Word>, rhs: array<Word>, parts: nat, shiftCount: nat, msb: nat)
    requires 0 < parts == srhs.Length && parts <= rhs.Length && shiftCount + msb + 1 == parts * WIDTH
    requires Pow2(msb) <= Val(rhs[..parts]) < 2 * Pow2(msb)
    modifies srhs
    ensures Val(srhs[..]) == old(Val(rhs[..parts])) * Pow2(shiftCount)
    ensures Weight(parts) <= 2 * Val(srhs[..])
  {
    ghost var r := Val(rhs[..parts]);
    TcAssign(srhs, rhs, parts);
    var lost := TcShiftLeft(srhs, parts, shiftCount);
    assert srhs[..parts] == srhs[..];
    WeightIsPow2(parts);
    Pow2Add(msb, shiftCount);
    NothingLost(r, Pow2(msb), Pow2(shiftCount), Weight(parts), lost, Val(srhs[..]));
  }

  lemma NothingLost(r: nat, p: nat, sh: nat, w: nat, lost: nat, v: nat)
    requires p <= r < 2 * p && sh >= 1 && 2 * (p * sh) == w && v + w * lost == r * sh
    ensures lost == 0 && v == r * sh && w <= 2 * v
  {
    MulLe(r, 2 * p - 1, sh);
    Distribute(sh, 2 * p, 1);
    Assoc(2, p, sh);
    MulLe(p, r, sh);
    if lost >= 1 {
      MulLe(1, lost, w);
    }
  }

  method DivideLoop(lhs: array<Word>, remainder: array<Word>, srhs: array<Word>, parts: nat, shift0: nat,
                    ghost a: nat, ghost r: nat)
    requires lhs != remainder && lhs != srhs && remainder != srhs
    requires 0 < parts == lhs.Length == remainder.Length == srhs.Length && r > 0
    requires ClearFrom(lhs[..], shift0)
    requires Divided(a, r, Val(lhs[..]), Val(remainder[..]), Val(srhs[..]), shift0)
    modifies lhs, remainder, srhs
    ensures a == r * Val(lhs[..]) + Val(remainder[..]) && Val(remainder[..]) < r
  {
    var shiftCount: nat := shift0;
    var n := shiftCount / WIDTH;
    var mask: Word := Mask(shiftCount);
    while true
      invariant n == shiftCount / 64 && mask == Pow2(shiftCount % 64)
      invariant ClearFrom(lhs[..], shiftCount)
      invariant Divided(a, r, Val(lhs[..]), Val(remainder[..]), Val(srhs[..]), shiftCount)
      decreases shiftCount
    {
      DivideRound(lhs, remainder, srhs, parts, n, mask, shiftCount, a, r);
      if shiftCount == 0 {
        assert Pow2(0) == 1;
        return;
      }
      shiftCount := shiftCount - 1;
      HalveShifted(lhs, remainder, srhs, parts, shiftCount, a, r);
      mask, n := NextMask(mask, n, shiftCount);
    }
  }

  method HalveShifted(lhs: array<Word>, remainder: array<Word>, srhs: array<Word>, parts: nat,
                      ghost k: nat, ghost a: nat, ghost r: nat)
    requires lhs != srhs && remainder != srhs && parts == srhs.Length
    requires a == r * Val(lhs[..]) + Val(remainder[..]) && Val(remainder[..]) < Val(srhs[..]) == r * Pow2(k + 1)
    modifies srhs
    ensures Divided(a, r, Val(lhs[..]), Val(remainder[..]), Val(srhs[..]), k)
  {
    ghost var s := Val(srhs[..]);
    assert srhs[..parts] == srhs[..];
    var low := TcShiftRight(srhs, parts, 1);
    assert srhs[..parts] == srhs[..];
    HalveDivisor(a, r, Val(lhs[..]), Val(remainder[..]), s, k + 1, Val(srhs[..]), low);
  }

  /** One round: subtract the shifted divisor if it fits and record the quotient bit. */
  method DivideRound(lhs: array<Word>, remainder: array<Word>, srhs: array<Word>, parts: nat, n: nat, mask: Word,
                     ghost k: nat, ghost a: nat, ghost r: nat)
    requires lhs != remainder && lhs != srhs && remainder != srhs
    requires 0 < parts == lhs.Length == remainder.Length == srhs.Length
    requires ClearFrom(lhs[..], k) && n == k / 64 && mask == Pow2(k % 64)
    requires Divided(a, r, Val(lhs[..]), Val(remainder[..]), Val(srhs[..]), k)
    modifies lhs, remainder
    ensures k > 0 ==> ClearFrom(lhs[..], k - 1)
    ensures a == r * Val(lhs[..]) + Val(remainder[..]) && Val(remainder[..]) < Val(srhs[..]) == r * Pow2(k)
  {
    ghost var q, rem, s := lhs[..], Val(remainder[..]), Val(srhs[..]);
    SetClearBit(q, k);
    var compare := TcCompare(remainder, srhs, parts);
    assert remainder[..parts] == remainder[..] && srhs[..parts] == srhs[..];
    if compare >= 0 {
      SubtractRound(a, r, Val(q), rem, s, k);
      var borrow := TcSubtract(remainder, srhs, 0, parts);
      assert remainder[..parts] == remainder[..];
      NoBorrow(rem, s, Val(remainder[..]), borrow, remainder[..]);
      lhs[n] := BitOr(lhs[n], mask);
      assert lhs[..] == q[n := lhs[n]];
    }
  }

  lemma NoBorrow(rem: nat, s: nat, d: nat, borrow: nat, words: seq<Word>)
    requires rem >= s && rem - s == d - borrow * Weight(|words|) && d == Val(words)
    ensures d == rem - s
  {
    ValBound(words);
    if borrow >= 1 {
      MulLe(1, borrow, Weight(|words|));
    }
  }

  function Mask(k: nat): (m: Word)
    ensures m == Pow2(k % 64)
  {
    Pow64();
    Pow2Strict(k % 64, 64);
    Pow2(k % 64)
  }

  /** `if ((mask >>= 1) == 0) mask = 1 << 63, n--` follows the bit index down. */
  method NextMask(mask: Word, n: nat, k: nat) returns (mask': Word, n': nat)
    requires n == (k + 1) / 64 && mask == Pow2((k + 1) % 64)
    ensures n' == k / 64 && mask' == Pow2(k % 64)
  {
    mask', n' := mask / 2, n;
    if mask' == 0 {
      assert (k + 1) % 64 == 0;
      mask', n' := Mask(63), n - 1;
    } else {
      assert (k + 1) % 64 > 0;
    }
  }

  /** Dividing, multiplying back and adding the remainder gives the dividend again. */
  method Reconstruct(lhs: array<Word>, rhs: array<Word>, remainder: array<Word>, scratch: array<Word>, product: array<Word>)
    returns (carry: Word)
    requires lhs != remainder && lhs != scratch && remainder != scratch
    requires product != lhs && product != rhs && product != remainder && product != scratch
    requires rhs != lhs && rhs != remainder && rhs != scratch
    requires 0 < lhs.Length == rhs.Length == remainder.Length == scratch.Length && product.Length == 2 * lhs.Length
    requires Val(rhs[..]) != 0
    modifies lhs, remainder, scratch, product
    ensures carry == 0 && Val(product[..lhs.Length]) == old(Val(lhs[..]))
  {
    var parts := lhs.Length;
    ghost var a := Val(lhs[..]);
    ValBound(lhs[..]);
    assert rhs[..parts] == rhs[..];
    var z := TcDivide(lhs, rhs, remainder, scratch, parts);
    assert lhs[..parts] == lhs[..];
    var used := TcFullMultiply(product, lhs, rhs, parts, parts);
    assert product[..parts + parts] == product[..];
    Recombine(Val(lhs[..]), Val(rhs[..]), Val(remainder[..]), Val(product[..]), a);
    ProductFits(product[..], parts, a);
    assert product[..][..parts] == product[..parts];
    assert remainder[..parts] == remainder[..];
    carry := TcAdd(product, remainder, 0, parts);
    NoCarry(product[..parts], carry, a);
  }

  lemma Recombine(q: nat, r: nat, rem: nat, product: nat, a: nat)
    requires a == r * q + rem && product == q * r
    ensures product + rem == a
  {
  }

  lemma ProductFits(product: seq<Word>, parts: nat, a: nat)
    requires parts <= |product| && Val(product) <= a < Weight(parts)
    ensures Val(product[..parts]) == Val(product)
  {
    ValSplit(product, parts);
    FitsLow(Val(product[..parts]), Val(product[parts..]), Weight(parts), Val(product), a);
  }

  lemma NoCarry(words: seq<Word>, carry: nat, a: nat)
    requires Val(words) + carry * Weight(|words|) == a < Weight(|words|)
    ensures carry == 0 && Val(words) == a
  {
    if carry >= 1 {
      MulLe(1, carry, Weight(|words|));
    }
  }

  lemma FitsLow(low: nat, high: nat, w: nat, all: nat, a: nat)
    requires all == low + w * high && all <= a < w
    ensures low == all
  {
    if high >= 1 {
      MulLe(1, high, w);
    }
  }
}
