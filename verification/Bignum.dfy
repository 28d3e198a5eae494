/**
 The word-array arithmetic behind arbitrary-precision integers: in-place carry loops, half-word
 multiplication and shift-and-subtract division, each proved against natural-number arithmetic
 on the values the arrays stand for.
 */
module Bignum {
  import opened Arith
  import opened Words

  /** Unsigned word addition and subtraction wrap. */
  function WAdd(a: Word, b: Word): Word {
    if a + b >= BASE then a + b - BASE else a + b
  }

  function WSub(a: Word, b: Word): Word {
    if a < b then a - b + BASE else a - b
  }

  // ---------------------------------------------------------------- set, assign, zero test, compare

  method TcSet(dst: array<Word>, part: Word, parts: nat)
    requires 0 < parts <= dst.Length
    modifies dst
    ensures Val(dst[..parts]) == part
    ensures dst[parts..] == old(dst[parts..])
    ensures dst[0] == part && forall i :: 1 <= i < parts ==> dst[i] == 0
  {
    dst[0] := part;
    var i := 1;
    while i < parts
      invariant 1 <= i <= parts && dst[0] == part
      invariant forall k :: 1 <= k < i ==> dst[k] == 0
      invariant dst[parts..] == old(dst[parts..])
    {
      dst[i] := 0;
      i := i + 1;
    }
    ZeroVal(dst[1..parts]);
    ValSplit(dst[..parts], 1);
    assert dst[..parts][..1] == [part] && dst[..parts][1..] == dst[1..parts];
    ValSnoc([], part);
  }

  method TcAssign(dst: array<Word>, src: array<Word>, parts: nat)
    requires parts <= dst.Length && parts <= src.Length
    modifies dst
    ensures dst[..parts] == old(src[..parts])
    ensures dst[parts..] == old(dst[parts..])
  {
    var i := 0;
    while i < parts
      invariant 0 <= i <= parts
      invariant dst[..i] == old(src[..i])
      invariant src[i..parts] == old(src[i..parts])
      invariant dst[parts..] == old(dst[parts..])
    {
      assert src[i] == src[i..parts][0] && src[i] == old(src[i]);
      dst[i] := src[i];
      assert dst[..i + 1] == old(src[..i]) + [old(src[i])];
      assert dst != src ==> src[i + 1..parts] == old(src[i + 1..parts]);
      i := i + 1;
    }
  }

  method TcIsZero(src: array<Word>, parts: nat) returns (r: bool)
    requires parts <= src.Length
    ensures r <==> Val(src[..parts]) == 0
  {
    ZeroVal(src[..parts]);
    var i := 0;
    while i < parts
      invariant 0 <= i <= parts
      invariant forall k :: 0 <= k < i ==> src[k] == 0
    {
      if src[i] != 0 {
        assert src[..parts][i] != 0;
        return false;
      }
      i := i + 1;
    }
    return true;
  }

  /** Most significant words decide. */
  method TcCompare(lhs: array<Word>, rhs: array<Word>, parts: nat) returns (r: int)
    requires parts <= lhs.Length && parts <= rhs.Length
    ensures r == 0 <==> Val(lhs[..parts]) == Val(rhs[..parts])
    ensures r == 1 <==> Val(lhs[..parts]) > Val(rhs[..parts])
    ensures r == -1 <==> Val(lhs[..parts]) < Val(rhs[..parts])
  {
    var n := parts;
    while n > 0
      invariant 0 <= n <= parts
      invariant Val(lhs[..parts]) - Val(rhs[..parts]) == Val(lhs[..n]) - Val(rhs[..n])
    {
      n := n - 1;
      ValPrefix(lhs[..], n);
      ValPrefix(rhs[..], n);
      assert lhs[..][..n] == lhs[..n] && lhs[..][..n + 1] == lhs[..n + 1];
      assert rhs[..][..n] == rhs[..n] && rhs[..][..n + 1] == rhs[..n + 1];
      if lhs[n] != rhs[n] {
        ValBound(lhs[..n]);
        ValBound(rhs[..n]);
        TopWordDecides(lhs[n], rhs[n], Val(lhs[..n]), Val(rhs[..n]), Weight(n));
        return if lhs[n] > rhs[n] then 1 else -1;
      }
    }
    return 0;
  }

  lemma TopWordDecides(a: int, b: int, x: int, y: int, w: int)
    requires 0 <= x < w && 0 <= y < w
    ensures a > b ==> a * w + x > b * w + y
    ensures a < b ==> a * w + x < b * w + y
  {
    if a > b { MulLe(b + 1, a, w); Distribute(w, b, 1); }
    if a < b { MulLe(a + 1, b, w); Distribute(w, a, 1); }
  }

  // ---------------------------------------------------------------- addition and subtraction

  lemma AddStep(v: int, w: int, v': int, l: int, r: int, c: int, sum: int, c': int, weight: int)
    requires l + r + c == sum + BASE * c'
    requires v + w == v' + c * weight
    ensures (v + l * weight) + (w + r * weight) == (v' + sum * weight) + c' * (BASE * weight)
  {
    calc {
      (v + l * weight) + (w + r * weight);
      v' + (l + r + c) * weight;
      v' + (sum + BASE * c') * weight;
      v' + sum * weight + c' * (BASE * weight);
    }
  }

  lemma AddPrefix(d: seq<Word>, r: seq<Word>, done: seq<Word>, c0: int, c: int, sum: Word, c': int)
    requires |done| < |d| && |done| < |r|
    requires Val(d[..|done|]) + Val(r[..|done|]) + c0 == Val(done) + c * Weight(|done|)
    requires (d[|done|] as int) + r[|done|] + c == sum + BASE * c'
    ensures Val(d[..|done| + 1]) + Val(r[..|done| + 1]) + c0 == Val(done + [sum]) + c' * Weight(|done| + 1)
  {
    var n := |done|;
    var w := Weight(n);
    ValPrefix(d, n);
    ValPrefix(r, n);
    ValSnoc(done, sum);
    var l: int, m: int := d[n], r[n];
    AddStep(Val(d[..n]), Val(r[..n]) + c0, Val(done), l, m, c, sum, c', w);
  }

  /** One word of the addition, with the carry noticed by comparison. */
  method AddWord(l: Word, r: Word, c: Word) returns (sum: Word, carry: Word)
    requires c <= 1
    ensures carry <= 1 && (l as int) + r + c == sum + BASE * carry
  {
    if c != 0 {
      sum := WAdd(l, WAdd(r, 1));
      carry := if sum <= l then 1 else 0;
    } else {
      sum := WAdd(l, r);
      carry := if sum < l then 1 else 0;
    }
  }

  /** `dst += rhs + c`, returning the carry. */
  method TcAdd(dst: array<Word>, rhs: array<Word>, c0: Word, parts: nat) returns (c: Word)
    requires parts <= dst.Length && parts <= rhs.Length && c0 <= 1
    modifies dst
    ensures c <= 1
    ensures old(Val(dst[..parts])) + old(Val(rhs[..parts])) + c0 == Val(dst[..parts]) + c * Weight(parts)
    ensures dst[parts..] == old(dst[parts..])
  {
    c := c0;
    var i := 0;
    ghost var d, r := dst[..], rhs[..];
    while i < parts
      invariant 0 <= i <= parts && c <= 1
      invariant forall k :: i <= k < dst.Length ==> dst[k] == d[k]
      invariant forall k :: i <= k < rhs.Length ==> rhs[k] == r[k]
      invariant Val(d[..i]) + Val(r[..i]) + c0 == Val(dst[..i]) + c * Weight(i)
    {
      ghost var done := dst[..i];
      var sum, carry := AddWord(dst[i], rhs[i], c);
      AddPrefix(d, r, done, c0, c, sum, carry);
      dst[i], c := sum, carry;
      assert dst[..i + 1] == done + [sum];
      i := i + 1;
    }
    assert d[..parts] == old(dst[..parts]) && r[..parts] == old(rhs[..parts]);
  }

  lemma SubStep(v: int, w: int, v': int, l: int, r: int, c: int, diff: int, c': int, weight: int)
    requires l - r - c == diff - BASE * c'
    requires v - w == v' - c * weight
    ensures (v + l * weight) - (w + r * weight) == (v' + diff * weight) - c' * (BASE * weight)
  {
    calc {
      (v + l * weight) - (w + r * weight);
      v' + (l - r - c) * weight;
      v' + (diff - BASE * c') * weight;
      v' + diff * weight - c' * (BASE * weight);
    }
  }

  lemma SubPrefix(d: seq<Word>, r: seq<Word>, done: seq<Word>, c0: int, c: int, diff: Word, c': int)
    requires |done| < |d| && |done| < |r|
    requires Val(d[..|done|]) - Val(r[..|done|]) - c0 == Val(done) - c * Weight(|done|)
    requires (d[|done|] as int) - r[|done|] - c == diff - BASE * c'
    ensures Val(d[..|done| + 1]) - Val(r[..|done| + 1]) - c0 == Val(done + [diff]) - c' * Weight(|done| + 1)
  {
    var n := |done|;
    var w := Weight(n);
    ValPrefix(d, n);
    ValPrefix(r, n);
    ValSnoc(done, diff);
    var l: int, m: int := d[n], r[n];
    SubStep(Val(d[..n]), Val(r[..n]) + c0, Val(done), l, m, c, diff, c', w);
  }

  method SubtractWord(l: Word, r: Word, c: Word) returns (diff: Word, borrow: Word)
    requires c <= 1
    ensures borrow <= 1 && (l as int) - r - c == diff - BASE * borrow
  {
    if c != 0 {
      diff := WSub(l, WAdd(r, 1));
      borrow := if diff >= l then 1 else 0;
    } else {
      diff := WSub(l, r);
      borrow := if diff > l then 1 else 0;
    }
  }

  /** `dst -= rhs + c`, returning the borrow. */
  method TcSubtract(dst: array<Word>, rhs: array<Word>, c0: Word, parts: nat) returns (c: Word)
    requires parts <= dst.Length && parts <= rhs.Length && c0 <= 1
    modifies dst
    ensures c <= 1
    ensures old(Val(dst[..parts])) - old(Val(rhs[..parts])) - c0 == Val(dst[..parts]) - c * Weight(parts)
    ensures dst[parts..] == old(dst[parts..])
  {
    c := c0;
    var i := 0;
    ghost var d, r := dst[..], rhs[..];
    while i < parts
      invariant 0 <= i <= parts && c <= 1
      invariant forall k :: i <= k < dst.Length ==> dst[k] == d[k]
      invariant forall k :: i <= k < rhs.Length ==> rhs[k] == r[k]
      invariant Val(d[..i]) - Val(r[..i]) - c0 == Val(dst[..i]) - c * Weight(i)
    {
      ghost var done := dst[..i];
      var diff, borrow := SubtractWord(dst[i], rhs[i], c);
      SubPrefix(d, r, done, c0, c, diff, borrow);
      dst[i], c := diff, borrow;
      assert dst[..i + 1] == done + [diff];
      i := i + 1;
    }
    assert d[..parts] == old(dst[..parts]) && r[..parts] == old(rhs[..parts]);
  }

  // ---------------------------------------------------------------- multiplication

  /** The half-word products of two words add up to their product. */
  lemma HalfProducts(al: int, ah: int, bl: int, bh: int)
    ensures (al + HALF * ah) * (bl + HALF * bh) == al * bl + HALF * (al * bh + ah * bl) + BASE * (ah * bh)
  {
    calc {
      (al + HALF * ah) * (bl + HALF * bh);
      al * bl + al * (HALF * bh) + (HALF * ah) * bl + (HALF * ah) * (HALF * bh);
      al * bl + HALF * (al * bh) + HALF * (ah * bl) + BASE * (ah * bh);
    }
  }

  lemma HalfBound(a: int, b: int)
    requires 0 <= a < HALF && 0 <= b < HALF
    ensures 0 <= a * b <= (HALF - 1) * (HALF - 1)
  {
    MulLe(a, HALF - 1, b);
    MulLe(b, HALF - 1, HALF - 1);
  }

  lemma WordProductBound(a: int, b: int)
    requires 0 <= a < BASE && 0 <= b < BASE
    ensures 0 <= a * b <= (BASE - 1) * (BASE - 1)
  {
    MulLe(a, BASE - 1, b);
    MulLe(b, BASE - 1, BASE - 1);
  }

  /** Adding `mid` half a word up, with the carry noticed by comparison. */
  method AddMiddle(low: Word, high: Word, mid: Word) returns (low': Word, high': Word)
    requires high + mid / HALF + 1 < BASE
    ensures low' + BASE * high' == low + BASE * high + HALF * mid
  {
    high' := high + mid / HALF;
    var m := (mid * HALF) % BASE;
    assert mid * HALF == BASE * (mid / HALF) + HALF * (mid % HALF);
    assert m == HALF * (mid % HALF);
    if WAdd(low, m) < low {
      high' := high' + 1;
    }
    low' := WAdd(low, m);
  }

  /** `src * multiplier + carry` as two words, from half-word products. */
  method MultiplyWord(srcPart: Word, multiplier: Word, carry: Word) returns (low: Word, high: Word)
    ensures low + BASE * high == srcPart * multiplier + carry
    ensures high <= BASE - 2 || srcPart * multiplier + carry > (BASE - 1) * (BASE - 1)
  {
    if multiplier == 0 || srcPart == 0 {
      return carry, 0;
    }
    var al, ah, bl, bh := srcPart % HALF, srcPart / HALF, multiplier % HALF, multiplier / HALF;
    HalfBound(al, bl);
    HalfBound(ah, bh);
    HalfBound(al, bh);
    HalfBound(ah, bl);
    HalfProducts(al, ah, bl, bh);
    WordProductBound(srcPart, multiplier);
    low, high := al * bl, ah * bh;
    low, high := AddMiddle(low, high, al * bh);
    low, high := AddMiddle(low, high, ah * bl);
    assert low + BASE * high == srcPart * multiplier;
    if WAdd(low, carry) < low {
      high := high + 1;
    }
    low := WAdd(low, carry);
  }

  /** One iteration: `dst[i] + src[i] * multiplier + carry` never overflows two words. */
  method MultiplyAddWord(srcPart: Word, multiplier: Word, carry: Word, d: Word, add: bool)
    returns (low: Word, high: Word)
    ensures low + BASE * high == (if add then d else 0) + srcPart * multiplier + carry
  {
    low, high := MultiplyWord(srcPart, multiplier, carry);
    WordProductBound(srcPart, multiplier);
    if add {
      var sum := WAdd(low, d);
      if sum < low {
        high := high + 1;
      }
      low := sum;
    }
  }

  lemma MultiplyStep(v: int, base: int, s: int, m: int, c0: int, d: int, sw: int, c: int, low: int, high: int, weight: int)
    requires v + c * weight == base + s * m + c0
    requires low + BASE * high == d + sw * m + c
    ensures (v + low * weight) + high * (BASE * weight) == (base + d * weight) + (s + sw * weight) * m + c0
  {
    calc {
      (v + low * weight) + high * (BASE * weight);
      v + (low + BASE * high) * weight;
      v + (d + sw * m + c) * weight;
      (v + c * weight) + d * weight + (sw * m) * weight;
      base + s * m + c0 + d * weight + (sw * weight) * m;
      (base + d * weight) + (s + sw * weight) * m + c0;
    }
  }

  /** What the first `|done|` result words and the carry add up to. */
  predicate Multiplied(was: seq<Word>, s: seq<Word>, m: Word, c0: int, add: bool, done: seq<Word>, c: int) {
    && |done| <= |was| && |done| <= |s|
    && Val(done) + c * Weight(|done|) ==
       (if add then Val(was[..|done|]) else 0) + Val(s[..|done|]) * m + c0
  }

  lemma MultiplyPrefix(was: seq<Word>, s: seq<Word>, m: Word, c0: int, add: bool, done: seq<Word>, c: int,
                       low: Word, high: Word)
    requires Multiplied(was, s, m, c0, add, done, c) && |done| < |was| && |done| < |s|
    requires low + BASE * high == (if add then was[|done|] else 0) + s[|done|] * m + c
    ensures Multiplied(was, s, m, c0, add, done + [low], high)
  {
    var n := |done|;
    var w := Weight(n);
    ValPrefix(was, n);
    ValPrefix(s, n);
    ValSnoc(done, low);
    var d: int := if add then was[n] else 0;
    var base := if add then Val(was[..n]) else 0;
    var sw: int, sv := s[n], Val(s[..n]);
    MultiplyStep(Val(done), base, sv, m, c0, d, sw, c, low, high, w);
  }

  /** `r` is the sum of `was`, if it is to be added, the product of `s` and `m`, and the carry, less
      `lost` units beyond its words. */
  predicate Truncated(was: seq<Word>, s: seq<Word>, m: Word, c0: Word, add: bool, r: seq<Word>, lost: nat) {
    Val(r) + Weight(|r|) * lost == (if add then Val(was) else 0) + Val(s) * m + c0
  }

  /** `dst[d0..] = (add ? dst[d0..] : 0) + src[s0..] * multiplier + carry`, truncated to `dstParts`
      words. The two may overlap as long as no word of the source is written before it is read.
      `lost` is the part that was cut off; the result tells whether it is non-zero, and nothing is
      ever cut off if the destination has one more word than the source. */
  method TcMultiplyPart(dst: array<Word>, d0: nat, src: array<Word>, s0: nat, multiplier: Word, carry0: Word,
                        srcParts: nat, dstParts: nat, add: bool) returns (overflow: int, ghost lost: nat)
    requires s0 + srcParts <= src.Length && d0 + dstParts <= dst.Length && dstParts <= srcParts + 1
    requires dst != src || d0 <= s0 || d0 >= s0 + srcParts
    modifies dst
    ensures forall k :: 0 <= k < d0 || d0 + dstParts <= k < dst.Length ==> dst[k] == old(dst[k])
    ensures Truncated(old(dst[d0..d0 + if dstParts < srcParts then dstParts else srcParts]), old(src[s0..s0 + srcParts]),
                      multiplier, carry0, add, dst[d0..d0 + dstParts], lost)
    ensures overflow == if lost == 0 then 0 else 1
    ensures dstParts == srcParts + 1 ==> lost == 0
  {
    var n := if dstParts < srcParts then dstParts else srcParts;
    ghost var was, s := dst[d0..d0 + n], src[s0..s0 + srcParts];
    assert src[s0..s0 + n] == s[..n];
    var carry := MultiplyLoop(dst, d0, src, s0, multiplier, carry0, n, add);
    if n < dstParts {
      assert s[..n] == s;
      StoreCarry(dst, d0, n, carry, was, s, multiplier, carry0, add);
      overflow, lost := 0, 0;
    } else {
      assert src[s0 + n..s0 + srcParts] == s[n..];
      overflow, lost := CheckLost(src, s0 + n, s0 + srcParts, multiplier, carry, was, s, carry0, add, dst[d0..d0 + n]);
    }
  }

  /** The carry becomes the last word of a destination that is one word longer. */
  method StoreCarry(dst: array<Word>, d0: nat, n: nat, carry: Word, ghost was: seq<Word>, ghost s: seq<Word>,
                    ghost m: Word, ghost c0: Word, ghost add: bool)
    requires d0 + n < dst.Length && Multiplied(was, s, m, c0, add, dst[d0..d0 + n], carry) && |was| == |s| == n
    modifies dst
    ensures forall k :: 0 <= k < dst.Length && k != d0 + n ==> dst[k] == old(dst[k])
    ensures Truncated(was, s, m, c0, add, dst[d0..d0 + n + 1], 0)
  {
    ghost var done := dst[d0..d0 + n];
    dst[d0 + n] := carry;
    assert dst[d0..d0 + n + 1] == done + [carry];
    FullFit(was, s, m, c0, add, done, carry);
  }

  /** Whether the carry, or a word of the source that was left out, made a difference. */
  method CheckLost(src: array<Word>, from: nat, to: nat, multiplier: Word, carry: Word, ghost was: seq<Word>,
                   ghost s: seq<Word>, ghost c0: Word, ghost add: bool, ghost done: seq<Word>)
    returns (overflow: int, ghost lost: nat)
    requires from <= to <= src.Length && |done| == |was| <= |s| && src[from..to] == s[|done|..]
    requires Multiplied(was, s[..|done|], multiplier, c0, add, done, carry)
    ensures Truncated(was, s, multiplier, c0, add, done, lost)
    ensures overflow == if lost == 0 then 0 else 1
  {
    var rest := AnyLeft(src, from, to, multiplier, carry);
    lost := CutOff(was, s, multiplier, c0, add, done, carry);
    overflow := if rest then 1 else 0;
  }

  lemma FullFit(was: seq<Word>, s: seq<Word>, m: Word, c0: Word, add: bool, done: seq<Word>, c: Word)
    requires Multiplied(was, s, m, c0, add, done, c) && |done| == |was| == |s|
    ensures Truncated(was, s, m, c0, add, done + [c], 0)
  {
    ValSnoc(done, c);
    assert was[..|was|] == was && s[..|s|] == s;
  }

  lemma CutOff(was: seq<Word>, s: seq<Word>, m: Word, c0: Word, add: bool, done: seq<Word>, c: Word) returns (lost: nat)
    requires |done| == |was| <= |s| && Multiplied(was, s[..|done|], m, c0, add, done, c)
    ensures Truncated(was, s, m, c0, add, done, lost)
    ensures lost == 0 <==> c == 0 && (m == 0 || Val(s[|done|..]) == 0)
  {
    var n := |done|;
    ValSplit(s, n);
    assert was[..n] == was && s[..n][..n] == s[..n];
    lost := CutOffValue(Val(done), c, if add then Val(was) else 0, Val(s[..n]), Val(s[n..]), Val(s), Weight(n), m, c0);
  }

  lemma CutOffValue(v: nat, c: nat, base: nat, low: nat, high: nat, all: nat, w: nat, m: nat, c0: nat) returns (lost: nat)
    requires v + c * w == base + low * m + c0 && all == low + w * high
    ensures v + w * lost == base + all * m + c0
    ensures lost == 0 <==> c == 0 && (m == 0 || high == 0)
  {
    lost := c + high * m;
    calc {
      v + w * lost;
      v + w * (c + high * m);
      v + c * w + (w * high) * m;
      base + low * m + c0 + (w * high) * m;
      base + (low + w * high) * m + c0;
      base + all * m + c0;
    }
    if m != 0 && high != 0 {
      MulLe(1, high, m);
    }
  }

  /** The multiplying loop over the first `n` words. */
  method MultiplyLoop(dst: array<Word>, d0: nat, src: array<Word>, s0: nat, multiplier: Word, carry0: Word, n: nat, add: bool)
    returns (carry: Word)
    requires s0 + n <= src.Length && d0 + n <= dst.Length
    requires dst != src || d0 <= s0 || d0 >= s0 + n
    modifies dst
    ensures forall k :: 0 <= k < d0 || d0 + n <= k < dst.Length ==> dst[k] == old(dst[k])
    ensures Multiplied(old(dst[d0..d0 + n]), old(src[s0..s0 + n]), multiplier, carry0, add, dst[d0..d0 + n], carry)
  {
    carry := carry0;
    var i := 0;
    ghost var was, s := dst[d0..d0 + n], src[s0..s0 + n];
    while i < n
      invariant 0 <= i <= n
      invariant forall k :: 0 <= k < d0 || d0 + i <= k < dst.Length ==> dst[k] == old(dst[k])
      invariant forall k :: s0 + i <= k < s0 + n ==> src[k] == old(src[k])
      invariant Multiplied(was, s, multiplier, carry0, add, dst[d0..d0 + i], carry)
    {
      ghost var done := dst[d0..d0 + i];
      assert src[s0 + i] == s[i] && dst[d0 + i] == was[i];
      var low, high := MultiplyAddWord(src[s0 + i], multiplier, carry, dst[d0 + i], add);
      MultiplyPrefix(was, s, multiplier, carry0, add, done, carry, low, high);
      dst[d0 + i] := low;
      carry := high;
      assert dst[d0..d0 + i + 1] == done + [low];
      i := i + 1;
    }
  }

  /** Whether the words that did not fit were significant. */
  method AnyLeft(src: array<Word>, n: nat, srcParts: nat, multiplier: Word, carry: Word) returns (rest: bool)
    requires n <= srcParts <= src.Length
    ensures carry != 0 ==> rest
    ensures carry == 0 && multiplier == 0 ==> !rest
    ensures carry == 0 && multiplier != 0 ==> (rest <==> Val(src[n..srcParts]) != 0)
  {
    if carry != 0 {
      return true;
    }
    if multiplier != 0 {
      ZeroVal(src[n..srcParts]);
      var i := n;
      while i < srcParts
        invariant n <= i <= srcParts
        invariant forall k :: n <= k < i ==> src[k] == 0
      {
        if src[i] != 0 {
          assert src[n..srcParts][i - n] != 0;
          return true;
        }
        i := i + 1;
      }
    }
    return false;
  }

  /** `dst = lhs * rhs` exactly, for all lengths; the result counts the words in use. */
  method TcFullMultiply(dst: array<Word>, lhs: array<Word>, rhs: array<Word>, lhsParts: nat, rhsParts: nat)
    returns (used: nat)
    requires dst != lhs && dst != rhs && 0 < lhsParts <= lhs.Length && 0 < rhsParts <= rhs.Length
    requires lhsParts + rhsParts <= dst.Length
    modifies dst
    ensures Val(dst[..lhsParts + rhsParts]) == Val(lhs[..lhsParts]) * Val(rhs[..rhsParts])
    ensures used == if dst[lhsParts + rhsParts - 1] == 0 then lhsParts + rhsParts - 1 else lhsParts + rhsParts
    ensures Val(dst[..used]) == Val(lhs[..lhsParts]) * Val(rhs[..rhsParts])
    decreases lhsParts > rhsParts
  {
    if lhsParts > rhsParts {
      used := TcFullMultiply(dst, rhs, lhs, rhsParts, lhsParts);
    } else {
      TcSet(dst, 0, rhsParts);
      var n := 0;
      assert Val(lhs[..0]) == 0;
      while n < lhsParts
        invariant 0 <= n <= lhsParts
        invariant Val(dst[..rhsParts + n]) == Val(lhs[..n]) * Val(rhs[..rhsParts])
      {
        AddRow(dst, n, lhs, rhs, rhsParts);
        n := n + 1;
      }
      used := WordsUsed(dst, lhsParts + rhsParts);
    }
  }

  /** The words in use, not counting a zero on top. */
  method WordsUsed(dst: array<Word>, m: nat) returns (used: nat)
    requires 0 < m <= dst.Length
    ensures used == (if dst[m - 1] == 0 then m - 1 else m) && Val(dst[..used]) == Val(dst[..m])
  {
    used := if dst[m - 1] == 0 then m - 1 else m;
    ValPrefix(dst[..], m - 1);
    assert dst[..][..m - 1] == dst[..m - 1] && dst[..][..m] == dst[..m];
  }

  /** One row of the schoolbook product. */
  method AddRow(dst: array<Word>, n: nat, lhs: array<Word>, rhs: array<Word>, rhsParts: nat)
    requires dst != lhs && dst != rhs && n < lhs.Length && rhsParts <= rhs.Length && n + rhsParts < dst.Length
    requires Val(dst[..rhsParts + n]) == Val(lhs[..n]) * Val(rhs[..rhsParts])
    modifies dst
    ensures Val(dst[..rhsParts + n + 1]) == Val(lhs[..n + 1]) * Val(rhs[..rhsParts])
  {
    ghost var low, mid := dst[..n], dst[n..n + rhsParts];
    ghost var l, r := lhs[..n + 1], rhs[..rhsParts];
    assert dst[..rhsParts + n] == low + mid && l[..n] == lhs[..n];
    var o, lost := TcMultiplyPart(dst, n, rhs, 0, lhs[n], 0, rhsParts, rhsParts + 1, true);
    ghost var mid' := dst[n..n + rhsParts + 1];
    assert dst[..n] == low;
    assert dst[..rhsParts + n + 1] == low + mid';
    RowSum(low, mid, mid', l, r);
  }

  lemma RowSum(low: seq<Word>, mid: seq<Word>, mid': seq<Word>, l: seq<Word>, r: seq<Word>)
    requires |l| == |low| + 1 && |mid| == |r|
    requires Val(low + mid) == Val(l[..|low|]) * Val(r)
    requires Val(mid') == Val(mid) + Val(r) * l[|low|]
    ensures Val(low + mid') == Val(l) * Val(r)
  {
    var n := |low|;
    ValConcat(low, mid);
    ValConcat(low, mid');
    ValPrefix(l, n);
    assert l[..n + 1] == l;
    AccumulateProduct(Val(low), Weight(n), Val(mid), Val(r), l[n], Val(l[..n]), Val(mid'), Val(l));
  }

  lemma AccumulateProduct(low: int, w: int, mid: int, r: int, l: int, done: int, mid': int, all: int)
    requires low + w * mid == done * r && mid' == mid + r * l && all == done + l * w
    ensures low + w * mid' == all * r
  {
    calc {
      low + w * mid';
      low + w * (mid + r * l);
      (low + w * mid) + w * (r * l);
      done * r + (l * w) * r;
      (done + l * w) * r;
      all * r;
    }
  }
}
