/**
 Shifts and bit positions of word arrays.
 */
module BignumShift {
  import opened Arith
  import opened Powers
  import opened Words

  // ---------------------------------------------------------------- words under shifts

  lemma PowSplit(s: nat)
    requires s <= WIDTH
    ensures Pow2(s) * Pow2(WIDTH - s) == BASE
  {
    Pow64();
    Pow2Add(s, WIDTH - s);
  }

  /** `p << s` within a word. */
  function Shl(p: Word, s: nat): (r: Word)
    requires s < WIDTH
    ensures r == (p % Pow2(WIDTH - s)) * Pow2(s)
    ensures r + BASE * (p / Pow2(WIDTH - s)) == p * Pow2(s)
  {
    PowSplit(s);
    var hi, lo := Pow2(WIDTH - s), Pow2(s);
    DivMod(p, hi);
    MulLe(p % hi, hi - 1, lo);
    Distribute(lo, hi, 1);
    Distribute(lo, hi * (p / hi), p % hi);
    Assoc(lo, hi, p / hi);
    Quotient(p * lo, BASE, p / hi, (p % hi) * lo);
    (p * Pow2(s)) % BASE
  }

  /** `p >> s` within a word. */
  function Shr(p: Word, s: nat): Word
    requires s <= WIDTH
  {
    DivLe(p, Pow2(s));
    p / Pow2(s)
  }

  /** Word `i` of a left shift: the low bits of one word joined with the high bits of the one below. */
  function ShlWord(o: seq<Word>, i: nat, jump: nat, s: nat): Word
    requires i < |o| && s < WIDTH
  {
    if i < jump then 0
    else if s == 0 then o[i - jump]
    else JoinUp(o[i - jump], if i >= jump + 1 then o[i - jump - 1] else 0, s)
  }

  /** `(p << s) | (q >> (WIDTH - s))` is a sum. */
  function JoinUp(p: Word, q: Word, s: nat): (r: Word)
    requires 0 < s < WIDTH
    ensures r == Shl(p, s) + Shr(q, WIDTH - s)
  {
    PowSplit(s);
    var lo, hi := Pow2(s), Pow2(WIDTH - s);
    DivLt(q, hi, lo);
    OrDisjoint(p % hi, s, q / hi);
    DivMod(p, hi);
    MulLe(p % hi, hi - 1, lo);
    Distribute(lo, hi, 1);
    BitOr(Shl(p, s), Shr(q, WIDTH - s))
  }

  /** What a left shift by `s` carries out of word `i` (nothing if there is no such word). */
  function Carry(o: seq<Word>, n: nat, s: nat): nat
    requires n <= |o| && s < WIDTH
  {
    if n == 0 then 0 else Shr(o[n - 1], WIDTH - s)
  }

  lemma ShlWordValue(o: seq<Word>, i: nat, jump: nat, s: nat)
    requires jump <= i < |o| && s < WIDTH
    ensures ShlWord(o, i, jump, s) + BASE * Carry(o, i - jump + 1, s) == o[i - jump] * Pow2(s) + Carry(o, i - jump, s)
  {
    Pow64();
    if s > 0 && i == jump {
      assert Shr(0, WIDTH - s) == 0;
    }
  }

  predicate ShlDone(o: seq<Word>, r: seq<Word>, jump: nat, s: nat, n: nat)
    requires s < WIDTH && |r| == |o| && jump <= n <= |o|
  {
    Val(r[..n]) + Carry(o, n - jump, s) * Weight(n) == (Val(o[..n - jump]) * Pow2(s)) * Weight(jump)
  }

  lemma {:induction false} ShlPrefix(o: seq<Word>, r: seq<Word>, jump: nat, s: nat, n: nat)
    requires s < WIDTH && |r| == |o| && jump <= n <= |o|
    requires forall i :: 0 <= i < |o| ==> r[i] == ShlWord(o, i, jump, s)
    ensures ShlDone(o, r, jump, s, n)
  {
    if n == jump {
      ZeroVal(r[..n]);
      assert Val(o[..0]) == 0 && Carry(o, 0, s) == 0;
    } else {
      ShlPrefix(o, r, jump, s, n - 1);
      ShlNext(o, r, jump, s, n);
    }
  }

  lemma ShlNext(o: seq<Word>, r: seq<Word>, jump: nat, s: nat, n: nat)
    requires s < WIDTH && |r| == |o| && jump < n <= |o|
    requires r[n - 1] == ShlWord(o, n - 1, jump, s)
    requires ShlDone(o, r, jump, s, n - 1)
    ensures ShlDone(o, r, jump, s, n)
  {
    var m := n - 1 - jump;
    ShlWordValue(o, n - 1, jump, s);
    ValPrefix(r, n - 1);
    ValPrefix(o, m);
    WeightAdd(jump, m);
    ShlStep(Val(r[..n - 1]), Carry(o, m, s), Weight(n - 1), Val(o[..m]), Pow2(s), Weight(jump), Weight(m),
            r[n - 1], Carry(o, m + 1, s), o[m], Val(o[..m + 1]));
  }

  lemma ShlStep(v: int, c: int, w: int, ov: int, p: int, wj: int, wm: int, rw: int, c': int, ow: int, ov': int)
    requires v + c * w == (ov * p) * wj && w == wj * wm && rw + BASE * c' == ow * p + c && ov' == ov + ow * wm
    ensures (v + rw * w) + c' * (BASE * w) == (ov' * p) * wj
  {
    calc {
      (v + rw * w) + c' * (BASE * w);
      v + (rw + BASE * c') * w;
      v + (ow * p + c) * w;
      (v + c * w) + (ow * p) * w;
      (ov * p) * wj + (ow * p) * (wj * wm);
      ((ov + ow * wm) * p) * wj;
      (ov' * p) * wj;
    }
  }

  /** A left shift multiplies; `lost` is what leaves the top. */
  lemma ShlValue(o: seq<Word>, r: seq<Word>, jump: nat, s: nat) returns (lost: nat)
    requires s < WIDTH && |r| == |o|
    requires forall i :: 0 <= i < |o| ==> r[i] == ShlWord(o, i, jump, s)
    ensures Val(r) + Weight(|o|) * lost == Val(o) * Pow2(64 * jump + s)
  {
    Pow2Add(64 * jump, s);
    WeightIsPow2(jump);
    if jump <= |o| {
      lost := ShlWithin(o, r, jump, s);
    } else {
      lost := ShlBeyond(o, r, jump, s);
    }
  }

  lemma ShlWithin(o: seq<Word>, r: seq<Word>, jump: nat, s: nat) returns (lost: nat)
    requires s < WIDTH && |r| == |o| && jump <= |o|
    requires forall i :: 0 <= i < |o| ==> r[i] == ShlWord(o, i, jump, s)
    ensures Val(r) + Weight(|o|) * lost == Val(o) * (Weight(jump) * Pow2(s))
  {
    var n, m := |o|, |o| - jump;
    ShlPrefix(o, r, jump, s, n);
    assert r[..n] == r;
    ValSplit(o, m);
    WeightAdd(jump, m);
    lost := Carry(o, m, s) + Val(o[m..]) * Pow2(s);
    ShlTotal(Val(r), Carry(o, m, s), Weight(n), Val(o[..m]), Val(o[m..]), Val(o), Pow2(s), Weight(jump), Weight(m), lost);
  }

  lemma ShlBeyond(o: seq<Word>, r: seq<Word>, jump: nat, s: nat) returns (lost: nat)
    requires s < WIDTH && |r| == |o| < jump
    requires forall i :: 0 <= i < |o| ==> r[i] == ShlWord(o, i, jump, s)
    ensures Val(r) + Weight(|o|) * lost == Val(o) * (Weight(jump) * Pow2(s))
  {
    var n := |o|;
    ZeroVal(r);
    WeightAdd(n, jump - n);
    lost := Val(o) * (Weight(jump - n) * Pow2(s));
    ShlAll(Val(o), Weight(n), Weight(jump - n), Weight(jump), Pow2(s), lost);
  }

  lemma ShlTotal(v: int, c: int, w: int, low: int, high: int, all: int, p: int, wj: int, wm: int, lost: int)
    requires v + c * w == (low * p) * wj && w == wj * wm && all == low + wm * high && lost == c + high * p
    ensures v + w * lost == all * (wj * p)
  {
    calc {
      v + w * lost;
      v + w * (c + high * p);
      (v + c * w) + w * (high * p);
      (low * p) * wj + (wj * wm) * (high * p);
      (low + wm * high) * (wj * p);
      all * (wj * p);
    }
  }

  lemma ShlAll(o: int, wn: int, wd: int, wj: int, p: int, lost: int)
    requires wj == wn * wd && lost == o * (wd * p)
    ensures wn * lost == o * (wj * p)
  {
    calc {
      wn * lost;
      wn * (o * (wd * p));
      o * ((wn * wd) * p);
      o * (wj * p);
    }
  }

  // ---------------------------------------------------------------- right shifts

  function ShrWord(o: seq<Word>, i: nat, jump: nat, s: nat): Word
    requires i < |o| && s < WIDTH
  {
    if i + jump >= |o| then 0
    else if s == 0 then o[i + jump]
    else JoinDown(o[i + jump], if i + jump + 1 < |o| then o[i + jump + 1] else 0, s)
  }

  /** `(p >> s) | (q << (WIDTH - s))` is a sum. */
  function JoinDown(p: Word, q: Word, s: nat): (r: Word)
    requires 0 < s < WIDTH
    ensures Pow2(s) * r + p % Pow2(s) == p + BASE * (q % Pow2(s))
  {
    PowSplit(s);
    var lo, hi := Pow2(s), Pow2(WIDTH - s);
    DivLt(p, lo, hi);
    OrDisjoint(q % lo, WIDTH - s, p / lo);
    JoinValue(p, q, lo, hi);
    BitOr(Shr(p, s), Shl(q, WIDTH - s))
  }

  lemma JoinValue(p: nat, q: nat, lo: nat, hi: nat)
    requires lo >= 1 && hi >= 1 && lo * hi == BASE && p / lo < hi
    ensures (q % lo) * hi + p / lo < BASE
    ensures lo * ((q % lo) * hi + p / lo) + p % lo == p + BASE * (q % lo)
  {
    DivMod(p, lo);
    DivMod(q, lo);
    MulLe(q % lo, lo - 1, hi);
    Distribute(hi, lo, 1);
    Distribute(lo, (q % lo) * hi, p / lo);
    Assoc(lo, hi, q % lo);
  }

  /** The low `s` bits of word `n` of the jumped-over sequence. */
  function Low(u: seq<Word>, n: nat, s: nat): nat {
    if n < |u| then u[n] % Pow2(s) else 0
  }

  lemma {:induction false} ShrPrefix(u: seq<Word>, r: seq<Word>, s: nat, n: nat)
    requires s < WIDTH && |r| == |u| && n <= |u|
    requires forall i :: 0 <= i < |u| ==> r[i] == ShrWord(u, i, 0, s)
    ensures Pow2(s) * Val(r[..n]) + Low(u, 0, s) == Val(u[..n]) + Low(u, n, s) * Weight(n)
  {
    if n > 0 {
      ShrPrefix(u, r, s, n - 1);
      ValPrefix(r, n - 1);
      ValPrefix(u, n - 1);
      if s > 0 {
        assert 0 % Pow2(s) == 0;
      }
      assert Pow2(s) * r[n - 1] + Low(u, n - 1, s) == u[n - 1] + BASE * Low(u, n, s);
      ShrStep(Pow2(s), Val(r[..n - 1]), Low(u, 0, s), Val(u[..n - 1]), Low(u, n - 1, s), Weight(n - 1),
              r[n - 1], u[n - 1], Low(u, n, s));
    }
  }

  lemma ShrStep(p: int, v: int, l0: int, uv: int, l: int, w: int, rw: int, uw: int, l': int)
    requires p * v + l0 == uv + l * w && p * rw + l == uw + BASE * l'
    ensures p * (v + rw * w) + l0 == (uv + uw * w) + l' * (BASE * w)
  {
    calc {
      p * (v + rw * w) + l0;
      p * v + l0 + (p * rw) * w;
      uv + l * w + (uw + BASE * l' - l) * w;
      uv + uw * w + l' * (BASE * w);
    }
  }

  /** A right shift divides: `low` is the remainder. */
  lemma ShrValue(o: seq<Word>, r: seq<Word>, jump: nat, s: nat) returns (low: nat)
    requires s < WIDTH && |r| == |o|
    requires forall i :: 0 <= i < |o| ==> r[i] == ShrWord(o, i, jump, s)
    ensures Val(o) == Pow2(64 * jump + s) * Val(r) + low && low < Pow2(64 * jump + s)
  {
    Pow2Add(64 * jump, s);
    WeightIsPow2(jump);
    if jump < |o| {
      low := ShrWithin(o, r, jump, s);
    } else {
      ZeroVal(r);
      ValBound(o);
      WeightIsPow2(|o|);
      Pow2Monotone(64 * |o|, 64 * jump + s);
      low := Val(o);
    }
  }

  lemma ShrWithin(o: seq<Word>, r: seq<Word>, jump: nat, s: nat) returns (low: nat)
    requires s < WIDTH && |r| == |o| && jump < |o|
    requires forall i :: 0 <= i < |o| ==> r[i] == ShrWord(o, i, jump, s)
    ensures Val(o) == (Weight(jump) * Pow2(s)) * Val(r) + low && low < Weight(jump) * Pow2(s)
  {
    var bits := o[jump] % Pow2(s);
    ShrTail(o, r, jump, s);
    HighWordsZero(r, |o| - jump);
    ValSplit(o, jump);
    ValBound(o[..jump]);
    DivMod(o[jump], Pow2(s));
    low := ShrTotal(Val(o), Val(o[..jump]), Weight(jump), Val(o[jump..]), Pow2(s), Val(r[..|o| - jump]), Val(r), bits);
  }

  lemma HighWordsZero(r: seq<Word>, m: nat)
    requires m <= |r| && forall i :: m <= i < |r| ==> r[i] == 0
    ensures Val(r) == Val(r[..m])
  {
    ZeroVal(r[m..]);
    ValSplit(r, m);
  }

  lemma ShrTail(o: seq<Word>, r: seq<Word>, jump: nat, s: nat)
    requires s < WIDTH && |r| == |o| && jump < |o|
    requires forall i :: 0 <= i < |o| ==> r[i] == ShrWord(o, i, jump, s)
    ensures Val(o[jump..]) == Pow2(s) * Val(r[..|o| - jump]) + o[jump] % Pow2(s)
  {
    var m := |o| - jump;
    var u, t := o[jump..], r[..m];
    forall i | 0 <= i < m ensures t[i] == ShrWord(u, i, 0, s) {
      assert r[i] == ShrWord(o, i, jump, s);
    }
    assert t[..m] == t && u[..m] == u;
    ShrPrefix(u, t, s, m);
  }

  lemma ShrTotal(all: nat, l: nat, w: nat, u: nat, p: nat, v': nat, v: nat, bits: nat) returns (low: nat)
    requires all == l + w * u && u == p * v' + bits && v' == v && l < w && bits < p
    ensures all == (w * p) * v + low && low < w * p
  {
    low := l + w * bits;
    calc {
      all;
      l + w * (p * v + bits);
      (w * p) * v + (l + w * bits);
    }
    MulLe(bits, p - 1, w);
    Distribute(w, p, 1);
  }

  // ---------------------------------------------------------------- the in-place shifts

  /** Shifts left by any count. */
  method TcShiftLeft(dst: array<Word>, parts: nat, count: nat) returns (ghost lost: nat)
    requires parts <= dst.Length
    modifies dst
    ensures Val(dst[..parts]) + Weight(parts) * lost == old(Val(dst[..parts])) * Pow2(count)
    ensures dst[parts..] == old(dst[parts..])
  {
    if count == 0 {
      return 0;
    }
    var jump, shift := count / WIDTH, count % WIDTH;
    ghost var o := dst[..parts];
    ghost var above := dst[parts..];
    var p := parts;
    while p > jump
      invariant 0 <= p <= parts
      invariant forall k :: 0 <= k < p ==> dst[k] == o[k]
      invariant forall k :: p <= k < parts ==> dst[k] == ShlWord(o, k, jump, shift)
      invariant dst[parts..] == above
    {
      p := p - 1;
      var part := dst[p - jump];
      if shift != 0 {
        part := JoinUp(part, if p >= jump + 1 then dst[p - jump - 1] else 0, shift);
      }
      dst[p] := part;
    }
    while p > 0
      invariant 0 <= p <= parts && (p <= jump || p == 0)
      invariant forall k :: p <= k < parts ==> dst[k] == ShlWord(o, k, jump, shift)
      invariant dst[parts..] == above
    {
      p := p - 1;
      dst[p] := 0;
    }
    assert count == 64 * jump + shift;
    lost := ShlValue(o, dst[..parts], jump, shift);
  }

  /** Shifts right by any count. */
  method TcShiftRight(dst: array<Word>, parts: nat, count: nat) returns (ghost low: nat)
    requires parts <= dst.Length
    modifies dst
    ensures old(Val(dst[..parts])) == Pow2(count) * Val(dst[..parts]) + low && low < Pow2(count)
    ensures dst[parts..] == old(dst[parts..])
  {
    if count == 0 {
      return 0;
    }
    var jump, shift := count / WIDTH, count % WIDTH;
    ghost var o := dst[..parts];
    ghost var above := dst[parts..];
    var i := 0;
    while i < parts
      invariant 0 <= i <= parts
      invariant forall k :: i <= k < parts ==> dst[k] == o[k]
      invariant forall k :: 0 <= k < i ==> dst[k] == ShrWord(o, k, jump, shift)
      invariant dst[parts..] == above
    {
      var part: Word := 0;
      if i + jump < parts {
        part := dst[i + jump];
        if shift != 0 {
          part := JoinDown(part, if i + jump + 1 < parts then dst[i + jump + 1] else 0, shift);
        }
      }
      dst[i] := part;
      i := i + 1;
    }
    assert count == 64 * jump + shift;
    low := ShrValue(o, dst[..parts], jump, shift);
  }

  // ---------------------------------------------------------------- the most significant bit

  /** Binary search for the top bit of a word; `-1` (all ones) stands for "none". */
  method PartMSB(value: Word) returns (msb: int)
    ensures value == 0 <==> msb == -1
    ensures value != 0 ==> 0 <= msb < WIDTH && Pow2(msb) <= value < 2 * Pow2(msb)
  {
    if value == 0 {
      return -1;
    }
    Pow64();
    var v := value;
    var n: nat := WIDTH / 2;
    msb := 0;
    ghost var r := 0;
    while n > 0
      invariant n in {32, 16, 8, 4, 2, 1, 0}
      invariant 0 <= msb && msb + (if n == 0 then 1 else 2 * n) <= WIDTH
      invariant 1 <= v < Pow2(if n == 0 then 1 else 2 * n)
      invariant Aligned(value, v, msb, r)
      decreases n
    {
      SearchStep(v, n);
      if v / Pow2(n) != 0 {
        r := Refine(value, v, msb, r, n);
        v := v / Pow2(n);
        msb := msb + n;
      }
      n := n / 2;
    }
    assert Pow2(1) == 2;
  }

  /** `v` is `value` shifted right by `msb`. */
  predicate Aligned(value: nat, v: nat, msb: nat, r: nat) {
    value == v * Pow2(msb) + r && r < Pow2(msb)
  }

  lemma SearchStep(v: nat, n: nat)
    requires 1 <= v < Pow2(2 * n)
    ensures v / Pow2(n) != 0 ==> 1 <= v / Pow2(n) < Pow2(n)
    ensures v / Pow2(n) == 0 ==> v < Pow2(n)
  {
    Pow2Add(n, n);
    DivLt(v, Pow2(n), Pow2(n));
    DivMod(v, Pow2(n));
  }

  lemma Refine(value: nat, v: nat, msb: nat, r: nat, n: nat) returns (r': nat)
    requires Aligned(value, v, msb, r)
    ensures Aligned(value, v / Pow2(n), msb + n, r')
  {
    Pow2Add(n, msb);
    r' := RefineValue(value, v, Pow2(msb), r, Pow2(n));
  }

  lemma RefineValue(value: nat, v: nat, p: nat, r: nat, q: nat) returns (r': nat)
    requires value == v * p + r && r < p && q >= 1 && p >= 1
    ensures value == (v / q) * (q * p) + r' && r' < q * p
  {
    DivMod(v, q);
    r' := (v % q) * p + r;
    calc {
      v * p + r;
      (q * (v / q) + v % q) * p + r;
      (v / q) * (q * p) + ((v % q) * p + r);
    }
    MulLe(v % q, q - 1, p);
    Distribute(p, q, 1);
  }

  method TcMSB(parts: array<Word>, n0: nat) returns (msb: int)
    requires 0 < n0 <= parts.Length
    ensures msb == -1 <==> Val(parts[..n0]) == 0
    ensures msb != -1 ==> 0 <= msb < WIDTH * n0 && Pow2(msb) <= Val(parts[..n0]) < 2 * Pow2(msb)
  {
    var n := n0;
    ghost var all := parts[..n0];
    assert all[..n0] == all;
    while n > 0
      invariant 0 <= n <= n0
      invariant Val(all) == Val(all[..n])
    {
      n := n - 1;
      ValPrefix(all, n);
      if parts[n] != 0 {
        var top := PartMSB(parts[n]);
        msb := top + n * WIDTH;
        ValBound(all[..n]);
        WeightIsPow2(n);
        Pow2Add(top, 64 * n);
        TopBit(parts[n], Pow2(top), Weight(n), Val(all[..n]), Val(all));
        return;
      }
    }
    return -1;
  }

  lemma TopBit(word: nat, p: nat, w: nat, low: nat, all: nat)
    requires p <= word < 2 * p && low < w && all == low + word * w && word >= 1
    ensures p * w <= all < 2 * (p * w) && all > 0
  {
    MulLe(p, word, w);
    MulLe(word, 2 * p - 1, w);
    Distribute(w, 2 * p, 1);
    MulLe(1, word, w);
  }
}
