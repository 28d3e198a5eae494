/**
 The value of a little-endian word sequence, and how word-level operations act on it.
 */
module Words {
  import opened Arith
  import opened Powers

  const WIDTH: nat := 64
  const BASE: nat := 0x1_0000_0000_0000_0000
  const HALF: nat := 0x1_0000_0000

  type Word = x: int | 0 <= x < 0x1_0000_0000_0000_0000

  /** `BASE` to the `n`. */
  function Weight(n: nat): (r: nat)
    ensures r >= 1
  {
    if n == 0 then 1 else BASE * Weight(n - 1)
  }

  function Val(s: seq<Word>): nat {
    if s == [] then 0 else Val(s[..|s| - 1]) + s[|s| - 1] * Weight(|s| - 1)
  }

  lemma ValSnoc(s: seq<Word>, w: Word)
    ensures Val(s + [w]) == Val(s) + w * Weight(|s|)
  {
    assert (s + [w])[..|s|] == s;
  }

  lemma ValPrefix(s: seq<Word>, n: nat)
    requires n < |s|
    ensures Val(s[..n + 1]) == Val(s[..n]) + s[n] * Weight(n)
  {
    assert s[..n + 1] == s[..n] + [s[n]];
    ValSnoc(s[..n], s[n]);
  }

  lemma {:induction false} ValBound(s: seq<Word>)
    ensures Val(s) < Weight(|s|)
  {
    if s != [] {
      ValBound(s[..|s| - 1]);
      MulLe(s[|s| - 1], BASE - 1, Weight(|s| - 1));
    }
  }

  lemma {:induction false} WeightAdd(a: nat, b: nat)
    ensures Weight(a + b) == Weight(a) * Weight(b)
  {
    if a > 0 {
      WeightAdd(a - 1, b);
      assert Weight(a + b) == BASE * Weight(a - 1 + b);
      assert BASE * (Weight(a - 1) * Weight(b)) == (BASE * Weight(a - 1)) * Weight(b);
    }
  }

  lemma Pow64()
    ensures Pow2(64) == BASE && Pow2(32) == HALF
  {
    assert Pow2(8) == 256;
    Pow2Add(8, 8);
    Pow2Add(16, 16);
    Pow2Add(32, 32);
  }

  lemma {:induction false} WeightIsPow2(n: nat)
    ensures Weight(n) == Pow2(64 * n)
  {
    if n > 0 {
      WeightIsPow2(n - 1);
      Pow64();
      Pow2Add(64, 64 * (n - 1));
    }
  }

  /** A sequence splits into its low and its high words. */
  lemma {:induction false} ValConcat(a: seq<Word>, b: seq<Word>)
    ensures Val(a + b) == Val(a) + Weight(|a|) * Val(b)
  {
    if b == [] {
      assert a + b == a;
    } else {
      var b', w := b[..|b| - 1], b[|b| - 1];
      ValConcat(a, b');
      assert a + b == (a + b') + [w];
      assert b == b' + [w];
      ValSnoc(a + b', w);
      ValSnoc(b', w);
      WeightAdd(|a|, |b'|);
      Distribute(Weight(|a|), Val(b'), w * Weight(|b'|));
      Assoc(w, Weight(|a|), Weight(|b'|));
      Assoc(Weight(|a|), w, Weight(|b'|));
    }
  }

  lemma ValJoin(s: seq<Word>, a: seq<Word>, b: seq<Word>, n: nat)
    requires s == a + b && n == |a|
    ensures Val(s) == Val(a) + Weight(n) * Val(b)
  {
    ValConcat(a, b);
  }

  lemma ValSplit(s: seq<Word>, n: nat)
    requires n <= |s|
    ensures Val(s) == Val(s[..n]) + Weight(n) * Val(s[n..])
  {
    ValJoin(s, s[..n], s[n..], n);
  }

  lemma {:induction false} ZeroVal(s: seq<Word>)
    ensures Val(s) == 0 <==> forall i :: 0 <= i < |s| ==> s[i] == 0
  {
    if s != [] {
      var s', w := s[..|s| - 1], s[|s| - 1];
      ZeroVal(s');
      assert forall i :: 0 <= i < |s'| ==> s'[i] == s[i];
      if w != 0 {
        MulLe(1, w, Weight(|s'|));
      }
    }
  }

  // ---------------------------------------------------------------- bitwise or

  function BitOr(a: nat, b: nat): nat
    decreases a + b
  {
    if a == 0 && b == 0 then 0
    else (if a % 2 == 1 || b % 2 == 1 then 1 else 0) + 2 * BitOr(a / 2, b / 2)
  }

  lemma {:induction false} OrZero(b: nat)
    ensures BitOr(0, b) == b && BitOr(b, 0) == b
  {
    if b > 0 { OrZero(b / 2); }
  }

  /** Bits above and below position `k` do not interfere. */
  lemma {:induction false} OrDisjoint(a: nat, k: nat, b: nat)
    requires b < Pow2(k)
    ensures BitOr(a * Pow2(k), b) == a * Pow2(k) + b
    ensures BitOr(b, a * Pow2(k)) == a * Pow2(k) + b
  {
    if k == 0 {
      OrZero(a);
    } else if a == 0 {
      OrZero(b);
    } else {
      var x := a * Pow2(k - 1);
      assert a * Pow2(k) == 2 * x by { assert a * (2 * Pow2(k - 1)) == 2 * (a * Pow2(k - 1)); }
      assert (2 * x) / 2 == x && (2 * x) % 2 == 0;
      OrDisjoint(a, k - 1, b / 2);
    }
  }
}
