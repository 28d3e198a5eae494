/**
 Magic numbers for unsigned division by a constant (Henry S. Warren, "Hacker's Delight",
 chapter 10): the search loop on W-bit words, with every word operation modelled as wrapping
 modulo 2^W, and the theorem that the result divides correctly for every dividend.
 */
module Magic {
  import opened Arith
  import opened Powers

  // ---------------------------------------------------------------- why a multiplier divides

  /** The largest W-bit number that leaves remainder `d - 1`. */
  function Nc(M: nat, d: nat): int
    requires d >= 1
  {
    M - 1 - M % d
  }

  lemma NcFacts(M: nat, d: nat)
    requires 1 <= d < M
    ensures Nc(M, d) == d * (M / d) - 1
    ensures d - 1 <= Nc(M, d) < M && M <= Nc(M, d) + d
  {
    DivMod(M, d);
    if M / d <= 0 {
      MulLe(M / d, 0, d);
    }
    MulLe(1, M / d, d);
  }

  /** The error term stays below one unit for every dividend. */
  lemma ErrorSmall(M: nat, d: nat, P: nat, e: nat, n: nat)
    requires 1 <= d < M && n < M && P >= 1 && e < d
    requires Nc(M, d) * e < P
    ensures n * e < P * (d - n % d)
  {
    NcFacts(M, d);
    var nc := Nc(M, d);
    var r := n % d;
    DivMod(n, d);
    if n <= nc {
      MulLe(n, nc, e);
      MulLe(1, d - r, P);
    } else {
      var k := M / d;
      Quotient(n, d, k, n - d * k);
      DivMod(M, d);
      assert n == nc + (1 + r);
      Distribute(e, nc, 1 + r);
      MulLe(1 + r, nc, e);
      MulLe(2, d - r, P);
    }
  }

  /** `mul * d == P + e` with a small enough error `e` divides by `d`. */
  lemma MultiplierDivides(M: nat, d: nat, P: nat, mul: nat, e: nat, n: nat)
    requires 1 <= d < M && n < M && P >= 1 && e < d
    requires mul * d == P + e && Nc(M, d) * e < P
    ensures (n * mul) / P == n / d
  {
    ErrorSmall(M, d, P, e, n);
    DivMod(n, d);
    Sandwich(n, n / d, n % d, d, P, mul, e);
    Quotient(n * mul, P, n / d, n * mul - (n / d) * P);
  }

  lemma Sandwich(n: nat, q: int, r: int, d: nat, P: nat, mul: nat, e: nat)
    requires n == d * q + r && 0 <= r < d && d >= 1 && P >= 1
    requires mul * d == P + e && n * e < P * (d - r)
    ensures q * P <= n * mul < q * P + P
  {
    var x := n * mul;
    calc {
      x * d;
      n * (mul * d);
      n * (P + e);
      n * P + n * e;
    }
    calc {
      n * P;
      (d * q + r) * P;
      (q * P) * d + r * P;
    }
    MulLe(0, r, P);
    MulLe(0, n, e);
    Cancel(q * P, x, d);
    Distribute(P, d, r);
    Distribute(d, q * P, P);
    Cancel(x, q * P + P, d);
  }

  // ---------------------------------------------------------------- the state of the search

  /** True quotient and remainder of `Pow2(p)` by `nc` and of `Pow2(p) - 1` by `d`. */
  predicate Tracks(nc: int, d: int, p: nat, Q1: int, r1: int, Q2: int, r2: int) {
    && Pow2(p) == Q1 * nc + r1 && 0 <= r1 < nc && Q1 >= 0
    && Pow2(p) - 1 == Q2 * d + r2 && 0 <= r2 < d && Q2 >= 0
  }

  lemma TracksDoubles(nc: int, d: int, p: nat, Q1: int, r1: int, Q2: int, r2: int)
    requires Tracks(nc, d, p, Q1, r1, Q2, r2)
    ensures Tracks(nc, d, p + 1,
                   if r1 >= nc - r1 then 2 * Q1 + 1 else 2 * Q1, if r1 >= nc - r1 then 2 * r1 - nc else 2 * r1,
                   if r2 + 1 >= d - r2 then 2 * Q2 + 1 else 2 * Q2, if r2 + 1 >= d - r2 then 2 * r2 + 1 - d else 2 * r2 + 1)
  {
    Assoc(2, Q1, nc);
    Assoc(2, Q2, d);
    Distribute(nc, 2 * Q1, 1);
    Distribute(d, 2 * Q2, 1);
  }

  /** The error of the multiplier `Q2 + 1`. */
  lemma ErrorOf(nc: int, d: int, p: nat, Q1: int, r1: int, Q2: int, r2: int)
    requires Tracks(nc, d, p, Q1, r1, Q2, r2)
    ensures (Q2 + 1) * d == Pow2(p) + (d - 1 - r2)
  {
    Distribute(d, Q2, 1);
  }

  /** The comparison of `q1` and `delta` decides whether the error is small, in both directions. */
  lemma StopExact(nc: int, d: int, p: nat, Q1: int, r1: int, Q2: int, r2: int)
    requires Tracks(nc, d, p, Q1, r1, Q2, r2)
    ensures var delta := d - 1 - r2;
            nc * delta < Pow2(p) <==> !(Q1 < delta || (Q1 == delta && r1 == 0))
  {
    var delta := d - 1 - r2;
    if Q1 < delta {
      MulLe(Q1 + 1, delta, nc);
      Distribute(nc, Q1, 1);
    } else if Q1 > delta {
      MulLe(delta, Q1 - 1, nc);
      Distribute(nc, Q1, 1);
    }
  }

  /** For divisors up to 2^(W-1) the word `q1` does not wrap before the last round. */
  lemma NoWrap(W: nat, d: nat, p: nat, Q1: int, r1: int, Q2: int, r2: int)
    requires W >= 2 && 1 <= d < Pow2(W) && p <= 2 * W - 1
    requires Tracks(Nc(Pow2(W), d), d, p, Q1, r1, Q2, r2)
    requires 2 * d <= Pow2(W)
    ensures Q1 < Pow2(W)
  {
    var M := Pow2(W);
    var nc := Nc(M, d);
    NcFacts(M, d);
    Pow2Monotone(2, W);
    assert 2 * nc > M by {
      if 2 * d == M {
        Quotient(M, d, 2, 0);
      }
    }
    Pow2Monotone(p, 2 * W - 1);
    Pow2Add(W, W - 1);
    assert Pow2(p) <= M * Pow2(W - 1);
    MulLt(Pow2(W - 1), nc, M);
    if Q1 >= M {
      MulLe(M, Q1, nc);
    }
  }

  /** The multiplier has at most W + 1 bits when the search stops. */
  lemma MultiplierBound(W: nat, d: nat, p: nat, Q1: int, r1: int, Q2: int, r2: int)
    requires W >= 2 && 1 <= d < Pow2(W) && p < 2 * W
    requires Tracks(Nc(Pow2(W), d), d, p, Q1, r1, Q2, r2)
    requires 2 * d > Pow2(W) || Pow2(p) <= Nc(Pow2(W), d) * (d - 1 - r2)
    ensures Pow2(p + 1) - 1 < d * (2 * Pow2(W) - 1)
  {
    var M := Pow2(W);
    NcFacts(M, d);
    Pow2Monotone(p + 1, 2 * W);
    Pow2Add(W, W);
    if 2 * d > M {
      LargeDivisor(M, d);
    } else {
      SmallDivisor(M, d, Nc(M, d), d - 1 - r2, Pow2(p));
    }
  }

  lemma LargeDivisor(M: nat, d: nat)
    requires 2 * d > M && d <= M
    ensures M * M - 1 < d * (2 * M - 1)
  {
    calc {
      d * (2 * M - 1);
      (2 * d) * M - d;
    }
    MulLe(M + 1, 2 * d, M);
    Distribute(M, M, 1);
  }

  lemma SmallDivisor(M: nat, d: nat, nc: int, delta: int, P: int)
    requires 1 <= d && 0 <= delta < d && 0 <= nc < M && P <= nc * delta
    ensures 2 * P - 1 < d * (2 * M - 1)
  {
    MulLe(delta, d, nc);
    MulLe(nc, M - 1, d);
    calc {
      d * (2 * M - 1);
      2 * (d * M) - d;
    }
    Distribute(d, M, 1);
  }

  lemma LastRoundSmall(W: nat, d: nat, delta: int)
    requires 1 <= d < Pow2(W) && 0 <= delta < d
    ensures Nc(Pow2(W), d) * delta < Pow2(2 * W)
  {
    NcFacts(Pow2(W), d);
    Pow2Add(W, W);
    BelowSquare(Nc(Pow2(W), d), delta, Pow2(W));
  }

  lemma BelowSquare(a: int, b: int, M: int)
    requires 0 <= a < M && 0 <= b < M
    ensures a * b < M * M
  {
    MulLe(a, M, b);
    MulLt(b, M, M);
  }

  // ---------------------------------------------------------------- wrapping words

  lemma WrapDouble(M: nat, Q: nat, bit: nat)
    requires M >= 1
    ensures (Q % M + Q % M + bit) % M == (2 * Q + bit) % M
  {
    DivMod(Q, M);
    var k, r := Q / M, Q % M;
    DivMod(r + r + bit, M);
    var k', r' := (r + r + bit) / M, (r + r + bit) % M;
    assert 2 * Q + bit == M * (2 * k + k') + r' by {
      Distribute(M, 2 * k, k');
      Assoc(M, 2, k);
    }
    Quotient(2 * Q + bit, M, 2 * k + k', r');
  }

  datatype Magicu = Magicu(m: nat, a: nat, s: nat)

  /** What the result is for: one multiplication, an optional add and a shift divide every word. */
  ghost predicate DividesBy(W: nat, d: nat, g: Magicu)
    requires d >= 1
  {
    forall n: nat :: n < Pow2(W) ==> Evaluate(W, g, n) == n / d
  }

  function Evaluate(W: nat, g: Magicu, n: nat): int {
    (n * (g.m + g.a * Pow2(W))) / Pow2(W + g.s)
  }

  /** The words of the search are the true quotients modulo 2^W, and `a` records whether the
      multiplier `Q2 + 1` needs its bit W. */
  predicate Words(W: nat, d: nat, p: nat, q1: int, r1: int, q2: int, r2: int, a: int, Q1: int, Q2: int)
    requires d >= 1
  {
    && Tracks(Nc(Pow2(W), d), d, p, Q1, r1, Q2, r2)
    && q1 == Q1 % Pow2(W) && q2 == Q2 % Pow2(W)
    && Q2 + 1 < 2 * Pow2(W)
    && a == if Q2 >= Pow2(W) - 1 then 1 else 0
  }

  /** The search stops or goes on for the right reason. */
  predicate Narrow(W: nat, d: nat, p: nat, r2: int)
    requires d >= 1
  {
    2 * d > Pow2(W) || p == W - 1 || Pow2(p) <= Nc(Pow2(W), d) * (d - 1 - r2)
  }

  /** The body of the loop up to its condition. Every assigned word is reduced modulo 2^W. */
  method Round(W: nat, d: nat, nc: nat, p: nat, q1: nat, r1: nat, q2: nat, r2: nat, a: nat, ghost Q1: nat, ghost Q2: nat)
    returns (q1': nat, r1': nat, q2': nat, r2': nat, a': nat, ghost Q1': nat, ghost Q2': nat)
    requires W >= 2 && 1 <= d < Pow2(W) && W - 1 <= p < 2 * W && nc == Nc(Pow2(W), d)
    requires Words(W, d, p, q1, r1, q2, r2, a, Q1, Q2) && Narrow(W, d, p, r2)
    ensures Words(W, d, p + 1, q1', r1', q2', r2', a', Q1', Q2')
  {
    var M, signedMin, signedMax := Pow2(W), Pow2(W - 1), Pow2(W - 1) - 1;
    StillNarrow(W, d, p, Q1, r1, Q2, r2);
    TracksDoubles(nc, d, p, Q1, r1, Q2, r2);
    WrapDouble(M, Q1, if r1 >= nc - r1 then 1 else 0);
    WrapDouble(M, Q2, if r2 + 1 >= d - r2 then 1 else 0);
    Unwrapped(Q2, M);
    a' := a;
    if r1 >= nc - r1 {
      q1', Q1' := (q1 + q1 + 1) % M, 2 * Q1 + 1;
      r1' := r1 + r1 - nc;
    } else {
      q1', Q1' := (q1 + q1) % M, 2 * Q1;
      r1' := r1 + r1;
    }
    if r2 + 1 >= d - r2 {
      if q2 >= signedMax {
        a' := 1;
      }
      q2', Q2' := (q2 + q2 + 1) % M, 2 * Q2 + 1;
      r2' := r2 + r2 + 1 - d;
    } else {
      if q2 >= signedMin {
        a' := 1;
      }
      q2', Q2' := (q2 + q2) % M, 2 * Q2;
      r2' := r2 + r2 + 1;
    }
  }

  /** The search ends at exponent `p`: at twice the width, or when the quotient of `2^p` by `nc`, as
      far as a word holds it, is not below the error of the multiplier `ceil(2^p / d)`. */
  predicate Stops(W: nat, d: nat, p: nat)
    requires 1 <= d < Pow2(W)
  {
    NcFacts(Pow2(W), d);
    var nc := Nc(Pow2(W), d);
    nc >= 1 &&
    var q1, error := (Pow2(p) / nc) % Pow2(W), d - 1 - (Pow2(p) - 1) % d;
    p == 2 * W || !(q1 < error || (q1 == error && Pow2(p) % nc == 0))
  }

  lemma TestIs(W: nat, d: nat, p: nat, Q1: int, r1: int, Q2: int, r2: int)
    requires W >= 2 && 1 <= d < Pow2(W) && Tracks(Nc(Pow2(W), d), d, p, Q1, r1, Q2, r2)
    ensures var q1, error := Q1 % Pow2(W), d - 1 - r2;
            Stops(W, d, p) <==> p == 2 * W || !(q1 < error || (q1 == error && r1 == 0))
    ensures Q2 == (Pow2(p) - 1) / d
  {
    Quotient(Pow2(p), Nc(Pow2(W), d), Q1, r1);
    Quotient(Pow2(p) - 1, d, Q2, r2);
  }

  /** The body of the loop with its condition. */
  method Attempt(W: nat, d: nat, nc: nat, p: nat, q1: nat, r1: nat, q2: nat, r2: nat, a: nat, ghost Q1: nat, ghost Q2: nat)
    returns (q1': nat, r1': nat, q2': nat, r2': nat, a': nat, more: bool, ghost Q1': nat, ghost Q2': nat)
    requires W >= 2 && 1 <= d < Pow2(W) && W - 1 <= p < 2 * W && nc == Nc(Pow2(W), d)
    requires Words(W, d, p, q1, r1, q2, r2, a, Q1, Q2) && Narrow(W, d, p, r2)
    ensures Words(W, d, p + 1, q1', r1', q2', r2', a', Q1', Q2')
    ensures more ==> p + 1 < 2 * W && Narrow(W, d, p + 1, r2')
    ensures !more ==> nc * (d - 1 - r2') < Pow2(p + 1)
    ensures more <==> !Stops(W, d, p + 1)
    ensures Q2' == (Pow2(p + 1) - 1) / d
  {
    q1', r1', q2', r2', a', Q1', Q2' := Round(W, d, nc, p, q1, r1, q2, r2, a, Q1, Q2);
    var delta := d - 1 - r2';
    more := p + 1 < 2 * W && (q1' < delta || (q1' == delta && r1' == 0));
    StopDecision(W, d, p + 1, Q1', r1', Q2', r2', more);
    TestIs(W, d, p + 1, Q1', r1', Q2', r2');
  }

  /** The loop has not been left before exponent `p`. */
  predicate GoesOnTo(W: nat, d: nat, p: nat)
    requires 1 <= d < Pow2(W)
  {
    forall k :: W <= k < p ==> !Stops(W, d, k)
  }

  lemma GoesOnOne(W: nat, d: nat, p: nat)
    requires 1 <= d < Pow2(W) && GoesOnTo(W, d, p) && (p >= W ==> !Stops(W, d, p))
    ensures GoesOnTo(W, d, p + 1)
  {
  }

  /** The search for the magic number of `d`. */
  method Search(W: nat, d: nat) returns (g: Magicu)
    requires W >= 2 && 1 <= d < Pow2(W)
    ensures DividesBy(W, d, g)
    ensures g.m < Pow2(W) && g.a <= 1 && g.s <= W
    ensures g.m + g.a * Pow2(W) == (Pow2(W + g.s) - 1) / d + 1
    ensures Stops(W, d, W + g.s) && GoesOnTo(W, d, W + g.s)
  {
    var M := Pow2(W);
    var signedMin, signedMax := Pow2(W - 1), Pow2(W - 1) - 1;
    var nc := M - 1 - (M - d) % d;
    NegativeRemainder(M, d);
    ghost var Q1, Q2 := StartSearch(W, d);
    var a := 0;
    var p := W - 1;
    var q1, q2 := signedMin / nc, signedMax / d;
    var r1, r2 := signedMin - q1 * nc, signedMax - q2 * d;
    var more := true;
    while more
      invariant W - 1 <= p <= 2 * W && (more ==> p < 2 * W)
      invariant Words(W, d, p, q1, r1, q2, r2, a, Q1, Q2)
      invariant more ==> Narrow(W, d, p, r2)
      invariant !more ==> p >= W && nc * (d - 1 - r2) < Pow2(p) && Q2 == (Pow2(p) - 1) / d
      invariant GoesOnTo(W, d, p) && (p >= W ==> (more <==> !Stops(W, d, p)))
      decreases 2 * W - p, more
    {
      GoesOnOne(W, d, p);
      q1, r1, q2, r2, a, more, Q1, Q2 := Attempt(W, d, nc, p, q1, r1, q2, r2, a, Q1, Q2);
      p := p + 1;
    }
    g := Magicu((q2 + 1) % M, a, p - W);
    AssembleResult(Q2, M, a);
    forall n: nat | n < M ensures Evaluate(W, g, n) == n / d {
      ResultDivides(W, d, p, Q1, r1, Q2, r2, n);
      assert W + g.s == p && g.m + g.a * Pow2(W) == Q2 + 1;
    }
  }

  lemma ResultDivides(W: nat, d: nat, p: nat, Q1: int, r1: int, Q2: int, r2: int, n: nat)
    requires 1 <= d < Pow2(W) && n < Pow2(W)
    requires Tracks(Nc(Pow2(W), d), d, p, Q1, r1, Q2, r2) && Nc(Pow2(W), d) * (d - 1 - r2) < Pow2(p)
    ensures (n * (Q2 + 1)) / Pow2(p) == n / d
  {
    ErrorOf(Nc(Pow2(W), d), d, p, Q1, r1, Q2, r2);
    MultiplierDivides(Pow2(W), d, Pow2(p), Q2 + 1, d - 1 - r2, n);
  }

  lemma NegativeRemainder(M: nat, d: nat)
    requires 1 <= d < M
    ensures (M - d) % d == M % d
  {
    DivMod(M, d);
    Distribute(d, M / d, 1);
    Quotient(M - d, d, M / d - 1, M % d);
  }

  lemma StartSearch(W: nat, d: nat) returns (Q1: nat, Q2: nat)
    requires W >= 2 && 1 <= d < Pow2(W)
    ensures var nc, half := Nc(Pow2(W), d), Pow2(W - 1);
            && nc >= 1
            && Q1 == half / nc && Q2 == (half - 1) / d
            && Tracks(nc, d, W - 1, Q1, half - Q1 * nc, Q2, half - 1 - Q2 * d)
            && Q1 < Pow2(W) && Q2 + 1 < Pow2(W)
            && Q1 % Pow2(W) == Q1 && Q2 % Pow2(W) == Q2
  {
    var M, half := Pow2(W), Pow2(W - 1);
    var nc := Nc(M, d);
    NcFacts(M, d);
    Pow2Monotone(1, W - 1);
    Q1 := Divide(half, nc);
    Q2 := Divide(half - 1, d);
    Unwrapped(Q1, M);
    Unwrapped(Q2, M);
  }

  lemma Divide(x: nat, m: nat) returns (q: nat)
    requires m >= 1
    ensures q == x / m && 0 <= x - q * m < m && q <= x
  {
    DivMod(x, m);
    DivLe(x, m);
    q := x / m;
  }

  lemma Unwrapped(Q: nat, M: nat)
    requires Q < M
    ensures Q % M == Q
  {
    Quotient(Q, M, 0, Q);
  }

  /** Before a round the multiplier still fits, so after it `Q2 + 1 < 2 * 2^W`. */
  lemma QuotientBelow(Q: int, d: int, M: int, P: int)
    requires d >= 1 && M >= 1 && Q * d <= P - 1
    requires P == M || P - 1 < d * (2 * M - 1)
    ensures Q + 1 < 2 * M
  {
    if P == M {
      if Q >= M {
        MulLe(1, d, Q);
      }
    } else {
      Cancel(Q, 2 * M - 1, d);
    }
  }

  lemma DoubledQuotient(nc: int, d: int, p: nat, Q1: int, r1: int, Q2: int, r2: int)
    requires Tracks(nc, d, p, Q1, r1, Q2, r2)
    ensures var bit := if r2 + 1 >= d - r2 then 1 else 0; (2 * Q2 + bit) * d <= Pow2(p + 1) - 1
  {
    TracksDoubles(nc, d, p, Q1, r1, Q2, r2);
  }

  lemma StillNarrow(W: nat, d: nat, p: nat, Q1: int, r1: int, Q2: int, r2: int)
    requires W >= 2 && 1 <= d < Pow2(W) && W - 1 <= p < 2 * W
    requires Tracks(Nc(Pow2(W), d), d, p, Q1, r1, Q2, r2)
    requires 2 * d > Pow2(W) || p == W - 1 || Pow2(p) <= Nc(Pow2(W), d) * (d - 1 - r2)
    ensures var bit := if r2 + 1 >= d - r2 then 1 else 0; 2 * Q2 + bit + 1 < 2 * Pow2(W)
  {
    DoubledQuotient(Nc(Pow2(W), d), d, p, Q1, r1, Q2, r2);
    if p != W - 1 {
      MultiplierBound(W, d, p, Q1, r1, Q2, r2);
    }
    QuotientBelow(2 * Q2 + if r2 + 1 >= d - r2 then 1 else 0, d, Pow2(W), Pow2(p + 1));
  }

  /** What leaving or repeating the loop means for the true quotients. */
  lemma StopDecision(W: nat, d: nat, p: nat, Q1: int, r1: int, Q2: int, r2: int, more: bool)
    requires W >= 2 && 1 <= d < Pow2(W) && W <= p <= 2 * W
    requires Tracks(Nc(Pow2(W), d), d, p, Q1, r1, Q2, r2)
    requires var delta := d - 1 - r2;
             more <==> p < 2 * W && (Q1 % Pow2(W) < delta || (Q1 % Pow2(W) == delta && r1 == 0))
    ensures more ==> 2 * d > Pow2(W) || Pow2(p) <= Nc(Pow2(W), d) * (d - 1 - r2)
    ensures !more ==> Nc(Pow2(W), d) * (d - 1 - r2) < Pow2(p)
  {
    var M := Pow2(W);
    StopExact(Nc(M, d), d, p, Q1, r1, Q2, r2);
    if more {
      if 2 * d <= M {
        NoWrap(W, d, p, Q1, r1, Q2, r2);
        Unwrapped(Q1, M);
      }
    } else if p == 2 * W {
      LastRoundSmall(W, d, d - 1 - r2);
    } else if Q1 < M {
      Unwrapped(Q1, M);
    }
  }

  lemma AssembleResult(Q2: nat, M: nat, a: nat)
    requires M >= 2 && Q2 + 1 < 2 * M && a == if Q2 >= M - 1 then 1 else 0
    ensures (Q2 % M + 1) % M + a * M == Q2 + 1
    ensures (Q2 % M + 1) % M < M
  {
    if Q2 < M {
      Quotient(Q2, M, 0, Q2);
    } else {
      Quotient(Q2, M, 1, Q2 - M);
    }
    if Q2 + 1 < M {
      Quotient(Q2 + 1, M, 0, Q2 + 1);
    } else if Q2 + 1 == M {
      Quotient(M, M, 1, 0);
    } else {
      Quotient(Q2 - M + 1, M, 0, Q2 - M + 1);
    }
  }
}
