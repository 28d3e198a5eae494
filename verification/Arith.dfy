/**
 Single-step facts about products, called where a proof multiplies unknowns.
 */
module Arith {

  lemma MulLe(a: int, b: int, c: int)
    requires a <= b && c >= 0
    ensures a * c <= b * c && c * a <= c * b
  {
  }

  lemma MulLt(a: int, b: int, c: int)
    requires a < b && c > 0
    ensures a * c < b * c && c * a < c * b
  {
  }

  lemma Distribute(a: int, b: int, c: int)
    ensures a * (b + c) == a * b + a * c && (b + c) * a == a * b + a * c
    ensures a * (b - c) == a * b - a * c && (b - c) * a == a * b - a * c
  {
  }

  lemma Assoc(a: int, b: int, c: int)
    ensures a * (b * c) == (a * b) * c
  {
  }

  lemma DivMod(a: int, m: int)
    requires m >= 1
    ensures a == m * (a / m) + a % m && 0 <= a % m < m
  {
  }

  lemma DivLe(a: int, m: int)
    requires a >= 0 && m >= 1
    ensures 0 <= a / m <= a
  {
    DivMod(a, m);
    if a / m < 0 {
      MulLe(a / m, -1, m);
    }
    MulLe(1, m, if a / m < 0 then 0 else a / m);
  }

  lemma DivLt(a: int, m: int, n: int)
    requires 0 <= a < m * n && m >= 1
    ensures 0 <= a / m < n
  {
    DivMod(a, m);
    DivLe(a, m);
    if a / m >= n {
      MulLe(n, a / m, m);
    }
  }

  /** Quotients and remainders are unique. */
  lemma Quotient(a: int, m: int, q: int, r: int)
    requires m >= 1 && a == m * q + r && 0 <= r < m
    ensures q == a / m && r == a % m
  {
    DivMod(a, m);
    var d := q - a / m;
    Distribute(m, q, a / m);
    if d >= 1 { MulLe(1, d, m); }
    if d <= -1 { MulLe(d, -1, m); }
  }

  /** If a product with a positive factor is smaller, so is the other factor. */
  lemma Cancel(a: int, b: int, c: int)
    requires c > 0
    ensures a * c < b * c <==> a < b
    ensures a * c <= b * c <==> a <= b
  {
    if a < b { MulLt(a, b, c); } else { MulLe(b, a, c); }
    if a <= b { MulLe(a, b, c); } else { MulLt(b, a, c); }
  }
}
