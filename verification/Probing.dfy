/**
 Open addressing with triangular steps: the buckets a search visits, why it visits them all when
 their number is a power of two, and what it means for an item to be where a search finds it.
 */
module Probing {
  import opened Arith
  import opened Powers
  import opened Sets

  datatype Slot<T> = Empty | Tombstone | Full(item: T)

  // ---------------------------------------------------------------- the probe sequence

  function Triangle(k: nat): nat {
    if k == 0 then 0 else Triangle(k - 1) + k
  }

  /** The `k`-th bucket visited from home bucket `h` of `n`. */
  function Probe(h: nat, k: nat, n: nat): (b: nat)
    requires n > 0
    ensures b < n
  {
    (h + Triangle(k)) % n
  }

  ghost predicate PowerOfTwo(n: nat) {
    exists m: nat :: n == Pow2(m)
  }

  lemma PowerDoubles(n: nat)
    requires PowerOfTwo(n)
    ensures PowerOfTwo(n * 2)
  {
    var m: nat :| n == Pow2(m);
    assert n * 2 == Pow2(m + 1);
  }

  lemma ModAdd(x: int, y: int, n: int)
    requires n > 0
    ensures (x % n + y) % n == (x + y) % n
  {
    DivMod(x, n);
    var q := x / n;
    ModShift(x % n + y, q, n);
  }

  lemma ModShift(r: int, q: int, n: int)
    requires n > 0
    ensures (r + q * n) % n == r % n
  {
    DivMod(r, n);
    DivMod(r + q * n, n);
    Distribute(n, r / n, q);
    SameRemainder(r + q * n, (r + q * n) / n, (r + q * n) % n, r / n + q, r % n, n);
  }

  lemma SameRemainder(x: int, q: int, r: int, p: int, s: int, n: int)
    requires n > 0 && x == q * n + r && x == p * n + s && 0 <= r < n && 0 <= s < n
    ensures q == p && r == s
  {
    if q < p {
      MulLe(q + 1, p, n);
      Distribute(n, q, 1);
    } else if p < q {
      MulLe(p + 1, q, n);
      Distribute(n, p, 1);
    }
  }

  /** The step of the probing loop: on from bucket `b` by `amount`. */
  function Advance(b: nat, amount: nat, n: nat): (r: nat)
    requires n > 0
    ensures r < n
  {
    (b + amount) % n
  }

  lemma ProbeStep(h: nat, k: nat, n: nat)
    requires n > 0
    ensures Probe(h, 0, n) == h % n
    ensures Probe(h, k + 1, n) == Advance(Probe(h, k, n), k + 1, n)
  {
    ModAdd(h + Triangle(k), k + 1, n);
  }

  lemma {:induction false} TriangleIs(k: nat)
    ensures 2 * Triangle(k) == k * (k + 1)
  {
    if k > 0 {
      TriangleIs(k - 1);
      assert (k - 1) * k + 2 * k == k * (k + 1);
    }
  }

  /** An odd factor contributes no factor of two. */
  lemma {:induction false} OddFactor(a: int, b: int, e: nat, q: int) returns (r: int)
    requires a % 2 == 1 && a * b == q * Pow2(e)
    ensures b == r * Pow2(e)
    decreases e
  {
    if e == 0 {
      r := b;
    } else {
      var w := Pow2(e - 1);
      Assoc(q, 2, w);
      EvenFactor(a, b, q * w);
      var half := b / 2;
      assert a * half == q * w by { HalfProduct(a, b, half, q * w); }
      var s := OddFactor(a, half, e - 1, q);
      r := s;
      Assoc(s, 2, w);
    }
  }

  lemma HalfProduct(a: int, b: int, half: int, x: int)
    requires b == 2 * half && a * b == 2 * x
    ensures a * half == x
  {
    assert a * (2 * half) == 2 * (a * half);
  }

  lemma EvenFactor(a: int, b: int, x: int)
    requires a % 2 == 1 && a * b == 2 * x
    ensures b % 2 == 0
  {
    if b % 2 == 1 {
      var c, d := a / 2, b / 2;
      assert a == 2 * c + 1 && b == 2 * d + 1;
      OddProduct(c, d, a, b);
    }
  }

  lemma OddProduct(c: int, d: int, a: int, b: int)
    requires a == 2 * c + 1 && b == 2 * d + 1
    ensures (a * b) % 2 == 1
  {
    assert a * b == 2 * (2 * (c * d) + c + d) + 1;
  }

  lemma NoSuchGap(j: nat, k: nat, m: nat, q: int)
    requires j < k < Pow2(m)
    ensures (k - j) * (k + j + 1) != q * Pow2(m + 1)
  {
    var a, b := k - j, k + j + 1;
    if a * b == q * Pow2(m + 1) {
      if a % 2 == 1 {
        var r := OddFactor(a, b, m + 1, q);
        NoSmallMultiple(b, r, Pow2(m + 1));
      } else {
        assert b == a + 2 * j + 1;
        var r := OddFactor(b, a, m + 1, q);
        NoSmallMultiple(a, r, Pow2(m + 1));
      }
    }
  }

  lemma GapOfTriangles(j: nat, k: nat, q: int, n: nat)
    requires Triangle(k) - Triangle(j) == q * n
    ensures (k - j) * (k + j + 1) == q * (2 * n)
  {
    TriangleIs(j);
    TriangleIs(k);
    ProductGap(j, k);
    TwiceProduct(q, n);
  }

  lemma ProductGap(j: int, k: int)
    ensures (k - j) * (k + j + 1) == k * (k + 1) - j * (j + 1)
  {
    assert (k - j) * (k + j + 1) == k * (k + j + 1) - j * (k + j + 1);
    assert k * (k + j + 1) == k * (k + 1) + k * j;
    assert j * (k + j + 1) == j * (j + 1) + k * j;
  }

  lemma TwiceProduct(q: int, n: int)
    ensures q * (2 * n) == 2 * (q * n)
  {
  }

  /** Within one round no bucket is visited twice. */
  lemma ProbesDiffer(h: nat, j: nat, k: nat, m: nat)
    requires j < k < Pow2(m)
    ensures Probe(h, j, Pow2(m)) != Probe(h, k, Pow2(m))
  {
    var n := Pow2(m);
    if Probe(h, j, n) == Probe(h, k, n) {
      var q := MultipleBetween(h + Triangle(j), h + Triangle(k), n);
      GapOfTriangles(j, k, q, n);
      NoSuchGap(j, k, m, q);
    }
  }

  lemma MultipleBetween(x: int, y: int, n: int) returns (q: int)
    requires n > 0 && x % n == y % n
    ensures y - x == q * n
  {
    q := y / n - x / n;
    DivMod(x, n);
    DivMod(y, n);
    Distribute(n, x / n, q);
  }

  lemma NoSmallMultiple(x: int, r: int, n: int)
    requires x == r * n && n > 0
    ensures !(0 < x < n)
  {
    if r >= 1 {
      MulLe(1, r, n);
    } else {
      MulLe(r, 0, n);
    }
  }

  lemma {:induction false} SeenCard(h: nat, k: nat, m: nat) returns (seen: set<nat>)
    requires k <= Pow2(m)
    ensures |seen| == k && seen <= Below(Pow2(m))
    ensures forall b :: b in seen ==> exists j: nat :: j < k && Probe(h, j, Pow2(m)) == b
  {
    if k == 0 {
      seen := {};
    } else {
      var before := SeenCard(h, k - 1, m);
      var b := Probe(h, k - 1, Pow2(m));
      if b in before {
        var j: nat :| j < k - 1 && Probe(h, j, Pow2(m)) == b;
        ProbesDiffer(h, j, k - 1, m);
      }
      seen := before + {b};
    }
  }

  /** One round of probing visits every bucket. */
  lemma ProbesCover(h: nat, n: nat, b: nat) returns (k: nat)
    requires PowerOfTwo(n) && b < n
    ensures k < n && Probe(h, k, n) == b
  {
    var m: nat :| n == Pow2(m);
    var seen := SeenCard(h, n, m);
    FullSubset(seen, Below(n));
    assert b in seen;
    k :| k < n && Probe(h, k, n) == b;
  }

  // ---------------------------------------------------------------- where items are

  predicate PathClear<T>(a: seq<Slot<T>>, h: nat, k: nat)
    requires |a| > 0
  {
    forall j: nat :: j < k ==> !a[Probe(h, j, |a|)].Empty?
  }

  /** A search from `h` comes to bucket `b` before it meets an empty one. */
  ghost predicate Placed<T>(a: seq<Slot<T>>, h: nat, b: nat)
    requires |a| > 0
  {
    exists k: nat :: PathClear(a, h, k) && Probe(h, k, |a|) == b
  }

  lemma PlacedKept<T>(a: seq<Slot<T>>, b: nat, s: Slot<T>, h: nat, c: nat)
    requires b < |a| && !s.Empty? && Placed(a, h, c)
    ensures Placed(a[b := s], h, c)
  {
    var k: nat :| PathClear(a, h, k) && Probe(h, k, |a|) == c;
    assert PathClear(a[b := s], h, k);
  }

  /** A search that meets an empty bucket has passed every bucket where the item could be. */
  lemma NotBeyondEmpty<T>(a: seq<Slot<T>>, h: nat, k: nat, b: nat)
    requires |a| > 0 && a[Probe(h, k, |a|)].Empty? && Placed(a, h, b) && b < |a| && !a[b].Empty?
    ensures exists j: nat :: j < k && Probe(h, j, |a|) == b
  {
    var j: nat :| PathClear(a, h, j) && Probe(h, j, |a|) == b;
  }

  /** As long as some bucket is empty, a search ends within one round. */
  lemma SearchEnds<T>(a: seq<Slot<T>>, h: nat, k: nat)
    requires PowerOfTwo(|a|) && PathClear(a, h, k)
    requires exists b :: 0 <= b < |a| && a[b].Empty?
    ensures k < |a|
  {
    var b :| 0 <= b < |a| && a[b].Empty?;
    var j := ProbesCover(h, |a|, b);
  }

  predicate NoTombstone<T>(a: seq<Slot<T>>, h: nat, k: nat)
    requires |a| > 0
  {
    forall j: nat :: j < k ==> !a[Probe(h, j, |a|)].Tombstone?
  }

  /** `b` is the first tombstone among the first `k` buckets visited, or else the next bucket. */
  ghost predicate FirstFree<T>(a: seq<Slot<T>>, h: nat, k: nat, b: nat)
    requires |a| > 0
  {
    exists j: nat :: NoTombstone(a, h, j) && j <= k && b == Probe(h, j, |a|) && (j < k ==> a[b].Tombstone?)
  }

  // ---------------------------------------------------------------- counting buckets

  datatype Kind = IsEmpty | IsTombstone | IsFull

  function KindOf<T>(s: Slot<T>): Kind {
    match s
    case Empty => IsEmpty
    case Tombstone => IsTombstone
    case Full(_) => IsFull
  }

  function Count<T>(a: seq<Slot<T>>, kind: Kind): nat {
    if a == [] then 0 else Count(a[..|a| - 1], kind) + if KindOf(a[|a| - 1]) == kind then 1 else 0
  }

  lemma {:induction false} CountUpdate<T>(a: seq<Slot<T>>, b: nat, s: Slot<T>, kind: Kind)
    requires b < |a|
    ensures Count(a[b := s], kind) ==
            Count(a, kind) - (if KindOf(a[b]) == kind then 1 else 0) + if KindOf(s) == kind then 1 else 0
  {
    var c := a[b := s];
    if b == |a| - 1 {
      assert c[..|a| - 1] == a[..|a| - 1];
    } else {
      CountUpdate(a[..|a| - 1], b, s, kind);
      assert c[..|a| - 1] == a[..|a| - 1][b := s];
    }
  }

  lemma {:induction false} CountTotal<T>(a: seq<Slot<T>>)
    ensures Count(a, IsEmpty) + Count(a, IsTombstone) + Count(a, IsFull) == |a|
  {
    if a != [] {
      CountTotal(a[..|a| - 1]);
    }
  }

  lemma {:induction false} CountWitness<T>(a: seq<Slot<T>>, kind: Kind) returns (b: nat)
    requires Count(a, kind) > 0
    ensures b < |a| && KindOf(a[b]) == kind
  {
    if KindOf(a[|a| - 1]) == kind {
      b := |a| - 1;
    } else {
      b := CountWitness(a[..|a| - 1], kind);
    }
  }

  /** Room is left exactly while fewer buckets are used than there are. */
  lemma RoomLeft<T>(a: seq<Slot<T>>)
    requires Count(a, IsFull) + Count(a, IsTombstone) < |a|
    ensures exists b :: 0 <= b < |a| && a[b].Empty?
  {
    CountTotal(a);
    var b := CountWitness(a, IsEmpty);
    assert a[b].Empty?;
  }

  lemma {:induction false} CountAllEmpty<T>(a: seq<Slot<T>>)
    requires forall i :: 0 <= i < |a| ==> a[i].Empty?
    ensures Count(a, IsFull) == 0 && Count(a, IsTombstone) == 0
  {
    if a != [] {
      CountAllEmpty(a[..|a| - 1]);
    }
  }
}
