/**
 Directed multigraphs, their walks and the numbers of walks: what a shortest path is and how
 shortest paths through a node are counted. Nothing here refers to an algorithm.
 */
module PathCounts {
  import opened Reals
  import opened Sums

  datatype Edge = Edge(src: nat, dst: nat)
  datatype Graph = Graph(nodes: nat, edges: seq<Edge>)

  predicate ValidGraph(g: Graph) {
    forall i :: 0 <= i < |g.edges| ==> g.edges[i].src < g.nodes && g.edges[i].dst < g.nodes
  }

  // ---------------------------------------------------------------- walks

  predicate InRange(g: Graph, p: seq<nat>) {
    forall j :: 0 <= j < |p| ==> p[j] < |g.edges|
  }

  /** The node reached from `s` after the first `j` edges of `p`. */
  function NodeAt(g: Graph, s: nat, p: seq<nat>, j: nat): nat
    requires j <= |p| && InRange(g, p)
  {
    if j == 0 then s else g.edges[p[j - 1]].dst
  }

  /** `p` lists the edges of a walk from `s` to `v`. */
  predicate IsWalk(g: Graph, s: nat, p: seq<nat>, v: nat) {
    && InRange(g, p)
    && (forall j :: 0 <= j < |p| ==> g.edges[p[j]].src == NodeAt(g, s, p, j))
    && NodeAt(g, s, p, |p|) == v
  }

  /** All walks of `k` edges from `s` to `v`. */
  ghost function Walks(g: Graph, s: nat, k: nat, v: nat): set<seq<nat>> {
    if k == 0 then if v == s then {[]} else {}
    else set i: nat, p | i < |g.edges| && g.edges[i].dst == v && p in Walks(g, s, k - 1, g.edges[i].src) :: p + [i]
  }

  lemma {:induction false} WalksAre(g: Graph, s: nat, k: nat, v: nat, p: seq<nat>)
    ensures p in Walks(g, s, k, v) <==> IsWalk(g, s, p, v) && |p| == k
  {
    if k > 0 {
      if p in Walks(g, s, k, v) {
        var i: nat, q :| i < |g.edges| && g.edges[i].dst == v && q in Walks(g, s, k - 1, g.edges[i].src) && p == q + [i];
        WalksAre(g, s, k - 1, g.edges[i].src, q);
        WalkSnoc(g, s, q, i);
      }
      if IsWalk(g, s, p, v) && |p| == k {
        var q, i := p[..k - 1], p[k - 1];
        assert p == q + [i];
        WalkInit(g, s, p, v);
        WalksAre(g, s, k - 1, g.edges[i].src, q);
      }
    } else {
      assert |p| == 0 ==> p == [];
    }
  }

  lemma WalkSnoc(g: Graph, s: nat, q: seq<nat>, i: nat)
    requires i < |g.edges| && IsWalk(g, s, q, g.edges[i].src)
    ensures IsWalk(g, s, q + [i], g.edges[i].dst)
  {
    var p := q + [i];
    forall j | 0 <= j < |p| ensures g.edges[p[j]].src == NodeAt(g, s, p, j) {
      if j < |q| {
        assert p[j] == q[j] && NodeAt(g, s, p, j) == NodeAt(g, s, q, j);
      }
    }
  }

  lemma WalkInit(g: Graph, s: nat, p: seq<nat>, v: nat)
    requires IsWalk(g, s, p, v) && |p| > 0
    ensures var q, i := p[..|p| - 1], p[|p| - 1]; g.edges[i].dst == v && IsWalk(g, s, q, g.edges[i].src)
  {
    var q := p[..|p| - 1];
    forall j | 0 <= j <= |q| ensures NodeAt(g, s, q, j) == NodeAt(g, s, p, j) {
    }
  }

  // ---------------------------------------------------------------- numbers of walks

  /** The number of walks of `k` edges from `s` to `v`, by the last edge. */
  ghost function W(g: Graph, s: nat, k: nat, v: nat): real {
    if k == 0 then if v == s then 1.0 else 0.0
    else Sum(|g.edges|, (i: nat) => if i < |g.edges| && g.edges[i].dst == v then W(g, s, k - 1, g.edges[i].src) else 0.0)
  }

  lemma {:induction false} AppendCard(S: set<seq<nat>>, i: nat)
    ensures |set p | p in S :: p + [i]| == |S|
  {
    if S != {} {
      var q :| q in S;
      AppendCard(S - {q}, i);
      var image, rest := set p | p in S :: p + [i], set p | p in S - {q} :: p + [i];
      assert q + [i] !in rest by {
        forall p | p in S - {q} ensures p + [i] != q + [i] {
          assert (p + [i])[..|p|] == p && (q + [i])[..|q|] == q;
        }
      }
      assert image == rest + {q + [i]};
    }
  }

  /** Prolonging, by each edge into `v`, the walks that `F` assigns to the edge's source. */
  ghost function Prolong(g: Graph, v: nat, F: nat -> set<seq<nat>>, n: nat): set<seq<nat>>
    requires n <= |g.edges|
  {
    set i: nat, p | i < n && g.edges[i].dst == v && p in F(g.edges[i].src) :: p + [i]
  }

  lemma ProlongNext(g: Graph, v: nat, F: nat -> set<seq<nat>>, n: nat)
    requires n < |g.edges|
    ensures |Prolong(g, v, F, n + 1)| == |Prolong(g, v, F, n)| + if g.edges[n].dst == v then |F(g.edges[n].src)| else 0
  {
    var before, all := Prolong(g, v, F, n), Prolong(g, v, F, n + 1);
    if g.edges[n].dst == v {
      var more := set p | p in F(g.edges[n].src) :: p + [n];
      AppendCard(F(g.edges[n].src), n);
      assert all == before + more;
      forall x | x in before ensures x !in more {
        assert x[|x| - 1] < n;
      }
      assert |before + more| == |before| + |more|;
    } else {
      assert all == before;
    }
  }

  lemma {:induction false} ProlongCard(g: Graph, v: nat, F: nat -> set<seq<nat>>, n: nat, c: nat -> real)
    requires n <= |g.edges|
    requires forall i: nat :: i < n ==> c(i) == if g.edges[i].dst == v then |F(g.edges[i].src)| as real else 0.0
    ensures |Prolong(g, v, F, n)| as real == Sum(n, c)
  {
    if n > 0 {
      ProlongCard(g, v, F, n - 1, c);
      ProlongNext(g, v, F, n - 1);
    } else {
      assert Prolong(g, v, F, 0) == {};
    }
  }

  /** `W` counts the walks. */
  lemma {:induction false} WalksCounted(g: Graph, s: nat, k: nat, v: nat)
    ensures |Walks(g, s, k, v)| as real == W(g, s, k, v)
  {
    if k > 0 {
      var F := (u: nat) => Walks(g, s, k - 1, u);
      var c := (i: nat) => if i < |g.edges| && g.edges[i].dst == v then W(g, s, k - 1, g.edges[i].src) else 0.0;
      forall i: nat | i < |g.edges| ensures c(i) == if g.edges[i].dst == v then |F(g.edges[i].src)| as real else 0.0 {
        WalksCounted(g, s, k - 1, g.edges[i].src);
      }
      ProlongCard(g, v, F, |g.edges|, c);
      assert Walks(g, s, k, v) == Prolong(g, v, F, |g.edges|);
      SumEq(|g.edges|, c, (i: nat) => if i < |g.edges| && g.edges[i].dst == v then W(g, s, k - 1, g.edges[i].src) else 0.0);
    }
  }

  lemma WalkCounts(g: Graph, s: nat, k: nat, v: nat, p: seq<nat>)
    requires IsWalk(g, s, p, v) && |p| == k
    ensures W(g, s, k, v) > 0.0
  {
    WalksAre(g, s, k, v, p);
    WalksCounted(g, s, k, v);
  }

  lemma CountNonNegative(g: Graph, s: nat, k: nat, v: nat)
    ensures W(g, s, k, v) >= 0.0
  {
    WalksCounted(g, s, k, v);
  }

  // ---------------------------------------------------------------- walks through a node

  /** The walks of `a + b` edges from `s` to `t` that are at `v` after `a` edges. */
  ghost function Through(g: Graph, s: nat, a: nat, v: nat, b: nat, t: nat): set<seq<nat>> {
    if b == 0 then if t == v then Walks(g, s, a, v) else {}
    else set i: nat, p | i < |g.edges| && g.edges[i].dst == t && p in Through(g, s, a, v, b - 1, g.edges[i].src) :: p + [i]
  }

  /** `p` is a walk from `s` to `t` that is at `v` after `a` edges. */
  predicate IsWalkVia(g: Graph, s: nat, p: seq<nat>, a: nat, v: nat, t: nat) {
    IsWalk(g, s, p, t) && a <= |p| && NodeAt(g, s, p, a) == v
  }

  lemma ViaSnoc(g: Graph, s: nat, q: seq<nat>, a: nat, v: nat, i: nat)
    requires i < |g.edges| && IsWalkVia(g, s, q, a, v, g.edges[i].src)
    ensures IsWalkVia(g, s, q + [i], a, v, g.edges[i].dst)
  {
    WalkSnoc(g, s, q, i);
    assert NodeAt(g, s, q + [i], a) == NodeAt(g, s, q, a);
  }

  lemma ViaInit(g: Graph, s: nat, p: seq<nat>, a: nat, v: nat, t: nat)
    requires IsWalkVia(g, s, p, a, v, t) && a < |p|
    ensures var q, i := p[..|p| - 1], p[|p| - 1];
            i < |g.edges| && g.edges[i].dst == t && IsWalkVia(g, s, q, a, v, g.edges[i].src)
  {
    WalkInit(g, s, p, t);
    assert NodeAt(g, s, p[..|p| - 1], a) == NodeAt(g, s, p, a);
  }

  lemma {:induction false} ThroughSound(g: Graph, s: nat, a: nat, v: nat, b: nat, t: nat, p: seq<nat>)
    requires p in Through(g, s, a, v, b, t)
    ensures IsWalkVia(g, s, p, a, v, t) && |p| == a + b
  {
    if b == 0 {
      WalksAre(g, s, a, v, p);
    } else {
      var i: nat, q :| i < |g.edges| && g.edges[i].dst == t && q in Through(g, s, a, v, b - 1, g.edges[i].src) && p == q + [i];
      ThroughSound(g, s, a, v, b - 1, g.edges[i].src, q);
      ViaSnoc(g, s, q, a, v, i);
    }
  }

  lemma {:induction false} ThroughComplete(g: Graph, s: nat, a: nat, v: nat, b: nat, t: nat, p: seq<nat>)
    requires IsWalkVia(g, s, p, a, v, t) && |p| == a + b
    ensures p in Through(g, s, a, v, b, t)
  {
    if b == 0 {
      WalksAre(g, s, a, v, p);
    } else {
      ViaInit(g, s, p, a, v, t);
      ThroughComplete(g, s, a, v, b - 1, g.edges[p[|p| - 1]].src, p[..|p| - 1]);
      ThroughLast(g, s, a, v, b, t, p);
    }
  }

  lemma ThroughLast(g: Graph, s: nat, a: nat, v: nat, b: nat, t: nat, p: seq<nat>)
    requires b > 0 && |p| > 0 && p[|p| - 1] < |g.edges| && g.edges[p[|p| - 1]].dst == t
    requires p[..|p| - 1] in Through(g, s, a, v, b - 1, g.edges[p[|p| - 1]].src)
    ensures p in Through(g, s, a, v, b, t)
  {
    assert p == p[..|p| - 1] + [p[|p| - 1]];
  }

  /** A walk through `v` is a walk to `v` and a walk from `v`, chosen independently. */
  lemma {:induction false} ThroughCounted(g: Graph, s: nat, a: nat, v: nat, b: nat, t: nat)
    ensures |Through(g, s, a, v, b, t)| as real == Times(W(g, s, a, v), W(g, v, b, t))
  {
    var x := W(g, s, a, v);
    if b == 0 {
      WalksCounted(g, s, a, v);
    } else {
      var w := Into(g, v, b, t);
      var c := (i: nat) => Times(x, w(i));
      forall i: nat | i < |g.edges| && g.edges[i].dst == t
        ensures |Through(g, s, a, v, b - 1, g.edges[i].src)| as real == Times(x, W(g, v, b - 1, g.edges[i].src))
      {
        ThroughCounted(g, s, a, v, b - 1, g.edges[i].src);
      }
      ThroughSum(g, s, a, v, b, t, x, w, c);
      SumScale(|g.edges|, x, w, c);
    }
  }

  /** The terms of which `W(g, s, k, v)` is the sum. */
  ghost function Into(g: Graph, s: nat, k: nat, v: nat): nat -> real
    requires k > 0
    ensures W(g, s, k, v) == Sum(|g.edges|, Into(g, s, k, v))
  {
    SumEq(|g.edges|,
          (i: nat) => if i < |g.edges| && g.edges[i].dst == v then W(g, s, k - 1, g.edges[i].src) else 0.0,
          (i: nat) => if i < |g.edges| && g.edges[i].dst == v then W(g, s, k - 1, g.edges[i].src) else 0.0);
    (i: nat) => if i < |g.edges| && g.edges[i].dst == v then W(g, s, k - 1, g.edges[i].src) else 0.0
  }

  lemma ThroughSum(g: Graph, s: nat, a: nat, v: nat, b: nat, t: nat, x: real, w: nat -> real, c: nat -> real)
    requires b > 0 && w == Into(g, v, b, t)
    requires forall i: nat :: c(i) == Times(x, w(i))
    requires forall i: nat | i < |g.edges| && g.edges[i].dst == t ::
               |Through(g, s, a, v, b - 1, g.edges[i].src)| as real == Times(x, W(g, v, b - 1, g.edges[i].src))
    ensures |Through(g, s, a, v, b, t)| as real == Sum(|g.edges|, c)
  {
    var F := (u: nat) => Through(g, s, a, v, b - 1, u);
    forall i: nat | i < |g.edges| ensures c(i) == if g.edges[i].dst == t then |F(g.edges[i].src)| as real else 0.0 {
      assert c(i) == Times(x, w(i));
    }
    ProlongCard(g, t, F, |g.edges|, c);
    assert Through(g, s, a, v, b, t) == Prolong(g, t, F, |g.edges|);
  }

  /** Walks may be joined. */
  lemma Join(g: Graph, s: nat, a: nat, v: nat, b: nat, t: nat)
    requires W(g, s, a, v) > 0.0 && W(g, v, b, t) > 0.0
    ensures W(g, s, a + b, t) > 0.0
  {
    ThroughCounted(g, s, a, v, b, t);
    Positive(W(g, s, a, v), W(g, v, b, t));
    var p :| p in Through(g, s, a, v, b, t);
    ThroughSound(g, s, a, v, b, t, p);
    WalkCounts(g, s, a + b, t, p);
  }

  lemma Positive(a: real, b: real)
    requires a > 0.0 && b > 0.0
    ensures Times(a, b) > 0.0
  {
  }
}
