/**
 Shortest paths and betweenness: levels of a breadth-first order, the share of the shortest paths
 that visit a node, and the recurrence by which those shares can be accumulated backwards.
 */
module ShortestPaths {
  import opened Reals
  import opened Sums
  import opened Sets
  import opened PathCounts

  // ---------------------------------------------------------------- the first edge of a walk

  /** The terms of `W(g, v, k, t)` by the first edge. */
  ghost function OutOf(g: Graph, v: nat, k: nat, t: nat): nat -> real
    requires k > 0
  {
    (i: nat) => if i < |g.edges| && g.edges[i].src == v then W(g, g.edges[i].dst, k - 1, t) else 0.0
  }

  /** The walks of `k` edges from `v` to `t` that begin with edge `i` and end with edge `j`. */
  ghost function Between(g: Graph, v: nat, k: nat, t: nat, i: nat, j: nat): real
    requires k > 1
  {
    if i < |g.edges| && j < |g.edges| && g.edges[i].src == v && g.edges[j].dst == t
    then W(g, g.edges[i].dst, k - 2, g.edges[j].src) else 0.0
  }

  /** Counting by the first edge gives the same number as counting by the last. */
  lemma {:induction false} FirstEdge(g: Graph, v: nat, k: nat, t: nat)
    requires k > 0
    ensures W(g, v, k, t) == Sum(|g.edges|, OutOf(g, v, k, t))
    decreases k, 1
  {
    var E := |g.edges|;
    if k == 1 {
      SumEq(E, Into(g, v, 1, t), OutOf(g, v, 1, t));
    } else {
      var f := (i: nat, j: nat) => Between(g, v, k, t, i, j);
      var cols := (j: nat) => Sum(E, (i: nat) => f(i, j));
      var rows := (i: nat) => Sum(E, (j: nat) => f(i, j));
      forall j: nat | j < E ensures Into(g, v, k, t)(j) == cols(j) {
        Column(g, v, k, t, j);
        SumEq(E, (i: nat) => Between(g, v, k, t, i, j), (i: nat) => f(i, j));
      }
      forall i: nat | i < E ensures OutOf(g, v, k, t)(i) == rows(i) {
        Row(g, v, k, t, i);
        SumEq(E, (j: nat) => Between(g, v, k, t, i, j), (j: nat) => f(i, j));
      }
      SumEq(E, Into(g, v, k, t), cols);
      SumEq(E, OutOf(g, v, k, t), rows);
      SumSwap(E, E, f);
      SumEq(E, rows, (i: nat) => Sum(E, (j: nat) => f(i, j)));
      SumEq(E, cols, (j: nat) => Sum(E, (i: nat) => f(i, j)));
    }
  }

  lemma Column(g: Graph, v: nat, k: nat, t: nat, j: nat)
    requires k > 1 && j < |g.edges|
    ensures Into(g, v, k, t)(j) == Sum(|g.edges|, (i: nat) => Between(g, v, k, t, i, j))
    decreases k, 0
  {
    var col := (i: nat) => Between(g, v, k, t, i, j);
    if g.edges[j].dst == t {
      FirstEdge(g, v, k - 1, g.edges[j].src);
      var out := OutOf(g, v, k - 1, g.edges[j].src);
      forall i: nat | i < |g.edges| ensures out(i) == col(i) {
      }
      SumEq(|g.edges|, out, col);
    } else {
      forall i: nat | i < |g.edges| ensures col(i) == 0.0 {
      }
      SumZero(|g.edges|, col);
    }
    SumEq(|g.edges|, col, (i: nat) => Between(g, v, k, t, i, j));
  }

  lemma Row(g: Graph, v: nat, k: nat, t: nat, i: nat)
    requires k > 1 && i < |g.edges|
    ensures OutOf(g, v, k, t)(i) == Sum(|g.edges|, (j: nat) => Between(g, v, k, t, i, j))
  {
    var row := (j: nat) => Between(g, v, k, t, i, j);
    if g.edges[i].src == v {
      var into := Into(g, g.edges[i].dst, k - 1, t);
      forall j: nat | j < |g.edges| ensures into(j) == row(j) {
      }
      SumEq(|g.edges|, into, row);
    } else {
      forall j: nat | j < |g.edges| ensures row(j) == 0.0 {
      }
      SumZero(|g.edges|, row);
    }
    SumEq(|g.edges|, row, (j: nat) => Between(g, v, k, t, i, j));
  }

  // ---------------------------------------------------------------- levels

  /** The shortest walks from `s` to `v` have `k` edges. */
  ghost predicate AtLevel(g: Graph, s: nat, v: nat, k: nat) {
    W(g, s, k, v) > 0.0 && forall j: nat :: j < k ==> W(g, s, j, v) == 0.0
  }

  lemma OneLevel(g: Graph, s: nat, v: nat, k: nat, l: nat)
    requires AtLevel(g, s, v, k) && AtLevel(g, s, v, l)
    ensures k == l
  {
  }

  lemma {:induction false} LevelBelow(g: Graph, s: nat, v: nat, k: nat) returns (l: nat)
    requires W(g, s, k, v) > 0.0
    ensures l <= k && AtLevel(g, s, v, l)
  {
    if j: nat :| j < k && W(g, s, j, v) != 0.0 {
      CountNonNegative(g, s, j, v);
      l := LevelBelow(g, s, v, j);
    } else {
      l := k;
    }
  }

  lemma EdgeStep(g: Graph, s: nat, k: nat, i: nat)
    requires i < |g.edges| && W(g, s, k, g.edges[i].src) > 0.0
    ensures W(g, s, k + 1, g.edges[i].dst) > 0.0
  {
    var f := Into(g, s, k + 1, g.edges[i].dst);
    forall j: nat | j < |g.edges| ensures f(j) >= 0.0 {
      CountNonNegative(g, s, k, g.edges[j].src);
    }
    SumNonNegative(|g.edges|, f);
    assert f(i) <= Sum(|g.edges|, f);
  }

  /** A node at level `k + 1` is reached from one at level `k`. */
  lemma LastEdge(g: Graph, s: nat, v: nat, k: nat) returns (i: nat)
    requires AtLevel(g, s, v, k + 1)
    ensures i < |g.edges| && g.edges[i].dst == v && AtLevel(g, s, g.edges[i].src, k)
  {
    i := SumPositive(|g.edges|, Into(g, s, k + 1, v));
    var u := g.edges[i].src;
    forall j: nat | j < k ensures W(g, s, j, u) == 0.0 {
      CountNonNegative(g, s, j, u);
      if W(g, s, j, u) > 0.0 {
        EdgeStep(g, s, j, i);
      }
    }
  }

  /** An edge out of level `k` leads to a node at level `k + 1` or below. */
  lemma EdgeLevels(g: Graph, s: nat, k: nat, i: nat) returns (l: nat)
    requires i < |g.edges| && AtLevel(g, s, g.edges[i].src, k)
    ensures l <= k + 1 && AtLevel(g, s, g.edges[i].dst, l)
  {
    EdgeStep(g, s, k, i);
    l := LevelBelow(g, s, g.edges[i].dst, k + 1);
  }

  lemma {:induction false} LevelChain(g: Graph, s: nat, v: nat, k: nat) returns (S: set<nat>)
    requires ValidGraph(g) && s < g.nodes && v < g.nodes && AtLevel(g, s, v, k)
    ensures |S| == k + 1 && forall u :: u in S ==> u < g.nodes && exists l: nat :: l <= k && AtLevel(g, s, u, l)
    decreases k
  {
    if k == 0 {
      S := {v};
    } else {
      var i := LastEdge(g, s, v, k - 1);
      var T := LevelChain(g, s, g.edges[i].src, k - 1);
      if v in T {
        var l: nat :| l <= k - 1 && AtLevel(g, s, v, l);
        OneLevel(g, s, v, k, l);
      }
      S := T + {v};
    }
  }

  /** No shortest path is longer than the number of nodes allows. */
  lemma LevelBound(g: Graph, s: nat, v: nat, k: nat)
    requires ValidGraph(g) && s < g.nodes && v < g.nodes && AtLevel(g, s, v, k)
    ensures k < g.nodes
  {
    var S := LevelChain(g, s, v, k);
    assert S <= Below(g.nodes);
    SubsetCard(S, Below(g.nodes));
  }

  // ---------------------------------------------------------------- shares

  predicate Visits(g: Graph, s: nat, p: seq<nat>, v: nat)
    requires InRange(g, p)
  {
    exists j :: 0 <= j <= |p| && NodeAt(g, s, p, j) == v
  }

  /** The shortest walks from `s` to `t`, at level `k`, that visit `v`. */
  ghost function ShortestVia(g: Graph, s: nat, v: nat, t: nat, k: nat): set<seq<nat>> {
    set p | p in Walks(g, s, k, t) && InRange(g, p) && Visits(g, s, p, v)
  }

  lemma PartsExist(g: Graph, s: nat, v: nat, t: nat, p: seq<nat>, j: nat, b: nat)
    requires p in Through(g, s, j, v, b, t)
    ensures W(g, s, j, v) > 0.0 && W(g, v, b, t) > 0.0
  {
    ThroughCounted(g, s, j, v, b, t);
    NotEmpty(p, Through(g, s, j, v, b, t));
    CountNonNegative(g, s, j, v);
    CountNonNegative(g, v, b, t);
    PositiveFactors(W(g, s, j, v), W(g, v, b, t));
  }

  lemma NotEmpty(p: seq<nat>, S: set<seq<nat>>)
    requires p in S
    ensures |S| > 0
  {
  }

  /** A shortest walk is at a node only after as many edges as the node's level. */
  lemma VisitLevel(g: Graph, s: nat, v: nat, t: nat, k: nat, p: seq<nat>, j: nat)
    requires AtLevel(g, s, t, k) && p in Walks(g, s, k, t) && InRange(g, p) && j <= |p| && NodeAt(g, s, p, j) == v
    ensures j <= k && AtLevel(g, s, v, j) && p in Through(g, s, j, v, k - j, t)
  {
    WalksAre(g, s, k, t, p);
    ThroughComplete(g, s, j, v, k - j, t, p);
    PartsExist(g, s, v, t, p, j, k - j);
    NoShorterPrefix(g, s, v, j, t, k);
  }

  lemma NoShorterPrefix(g: Graph, s: nat, v: nat, j: nat, t: nat, k: nat)
    requires AtLevel(g, s, t, k) && j <= k && W(g, v, k - j, t) > 0.0
    ensures forall i: nat :: i < j ==> W(g, s, i, v) == 0.0
  {
    forall i: nat | i < j ensures W(g, s, i, v) == 0.0 {
      CountNonNegative(g, s, i, v);
      if W(g, s, i, v) > 0.0 {
        Join(g, s, i, v, k - j, t);
      }
    }
  }

  lemma PositiveFactors(a: real, b: real)
    requires a >= 0.0 && b >= 0.0 && Times(a, b) > 0.0
    ensures a > 0.0 && b > 0.0
  {
  }

  lemma ViaIsThrough(g: Graph, s: nat, v: nat, a: nat, t: nat, k: nat)
    requires AtLevel(g, s, v, a) && AtLevel(g, s, t, k)
    ensures ShortestVia(g, s, v, t, k) == if a <= k then Through(g, s, a, v, k - a, t) else {}
  {
    var S := ShortestVia(g, s, v, t, k);
    forall p | p in S ensures a <= k && p in Through(g, s, a, v, k - a, t) {
      var j: nat :| j <= |p| && NodeAt(g, s, p, j) == v;
      VisitLevel(g, s, v, t, k, p, j);
      OneLevel(g, s, v, a, j);
    }
    if a <= k {
      forall p | p in Through(g, s, a, v, k - a, t) ensures p in S {
        ThroughSound(g, s, a, v, k - a, t, p);
        WalksAre(g, s, k, t, p);
      }
    }
  }

  lemma ViaCounted(g: Graph, s: nat, v: nat, a: nat, t: nat, k: nat)
    requires AtLevel(g, s, v, a) && AtLevel(g, s, t, k)
    ensures |ShortestVia(g, s, v, t, k)| as real == if a <= k then Times(W(g, s, a, v), W(g, v, k - a, t)) else 0.0
  {
    ViaIsThrough(g, s, v, a, t, k);
    if a <= k {
      ThroughCounted(g, s, a, v, k - a, t);
    }
  }

  ghost predicate Reachable(g: Graph, s: nat, v: nat) {
    exists k: nat :: AtLevel(g, s, v, k)
  }

  ghost function Level(g: Graph, s: nat, v: nat): (k: nat)
    requires Reachable(g, s, v)
    ensures AtLevel(g, s, v, k)
  {
    var k: nat :| AtLevel(g, s, v, k);
    k
  }

  /** The fraction of the shortest walks from `s` to `t` that visit `v`. */
  ghost function Share(g: Graph, s: nat, v: nat, t: nat): real {
    if Reachable(g, s, t) then
      WalksCounted(g, s, Level(g, s, t), t);
      (|ShortestVia(g, s, v, t, Level(g, s, t))| as real) / (|Walks(g, s, Level(g, s, t), t)| as real)
    else 0.0
  }

  /** How much of the shortest walks from `s` to all other nodes depends on `v`. */
  ghost function Dependency(g: Graph, s: nat, v: nat): real {
    Sum(g.nodes, (t: nat) => if t == v then 0.0 else Share(g, s, v, t))
  }

  // ---------------------------------------------------------------- the backward recurrence

  lemma LevelIs(g: Graph, s: nat, v: nat, k: nat)
    requires AtLevel(g, s, v, k)
    ensures Reachable(g, s, v) && Level(g, s, v) == k
  {
    OneLevel(g, s, v, k, Level(g, s, v));
  }

  /** Shares in terms of numbers of walks. */
  lemma ShareIs(g: Graph, s: nat, v: nat, a: nat, t: nat, k: nat)
    requires AtLevel(g, s, v, a) && AtLevel(g, s, t, k)
    ensures Share(g, s, v, t) == if a <= k then Times(W(g, s, a, v), W(g, v, k - a, t)) / W(g, s, k, t) else 0.0
  {
    LevelIs(g, s, t, k);
    WalksCounted(g, s, k, t);
    ViaCounted(g, s, v, a, t, k);
  }

  lemma OwnShare(g: Graph, s: nat, v: nat, a: nat)
    requires AtLevel(g, s, v, a)
    ensures Share(g, s, v, v) == 1.0
  {
    ShareIs(g, s, v, a, v, a);
    Whole(W(g, s, a, v), W(g, v, 0, v));
  }

  lemma Whole(x: real, one: real)
    requires x > 0.0 && one == 1.0
    ensures Times(x, one) / x == 1.0
  {
  }

  /** What edge `i` passes back to `v`, at level `a`, of the walks to `t`. */
  ghost function Passed(g: Graph, s: nat, v: nat, a: nat, t: nat, i: nat): real
    requires AtLevel(g, s, v, a)
  {
    if i < |g.edges| && g.edges[i].src == v && AtLevel(g, s, g.edges[i].dst, a + 1)
    then Times(W(g, s, a, v) / W(g, s, a + 1, g.edges[i].dst), Share(g, s, g.edges[i].dst, t)) else 0.0
  }

  lemma Ratio(x: real, y: real, z: real, n: real)
    requires y > 0.0 && z > 0.0
    ensures Times(x / y, Times(y, n) / z) == Times(x / z, n)
  {
    assert (x / y) * ((y * n) / z) == (x / z) * n;
  }

  lemma TimesZero(c: real, z: real)
    requires z == 0.0
    ensures Times(c, z) == 0.0
  {
  }

  /** For a target beyond `v`, an edge passes back its part of the walks, by their first edge. */
  lemma PassedByFirstEdge(g: Graph, s: nat, v: nat, a: nat, t: nat, k: nat, i: nat)
    requires AtLevel(g, s, v, a) && AtLevel(g, s, t, k) && a < k && i < |g.edges|
    ensures Passed(g, s, v, a, t, i) == Times(W(g, s, a, v) / W(g, s, k, t), OutOf(g, v, k - a, t)(i))
  {
    var w := g.edges[i].dst;
    var c := W(g, s, a, v) / W(g, s, k, t);
    if g.edges[i].src == v && AtLevel(g, s, w, a + 1) {
      assert OutOf(g, v, k - a, t)(i) == W(g, w, k - a - 1, t);
      PassedDown(g, s, v, a, t, k, i);
    } else {
      if g.edges[i].src == v {
        NoDetour(g, s, v, a, t, k, i);
      }
      TimesZero(c, OutOf(g, v, k - a, t)(i));
    }
  }

  lemma PassedDown(g: Graph, s: nat, v: nat, a: nat, t: nat, k: nat, i: nat)
    requires AtLevel(g, s, v, a) && AtLevel(g, s, t, k) && a < k && i < |g.edges|
    requires g.edges[i].src == v && AtLevel(g, s, g.edges[i].dst, a + 1)
    ensures Passed(g, s, v, a, t, i) == Times(W(g, s, a, v) / W(g, s, k, t), W(g, g.edges[i].dst, k - a - 1, t))
  {
    var w := g.edges[i].dst;
    ShareIs(g, s, w, a + 1, t, k);
    Ratio(W(g, s, a, v), W(g, s, a + 1, w), W(g, s, k, t), W(g, w, k - a - 1, t));
  }

  /** A walk that does not descend a level cannot be continued to a shortest one. */
  lemma NoDetour(g: Graph, s: nat, v: nat, a: nat, t: nat, k: nat, i: nat)
    requires AtLevel(g, s, v, a) && AtLevel(g, s, t, k) && a < k && i < |g.edges| && g.edges[i].src == v
    requires !AtLevel(g, s, g.edges[i].dst, a + 1)
    ensures W(g, g.edges[i].dst, k - a - 1, t) == 0.0
  {
    var w := g.edges[i].dst;
    var l := EdgeLevels(g, s, a, i);
    CountNonNegative(g, w, k - a - 1, t);
    if W(g, w, k - a - 1, t) > 0.0 {
      Join(g, s, l, w, k - a - 1, t);
    }
  }

  lemma ShareRecurrence(g: Graph, s: nat, v: nat, a: nat, t: nat)
    requires AtLevel(g, s, v, a)
    ensures (if t == v then 0.0 else Share(g, s, v, t)) == Sum(|g.edges|, (i: nat) => Passed(g, s, v, a, t, i))
  {
    var f := (i: nat) => Passed(g, s, v, a, t, i);
    LevelIs(g, s, v, a);
    if Reachable(g, s, t) && a < Level(g, s, t) {
      var k := Level(g, s, t);
      ShareIs(g, s, v, a, t, k);
      FirstEdge(g, v, k - a, t);
      forall i: nat | i < |g.edges| ensures f(i) == Times(W(g, s, a, v) / W(g, s, k, t), OutOf(g, v, k - a, t)(i)) {
        PassedByFirstEdge(g, s, v, a, t, k, i);
      }
      SumScale(|g.edges|, W(g, s, a, v) / W(g, s, k, t), OutOf(g, v, k - a, t), f);
      Regroup(W(g, s, a, v), W(g, v, k - a, t), W(g, s, k, t));
    } else {
      NothingPassed(g, s, v, a, t);
      SumZero(|g.edges|, f);
    }
  }

  lemma Regroup(x: real, n: real, z: real)
    requires z > 0.0
    ensures Times(x, n) / z == Times(x / z, n)
  {
  }

  /** To a target that is not beyond `v` nothing passes through `v`. */
  lemma NothingPassed(g: Graph, s: nat, v: nat, a: nat, t: nat)
    requires AtLevel(g, s, v, a) && (Reachable(g, s, t) ==> Level(g, s, t) <= a)
    ensures t != v ==> Share(g, s, v, t) == 0.0
    ensures forall i: nat :: i < |g.edges| ==> Passed(g, s, v, a, t, i) == 0.0
  {
    if Reachable(g, s, t) {
      var k := Level(g, s, t);
      ShareIs(g, s, v, a, t, k);
      forall i: nat | i < |g.edges| ensures Passed(g, s, v, a, t, i) == 0.0 {
        if AtLevel(g, s, g.edges[i].dst, a + 1) {
          ShareIs(g, s, g.edges[i].dst, a + 1, t, k);
        }
      }
    }
  }

  lemma AllShares(g: Graph, s: nat, v: nat, a: nat, f: nat -> real)
    requires v < g.nodes && AtLevel(g, s, v, a)
    requires forall t: nat :: t < g.nodes ==> f(t) == Share(g, s, v, t)
    ensures Sum(g.nodes, f) == 1.0 + Dependency(g, s, v)
  {
    var others := (t: nat) => if t == v then 0.0 else Share(g, s, v, t);
    OwnShare(g, s, v, a);
    SumChange(g.nodes, others, f, v);
    SumEq(g.nodes, others, (t: nat) => if t == v then 0.0 else Share(g, s, v, t));
  }

  /** What edge `i` contributes to the dependency of its source, before scaling. */
  ghost function Contribution(g: Graph, s: nat, v: nat, a: nat, i: nat): real {
    if i < |g.edges| && g.edges[i].src == v && AtLevel(g, s, g.edges[i].dst, a + 1)
    then (1.0 + Dependency(g, s, g.edges[i].dst)) / W(g, s, a + 1, g.edges[i].dst) else 0.0
  }

  lemma PassedInTotal(g: Graph, s: nat, v: nat, a: nat, i: nat)
    requires ValidGraph(g) && AtLevel(g, s, v, a) && i < |g.edges|
    ensures Sum(g.nodes, (t: nat) => Passed(g, s, v, a, t, i)) == Times(W(g, s, a, v), Contribution(g, s, v, a, i))
  {
    var f := (t: nat) => Passed(g, s, v, a, t, i);
    var w := g.edges[i].dst;
    if g.edges[i].src == v && AtLevel(g, s, w, a + 1) {
      var shares := (t: nat) => Share(g, s, w, t);
      var c := W(g, s, a, v) / W(g, s, a + 1, w);
      SumScale(g.nodes, c, shares, f);
      AllShares(g, s, w, a + 1, shares);
      Regroup(W(g, s, a, v), 1.0 + Dependency(g, s, w), W(g, s, a + 1, w));
    } else {
      SumZero(g.nodes, f);
    }
    SumEq(g.nodes, f, (t: nat) => Passed(g, s, v, a, t, i));
  }

  /** Brandes' recurrence: a dependency is the sum, over the edges to the next level, of what the
      successors pass back. */
  lemma DependencyRecurrence(g: Graph, s: nat, v: nat, a: nat)
    requires ValidGraph(g) && AtLevel(g, s, v, a)
    ensures Dependency(g, s, v) == Times(W(g, s, a, v), Sum(|g.edges|, (i: nat) => Contribution(g, s, v, a, i)))
  {
    var E := |g.edges|;
    var h := (t: nat, i: nat) => if i < E then Passed(g, s, v, a, t, i) else 0.0;
    var own := (t: nat) => if t == v then 0.0 else Share(g, s, v, t);
    var rows := (t: nat) => Sum(E, (i: nat) => h(t, i));
    var cols := (i: nat) => Sum(g.nodes, (t: nat) => h(t, i));
    var contributions := (i: nat) => Contribution(g, s, v, a, i);
    forall t: nat | t < g.nodes ensures own(t) == rows(t) {
      ShareRecurrence(g, s, v, a, t);
      SumEq(E, (i: nat) => Passed(g, s, v, a, t, i), (i: nat) => h(t, i));
    }
    forall i: nat | i < E ensures cols(i) == Times(W(g, s, a, v), contributions(i)) {
      PassedInTotal(g, s, v, a, i);
      SumEq(g.nodes, (t: nat) => Passed(g, s, v, a, t, i), (t: nat) => h(t, i));
    }
    SumEq(g.nodes, own, (t: nat) => if t == v then 0.0 else Share(g, s, v, t));
    SumEq(g.nodes, own, rows);
    SumSwap(g.nodes, E, h);
    SumEq(g.nodes, rows, (t: nat) => Sum(E, (i: nat) => h(t, i)));
    SumEq(E, cols, (i: nat) => Sum(g.nodes, (t: nat) => h(t, i)));
    SumScale(E, W(g, s, a, v), contributions, cols);
    SumEq(E, contributions, (i: nat) => Contribution(g, s, v, a, i));
  }

  /** Nothing depends on a node that cannot be reached. */
  lemma UnreachableDependency(g: Graph, s: nat, v: nat)
    requires !Reachable(g, s, v)
    ensures Dependency(g, s, v) == 0.0
  {
    var own := (t: nat) => if t == v then 0.0 else Share(g, s, v, t);
    forall t: nat | t < g.nodes ensures own(t) == 0.0 {
      if t != v && Reachable(g, s, t) {
        var k := Level(g, s, t);
        forall p | p in ShortestVia(g, s, v, t, k) ensures false {
          var j: nat :| j <= |p| && NodeAt(g, s, p, j) == v;
          VisitLevel(g, s, v, t, k, p, j);
        }
        assert ShortestVia(g, s, v, t, k) == {};
        WalksCounted(g, s, k, t);
      }
    }
    SumZero(g.nodes, own);
    SumEq(g.nodes, own, (t: nat) => if t == v then 0.0 else Share(g, s, v, t));
  }
}
