/**
 Betweenness centrality, level by level: the breadth-first forward phase, whose edges are relaxed
 concurrently within a level, and the backward accumulation of dependencies, as a transition
 system with one shared access per step. Any order of the steps within a level is a run.
 */
module Brandes {
  import opened Sets
  import opened Reals
  import opened Sums
  import opened PathCounts
  import opened ShortestPaths

  /** A quarter of the largest 32-bit value: the distance of a node not yet reached. */
  const INFINITY: nat := 0x3FFF_FFFF

  /** Where the work on an edge stands: not begun, its target seen unreached, its paths to be
      added, finished. */
  datatype EdgePc = Todo | Cas | Adding | Done
  datatype Phase = Forward | Backward | Finished

  datatype State = State(dist: seq<nat>, sigma: seq<real>, dep: seq<real>, bc: seq<real>,
                         stack: seq<seq<nat>>, level: nat, phase: Phase, pc: seq<EdgePc>, processed: set<nat>)

  predicate Shape(g: Graph, st: State) {
    && ValidGraph(g)
    && |st.dist| == |st.sigma| == |st.dep| == |st.bc| == g.nodes && |st.pc| == |g.edges|
    && st.level + 1 < |st.stack|
  }

  function AllTodo(g: Graph): seq<EdgePc> {
    seq(|g.edges|, _ => Todo)
  }

  // ---------------------------------------------------------------- steps

  /** A new source: its fields are reset, the accumulated centrality is kept. */
  predicate Init(g: Graph, s: nat, st: State) {
    && Shape(g, st) && s < g.nodes
    && (forall v :: 0 <= v < g.nodes ==> st.dist[v] == (if v == s then 0 else INFINITY))
    && (forall v :: 0 <= v < g.nodes ==> st.sigma[v] == (if v == s then 1.0 else 0.0))
    && (forall v :: 0 <= v < g.nodes ==> st.dep[v] == 0.0)
    && st.stack == [[s], []] && st.level == 0 && st.phase == Forward
    && st.pc == AllTodo(g) && st.processed == {}
  }

  predicate OnLevel(g: Graph, st: State, i: nat)
    requires Shape(g, st)
  {
    i < |g.edges| && g.edges[i].src in st.stack[st.level]
  }

  /** Edge `i` of the level reads the distance of its target. */
  predicate Read(g: Graph, st: State, st': State, i: nat)
    requires Shape(g, st)
  {
    && st.phase == Forward && OnLevel(g, st, i) && st.pc[i] == Todo
    && var d := st.dist[g.edges[i].dst];
       st' == st.(pc := st.pc[i := if d == INFINITY then Cas else if d == st.level + 1 then Adding else Done])
  }

  /** Having seen it unreached, it tries to claim the target; the winner also lists it. The list
      is read only after the level, so the push is part of this step. */
  predicate CompareAndSwap(g: Graph, st: State, st': State, i: nat)
    requires Shape(g, st)
  {
    && st.phase == Forward && OnLevel(g, st, i) && st.pc[i] == Cas
    && var v, next := g.edges[i].dst, st.level + 1;
       if st.dist[v] == INFINITY then
         st' == st.(pc := st.pc[i := Adding], dist := st.dist[v := next], stack := st.stack[next := st.stack[next] + [v]])
       else
         st' == st.(pc := st.pc[i := Adding])
  }

  /** The atomic addition of the source's paths to the target's. */
  predicate AddPaths(g: Graph, st: State, st': State, i: nat)
    requires Shape(g, st)
  {
    && st.phase == Forward && OnLevel(g, st, i) && st.pc[i] == Adding
    && var v := g.edges[i].dst;
       st' == st.(pc := st.pc[i := Done], sigma := st.sigma[v := st.sigma[v] + st.sigma[g.edges[i].src]])
  }

  predicate LevelDone(g: Graph, st: State)
    requires Shape(g, st)
  {
    forall i: nat :: i < |g.edges| && OnLevel(g, st, i) ==> st.pc[i] == Done
  }

  /** All operators of the level have returned: go on with the next list, or turn back. */
  predicate EndLevel(g: Graph, st: State, st': State)
    requires Shape(g, st)
  {
    && st.phase == Forward && LevelDone(g, st)
    && if st.stack[st.level + 1] != [] then
         st' == st.(level := st.level + 1, stack := st.stack + [[]], pc := AllTodo(g))
       else if |st.stack| >= 3 && |st.stack| - 3 > 0 then
         st' == st.(level := |st.stack| - 3, phase := Backward, pc := AllTodo(g))
       else
         st' == st.(phase := Finished)
  }

  function Quotient(a: real, b: real): real {
    if b == 0.0 then 0.0 else a / b
  }

  /** A node looks along edge `i` and takes its share from a successor. */
  predicate Contribute(g: Graph, st: State, st': State, i: nat)
    requires Shape(g, st)
  {
    && st.phase == Backward && OnLevel(g, st, i) && st.pc[i] == Todo
    && var n, v := g.edges[i].src, g.edges[i].dst;
       var more := if st.dist[v] == st.level + 1 then Quotient(1.0 + st.dep[v], st.sigma[v]) else 0.0;
       st' == st.(pc := st.pc[i := Done], dep := st.dep[n := st.dep[n] + more])
  }

  /** A node that has looked along all its edges scales its dependency and accumulates it. */
  predicate Finish(g: Graph, st: State, st': State, n: nat)
    requires Shape(g, st)
  {
    && st.phase == Backward && n < g.nodes && n in st.stack[st.level] && n !in st.processed
    && (forall i: nat :: i < |g.edges| && OnLevel(g, st, i) && g.edges[i].src == n ==> st.pc[i] == Done)
    && var d := Times(st.sigma[n], st.dep[n]);
       st' == st.(dep := st.dep[n := d], bc := st.bc[n := st.bc[n] + d], processed := st.processed + {n})
  }

  predicate EndBackLevel(g: Graph, st: State, st': State)
    requires Shape(g, st)
  {
    && st.phase == Backward && st.level > 0 && (forall n :: n in st.stack[st.level] ==> n in st.processed)
    && if st.level - 1 > 0 then
         st' == st.(level := st.level - 1, pc := AllTodo(g), processed := {})
       else
         st' == st.(level := 0, phase := Finished)
  }

  predicate Step(g: Graph, st: State, st': State, i: nat)
    requires Shape(g, st)
  {
    || Read(g, st, st', i) || CompareAndSwap(g, st, st', i) || AddPaths(g, st, st', i) || EndLevel(g, st, st')
    || Contribute(g, st, st', i) || Finish(g, st, st', i) || EndBackLevel(g, st, st')
  }

  ghost predicate Next(g: Graph, st: State, st': State) {
    Shape(g, st) && exists i: nat :: Step(g, st, st', i)
  }

  ghost predicate IsRun(g: Graph, s: nat, run: seq<State>) {
    && run != [] && Init(g, s, run[0])
    && forall k :: 0 <= k < |run| - 1 ==> Next(g, run[k], run[k + 1])
  }

  // ---------------------------------------------------------------- the forward invariant

  ghost predicate Beyond(g: Graph, s: nat, v: nat, L: nat) {
    forall k: nat :: k <= L ==> W(g, s, k, v) == 0.0
  }

  predicate NoDup(l: seq<nat>) {
    forall a, b :: 0 <= a < b < |l| ==> l[a] != l[b]
  }

  predicate AreNodes(g: Graph, l: seq<nat>) {
    forall v :: v in l ==> v < g.nodes
  }

  /** `l` lists the nodes at level `k`, each once. */
  ghost predicate Lists(g: Graph, s: nat, l: seq<nat>, k: nat) {
    NoDup(l) && forall v: nat :: v in l <==> v < g.nodes && AtLevel(g, s, v, k)
  }

  /** What edge `i` has so far added to node `v`. */
  ghost function Arrival(g: Graph, s: nat, pc: seq<EdgePc>, L: nat, v: nat, i: nat): real
    requires |pc| == |g.edges|
  {
    if i < |g.edges| && g.edges[i].dst == v && pc[i] == Done then W(g, s, L, g.edges[i].src) else 0.0
  }

  ghost predicate Settled(g: Graph, s: nat, st: State, v: nat, L: nat)
    requires Shape(g, st) && v < g.nodes
  {
    forall k: nat :: k <= L && AtLevel(g, s, v, k) ==> st.dist[v] == k && st.sigma[v] == W(g, s, k, v)
  }

  ghost predicate NodeOk(g: Graph, s: nat, st: State, v: nat)
    requires Shape(g, st) && v < g.nodes
  {
    && Settled(g, s, st, v, st.level)
    && (v in st.stack[st.level + 1] ==> Beyond(g, s, v, st.level))
    && (Beyond(g, s, v, st.level) ==>
          && (st.dist[v] == INFINITY || (st.dist[v] == st.level + 1 && AtLevel(g, s, v, st.level + 1)))
          && (v in st.stack[st.level + 1] <==> st.dist[v] == st.level + 1)
          && st.sigma[v] == Sum(|g.edges|, (i: nat) => Arrival(g, s, st.pc, st.level, v, i)))
  }

  ghost predicate EdgeOk(g: Graph, s: nat, st: State, i: nat)
    requires Shape(g, st) && i < |g.edges|
  {
    var v := g.edges[i].dst;
    && (st.pc[i] != Todo ==> OnLevel(g, st, i))
    && (st.pc[i] == Cas || st.pc[i] == Adding ==> Beyond(g, s, v, st.level))
    && ((st.pc[i] == Adding || st.pc[i] == Done) && Beyond(g, s, v, st.level) ==> st.dist[v] == st.level + 1)
  }

  ghost predicate ListsOk(g: Graph, s: nat, st: State)
    requires Shape(g, st)
  {
    && |st.stack| == st.level + 2 && st.stack[st.level] != []
    && (forall k: nat :: k <= st.level ==> Lists(g, s, st.stack[k], k))
    && NoDup(st.stack[st.level + 1]) && AreNodes(g, st.stack[st.level + 1])
  }

  predicate Untouched(g: Graph, st: State, bc: seq<real>)
    requires Shape(g, st)
  {
    st.bc == bc && st.processed == {} && forall v :: 0 <= v < g.nodes ==> st.dep[v] == 0.0
  }

  ghost predicate ForwardInv(g: Graph, s: nat, st: State, bc: seq<real>) {
    && Shape(g, st) && s < g.nodes <= INFINITY && st.phase == Forward
    && ListsOk(g, s, st) && Untouched(g, st, bc)
    && (forall v: nat :: v < g.nodes ==> NodeOk(g, s, st, v))
    && (forall i: nat :: i < |g.edges| ==> EdgeOk(g, s, st, i))
  }

  // ---------------------------------------------------------------- the forward phase

  lemma NotBeyond(g: Graph, s: nat, v: nat, L: nat) returns (k: nat)
    requires !Beyond(g, s, v, L)
    ensures k <= L && AtLevel(g, s, v, k)
  {
    var j: nat :| j <= L && W(g, s, j, v) != 0.0;
    CountNonNegative(g, s, j, v);
    k := LevelBelow(g, s, v, j);
  }

  /** While nodes are left, the next level is within the number of nodes. */
  lemma RoomBeyond(g: Graph, s: nat, u: nat, v: nat, L: nat)
    requires ValidGraph(g) && s < g.nodes && u < g.nodes && v < g.nodes && AtLevel(g, s, u, L) && Beyond(g, s, v, L)
    ensures L + 1 < g.nodes
  {
    var S := LevelChain(g, s, u, L);
    assert v !in S;
    assert S + {v} <= Below(g.nodes);
    SubsetCard(S + {v}, Below(g.nodes));
  }

  /** The distance field tells whether a node is beyond the level. */
  lemma DistanceTells(g: Graph, s: nat, st: State, bc: seq<real>, v: nat)
    requires ForwardInv(g, s, st, bc) && v < g.nodes
    ensures Beyond(g, s, v, st.level) <==> st.dist[v] == INFINITY || st.dist[v] == st.level + 1
  {
    assert NodeOk(g, s, st, v);
    if !Beyond(g, s, v, st.level) {
      var k := NotBeyond(g, s, v, st.level);
      LevelBound(g, s, v, k);
    }
  }

  lemma InitEstablishes(g: Graph, s: nat, st: State)
    requires Init(g, s, st) && g.nodes <= INFINITY
    ensures ForwardInv(g, s, st, st.bc)
  {
    assert Lists(g, s, [s], 0);
    forall v: nat | v < g.nodes ensures NodeOk(g, s, st, v) {
      SumZero(|g.edges|, (i: nat) => Arrival(g, s, st.pc, 0, v, i));
    }
  }

  lemma SameArrivals(g: Graph, s: nat, pc: seq<EdgePc>, pc': seq<EdgePc>, L: nat, v: nat)
    requires |pc| == |pc'| == |g.edges|
    requires forall i: nat :: i < |g.edges| && g.edges[i].dst == v ==> (pc[i] == Done <==> pc'[i] == Done)
    ensures Sum(|g.edges|, (i: nat) => Arrival(g, s, pc, L, v, i)) == Sum(|g.edges|, (i: nat) => Arrival(g, s, pc', L, v, i))
  {
    SumEq(|g.edges|, (i: nat) => Arrival(g, s, pc, L, v, i), (i: nat) => Arrival(g, s, pc', L, v, i));
  }

  lemma ReadPreserves(g: Graph, s: nat, st: State, st': State, bc: seq<real>, i: nat)
    requires ForwardInv(g, s, st, bc) && Read(g, st, st', i)
    ensures ForwardInv(g, s, st', bc)
  {
    DistanceTells(g, s, st, bc, g.edges[i].dst);
    forall v: nat | v < g.nodes ensures NodeOk(g, s, st', v) {
      assert NodeOk(g, s, st, v);
      if Beyond(g, s, v, st.level) {
        SameArrivals(g, s, st.pc, st'.pc, st.level, v);
      }
    }
    forall j: nat | j < |g.edges| ensures EdgeOk(g, s, st', j) {
      assert EdgeOk(g, s, st, j);
    }
  }

  /** The target of a claimed edge is at the next level. */
  lemma ClaimedLevel(g: Graph, s: nat, st: State, bc: seq<real>, i: nat)
    requires ForwardInv(g, s, st, bc) && i < |g.edges| && st.pc[i] == Cas
    ensures AtLevel(g, s, g.edges[i].dst, st.level + 1) && st.level + 1 < g.nodes
  {
    assert EdgeOk(g, s, st, i) && Lists(g, s, st.stack[st.level], st.level);
    EdgeStep(g, s, st.level, i);
    LevelBound(g, s, g.edges[i].dst, st.level + 1);
  }

  lemma SwapTarget(g: Graph, s: nat, st: State, st': State, bc: seq<real>, i: nat)
    requires ForwardInv(g, s, st, bc) && CompareAndSwap(g, st, st', i) && st.level + 1 < g.nodes
    requires AtLevel(g, s, g.edges[i].dst, st.level + 1)
    ensures Shape(g, st') && NodeOk(g, s, st', g.edges[i].dst)
  {
    var v := g.edges[i].dst;
    assert EdgeOk(g, s, st, i) && NodeOk(g, s, st, v);
    SameArrivals(g, s, st.pc, st'.pc, st.level, v);
  }

  lemma SwapOther(g: Graph, s: nat, st: State, st': State, bc: seq<real>, i: nat, v: nat)
    requires ForwardInv(g, s, st, bc) && CompareAndSwap(g, st, st', i) && v < g.nodes && v != g.edges[i].dst
    ensures Shape(g, st') && NodeOk(g, s, st', v)
  {
    assert NodeOk(g, s, st, v);
    SameArrivals(g, s, st.pc, st'.pc, st.level, v);
    assert v in st'.stack[st.level + 1] <==> v in st.stack[st.level + 1];
    assert st'.dist[v] == st.dist[v] && st'.sigma == st.sigma;
  }

  lemma SwapPreserves(g: Graph, s: nat, st: State, st': State, bc: seq<real>, i: nat)
    requires ForwardInv(g, s, st, bc) && CompareAndSwap(g, st, st', i)
    ensures ForwardInv(g, s, st', bc)
  {
    ClaimedLevel(g, s, st, bc, i);
    forall v: nat | v < g.nodes ensures NodeOk(g, s, st', v) {
      if v == g.edges[i].dst { SwapTarget(g, s, st, st', bc, i); } else { SwapOther(g, s, st, st', bc, i, v); }
    }
    forall j: nat | j < |g.edges| ensures EdgeOk(g, s, st', j) {
      assert EdgeOk(g, s, st, j) && EdgeOk(g, s, st, i) && NodeOk(g, s, st, g.edges[i].dst);
    }
    SwapKeepsLists(g, s, st, st', bc, i);
  }

  lemma SwapKeepsLists(g: Graph, s: nat, st: State, st': State, bc: seq<real>, i: nat)
    requires ForwardInv(g, s, st, bc) && CompareAndSwap(g, st, st', i) && g.nodes <= INFINITY && st.level + 1 < g.nodes
    ensures Shape(g, st') && ListsOk(g, s, st')
  {
    assert EdgeOk(g, s, st, i) && NodeOk(g, s, st, g.edges[i].dst);
    forall k: nat | k <= st.level ensures Lists(g, s, st'.stack[k], k) {
      assert Lists(g, s, st.stack[k], k) && st'.stack[k] == st.stack[k];
    }
  }

  lemma AddPreserves(g: Graph, s: nat, st: State, st': State, bc: seq<real>, i: nat)
    requires ForwardInv(g, s, st, bc) && AddPaths(g, st, st', i)
    ensures ForwardInv(g, s, st', bc)
  {
    var u, w, L := g.edges[i].src, g.edges[i].dst, st.level;
    assert EdgeOk(g, s, st, i) && NodeOk(g, s, st, u) && Lists(g, s, st.stack[L], L);
    forall v: nat | v < g.nodes ensures NodeOk(g, s, st', v) {
      assert NodeOk(g, s, st, v);
      if v == w {
        SumChange(|g.edges|, (j: nat) => Arrival(g, s, st.pc, L, v, j), (j: nat) => Arrival(g, s, st'.pc, L, v, j), i);
      } else {
        SameArrivals(g, s, st.pc, st'.pc, L, v);
      }
    }
    forall j: nat | j < |g.edges| ensures EdgeOk(g, s, st', j) {
      assert EdgeOk(g, s, st, j);
    }
  }

  /** Once the level is done, every path into a node beyond it has been added. */
  lemma ArrivalsComplete(g: Graph, s: nat, st: State, bc: seq<real>, v: nat)
    requires ForwardInv(g, s, st, bc) && LevelDone(g, st) && v < g.nodes && Beyond(g, s, v, st.level)
    ensures Sum(|g.edges|, (i: nat) => Arrival(g, s, st.pc, st.level, v, i)) == W(g, s, st.level + 1, v)
  {
    var L := st.level;
    forall i: nat | i < |g.edges| ensures Arrival(g, s, st.pc, L, v, i) == Into(g, s, L + 1, v)(i) {
      if g.edges[i].dst == v {
        SourceOnLevel(g, s, v, L, i);
        assert Lists(g, s, st.stack[L], L);
      }
    }
    SumEq(|g.edges|, (i: nat) => Arrival(g, s, st.pc, L, v, i), Into(g, s, L + 1, v));
  }

  lemma SourceOnLevel(g: Graph, s: nat, v: nat, L: nat, i: nat)
    requires i < |g.edges| && g.edges[i].dst == v && Beyond(g, s, v, L)
    ensures W(g, s, L, g.edges[i].src) != 0.0 ==> AtLevel(g, s, g.edges[i].src, L)
  {
    var u := g.edges[i].src;
    CountNonNegative(g, s, L, u);
    if W(g, s, L, u) > 0.0 {
      var l := LevelBelow(g, s, u, L);
      if l < L {
        EdgeStep(g, s, l, i);
      }
    }
  }

  /** At the end of a level the fields of every node are right up to the next level. */
  lemma LevelSettles(g: Graph, s: nat, st: State, bc: seq<real>, v: nat)
    requires ForwardInv(g, s, st, bc) && LevelDone(g, st) && v < g.nodes
    ensures Settled(g, s, st, v, st.level + 1)
    ensures v in st.stack[st.level + 1] <==> AtLevel(g, s, v, st.level + 1)
    ensures Beyond(g, s, v, st.level + 1) ==> st.dist[v] == INFINITY && st.sigma[v] == 0.0
  {
    var L := st.level;
    assert NodeOk(g, s, st, v);
    if Beyond(g, s, v, L) {
      assert Lists(g, s, st.stack[L], L);
      assert st.stack[L][0] in st.stack[L];
      RoomBeyond(g, s, st.stack[L][0], v, L);
      ArrivalsComplete(g, s, st, bc, v);
      if AtLevel(g, s, v, L + 1) {
        var i := LastEdge(g, s, v, L);
        assert Lists(g, s, st.stack[L], L) && EdgeOk(g, s, st, i);
      }
    } else {
      var k := NotBeyond(g, s, v, L);
      assert W(g, s, k, v) > 0.0;
    }
  }

  lemma EndLevelPreserves(g: Graph, s: nat, st: State, st': State, bc: seq<real>)
    requires ForwardInv(g, s, st, bc) && EndLevel(g, st, st') && st'.phase == Forward
    ensures ForwardInv(g, s, st', bc)
  {
    var L := st.level;
    forall v: nat | v < g.nodes ensures NodeOk(g, s, st', v) {
      LevelSettles(g, s, st, bc, v);
      if Beyond(g, s, v, L + 1) {
        var u := st.stack[L + 1][0];
        assert u in st.stack[L + 1];
        LevelSettles(g, s, st, bc, u);
        RoomBeyond(g, s, u, v, L + 1);
      }
      SumZero(|g.edges|, (i: nat) => Arrival(g, s, st'.pc, L + 1, v, i));
    }
    forall k: nat | k <= L + 1 ensures Lists(g, s, st'.stack[k], k) {
      if k <= L {
        assert Lists(g, s, st.stack[k], k) && st'.stack[k] == st.stack[k];
      } else {
        forall v: nat ensures v in st'.stack[k] <==> v < g.nodes && AtLevel(g, s, v, k) {
          if v < g.nodes {
            LevelSettles(g, s, st, bc, v);
          }
        }
      }
    }
  }

  // ---------------------------------------------------------------- the backward invariant

  /** The forward phase has found every node: `top` is the last level. */
  ghost predicate Found(g: Graph, s: nat, st: State, top: nat) {
    && Shape(g, st) && s < g.nodes <= INFINITY && |st.stack| == top + 2
    && (forall k: nat :: k <= top ==> Lists(g, s, st.stack[k], k))
    && (forall v: nat, k: nat :: v < g.nodes && AtLevel(g, s, v, k) ==>
          k <= top && st.dist[v] == k && st.sigma[v] == W(g, s, k, v))
    && (forall v: nat :: v < g.nodes && !Reachable(g, s, v) ==> st.dist[v] == INFINITY && st.sigma[v] == 0.0)
  }

  /** What node `v` has so far taken along edge `i`. */
  ghost function Received(g: Graph, s: nat, pc: seq<EdgePc>, L: nat, v: nat, i: nat): real
    requires |pc| == |g.edges|
  {
    if i < |g.edges| && pc[i] == Done then Contribution(g, s, v, L, i) else 0.0
  }

  /** The dependency of `v` is final and accumulated. */
  ghost predicate Accumulated(g: Graph, s: nat, st: State, bc: seq<real>, v: nat)
    requires Shape(g, st) && |bc| == g.nodes && v < g.nodes
  {
    st.dep[v] == Dependency(g, s, v) && st.bc[v] == bc[v] + Dependency(g, s, v)
  }

  ghost predicate BackOk(g: Graph, s: nat, st: State, bc: seq<real>, v: nat)
    requires Shape(g, st) && |bc| == g.nodes && v < g.nodes
  {
    var L := st.level;
    && (forall k: nat :: k > L && AtLevel(g, s, v, k) ==> Accumulated(g, s, st, bc, v))
    && (AtLevel(g, s, v, L) ==>
          if v in st.processed then Accumulated(g, s, st, bc, v)
          else st.bc[v] == bc[v] && st.dep[v] == Sum(|g.edges|, (i: nat) => Received(g, s, st.pc, L, v, i)))
    && ((forall k: nat :: k >= L ==> !AtLevel(g, s, v, k)) ==> st.dep[v] == 0.0 && st.bc[v] == bc[v])
  }

  ghost predicate BackwardInv(g: Graph, s: nat, st: State, bc: seq<real>) {
    && |st.stack| >= 2 && Found(g, s, st, |st.stack| - 2) && |bc| == g.nodes
    && st.phase == Backward && 1 <= st.level < |st.stack| - 2
    && (forall v :: v in st.processed ==> v in st.stack[st.level])
    && (forall i: nat :: i < |g.edges| && st.pc[i] != Done ==> g.edges[i].src !in st.processed)
    && (forall v: nat :: v < g.nodes ==> BackOk(g, s, st, bc, v))
  }

  /** The final state: every node but the source has its exact dependency, and the accumulated
      centrality has grown by it. */
  ghost predicate Result(g: Graph, s: nat, st: State, bc: seq<real>) {
    && |st.stack| >= 2 && Found(g, s, st, |st.stack| - 2) && |bc| == g.nodes
    && (forall v: nat :: v < g.nodes && v != s ==> Accumulated(g, s, st, bc, v))
    && st.dep[s] == 0.0 && st.bc[s] == bc[s]
  }

  // ---------------------------------------------------------------- the backward phase

  lemma EveryNodeFound(g: Graph, s: nat, st: State, bc: seq<real>)
    requires ForwardInv(g, s, st, bc) && LevelDone(g, st) && st.stack[st.level + 1] == []
    ensures Found(g, s, st, st.level)
  {
    var L := st.level;
    forall v: nat, k: nat | v < g.nodes && AtLevel(g, s, v, k)
      ensures k <= L && st.dist[v] == k && st.sigma[v] == W(g, s, k, v)
    {
      LevelSettles(g, s, st, bc, v);
      if k > L {
        var u := AncestorAt(g, s, v, k, L + 1);
        LevelSettles(g, s, st, bc, u);
      }
    }
    forall v: nat | v < g.nodes && !Reachable(g, s, v) ensures st.dist[v] == INFINITY && st.sigma[v] == 0.0 {
      LevelSettles(g, s, st, bc, v);
      if !Beyond(g, s, v, L + 1) {
        var k := NotBeyond(g, s, v, L + 1);
      }
    }
  }

  lemma {:induction false} AncestorAt(g: Graph, s: nat, v: nat, k: nat, j: nat) returns (u: nat)
    requires ValidGraph(g) && v < g.nodes && AtLevel(g, s, v, k) && j <= k
    ensures u < g.nodes && AtLevel(g, s, u, j)
    decreases k
  {
    if j == k {
      u := v;
    } else {
      var i := LastEdge(g, s, v, k - 1);
      u := AncestorAt(g, s, g.edges[i].src, k - 1, j);
    }
  }

  /** Nothing depends on the nodes of the last level. */
  lemma TopDependency(g: Graph, s: nat, st: State, top: nat, v: nat)
    requires Found(g, s, st, top) && v < g.nodes && AtLevel(g, s, v, top)
    ensures Dependency(g, s, v) == 0.0
  {
    DependencyRecurrence(g, s, v, top);
    SumZero(|g.edges|, (i: nat) => Contribution(g, s, v, top, i));
  }

  lemma OnlySourceAtZero(g: Graph, s: nat, v: nat)
    ensures AtLevel(g, s, v, 0) <==> v == s
  {
  }

  lemma TurnBack(g: Graph, s: nat, st: State, st': State, bc: seq<real>)
    requires ForwardInv(g, s, st, bc) && EndLevel(g, st, st') && st'.phase == Backward
    ensures BackwardInv(g, s, st', bc)
  {
    EveryNodeFound(g, s, st, bc);
    forall v: nat | v < g.nodes ensures BackOk(g, s, st', bc, v) {
      forall k: nat | k > st'.level && AtLevel(g, s, v, k) ensures Accumulated(g, s, st', bc, v) {
        TopDependency(g, s, st, st.level, v);
      }
      SumZero(|g.edges|, (i: nat) => Received(g, s, st'.pc, st'.level, v, i));
    }
  }

  lemma FinishAtOnce(g: Graph, s: nat, st: State, st': State, bc: seq<real>)
    requires ForwardInv(g, s, st, bc) && EndLevel(g, st, st') && st'.phase == Finished
    ensures Result(g, s, st', bc)
  {
    EveryNodeFound(g, s, st, bc);
    forall v: nat | v < g.nodes && v != s ensures Accumulated(g, s, st', bc, v) {
      OnlySourceAtZero(g, s, v);
      if Reachable(g, s, v) {
        TopDependency(g, s, st, st.level, v);
      } else {
        UnreachableDependency(g, s, v);
      }
    }
  }

  lemma SameReceived(g: Graph, s: nat, pc: seq<EdgePc>, pc': seq<EdgePc>, L: nat, v: nat)
    requires |pc| == |pc'| == |g.edges|
    requires forall i: nat :: i < |g.edges| && g.edges[i].src == v ==> pc[i] == pc'[i]
    ensures Sum(|g.edges|, (i: nat) => Received(g, s, pc, L, v, i)) == Sum(|g.edges|, (i: nat) => Received(g, s, pc', L, v, i))
  {
    SumEq(|g.edges|, (i: nat) => Received(g, s, pc, L, v, i), (i: nat) => Received(g, s, pc', L, v, i));
  }

  /** The share taken along an edge is the one the recurrence asks for. */
  lemma ShareTaken(g: Graph, s: nat, st: State, bc: seq<real>, i: nat)
    requires BackwardInv(g, s, st, bc) && OnLevel(g, st, i)
    ensures var v := g.edges[i].dst;
            Contribution(g, s, g.edges[i].src, st.level, i) ==
            if st.dist[v] == st.level + 1 then Quotient(1.0 + st.dep[v], st.sigma[v]) else 0.0
  {
    var v := g.edges[i].dst;
    assert Lists(g, s, st.stack[st.level], st.level) && BackOk(g, s, st, bc, v);
    var l := EdgeLevels(g, s, st.level, i);
    if AtLevel(g, s, v, st.level + 1) {
      assert st.sigma[v] > 0.0;
    }
  }

  lemma ContributePreserves(g: Graph, s: nat, st: State, st': State, bc: seq<real>, i: nat)
    requires BackwardInv(g, s, st, bc) && Contribute(g, st, st', i)
    ensures BackwardInv(g, s, st', bc)
  {
    var n, L := g.edges[i].src, st.level;
    ShareTaken(g, s, st, bc, i);
    assert Lists(g, s, st.stack[L], L);
    forall v: nat | v < g.nodes ensures BackOk(g, s, st', bc, v) {
      assert BackOk(g, s, st, bc, v);
      if v == n {
        SumChange(|g.edges|, (j: nat) => Received(g, s, st.pc, L, v, j), (j: nat) => Received(g, s, st'.pc, L, v, j), i);
      } else {
        SameReceived(g, s, st.pc, st'.pc, L, v);
      }
    }
  }

  lemma FinishPreserves(g: Graph, s: nat, st: State, st': State, bc: seq<real>, n: nat)
    requires BackwardInv(g, s, st, bc) && Finish(g, st, st', n)
    ensures BackwardInv(g, s, st', bc)
  {
    var L := st.level;
    assert Lists(g, s, st.stack[L], L) && BackOk(g, s, st, bc, n);
    DependencyRecurrence(g, s, n, L);
    SumEq(|g.edges|, (i: nat) => Received(g, s, st.pc, L, n, i), (i: nat) => Contribution(g, s, n, L, i));
    assert st'.dep[n] == Dependency(g, s, n);
    forall v: nat | v < g.nodes ensures BackOk(g, s, st', bc, v) {
      assert BackOk(g, s, st, bc, v);
    }
  }

  lemma LevelBackDone(g: Graph, s: nat, st: State, bc: seq<real>, v: nat, k: nat)
    requires BackwardInv(g, s, st, bc) && (forall n :: n in st.stack[st.level] ==> n in st.processed)
    requires v < g.nodes && AtLevel(g, s, v, k)
    ensures k >= st.level ==> Accumulated(g, s, st, bc, v)
    ensures k < st.level ==> st.dep[v] == 0.0 && st.bc[v] == bc[v]
  {
    assert Lists(g, s, st.stack[st.level], st.level) && BackOk(g, s, st, bc, v);
    if k < st.level {
      forall j: nat | j >= st.level ensures !AtLevel(g, s, v, j) {
        assert W(g, s, k, v) > 0.0;
      }
    }
  }

  lemma UnreachedBack(g: Graph, s: nat, st: State, bc: seq<real>, v: nat)
    requires BackwardInv(g, s, st, bc) && v < g.nodes && !Reachable(g, s, v)
    ensures st.dep[v] == 0.0 && st.bc[v] == bc[v]
  {
    assert BackOk(g, s, st, bc, v);
  }

  lemma EndBackPreserves(g: Graph, s: nat, st: State, st': State, bc: seq<real>)
    requires BackwardInv(g, s, st, bc) && EndBackLevel(g, st, st') && st'.phase == Backward
    ensures BackwardInv(g, s, st', bc)
  {
    forall v: nat | v < g.nodes ensures BackOk(g, s, st', bc, v) {
      SumZero(|g.edges|, (i: nat) => Received(g, s, st'.pc, st'.level, v, i));
      if Reachable(g, s, v) {
        LevelBackDone(g, s, st, bc, v, Level(g, s, v));
      } else {
        UnreachedBack(g, s, st, bc, v);
      }
    }
  }

  lemma EndBackFinishes(g: Graph, s: nat, st: State, st': State, bc: seq<real>)
    requires BackwardInv(g, s, st, bc) && EndBackLevel(g, st, st') && st'.phase == Finished
    ensures Result(g, s, st', bc)
  {
    OnlySourceAtZero(g, s, s);
    LevelBackDone(g, s, st, bc, s, 0);
    forall v: nat | v < g.nodes && v != s ensures Accumulated(g, s, st', bc, v) {
      OnlySourceAtZero(g, s, v);
      if Reachable(g, s, v) {
        LevelBackDone(g, s, st, bc, v, Level(g, s, v));
      } else {
        UnreachedBack(g, s, st, bc, v);
        UnreachableDependency(g, s, v);
      }
    }
  }

  // ---------------------------------------------------------------- all runs

  ghost predicate Inv(g: Graph, s: nat, st: State, bc: seq<real>) {
    match st.phase
    case Forward => ForwardInv(g, s, st, bc)
    case Backward => BackwardInv(g, s, st, bc)
    case Finished => Result(g, s, st, bc)
  }

  lemma StepPreserves(g: Graph, s: nat, st: State, st': State, bc: seq<real>, i: nat)
    requires Shape(g, st) && Inv(g, s, st, bc) && Step(g, st, st', i)
    ensures Inv(g, s, st', bc)
  {
    if Read(g, st, st', i) {
      ReadPreserves(g, s, st, st', bc, i);
    } else if CompareAndSwap(g, st, st', i) {
      SwapPreserves(g, s, st, st', bc, i);
    } else if AddPaths(g, st, st', i) {
      AddPreserves(g, s, st, st', bc, i);
    } else if Contribute(g, st, st', i) {
      ContributePreserves(g, s, st, st', bc, i);
    } else if Finish(g, st, st', i) {
      FinishPreserves(g, s, st, st', bc, i);
    } else {
      EndPreserves(g, s, st, st', bc);
    }
  }

  lemma EndPreserves(g: Graph, s: nat, st: State, st': State, bc: seq<real>)
    requires Shape(g, st) && Inv(g, s, st, bc) && (EndLevel(g, st, st') || EndBackLevel(g, st, st'))
    ensures Inv(g, s, st', bc)
  {
    if EndBackLevel(g, st, st') {
      if st'.phase == Backward { EndBackPreserves(g, s, st, st', bc); } else { EndBackFinishes(g, s, st, st', bc); }
    } else if st'.phase == Forward {
      EndLevelPreserves(g, s, st, st', bc);
    } else if st'.phase == Backward {
      TurnBack(g, s, st, st', bc);
    } else {
      FinishAtOnce(g, s, st, st', bc);
    }
  }

  lemma {:induction false} RunInv(g: Graph, s: nat, run: seq<State>, k: nat)
    requires IsRun(g, s, run) && g.nodes <= INFINITY && k < |run|
    ensures Inv(g, s, run[k], run[0].bc)
  {
    if k == 0 {
      InitEstablishes(g, s, run[0]);
    } else {
      RunInv(g, s, run, k - 1);
      assert Next(g, run[k - 1], run[k]);
      NextPreserves(g, s, run[k - 1], run[k], run[0].bc);
    }
  }

  lemma NextPreserves(g: Graph, s: nat, st: State, st': State, bc: seq<real>)
    requires Inv(g, s, st, bc) && Next(g, st, st')
    ensures Inv(g, s, st', bc)
  {
    var i: nat :| Step(g, st, st', i);
    StepPreserves(g, s, st, st', bc, i);
  }

  /** Whatever the order of the steps, a finished run has counted the shortest paths to every node
      exactly, and the dependency of every node but the source is the sum, over the other targets,
      of the share of the shortest paths that visit it. */
  lemma BrandesCorrect(g: Graph, s: nat, run: seq<State>, v: nat)
    requires IsRun(g, s, run) && g.nodes <= INFINITY && run[|run| - 1].phase == Finished && v < g.nodes
    ensures var st := run[|run| - 1];
            && |st.dist| == |st.sigma| == |st.dep| == |st.bc| == |run[0].bc| == g.nodes
            && (forall k: nat :: AtLevel(g, s, v, k) ==>
                  st.dist[v] == k && st.sigma[v] == |Walks(g, s, k, v)| as real)
            && (!Reachable(g, s, v) ==> st.dist[v] == INFINITY && st.sigma[v] == 0.0)
            && (v != s ==> st.dep[v] == Dependency(g, s, v) && st.bc[v] == run[0].bc[v] + Dependency(g, s, v))
            && (v == s ==> st.bc[v] == run[0].bc[v])
  {
    RunInv(g, s, run, |run| - 1);
    var st := run[|run| - 1];
    assert v != s ==> Accumulated(g, s, st, run[0].bc, v);
    forall k: nat | AtLevel(g, s, v, k) ensures st.dist[v] == k && st.sigma[v] == |Walks(g, s, k, v)| as real {
      WalksCounted(g, s, k, v);
    }
  }

  /** The assertion at the head of both operators: a node on the list of a level has that distance. */
  lemma ListedDistance(g: Graph, s: nat, run: seq<State>, k: nat, v: nat)
    requires IsRun(g, s, run) && g.nodes <= INFINITY && k < |run| && run[k].phase != Finished
    requires run[k].level < |run[k].stack| && v in run[k].stack[run[k].level]
    ensures v < |run[k].dist| && run[k].dist[v] == run[k].level
  {
    RunInv(g, s, run, k);
    var st := run[k];
    assert Lists(g, s, st.stack[st.level], st.level);
    if st.phase == Forward {
      assert NodeOk(g, s, st, v);
    }
  }

  /** One pass over source `s` may turn the accumulated centrality `bc` into `bc'`. */
  ghost predicate Pass(g: Graph, s: nat, bc: seq<real>, bc': seq<real>) {
    exists run: seq<State> :: IsRun(g, s, run) && run[0].bc == bc && run[|run| - 1].phase == Finished && run[|run| - 1].bc == bc'
  }

  lemma PassAdds(g: Graph, s: nat, bc: seq<real>, bc': seq<real>, v: nat)
    requires g.nodes <= INFINITY && Pass(g, s, bc, bc') && v < g.nodes
    ensures |bc| == |bc'| == g.nodes && bc'[v] == bc[v] + if s == v then 0.0 else Dependency(g, s, v)
  {
    var run: seq<State> :| IsRun(g, s, run) && run[0].bc == bc && run[|run| - 1].phase == Finished && run[|run| - 1].bc == bc';
    BrandesCorrect(g, s, run, v);
  }

  /** The sum of the dependencies of `v` on the first `n` sources other than `v` itself. */
  ghost function TotalDependency(g: Graph, sources: seq<nat>, v: nat, n: nat): real
    requires n <= |sources|
  {
    if n == 0 then 0.0
    else TotalDependency(g, sources, v, n - 1) + if sources[n - 1] == v then 0.0 else Dependency(g, sources[n - 1], v)
  }

  /** The main loop: over any list of sources, a node accumulates the sum of its dependencies. */
  lemma {:induction false} CentralityIsSum(g: Graph, sources: seq<nat>, bcs: seq<seq<real>>, v: nat, n: nat)
    requires g.nodes <= INFINITY && v < g.nodes && |bcs| == |sources| + 1 && n <= |sources| && |bcs[0]| == g.nodes
    requires forall j :: 0 <= j < |sources| ==> Pass(g, sources[j], bcs[j], bcs[j + 1])
    ensures |bcs[n]| == g.nodes && bcs[n][v] == bcs[0][v] + TotalDependency(g, sources, v, n)
  {
    if n > 0 {
      CentralityIsSum(g, sources, bcs, v, n - 1);
      PassAdds(g, sources[n - 1], bcs[n - 1], bcs[n], v);
    }
  }
}
