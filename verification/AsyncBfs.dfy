/**
 Asynchronous breadth-first search: labels are lowered by compare-and-swap while the worklist is
 drained in any order by any number of threads. Every edge of every item on the worklist is a task
 of its own here, so that each worklist order, tiling and interleaving is a run.
 */
module AsyncBfs {
  import opened PathCounts
  import opened Options
  import opened ShortestPaths

  const DIST_INFINITY: nat := 0x7FFF_FFFE

  /** Offer distance `dist` along an edge, having perhaps read the target's label; or, having
      lowered the label of `node`, push its edges with `dist`. */
  datatype Task = Relax(edge: nat, dist: nat, read: Option<nat>) | Push(node: nat, dist: nat)

  datatype State = State(labels: seq<nat>, tasks: seq<Task>)

  predicate ValidTask(g: Graph, t: Task) {
    match t
    case Relax(e, _, _) => e < |g.edges|
    case Push(n, _) => n < g.nodes
  }

  predicate Shape(g: Graph, st: State) {
    ValidGraph(g) && |st.labels| == g.nodes && forall k :: 0 <= k < |st.tasks| ==> ValidTask(g, st.tasks[k])
  }

  function Without(tasks: seq<Task>, k: nat): seq<Task>
    requires k < |tasks|
  {
    tasks[..k] + tasks[k + 1..]
  }

  /** One task for every edge out of `n`. */
  function Out(g: Graph, n: nat, dist: nat, upto: nat): (r: seq<Task>)
    requires upto <= |g.edges|
    ensures forall k :: 0 <= k < |r| ==> r[k].Relax? && r[k].edge < upto && g.edges[r[k].edge].src == n &&
                                         r[k].dist == dist && r[k].read == None
    ensures forall i: nat :: i < upto && g.edges[i].src == n ==> Relax(i, dist, None) in r
  {
    if upto == 0 then []
    else Out(g, n, dist, upto - 1) + if g.edges[upto - 1].src == n then [Relax(upto - 1, dist, None)] else []
  }

  // ---------------------------------------------------------------- steps

  predicate Init(g: Graph, s: nat, st: State) {
    && ValidGraph(g) && s < g.nodes && |st.labels| == g.nodes
    && (forall v :: 0 <= v < g.nodes ==> st.labels[v] == if v == s then 0 else DIST_INFINITY)
    && st.tasks == [Push(s, 1)]
  }

  /** The next state when task `k` makes its next access: pushing edges, reading the label, giving
      up an offer that does not improve it, or the compare-and-swap. */
  function Step(g: Graph, st: State, k: nat): State
    requires Shape(g, st) && k < |st.tasks|
  {
    match st.tasks[k]
    case Push(n, dist) => st.(tasks := Without(st.tasks, k) + Out(g, n, dist, |g.edges|))
    case Relax(e, dist, None) =>
      var seen := st.labels[g.edges[e].dst];
      if seen <= dist then st.(tasks := Without(st.tasks, k))
      else st.(tasks := st.tasks[k := Relax(e, dist, Some(seen))])
    case Relax(e, dist, Some(seen)) =>
      var v := g.edges[e].dst;
      if st.labels[v] == seen then State(st.labels[v := dist], st.tasks[k := Push(v, dist + 1)])
      else st.(tasks := st.tasks[k := Relax(e, dist, None)])
  }

  ghost predicate Next(g: Graph, st: State, st': State) {
    Shape(g, st) && exists k: nat :: k < |st.tasks| && st' == Step(g, st, k)
  }

  ghost predicate IsRun(g: Graph, s: nat, run: seq<State>) {
    run != [] && Init(g, s, run[0]) && forall k :: 0 <= k < |run| - 1 ==> Next(g, run[k], run[k + 1])
  }

  // ---------------------------------------------------------------- the invariant

  /** A label below infinity is the length of some walk. */
  ghost predicate LabelOk(g: Graph, s: nat, st: State, v: nat)
    requires Shape(g, st) && v < g.nodes
  {
    st.labels[v] <= DIST_INFINITY && (st.labels[v] < DIST_INFINITY ==> W(g, s, st.labels[v], v) > 0.0)
  }

  /** An offer is backed by a walk to the source of its edge, and improves what was read. */
  ghost predicate TaskOk(g: Graph, s: nat, t: Task)
    requires ValidTask(g, t)
  {
    match t
    case Relax(e, dist, read) =>
      dist > 0 && W(g, s, dist - 1, g.edges[e].src) > 0.0 &&
      (read.Some? ==> dist < read.value <= DIST_INFINITY)
    case Push(n, dist) => dist > 0 && W(g, s, dist - 1, n) > 0.0
  }

  /** The task will still offer at most `d` along edge `i`. */
  predicate Offers(g: Graph, t: Task, i: nat, d: nat)
    requires i < |g.edges|
  {
    match t
    case Relax(e, dist, _) => e == i && dist <= d
    case Push(n, dist) => n == g.edges[i].src && dist <= d
  }

  predicate Offered(g: Graph, tasks: seq<Task>, i: nat, d: nat)
    requires i < |g.edges|
  {
    exists k :: 0 <= k < |tasks| && Offers(g, tasks[k], i, d)
  }

  /** Along every edge the target's label is small enough, or an offer is pending. */
  predicate EdgeOk(g: Graph, st: State, i: nat)
    requires Shape(g, st) && i < |g.edges|
  {
    var d := st.labels[g.edges[i].src] + 1;
    st.labels[g.edges[i].dst] <= d || Offered(g, st.tasks, i, d)
  }

  ghost predicate Inv(g: Graph, s: nat, st: State) {
    && Shape(g, st) && s < g.nodes && st.labels[s] == 0
    && (forall v: nat :: v < g.nodes ==> LabelOk(g, s, st, v))
    && TasksOk(g, s, st.tasks)
    && (forall i: nat :: i < |g.edges| ==> EdgeOk(g, st, i))
  }

  // ---------------------------------------------------------------- preservation

  lemma InitEstablishes(g: Graph, s: nat, st: State)
    requires Init(g, s, st)
    ensures Inv(g, s, st)
  {
    forall i: nat | i < |g.edges| ensures EdgeOk(g, st, i) {
      assert g.edges[i].src == s ==> Offers(g, st.tasks[0], i, 1);
    }
  }

  /** An offer survives the removal of another task. */
  lemma OfferKept(g: Graph, tasks: seq<Task>, k: nat, more: seq<Task>, i: nat, d: nat)
    requires k < |tasks| && i < |g.edges| && Offered(g, tasks, i, d) && !Offers(g, tasks[k], i, d)
    ensures Offered(g, Without(tasks, k) + more, i, d)
  {
    var j :| 0 <= j < |tasks| && Offers(g, tasks[j], i, d);
    var j' := if j < k then j else j - 1;
    assert (Without(tasks, k) + more)[j'] == tasks[j];
  }

  lemma OfferMoved(g: Graph, tasks: seq<Task>, k: nat, t: Task, i: nat, d: nat)
    requires k < |tasks| && i < |g.edges| && Offered(g, tasks, i, d)
    requires Offers(g, tasks[k], i, d) ==> Offers(g, t, i, d)
    ensures Offered(g, tasks[k := t], i, d)
  {
    var j :| 0 <= j < |tasks| && Offers(g, tasks[j], i, d);
    assert tasks[k := t][j] == if j == k then t else tasks[j];
  }

  ghost predicate TasksOk(g: Graph, s: nat, tasks: seq<Task>) {
    forall k: nat :: k < |tasks| ==> ValidTask(g, tasks[k]) && TaskOk(g, s, tasks[k])
  }

  lemma TasksKept(g: Graph, s: nat, tasks: seq<Task>, k: nat, more: seq<Task>)
    requires k < |tasks| && TasksOk(g, s, tasks) && TasksOk(g, s, more)
    ensures TasksOk(g, s, Without(tasks, k) + more)
  {
    var all := Without(tasks, k) + more;
    forall j: nat | j < |all| ensures ValidTask(g, all[j]) && TaskOk(g, s, all[j]) {
      if j < |tasks| - 1 {
        assert all[j] == tasks[if j < k then j else j + 1];
      } else {
        assert all[j] == more[j - (|tasks| - 1)];
      }
    }
  }

  lemma PushPreserves(g: Graph, s: nat, st: State, k: nat)
    requires Inv(g, s, st) && k < |st.tasks| && st.tasks[k].Push?
    ensures Inv(g, s, Step(g, st, k))
  {
    var t := st.tasks[k];
    var more := Out(g, t.node, t.dist, |g.edges|);
    var st' := Step(g, st, k);
    assert TaskOk(g, s, t);
    forall u: nat | u < g.nodes ensures LabelOk(g, s, st', u) {
      assert LabelOk(g, s, st, u);
    }
    TasksKept(g, s, st.tasks, k, more);
    forall i: nat | i < |g.edges| ensures EdgeOk(g, st', i) {
      assert EdgeOk(g, st, i);
      var d := st.labels[g.edges[i].src] + 1;
      if Offers(g, t, i, d) {
        assert Relax(i, t.dist, None) in more;
        var j :| 0 <= j < |more| && more[j] == Relax(i, t.dist, None);
        assert st'.tasks[|st.tasks| - 1 + j] == more[j];
        assert Offers(g, st'.tasks[|st.tasks| - 1 + j], i, d);
      } else if Offered(g, st.tasks, i, d) {
        OfferKept(g, st.tasks, k, more, i, d);
      }
    }
  }

  /** Reading the label, or giving up, loses no offer that is still needed. */
  lemma ReadPreserves(g: Graph, s: nat, st: State, k: nat)
    requires Inv(g, s, st) && k < |st.tasks| && st.tasks[k].Relax? && st.tasks[k].read == None
    ensures Inv(g, s, Step(g, st, k))
  {
    var t := st.tasks[k];
    var st' := Step(g, st, k);
    assert TaskOk(g, s, t) && LabelOk(g, s, st, g.edges[t.edge].dst);
    forall u: nat | u < g.nodes ensures LabelOk(g, s, st', u) {
      assert LabelOk(g, s, st, u);
    }
    TasksKept(g, s, st.tasks, k, []);
    assert Without(st.tasks, k) + [] == Without(st.tasks, k);
    forall i: nat | i < |g.edges| ensures EdgeOk(g, st', i) {
      assert EdgeOk(g, st, i);
      var d := st.labels[g.edges[i].src] + 1;
      if Offered(g, st.tasks, i, d) {
        if st.labels[g.edges[t.edge].dst] <= t.dist {
          if !Offers(g, t, i, d) {
            OfferKept(g, st.tasks, k, [], i, d);
            assert Without(st.tasks, k) + [] == st'.tasks;
          }
        } else {
          OfferMoved(g, st.tasks, k, st'.tasks[k], i, d);
        }
      }
    }
  }

  lemma SwapPreserves(g: Graph, s: nat, st: State, k: nat)
    requires Inv(g, s, st) && k < |st.tasks| && st.tasks[k].Relax? && st.tasks[k].read.Some?
    ensures Inv(g, s, Step(g, st, k))
  {
    var t := st.tasks[k];
    var v := g.edges[t.edge].dst;
    var st' := Step(g, st, k);
    assert TaskOk(g, s, t);
    EdgeStep(g, s, t.dist - 1, t.edge);
    forall u: nat | u < g.nodes ensures LabelOk(g, s, st', u) {
      assert LabelOk(g, s, st, u);
    }
    forall i: nat | i < |g.edges| ensures EdgeOk(g, st', i) {
      assert EdgeOk(g, st, i);
      var d := st.labels[g.edges[i].src] + 1;
      if st.labels[v] == t.read.value && g.edges[i].src == v {
        assert Offers(g, st'.tasks[k], i, t.dist + 1);
      } else if Offered(g, st.tasks, i, d) {
        if Offers(g, t, i, d) && st.labels[v] == t.read.value {
          assert st'.labels[g.edges[i].dst] <= d;
        } else {
          OfferMoved(g, st.tasks, k, st'.tasks[k], i, d);
        }
      }
    }
  }

  lemma StepPreserves(g: Graph, s: nat, st: State, k: nat)
    requires Inv(g, s, st) && k < |st.tasks|
    ensures Inv(g, s, Step(g, st, k))
  {
    match st.tasks[k]
    case Push(_, _) => PushPreserves(g, s, st, k);
    case Relax(_, _, None) => ReadPreserves(g, s, st, k);
    case Relax(_, _, Some(_)) => SwapPreserves(g, s, st, k);
  }

  lemma {:induction false} RunInv(g: Graph, s: nat, run: seq<State>, n: nat)
    requires IsRun(g, s, run) && n < |run|
    ensures Inv(g, s, run[n])
  {
    if n == 0 {
      InitEstablishes(g, s, run[0]);
    } else {
      RunInv(g, s, run, n - 1);
      assert Next(g, run[n - 1], run[n]);
      var k: nat :| k < |run[n - 1].tasks| && run[n] == Step(g, run[n - 1], k);
      StepPreserves(g, s, run[n - 1], k);
    }
  }

  // ---------------------------------------------------------------- results

  /** In no reachable state is a label below the true distance. */
  lemma NeverBelow(g: Graph, s: nat, run: seq<State>, n: nat, v: nat, k: nat)
    requires IsRun(g, s, run) && n < |run| && v < g.nodes && AtLevel(g, s, v, k)
    ensures |run[n].labels| == g.nodes && (run[n].labels[v] >= k || run[n].labels[v] == DIST_INFINITY)
  {
    RunInv(g, s, run, n);
    assert LabelOk(g, s, run[n], v);
  }

  lemma {:induction false} NotAbove(g: Graph, s: nat, st: State, v: nat, k: nat)
    requires Inv(g, s, st) && st.tasks == [] && v < g.nodes && AtLevel(g, s, v, k)
    ensures st.labels[v] <= k || st.labels[v] == DIST_INFINITY <= k
    decreases k
  {
    if k > 0 {
      var i := LastEdge(g, s, v, k - 1);
      NotAbove(g, s, st, g.edges[i].src, k - 1);
      assert EdgeOk(g, st, i) && LabelOk(g, s, st, v);
    }
  }

  /** When the worklist is empty every label is the distance, or infinity for a node that cannot be
      reached or is that far away. */
  lemma BfsCorrect(g: Graph, s: nat, run: seq<State>, v: nat)
    requires IsRun(g, s, run) && run[|run| - 1].tasks == [] && v < g.nodes
    ensures |run[|run| - 1].labels| == g.nodes
    ensures forall k: nat :: AtLevel(g, s, v, k) ==>
              run[|run| - 1].labels[v] == if k < DIST_INFINITY then k else DIST_INFINITY
    ensures !Reachable(g, s, v) ==> run[|run| - 1].labels[v] == DIST_INFINITY
  {
    var st := run[|run| - 1];
    RunInv(g, s, run, |run| - 1);
    assert LabelOk(g, s, st, v);
    forall k: nat | AtLevel(g, s, v, k) ensures st.labels[v] == if k < DIST_INFINITY then k else DIST_INFINITY {
      NotAbove(g, s, st, v, k);
    }
    if st.labels[v] < DIST_INFINITY {
      var l := LevelBelow(g, s, v, st.labels[v]);
    }
  }

  // ---------------------------------------------------------------- termination

  function Total(l: seq<nat>): nat {
    if l == [] then 0 else Total(l[..|l| - 1]) + l[|l| - 1]
  }

  /** How many more accesses the task can make while no label changes; one whose reading is out of
      date must read again. */
  function Weight(g: Graph, labels: seq<nat>, t: Task): nat
    requires ValidGraph(g) && |labels| == g.nodes && ValidTask(g, t)
  {
    match t
    case Push(n, dist) => 1 + 2 * |Out(g, n, dist, |g.edges|)|
    case Relax(_, _, None) => 2
    case Relax(e, _, Some(seen)) => if labels[g.edges[e].dst] == seen then 1 else 3
  }

  function Work(g: Graph, labels: seq<nat>, tasks: seq<Task>): nat
    requires ValidGraph(g) && |labels| == g.nodes && forall k :: 0 <= k < |tasks| ==> ValidTask(g, tasks[k])
  {
    if tasks == [] then 0 else Work(g, labels, tasks[..|tasks| - 1]) + Weight(g, labels, tasks[|tasks| - 1])
  }

  lemma {:induction false} TotalUpdate(l: seq<nat>, v: nat, x: nat)
    requires v < |l|
    ensures Total(l[v := x]) == Total(l) - l[v] + x
  {
    var n := |l| - 1;
    if v == n {
      assert l[v := x][..n] == l[..n];
    } else {
      TotalUpdate(l[..n], v, x);
      assert l[v := x][..n] == l[..n][v := x];
    }
  }

  lemma {:induction false} WorkConcat(g: Graph, labels: seq<nat>, a: seq<Task>, b: seq<Task>)
    requires ValidGraph(g) && |labels| == g.nodes
    requires (forall k :: 0 <= k < |a| ==> ValidTask(g, a[k])) && (forall k :: 0 <= k < |b| ==> ValidTask(g, b[k]))
    ensures Work(g, labels, a + b) == Work(g, labels, a) + Work(g, labels, b)
  {
    if b == [] {
      assert a + b == a;
    } else {
      var b' := b[..|b| - 1];
      WorkConcat(g, labels, a, b');
      assert (a + b)[..|a + b| - 1] == a + b';
    }
  }

  lemma WorkAround(g: Graph, labels: seq<nat>, tasks: seq<Task>, k: nat)
    requires ValidGraph(g) && |labels| == g.nodes && (forall j :: 0 <= j < |tasks| ==> ValidTask(g, tasks[j])) && k < |tasks|
    ensures Work(g, labels, tasks) == Work(g, labels, Without(tasks, k)) + Weight(g, labels, tasks[k])
  {
    var a, t, b := tasks[..k], [tasks[k]], tasks[k + 1..];
    assert tasks == a + t + b;
    WorkConcat(g, labels, a + t, b);
    WorkConcat(g, labels, a, t);
    WorkConcat(g, labels, a, b);
  }

  lemma {:induction false} OutWork(g: Graph, labels: seq<nat>, n: nat, dist: nat, upto: nat)
    requires ValidGraph(g) && |labels| == g.nodes && upto <= |g.edges|
    ensures Work(g, labels, Out(g, n, dist, upto)) == 2 * |Out(g, n, dist, upto)|
  {
    if upto > 0 {
      OutWork(g, labels, n, dist, upto - 1);
      var last := if g.edges[upto - 1].src == n then [Relax(upto - 1, dist, None)] else [];
      WorkConcat(g, labels, Out(g, n, dist, upto - 1), last);
      assert Work(g, labels, last) == 2 * |last|;
    }
  }

  ghost predicate Smaller(g: Graph, st: State, st': State)
    requires Shape(g, st) && Shape(g, st')
  {
    || Total(st'.labels) < Total(st.labels)
    || (st'.labels == st.labels && Work(g, st.labels, st'.tasks) < Work(g, st.labels, st.tasks))
  }

  /** Every step lowers a label or uses up work that only a lowered label can renew. */
  lemma StepDecreases(g: Graph, s: nat, st: State, k: nat)
    requires Inv(g, s, st) && k < |st.tasks|
    ensures Shape(g, Step(g, st, k)) && Smaller(g, st, Step(g, st, k))
  {
    var st', t := Step(g, st, k), st.tasks[k];
    StepPreserves(g, s, st, k);
    assert TaskOk(g, s, t);
    WorkAround(g, st.labels, st.tasks, k);
    if t.Push? {
      OutWork(g, st.labels, t.node, t.dist, |g.edges|);
      WorkConcat(g, st.labels, Without(st.tasks, k), Out(g, t.node, t.dist, |g.edges|));
    } else if t.read.Some? && st.labels[g.edges[t.edge].dst] == t.read.value {
      TotalUpdate(st.labels, g.edges[t.edge].dst, t.dist);
    } else if |st'.tasks| == |st.tasks| {
      WorkAround(g, st.labels, st'.tasks, k);
      assert Without(st'.tasks, k) == Without(st.tasks, k);
    }
  }

  /** The loop ends: no infinite sequence of states has a step between each and the next. */
  lemma {:induction false} Terminates(g: Graph, s: nat, f: nat -> State, n: nat)
    requires Inv(g, s, f(n))
    ensures exists m: nat :: m >= n && !Next(g, f(m), f(m + 1))
    decreases Total(f(n).labels), Work(g, f(n).labels, f(n).tasks)
  {
    if Next(g, f(n), f(n + 1)) {
      var k: nat :| k < |f(n).tasks| && f(n + 1) == Step(g, f(n), k);
      StepPreserves(g, s, f(n), k);
      StepDecreases(g, s, f(n), k);
      Terminates(g, s, f, n + 1);
    }
  }

  /** A state in which nothing can happen is one with an empty worklist. */
  lemma StopsOnlyWhenEmpty(g: Graph, st: State)
    requires Shape(g, st) && !exists st' :: Next(g, st, st')
    ensures st.tasks == []
  {
    if st.tasks != [] {
      assert Next(g, st, Step(g, st, 0));
    }
  }
}
