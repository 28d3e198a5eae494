/**
 The levelled computation of betweenness centrality comes to an end: no run is infinite, a run stops
 nowhere but in its final phase, and every run can be continued to that phase.
 */
module BrandesProgress {
  import opened Sets
  import opened Reals
  import opened PathCounts
  import opened ShortestPaths
  import opened Brandes

  // ---------------------------------------------------------------- the measure

  function PhaseRank(phase: Phase): nat {
    match phase
    case Forward => 2
    case Backward => 1
    case Finished => 0
  }

  /** Levels still to come in this phase. */
  function LevelRank(g: Graph, st: State): nat {
    match st.phase
    case Forward => if st.level < g.nodes then g.nodes - st.level else 0
    case Backward => st.level
    case Finished => 0
  }

  function EdgeWork(pc: EdgePc): nat {
    match pc
    case Todo => 3
    case Cas => 2
    case Adding => 1
    case Done => 0
  }

  function EdgesWork(pc: seq<EdgePc>): nat {
    if pc == [] then 0 else EdgesWork(pc[..|pc| - 1]) + EdgeWork(pc[|pc| - 1])
  }

  /** Steps still to come on this level. */
  function LevelWork(g: Graph, st: State): nat {
    EdgesWork(st.pc) + if |st.processed| <= g.nodes then g.nodes - |st.processed| else 0
  }

  predicate Smaller(g: Graph, st: State, st': State) {
    || PhaseRank(st'.phase) < PhaseRank(st.phase)
    || (st'.phase == st.phase && LevelRank(g, st') < LevelRank(g, st))
    || (st'.phase == st.phase && LevelRank(g, st') == LevelRank(g, st) && LevelWork(g, st') < LevelWork(g, st))
  }

  lemma {:induction false} EdgesWorkUpdate(pc: seq<EdgePc>, i: nat, e: EdgePc)
    requires i < |pc|
    ensures EdgesWork(pc[i := e]) == EdgesWork(pc) - EdgeWork(pc[i]) + EdgeWork(e)
  {
    var pc' := pc[i := e];
    if i == |pc| - 1 {
      assert pc'[..|pc| - 1] == pc[..|pc| - 1];
    } else {
      EdgesWorkUpdate(pc[..|pc| - 1], i, e);
      assert pc'[..|pc| - 1] == pc[..|pc| - 1][i := e];
    }
  }

  lemma LevelInRange(g: Graph, s: nat, st: State, bc: seq<real>)
    requires ForwardInv(g, s, st, bc)
    ensures st.level < g.nodes
  {
    assert Lists(g, s, st.stack[st.level], st.level);
    var v := st.stack[st.level][0];
    assert v in st.stack[st.level];
    LevelBound(g, s, v, st.level);
  }

  lemma ForwardDecreases(g: Graph, s: nat, st: State, st': State, bc: seq<real>, i: nat)
    requires ForwardInv(g, s, st, bc) && Inv(g, s, st', bc) && Step(g, st, st', i)
    ensures Smaller(g, st, st')
  {
    LevelInRange(g, s, st, bc);
    if EndLevel(g, st, st') {
      if st'.phase == Forward {
        LevelInRange(g, s, st', bc);
      }
    } else {
      EdgesWorkUpdate(st.pc, i, st'.pc[i]);
    }
  }

  lemma BackwardDecreases(g: Graph, s: nat, st: State, st': State, bc: seq<real>, i: nat)
    requires BackwardInv(g, s, st, bc) && Step(g, st, st', i)
    ensures Smaller(g, st, st')
  {
    if Contribute(g, st, st', i) {
      EdgesWorkUpdate(st.pc, i, Done);
    } else if Finish(g, st, st', i) {
      assert Lists(g, s, st.stack[st.level], st.level);
      assert st'.processed <= Below(g.nodes);
      SubsetCard(st'.processed, Below(g.nodes));
    }
  }

  /** Every step lowers the phase, the levels to come or the work left on the level. */
  lemma StepDecreases(g: Graph, s: nat, st: State, st': State, bc: seq<real>, i: nat)
    requires Shape(g, st) && Inv(g, s, st, bc) && Step(g, st, st', i)
    ensures Smaller(g, st, st')
  {
    StepPreserves(g, s, st, st', bc, i);
    if st.phase == Forward {
      ForwardDecreases(g, s, st, st', bc, i);
    } else {
      BackwardDecreases(g, s, st, st', bc, i);
    }
  }

  /** No infinite sequence of states has a step between each and the next. */
  lemma {:induction false} Terminates(g: Graph, s: nat, f: nat -> State, n: nat, bc: seq<real>)
    requires Inv(g, s, f(n), bc)
    ensures exists m: nat :: m >= n && !Next(g, f(m), f(m + 1))
    decreases PhaseRank(f(n).phase), LevelRank(g, f(n)), LevelWork(g, f(n))
  {
    if Next(g, f(n), f(n + 1)) {
      var i: nat :| Step(g, f(n), f(n + 1), i);
      StepPreserves(g, s, f(n), f(n + 1), bc, i);
      StepDecreases(g, s, f(n), f(n + 1), bc, i);
      Terminates(g, s, f, n + 1, bc);
    }
  }

  // ---------------------------------------------------------------- nothing is stuck

  /** On the way back an edge has been looked along or it has not. */
  predicate NoneHalfway(st: State) {
    st.phase == Backward ==> forall i :: 0 <= i < |st.pc| ==> st.pc[i] == Todo || st.pc[i] == Done
  }

  lemma StepKeepsHalves(g: Graph, st: State, st': State, i: nat)
    requires Shape(g, st) && NoneHalfway(st) && Step(g, st, st', i)
    ensures NoneHalfway(st')
  {
  }

  lemma NextKeepsHalves(g: Graph, st: State, st': State)
    requires NoneHalfway(st) && Next(g, st, st')
    ensures NoneHalfway(st')
  {
    var i: nat :| Step(g, st, st', i);
    StepKeepsHalves(g, st, st', i);
  }

  lemma EdgeMoves(g: Graph, st: State, i: nat) returns (st': State)
    requires Shape(g, st) && st.phase == Forward && OnLevel(g, st, i) && st.pc[i] != Done
    ensures Next(g, st, st')
  {
    var v, next := g.edges[i].dst, st.level + 1;
    if st.pc[i] == Todo {
      var d := st.dist[v];
      st' := st.(pc := st.pc[i := if d == INFINITY then Cas else if d == next then Adding else Done]);
    } else if st.pc[i] == Cas {
      st' := if st.dist[v] == INFINITY then
               st.(pc := st.pc[i := Adding], dist := st.dist[v := next], stack := st.stack[next := st.stack[next] + [v]])
             else st.(pc := st.pc[i := Adding]);
    } else {
      st' := st.(pc := st.pc[i := Done], sigma := st.sigma[v := st.sigma[v] + st.sigma[g.edges[i].src]]);
    }
    assert Step(g, st, st', i);
  }

  lemma ForwardMoves(g: Graph, st: State) returns (st': State)
    requires Shape(g, st) && st.phase == Forward
    ensures Next(g, st, st')
  {
    if i: nat :| i < |g.edges| && OnLevel(g, st, i) && st.pc[i] != Done {
      st' := EdgeMoves(g, st, i);
    } else {
      st' := if st.stack[st.level + 1] != [] then
               st.(level := st.level + 1, stack := st.stack + [[]], pc := AllTodo(g))
             else if |st.stack| >= 3 && |st.stack| - 3 > 0 then
               st.(level := |st.stack| - 3, phase := Backward, pc := AllTodo(g))
             else
               st.(phase := Finished);
      assert EndLevel(g, st, st');
      assert Step(g, st, st', 0);
    }
  }

  /** A node of the level that is not finished looks along another edge, or finishes. */
  lemma NodeMoves(g: Graph, st: State, n: nat) returns (st': State)
    requires Shape(g, st) && NoneHalfway(st) && st.phase == Backward
    requires n < g.nodes && n in st.stack[st.level] && n !in st.processed
    ensures Next(g, st, st')
  {
    if i: nat :| i < |g.edges| && OnLevel(g, st, i) && g.edges[i].src == n && st.pc[i] != Done {
      var v := g.edges[i].dst;
      var more := if st.dist[v] == st.level + 1 then Brandes.Quotient(1.0 + st.dep[v], st.sigma[v]) else 0.0;
      st' := st.(pc := st.pc[i := Done], dep := st.dep[n := st.dep[n] + more]);
      assert Contribute(g, st, st', i);
      assert Step(g, st, st', i);
    } else {
      var d := Times(st.sigma[n], st.dep[n]);
      st' := st.(dep := st.dep[n := d], bc := st.bc[n := st.bc[n] + d], processed := st.processed + {n});
      assert Finish(g, st, st', n);
      assert Step(g, st, st', n);
    }
  }

  lemma BackwardMoves(g: Graph, s: nat, st: State, bc: seq<real>) returns (st': State)
    requires BackwardInv(g, s, st, bc) && NoneHalfway(st)
    ensures Next(g, st, st')
  {
    if n :| n in st.stack[st.level] && n !in st.processed {
      assert Lists(g, s, st.stack[st.level], st.level);
      st' := NodeMoves(g, st, n);
    } else {
      st' := if st.level - 1 > 0 then st.(level := st.level - 1, pc := AllTodo(g), processed := {})
             else st.(level := 0, phase := Finished);
      assert EndBackLevel(g, st, st');
      assert Step(g, st, st', 0);
    }
  }

  lemma Moves(g: Graph, s: nat, st: State, bc: seq<real>) returns (st': State)
    requires Inv(g, s, st, bc) && NoneHalfway(st) && st.phase != Finished
    ensures Next(g, st, st')
  {
    if st.phase == Forward {
      st' := ForwardMoves(g, st);
    } else {
      st' := BackwardMoves(g, s, st, bc);
    }
  }

  lemma {:induction false} RunHalves(g: Graph, s: nat, run: seq<State>, k: nat)
    requires IsRun(g, s, run) && k < |run|
    ensures NoneHalfway(run[k])
  {
    if k > 0 {
      RunHalves(g, s, run, k - 1);
      NextKeepsHalves(g, run[k - 1], run[k]);
    }
  }

  /** A run can go on exactly as long as it is not finished. */
  lemma StopsOnlyWhenFinished(g: Graph, s: nat, run: seq<State>, k: nat)
    requires IsRun(g, s, run) && g.nodes <= INFINITY && k < |run|
    ensures (exists st': State :: Next(g, run[k], st')) <==> run[k].phase != Finished
  {
    RunInv(g, s, run, k);
    RunHalves(g, s, run, k);
    if run[k].phase != Finished {
      var st' := Moves(g, s, run[k], run[0].bc);
    }
  }

  /** A run that is not finished has a continuation that is nearer to its end. */
  lemma GoesOn(g: Graph, s: nat, run: seq<State>) returns (st': State)
    requires IsRun(g, s, run) && g.nodes <= INFINITY && run[|run| - 1].phase != Finished
    ensures IsRun(g, s, run + [st']) && Smaller(g, run[|run| - 1], st')
  {
    var st := run[|run| - 1];
    RunInv(g, s, run, |run| - 1);
    RunHalves(g, s, run, |run| - 1);
    st' := Moves(g, s, st, run[0].bc);
    NextDecreases(g, s, st, st', run[0].bc);
    ExtendRun(g, s, run, st');
  }

  lemma NextDecreases(g: Graph, s: nat, st: State, st': State, bc: seq<real>)
    requires Inv(g, s, st, bc) && Next(g, st, st')
    ensures Smaller(g, st, st')
  {
    var i: nat :| Step(g, st, st', i);
    StepDecreases(g, s, st, st', bc, i);
  }

  /** Every run can be continued until it is finished. */
  lemma {:induction false} CanFinish(g: Graph, s: nat, run: seq<State>) returns (run': seq<State>)
    requires IsRun(g, s, run) && g.nodes <= INFINITY
    ensures IsRun(g, s, run') && run <= run' && run'[|run'| - 1].phase == Finished
    decreases PhaseRank(run[|run| - 1].phase), LevelRank(g, run[|run| - 1]), LevelWork(g, run[|run| - 1])
  {
    if run[|run| - 1].phase == Finished {
      run' := run;
    } else {
      var st' := GoesOn(g, s, run);
      run' := CanFinish(g, s, run + [st']);
    }
  }

  lemma ExtendRun(g: Graph, s: nat, run: seq<State>, st': State)
    requires IsRun(g, s, run) && Next(g, run[|run| - 1], st')
    ensures IsRun(g, s, run + [st'])
  {
    var run' := run + [st'];
    forall k | 0 <= k < |run'| - 1 ensures Next(g, run'[k], run'[k + 1]) {
      if k < |run| - 1 {
        assert Next(g, run[k], run[k + 1]);
      }
    }
  }
}
