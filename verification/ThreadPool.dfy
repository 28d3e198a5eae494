/**
 The thread pool: a parallel section is started by waking the threads along a binary tree and ends
 when the tree has reported back. The tree is described first, then all runs of the pool, in which
 every thread moves at its own pace and one parallel section follows another without end.
 */
module ThreadPool {
  import opened Measures
  import opened Powers

  // ---------------------------------------------------------------- the tree

  /** A thread that is to wake `[b, e)` wakes `b`, which gets the part below the midpoint, and then
      the midpoint, if it is below `e`, which gets the part above; the two parts are of one size, or
      the first is larger by one. */
  function Mid(b: nat, e: nat): nat
    requires b <= e
  {
    b + (1 + e - b) / 2
  }

  lemma EvenSplit(b: nat, e: nat)
    requires b <= e
    ensures b <= Mid(b, e) <= e && 0 <= (Mid(b, e) - b) - (e - Mid(b, e)) <= 1
  {
  }

  /** The threads woken, directly or not, for the range `[b, e)`. */
  function Woken(b: nat, e: nat): seq<nat>
    requires b <= e
    decreases e - b
  {
    if b == e then []
    else [b] + Woken(b + 1, Mid(b, e)) + if Mid(b, e) < e then [Mid(b, e)] + Woken(Mid(b, e) + 1, e) else []
  }

  /** The height of the wake-up tree over `[b, e)`. A thread wakes its two children one after the other. */
  function Depth(b: nat, e: nat): nat
    requires b <= e
    decreases e - b
  {
    if b == e then 0
    else
      var left := Depth(b + 1, Mid(b, e));
      var right := if Mid(b, e) < e then Depth(Mid(b, e) + 1, e) else 0;
      1 + if left >= right then left else right
  }

  /** Each thread of the range is woken exactly once. */
  lemma {:induction false} WokenOnce(b: nat, e: nat)
    requires b <= e
    ensures |Woken(b, e)| == e - b
    ensures forall i :: 0 <= i < e - b ==> Woken(b, e)[i] == b + i
    decreases e - b
  {
    if b < e {
      var m := Mid(b, e);
      WokenOnce(b + 1, m);
      if m < e {
        WokenOnce(m + 1, e);
      }
    }
  }

  /** The depth is at most the logarithm of the number of threads woken, plus one. */
  lemma {:induction false} DepthLogarithmic(b: nat, e: nat)
    requires b <= e
    ensures Pow2(Depth(b, e)) <= e - b + 1
    decreases e - b
  {
    if b < e {
      var m := Mid(b, e);
      DepthLogarithmic(b + 1, m);
      if m < e {
        DepthLogarithmic(m + 1, e);
      }
    }
  }

  // ---------------------------------------------------------------- the pool

  datatype Pc = Waiting | Cascade1 | Cascade2 | Working | Wait1 | Wait2 | Finish

  /** A thread's box: the end of its range, which always begins at the next thread, its `done`
      flag, and the parallel sections in which it has executed the work. */
  datatype Thread = Thread(pc: Pc, wend: nat, done: bool, jobs: seq<nat>)

  datatype State = State(threads: seq<Thread>, section: nat, num: nat, running: bool)

  predicate Init(st: State) {
    && |st.threads| >= 1 && !st.running && st.section == 0 && st.num == 1
    && forall t :: 0 <= t < |st.threads| ==> st.threads[t].pc == Waiting && st.threads[t].done && st.threads[t].jobs == []
  }

  /** The master begins a section; the number of threads is brought into range. */
  predicate Start(st: State, st': State, num: nat) {
    && |st.threads| >= 1 && !st.running
    && var n := if num < 1 then 1 else if num > |st.threads| then |st.threads| else num;
       st' == State(st.threads[0 := st.threads[0].(pc := Cascade1, wend := n)], st.section + 1, n, true)
  }

  predicate Shape(st: State) {
    1 <= st.num <= |st.threads| &&
    forall t: nat :: t < |st.threads| && st.threads[t].pc != Waiting ==> t < st.threads[t].wend <= |st.threads|
  }

  /** Thread `t` can make its next step: it is not waiting for a flag. */
  predicate CanAct(st: State, t: nat)
    requires Shape(st)
  {
    && t < |st.threads|
    && var th := st.threads[t];
       match th.pc
       case Waiting => t > 0 && !th.done && t < th.wend <= |st.threads|
       case Cascade1 => true
       case Cascade2 => Mid(t + 1, th.wend) < th.wend
       case Working => true
       case Wait1 => t + 1 < th.wend && st.threads[t + 1].done
       case Wait2 => Mid(t + 1, th.wend) < th.wend && st.threads[Mid(t + 1, th.wend)].done
       case Finish => true
  }

  function WakeUp(th: Thread, end: nat): Thread {
    th.(wend := end, done := false)
  }

  function Act(st: State, t: nat): State
    requires Shape(st) && CanAct(st, t)
  {
    var th := st.threads[t];
    var b, e := t + 1, th.wend;
    var m := Mid(b, e);
    match th.pc
    case Waiting => st.(threads := st.threads[t := th.(pc := Cascade1)])
    case Cascade1 =>
      if b == e then st.(threads := st.threads[t := th.(pc := Working)])
      else st.(threads := st.threads[t := th.(pc := if m < e then Cascade2 else Working)]
                                    [b := WakeUp(st.threads[b], m)])
    case Cascade2 => st.(threads := st.threads[t := th.(pc := Working)][m := WakeUp(st.threads[m], e)])
    case Working => st.(threads := st.threads[t := th.(pc := if b == e then Finish else Wait1, jobs := th.jobs + [st.section])])
    case Wait1 => st.(threads := st.threads[t := th.(pc := if m < e then Wait2 else Finish)])
    case Wait2 => st.(threads := st.threads[t := th.(pc := Finish)])
    case Finish =>
      State(st.threads[t := th.(pc := Waiting, done := true)], st.section, st.num, st.running && t != 0)
  }

  ghost predicate Next(st: State, st': State) {
    Shape(st) && ((exists num: nat :: Start(st, st', num)) || exists t: nat :: CanAct(st, t) && st' == Act(st, t))
  }

  ghost predicate IsRun(run: seq<State>) {
    run != [] && Init(run[0]) && forall k :: 0 <= k < |run| - 1 ==> Next(run[k], run[k + 1])
  }

  // ---------------------------------------------------------------- the invariant

  predicate Asleep(th: Thread) {
    th.pc == Waiting && th.done
  }

  /** The thread has executed the work of section `s`. */
  predicate Worked(th: Thread, s: nat) {
    th.jobs != [] && th.jobs[|th.jobs| - 1] == s
  }

  predicate Fresh(threads: seq<Thread>, s: nat, lo: nat, hi: nat)
    requires hi <= |threads|
  {
    forall u :: lo <= u < hi ==> Asleep(threads[u]) && !Worked(threads[u], s)
  }

  predicate Finished(threads: seq<Thread>, s: nat, lo: nat, hi: nat)
    requires hi <= |threads|
  {
    forall u :: lo <= u < hi ==> Asleep(threads[u]) && Worked(threads[u], s)
  }

  /** The state of the subtree `[t, e)` whose root has been woken in section `s`. */
  predicate Subtree(threads: seq<Thread>, s: nat, t: nat, e: nat)
    requires t < e <= |threads|
    decreases e - t
  {
    var th, m := threads[t], Mid(t + 1, e);
    if Asleep(th) then Finished(threads, s, t, e)
    else
      && th.wend == e && (t > 0 ==> !th.done) && (Worked(th, s) <==> th.pc == Wait1 || th.pc == Wait2 || th.pc == Finish)
      && match th.pc
         case Waiting => Fresh(threads, s, t + 1, e)
         case Cascade1 => Fresh(threads, s, t + 1, e)
         case Cascade2 => m < e && Subtree(threads, s, t + 1, m) && Fresh(threads, s, m, e)
         case Working =>
           (t + 1 < e ==> Subtree(threads, s, t + 1, m)) && (m < e ==> Subtree(threads, s, m, e))
         case Wait1 =>
           t + 1 < e && Subtree(threads, s, t + 1, m) && (m < e ==> Subtree(threads, s, m, e))
         case Wait2 => m < e && Finished(threads, s, t + 1, m) && Subtree(threads, s, m, e)
         case Finish => Finished(threads, s, t + 1, e)
  }

  predicate Children(threads: seq<Thread>, s: nat, t: nat, e: nat)
    requires t < e <= |threads|
  {
    var m := Mid(t + 1, e);
    (t + 1 < e ==> Subtree(threads, s, t + 1, m)) && (m < e ==> Subtree(threads, s, m, e))
  }

  predicate JobsOk(jobs: seq<nat>, s: nat) {
    && (forall i, j :: 0 <= i < j < |jobs| ==> jobs[i] < jobs[j])
    && (forall i :: 0 <= i < |jobs| ==> 1 <= jobs[i] <= s)
  }

  predicate Inv(st: State) {
    && Shape(st)
    && (forall t :: 0 <= t < |st.threads| ==> JobsOk(st.threads[t].jobs, st.section))
    && Fresh(st.threads, st.section, st.num, |st.threads|)
    && (st.running ==> st.section >= 1)
    && if st.running then !Asleep(st.threads[0]) && st.threads[0].pc != Waiting && Subtree(st.threads, st.section, 0, st.num)
       else (forall t :: 0 <= t < |st.threads| ==> Asleep(st.threads[t])) &&
            (st.section > 0 ==> Finished(st.threads, st.section, 0, st.num))
  }

  // ---------------------------------------------------------------- preservation

  predicate SameOutside(a: seq<Thread>, b: seq<Thread>, lo: nat, hi: nat) {
    |a| == |b| && forall u :: 0 <= u < |a| && !(lo <= u < hi) ==> a[u] == b[u]
  }

  /** A subtree depends only on its own threads. */
  lemma {:induction false} SubtreeFrame(a: seq<Thread>, b: seq<Thread>, s: nat, t: nat, e: nat)
    requires t < e <= |a| == |b| && Subtree(a, s, t, e) && forall u :: t <= u < e ==> a[u] == b[u]
    ensures Subtree(b, s, t, e)
    decreases e - t
  {
    var m := Mid(t + 1, e);
    if !Asleep(a[t]) {
      if a[t].pc == Cascade2 || ((a[t].pc == Working || a[t].pc == Wait1) && t + 1 < e) {
        SubtreeFrame(a, b, s, t + 1, m);
      }
      if (a[t].pc == Wait2 || a[t].pc == Working || a[t].pc == Wait1) && m < e {
        SubtreeFrame(a, b, s, m, e);
      }
    }
  }

  lemma ChildrenFrame(a: seq<Thread>, b: seq<Thread>, s: nat, t: nat, e: nat)
    requires t < e <= |a| == |b| && Children(a, s, t, e) && forall u :: t < u < e ==> a[u] == b[u]
    ensures Children(b, s, t, e)
  {
    var m := Mid(t + 1, e);
    if t + 1 < e {
      SubtreeFrame(a, b, s, t + 1, m);
    }
    if m < e {
      SubtreeFrame(a, b, s, m, e);
    }
  }

  /** The root of a subtree wakes its first child. */
  lemma RootCascades(st: State, t: nat, e: nat)
    requires Shape(st) && t < e <= |st.threads| && Subtree(st.threads, st.section, t, e)
    requires st.threads[t].pc == Cascade1
    ensures Subtree(Act(st, t).threads, st.section, t, e)
    ensures SameOutside(st.threads, Act(st, t).threads, t, e)
  {
    if t + 1 < e {
      assert Subtree(Act(st, t).threads, st.section, t + 1, Mid(t + 1, e));
    }
  }

  /** The root of a subtree wakes its second child, or does its work. */
  lemma RootWorks(st: State, t: nat, e: nat)
    requires Shape(st) && t < e <= |st.threads| && Subtree(st.threads, st.section, t, e) && CanAct(st, t)
    requires st.threads[t].pc == Cascade2 || st.threads[t].pc == Working
    ensures Subtree(Act(st, t).threads, st.section, t, e)
    ensures SameOutside(st.threads, Act(st, t).threads, t, e)
  {
    var a, b, m := st.threads, Act(st, t).threads, Mid(t + 1, e);
    if a[t].pc == Cascade2 {
      SubtreeFrame(a, b, st.section, t + 1, m);
      assert Subtree(b, st.section, m, e);
    } else {
      ChildrenFrame(a, b, st.section, t, e);
    }
  }

  /** A child that is done is asleep again and has finished. */
  lemma RootWaits(st: State, t: nat, e: nat)
    requires Shape(st) && t < e <= |st.threads| && Subtree(st.threads, st.section, t, e) && CanAct(st, t)
    requires st.threads[t].pc == Wait1 || st.threads[t].pc == Wait2
    ensures Subtree(Act(st, t).threads, st.section, t, e)
    ensures SameOutside(st.threads, Act(st, t).threads, t, e)
  {
    var a, b, m := st.threads, Act(st, t).threads, Mid(t + 1, e);
    if a[t].pc == Wait1 {
      assert Subtree(a, st.section, t + 1, m);
      assert Asleep(a[t + 1]);
      if m < e {
        SubtreeFrame(a, b, st.section, m, e);
      }
    } else {
      assert Asleep(a[m]);
    }
  }

  /** The root of a subtree moves: the subtree stays in order and nothing outside it changes. */
  lemma RootStep(st: State, t: nat, e: nat)
    requires Shape(st) && t < e <= |st.threads| && Subtree(st.threads, st.section, t, e)
    requires CanAct(st, t) && !Asleep(st.threads[t])
    ensures Subtree(Act(st, t).threads, st.section, t, e)
    ensures SameOutside(st.threads, Act(st, t).threads, t, e)
  {
    match st.threads[t].pc
    case Cascade1 => RootCascades(st, t, e);
    case Cascade2 | Working => RootWorks(st, t, e);
    case Wait1 | Wait2 => RootWaits(st, t, e);
    case _ =>
  }

  /** The left subtree has moved, the rest has not. */
  lemma LeftMoved(a: seq<Thread>, b: seq<Thread>, s: nat, t: nat, e: nat)
    requires t + 1 < e <= |a| == |b| && Subtree(a, s, t, e) && !Asleep(a[t])
    requires a[t].pc == Cascade2 || a[t].pc == Working || a[t].pc == Wait1
    requires Subtree(b, s, t + 1, Mid(t + 1, e)) && SameOutside(a, b, t + 1, Mid(t + 1, e))
    ensures Subtree(b, s, t, e) && SameOutside(a, b, t, e)
  {
    var m := Mid(t + 1, e);
    if m < e && a[t].pc != Cascade2 {
      assert Children(a, s, t, e);
      SubtreeFrame(a, b, s, m, e);
    }
  }

  /** The right subtree has moved, the rest has not. */
  lemma RightMoved(a: seq<Thread>, b: seq<Thread>, s: nat, t: nat, e: nat)
    requires t + 1 < e <= |a| == |b| && Mid(t + 1, e) < e && Subtree(a, s, t, e) && !Asleep(a[t])
    requires a[t].pc == Wait2 || a[t].pc == Working || a[t].pc == Wait1
    requires Subtree(b, s, Mid(t + 1, e), e) && SameOutside(a, b, Mid(t + 1, e), e)
    ensures Subtree(b, s, t, e) && SameOutside(a, b, t, e)
  {
    if a[t].pc != Wait2 {
      assert Children(a, s, t, e);
      SubtreeFrame(a, b, s, t + 1, Mid(t + 1, e));
    }
  }

  /** An active thread below the root is in a subtree that has been woken. */
  lemma WhichChild(st: State, x: nat, t: nat, e: nat)
    requires t < x < e <= |st.threads| && Subtree(st.threads, st.section, t, e) && !Asleep(st.threads[x])
    ensures !Asleep(st.threads[t])
    ensures var m, pc := Mid(t + 1, e), st.threads[t].pc;
            if x < m then Subtree(st.threads, st.section, t + 1, m) && (pc == Cascade2 || pc == Working || pc == Wait1)
            else Subtree(st.threads, st.section, m, e) && (pc == Wait2 || pc == Working || pc == Wait1)
  {
    if st.threads[t].pc == Working || st.threads[t].pc == Wait1 {
      assert Asleep(st.threads[t]) || Children(st.threads, st.section, t, e);
    }
  }

  /** A thread inside a subtree moves. */
  lemma {:induction false} InnerStep(st: State, x: nat, t: nat, e: nat)
    requires Shape(st) && t <= x < e <= |st.threads| && Subtree(st.threads, st.section, t, e)
    requires CanAct(st, x) && !Asleep(st.threads[x])
    ensures Subtree(Act(st, x).threads, st.section, t, e)
    ensures SameOutside(st.threads, Act(st, x).threads, t, e)
    decreases e - t
  {
    var m := Mid(t + 1, e);
    if x == t {
      RootStep(st, t, e);
    } else {
      WhichChild(st, x, t, e);
      if x < m {
        InnerStep(st, x, t + 1, m);
        LeftMoved(st.threads, Act(st, x).threads, st.section, t, e);
      } else {
        InnerStep(st, x, m, e);
        RightMoved(st.threads, Act(st, x).threads, st.section, t, e);
      }
    }
  }

  lemma ActKeepsJobs(st: State, t: nat)
    requires Shape(st) && CanAct(st, t) && forall u :: 0 <= u < |st.threads| ==> JobsOk(st.threads[u].jobs, st.section)
    requires st.threads[t].pc == Working ==> !Worked(st.threads[t], st.section) && st.section >= 1
    ensures forall u :: 0 <= u < |st.threads| ==> JobsOk(Act(st, t).threads[u].jobs, st.section)
  {
    var jobs := st.threads[t].jobs;
    if st.threads[t].pc == Working {
      assert JobsOk(jobs, st.section);
      assert JobsOk(jobs + [st.section], st.section);
    }
  }

  /** Only a thread of the current section can move. */
  lemma ActorInSection(st: State, t: nat)
    requires Inv(st) && CanAct(st, t)
    ensures !Asleep(st.threads[t]) && st.running && t < st.num
  {
  }

  lemma ActKeepsShape(st: State, t: nat)
    requires Shape(st) && CanAct(st, t)
    ensures Shape(Act(st, t)) && |Act(st, t).threads| == |st.threads|
  {
  }

  lemma ActPreserves(st: State, t: nat)
    requires Inv(st) && CanAct(st, t)
    ensures Inv(Act(st, t))
  {
    ActorInSection(st, t);
    ActKeepsShape(st, t);
    SectionKnown(st, t);
    ActKeepsJobs(st, t);
    InnerStep(st, t, 0, st.num);
    RestAsleep(st, Act(st, t));
  }

  lemma RestAsleep(st: State, st': State)
    requires Shape(st) && st'.num == st.num && st'.section == st.section
    requires Fresh(st.threads, st.section, st.num, |st.threads|) && SameOutside(st.threads, st'.threads, 0, st.num)
    ensures Fresh(st'.threads, st'.section, st'.num, |st'.threads|)
  {
  }

  /** A thread at work has not done it yet in this section. */
  lemma SectionKnown(st: State, t: nat)
    requires Inv(st) && st.running && t < st.num && !Asleep(st.threads[t])
    ensures st.threads[t].pc == Working ==> !Worked(st.threads[t], st.section)
  {
    ActiveRoot(st, t, 0, st.num);
  }

  lemma {:induction false} ActiveRoot(st: State, x: nat, t: nat, e: nat)
    requires t <= x < e <= |st.threads| && Subtree(st.threads, st.section, t, e) && !Asleep(st.threads[x])
    ensures st.threads[x].pc == Working ==> !Worked(st.threads[x], st.section)
    decreases e - t
  {
    if x > t {
      WhichChild(st, x, t, e);
      if x < Mid(t + 1, e) {
        ActiveRoot(st, x, t + 1, Mid(t + 1, e));
      } else {
        ActiveRoot(st, x, Mid(t + 1, e), e);
      }
    }
  }

  lemma StartPreserves(st: State, st': State, num: nat)
    requires Inv(st) && Start(st, st', num)
    ensures Inv(st')
  {
    forall u | 0 <= u < |st.threads| ensures !Worked(st.threads[u], st'.section) {
      assert JobsOk(st.threads[u].jobs, st.section);
    }
  }

  lemma {:induction false} RunInv(run: seq<State>, k: nat)
    requires IsRun(run) && k < |run|
    ensures Inv(run[k])
  {
    if k > 0 {
      RunInv(run, k - 1);
      NextPreserves(run[k - 1], run[k]);
    }
  }

  lemma NextPreserves(st: State, st': State)
    requires Inv(st) && Next(st, st')
    ensures Inv(st')
  {
    if num: nat :| Start(st, st', num) {
      StartPreserves(st, st', num);
    } else {
      var t: nat :| CanAct(st, t) && st' == Act(st, t);
      ActPreserves(st, t);
    }
  }

  // ---------------------------------------------------------------- results

  /** When a section is over, each of its threads has executed the work in it exactly once and is
      asleep again, and no other thread has executed it. */
  lemma SectionComplete(run: seq<State>, k: nat, t: nat)
    requires IsRun(run) && k < |run| && !run[k].running && run[k].section > 0 && t < |run[k].threads|
    ensures Asleep(run[k].threads[t])
    ensures var jobs, s := run[k].threads[t].jobs, run[k].section;
            if t < run[k].num then jobs != [] && jobs[|jobs| - 1] == s && s !in jobs[..|jobs| - 1]
            else s !in jobs
  {
    RunInv(run, k);
    var th := run[k].threads[t];
    assert JobsOk(th.jobs, run[k].section);
  }

  /** A thread that executes the work does so while the section lasts. */
  lemma WorkInSection(run: seq<State>, k: nat, t: nat)
    requires IsRun(run) && k < |run| && t < |run[k].threads| && !Asleep(run[k].threads[t])
    ensures run[k].running && t < run[k].num
  {
    RunInv(run, k);
  }

  lemma {:induction false} SomeoneActs(st: State, t: nat, e: nat) returns (x: nat)
    requires Shape(st) && t < e <= |st.threads| && Subtree(st.threads, st.section, t, e)
    requires !Asleep(st.threads[t]) && (t == 0 ==> st.threads[t].pc != Waiting)
    ensures CanAct(st, x)
    decreases e - t
  {
    var m := Mid(t + 1, e);
    if CanAct(st, t) {
      x := t;
    } else if st.threads[t].pc == Wait1 {
      assert Subtree(st.threads, st.section, t + 1, m);
      x := SomeoneActs(st, t + 1, m);
    } else {
      x := SomeoneActs(st, m, e);
    }
  }

  // ---------------------------------------------------------------- sections end

  /** Steps that thread `th` still has to make in section `s`, its wake-up included. */
  function Rank(th: Thread, s: nat): nat {
    match th.pc
    case Waiting => if !th.done then 7 else if Worked(th, s) then 0 else 8
    case Cascade1 => 6
    case Cascade2 => 5
    case Working => 4
    case Wait1 => 3
    case Wait2 => 2
    case Finish => 1
  }

  function Ranks(st: State): seq<nat> {
    seq(|st.threads|, u requires 0 <= u < |st.threads| => Rank(st.threads[u], st.section))
  }

  function WorkLeft(st: State): nat {
    SumOf(Ranks(st))
  }

  /** What the invariant says about a thread that is about to act, and about the one it wakes. */
  predicate ActorOk(st: State, x: nat)
    requires Shape(st) && x < |st.threads|
  {
    var th := st.threads[x];
    var m := if x + 1 <= th.wend then Mid(x + 1, th.wend) else 0;
    && (th.pc == Finish ==> Worked(th, st.section))
    && (th.pc == Working ==> !Worked(th, st.section))
    && (th.pc == Cascade1 && x + 1 < th.wend ==> Asleep(st.threads[x + 1]) && !Worked(st.threads[x + 1], st.section))
    && (th.pc == Cascade2 && m < th.wend ==> Asleep(st.threads[m]) && !Worked(st.threads[m], st.section))
  }

  lemma {:induction false} ActorFacts(st: State, x: nat, t: nat, e: nat)
    requires Shape(st) && t <= x < e <= |st.threads| && Subtree(st.threads, st.section, t, e) && !Asleep(st.threads[x])
    ensures ActorOk(st, x)
    decreases e - t
  {
    if x > t {
      WhichChild(st, x, t, e);
      if x < Mid(t + 1, e) {
        ActorFacts(st, x, t + 1, Mid(t + 1, e));
      } else {
        ActorFacts(st, x, Mid(t + 1, e), e);
      }
    }
  }

  /** What a step changes: the thread that makes it and the one it wakes, if any. */
  lemma ActRanks(st: State, t: nat, c: nat)
    requires Shape(st) && CanAct(st, t) && c < |st.threads| && c != t
    requires forall u :: 0 <= u < |st.threads| && u != t && u != c ==> Act(st, t).threads[u] == st.threads[u]
    requires Rank(Act(st, t).threads[t], st.section) < Rank(st.threads[t], st.section)
    requires Rank(Act(st, t).threads[c], st.section) <= Rank(st.threads[c], st.section)
    ensures WorkLeft(Act(st, t)) < WorkLeft(st)
  {
    var st', r := Act(st, t), Ranks(st);
    var r1 := r[t := Rank(st'.threads[t], st.section)];
    SumUpdate(r, t, Rank(st'.threads[t], st.section));
    SumUpdate(r1, c, Rank(st'.threads[c], st.section));
    assert Ranks(st') == r1[c := Rank(st'.threads[c], st.section)];
  }

  lemma ActAlone(st: State, t: nat)
    requires Shape(st) && CanAct(st, t)
    requires forall u :: 0 <= u < |st.threads| && u != t ==> Act(st, t).threads[u] == st.threads[u]
    requires Rank(Act(st, t).threads[t], st.section) < Rank(st.threads[t], st.section)
    ensures WorkLeft(Act(st, t)) < WorkLeft(st)
  {
    var st', r := Act(st, t), Ranks(st);
    SumUpdate(r, t, Rank(st'.threads[t], st.section));
    assert Ranks(st') == r[t := Rank(st'.threads[t], st.section)];
  }

  /** Every step of a running section leaves less work. */
  lemma ActDecreases(st: State, t: nat)
    requires Inv(st) && CanAct(st, t)
    ensures WorkLeft(Act(st, t)) < WorkLeft(st)
  {
    ActorInSection(st, t);
    ActorFacts(st, t, 0, st.num);
    var th := st.threads[t];
    if th.pc == Cascade1 && t + 1 < th.wend {
      ActRanks(st, t, t + 1);
    } else if th.pc == Cascade2 {
      ActRanks(st, t, Mid(t + 1, th.wend));
    } else {
      ActOwn(st, t);
      ActAlone(st, t);
    }
  }

  lemma ActOwn(st: State, t: nat)
    requires Shape(st) && CanAct(st, t) && ActorOk(st, t)
    requires st.threads[t].pc == Cascade1 ==> t + 1 == st.threads[t].wend
    requires st.threads[t].pc != Cascade2
    ensures forall u :: 0 <= u < |st.threads| && u != t ==> Act(st, t).threads[u] == st.threads[u]
    ensures Rank(Act(st, t).threads[t], st.section) < Rank(st.threads[t], st.section)
  {
  }

  ghost predicate Acts(st: State, st': State) {
    Shape(st) && exists t: nat :: CanAct(st, t) && st' == Act(st, t)
  }

  /** No section goes on for ever: no infinite sequence of states has a step of a thread between
      each and the next. */
  lemma {:induction false} SectionEnds(f: nat -> State, n: nat)
    requires Inv(f(n))
    ensures exists m: nat :: m >= n && !Acts(f(m), f(m + 1))
    decreases WorkLeft(f(n))
  {
    if Acts(f(n), f(n + 1)) {
      var t: nat :| CanAct(f(n), t) && f(n + 1) == Act(f(n), t);
      ActPreserves(f(n), t);
      ActDecreases(f(n), t);
      SectionEnds(f, n + 1);
    }
  }

  lemma Extend(run: seq<State>, st': State) returns (run': seq<State>)
    requires IsRun(run) && Next(run[|run| - 1], st')
    ensures run' == run + [st'] && IsRun(run')
  {
    run' := run + [st'];
    forall k | 0 <= k < |run'| - 1 ensures Next(run'[k], run'[k + 1]) {
      if k < |run| - 1 {
        assert Next(run[k], run[k + 1]);
      }
    }
  }

  /** Every run can be continued to the end of the section it is in. */
  lemma {:induction false} SectionCanEnd(run: seq<State>) returns (run': seq<State>)
    requires IsRun(run)
    ensures IsRun(run') && run <= run'
    ensures var st, st' := run[|run| - 1], run'[|run'| - 1];
            !st'.running && st'.section == st.section && st'.num == st.num && |st'.threads| == |st.threads|
    decreases WorkLeft(run[|run| - 1])
  {
    if run[|run| - 1].running {
      var st' := OneMoreStep(run);
      run' := SectionCanEnd(run + [st']);
    } else {
      run' := run;
    }
  }

  lemma OneMoreStep(run: seq<State>) returns (st': State)
    requires IsRun(run) && run[|run| - 1].running
    ensures IsRun(run + [st'])
    ensures var st := run[|run| - 1];
            && st'.section == st.section && st'.num == st.num && |st'.threads| == |st.threads|
            && WorkLeft(st') < WorkLeft(st)
  {
    var st := run[|run| - 1];
    RunInv(run, |run| - 1);
    var x := SomeoneActs(st, 0, st.num);
    ActDecreases(st, x);
    ActKeepsShape(st, x);
    st' := Act(st, x);
    assert Next(st, st');
    var run' := Extend(run, st');
  }

  /** A section never gets stuck: as long as it runs some thread can act, and when none can it is over. */
  lemma NoDeadlock(run: seq<State>, k: nat)
    requires IsRun(run) && k < |run|
    ensures run[k].running <==> exists st' :: Acts(run[k], st')
    ensures forall st' :: Acts(run[k], st') ==> WorkLeft(st') < WorkLeft(run[k])
  {
    RunInv(run, k);
    var st := run[k];
    if st.running {
      var x := SomeoneActs(st, 0, st.num);
      assert Acts(st, Act(st, x));
    }
    forall st' | Acts(st, st') ensures WorkLeft(st') < WorkLeft(st) && st.running {
      var t: nat :| CanAct(st, t) && st' == Act(st, t);
      ActDecreases(st, t);
      ActorInSection(st, t);
    }
  }

  /** From any state between sections, a section with any requested number of threads can be
      executed to its end; the number is brought into range, and each of its threads has then
      executed the work in it once. */
  lemma ExecuteSection(run: seq<State>, num: nat) returns (run': seq<State>)
    requires IsRun(run) && !run[|run| - 1].running
    ensures IsRun(run') && run <= run'
    ensures var st, st' := run[|run| - 1], run'[|run'| - 1];
            && !st'.running && st'.section == st.section + 1 && |st'.threads| == |st.threads| >= 1
            && (1 <= num <= |st.threads| ==> st'.num == num)
            && (num == 0 ==> st'.num == 1) && (num > |st.threads| ==> st'.num == |st.threads|)
            && forall t :: 0 <= t < |st.threads| ==>
                 (st'.section in st'.threads[t].jobs <==> t < st'.num) && Asleep(st'.threads[t])
  {
    var st := run[|run| - 1];
    RunInv(run, |run| - 1);
    var n := if num < 1 then 1 else if num > |st.threads| then |st.threads| else num;
    var st1 := State(st.threads[0 := st.threads[0].(pc := Cascade1, wend := n)], st.section + 1, n, true);
    assert Start(st, st1, num);
    run' := Extend(run, st1);
    run' := SectionCanEnd(run');
    var st' := run'[|run'| - 1];
    forall t | 0 <= t < |st.threads|
      ensures (st'.section in st'.threads[t].jobs <==> t < st'.num) && Asleep(st'.threads[t])
    {
      SectionComplete(run', |run'| - 1, t);
      assert t >= st'.num ==> st'.section !in st'.threads[t].jobs;
    }
  }
}
