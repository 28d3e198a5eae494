/**
 The topology barrier as a transition system: threads of a socket count down a counter kept
 by the socket's leader, leaders report up a 4-ary tree of sockets, and a sense word is
 spread down a binary tree of sockets. One atomic access per step, any interleaving, and any
 socket layout whose leaders take part. `episodes` is history only.
 */
module TopoBarrier {
  import opened Measures

  /** The sense words are 32-bit and wrap. */
  const WRAP: nat := 0x1_0000_0000

  /** `socket[t]` is the socket of thread `t`, `leader[g]` the leader of socket `g`. */
  datatype Layout = Layout(socket: seq<nat>, leader: seq<nat>)

  /** Every socket in use has an active leader; thread 0 leads socket 0. */
  predicate ValidLayout(y: Layout) {
    && |y.socket| >= 1 && |y.leader| >= 1
    && (forall t :: 0 <= t < |y.socket| ==> y.socket[t] < |y.leader|)
    && (forall g :: 0 <= g < |y.leader| ==> y.leader[g] < |y.socket| && y.socket[y.leader[g]] == g)
    && y.leader[0] == 0
  }

  predicate IsLeader(y: Layout, t: nat)
    requires ValidLayout(y) && t < |y.socket|
  {
    y.leader[y.socket[t]] == t
  }

  /** The socket whose counter thread `t` counts down; thread 0 reports to nobody. */
  function ReportNode(y: Layout, t: nat): (g: nat)
    requires ValidLayout(y) && 0 < t < |y.socket|
    ensures g < |y.leader|
  {
    if IsLeader(y, t) then (y.socket[t] - 1) / 4 else y.socket[t]
  }

  /** Leaders report up a 4-ary tree of sockets, all others to their own socket. */
  lemma ReportTree(y: Layout, t: nat)
    requires ValidLayout(y) && 0 < t < |y.socket|
    ensures var g, h := y.socket[t], ReportNode(y, t);
            if y.leader[g] == t then 4 * h + 1 <= g <= 4 * h + 4 else h == g
  {
  }

  ghost function Children(y: Layout, g: nat): set<nat>
    requires ValidLayout(y)
  {
    set t: nat | 0 < t < |y.socket| && ReportNode(y, t) == g
  }

  datatype Pc = Idle | SpinChildren | Rearm | Report | SpinSense | Wake(k: nat) | WakeOwn | Bump

  datatype Thread = Thread(pc: Pc, sense: nat, episodes: nat)

  datatype Node = Node(haveChild: int, childNotReady: int, parentSense: nat)

  datatype State = State(threads: seq<Thread>, nodes: seq<Node>)

  predicate Shaped(y: Layout, s: State) {
    ValidLayout(y) && |s.threads| == |y.socket| && |s.nodes| == |y.leader|
  }

  ghost predicate Init(y: Layout, s: State) {
    && Shaped(y, s)
    && (forall t :: 0 <= t < |s.threads| ==> s.threads[t] == Thread(Idle, 1, 0))
    && (forall g :: 0 <= g < |s.nodes| ==>
          s.nodes[g] == Node(|Children(y, g)|, |Children(y, g)|, 0))
  }

  // ---------------------------------------------------------------- the transition system

  /** The own-thread half of a step of thread `t`, whose socket node reads `n`. */
  function Own(y: Layout, t: nat, th: Thread, n: Node): Thread
    requires ValidLayout(y) && t < |y.socket|
  {
    match th.pc
    case Idle => th.(pc := if IsLeader(y, t) then SpinChildren else Report)
    case SpinChildren => if n.childNotReady == 0 then th.(pc := Rearm) else th
    case Rearm => th.(pc := if t == 0 then Wake(0) else Report)
    case Report => th.(pc := SpinSense)
    case SpinSense =>
      if n.parentSense == th.sense then th.(pc := if IsLeader(y, t) then Wake(0) else Bump) else th
    case Wake(k) => th.(pc := if k == 0 then Wake(1) else if t == 0 then WakeOwn else Bump)
    case WakeOwn => th.(pc := Bump)
    case Bump => Thread(Idle, (th.sense + 1) % WRAP, th.episodes + 1)
  }

  /** The shared half of the same step: its effect on the node `n` of socket `g`. */
  function Effect(y: Layout, t: nat, th: Thread, g: nat, n: Node): Node
    requires ValidLayout(y) && t < |y.socket|
  {
    var own := y.socket[t];
    match th.pc
    case Rearm => if g == own then n.(childNotReady := n.haveChild) else n
    case Report => if t > 0 && g == ReportNode(y, t) then n.(childNotReady := n.childNotReady - 1) else n
    case Wake(k) => if g == 2 * own + 1 + k then n.(parentSense := th.sense) else n
    case WakeOwn => if g == own then n.(parentSense := th.sense) else n
    case _ => n
  }

  function Step(y: Layout, s: State, t: nat): State
    requires Shaped(y, s) && t < |s.threads|
  {
    var th := s.threads[t];
    State(s.threads[t := Own(y, t, th, s.nodes[y.socket[t]])],
          seq(|s.nodes|, g requires 0 <= g < |s.nodes| => Effect(y, t, th, g, s.nodes[g])))
  }

  predicate Next(y: Layout, s: State, s': State)
    requires Shaped(y, s)
  {
    s' == s || exists t: nat :: t < |s.threads| && s' == Step(y, s, t)
  }

  ghost predicate IsRun(y: Layout, run: seq<State>) {
    && |run| >= 1
    && Init(y, run[0])
    && (forall k :: 0 <= k < |run| ==> Shaped(y, run[k]))
    && forall k :: 0 <= k < |run| - 1 ==> Next(y, run[k], run[k + 1])
  }

  // ---------------------------------------------------------------- counting accesses

  function One(b: bool): nat {
    if b then 1 else 0
  }

  function Entered(th: Thread): nat {
    th.episodes + One(!th.pc.Idle?)
  }

  /** Episodes in which a leader has seen its counter at zero. */
  function Cleared(th: Thread): nat {
    th.episodes + One(!th.pc.Idle? && !th.pc.SpinChildren?)
  }

  /** Episodes in which a leader has restored its counter. */
  function Rearmed(th: Thread): nat {
    th.episodes + One(!th.pc.Idle? && !th.pc.SpinChildren? && !th.pc.Rearm?)
  }

  function Arrived(th: Thread): nat {
    th.episodes + One(th.pc.SpinSense? || th.pc.Wake? || th.pc.WakeOwn? || th.pc.Bump?)
  }

  function Released(th: Thread): nat {
    th.episodes + One(th.pc.Wake? || th.pc.WakeOwn? || th.pc.Bump?)
  }

  function Woke(th: Thread, k: nat): nat {
    th.episodes + One((th.pc.Wake? && k < th.pc.k) || th.pc.WakeOwn? || th.pc.Bump?)
  }

  function WokeOwn(th: Thread): nat {
    th.episodes + One(th.pc.Bump?)
  }

  /** How often the sense word of socket `g` has been written. */
  function WakeCount(y: Layout, s: State, g: nat): nat
    requires Shaped(y, s) && g < |s.nodes|
  {
    if g == 0 then WokeOwn(s.threads[0]) else Woke(s.threads[y.leader[(g - 1) / 2]], (g - 1) % 2)
  }

  /** The children of socket `g` that have not yet arrived in the leader's current episode. */
  ghost function Pending(y: Layout, s: State, g: nat): set<nat>
    requires Shaped(y, s) && g < |s.nodes|
  {
    set t: nat | t in Children(y, g) && Arrived(s.threads[t]) == Rearmed(s.threads[y.leader[g]])
  }

  // ---------------------------------------------------------------- the invariant

  predicate ThreadOk(y: Layout, s: State, t: nat)
    requires Shaped(y, s) && t < |s.threads|
  {
    var th := s.threads[t];
    && th.sense == (th.episodes + 1) % WRAP
    && (th.pc.Wake? ==> th.pc.k < 2)
    && (th.pc.SpinChildren? || th.pc.Rearm? || th.pc.Wake? || th.pc.WakeOwn? ==> IsLeader(y, t))
    && (th.pc.WakeOwn? ==> t == 0)
    && (t == 0 ==> !th.pc.Report? && !th.pc.SpinSense?)
  }

  predicate ReportOk(y: Layout, s: State, t: nat)
    requires Shaped(y, s) && 0 < t < |s.threads|
  {
    var ld := s.threads[y.leader[ReportNode(y, t)]];
    && Cleared(ld) <= Arrived(s.threads[t])
    && Rearmed(ld) <= Arrived(s.threads[t]) <= Rearmed(ld) + 1
  }

  predicate ReleaseOk(y: Layout, s: State, t: nat)
    requires Shaped(y, s) && 0 < t < |s.threads|
  {
    Released(s.threads[t]) <= WakeCount(y, s, y.socket[t])
  }

  ghost predicate NodeOk(y: Layout, s: State, g: nat)
    requires Shaped(y, s) && g < |s.nodes|
  {
    && s.nodes[g].haveChild == |Children(y, g)|
    && s.nodes[g].childNotReady == |Pending(y, s, g)|
    && s.nodes[g].parentSense == WakeCount(y, s, g) % WRAP
  }

  ghost predicate Inv(y: Layout, s: State) {
    && Shaped(y, s)
    && (forall t :: 0 <= t < |s.threads| ==> ThreadOk(y, s, t))
    && (forall t :: 0 < t < |s.threads| ==> ReportOk(y, s, t))
    && (forall t :: 0 < t < |s.threads| ==> ReleaseOk(y, s, t))
    && (forall g :: 0 <= g < |s.nodes| ==> NodeOk(y, s, g))
  }

  // ---------------------------------------------------------------- consequences of the invariant

  lemma {:induction false} RootArrivesLast(y: Layout, s: State, g: nat)
    requires Inv(y, s) && g < |s.nodes|
    ensures Arrived(s.threads[0]) <= Arrived(s.threads[y.leader[g]])
  {
    if g > 0 {
      var t := y.leader[g];
      RootArrivesLast(y, s, (g - 1) / 4);
      assert ReportOk(y, s, t);
    }
  }

  lemma {:induction false} RootReleasedFirst(y: Layout, s: State, g: nat)
    requires Inv(y, s) && g < |s.nodes|
    ensures Released(s.threads[y.leader[g]]) <= Released(s.threads[0])
    ensures WakeCount(y, s, g) <= Released(s.threads[0])
  {
    if g > 0 {
      RootReleasedFirst(y, s, (g - 1) / 2);
      assert ReleaseOk(y, s, y.leader[g]);
    }
  }

  lemma ReleaseAfterAllArrivals(y: Layout, s: State, i: nat, d: nat)
    requires Inv(y, s) && i < |s.threads| && d < |s.threads|
    ensures Released(s.threads[i]) <= Released(s.threads[0]) <= Arrived(s.threads[0]) <= Arrived(s.threads[d])
    ensures s.threads[i].episodes <= s.threads[d].episodes + 1
  {
    RootReleasedFirst(y, s, y.socket[i]);
    if i > 0 { assert ReleaseOk(y, s, i); }
    if d > 0 {
      assert ReportOk(y, s, d);
      RootArrivesLast(y, s, ReportNode(y, d));
    }
  }

  /** A thread about to report is among the pending children, so its counter is positive. */
  lemma PendingBeforeReport(y: Layout, s: State, t: nat)
    requires Inv(y, s) && 0 < t < |s.threads| && Arrived(s.threads[t]) == s.threads[t].episodes
    ensures Arrived(s.threads[t]) == Rearmed(s.threads[y.leader[ReportNode(y, t)]])
    ensures t in Pending(y, s, ReportNode(y, t))
  {
    ReleaseAfterAllArrivals(y, s, t, y.leader[ReportNode(y, t)]);
    assert ReportOk(y, s, t);
  }

  /** A counter at zero means every child has arrived. */
  lemma ZeroMeansAll(y: Layout, s: State, g: nat, t: nat)
    requires Inv(y, s) && g < |s.nodes| && s.nodes[g].childNotReady == 0 && t in Children(y, g)
    ensures Arrived(s.threads[t]) == Rearmed(s.threads[y.leader[g]]) + 1
  {
    assert NodeOk(y, s, g);
    assert Pending(y, s, g) == {};
    assert t !in Pending(y, s, g);
    assert ReportOk(y, s, t);
  }

  /** The wrapped sense comparison decides exactly whether this episode's wake-up was sent. */
  lemma SenseMatches(y: Layout, s: State, t: nat)
    requires Inv(y, s) && 0 < t < |s.threads|
    ensures var w := WakeCount(y, s, y.socket[t]);
            && s.threads[t].episodes <= w <= s.threads[t].episodes + 1
            && (s.nodes[y.socket[t]].parentSense == s.threads[t].sense <==> w == s.threads[t].episodes + 1)
  {
    assert ReleaseOk(y, s, t) && ThreadOk(y, s, t) && NodeOk(y, s, y.socket[t]);
    RootReleasedFirst(y, s, y.socket[t]);
    ReleaseAfterAllArrivals(y, s, 0, t);
    WrapDistinguishes(s.threads[t].episodes, WakeCount(y, s, y.socket[t]));
  }

  lemma WrapDistinguishes(e: nat, w: nat)
    requires e <= w <= e + 1
    ensures w % WRAP == (e + 1) % WRAP <==> w == e + 1
  {
  }

  // ---------------------------------------------------------------- preservation

  lemma InitEstablishes(y: Layout, s: State)
    requires Init(y, s)
    ensures Inv(y, s)
  {
    forall g | 0 <= g < |s.nodes| ensures NodeOk(y, s, g) {
      InitNode(y, s, g);
    }
  }

  lemma InitNode(y: Layout, s: State, g: nat)
    requires Init(y, s) && g < |s.nodes|
    ensures NodeOk(y, s, g)
  {
    NothingDone(y, s, g);
    forall t | t in Children(y, g) ensures t in Pending(y, s, g) {
      assert s.threads[t] == Thread(Idle, 1, 0);
    }
    assert Pending(y, s, g) == Children(y, g);
  }

  lemma NothingDone(y: Layout, s: State, g: nat)
    requires Init(y, s) && g < |s.nodes|
    ensures Rearmed(s.threads[y.leader[g]]) == 0 && WakeCount(y, s, g) == 0
  {
    if g > 0 {
      assert s.threads[y.leader[(g - 1) / 2]] == Thread(Idle, 1, 0);
    }
  }

  lemma StepKeepsThread(y: Layout, s: State, t: nat, x: nat)
    requires Inv(y, s) && t < |s.threads| && x < |s.threads|
    ensures ThreadOk(y, Step(y, s, t), x)
  {
    assert ThreadOk(y, s, x);
  }

  lemma StepKeepsReport(y: Layout, s: State, t: nat, x: nat)
    requires Inv(y, s) && t < |s.threads| && 0 < x < |s.threads|
    ensures ReportOk(y, Step(y, s, t), x)
  {
    assert ReportOk(y, s, x) && ThreadOk(y, s, t);
    var g := ReportNode(y, x);
    var ld := y.leader[g];
    assert ld != x by { assert !IsLeader(y, x) || g < y.socket[x]; }
    if t == x {
      if s.threads[x].pc.Report? { PendingBeforeReport(y, s, x); }
    } else if t == ld && s.threads[t].pc.SpinChildren? && s.nodes[g].childNotReady == 0 {
      ZeroMeansAll(y, s, g, x);
    }
  }

  lemma StepKeepsRelease(y: Layout, s: State, t: nat, x: nat)
    requires Inv(y, s) && t < |s.threads| && 0 < x < |s.threads|
    ensures ReleaseOk(y, Step(y, s, t), x)
  {
    assert ReleaseOk(y, s, x) && ThreadOk(y, s, x) && ThreadOk(y, s, t);
    SenseMatches(y, s, x);
    WakeCountGrows(y, s, t, y.socket[x]);
  }

  lemma WakeCountGrows(y: Layout, s: State, t: nat, g: nat)
    requires Inv(y, s) && t < |s.threads| && g < |s.nodes|
    ensures WakeCount(y, s, g) <= WakeCount(y, Step(y, s, t), g)
    ensures NodeOk(y, s, g) && ThreadOk(y, s, t) &&
            Step(y, s, t).nodes[g].parentSense == WakeCount(y, Step(y, s, t), g) % WRAP
  {
    assert NodeOk(y, s, g) && ThreadOk(y, s, t);
    if g > 0 {
      var p := (g - 1) / 2;
      assert y.leader[p] == t ==> y.socket[t] == p;
      assert s.threads[t].pc.Wake? && g == 2 * y.socket[t] + 1 + s.threads[t].pc.k ==> p == y.socket[t];
    }
  }

  lemma ReportLowersCounter(y: Layout, s: State, t: nat)
    requires Inv(y, s) && 0 < t < |s.threads| && s.threads[t].pc.Report?
    ensures Pending(y, Step(y, s, t), ReportNode(y, t)) == Pending(y, s, ReportNode(y, t)) - {t}
    ensures t in Pending(y, s, ReportNode(y, t))
  {
    var g := ReportNode(y, t);
    PendingBeforeReport(y, s, t);
    assert y.leader[g] != t by { assert !IsLeader(y, t) || g < y.socket[t]; }
  }

  lemma RearmRestoresCounter(y: Layout, s: State, g: nat)
    requires Inv(y, s) && g < |s.nodes| && s.threads[y.leader[g]].pc.Rearm?
    ensures Pending(y, Step(y, s, y.leader[g]), g) == Children(y, g)
  {
    var t := y.leader[g];
    forall x | x in Children(y, g) ensures x in Pending(y, Step(y, s, t), g) {
      assert ReportOk(y, s, x);
      assert x != t by { assert !IsLeader(y, x) || g < y.socket[x]; }
    }
  }

  lemma OthersKeepPending(y: Layout, s: State, t: nat, g: nat)
    requires Inv(y, s) && t < |s.threads| && g < |s.nodes|
    requires s.threads[t].pc.Report? && t > 0 ==> ReportNode(y, t) != g
    requires s.threads[t].pc.Rearm? ==> t != y.leader[g]
    ensures Pending(y, Step(y, s, t), g) == Pending(y, s, g)
  {
    var s' := Step(y, s, t);
    assert ThreadOk(y, s, t);
    assert Rearmed(s'.threads[y.leader[g]]) == Rearmed(s.threads[y.leader[g]]);
    forall x | x in Children(y, g) ensures Arrived(s'.threads[x]) == Arrived(s.threads[x]) {
    }
  }

  lemma StepKeepsCounter(y: Layout, s: State, t: nat, g: nat)
    requires Inv(y, s) && t < |s.threads| && g < |s.nodes|
    ensures Step(y, s, t).nodes[g].haveChild == |Children(y, g)|
    ensures Step(y, s, t).nodes[g].childNotReady == |Pending(y, Step(y, s, t), g)|
  {
    if s.threads[t].pc.Report? && t > 0 && ReportNode(y, t) == g {
      ReportKeepsCounter(y, s, t);
    } else if s.threads[t].pc.Rearm? && t == y.leader[g] {
      assert NodeOk(y, s, g);
      RearmRestoresCounter(y, s, g);
    } else {
      OthersKeepCounter(y, s, t, g);
      OthersKeepPending(y, s, t, g);
    }
  }

  lemma ReportKeepsCounter(y: Layout, s: State, t: nat)
    requires Inv(y, s) && 0 < t < |s.threads| && s.threads[t].pc.Report?
    ensures var g, s' := ReportNode(y, t), Step(y, s, t);
            s'.nodes[g].haveChild == |Children(y, g)| && s'.nodes[g].childNotReady == |Pending(y, s', g)|
  {
    assert NodeOk(y, s, ReportNode(y, t));
    ReportLowersCounter(y, s, t);
  }

  lemma OthersKeepCounter(y: Layout, s: State, t: nat, g: nat)
    requires Inv(y, s) && t < |s.threads| && g < |s.nodes|
    requires s.threads[t].pc.Report? && t > 0 ==> ReportNode(y, t) != g
    requires s.threads[t].pc.Rearm? ==> t != y.leader[g]
    ensures Step(y, s, t).nodes[g].haveChild == |Children(y, g)|
    ensures Step(y, s, t).nodes[g].childNotReady == |Pending(y, s, g)|
  {
    assert NodeOk(y, s, g) && ThreadOk(y, s, t);
  }

  lemma NextPreserves(y: Layout, s: State, s': State)
    requires Inv(y, s) && Next(y, s, s')
    ensures Inv(y, s')
  {
    if s' != s {
      var t: nat :| t < |s.threads| && s' == Step(y, s, t);
      forall x | 0 <= x < |s.threads| ensures ThreadOk(y, s', x) {
        StepKeepsThread(y, s, t, x);
      }
      forall x | 0 < x < |s.threads| ensures ReportOk(y, s', x) && ReleaseOk(y, s', x) {
        StepKeepsReport(y, s, t, x);
        StepKeepsRelease(y, s, t, x);
      }
      forall g | 0 <= g < |s.nodes| ensures NodeOk(y, s', g) {
        StepKeepsCounter(y, s, t, g);
        WakeCountGrows(y, s, t, g);
      }
    }
  }

  lemma {:induction false} RunInv(y: Layout, run: seq<State>, k: nat)
    requires IsRun(y, run) && k < |run|
    ensures Inv(y, run[k])
  {
    if k == 0 {
      InitEstablishes(y, run[0]);
    } else {
      RunInv(y, run, k - 1);
      NextPreserves(y, run[k - 1], run[k]);
    }
  }

  // ---------------------------------------------------------------- the theorems

  /** Barrier safety over all runs and layouts: nobody is released from an episode before every
      thread has arrived in it, although the sense words wrap and the counters are reused. */
  lemma BarrierSafety(y: Layout, run: seq<State>, k: nat, i: nat, d: nat)
    requires IsRun(y, run) && k < |run| && i < |y.socket| && d < |y.socket|
    ensures |run[k].threads| == |y.socket|
    ensures run[k].threads[i].episodes <= Released(run[k].threads[i]) <=
            Arrived(run[k].threads[d]) <= Entered(run[k].threads[d])
    ensures run[k].threads[i].episodes <= run[k].threads[d].episodes + 1
  {
    RunInv(y, run, k);
    ReleaseAfterAllArrivals(y, run[k], i, d);
  }

  /** No arrival is lost: the counter is positive whenever a thread is about to count it down, it
      always equals the number of missing children, and when the leader restores it every child
      has arrived in this very episode and none can count down in between. */
  lemma NoArrivalLost(y: Layout, run: seq<State>, k: nat, g: nat, t: nat)
    requires IsRun(y, run) && k < |run| && g < |y.leader| && t in Children(y, g)
    ensures var s := run[k];
            && s.nodes[g].childNotReady == |Pending(y, s, g)|
            && (s.threads[t].pc.Report? ==> s.nodes[g].childNotReady > 0)
            && (s.threads[y.leader[g]].pc.Rearm? ==>
                  && s.nodes[g].childNotReady == 0
                  && Arrived(s.threads[t]) == s.threads[y.leader[g]].episodes + 1)
  {
    RunInv(y, run, k);
    var s := run[k];
    assert NodeOk(y, s, g) && ReportOk(y, s, t);
    if s.threads[t].pc.Report? {
      PendingBeforeReport(y, s, t);
    }
    if s.threads[y.leader[g]].pc.Rearm? {
      forall x | x in Children(y, g) ensures x !in Pending(y, s, g) {
        assert ReportOk(y, s, x);
      }
      assert Pending(y, s, g) == {};
    }
  }

  // ---------------------------------------------------------------- progress

  predicate Productive(y: Layout, s: State, t: nat)
    requires Shaped(y, s) && t < |s.threads|
  {
    match s.threads[t].pc
    case Idle => false
    case SpinChildren => s.nodes[y.socket[t]].childNotReady == 0
    case SpinSense => s.nodes[y.socket[t]].parentSense == s.threads[t].sense
    case _ => true
  }

  ghost predicate StuckAt(y: Layout, s: State, m: nat) {
    && Inv(y, s)
    && (forall j :: 0 <= j < |s.threads| ==> m <= s.threads[j].episodes)
    && (forall j :: 0 <= j < |s.threads| && s.threads[j].episodes == m ==> !s.threads[j].pc.Idle?)
    && (forall t: nat :: t < |s.threads| ==> !Productive(y, s, t))
  }

  lemma {:induction false} StuckMeansArrived(y: Layout, s: State, m: nat, t: nat)
    requires StuckAt(y, s, m) && t < |s.threads|
    ensures Arrived(s.threads[t]) >= m + 1
    decreases |s.nodes| - y.socket[t], if IsLeader(y, t) then 1 else 0
  {
    assert !Productive(y, s, t) && ThreadOk(y, s, t);
    if s.threads[t].episodes == m && s.threads[t].pc.SpinChildren? {
      var g := y.socket[t];
      assert NodeOk(y, s, g);
      var x :| x in Pending(y, s, g);
      StuckMeansArrived(y, s, m, x);
    }
  }

  lemma {:induction false} StuckMeansWoken(y: Layout, s: State, m: nat, t: nat)
    requires StuckAt(y, s, m) && t < |s.threads|
    ensures s.threads[t].episodes >= m + 1
    decreases y.socket[t], if IsLeader(y, t) then 0 else 1
  {
    StuckMeansArrived(y, s, m, t);
    assert !Productive(y, s, t) && ThreadOk(y, s, t);
    if t > 0 {
      var g := y.socket[t];
      var w := if g == 0 then 0 else y.leader[(g - 1) / 2];
      StuckMeansWoken(y, s, m, w);
      SenseMatches(y, s, t);
    }
  }

  /** Every thread that has completed as few calls as `w`, and none has completed fewer, is inside `wait`. */
  predicate AllIn(y: Layout, s: State, w: nat) {
    && Shaped(y, s) && w < |s.threads|
    && forall j :: 0 <= j < |s.threads| ==>
         && s.threads[w].episodes <= s.threads[j].episodes
         && (s.threads[j].pc.Idle? ==> s.threads[w].episodes < s.threads[j].episodes)
  }

  lemma SomeoneMoves(y: Layout, s: State, w: nat) returns (t: nat)
    requires Inv(y, s) && AllIn(y, s, w)
    ensures t < |s.threads| && Productive(y, s, t)
  {
    if forall t: nat :: t < |s.threads| ==> !Productive(y, s, t) {
      assert StuckAt(y, s, s.threads[w].episodes);
      StuckMeansWoken(y, s, s.threads[w].episodes, w);
      assert false;
    }
    t :| t < |s.threads| && Productive(y, s, t);
  }

  /** The program points a thread still has to pass in this call. */
  function Rank(th: Thread): nat {
    match th.pc
    case Idle => 0
    case Bump => 1
    case WakeOwn => 2
    case Wake(k) => if k == 0 then 4 else 3
    case SpinSense => 5
    case Report => 6
    case Rearm => 7
    case SpinChildren => 8
  }

  function Ranks(s: State): seq<nat> {
    seq(|s.threads|, i requires 0 <= i < |s.threads| => Rank(s.threads[i]))
  }

  function WorkLeft(s: State): nat {
    SumOf(Ranks(s))
  }

  /** Every productive step lowers the work left. */
  lemma ProductiveDecreases(y: Layout, s: State, t: nat)
    requires Shaped(y, s) && t < |s.threads| && Productive(y, s, t)
    ensures WorkLeft(Step(y, s, t)) < WorkLeft(s)
  {
    var s' := Step(y, s, t);
    SumUpdate(Ranks(s), t, Rank(s'.threads[t]));
    assert Ranks(s') == Ranks(s)[t := Rank(s'.threads[t])];
  }

  ghost predicate Moves(y: Layout, s: State, s': State) {
    Shaped(y, s) && exists t: nat :: t < |s.threads| && Productive(y, s, t) && s' == Step(y, s, t)
  }

  /** A continuation in which nobody calls `wait` anew and nobody spins. */
  ghost predicate Schedule(y: Layout, st: seq<State>) {
    |st| >= 1 && forall k :: 0 <= k < |st| - 1 ==> Moves(y, st[k], st[k + 1])
  }

  ghost predicate Stuck(y: Layout, s: State) {
    forall s': State :: !Moves(y, s, s')
  }

  lemma MovesPreserves(y: Layout, s: State, s': State)
    requires Inv(y, s) && Moves(y, s, s')
    ensures Inv(y, s') && WorkLeft(s') < WorkLeft(s)
  {
    var t: nat :| t < |s.threads| && Productive(y, s, t) && s' == Step(y, s, t);
    NextPreserves(y, s, s');
    ProductiveDecreases(y, s, t);
  }

  /** A step of another kind than the return of `w` leaves `w` where everybody waits for it. */
  lemma StillIn(y: Layout, s: State, s': State, w: nat)
    requires Moves(y, s, s') && AllIn(y, s, w)
    ensures Shaped(y, s') && (AllIn(y, s', w) || s'.threads[w].episodes == s.threads[w].episodes + 1)
    ensures AllIn(y, s', w) ==> s'.threads[w].episodes == s.threads[w].episodes
  {
  }

  lemma {:induction false} ScheduleEnds(y: Layout, st: seq<State>, k: nat)
    requires Schedule(y, st) && Inv(y, st[0]) && k < |st|
    ensures Inv(y, st[k]) && k + WorkLeft(st[k]) <= WorkLeft(st[0])
  {
    if k > 0 {
      ScheduleEnds(y, st, k - 1);
      MovesPreserves(y, st[k - 1], st[k]);
    }
  }

  /** Along a schedule `w` stays inside until it has completed its call. */
  lemma {:induction false} InUntilDone(y: Layout, st: seq<State>, w: nat, k: nat)
    requires Schedule(y, st) && Inv(y, st[0]) && AllIn(y, st[0], w) && k < |st|
    ensures Shaped(y, st[k]) && st[k].threads[w].episodes >= st[0].threads[w].episodes
    ensures st[k].threads[w].episodes > st[0].threads[w].episodes || AllIn(y, st[k], w)
  {
    if k > 0 {
      InUntilDone(y, st, w, k - 1);
      var s, s' := st[k - 1], st[k];
      assert Moves(y, s, s');
      if AllIn(y, s, w) {
        StillIn(y, s, s', w);
      }
    }
  }

  /** A schedule that brings `w` out of its call. */
  lemma {:induction false} GetsThrough(y: Layout, s: State, w: nat) returns (st: seq<State>)
    requires Inv(y, s) && AllIn(y, s, w)
    ensures Schedule(y, st) && st[0] == s && Shaped(y, st[|st| - 1])
    ensures st[|st| - 1].threads[w].episodes == s.threads[w].episodes + 1
    decreases WorkLeft(s)
  {
    var t := SomeoneMoves(y, s, w);
    var s' := Step(y, s, t);
    assert Moves(y, s, s');
    MovesPreserves(y, s, s');
    StillIn(y, s, s', w);
    if AllIn(y, s', w) {
      var rest := GetsThrough(y, s', w);
      st := [s] + rest;
      forall k | 0 <= k < |st| - 1 ensures Moves(y, st[k], st[k + 1]) {
        if k > 0 {
          assert Moves(y, rest[k - 1], rest[k]);
        }
      }
    } else {
      st := [s, s'];
    }
  }

  /** No deadlock: when every thread that is as far behind as `w` is inside `wait`, some thread has a
      productive step, a schedule of such steps completes the call of `w`, and every schedule of
      such steps that cannot be continued has completed it. */
  lemma NoDeadlock(y: Layout, run: seq<State>, k: nat, w: nat)
    requires IsRun(y, run) && k < |run| && AllIn(y, run[k], w)
    ensures exists t: nat :: t < |y.socket| && Productive(y, run[k], t)
    ensures exists st: seq<State> ::
              Schedule(y, st) && st[0] == run[k] && Shaped(y, st[|st| - 1]) &&
              st[|st| - 1].threads[w].episodes == run[k].threads[w].episodes + 1
    ensures forall st: seq<State> :: Schedule(y, st) && st[0] == run[k] ==>
              && |st| - 1 <= WorkLeft(run[k])
              && (Stuck(y, st[|st| - 1]) ==>
                    Shaped(y, st[|st| - 1]) && st[|st| - 1].threads[w].episodes > run[k].threads[w].episodes)
  {
    RunInv(y, run, k);
    var s := run[k];
    var t := SomeoneMoves(y, s, w);
    var st := GetsThrough(y, s, w);
    forall st: seq<State> | Schedule(y, st) && st[0] == s
      ensures |st| - 1 <= WorkLeft(s)
      ensures Stuck(y, st[|st| - 1]) ==>
                Shaped(y, st[|st| - 1]) && st[|st| - 1].threads[w].episodes > s.threads[w].episodes
    {
      MustComplete(y, st, w);
    }
  }

  lemma MustComplete(y: Layout, st: seq<State>, w: nat)
    requires Schedule(y, st) && Inv(y, st[0]) && AllIn(y, st[0], w)
    ensures |st| - 1 <= WorkLeft(st[0]) && Shaped(y, st[|st| - 1])
    ensures Stuck(y, st[|st| - 1]) ==> st[|st| - 1].threads[w].episodes > st[0].threads[w].episodes
  {
    var last := st[|st| - 1];
    ScheduleEnds(y, st, |st| - 1);
    InUntilDone(y, st, w, |st| - 1);
    if AllIn(y, last, w) {
      var t := SomeoneMoves(y, last, w);
      assert Moves(y, last, Step(y, last, t));
    }
  }

  // ---------------------------------------------------------------- whole episodes

  /** Every thread has completed `n` calls, and the first `m` of them have begun the next one. */
  predicate Entering(y: Layout, s: State, n: nat, m: nat) {
    && Shaped(y, s)
    && forall i :: 0 <= i < |y.socket| ==> s.threads[i].episodes == n && (s.threads[i].pc.Idle? <==> i >= m)
  }

  /** Every thread is inside its next call or has completed it. */
  predicate Leaving(y: Layout, s: State, n: nat) {
    && Shaped(y, s)
    && forall i :: 0 <= i < |y.socket| ==> s.threads[i].episodes == n + if s.threads[i].pc.Idle? then 1 else 0
  }

  lemma Extend(y: Layout, run: seq<State>, s': State) returns (run': seq<State>)
    requires IsRun(y, run) && Next(y, run[|run| - 1], s') && Shaped(y, s')
    ensures run' == run + [s'] && IsRun(y, run')
  {
    run' := run + [s'];
    forall k | 0 <= k < |run'| - 1 ensures Next(y, run'[k], run'[k + 1]) {
      if k < |run| - 1 {
        assert Next(y, run[k], run[k + 1]);
      }
    }
  }

  /** All threads call `wait`, one after the other. */
  lemma {:induction false} AllEnter(y: Layout, run: seq<State>, n: nat, m: nat) returns (run': seq<State>)
    requires IsRun(y, run) && m <= |y.socket| && Entering(y, run[|run| - 1], n, m)
    ensures IsRun(y, run') && run'[0] == run[0] && Entering(y, run'[|run'| - 1], n, |y.socket|)
    decreases |y.socket| - m
  {
    var s := run[|run| - 1];
    if m == |y.socket| {
      run' := run;
    } else {
      RunInv(y, run, |run| - 1);
      var s' := Step(y, s, m);
      assert Next(y, s, s');
      NextPreserves(y, s, s');
      run' := Extend(y, run, s');
      run' := AllEnter(y, run', n, m + 1);
    }
  }

  lemma LeavingStep(y: Layout, s: State, s': State, n: nat)
    requires Moves(y, s, s') && Leaving(y, s, n)
    ensures Leaving(y, s', n)
  {
  }

  /** All threads complete their call. */
  lemma {:induction false} AllLeave(y: Layout, run: seq<State>, n: nat) returns (run': seq<State>)
    requires IsRun(y, run) && Leaving(y, run[|run| - 1], n)
    ensures IsRun(y, run') && run'[0] == run[0] && Entering(y, run'[|run'| - 1], n + 1, 0)
    decreases WorkLeft(run[|run| - 1])
  {
    var s := run[|run| - 1];
    RunInv(y, run, |run| - 1);
    if w: nat :| w < |y.socket| && !s.threads[w].pc.Idle? {
      var t := SomeoneMoves(y, s, w);
      var s' := Step(y, s, t);
      assert Moves(y, s, s');
      MovesPreserves(y, s, s');
      LeavingStep(y, s, s', n);
      run' := Extend(y, run, s');
      run' := AllLeave(y, run', n);
    } else {
      run' := run;
    }
  }

  /** For every `n` there is a run in which every thread completes `n` calls. */
  lemma {:induction false} RunOfEpisodes(y: Layout, first: State, n: nat) returns (run: seq<State>)
    requires Init(y, first)
    ensures IsRun(y, run) && run[0] == first && Entering(y, run[|run| - 1], n, 0)
  {
    if n == 0 {
      run := [first];
    } else {
      run := RunOfEpisodes(y, first, n - 1);
      run := AllEnter(y, run, n - 1, 0);
      run := AllLeave(y, run, n - 1);
    }
  }

  // ---------------------------------------------------------------- initialisation

  /** The child sockets of `g` in the 4-ary tree are counted one by one, then the other threads of
      the socket; together they are exactly the threads that report to `g`. */
  method CountChildren(y: Layout, g: nat) returns (n: nat)
    requires ValidLayout(y) && g < |y.leader|
    ensures n == |Children(y, g)|
  {
    n := 0;
    ghost var counted: set<nat> := {};
    var j := 0;
    while j < 4
      invariant 0 <= j <= 4 && n == |counted|
      invariant counted == LeadersBelow(y, g, 4 * g + j + 1)
    {
      var c := 4 * g + j + 1;
      AddLeader(y, g, c);
      if c < |y.leader| {
        n := n + 1;
      }
      counted := LeadersBelow(y, g, c + 1);
      j := j + 1;
    }
    var t := 0;
    assert counted == LeadersOrBelow(y, g, t);
    while t < |y.socket|
      invariant 0 <= t <= |y.socket| && n == |counted|
      invariant counted == LeadersOrBelow(y, g, t)
    {
      AddThread(y, g, t);
      if y.socket[t] == g && y.leader[y.socket[t]] != t {
        n := n + 1;
      }
      counted := LeadersOrBelow(y, g, t + 1);
      t := t + 1;
    }
    assert counted == Children(y, g);
  }

  lemma AddLeader(y: Layout, g: nat, c: nat)
    requires ValidLayout(y) && 4 * g < c <= 4 * g + 4
    ensures |LeadersBelow(y, g, c + 1)| == |LeadersBelow(y, g, c)| + if c < |y.leader| then 1 else 0
  {
    if c < |y.leader| {
      assert LeadersBelow(y, g, c + 1) == LeadersBelow(y, g, c) + {y.leader[c]};
    } else {
      assert LeadersBelow(y, g, c + 1) == LeadersBelow(y, g, c);
    }
  }

  lemma AddThread(y: Layout, g: nat, t: nat)
    requires ValidLayout(y) && t < |y.socket|
    ensures |LeadersOrBelow(y, g, t + 1)| ==
            |LeadersOrBelow(y, g, t)| + if y.socket[t] == g && !IsLeader(y, t) then 1 else 0
  {
    if y.socket[t] == g && !IsLeader(y, t) {
      assert LeadersOrBelow(y, g, t + 1) == LeadersOrBelow(y, g, t) + {t};
    } else {
      assert LeadersOrBelow(y, g, t + 1) == LeadersOrBelow(y, g, t);
    }
  }

  ghost function LeadersBelow(y: Layout, g: nat, bound: nat): set<nat>
    requires ValidLayout(y)
  {
    set t: nat | t in Children(y, g) && IsLeader(y, t) && y.socket[t] < bound
  }

  ghost function LeadersOrBelow(y: Layout, g: nat, bound: nat): set<nat>
    requires ValidLayout(y)
  {
    set t: nat | t in Children(y, g) && (IsLeader(y, t) || t < bound)
  }

  /** `_reinit`. */
  method Reinit(y: Layout) returns (s: State)
    requires ValidLayout(y)
    ensures Init(y, s)
  {
    var nodes: seq<Node> := [];
    var i := 0;
    while i < |y.leader|
      invariant 0 <= i <= |y.leader| && |nodes| == i
      invariant forall g :: 0 <= g < i ==> nodes[g] == Node(|Children(y, g)|, |Children(y, g)|, 0)
    {
      var n := CountChildren(y, i);
      nodes := nodes + [Node(n, n, 0)];
      i := i + 1;
    }
    s := State(seq(|y.socket|, t => Thread(Idle, 1, 0)), nodes);
  }
}
