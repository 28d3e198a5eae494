/**
 The MCS tree barrier as a transition system: a 4-ary arrival tree whose parents keep one
 flag per child, and a binary wake-up tree that spreads a sense bit. One atomic access per
 step, any number of threads, any interleaving. `episodes` is history only.
 */
module McsBarrier {
  import opened Measures

  /** Program points of `wait`: testing child flag `k`, re-arming child flag `k`, clearing the
      parent's flag, spinning on the sense, waking child `k`, and the final flip of the sense. */
  datatype Pc = Idle | Check(k: nat) | Reset(k: nat) | SignalParent | SpinSense | Wake(k: nat) | Flip

  datatype Node = Node(pc: Pc, childNotReady: seq<bool>, parentSense: bool, sense: bool, episodes: nat)

  type State = seq<Node>

  predicate HaveChild(P: nat, i: nat, k: nat) {
    4 * i + k + 1 < P
  }

  /** The arrival-tree parent of `c`, and which of its four flags `c` owns. */
  function ArrivalParent(c: nat): nat
    requires c >= 1
  {
    (c - 1) / 4
  }

  function ArrivalSlot(c: nat): nat
    requires c >= 1
  {
    (c - 1) % 4
  }

  /** The wake-up-tree parent of `c`, and whether it is the first or second child. */
  function WakeParent(c: nat): nat
    requires c >= 1
  {
    (c - 1) / 2
  }

  function WakeSlot(c: nat): nat
    requires c >= 1
  {
    (c - 1) % 2
  }

  // ---------------------------------------------------------------- the transition system

  predicate Init(P: nat, s: State) {
    && |s| == P
    && forall i :: 0 <= i < P ==> s[i] == InitialNode(P, i)
  }

  function InitialNode(P: nat, i: nat): Node {
    Node(Idle,
         [HaveChild(P, i, 0), HaveChild(P, i, 1), HaveChild(P, i, 2), HaveChild(P, i, 3)],
         false, true, 0)
  }

  /** A node has its four child flags and a program point within range. */
  predicate WellFormedNode(n: Node, i: nat) {
    && |n.childNotReady| == 4
    && (n.pc.Check? || n.pc.Reset? ==> n.pc.k < 4)
    && (n.pc.Wake? ==> n.pc.k < 2)
    && (n.pc.SignalParent? || n.pc.SpinSense? ==> i > 0)
  }

  predicate WellFormed(P: nat, s: State) {
    |s| == P && forall i :: 0 <= i < P ==> WellFormedNode(s[i], i)
  }

  /** What thread `t` does to its own node in one step; a self-loop while it spins. */
  function Own(P: nat, n: Node, t: nat): Node
    requires WellFormedNode(n, t)
  {
    match n.pc
    case Idle => n.(pc := Check(0))
    case Check(k) =>
      n.(pc := if n.childNotReady[k] then Check(0) else if k == 3 then Reset(0) else Check(k + 1))
    case Reset(k) =>
      n.(childNotReady := n.childNotReady[k := HaveChild(P, t, k)],
         pc := if k < 3 then Reset(k + 1) else if t == 0 then Wake(0) else SignalParent)
    case SignalParent => n.(pc := SpinSense)
    case SpinSense => if n.parentSense == n.sense then n.(pc := Wake(0)) else n
    case Wake(k) => n.(pc := if k == 0 then Wake(1) else Flip)
    case Flip => n.(pc := Idle, sense := !n.sense, episodes := n.episodes + 1)
  }

  /** What that step does to the node `m` of another thread `x`: the report to the arrival
      parent, and the store of the sense to a wake-up child. */
  function Remote(n: Node, t: nat, m: Node, x: nat): Node
    requires WellFormedNode(n, t) && WellFormedNode(m, x)
  {
    if n.pc.SignalParent? && x == ArrivalParent(t) then
      m.(childNotReady := m.childNotReady[ArrivalSlot(t) := false])
    else if n.pc.Wake? && x == 2 * t + 1 + n.pc.k then
      m.(parentSense := n.sense)
    else
      m
  }

  function After(P: nat, n: Node, t: nat, m: Node, x: nat): Node
    requires WellFormedNode(n, t) && WellFormedNode(m, x)
  {
    if x == t then Own(P, n, t) else Remote(n, t, m, x)
  }

  /** The state after one step of thread `t`. */
  function Step(P: nat, s: State, t: nat): State
    requires WellFormed(P, s) && t < P
  {
    seq(P, x requires 0 <= x < P && WellFormed(P, s) => After(P, s[t], t, s[x], x))
  }

  predicate Next(P: nat, s: State, s': State)
    requires WellFormed(P, s)
  {
    s' == s || exists t: nat :: t < P && s' == Step(P, s, t)
  }

  ghost predicate IsRun(P: nat, run: seq<State>) {
    && |run| >= 1
    && Init(P, run[0])
    && (forall k :: 0 <= k < |run| ==> WellFormed(P, run[k]))
    && forall k :: 0 <= k < |run| - 1 ==> Next(P, run[k], run[k + 1])
  }

  // ---------------------------------------------------------------- counting accesses

  function One(b: bool): nat {
    if b then 1 else 0
  }

  /** Calls of `wait` started. */
  function Entered(n: Node): nat {
    n.episodes + One(!n.pc.Idle?)
  }

  /** Episodes in which the node has found child flag `k` cleared. */
  function Checked(n: Node, k: nat): nat {
    n.episodes + One(!n.pc.Idle? && !(n.pc.Check? && n.pc.k <= k))
  }

  /** Episodes in which the node has re-armed child flag `k`. */
  function Rearmed(n: Node, k: nat): nat {
    n.episodes + One(!n.pc.Idle? && !n.pc.Check? && !(n.pc.Reset? && n.pc.k <= k))
  }

  /** Episodes in which the node has reported its whole subtree. */
  function Arrived(n: Node): nat {
    n.episodes + One(n.pc.SpinSense? || n.pc.Wake? || n.pc.Flip?)
  }

  /** Episodes in which the node has been released. */
  function Released(n: Node): nat {
    n.episodes + One(n.pc.Wake? || n.pc.Flip?)
  }

  /** Episodes in which the node has woken its wake-up child `k`. */
  function Woke(n: Node, k: nat): nat {
    n.episodes + One(n.pc.Flip? || (n.pc.Wake? && k < n.pc.k))
  }

  // ---------------------------------------------------------------- the invariant

  predicate SenseOk(n: Node) {
    n.sense == (n.episodes % 2 == 0)
  }

  /** Flag `k` between parent node `p` and child node `c`: it is raised exactly while the parent
      has re-armed it as often as the child has arrived. */
  predicate ArrivalEdge(p: Node, k: nat, c: Node) {
    && |p.childNotReady| == 4 && k < 4
    && Checked(p, k) <= Arrived(c)
    && Rearmed(p, k) <= Arrived(c) <= Rearmed(p, k) + 1
    && p.childNotReady[k] == (Arrived(c) == Rearmed(p, k))
  }

  /** The sense word of `c` alternates with the wake-ups it has been sent. */
  predicate WakeEdge(p: Node, k: nat, c: Node) {
    && Released(c) <= Woke(p, k)
    && c.parentSense == (Woke(p, k) % 2 == 1)
  }

  predicate ArrivalOk(s: State, c: nat)
    requires 1 <= c < |s|
  {
    ArrivalEdge(s[ArrivalParent(c)], ArrivalSlot(c), s[c])
  }

  predicate WakeOk(s: State, c: nat)
    requires 1 <= c < |s|
  {
    WakeEdge(s[WakeParent(c)], WakeSlot(c), s[c])
  }

  predicate Inv(P: nat, s: State) {
    && WellFormed(P, s)
    && (forall i :: 0 <= i < P ==> SenseOk(s[i]))
    && (forall i, k :: 0 <= i < P && 0 <= k < 4 && !HaveChild(P, i, k) ==> !s[i].childNotReady[k])
    && (forall c :: 1 <= c < P ==> ArrivalOk(s, c))
    && (forall c :: 1 <= c < P ==> WakeOk(s, c))
  }

  // ---------------------------------------------------------------- consequences of the invariant

  /** Arrival is collected up the 4-ary tree: the root has arrived no more often than anyone. */
  lemma {:induction false} RootArrivesLast(P: nat, s: State, d: nat)
    requires Inv(P, s) && d < P
    ensures Arrived(s[0]) <= Arrived(s[d])
  {
    if d > 0 {
      RootArrivesLast(P, s, ArrivalParent(d));
      assert ArrivalOk(s, d);
    }
  }

  /** Release is spread down the binary tree: nobody is released more often than the root. */
  lemma {:induction false} RootReleasedFirst(P: nat, s: State, i: nat)
    requires Inv(P, s) && i < P
    ensures Released(s[i]) <= Released(s[0])
  {
    if i > 0 {
      RootReleasedFirst(P, s, WakeParent(i));
      assert WakeOk(s, i);
    }
  }

  lemma ReleaseAfterAllArrivals(P: nat, s: State, i: nat, d: nat)
    requires Inv(P, s) && i < P && d < P
    ensures Released(s[i]) <= Arrived(s[d])
    ensures s[i].episodes - 1 <= s[d].episodes <= s[i].episodes + 1
  {
    RootArrivesLast(P, s, d);
    RootReleasedFirst(P, s, i);
    RootArrivesLast(P, s, i);
    RootReleasedFirst(P, s, d);
  }

  /** A child about to report finds its flag raised, so its report cannot be overwritten by the
      parent's re-arming of the previous episode. */
  lemma FlagRaisedBeforeReport(P: nat, s: State, c: nat)
    requires Inv(P, s) && 1 <= c < P && Arrived(s[c]) == s[c].episodes
    ensures Arrived(s[c]) == Rearmed(s[ArrivalParent(c)], ArrivalSlot(c))
  {
    ReleaseAfterAllArrivals(P, s, c, ArrivalParent(c));
    assert ArrivalOk(s, c);
  }

  /** The sense word matches exactly when the wake-up of the current episode has been sent. */
  lemma SenseMatches(P: nat, s: State, c: nat)
    requires Inv(P, s) && 1 <= c < P
    ensures s[c].episodes <= Woke(s[WakeParent(c)], WakeSlot(c)) <= s[c].episodes + 1
    ensures s[c].parentSense == s[c].sense <==> Woke(s[WakeParent(c)], WakeSlot(c)) == s[c].episodes + 1
  {
    assert WakeOk(s, c);
    ReleaseAfterAllArrivals(P, s, WakeParent(c), c);
  }

  // ---------------------------------------------------------------- preservation

  lemma InitEstablishes(P: nat, s: State)
    requires Init(P, s)
    ensures Inv(P, s)
  {
    forall c | 1 <= c < P ensures ArrivalOk(s, c) {
      SlotArithmetic(P, c);
    }
  }

  lemma SlotArithmetic(P: nat, c: nat)
    requires 1 <= c < P
    ensures 4 * ArrivalParent(c) + ArrivalSlot(c) + 1 == c && ArrivalParent(c) < c && ArrivalSlot(c) < 4
    ensures 2 * WakeParent(c) + WakeSlot(c) + 1 == c && WakeParent(c) < c && WakeSlot(c) < 2
  {
  }

  lemma ParentKeepsArrivalEdge(P: nat, p: nat, pn: Node, k: nat, cn: Node)
    requires k < 4 && 4 * p + k + 1 < P && WellFormedNode(pn, p) && ArrivalEdge(pn, k, cn)
    ensures ArrivalEdge(Own(P, pn, p), k, cn)
  {
  }

  lemma ChildKeepsArrivalEdge(P: nat, c: nat, cn: Node, k: nat, pn: Node)
    requires c > 0 && WellFormedNode(cn, c) && ArrivalEdge(pn, k, cn)
    requires cn.pc.SignalParent? ==> Arrived(cn) == Rearmed(pn, k)
    ensures cn.pc.SignalParent? ==> ArrivalEdge(pn.(childNotReady := pn.childNotReady[k := false]), k, Own(P, cn, c))
    ensures !cn.pc.SignalParent? ==> ArrivalEdge(pn, k, Own(P, cn, c))
  {
  }

  lemma StepKeepsArrivalEdge(P: nat, n: Node, t: nat, p: nat, pn: Node, k: nat, c: nat, cn: Node)
    requires k < 4 && 4 * p + k + 1 == c < P
    requires WellFormedNode(n, t) && WellFormedNode(pn, p) && WellFormedNode(cn, c)
    requires (t == p ==> n == pn) && (t == c ==> n == cn)
    requires ArrivalEdge(pn, k, cn)
    requires t == c && n.pc.SignalParent? ==> Arrived(cn) == Rearmed(pn, k)
    ensures ArrivalEdge(After(P, n, t, pn, p), k, After(P, n, t, cn, c))
  {
    if t == p {
      ParentKeepsArrivalEdge(P, p, pn, k, cn);
    } else if t == c {
      ChildKeepsArrivalEdge(P, c, cn, k, pn);
    } else if n.pc.SignalParent? {
      assert !(ArrivalParent(t) == p && ArrivalSlot(t) == k);
    }
  }

  lemma StepKeepsWakeEdge(P: nat, n: Node, t: nat, p: nat, pn: Node, k: nat, c: nat, cn: Node)
    requires k < 2 && 2 * p + k + 1 == c < P
    requires WellFormedNode(n, t) && WellFormedNode(pn, p) && WellFormedNode(cn, c)
    requires (t == p ==> n == pn) && (t == c ==> n == cn)
    requires WakeEdge(pn, k, cn) && SenseOk(pn)
    requires t == c && n.pc.SpinSense? && cn.parentSense == cn.sense ==> Woke(pn, k) == cn.episodes + 1
    ensures WakeEdge(After(P, n, t, pn, p), k, After(P, n, t, cn, c))
  {
  }

  lemma StepKeepsNode(P: nat, n: Node, t: nat, x: nat, m: Node)
    requires t < P && x < P && WellFormedNode(n, t) && WellFormedNode(m, x) && SenseOk(m)
    requires t == x ==> n == m
    requires forall k :: 0 <= k < 4 && !HaveChild(P, x, k) ==> !m.childNotReady[k]
    ensures WellFormedNode(After(P, n, t, m, x), x) && SenseOk(After(P, n, t, m, x))
    ensures forall k :: 0 <= k < 4 && !HaveChild(P, x, k) ==> !After(P, n, t, m, x).childNotReady[k]
  {
  }

  lemma NextPreserves(P: nat, s: State, s': State)
    requires Inv(P, s) && Next(P, s, s')
    ensures Inv(P, s')
  {
    if s' != s {
      var t: nat :| t < P && s' == Step(P, s, t);
      forall i | 0 <= i < P
        ensures WellFormedNode(s'[i], i) && SenseOk(s'[i])
        ensures forall k :: 0 <= k < 4 && !HaveChild(P, i, k) ==> !s'[i].childNotReady[k]
      {
        StepKeepsNode(P, s[t], t, i, s[i]);
      }
      forall c | 1 <= c < P ensures ArrivalOk(s', c) && WakeOk(s', c) {
        StepKeepsEdges(P, s, t, c);
      }
    }
  }

  lemma StepKeepsEdges(P: nat, s: State, t: nat, c: nat)
    requires Inv(P, s) && t < P && 1 <= c < P
    ensures ArrivalOk(Step(P, s, t), c) && WakeOk(Step(P, s, t), c)
  {
    SlotArithmetic(P, c);
    assert ArrivalOk(s, c) && WakeOk(s, c);
    SenseMatches(P, s, c);
    if t == c && s[c].pc.SignalParent? {
      FlagRaisedBeforeReport(P, s, c);
    }
    var p, q := ArrivalParent(c), WakeParent(c);
    StepKeepsArrivalEdge(P, s[t], t, p, s[p], ArrivalSlot(c), c, s[c]);
    StepKeepsWakeEdge(P, s[t], t, q, s[q], WakeSlot(c), c, s[c]);
  }

  lemma {:induction false} RunInv(P: nat, run: seq<State>, k: nat)
    requires IsRun(P, run) && k < |run|
    ensures Inv(P, run[k])
  {
    if k == 0 {
      InitEstablishes(P, run[0]);
    } else {
      RunInv(P, run, k - 1);
      NextPreserves(P, run[k - 1], run[k]);
    }
  }

  // ---------------------------------------------------------------- the theorems

  /** Barrier safety over all runs: a thread released from its `e`-th call, and so also one that
      has completed it, finds that every thread of the arrival tree has arrived `e` times. */
  lemma BarrierSafety(P: nat, run: seq<State>, k: nat, i: nat, d: nat)
    requires IsRun(P, run) && k < |run| && i < P && d < P
    ensures |run[k]| == P
    ensures run[k][i].episodes <= Released(run[k][i]) <= Arrived(run[k][d]) <= Entered(run[k][d])
    ensures run[k][i].episodes - 1 <= run[k][d].episodes <= run[k][i].episodes + 1
  {
    RunInv(P, run, k);
    ReleaseAfterAllArrivals(P, run[k], i, d);
  }

  /** No arrival is lost: a report always turns a raised flag into a lowered one, and a re-arming
      always turns a lowered flag, whose child has arrived in this episode, into a raised one. */
  lemma NoArrivalLost(P: nat, run: seq<State>, k: nat, c: nat)
    requires IsRun(P, run) && k < |run| && 1 <= c < P
    ensures var s := run[k];
            var p, f := s[ArrivalParent(c)], ArrivalSlot(c);
            && |p.childNotReady| == 4
            && (s[c].pc.SignalParent? ==> p.childNotReady[f])
            && (p.pc == Reset(f) ==> !p.childNotReady[f] && Arrived(s[c]) == p.episodes + 1)
  {
    RunInv(P, run, k);
    var s := run[k];
    SlotArithmetic(P, c);
    assert ArrivalOk(s, c);
    if s[c].pc.SignalParent? {
      FlagRaisedBeforeReport(P, s, c);
    }
  }

  // ---------------------------------------------------------------- progress

  /** Thread `t` is not merely spinning: its next step is a productive one. */
  predicate Productive(P: nat, s: State, t: nat)
    requires WellFormed(P, s) && t < P
  {
    match s[t].pc
    case Idle => false
    case Check(k) => !s[t].childNotReady[k]
    case SpinSense => s[t].parentSense == s[t].sense
    case _ => true
  }

  /** If the whole arrival tree below `i` is stuck, then `i` has arrived. */
  lemma {:induction false} StuckMeansArrived(P: nat, s: State, m: nat, i: nat)
    requires Inv(P, s) && i < P
    requires forall j :: 0 <= j < P ==> m <= s[j].episodes
    requires forall j :: 0 <= j < P && s[j].episodes == m ==> !s[j].pc.Idle?
    requires forall t: nat :: t < P ==> !Productive(P, s, t)
    ensures Arrived(s[i]) >= m + 1
    decreases P - i
  {
    if s[i].episodes == m && s[i].pc.Check? {
      var k := s[i].pc.k;
      assert !Productive(P, s, i);
      var c := 4 * i + k + 1;
      assert HaveChild(P, i, k);
      assert ArrivalParent(c) == i && ArrivalSlot(c) == k && ArrivalOk(s, c);
      StuckMeansArrived(P, s, m, c);
    } else {
      assert !Productive(P, s, i);
    }
  }

  /** If everything is stuck, everybody has been woken past episode `m`. */
  lemma {:induction false} StuckMeansWoken(P: nat, s: State, m: nat, i: nat)
    requires Inv(P, s) && i < P
    requires forall j :: 0 <= j < P ==> m <= s[j].episodes
    requires forall j :: 0 <= j < P && s[j].episodes == m ==> !s[j].pc.Idle?
    requires forall t: nat :: t < P ==> !Productive(P, s, t)
    ensures s[i].episodes >= m + 1
  {
    StuckMeansArrived(P, s, m, i);
    assert !Productive(P, s, i);
    if i > 0 {
      StuckMeansWoken(P, s, m, WakeParent(i));
      SenseMatches(P, s, i);
    }
  }

  /** Every thread that has completed as few calls as `w`, and none has completed fewer, is inside `wait`. */
  predicate AllIn(P: nat, s: State, w: nat) {
    && |s| == P && w < P
    && forall j :: 0 <= j < P ==>
         && s[w].episodes <= s[j].episodes
         && (s[j].pc.Idle? ==> s[w].episodes < s[j].episodes)
  }

  lemma SomeoneMoves(P: nat, s: State, w: nat) returns (t: nat)
    requires Inv(P, s) && AllIn(P, s, w)
    ensures t < P && Productive(P, s, t)
  {
    if forall t: nat :: t < P ==> !Productive(P, s, t) {
      StuckMeansWoken(P, s, s[w].episodes, w);
      assert false;
    }
    t :| t < P && Productive(P, s, t);
  }

  /** The program points a thread still has to pass in this call. */
  function Rank(n: Node): nat {
    match n.pc
    case Idle => 0
    case Flip => 1
    case Wake(k) => if k == 0 then 3 else 2
    case SpinSense => 4
    case SignalParent => 5
    case Reset(k) => if k < 4 then 9 - k else 5
    case Check(k) => if k < 4 then 13 - k else 9
  }

  function Ranks(s: State): seq<nat> {
    seq(|s|, i requires 0 <= i < |s| => Rank(s[i]))
  }

  function WorkLeft(s: State): nat {
    SumOf(Ranks(s))
  }

  /** Every productive step lowers the work left. */
  lemma ProductiveDecreases(P: nat, s: State, t: nat)
    requires WellFormed(P, s) && t < P && Productive(P, s, t)
    ensures WorkLeft(Step(P, s, t)) < WorkLeft(s)
  {
    var s' := Step(P, s, t);
    SumUpdate(Ranks(s), t, Rank(s'[t]));
    assert Ranks(s') == Ranks(s)[t := Rank(s'[t])];
  }

  ghost predicate Moves(P: nat, s: State, s': State) {
    WellFormed(P, s) && exists t: nat :: t < P && Productive(P, s, t) && s' == Step(P, s, t)
  }

  /** A continuation in which nobody calls `wait` anew and nobody spins. */
  ghost predicate Schedule(P: nat, st: seq<State>) {
    |st| >= 1 && forall k :: 0 <= k < |st| - 1 ==> Moves(P, st[k], st[k + 1])
  }

  ghost predicate Stuck(P: nat, s: State) {
    forall s': State :: !Moves(P, s, s')
  }

  lemma MovesPreserves(P: nat, s: State, s': State)
    requires Inv(P, s) && Moves(P, s, s')
    ensures Inv(P, s') && WorkLeft(s') < WorkLeft(s)
  {
    var t: nat :| t < P && Productive(P, s, t) && s' == Step(P, s, t);
    NextPreserves(P, s, s');
    ProductiveDecreases(P, s, t);
  }

  /** A productive step moves one thread, which is outside afterwards exactly if it has completed its call. */
  lemma OthersStay(P: nat, s: State, t: nat)
    requires WellFormed(P, s) && t < P && Productive(P, s, t)
    ensures var s' := Step(P, s, t);
            && (forall x :: 0 <= x < P && x != t ==> s'[x].pc == s[x].pc && s'[x].episodes == s[x].episodes)
            && !s[t].pc.Idle? && s'[t].episodes == s[t].episodes + One(s'[t].pc.Idle?)
  {
    var s' := Step(P, s, t);
    assert s'[t] == Own(P, s[t], t);
    forall x | 0 <= x < P && x != t ensures s'[x].pc == s[x].pc && s'[x].episodes == s[x].episodes {
      assert s'[x] == Remote(s[t], t, s[x], x);
    }
  }

  /** A step of another kind than the return of `w` leaves `w` where everybody waits for it. */
  lemma StillIn(P: nat, s: State, s': State, w: nat)
    requires Moves(P, s, s') && AllIn(P, s, w)
    ensures |s'| == P && (AllIn(P, s', w) || s'[w].episodes == s[w].episodes + 1)
    ensures AllIn(P, s', w) ==> s'[w].episodes == s[w].episodes
  {
    var t: nat :| t < P && Productive(P, s, t) && s' == Step(P, s, t);
    OthersStay(P, s, t);
  }

  lemma {:induction false} ScheduleEnds(P: nat, st: seq<State>, k: nat)
    requires Schedule(P, st) && Inv(P, st[0]) && k < |st|
    ensures Inv(P, st[k]) && k + WorkLeft(st[k]) <= WorkLeft(st[0])
  {
    if k > 0 {
      ScheduleEnds(P, st, k - 1);
      MovesPreserves(P, st[k - 1], st[k]);
    }
  }

  /** Along a schedule `w` stays inside until it has completed its call. */
  lemma {:induction false} InUntilDone(P: nat, st: seq<State>, w: nat, k: nat)
    requires Schedule(P, st) && Inv(P, st[0]) && AllIn(P, st[0], w) && k < |st|
    ensures |st[k]| == P && st[k][w].episodes >= st[0][w].episodes
    ensures st[k][w].episodes > st[0][w].episodes || AllIn(P, st[k], w)
  {
    if k > 0 {
      InUntilDone(P, st, w, k - 1);
      var s, s' := st[k - 1], st[k];
      assert Moves(P, s, s');
      if AllIn(P, s, w) {
        StillIn(P, s, s', w);
      }
    }
  }

  /** A schedule that brings `w` out of its call. */
  lemma {:induction false} GetsThrough(P: nat, s: State, w: nat) returns (st: seq<State>)
    requires Inv(P, s) && AllIn(P, s, w)
    ensures Schedule(P, st) && st[0] == s && |st[|st| - 1]| == P
    ensures st[|st| - 1][w].episodes == s[w].episodes + 1
    decreases WorkLeft(s)
  {
    var t := SomeoneMoves(P, s, w);
    var s' := Step(P, s, t);
    assert Moves(P, s, s');
    MovesPreserves(P, s, s');
    StillIn(P, s, s', w);
    if AllIn(P, s', w) {
      var rest := GetsThrough(P, s', w);
      st := [s] + rest;
      forall k | 0 <= k < |st| - 1 ensures Moves(P, st[k], st[k + 1]) {
        if k > 0 {
          assert Moves(P, rest[k - 1], rest[k]);
        }
      }
    } else {
      st := [s, s'];
    }
  }

  /** No deadlock: when every thread that is as far behind as `w` is inside `wait`, some thread has a
      productive step, a schedule of such steps completes the call of `w`, and every schedule of
      such steps that cannot be continued has completed it. */
  lemma NoDeadlock(P: nat, run: seq<State>, k: nat, w: nat)
    requires IsRun(P, run) && k < |run| && AllIn(P, run[k], w)
    ensures exists t: nat :: t < P && Productive(P, run[k], t)
    ensures exists st: seq<State> ::
              Schedule(P, st) && st[0] == run[k] && |st[|st| - 1]| == P &&
              st[|st| - 1][w].episodes == run[k][w].episodes + 1
    ensures forall st: seq<State> :: Schedule(P, st) && st[0] == run[k] ==>
              && |st| - 1 <= WorkLeft(run[k])
              && (Stuck(P, st[|st| - 1]) ==> |st[|st| - 1]| == P && st[|st| - 1][w].episodes > run[k][w].episodes)
  {
    RunInv(P, run, k);
    var s := run[k];
    var t := SomeoneMoves(P, s, w);
    var st := GetsThrough(P, s, w);
    forall st: seq<State> | Schedule(P, st) && st[0] == s
      ensures |st| - 1 <= WorkLeft(s)
      ensures Stuck(P, st[|st| - 1]) ==> |st[|st| - 1]| == P && st[|st| - 1][w].episodes > s[w].episodes
    {
      MustComplete(P, st, w);
    }
  }

  lemma MustComplete(P: nat, st: seq<State>, w: nat)
    requires Schedule(P, st) && Inv(P, st[0]) && AllIn(P, st[0], w)
    ensures |st| - 1 <= WorkLeft(st[0]) && |st[|st| - 1]| == P
    ensures Stuck(P, st[|st| - 1]) ==> st[|st| - 1][w].episodes > st[0][w].episodes
  {
    var last := st[|st| - 1];
    ScheduleEnds(P, st, |st| - 1);
    InUntilDone(P, st, w, |st| - 1);
    if AllIn(P, last, w) {
      var t := SomeoneMoves(P, last, w);
      assert Moves(P, last, Step(P, last, t));
    }
  }

  // ---------------------------------------------------------------- whole episodes

  /** Every thread has completed `n` calls, and the first `m` of them have begun the next one. */
  predicate Entering(P: nat, s: State, n: nat, m: nat) {
    && |s| == P
    && forall i :: 0 <= i < P ==> s[i].episodes == n && (s[i].pc.Idle? <==> i >= m)
  }

  /** Every thread is inside its next call or has completed it. */
  predicate Leaving(P: nat, s: State, n: nat) {
    && |s| == P
    && forall i :: 0 <= i < P ==> s[i].episodes == n + if s[i].pc.Idle? then 1 else 0
  }

  lemma Extend(P: nat, run: seq<State>, s': State) returns (run': seq<State>)
    requires IsRun(P, run) && Next(P, run[|run| - 1], s') && WellFormed(P, s')
    ensures run' == run + [s'] && IsRun(P, run')
  {
    run' := run + [s'];
    forall k | 0 <= k < |run'| - 1 ensures Next(P, run'[k], run'[k + 1]) {
      if k < |run| - 1 {
        assert Next(P, run[k], run[k + 1]);
      }
    }
  }

  /** All threads call `wait`, one after the other. */
  lemma {:induction false} AllEnter(P: nat, run: seq<State>, n: nat, m: nat) returns (run': seq<State>)
    requires IsRun(P, run) && m <= P && Entering(P, run[|run| - 1], n, m)
    ensures IsRun(P, run') && run'[0] == run[0] && Entering(P, run'[|run'| - 1], n, P)
    decreases P - m
  {
    var s := run[|run| - 1];
    if m == P {
      run' := run;
    } else {
      RunInv(P, run, |run| - 1);
      var s' := Step(P, s, m);
      assert forall x :: 0 <= x < P ==> s'[x] == After(P, s[m], m, s[x], x);
      assert Next(P, s, s');
      NextPreserves(P, s, s');
      run' := Extend(P, run, s');
      run' := AllEnter(P, run', n, m + 1);
    }
  }

  lemma LeavingStep(P: nat, s: State, s': State, n: nat)
    requires Moves(P, s, s') && Leaving(P, s, n)
    ensures Leaving(P, s', n)
  {
    var t: nat :| t < P && Productive(P, s, t) && s' == Step(P, s, t);
    OthersStay(P, s, t);
  }

  /** All threads complete their call. */
  lemma {:induction false} AllLeave(P: nat, run: seq<State>, n: nat) returns (run': seq<State>)
    requires IsRun(P, run) && Leaving(P, run[|run| - 1], n)
    ensures IsRun(P, run') && run'[0] == run[0] && Entering(P, run'[|run'| - 1], n + 1, 0)
    decreases WorkLeft(run[|run| - 1])
  {
    var s := run[|run| - 1];
    RunInv(P, run, |run| - 1);
    if w: nat :| w < P && !s[w].pc.Idle? {
      var t := SomeoneMoves(P, s, w);
      var s' := Step(P, s, t);
      assert Moves(P, s, s');
      MovesPreserves(P, s, s');
      LeavingStep(P, s, s', n);
      run' := Extend(P, run, s');
      run' := AllLeave(P, run', n);
    } else {
      run' := run;
    }
  }

  /** For every `n` there is a run in which every thread completes `n` calls. */
  lemma {:induction false} RunOfEpisodes(P: nat, first: State, n: nat) returns (run: seq<State>)
    requires Init(P, first)
    ensures IsRun(P, run) && run[0] == first && Entering(P, run[|run| - 1], n, 0)
  {
    if n == 0 {
      run := [first];
    } else {
      run := RunOfEpisodes(P, first, n - 1);
      run := AllEnter(P, run, n - 1, 0);
      run := AllLeave(P, run, n - 1);
    }
  }

  // ---------------------------------------------------------------- initialisation

  /** `_reinit`: raises a flag for every existing child and sets sense and parent sense apart. */
  method Reinit(P: nat) returns (s: State)
    ensures Init(P, s)
    ensures forall i, k :: 0 <= i < P && 0 <= k < 4 ==> (s[i].childNotReady[k] <==> 4 * i + k + 1 < P)
  {
    s := [];
    var i := 0;
    while i < P
      invariant 0 <= i <= P && |s| == i
      invariant forall j :: 0 <= j < i ==> s[j] == InitialNode(P, j)
    {
      var flags: seq<bool> := [];
      var k := 0;
      while k < 4
        invariant 0 <= k <= 4 && |flags| == k
        invariant forall j :: 0 <= j < k ==> flags[j] == HaveChild(P, i, j)
      {
        flags := flags + [HaveChild(P, i, k)];
        k := k + 1;
      }
      s := s + [Node(Idle, flags, false, true, 0)];
      i := i + 1;
    }
  }
}
