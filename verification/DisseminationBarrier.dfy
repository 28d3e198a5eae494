/**
 The dissemination barrier as a transition system: one atomic access per step, any
 number of threads, any interleaving, unboundedly many episodes.

 Each thread keeps only a parity bit and a sense bit; the flags it waits on are never
 reset. `episodes` counts the completed calls of `wait` and is history only: no guard
 reads it.
 */
module DisseminationBarrier {
  import opened Measures
  import opened Powers

  /** Program point of a thread: outside `wait`, about to write its partner's flag of round `r`
      (or, at `r == LogUp(P)`, about to leave), or spinning on its own flag of round `r`. */
  datatype Pc = Idle | Signal(r: nat) | Spin(r: nat)

  datatype Thread = Thread(pc: Pc, parity: int, sense: int, episodes: nat)

  /** A flag word: the owner, the round, and which of the two parity copies. */
  datatype Slot = Slot(owner: nat, round: nat, copy: int)

  datatype State = State(threads: seq<Thread>, flags: map<Slot, int>)

  // ---------------------------------------------------------------- rounds and partners

  /** FAST_LOG2: position of the highest set bit. */
  function Log2(x: nat): (l: nat)
    requires x >= 1
    ensures Pow2(l) <= x < 2 * Pow2(l)
  {
    if x == 1 then 0 else 1 + Log2(x / 2)
  }

  /** FAST_LOG2_UP: one more when the power of two below `x` does not reach it. */
  function LogUp(x: nat): (l: nat)
    requires x >= 1
    ensures x <= Pow2(l)
    ensures forall k: nat :: k < l ==> Pow2(k) < x
  {
    var l := Log2(x);
    var up := if x - Pow2(l) != 0 then l + 1 else l;
    assert forall k: nat :: k < up ==> Pow2(k) < x by {
      forall k: nat | k < up ensures Pow2(k) < x {
        if k < l { Pow2Strict(k, l); }
      }
    }
    up
  }

  /** The thread whose round-`r` flag thread `i` writes. */
  function Partner(P: nat, i: nat, r: nat): (j: nat)
    requires i < P
    ensures j < P
  {
    (i + Pow2(r)) % P
  }

  /** The thread `d` places behind `j` on the ring. */
  function Behind(P: nat, j: nat, d: nat): (i: nat)
    requires j < P && d < P
    ensures i < P
  {
    if d <= j then j - d else j + P - d
  }

  lemma PartnerOfBehind(P: nat, i: nat, r: nat)
    requires i < P && Pow2(r) < P
    ensures Partner(P, i, r) == if i + Pow2(r) < P then i + Pow2(r) else i + Pow2(r) - P
    ensures Behind(P, Partner(P, i, r), Pow2(r)) == i
    ensures Partner(P, Behind(P, i, Pow2(r)), r) == i
  {
    var d := Pow2(r);
    ModuloOnRing(P, i, d);
    ModuloOnRing(P, Behind(P, i, d), d);
  }

  lemma ModuloOnRing(P: nat, i: nat, d: nat)
    requires i < P && d < P
    ensures (i + d) % P == if i + d < P then i + d else i + d - P
  {
    if i + d >= P {
      assert (i + d) % P == (i + d - P) % P;
    }
  }

  lemma BehindTwice(P: nat, j: nat, a: nat, b: nat)
    requires j < P && a + b < P
    ensures Behind(P, Behind(P, j, a), b) == Behind(P, j, a + b)
  {
  }

  // ---------------------------------------------------------------- the transition system

  predicate Init(P: nat, s: State)
    requires P >= 1
  {
    && |s.threads| == P
    && (forall i :: 0 <= i < P ==> s.threads[i] == Thread(Idle, 0, 1, 0))
    && SlotsAllocated(P, s)
    && (forall k | k in s.flags :: s.flags[k] == 0)
  }

  predicate SlotsAllocated(P: nat, s: State)
    requires P >= 1
  {
    forall j, r, c | 0 <= j < P && 0 <= r < LogUp(P) && 0 <= c < 2 :: Slot(j, r, c) in s.flags
  }

  predicate IsThread(P: nat, s: State, t: nat) {
    t < P == |s.threads|
  }

  /** A call of `wait` begins. */
  predicate Enter(P: nat, s: State, s': State, t: nat)
    requires P >= 1 && IsThread(P, s, t)
  {
    && s.threads[t].pc == Idle
    && s' == s.(threads := s.threads[t := s.threads[t].(pc := Signal(0))])
  }

  /** The store to the partner's flag. */
  predicate Write(P: nat, s: State, s': State, t: nat)
    requires P >= 1 && IsThread(P, s, t)
  {
    var th := s.threads[t];
    && th.pc.Signal? && th.pc.r < LogUp(P)
    && s' == State(s.threads[t := th.(pc := Spin(th.pc.r))],
                   s.flags[Slot(Partner(P, t, th.pc.r), th.pc.r, th.parity) := th.sense])
  }

  /** The load of the own flag, when it ends the spin loop. (A load that finds another value
      changes nothing and is a stuttering step.) */
  predicate Pass(P: nat, s: State, s': State, t: nat)
    requires P >= 1 && IsThread(P, s, t)
  {
    var th := s.threads[t];
    && th.pc.Spin?
    && Slot(t, th.pc.r, th.parity) in s.flags
    && s.flags[Slot(t, th.pc.r, th.parity)] == th.sense
    && s' == s.(threads := s.threads[t := th.(pc := Signal(th.pc.r + 1))])
  }

  /** The end of the round loop and the update of sense and parity. */
  predicate Leave(P: nat, s: State, s': State, t: nat)
    requires P >= 1 && IsThread(P, s, t)
  {
    var th := s.threads[t];
    && th.pc == Signal(LogUp(P))
    && s' == s.(threads := s.threads[t := Thread(
                  Idle,
                  1 - th.parity,
                  if th.parity == 1 then 1 - th.sense else th.sense,
                  th.episodes + 1)])
  }

  predicate Progress(P: nat, s: State, s': State, t: nat)
    requires P >= 1 && IsThread(P, s, t)
  {
    Write(P, s, s', t) || Pass(P, s, s', t) || Leave(P, s, s', t)
  }

  ghost predicate Next(P: nat, s: State, s': State)
    requires P >= 1
  {
    || s' == s
    || exists t: nat :: IsThread(P, s, t) && (Enter(P, s, s', t) || Progress(P, s, s', t))
  }

  /** A finite run: an initial state and any interleaving of steps. */
  ghost predicate IsRun(P: nat, run: seq<State>)
    requires P >= 1
  {
    && |run| >= 1
    && Init(P, run[0])
    && forall k :: 0 <= k < |run| - 1 ==> Next(P, run[k], run[k + 1])
  }

  // ---------------------------------------------------------------- counting accesses

  /** How many calls of `wait` the thread has started. */
  function Entered(th: Thread): nat {
    th.episodes + if th.pc.Idle? then 0 else 1
  }

  /** How many times the thread has written its round-`r` partner flag. */
  function Signalled(th: Thread, r: nat): nat {
    th.episodes + if (th.pc.Spin? && r <= th.pc.r) || (th.pc.Signal? && r < th.pc.r) then 1 else 0
  }

  /** How many times the thread has seen its own round-`r` flag set. */
  function Passed(th: Thread, r: nat): nat {
    th.episodes + if !th.pc.Idle? && r < th.pc.r then 1 else 0
  }

  /** The value of a flag copy after its writer has signalled `count` times: the copy is
      written every second episode, alternating 1 and 0. */
  function FlagAfter(count: nat, copy: int): int
    requires 0 <= copy < 2
  {
    ((count + 1 - copy) / 2) % 2
  }

  // ---------------------------------------------------------------- the invariant

  predicate LocalOk(P: nat, th: Thread)
    requires P >= 1
  {
    && th.parity == th.episodes % 2
    && th.sense == 1 - (th.episodes / 2) % 2
    && (th.pc.Signal? ==> th.pc.r <= LogUp(P))
    && (th.pc.Spin? ==> th.pc.r < LogUp(P))
  }

  predicate FlagsOk(P: nat, s: State)
    requires P >= 1 && |s.threads| == P
  {
    && SlotsAllocated(P, s)
    && forall i, r, c | 0 <= i < P && 0 <= r < LogUp(P) && 0 <= c < 2 ::
         Slot(Partner(P, i, r), r, c) in s.flags &&
         s.flags[Slot(Partner(P, i, r), r, c)] == FlagAfter(Signalled(s.threads[i], r), c)
  }

  /** What passing round `r` tells a thread: the `2^(r+1)` threads behind it have entered. */
  predicate KnowledgeOk(P: nat, s: State)
    requires P >= 1 && |s.threads| == P
  {
    forall j, r, d | 0 <= j < P && 0 <= r < LogUp(P) && 0 <= d < P && d < 2 * Pow2(r) ::
      Passed(s.threads[j], r) <= Entered(s.threads[Behind(P, j, d)])
  }

  predicate Inv(P: nat, s: State)
    requires P >= 1
  {
    && |s.threads| == P
    && (forall i :: 0 <= i < P ==> LocalOk(P, s.threads[i]))
    && FlagsOk(P, s)
    && KnowledgeOk(P, s)
  }

  // ---------------------------------------------------------------- consequences of the invariant

  /** The barrier property in counters: whatever a thread has completed, everybody has entered. */
  lemma NobodyLeavesEarly(P: nat, s: State, i: nat, j: nat)
    requires P >= 1 && Inv(P, s) && i < P && j < P
    ensures s.threads[i].episodes <= Entered(s.threads[j])
    ensures s.threads[i].pc == Signal(LogUp(P)) ==> s.threads[i].episodes + 1 <= Entered(s.threads[j])
  {
    var L := LogUp(P);
    if i != j {
      assert L > 0;
      var d := if j <= i then i - j else i + P - j;
      assert Behind(P, i, d) == j;
      assert 2 * Pow2(L - 1) == Pow2(L);
      assert Passed(s.threads[i], L - 1) <= Entered(s.threads[Behind(P, i, d)]);
    }
  }

  lemma AtMostOneApart(P: nat, s: State, i: nat, j: nat)
    requires P >= 1 && Inv(P, s) && i < P && j < P
    ensures s.threads[i].episodes - 1 <= s.threads[j].episodes <= s.threads[i].episodes + 1
  {
    NobodyLeavesEarly(P, s, i, j);
    NobodyLeavesEarly(P, s, j, i);
  }

  /** Sense and parity decide the spin exactly: the flag matches iff the writer has signalled
      in this very episode. */
  lemma FlagMatches(P: nat, s: State, t: nat)
    requires P >= 1 && Inv(P, s) && t < P && s.threads[t].pc.Spin?
    ensures var th := s.threads[t];
            && Slot(t, th.pc.r, th.parity) in s.flags
            && Pow2(th.pc.r) < P
            && (s.flags[Slot(t, th.pc.r, th.parity)] == th.sense <==>
                Signalled(s.threads[Behind(P, t, Pow2(th.pc.r))], th.pc.r) >= th.episodes + 1)
  {
    var th := s.threads[t];
    var r := th.pc.r;
    assert Pow2(r) < P;
    var i := Behind(P, t, Pow2(r));
    PartnerOfBehind(P, t, r);
    AtMostOneApart(P, s, i, t);
    assert s.flags[Slot(Partner(P, i, r), r, th.parity)] == FlagAfter(Signalled(s.threads[i], r), th.parity);
    FlagArithmetic(th.episodes, Signalled(s.threads[i], r));
  }

  lemma FlagArithmetic(e: nat, count: nat)
    requires e - 1 <= count <= e + 2
    ensures FlagAfter(count, e % 2) == 1 - (e / 2) % 2 <==> count >= e + 1
  {
    var m := (count + 1 - e % 2) / 2;
    assert m == if count >= e + 1 then e / 2 + 1 else e / 2;
  }

  // ---------------------------------------------------------------- preservation

  lemma InitEstablishes(P: nat, s: State)
    requires P >= 1 && Init(P, s)
    ensures Inv(P, s)
  {
  }

  lemma EnterPreserves(P: nat, s: State, s': State, t: nat)
    requires P >= 1 && Inv(P, s) && t < P && Enter(P, s, s', t)
    ensures Inv(P, s')
  {
    forall i, r, c | 0 <= i < P && 0 <= r < LogUp(P) && 0 <= c < 2
      ensures Slot(Partner(P, i, r), r, c) in s'.flags &&
              s'.flags[Slot(Partner(P, i, r), r, c)] == FlagAfter(Signalled(s'.threads[i], r), c)
    {
      assert Signalled(s'.threads[i], r) == Signalled(s.threads[i], r);
    }
  }

  lemma WritePreserves(P: nat, s: State, s': State, t: nat)
    requires P >= 1 && Inv(P, s) && t < P && Write(P, s, s', t)
    ensures Inv(P, s')
  {
    forall i, r, c | 0 <= i < P && 0 <= r < LogUp(P) && 0 <= c < 2
      ensures Slot(Partner(P, i, r), r, c) in s'.flags &&
              s'.flags[Slot(Partner(P, i, r), r, c)] == FlagAfter(Signalled(s'.threads[i], r), c)
    {
      WriteKeepsFlag(P, s, s', t, i, r, c);
    }
  }

  lemma WriteKeepsFlag(P: nat, s: State, s': State, t: nat, i: nat, r: nat, c: int)
    requires P >= 1 && Inv(P, s) && t < P && Write(P, s, s', t)
    requires i < P && r < LogUp(P) && 0 <= c < 2
    ensures Slot(Partner(P, i, r), r, c) in s'.flags
    ensures s'.flags[Slot(Partner(P, i, r), r, c)] == FlagAfter(Signalled(s'.threads[i], r), c)
  {
    PartnerOfBehind(P, i, r);
    PartnerOfBehind(P, t, r);
    assert s.flags[Slot(Partner(P, i, r), r, c)] == FlagAfter(Signalled(s.threads[i], r), c);
    if i == t && r == s.threads[t].pc.r {
      NewFlag(s.threads[t].episodes, c);
    }
  }

  lemma NewFlag(e: nat, c: int)
    requires 0 <= c < 2
    ensures FlagAfter(e + 1, c) == if c == e % 2 then 1 - (e / 2) % 2 else FlagAfter(e, c)
  {
    if c == e % 2 {
      assert (e + 2 - c) / 2 == e / 2 + 1;
    } else {
      assert (e + 2 - c) / 2 == (e + 1 - c) / 2;
    }
  }

  lemma PassPreserves(P: nat, s: State, s': State, t: nat)
    requires P >= 1 && Inv(P, s) && t < P && Pass(P, s, s', t)
    ensures Inv(P, s')
  {
    var th := s.threads[t];
    FlagMatches(P, s, t);
    forall i, r, c | 0 <= i < P && 0 <= r < LogUp(P) && 0 <= c < 2
      ensures Slot(Partner(P, i, r), r, c) in s'.flags &&
              s'.flags[Slot(Partner(P, i, r), r, c)] == FlagAfter(Signalled(s'.threads[i], r), c)
    {
      assert Signalled(s'.threads[i], r) == Signalled(s.threads[i], r);
    }
    forall j, r, d | 0 <= j < P && 0 <= r < LogUp(P) && 0 <= d < P && d < 2 * Pow2(r)
      ensures Passed(s'.threads[j], r) <= Entered(s'.threads[Behind(P, j, d)])
    {
      if j == t && r == th.pc.r {
        PassTeaches(P, s, t, d);
      }
    }
  }

  /** What thread `j` has learnt in the rounds before `r`: everyone less than `Pow2(r)` behind it has entered. */
  lemma LearntBefore(P: nat, s: State, j: nat, r: nat, d: nat, e: nat)
    requires P >= 1 && Inv(P, s) && j < P && r < LogUp(P) && d < P && d < Pow2(r)
    requires r > 0 ==> Passed(s.threads[j], r - 1) >= e
    requires Entered(s.threads[j]) >= e
    ensures e <= Entered(s.threads[Behind(P, j, d)])
  {
    if r > 0 {
      assert d < 2 * Pow2(r - 1);
      assert Passed(s.threads[j], r - 1) <= Entered(s.threads[Behind(P, j, d)]);
    }
  }

  /** One round doubles what the thread knows. */
  lemma PassTeaches(P: nat, s: State, t: nat, d: nat)
    requires P >= 1 && Inv(P, s) && t < P && s.threads[t].pc.Spin?
    requires Pow2(s.threads[t].pc.r) < P
    requires Signalled(s.threads[Behind(P, t, Pow2(s.threads[t].pc.r))], s.threads[t].pc.r) >= s.threads[t].episodes + 1
    requires d < P && d < 2 * Pow2(s.threads[t].pc.r)
    ensures s.threads[t].episodes + 1 <= Entered(s.threads[Behind(P, t, d)])
  {
    var r := s.threads[t].pc.r;
    var h := Pow2(r);
    if d < h {
      LearntBefore(P, s, t, r, d, s.threads[t].episodes + 1);
    } else {
      BehindTwice(P, t, h, d - h);
      LearntBefore(P, s, Behind(P, t, h), r, d - h, s.threads[t].episodes + 1);
    }
  }

  lemma LeavePreserves(P: nat, s: State, s': State, t: nat)
    requires P >= 1 && Inv(P, s) && t < P && Leave(P, s, s', t)
    ensures Inv(P, s')
  {
    forall i, r, c | 0 <= i < P && 0 <= r < LogUp(P) && 0 <= c < 2
      ensures Slot(Partner(P, i, r), r, c) in s'.flags &&
              s'.flags[Slot(Partner(P, i, r), r, c)] == FlagAfter(Signalled(s'.threads[i], r), c)
    {
      assert Signalled(s'.threads[i], r) == Signalled(s.threads[i], r);
    }
    forall j, r, d | 0 <= j < P && 0 <= r < LogUp(P) && 0 <= d < P && d < 2 * Pow2(r)
      ensures Passed(s'.threads[j], r) <= Entered(s'.threads[Behind(P, j, d)])
    {
      assert Passed(s'.threads[j], r) == Passed(s.threads[j], r);
      assert Entered(s'.threads[Behind(P, j, d)]) == Entered(s.threads[Behind(P, j, d)]);
    }
  }

  lemma NextPreserves(P: nat, s: State, s': State)
    requires P >= 1 && Inv(P, s) && Next(P, s, s')
    ensures Inv(P, s')
  {
    if s' != s {
      var t: nat :| IsThread(P, s, t) && (Enter(P, s, s', t) || Progress(P, s, s', t));
      if Enter(P, s, s', t) {
        EnterPreserves(P, s, s', t);
      } else if Write(P, s, s', t) {
        WritePreserves(P, s, s', t);
      } else if Pass(P, s, s', t) {
        PassPreserves(P, s, s', t);
      } else {
        LeavePreserves(P, s, s', t);
      }
    }
  }

  lemma {:induction false} RunInv(P: nat, run: seq<State>, k: nat)
    requires P >= 1 && IsRun(P, run) && k < |run|
    ensures Inv(P, run[k])
  {
    if k == 0 {
      InitEstablishes(P, run[0]);
    } else {
      RunInv(P, run, k - 1);
      NextPreserves(P, run[k - 1], run[k]);
    }
  }

  // ---------------------------------------------------------------- the theorems

  /** Barrier safety: in every state of every run, a thread that has completed `e` calls, or is
      about to complete its next one, knows that every thread has started as many. */
  lemma BarrierSafety(P: nat, run: seq<State>, k: nat, i: nat, j: nat)
    requires P >= 1 && IsRun(P, run) && k < |run|
    requires i < P && j < P
    ensures |run[k].threads| == P
    ensures var a, b := run[k].threads[i], run[k].threads[j];
            && a.episodes <= Entered(b)
            && (a.pc == Signal(LogUp(P)) ==> a.episodes + 1 <= Entered(b))
            && a.episodes - 1 <= b.episodes <= a.episodes + 1
  {
    RunInv(P, run, k);
    NobodyLeavesEarly(P, run[k], i, j);
    AtMostOneApart(P, run[k], i, j);
  }

  /** No flag is overwritten before its owner has consumed the previous value of that copy:
      a thread writing in episode `e` finds the owner past the same round of episode `e - 2`. */
  lemma NoFlagLost(P: nat, run: seq<State>, k: nat, t: nat)
    requires P >= 1 && IsRun(P, run) && k < |run|
    requires t < P == |run[k].threads|
    requires run[k].threads[t].pc.Signal? && run[k].threads[t].pc.r < LogUp(P)
    ensures var th := run[k].threads[t];
            Passed(run[k].threads[Partner(P, t, th.pc.r)], th.pc.r) >= th.episodes - 1
  {
    RunInv(P, run, k);
    AtMostOneApart(P, run[k], t, Partner(P, t, run[k].threads[t].pc.r));
  }

  /** A spinning thread gets through iff its writer has signalled in the same episode: stale flag
      values of earlier episodes never release it and fresh ones always do. */
  lemma SpinExact(P: nat, run: seq<State>, k: nat, t: nat)
    requires P >= 1 && IsRun(P, run) && k < |run|
    requires t < P == |run[k].threads| && run[k].threads[t].pc.Spin?
    ensures var th := run[k].threads[t];
            && Pow2(th.pc.r) < P
            && Slot(t, th.pc.r, th.parity) in run[k].flags
            && (run[k].flags[Slot(t, th.pc.r, th.parity)] == th.sense <==>
                Signalled(run[k].threads[Behind(P, t, Pow2(th.pc.r))], th.pc.r) >= th.episodes + 1)
  {
    RunInv(P, run, k);
    FlagMatches(P, run[k], t);
  }

  /** Threads in the order of how far they have come: episodes first, then rounds. */
  predicate NotAheadOf(a: Thread, b: Thread) {
    a.episodes < b.episodes || (a.episodes == b.episodes && Round(a) <= Round(b))
  }

  function Round(th: Thread): nat {
    match th.pc
    case Idle => 0
    case Signal(r) => r
    case Spin(r) => r
  }

  lemma {:induction false} Rearmost(s: State, n: nat) returns (t: nat)
    requires 1 <= n <= |s.threads|
    ensures t < n
    ensures forall i :: 0 <= i < n ==> NotAheadOf(s.threads[t], s.threads[i])
  {
    if n == 1 {
      t := 0;
    } else {
      t := Rearmost(s, n - 1);
      if !NotAheadOf(s.threads[t], s.threads[n - 1]) {
        t := n - 1;
      }
    }
  }

  // ---------------------------------------------------------------- progress

  /** Every thread that has completed as few calls as `w`, and none has completed fewer, is inside `wait`. */
  predicate AllIn(P: nat, s: State, w: nat) {
    && |s.threads| == P && w < P
    && forall i :: 0 <= i < P ==>
         && s.threads[w].episodes <= s.threads[i].episodes
         && (s.threads[i].pc.Idle? ==> s.threads[w].episodes < s.threads[i].episodes)
  }

  lemma SomeoneMoves(P: nat, s: State, w: nat) returns (t: nat, s': State)
    requires P >= 1 && Inv(P, s) && AllIn(P, s, w)
    ensures IsThread(P, s, t) && Progress(P, s, s', t)
  {
    t := Rearmost(s, P);
    var th := s.threads[t];
    if th.pc.Signal? {
      s' := CanMove(P, s, t);
    } else {
      var r := th.pc.r;
      FlagMatches(P, s, t);
      var i := Behind(P, t, Pow2(r));
      if s.threads[i].pc == Signal(r) && s.threads[i].episodes == th.episodes {
        t := i;
        s' := CanMove(P, s, i);
      } else {
        assert Signalled(s.threads[i], r) >= th.episodes + 1;
        s' := s.(threads := s.threads[t := th.(pc := Signal(r + 1))]);
      }
    }
  }

  lemma CanMove(P: nat, s: State, t: nat) returns (s': State)
    requires P >= 1 && Inv(P, s) && t < P && s.threads[t].pc.Signal?
    ensures Progress(P, s, s', t)
  {
    var th := s.threads[t];
    if th.pc.r < LogUp(P) {
      s' := State(s.threads[t := th.(pc := Spin(th.pc.r))],
                  s.flags[Slot(Partner(P, t, th.pc.r), th.pc.r, th.parity) := th.sense]);
    } else {
      s' := s.(threads := s.threads[t := Thread(
                 Idle,
                 1 - th.parity,
                 if th.parity == 1 then 1 - th.sense else th.sense,
                 th.episodes + 1)]);
    }
  }

  /** Accesses that end a point of the program which the thread still has to make in this call. */
  function Rank(P: nat, th: Thread): nat
    requires P >= 1
  {
    match th.pc
    case Idle => 0
    case Signal(r) => if r <= LogUp(P) then 2 * (LogUp(P) - r) + 1 else 0
    case Spin(r) => if r < LogUp(P) then 2 * (LogUp(P) - r) else 0
  }

  function Ranks(P: nat, s: State): seq<nat>
    requires P >= 1
  {
    seq(|s.threads|, i requires 0 <= i < |s.threads| => Rank(P, s.threads[i]))
  }

  function WorkLeft(P: nat, s: State): nat
    requires P >= 1
  {
    SumOf(Ranks(P, s))
  }

  /** Every step of a thread inside `wait` leaves exactly one access less to make. */
  lemma ProgressDecreases(P: nat, s: State, s': State, t: nat)
    requires P >= 1 && Inv(P, s) && IsThread(P, s, t) && Progress(P, s, s', t)
    ensures WorkLeft(P, s') == WorkLeft(P, s) - 1
  {
    assert LocalOk(P, s.threads[t]);
    SumUpdate(Ranks(P, s), t, Rank(P, s'.threads[t]));
    assert Ranks(P, s') == Ranks(P, s)[t := Rank(P, s'.threads[t])];
  }

  ghost predicate Moves(P: nat, s: State, s': State)
    requires P >= 1
  {
    exists t: nat :: IsThread(P, s, t) && Progress(P, s, s', t)
  }

  /** A continuation in which nobody calls `wait` anew. */
  ghost predicate Schedule(P: nat, st: seq<State>)
    requires P >= 1
  {
    |st| >= 1 && forall k :: 0 <= k < |st| - 1 ==> Moves(P, st[k], st[k + 1])
  }

  ghost predicate Stuck(P: nat, s: State)
    requires P >= 1
  {
    forall s': State :: !Moves(P, s, s')
  }

  lemma MovesPreserves(P: nat, s: State, s': State)
    requires P >= 1 && Inv(P, s) && Moves(P, s, s')
    ensures Inv(P, s') && WorkLeft(P, s') == WorkLeft(P, s) - 1
  {
    NextPreserves(P, s, s');
    var t: nat :| IsThread(P, s, t) && Progress(P, s, s', t);
    ProgressDecreases(P, s, s', t);
  }

  /** A step of another kind than the return of `w` leaves `w` where everybody waits for it. */
  lemma StillIn(P: nat, s: State, s': State, w: nat)
    requires P >= 1 && Moves(P, s, s') && AllIn(P, s, w)
    ensures |s'.threads| == P && (AllIn(P, s', w) || s'.threads[w].episodes == s.threads[w].episodes + 1)
    ensures AllIn(P, s', w) ==> s'.threads[w].episodes == s.threads[w].episodes
  {
  }

  /** Without new calls no more than the work left can happen. */
  lemma {:induction false} ScheduleEnds(P: nat, st: seq<State>, k: nat)
    requires P >= 1 && Schedule(P, st) && Inv(P, st[0]) && k < |st|
    ensures Inv(P, st[k]) && k + WorkLeft(P, st[k]) == WorkLeft(P, st[0])
  {
    if k > 0 {
      ScheduleEnds(P, st, k - 1);
      MovesPreserves(P, st[k - 1], st[k]);
    }
  }

  /** Along a schedule `w` stays inside until it has completed its call. */
  lemma {:induction false} InUntilDone(P: nat, st: seq<State>, w: nat, k: nat)
    requires P >= 1 && Schedule(P, st) && Inv(P, st[0]) && AllIn(P, st[0], w) && k < |st|
    ensures |st[k].threads| == P
    ensures st[k].threads[w].episodes >= st[0].threads[w].episodes
    ensures st[k].threads[w].episodes > st[0].threads[w].episodes || AllIn(P, st[k], w)
  {
    if k > 0 {
      InUntilDone(P, st, w, k - 1);
      ScheduleEnds(P, st, k - 1);
      var s, s' := st[k - 1], st[k];
      assert Moves(P, s, s');
      NextPreserves(P, s, s');
      if AllIn(P, s, w) {
        StillIn(P, s, s', w);
      }
    }
  }

  /** A schedule that brings `w` out of its call. */
  lemma {:induction false} GetsThrough(P: nat, s: State, w: nat) returns (st: seq<State>)
    requires P >= 1 && Inv(P, s) && AllIn(P, s, w)
    ensures Schedule(P, st) && st[0] == s && |st[|st| - 1].threads| == P
    ensures st[|st| - 1].threads[w].episodes == s.threads[w].episodes + 1
    decreases WorkLeft(P, s)
  {
    var t, s' := SomeoneMoves(P, s, w);
    MovesPreserves(P, s, s');
    StillIn(P, s, s', w);
    if AllIn(P, s', w) {
      var rest := GetsThrough(P, s', w);
      st := [s] + rest;
      forall k | 0 <= k < |st| - 1 ensures Moves(P, st[k], st[k + 1]) {
        if k > 0 {
          assert Moves(P, rest[k - 1], rest[k]);
        }
      }
    } else {
      st := [s, s'];
    }
  }

  /** No deadlock: a run can only be waiting for threads that have not called `wait`. When every
      thread that is as far behind as `w` is inside `wait`, some thread can move, a schedule
      without new calls completes the call of `w`, and every schedule without new calls that
      cannot be continued has completed it. */
  lemma NoDeadlock(P: nat, run: seq<State>, k: nat, w: nat)
    requires P >= 1 && IsRun(P, run) && k < |run| && AllIn(P, run[k], w)
    ensures exists t: nat, s': State :: IsThread(P, run[k], t) && Progress(P, run[k], s', t)
    ensures exists st: seq<State> ::
              Schedule(P, st) && st[0] == run[k] && |st[|st| - 1].threads| == P &&
              st[|st| - 1].threads[w].episodes == run[k].threads[w].episodes + 1
    ensures forall st: seq<State> :: Schedule(P, st) && st[0] == run[k] ==>
              && |st| - 1 <= WorkLeft(P, run[k])
              && (Stuck(P, st[|st| - 1]) ==>
                    |st[|st| - 1].threads| == P && st[|st| - 1].threads[w].episodes > run[k].threads[w].episodes)
  {
    RunInv(P, run, k);
    var s := run[k];
    var t, s' := SomeoneMoves(P, s, w);
    var st := GetsThrough(P, s, w);
    forall st: seq<State> | Schedule(P, st) && st[0] == s
      ensures |st| - 1 <= WorkLeft(P, s)
      ensures Stuck(P, st[|st| - 1]) ==>
                |st[|st| - 1].threads| == P && st[|st| - 1].threads[w].episodes > s.threads[w].episodes
    {
      MustComplete(P, st, w);
    }
  }

  lemma MustComplete(P: nat, st: seq<State>, w: nat)
    requires P >= 1 && Schedule(P, st) && Inv(P, st[0]) && AllIn(P, st[0], w)
    ensures |st| - 1 <= WorkLeft(P, st[0]) && |st[|st| - 1].threads| == P
    ensures Stuck(P, st[|st| - 1]) ==> st[|st| - 1].threads[w].episodes > st[0].threads[w].episodes
  {
    var last := st[|st| - 1];
    ScheduleEnds(P, st, |st| - 1);
    InUntilDone(P, st, w, |st| - 1);
    if AllIn(P, last, w) {
      var t, s' := SomeoneMoves(P, last, w);
      assert Moves(P, last, s');
    }
  }

  // ---------------------------------------------------------------- whole episodes

  /** Every thread has completed `n` calls, and the first `m` of them have begun the next one. */
  predicate Entering(P: nat, s: State, n: nat, m: nat) {
    && |s.threads| == P
    && forall i :: 0 <= i < P ==> s.threads[i].episodes == n && (s.threads[i].pc.Idle? <==> i >= m)
  }

  /** Every thread is inside its next call or has completed it. */
  predicate Leaving(P: nat, s: State, n: nat) {
    && |s.threads| == P
    && forall i :: 0 <= i < P ==> s.threads[i].episodes == n + if s.threads[i].pc.Idle? then 1 else 0
  }

  lemma Extend(P: nat, run: seq<State>, s': State) returns (run': seq<State>)
    requires P >= 1 && IsRun(P, run) && Next(P, run[|run| - 1], s')
    ensures run' == run + [s'] && IsRun(P, run')
  {
    run' := run + [s'];
    forall k | 0 <= k < |run'| - 1 ensures Next(P, run'[k], run'[k + 1]) {
      if k < |run| - 1 {
        assert Next(P, run[k], run[k + 1]);
      }
    }
  }

  /** All threads call `wait`, one after the other. */
  lemma {:induction false} AllEnter(P: nat, run: seq<State>, n: nat, m: nat) returns (run': seq<State>)
    requires P >= 1 && IsRun(P, run) && m <= P && Entering(P, run[|run| - 1], n, m)
    ensures IsRun(P, run') && run'[0] == run[0] && Entering(P, run'[|run'| - 1], n, P)
    decreases P - m
  {
    var s := run[|run| - 1];
    if m == P {
      run' := run;
    } else {
      RunInv(P, run, |run| - 1);
      var s' := s.(threads := s.threads[m := s.threads[m].(pc := Signal(0))]);
      assert Enter(P, s, s', m);
      assert Next(P, s, s');
      NextPreserves(P, s, s');
      run' := Extend(P, run, s');
      run' := AllEnter(P, run', n, m + 1);
    }
  }

  lemma LeavingStep(P: nat, s: State, s': State, n: nat)
    requires P >= 1 && Moves(P, s, s') && Leaving(P, s, n)
    ensures Leaving(P, s', n)
  {
  }

  /** All threads complete their call. */
  lemma {:induction false} AllLeave(P: nat, run: seq<State>, n: nat) returns (run': seq<State>)
    requires P >= 1 && IsRun(P, run) && Leaving(P, run[|run| - 1], n)
    ensures IsRun(P, run') && run'[0] == run[0] && Entering(P, run'[|run'| - 1], n + 1, 0)
    decreases WorkLeft(P, run[|run| - 1])
  {
    var s := run[|run| - 1];
    RunInv(P, run, |run| - 1);
    if w: nat :| w < P && !s.threads[w].pc.Idle? {
      var t, s' := SomeoneMoves(P, s, w);
      assert Moves(P, s, s');
      MovesPreserves(P, s, s');
      LeavingStep(P, s, s', n);
      run' := Extend(P, run, s');
      run' := AllLeave(P, run', n);
    } else {
      run' := run;
    }
  }

  /** For every `n` there is a run in which every thread completes `n` calls. */
  lemma {:induction false} RunOfEpisodes(P: nat, first: State, n: nat) returns (run: seq<State>)
    requires P >= 1 && Init(P, first)
    ensures IsRun(P, run) && run[0] == first && Entering(P, run[|run| - 1], n, 0)
  {
    if n == 0 {
      run := [first];
    } else {
      run := RunOfEpisodes(P, first, n - 1);
      run := AllEnter(P, run, n - 1, 0);
      run := AllLeave(P, run, n - 1);
    }
  }

  // ---------------------------------------------------------------- initialisation

  /** `_reinit`: clears all flags and sets every thread to parity 0, sense 1. */
  method Reinit(P: nat) returns (s: State)
    requires P >= 1
    ensures Init(P, s)
    ensures forall k :: k in s.flags ==> k.owner < P && k.round < LogUp(P) && 0 <= k.copy < 2
  {
    var logP := LogUp(P);
    var threads: seq<Thread> := [];
    var flags: map<Slot, int> := map[];
    var i := 0;
    while i < P
      invariant 0 <= i <= P && |threads| == i
      invariant forall k :: 0 <= k < i ==> threads[k] == Thread(Idle, 0, 1, 0)
      invariant forall k :: k in flags <==> k.owner < i && k.round < logP && 0 <= k.copy < 2
      invariant forall k :: k in flags ==> flags[k] == 0
    {
      threads := threads + [Thread(Idle, 0, 1, 0)];
      var j := 0;
      while j < logP
        invariant 0 <= j <= logP
        invariant forall k :: k in flags <==>
                              (k.owner < i || (k.owner == i && k.round < j)) && k.round < logP && 0 <= k.copy < 2
        invariant forall k :: k in flags ==> flags[k] == 0
      {
        flags := flags[Slot(i, j, 0) := 0][Slot(i, j, 1) := 0];
        j := j + 1;
      }
      i := i + 1;
    }
    s := State(threads, flags);
  }
}
