/**
 Three-phase exclusive claiming: every thread writes its identifier to the cells it wants, then,
 after all have, lowers each of them to the minimum, and finally owns its claims if all of them
 hold its identifier. Threads interleave at single loads, stores and atomic minima.
 */
module ExclusiveLocks {
  import opened Measures

  /** Thread `t` has the identifier `ids[t]` and claims the cells `claims[t]`. */
  datatype Config = Config(cells: nat, ids: seq<int>, claims: seq<seq<nat>>)

  /** The next claim to write, to examine, or to lower having found another identifier there. */
  datatype Pc = Mark1(i: nat) | Mark2(i: nat) | Min2(i: nat)

  datatype State = State(locks: seq<int>, pcs: seq<Pc>)

  predicate ValidConfig(c: Config) {
    && |c.ids| == |c.claims|
    && (forall t, i :: 0 <= t < |c.claims| && 0 <= i < |c.claims[t]| ==> c.claims[t][i] < c.cells)
    && (forall t, u :: 0 <= t < |c.ids| && 0 <= u < |c.ids| && c.ids[t] == c.ids[u] ==> t == u)
  }

  predicate Shape(c: Config, st: State) {
    ValidConfig(c) && |st.locks| == c.cells && |st.pcs| == |c.ids|
  }

  predicate Claims(c: Config, t: int, x: nat) {
    0 <= t < |c.claims| && x in c.claims[t]
  }

  function Min(a: int, b: int): int {
    if a <= b then a else b
  }

  // ---------------------------------------------------------------- steps

  predicate Init(c: Config, st: State) {
    Shape(c, st) && forall t :: 0 <= t < |st.pcs| ==> st.pcs[t] == Mark1(0)
  }

  /** Thread `t` makes its next access. */
  predicate Access(c: Config, st: State, st': State, t: nat)
    requires Shape(c, st)
  {
    && t < |st.pcs| && st.pcs[t].i < |c.claims[t]|
    && var x, id, i := c.claims[t][st.pcs[t].i], c.ids[t], st.pcs[t].i;
       match st.pcs[t]
       case Mark1(_) => st' == State(st.locks[x := id], st.pcs[t := Mark1(i + 1)])
       case Mark2(_) => st' == st.(pcs := st.pcs[t := if st.locks[x] != id then Min2(i) else Mark2(i + 1)])
       case Min2(_) => st' == State(st.locks[x := Min(st.locks[x], id)], st.pcs[t := Mark2(i + 1)])
  }

  /** The barrier between the phases: all claims are written. */
  predicate EnterPhase2(c: Config, st: State, st': State)
    requires Shape(c, st)
  {
    && |st.pcs| > 0 && (forall t :: 0 <= t < |st.pcs| ==> st.pcs[t] == Mark1(|c.claims[t]|))
    && st' == st.(pcs := seq(|st.pcs|, _ => Mark2(0)))
  }

  ghost predicate Next(c: Config, st: State, st': State) {
    Shape(c, st) && (EnterPhase2(c, st, st') || exists t: nat :: Access(c, st, st', t))
  }

  ghost predicate IsRun(c: Config, run: seq<State>) {
    run != [] && Init(c, run[0]) && forall k :: 0 <= k < |run| - 1 ==> Next(c, run[k], run[k + 1])
  }

  /** Both marking phases are over. */
  predicate Marked(c: Config, st: State)
    requires Shape(c, st)
  {
    forall t :: 0 <= t < |st.pcs| ==> st.pcs[t] == Mark2(|c.claims[t]|)
  }

  // ---------------------------------------------------------------- the invariant

  /** Cell `x` holds the identifier of one of its claimants. */
  ghost predicate HeldByClaimant(c: Config, st: State, x: nat)
    requires Shape(c, st) && x < c.cells
  {
    exists u :: Claims(c, u, x) && c.ids[u] == st.locks[x]
  }

  predicate ThreadOk(c: Config, st: State, t: nat)
    requires Shape(c, st) && t < |st.pcs|
  {
    match st.pcs[t]
    case Mark1(i) => i <= |c.claims[t]|
    case Mark2(i) => i <= |c.claims[t]| && forall j :: 0 <= j < i ==> st.locks[c.claims[t][j]] <= c.ids[t]
    case Min2(i) => i < |c.claims[t]| && forall j :: 0 <= j < i ==> st.locks[c.claims[t][j]] <= c.ids[t]
  }

  /** The claim has been written. */
  predicate Written(c: Config, st: State, t: nat, j: nat)
    requires Shape(c, st) && t < |st.pcs|
  {
    j < |c.claims[t]| && (st.pcs[t].Mark1? ==> j < st.pcs[t].i)
  }

  predicate SamePhase(st: State) {
    (forall t :: 0 <= t < |st.pcs| ==> st.pcs[t].Mark1?) || (forall t :: 0 <= t < |st.pcs| ==> !st.pcs[t].Mark1?)
  }

  ghost predicate Inv(c: Config, st: State) {
    && Shape(c, st) && SamePhase(st)
    && (forall t: nat :: t < |st.pcs| ==> ThreadOk(c, st, t))
    && (forall t: nat, j: nat :: t < |st.pcs| && Written(c, st, t, j) ==> HeldByClaimant(c, st, c.claims[t][j]))
  }

  lemma AccessPreserves(c: Config, st: State, st': State, t: nat)
    requires Inv(c, st) && Access(c, st, st', t)
    ensures Inv(c, st')
  {
    var i := st.pcs[t].i;
    var x := c.claims[t][i];
    assert ThreadOk(c, st, t) && Claims(c, t, x);
    if st.pcs[t].Mark1? {
      assert c.ids[t] == st'.locks[x];
    } else {
      assert Written(c, st, t, i);
    }
    HeldKept(c, st, st', t);
    forall u: nat | u < |st.pcs| ensures ThreadOk(c, st', u) {
      assert ThreadOk(c, st, u);
    }
    forall u: nat, j: nat | u < |st.pcs| && Written(c, st', u, j) ensures HeldByClaimant(c, st', c.claims[u][j]) {
      if u != t || j != i {
        assert Written(c, st, u, j);
      }
    }
  }

  /** A held cell stays held, and the written cell is. */
  lemma HeldKept(c: Config, st: State, st': State, t: nat)
    requires Shape(c, st) && Access(c, st, st', t)
    requires !st.pcs[t].Mark1? ==> HeldByClaimant(c, st, c.claims[t][st.pcs[t].i])
    ensures HeldByClaimant(c, st', c.claims[t][st.pcs[t].i])
    ensures forall y: nat :: y < c.cells && HeldByClaimant(c, st, y) ==> HeldByClaimant(c, st', y)
  {
    var x := c.claims[t][st.pcs[t].i];
    assert Claims(c, t, x);
    forall y: nat | y < c.cells && (HeldByClaimant(c, st, y) || y == x) ensures HeldByClaimant(c, st', y) {
      if st'.locks[y] == st.locks[y] && HeldByClaimant(c, st, y) {
        var u :| Claims(c, u, y) && c.ids[u] == st.locks[y];
        assert c.ids[u] == st'.locks[y];
      } else {
        assert c.ids[t] == st'.locks[y];
      }
    }
  }

  lemma PhasePreserves(c: Config, st: State, st': State)
    requires Inv(c, st) && EnterPhase2(c, st, st')
    ensures Inv(c, st')
  {
    forall t: nat, j: nat | t < |st'.pcs| && Written(c, st', t, j) ensures HeldByClaimant(c, st', c.claims[t][j]) {
      assert Written(c, st, t, j);
      var u :| Claims(c, u, c.claims[t][j]) && c.ids[u] == st.locks[c.claims[t][j]];
      assert c.ids[u] == st'.locks[c.claims[t][j]];
    }
  }

  lemma {:induction false} RunInv(c: Config, run: seq<State>, k: nat)
    requires IsRun(c, run) && k < |run|
    ensures Inv(c, run[k])
  {
    if k > 0 {
      RunInv(c, run, k - 1);
      assert Next(c, run[k - 1], run[k]);
      if EnterPhase2(c, run[k - 1], run[k]) {
        PhasePreserves(c, run[k - 1], run[k]);
      } else {
        var t: nat :| Access(c, run[k - 1], run[k], t);
        AccessPreserves(c, run[k - 1], run[k], t);
      }
    }
  }

  // ---------------------------------------------------------------- results

  /** After marking, whatever the interleaving, a claimed cell holds the least identifier of its
      claimants. */
  lemma LeastClaimantHolds(c: Config, run: seq<State>, x: nat, t: nat)
    requires IsRun(c, run) && Shape(c, run[|run| - 1]) && Marked(c, run[|run| - 1]) && Claims(c, t, x)
    ensures x < c.cells && run[|run| - 1].locks[x] <= c.ids[t]
    ensures exists u :: Claims(c, u, x) && c.ids[u] == run[|run| - 1].locks[x]
  {
    var st := run[|run| - 1];
    RunInv(c, run, |run| - 1);
    var j: nat :| j < |c.claims[t]| && c.claims[t][j] == x;
    assert ThreadOk(c, st, t) && Written(c, st, t, j);
  }

  // ---------------------------------------------------------------- marking ends

  /** Accesses that thread `t` may still have to make. */
  function Rank(c: Config, st: State, t: nat): nat
    requires Shape(c, st) && t < |st.pcs|
  {
    var n := |c.claims[t]|;
    match st.pcs[t]
    case Mark1(i) => if i <= n then 3 * n + 1 - i else 0
    case Mark2(i) => if i <= n then 2 * (n - i) else 0
    case Min2(i) => if i < n then 2 * (n - i) - 1 else 0
  }

  function Ranks(c: Config, st: State): seq<nat>
    requires Shape(c, st)
  {
    seq(|st.pcs|, t requires 0 <= t < |st.pcs| => Rank(c, st, t))
  }

  function WorkLeft(c: Config, st: State): nat
    requires Shape(c, st)
  {
    SumOf(Ranks(c, st))
  }

  /** Every access, and the change of phase, leaves less work. */
  lemma NextDecreases(c: Config, st: State, st': State)
    requires Inv(c, st) && Next(c, st, st')
    ensures Inv(c, st') && WorkLeft(c, st') < WorkLeft(c, st)
  {
    if EnterPhase2(c, st, st') {
      PhasePreserves(c, st, st');
      SumSmaller(Ranks(c, st'), Ranks(c, st));
    } else {
      var t: nat :| Access(c, st, st', t);
      AccessPreserves(c, st, st', t);
      assert ThreadOk(c, st, t);
      SumUpdate(Ranks(c, st), t, Rank(c, st', t));
      assert Ranks(c, st') == Ranks(c, st)[t := Rank(c, st', t)];
    }
  }

  lemma CanAccess(c: Config, st: State, t: nat) returns (st': State)
    requires Shape(c, st) && t < |st.pcs| && st.pcs[t].i < |c.claims[t]|
    ensures Access(c, st, st', t)
  {
    var x, id, i := c.claims[t][st.pcs[t].i], c.ids[t], st.pcs[t].i;
    match st.pcs[t]
    case Mark1(_) => st' := State(st.locks[x := id], st.pcs[t := Mark1(i + 1)]);
    case Mark2(_) => st' := st.(pcs := st.pcs[t := if st.locks[x] != id then Min2(i) else Mark2(i + 1)]);
    case Min2(_) => st' := State(st.locks[x := Min(st.locks[x], id)], st.pcs[t := Mark2(i + 1)]);
  }

  /** Something can happen exactly as long as marking is not over. */
  lemma GoesOn(c: Config, st: State)
    requires Inv(c, st)
    ensures (exists st': State :: Next(c, st, st')) <==> !Marked(c, st)
  {
    if t: nat :| t < |st.pcs| && st.pcs[t].i < |c.claims[t]| {
      var st' := CanAccess(c, st, t);
      assert Next(c, st, st');
    } else {
      forall t: nat | t < |st.pcs| ensures st.pcs[t].i == |c.claims[t]| && !st.pcs[t].Min2? {
        assert ThreadOk(c, st, t);
      }
      if |st.pcs| > 0 && st.pcs[0].Mark1? {
        var st' := st.(pcs := seq(|st.pcs|, _ => Mark2(0)));
        assert EnterPhase2(c, st, st');
        assert Next(c, st, st') && !Marked(c, st);
      } else {
        forall t: nat | t < |st.pcs| ensures st.pcs[t] == Mark2(|c.claims[t]|) {
          assert !st.pcs[t].Mark1?;
        }
      }
    }
  }

  /** Every run can be continued until marking is over. */
  lemma MarkingEnds(c: Config, run: seq<State>) returns (run': seq<State>)
    requires IsRun(c, run)
    ensures IsRun(c, run') && run <= run' && Shape(c, run'[|run'| - 1]) && Marked(c, run'[|run'| - 1])
  {
    RunInv(c, run, |run| - 1);
    run' := MarkOn(c, run);
  }

  lemma {:induction false} MarkOn(c: Config, run: seq<State>) returns (run': seq<State>)
    requires IsRun(c, run) && Inv(c, run[|run| - 1])
    ensures IsRun(c, run') && run <= run' && Shape(c, run'[|run'| - 1]) && Marked(c, run'[|run'| - 1])
    decreases WorkLeft(c, run[|run| - 1])
  {
    var st := run[|run| - 1];
    GoesOn(c, st);
    if Marked(c, st) {
      run' := run;
    } else {
      var st' :| Next(c, st, st');
      NextDecreases(c, st, st');
      Extend(c, run, st');
      run' := MarkOn(c, run + [st']);
    }
  }

  lemma Extend(c: Config, run: seq<State>, st': State)
    requires IsRun(c, run) && Next(c, run[|run| - 1], st')
    ensures IsRun(c, run + [st'])
  {
    var run' := run + [st'];
    forall k | 0 <= k < |run'| - 1 ensures Next(c, run'[k], run'[k + 1]) {
      if k < |run| - 1 {
        assert Next(c, run[k], run[k + 1]);
      }
    }
  }

  /** No infinite sequence of states has a step between each and the next. */
  lemma {:induction false} Terminates(c: Config, f: nat -> State, n: nat)
    requires Inv(c, f(n))
    ensures exists m: nat :: m >= n && !Next(c, f(m), f(m + 1))
    decreases WorkLeft(c, f(n))
  {
    if Next(c, f(n), f(n + 1)) {
      NextDecreases(c, f(n), f(n + 1));
      Terminates(c, f, n + 1);
    }
  }

  // ---------------------------------------------------------------- who wins

  /** What `owns` answers. */
  predicate Owns(c: Config, st: State, t: nat)
    requires Shape(c, st) && t < |c.ids|
  {
    forall x :: x in c.claims[t] ==> x < c.cells && st.locks[x] == c.ids[t]
  }

  /** Two winners have no cell in common. */
  lemma WinnersDisjoint(c: Config, st: State, t: nat, u: nat)
    requires Shape(c, st) && t < |c.ids| && u < |c.ids| && t != u && Owns(c, st, t) && Owns(c, st, u)
    ensures forall x :: x in c.claims[t] ==> x !in c.claims[u]
  {
  }

  /** A thread wins exactly if it has the least identifier on every cell it claims; in particular
      the least claimant of all wins. */
  lemma WinsIfLeast(c: Config, run: seq<State>, t: nat)
    requires IsRun(c, run) && Shape(c, run[|run| - 1]) && Marked(c, run[|run| - 1]) && t < |c.ids|
    ensures Owns(c, run[|run| - 1], t) <==>
            forall u: nat, x: nat :: x in c.claims[t] && Claims(c, u, x) ==> c.ids[t] <= c.ids[u]
  {
    var st := run[|run| - 1];
    if Owns(c, st, t) {
      forall u: nat, x: nat | x in c.claims[t] && Claims(c, u, x) ensures c.ids[t] <= c.ids[u] {
        LeastClaimantHolds(c, run, x, u);
      }
    } else {
      var x :| x in c.claims[t] && !(x < c.cells && st.locks[x] == c.ids[t]);
      LeastClaimantHolds(c, run, x, t);
      var u :| Claims(c, u, x) && c.ids[u] == st.locks[x];
      assert c.ids[u] < c.ids[t];
    }
  }

  /** The scan of the third phase. */
  method ScanOwns(locks: array<int>, claims: seq<nat>, id: int) returns (r: bool)
    requires forall i :: 0 <= i < |claims| ==> claims[i] < locks.Length
    ensures r <==> forall i :: 0 <= i < |claims| ==> locks[claims[i]] == id
  {
    var i := 0;
    while i < |claims|
      invariant 0 <= i <= |claims|
      invariant forall j :: 0 <= j < i ==> locks[claims[j]] == id
    {
      if locks[claims[i]] != id {
        return false;
      }
      i := i + 1;
    }
    return true;
  }
}
