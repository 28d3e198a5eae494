/**
 The host fence: every host sends one message tagged with its phase to every other host, then
 receives as many, handling messages with tag 0 that arrive ahead of them. The channels are the
 per-pair FIFO queues the messaging layer provides; a receiver only sees the head of a queue.
 `completed` and `epoch` are history only: no guard reads them.
 */
module HostFence {
  import opened Sets

  /** Fence tags run from 1 up to, but excluding, the largest 16-bit integer. */
  const PHASE_LIMIT: nat := 32767

  /** A message; `epoch` is the number of fences its sender had entered when it was sent. */
  datatype Msg = Msg(tag: nat, epoch: nat)

  /** One directed channel: everything ever sent on it, how much has been taken out, and how much of
      that has been handled. The receiver's lock on the channel is held in between. */
  datatype Channel = Channel(sent: seq<Msg>, taken: nat, handled: nat)

  datatype Link = Link(src: nat, dst: nat)

  datatype Pc = Out | Sending(next: nat) | Receiving(received: nat)

  /** `phase` is the host's `evilPhase`. */
  datatype Host = Host(pc: Pc, phase: nat, completed: nat)

  datatype State = State(hosts: seq<Host>, channels: map<Link, Channel>)

  predicate IsFenceTag(tag: nat) {
    1 <= tag < PHASE_LIMIT
  }

  function NextPhase(phase: nat): nat {
    if phase + 1 >= PHASE_LIMIT then 1 else phase + 1
  }

  // ---------------------------------------------------------------- the transition system

  predicate Linked(N: nat, s: State) {
    && |s.hosts| == N
    && forall i, j | 0 <= i < N && 0 <= j < N :: Link(i, j) in s.channels
  }

  predicate Init(N: nat, s: State) {
    && Linked(N, s)
    && (forall i :: 0 <= i < N ==> s.hosts[i] == Host(Out, 1, 0))
    && (forall l | l in s.channels :: s.channels[l] == Channel([], 0, 0))
  }

  function Entered(h: Host): nat {
    h.completed + if h.pc.Out? then 0 else 1
  }

  function Append(c: Channel, m: Msg): Channel {
    c.(sent := c.sent + [m])
  }

  /** A program message: any host, any time (also from inside a handler), any non-fence tag. */
  predicate SendUser(N: nat, s: State, s': State, i: nat, j: nat, tag: nat)
    requires Linked(N, s)
  {
    && i < N && j < N && !IsFenceTag(tag)
    && s' == s.(channels := s.channels[Link(i, j) := Append(s.channels[Link(i, j)], Msg(tag, Entered(s.hosts[i])))])
  }

  /** `handleReceives` takes a message with tag 0 off the head and keeps the channel locked. */
  predicate HandleTake(N: nat, s: State, s': State, i: nat, j: nat)
    requires Linked(N, s)
  {
    && i < N && j < N
    && var c := s.channels[Link(i, j)];
    && c.handled == c.taken < |c.sent| && c.sent[c.taken].tag == 0
    && s' == s.(channels := s.channels[Link(i, j) := c.(taken := c.taken + 1)])
  }

  /** The handler has returned and the channel is unlocked. */
  predicate HandleDone(N: nat, s: State, s': State, i: nat, j: nat)
    requires Linked(N, s)
  {
    && i < N && j < N
    && var c := s.channels[Link(i, j)];
    && c.handled < c.taken
    && s' == s.(channels := s.channels[Link(i, j) := c.(handled := c.handled + 1)])
  }

  /** The program's own receive: takes a message whose tag is neither 0 nor a fence tag. */
  predicate ProgramTake(N: nat, s: State, s': State, i: nat, j: nat)
    requires Linked(N, s)
  {
    && i < N && j < N
    && var c := s.channels[Link(i, j)];
    && c.handled == c.taken < |c.sent| && c.sent[c.taken].tag != 0 && !IsFenceTag(c.sent[c.taken].tag)
    && s' == s.(channels := s.channels[Link(i, j) := c.(taken := c.taken + 1, handled := c.handled + 1)])
  }

  predicate Enter(N: nat, s: State, s': State, i: nat)
    requires Linked(N, s)
  {
    && i < N && s.hosts[i].pc.Out?
    && s' == s.(hosts := s.hosts[i := s.hosts[i].(pc := Sending(0))])
  }

  /** One iteration of the sending loop, which skips the host itself, or its end. */
  predicate SendFence(N: nat, s: State, s': State, i: nat)
    requires Linked(N, s)
  {
    && i < N && s.hosts[i].pc.Sending?
    && var h := s.hosts[i];
    var j := h.pc.next;
    if j < N then
      s' == State(s.hosts[i := h.(pc := Sending(j + 1))],
                  if j == i then s.channels
                  else s.channels[Link(i, j) := Append(s.channels[Link(i, j)], Msg(h.phase, Entered(h)))])
    else
      s' == s.(hosts := s.hosts[i := h.(pc := Receiving(1))])
  }

  /** `recieveTagged` with the current phase finds the head of channel `i` carrying that tag. The
      sender is not recorded: only the number of received messages is. */
  predicate TakeFence(N: nat, s: State, s': State, i: nat, j: nat)
    requires Linked(N, s)
  {
    && i < N && j < N && s.hosts[j].pc.Receiving? && s.hosts[j].pc.received < N
    && var h := s.hosts[j];
    var c := s.channels[Link(i, j)];
    && c.handled == c.taken < |c.sent| && c.sent[c.taken].tag == h.phase
    && s' == State(s.hosts[j := h.(pc := Receiving(h.pc.received + 1))],
                   s.channels[Link(i, j) := c.(taken := c.taken + 1, handled := c.handled + 1)])
  }

  predicate Leave(N: nat, s: State, s': State, j: nat)
    requires Linked(N, s)
  {
    && j < N && s.hosts[j].pc.Receiving? && s.hosts[j].pc.received >= N
    && var h := s.hosts[j];
    s' == s.(hosts := s.hosts[j := Host(Out, NextPhase(h.phase), h.completed + 1)])
  }

  /** What host `j` does from inside the fence: it never receives under any tag but 0 and its phase. */
  predicate FenceStep(N: nat, s: State, s': State, i: nat, j: nat)
    requires Linked(N, s)
  {
    || SendFence(N, s, s', j)
    || (j < N && s.hosts[j].pc.Receiving? && s.hosts[j].pc.received < N &&
        (HandleTake(N, s, s', i, j) || HandleDone(N, s, s', i, j)))
    || TakeFence(N, s, s', i, j)
    || Leave(N, s, s', j)
  }

  /** Every step but a program receive. */
  predicate QuietStep(N: nat, s: State, s': State, i: nat, j: nat, tag: nat)
    requires Linked(N, s)
  {
    || SendUser(N, s, s', i, j, tag)
    || Enter(N, s, s', j)
    || HandleTake(N, s, s', i, j)
    || HandleDone(N, s, s', i, j)
    || FenceStep(N, s, s', i, j)
  }

  predicate AnyStep(N: nat, s: State, s': State, i: nat, j: nat, tag: nat)
    requires Linked(N, s)
  {
    QuietStep(N, s, s', i, j, tag) || ProgramTake(N, s, s', i, j)
  }

  ghost predicate Next(N: nat, s: State, s': State)
    requires Linked(N, s)
  {
    s' == s || exists i: nat, j: nat, tag: nat :: AnyStep(N, s, s', i, j, tag)
  }

  ghost predicate IsRun(N: nat, run: seq<State>) {
    && |run| >= 1
    && Init(N, run[0])
    && (forall k :: 0 <= k < |run| ==> Linked(N, run[k]))
    && forall k :: 0 <= k < |run| - 1 ==> Next(N, run[k], run[k + 1])
  }

  // ---------------------------------------------------------------- fence messages in a channel

  function Fences(ms: seq<Msg>): nat {
    if ms == [] then 0
    else Fences(ms[..|ms| - 1]) + if IsFenceTag(ms[|ms| - 1].tag) then 1 else 0
  }

  /** The tag of the `n`-th fence, counted from 0. */
  function PhaseOf(n: nat): nat {
    1 + n % (PHASE_LIMIT - 1)
  }

  lemma {:induction false} FencesMonotone(ms: seq<Msg>, a: nat, b: nat)
    requires a <= b <= |ms|
    ensures Fences(ms[..a]) <= Fences(ms[..b])
  {
    if a < b {
      FencesMonotone(ms, a, b - 1);
      assert ms[..b][..b - 1] == ms[..b - 1];
    }
  }

  lemma FencesSnoc(ms: seq<Msg>, a: nat)
    requires a < |ms|
    ensures Fences(ms[..a + 1]) == Fences(ms[..a]) + if IsFenceTag(ms[a].tag) then 1 else 0
  {
    assert ms[..a + 1][..a] == ms[..a];
  }

  /** Tags number the fences in order, and no message is older than the fences before it. */
  predicate WellTagged(ms: seq<Msg>) {
    forall p :: 0 <= p < |ms| ==>
      && (IsFenceTag(ms[p].tag) ==> ms[p].tag == PhaseOf(Fences(ms[..p])))
      && Fences(ms[..p]) <= ms[p].epoch
  }

  lemma WellTaggedSnoc(ms: seq<Msg>, m: Msg)
    requires WellTagged(ms)
    requires IsFenceTag(m.tag) ==> m.tag == PhaseOf(Fences(ms))
    requires Fences(ms) <= m.epoch
    ensures WellTagged(ms + [m])
    ensures Fences(ms + [m]) == Fences(ms) + if IsFenceTag(m.tag) then 1 else 0
  {
    var ms' := ms + [m];
    assert ms'[..|ms|] == ms;
    forall p | 0 <= p < |ms'|
      ensures (IsFenceTag(ms'[p].tag) ==> ms'[p].tag == PhaseOf(Fences(ms'[..p]))) &&
              Fences(ms'[..p]) <= ms'[p].epoch
    {
      if p < |ms| { assert ms'[..p] == ms[..p]; }
    }
  }

  // ---------------------------------------------------------------- the invariant

  /** Fence messages host `h` has sent to host `j` so far. */
  function FencesSent(h: Host, j: nat): nat {
    h.completed + if (h.pc.Sending? && j < h.pc.next) || h.pc.Receiving? then 1 else 0
  }

  function FencesTaken(c: Channel): nat
    requires c.taken <= |c.sent|
  {
    Fences(c.sent[..c.taken])
  }

  /** At most one message is being handled, and that one is not a fence message. */
  predicate HandledOk(c: Channel) {
    && c.handled <= c.taken <= c.handled + 1
    && c.taken <= |c.sent|
    && (c.handled < c.taken ==> c.sent[c.handled].tag == 0)
  }

  predicate ChannelOk(c: Channel, src: Host, dst: Host, i: nat, j: nat) {
    && HandledOk(c)
    && WellTagged(c.sent)
    && Fences(c.sent) == (if i == j then 0 else FencesSent(src, j))
    && (forall p :: 0 <= p < |c.sent| ==> c.sent[p].epoch <= Entered(src))
    && (i != j ==> dst.completed <= FencesTaken(c) <= dst.completed + if dst.pc.Receiving? then 1 else 0)
  }

  /** The hosts whose message of the current phase `j` has taken. */
  ghost function Heard(N: nat, s: State, j: nat): set<nat>
    requires Linked(N, s) && j < N
  {
    set i: nat | i < N && i != j && s.channels[Link(i, j)].taken <= |s.channels[Link(i, j)].sent| &&
                 FencesTaken(s.channels[Link(i, j)]) == s.hosts[j].completed + 1
  }

  ghost predicate HostOk(N: nat, s: State, j: nat)
    requires Linked(N, s) && j < N
  {
    var h := s.hosts[j];
    && h.phase == PhaseOf(h.completed)
    && (h.pc.Sending? ==> h.pc.next <= N)
    && (h.pc.Receiving? ==> h.pc.received == 1 + |Heard(N, s, j)|)
  }

  ghost predicate Inv(N: nat, s: State) {
    && Linked(N, s)
    && (forall i, j | 0 <= i < N && 0 <= j < N ::
          ChannelOk(s.channels[Link(i, j)], s.hosts[i], s.hosts[j], i, j))
    && (forall j :: 0 <= j < N ==> HostOk(N, s, j))
  }

  // ---------------------------------------------------------------- consequences of the invariant

  /** Tags are reused after `PHASE_LIMIT - 1` fences, but never confused. */
  lemma PhaseExact(a: nat, b: nat)
    requires a <= b <= a + 1
    ensures PhaseOf(a) == PhaseOf(b) <==> a == b
  {
  }

  lemma PhaseStep(n: nat)
    ensures NextPhase(PhaseOf(n)) == PhaseOf(n + 1) && IsFenceTag(PhaseOf(n))
  {
  }

  /** The head of the channel matches the receiver's phase iff it is the fence message of the
      receiver's current fence, from a host not yet heard. */
  lemma HeadMatches(N: nat, s: State, i: nat, j: nat)
    requires Inv(N, s) && i < N && j < N
    requires var c := s.channels[Link(i, j)]; c.taken < |c.sent| && IsFenceTag(c.sent[c.taken].tag)
    ensures i != j
    ensures var c := s.channels[Link(i, j)];
            c.sent[c.taken].tag == s.hosts[j].phase <==> FencesTaken(c) == s.hosts[j].completed
  {
    var c := s.channels[Link(i, j)];
    assert ChannelOk(c, s.hosts[i], s.hosts[j], i, j) && HostOk(N, s, j);
    assert c.sent[..|c.sent|] == c.sent;
    FencesSnoc(c.sent, c.taken);
    FencesMonotone(c.sent, c.taken + 1, |c.sent|);
    PhaseExact(s.hosts[j].completed, FencesTaken(c));
  }

  /** A host that has counted enough messages has heard every other host. */
  lemma AllHeard(N: nat, s: State, j: nat, i: nat)
    requires Inv(N, s) && j < N && i < N && i != j
    requires s.hosts[j].pc.Receiving? && s.hosts[j].pc.received >= N
    ensures FencesTaken(s.channels[Link(i, j)]) == s.hosts[j].completed + 1
  {
    assert HostOk(N, s, j);
    assert Heard(N, s, j) <= Below(N) - {j};
    FullSubset(Heard(N, s, j), Below(N) - {j});
    assert i in Below(N) - {j};
  }

  lemma OthersHaveEntered(N: nat, s: State, i: nat, j: nat)
    requires Inv(N, s) && i < N && j < N
    ensures s.hosts[j].completed <= Entered(s.hosts[i])
    ensures s.hosts[j].pc.Receiving? && s.hosts[j].pc.received >= N ==> s.hosts[j].completed + 1 <= Entered(s.hosts[i])
  {
    if i != j {
      var c := s.channels[Link(i, j)];
      assert ChannelOk(c, s.hosts[i], s.hosts[j], i, j);
      FencesMonotone(c.sent, c.taken, |c.sent|);
      assert c.sent[..|c.sent|] == c.sent;
      if s.hosts[j].pc.Receiving? && s.hosts[j].pc.received >= N {
        AllHeard(N, s, j, i);
      }
    }
  }

  // ---------------------------------------------------------------- preservation

  lemma InitEstablishes(N: nat, s: State)
    requires Init(N, s)
    ensures Inv(N, s)
  {
  }

  lemma SameHeard(N: nat, s: State, s': State, j: nat)
    requires Linked(N, s) && Linked(N, s') && j < N
    requires s.hosts[j].completed == s'.hosts[j].completed
    requires forall i | 0 <= i < N && i != j ::
               var c, c' := s.channels[Link(i, j)], s'.channels[Link(i, j)];
               c.taken <= |c.sent| && c'.taken <= |c'.sent| && FencesTaken(c) == FencesTaken(c')
    ensures Heard(N, s', j) == Heard(N, s, j)
  {
  }

  lemma SendUserKeepsChannel(c: Channel, src: Host, dst: Host, i: nat, j: nat, tag: nat)
    requires ChannelOk(c, src, dst, i, j) && !IsFenceTag(tag)
    ensures ChannelOk(Append(c, Msg(tag, Entered(src))), src, dst, i, j)
  {
    var m := Msg(tag, Entered(src));
    WellTaggedSnoc(c.sent, m);
    assert (c.sent + [m])[..c.taken] == c.sent[..c.taken];
  }

  lemma SendUserKeepsChannels(N: nat, s: State, s': State, i: nat, j: nat, tag: nat, a: nat, b: nat)
    requires Inv(N, s) && SendUser(N, s, s', i, j, tag) && a < N && b < N
    ensures ChannelOk(s'.channels[Link(a, b)], s'.hosts[a], s'.hosts[b], a, b)
  {
    assert ChannelOk(s.channels[Link(a, b)], s.hosts[a], s.hosts[b], a, b);
    if a == i && b == j {
      SendUserKeepsChannel(s.channels[Link(i, j)], s.hosts[i], s.hosts[j], i, j, tag);
    }
  }

  lemma SendUserKeepsHost(N: nat, s: State, s': State, i: nat, j: nat, tag: nat, b: nat)
    requires Inv(N, s) && SendUser(N, s, s', i, j, tag) && b < N
    ensures HostOk(N, s', b)
  {
    assert HostOk(N, s, b);
    forall a | 0 <= a < N && a != b
      ensures var c, c' := s.channels[Link(a, b)], s'.channels[Link(a, b)];
              c.taken <= |c.sent| && c'.taken <= |c'.sent| && FencesTaken(c) == FencesTaken(c')
    {
      var c, c' := s.channels[Link(a, b)], s'.channels[Link(a, b)];
      assert ChannelOk(c, s.hosts[a], s.hosts[b], a, b);
      assert c'.sent[..c.taken] == c.sent[..c.taken];
    }
    SameHeard(N, s, s', b);
  }

  lemma SendUserPreserves(N: nat, s: State, s': State, i: nat, j: nat, tag: nat)
    requires Inv(N, s) && SendUser(N, s, s', i, j, tag)
    ensures Inv(N, s')
  {
    forall a, b | 0 <= a < N && 0 <= b < N
      ensures ChannelOk(s'.channels[Link(a, b)], s'.hosts[a], s'.hosts[b], a, b)
    {
      SendUserKeepsChannels(N, s, s', i, j, tag, a, b);
    }
    forall b | 0 <= b < N ensures HostOk(N, s', b) {
      SendUserKeepsHost(N, s, s', i, j, tag, b);
    }
  }

  /** Taking or handling a program message changes no count of fences. */
  predicate TakeUser(c: Channel, c': Channel) {
    || (c.handled == c.taken < |c.sent| && c.sent[c.taken].tag == 0 && c' == c.(taken := c.taken + 1))
    || (c.handled < c.taken && c' == c.(handled := c.handled + 1))
    || (c.handled == c.taken < |c.sent| && !IsFenceTag(c.sent[c.taken].tag) &&
        c' == c.(taken := c.taken + 1, handled := c.handled + 1))
  }

  lemma TakeUserChannel(c: Channel, c': Channel, src: Host, dst: Host, i: nat, j: nat)
    requires ChannelOk(c, src, dst, i, j) && TakeUser(c, c')
    ensures ChannelOk(c', src, dst, i, j) && FencesTaken(c') == FencesTaken(c)
  {
    if c.handled == c.taken {
      FencesSnoc(c.sent, c.taken);
    }
  }

  lemma TakeUserPreserves(N: nat, s: State, s': State, i: nat, j: nat)
    requires Inv(N, s)
    requires HandleTake(N, s, s', i, j) || HandleDone(N, s, s', i, j) || ProgramTake(N, s, s', i, j)
    ensures Inv(N, s')
  {
    assert ChannelOk(s.channels[Link(i, j)], s.hosts[i], s.hosts[j], i, j);
    TakeUserChannel(s.channels[Link(i, j)], s'.channels[Link(i, j)], s.hosts[i], s.hosts[j], i, j);
    forall a, b | 0 <= a < N && 0 <= b < N
      ensures ChannelOk(s'.channels[Link(a, b)], s'.hosts[a], s'.hosts[b], a, b)
      ensures FencesTaken(s.channels[Link(a, b)]) == FencesTaken(s'.channels[Link(a, b)])
    {
      assert ChannelOk(s.channels[Link(a, b)], s.hosts[a], s.hosts[b], a, b);
    }
    forall b | 0 <= b < N ensures HostOk(N, s', b) {
      assert HostOk(N, s, b);
      SameHeard(N, s, s', b);
    }
  }

  lemma EnterPreserves(N: nat, s: State, s': State, i: nat)
    requires Inv(N, s) && Enter(N, s, s', i)
    ensures Inv(N, s')
  {
    forall a, b | 0 <= a < N && 0 <= b < N
      ensures ChannelOk(s'.channels[Link(a, b)], s'.hosts[a], s'.hosts[b], a, b)
    {
      assert ChannelOk(s.channels[Link(a, b)], s.hosts[a], s.hosts[b], a, b);
    }
    forall b | 0 <= b < N ensures HostOk(N, s', b) {
      assert HostOk(N, s, b);
      SameHeard(N, s, s', b);
    }
  }

  /** Sending the fence message of the current phase keeps its channel in order. */
  lemma SendFenceChannel(c: Channel, src: Host, dst: Host, i: nat, j: nat)
    requires ChannelOk(c, src, dst, i, j) && i != j
    requires src.pc == Sending(j) && src.phase == PhaseOf(src.completed)
    ensures ChannelOk(Append(c, Msg(src.phase, Entered(src))), src.(pc := Sending(j + 1)), dst, i, j)
    ensures c.taken <= |c.sent| && FencesTaken(Append(c, Msg(src.phase, Entered(src)))) == FencesTaken(c)
  {
    var m := Msg(src.phase, Entered(src));
    PhaseStep(src.completed);
    WellTaggedSnoc(c.sent, m);
    assert (c.sent + [m])[..c.taken] == c.sent[..c.taken];
  }

  lemma SendFenceOther(c: Channel, src: Host, dst: Host, i: nat, j: nat, h: Host, h': Host, x: nat)
    requires ChannelOk(c, src, dst, i, j) && h.pc.Sending?
    requires (h'.pc == Sending(h.pc.next + 1) && (x == i && i != j ==> j != h.pc.next)) ||
             (h'.pc == Receiving(1) && (x == i ==> j < h.pc.next))
    requires h'.completed == h.completed && (x == i ==> h == src) && (x == j ==> h == dst)
    ensures ChannelOk(c, if x == i then h' else src, if x == j then h' else dst, i, j)
  {
  }

  lemma SendFencePreserves(N: nat, s: State, s': State, i: nat)
    requires Inv(N, s) && SendFence(N, s, s', i)
    ensures Inv(N, s')
  {
    var h := s.hosts[i];
    var j := h.pc.next;
    assert HostOk(N, s, i);
    forall a, b | 0 <= a < N && 0 <= b < N
      ensures ChannelOk(s'.channels[Link(a, b)], s'.hosts[a], s'.hosts[b], a, b)
      ensures var c, c' := s.channels[Link(a, b)], s'.channels[Link(a, b)];
              c.taken <= |c.sent| && c'.taken <= |c'.sent| && FencesTaken(c) == FencesTaken(c')
    {
      var c := s.channels[Link(a, b)];
      assert ChannelOk(c, s.hosts[a], s.hosts[b], a, b);
      if j < N && a == i && b == j && i != j {
        SendFenceChannel(c, h, s.hosts[j], i, j);
      } else {
        SendFenceOther(c, s.hosts[a], s.hosts[b], a, b, h, s'.hosts[i], i);
      }
    }
    forall b | 0 <= b < N ensures HostOk(N, s', b) {
      assert HostOk(N, s, b);
      SameHeard(N, s, s', b);
      if b == i {
        NothingHeardYet(N, s, i);
      }
    }
  }

  lemma NothingHeardYet(N: nat, s: State, j: nat)
    requires Inv(N, s) && j < N && !s.hosts[j].pc.Receiving?
    ensures Heard(N, s, j) == {}
  {
    forall i: nat | i < N && i != j ensures i !in Heard(N, s, j) {
      assert ChannelOk(s.channels[Link(i, j)], s.hosts[i], s.hosts[j], i, j);
    }
  }

  /** Taking the fence message of the current phase. */
  lemma TakeFenceChannel(c: Channel, src: Host, dst: Host, i: nat, j: nat)
    requires ChannelOk(c, src, dst, i, j) && i != j && dst.pc.Receiving?
    requires c.handled == c.taken < |c.sent| && IsFenceTag(c.sent[c.taken].tag) && FencesTaken(c) == dst.completed
    ensures var c' := c.(taken := c.taken + 1, handled := c.handled + 1);
            && ChannelOk(c', src, dst.(pc := Receiving(dst.pc.received + 1)), i, j)
            && FencesTaken(c') == dst.completed + 1
  {
    FencesSnoc(c.sent, c.taken);
  }

  lemma TakeFencePreserves(N: nat, s: State, s': State, i: nat, j: nat)
    requires Inv(N, s) && TakeFence(N, s, s', i, j)
    ensures Inv(N, s')
  {
    var c := s.channels[Link(i, j)];
    assert HostOk(N, s, j);
    PhaseStep(s.hosts[j].completed);
    HeadMatches(N, s, i, j);
    forall a, b | 0 <= a < N && 0 <= b < N
      ensures ChannelOk(s'.channels[Link(a, b)], s'.hosts[a], s'.hosts[b], a, b)
    {
      assert ChannelOk(s.channels[Link(a, b)], s.hosts[a], s.hosts[b], a, b);
      if a == i && b == j {
        TakeFenceChannel(c, s.hosts[i], s.hosts[j], i, j);
      }
    }
    forall b | 0 <= b < N ensures HostOk(N, s', b) {
      TakeFenceHost(N, s, s', i, j, b);
    }
  }

  lemma TakeFenceHost(N: nat, s: State, s': State, i: nat, j: nat, b: nat)
    requires Inv(N, s) && TakeFence(N, s, s', i, j) && b < N && i != j
    requires FencesTaken(s.channels[Link(i, j)]) == s.hosts[j].completed
    requires IsFenceTag(s.channels[Link(i, j)].sent[s.channels[Link(i, j)].taken].tag)
    ensures HostOk(N, s', b)
  {
    assert HostOk(N, s, b);
    forall a | 0 <= a < N && a != b
      ensures s.channels[Link(a, b)].taken <= |s.channels[Link(a, b)].sent|
    {
      assert ChannelOk(s.channels[Link(a, b)], s.hosts[a], s.hosts[b], a, b);
    }
    if b == j {
      HeardGrows(N, s, s', i, j);
    } else {
      SameHeard(N, s, s', b);
    }
  }

  lemma HeardGrows(N: nat, s: State, s': State, i: nat, j: nat)
    requires Linked(N, s) && TakeFence(N, s, s', i, j) && i != j
    requires FencesTaken(s.channels[Link(i, j)]) == s.hosts[j].completed
    requires IsFenceTag(s.channels[Link(i, j)].sent[s.channels[Link(i, j)].taken].tag)
    ensures Heard(N, s', j) == Heard(N, s, j) + {i} && i !in Heard(N, s, j)
  {
    var c := s.channels[Link(i, j)];
    FencesSnoc(c.sent, c.taken);
    forall a: nat | a < N && a != j && a != i ensures s'.channels[Link(a, j)] == s.channels[Link(a, j)] {
    }
  }

  lemma LeaveKeepsChannel(N: nat, s: State, s': State, j: nat, a: nat, b: nat)
    requires Inv(N, s) && Leave(N, s, s', j) && a < N && b < N
    ensures ChannelOk(s'.channels[Link(a, b)], s'.hosts[a], s'.hosts[b], a, b)
  {
    assert HostOk(N, s, j);
    PhaseStep(s.hosts[j].completed);
    assert ChannelOk(s.channels[Link(a, b)], s.hosts[a], s.hosts[b], a, b);
    if b == j && a != b {
      AllHeard(N, s, j, a);
    }
  }

  lemma LeavePreserves(N: nat, s: State, s': State, j: nat)
    requires Inv(N, s) && Leave(N, s, s', j)
    ensures Inv(N, s')
  {
    assert HostOk(N, s, j);
    PhaseStep(s.hosts[j].completed);
    forall a, b | 0 <= a < N && 0 <= b < N
      ensures ChannelOk(s'.channels[Link(a, b)], s'.hosts[a], s'.hosts[b], a, b)
    {
      LeaveKeepsChannel(N, s, s', j, a, b);
    }
    forall b | 0 <= b < N ensures HostOk(N, s', b) {
      assert HostOk(N, s, b);
      if b != j {
        SameHeard(N, s, s', b);
      }
    }
  }

  lemma NextPreserves(N: nat, s: State, s': State)
    requires Inv(N, s) && Next(N, s, s')
    ensures Inv(N, s')
  {
    if s' != s {
      var i: nat, j: nat, tag: nat :| AnyStep(N, s, s', i, j, tag);
      if SendUser(N, s, s', i, j, tag) {
        SendUserPreserves(N, s, s', i, j, tag);
      } else if Enter(N, s, s', j) {
        EnterPreserves(N, s, s', j);
      } else if SendFence(N, s, s', j) {
        SendFencePreserves(N, s, s', j);
      } else if HandleTake(N, s, s', i, j) || HandleDone(N, s, s', i, j) || ProgramTake(N, s, s', i, j) {
        TakeUserPreserves(N, s, s', i, j);
      } else if TakeFence(N, s, s', i, j) {
        TakeFencePreserves(N, s, s', i, j);
      } else {
        LeavePreserves(N, s, s', j);
      }
    }
  }

  lemma {:induction false} RunInv(N: nat, run: seq<State>, k: nat)
    requires IsRun(N, run) && k < |run|
    ensures Inv(N, run[k])
  {
    if k == 0 {
      InitEstablishes(N, run[0]);
    } else {
      RunInv(N, run, k - 1);
      NextPreserves(N, run[k - 1], run[k]);
    }
  }

  // ---------------------------------------------------------------- the theorems

  /** A host leaves its fence only after every host has entered the same fence, so hosts are
      never more than one fence apart. */
  lemma FenceIsBarrier(N: nat, run: seq<State>, k: nat, i: nat, j: nat)
    requires IsRun(N, run) && k < |run| && i < N && j < N
    ensures var a, b := run[k].hosts[i], run[k].hosts[j];
            && b.completed <= Entered(a)
            && (b.pc.Receiving? && b.pc.received >= N ==> b.completed + 1 <= Entered(a))
            && a.completed - 1 <= b.completed <= a.completed + 1
  {
    RunInv(N, run, k);
    OthersHaveEntered(N, run[k], i, j);
    OthersHaveEntered(N, run[k], j, i);
  }

  /** A fence flushes: once host `j` has completed `n` fences, it has handled every message that any
      peer sent it before entering that peer's own `n`-th fence. */
  lemma FenceFlushes(N: nat, run: seq<State>, k: nat, i: nat, j: nat, p: nat)
    requires IsRun(N, run) && k < |run| && i < N && j < N && i != j
    requires p < |run[k].channels[Link(i, j)].sent|
    requires run[k].channels[Link(i, j)].sent[p].epoch < run[k].hosts[j].completed
    ensures p < run[k].channels[Link(i, j)].handled <= run[k].channels[Link(i, j)].taken
  {
    RunInv(N, run, k);
    var s := run[k];
    var c := s.channels[Link(i, j)];
    assert ChannelOk(c, s.hosts[i], s.hosts[j], i, j);
    if c.handled < c.taken {
      FencesSnoc(c.sent, c.handled);
    }
    if c.handled <= p {
      FencesMonotone(c.sent, c.handled, p);
    }
  }

  /** The wrap of the phase never confuses fences: whenever a fence message is at the head of a
      channel into a waiting host, its tag equals the host's phase iff it belongs to the fence the
      host is in. */
  lemma TagsNeverConfused(N: nat, run: seq<State>, k: nat, i: nat, j: nat)
    requires IsRun(N, run) && k < |run| && i < N && j < N
    requires var c := run[k].channels[Link(i, j)]; c.taken < |c.sent| && IsFenceTag(c.sent[c.taken].tag)
    ensures var c := run[k].channels[Link(i, j)];
            && c.taken <= |c.sent|
            && (c.sent[c.taken].tag == run[k].hosts[j].phase <==> FencesTaken(c) == run[k].hosts[j].completed)
  {
    RunInv(N, run, k);
    HeadMatches(N, run[k], i, j);
  }

  // ---------------------------------------------------------------- progress

  /** Every host that is as far behind as `w`, and none is further behind, is inside its fence. */
  predicate AllIn(N: nat, s: State, w: nat) {
    && |s.hosts| == N && w < N
    && forall i :: 0 <= i < N ==>
         && s.hosts[w].completed <= s.hosts[i].completed
         && (s.hosts[i].pc.Out? ==> s.hosts[w].completed < s.hosts[i].completed)
  }

  /** No program message ahead of the `n`-th fence message, and not yet taken, has a non-zero tag. */
  predicate ClearAhead(c: Channel, n: nat) {
    forall p | c.taken <= p < |c.sent| && Fences(c.sent[..p]) == n && !IsFenceTag(c.sent[p].tag) :: c.sent[p].tag == 0
  }

  predicate Clear(N: nat, s: State, w: nat)
    requires Linked(N, s) && w < N
  {
    forall i | 0 <= i < N && i != w :: ClearAhead(s.channels[Link(i, w)], s.hosts[w].completed)
  }

  ghost predicate FenceNext(N: nat, s: State, s': State) {
    Linked(N, s) && exists i: nat, j: nat :: FenceStep(N, s, s', i, j)
  }

  /** A continuation made of nothing but steps of the fences themselves. */
  ghost predicate FenceRun(N: nat, st: seq<State>) {
    |st| >= 1 && forall k :: 0 <= k < |st| - 1 ==> FenceNext(N, st[k], st[k + 1])
  }

  /** Any step, except that the program at host `w`, which is inside its fence, receives nothing. */
  predicate WaitingStep(N: nat, s: State, s': State, i: nat, j: nat, tag: nat, w: nat)
    requires Linked(N, s)
  {
    QuietStep(N, s, s', i, j, tag) || (j != w && ProgramTake(N, s, s', i, j))
  }

  ghost predicate WaitingNext(N: nat, s: State, s': State, w: nat) {
    Linked(N, s) && exists i: nat, j: nat, tag: nat :: WaitingStep(N, s, s', i, j, tag, w)
  }

  ghost predicate WaitingRun(N: nat, st: seq<State>, w: nat) {
    |st| >= 1 && forall k :: 0 <= k < |st| - 1 ==> WaitingNext(N, st[k], st[k + 1], w)
  }

  ghost predicate Completes(N: nat, s: State, w: nat, s': State) {
    |s.hosts| == N == |s'.hosts| && w < N && s'.hosts[w].completed == s.hosts[w].completed + 1
  }

  /** Steps of the sending loop that host `h` still has to make. */
  function SendsOf(N: nat, h: Host): nat {
    if h.pc.Sending? && h.pc.next <= N then N + 1 - h.pc.next else 0
  }

  function SendsLeft(N: nat, s: State, n: nat): nat
    requires n <= |s.hosts|
  {
    if n == 0 then 0 else SendsLeft(N, s, n - 1) + SendsOf(N, s.hosts[n - 1])
  }

  lemma {:induction false} SendsLeftFrame(N: nat, s: State, s': State, i: nat, n: nat)
    requires |s.hosts| == |s'.hosts| && n <= |s.hosts| && i < |s.hosts|
    requires forall j :: 0 <= j < |s.hosts| && j != i ==> s'.hosts[j] == s.hosts[j]
    ensures SendsLeft(N, s', n) == SendsLeft(N, s, n) + if i < n then SendsOf(N, s'.hosts[i]) - SendsOf(N, s.hosts[i]) else 0
  {
    if n > 0 {
      SendsLeftFrame(N, s, s', i, n - 1);
    }
  }

  function BacklogOf(c: Channel): nat {
    if HandledOk(c) then 2 * |c.sent| - c.taken - c.handled else 0
  }

  /** Takes and handler returns still to come on the first `n` channels into `w`. */
  function Backlog(N: nat, s: State, w: nat, n: nat): nat
    requires Linked(N, s) && w < N && n <= N
  {
    if n == 0 then 0 else Backlog(N, s, w, n - 1) + BacklogOf(s.channels[Link(n - 1, w)])
  }

  lemma {:induction false} BacklogFrame(N: nat, s: State, s': State, w: nat, i: nat, n: nat)
    requires Linked(N, s) && Linked(N, s') && w < N && n <= N && i < N
    requires forall j | 0 <= j < N && j != i :: s'.channels[Link(j, w)] == s.channels[Link(j, w)]
    ensures Backlog(N, s', w, n) ==
            Backlog(N, s, w, n) + if i < n then BacklogOf(s'.channels[Link(i, w)]) - BacklogOf(s.channels[Link(i, w)]) else 0
  {
    if n > 0 {
      BacklogFrame(N, s, s', w, i, n - 1);
    }
  }

  lemma SendOne(N: nat, s: State, w: nat, i: nat) returns (s': State)
    requires Inv(N, s) && AllIn(N, s, w) && i < N && s.hosts[i].pc.Sending?
    ensures FenceNext(N, s, s') && Inv(N, s') && AllIn(N, s', w) && (Clear(N, s, w) ==> Clear(N, s', w))
    ensures s'.hosts[w].completed == s.hosts[w].completed
    ensures SendsLeft(N, s', N) < SendsLeft(N, s, N)
  {
    s' := SendNext(N, s, i);
    SendFencePreserves(N, s, s', i);
    assert HostOk(N, s, i);
    PhaseStep(s.hosts[i].completed);
    SendsLeftFrame(N, s, s', i, N);
    if Clear(N, s, w) {
      forall a | 0 <= a < N && a != w ensures ClearAhead(s'.channels[Link(a, w)], s'.hosts[w].completed) {
        ClearAfterSend(N, s, s', w, i, a);
      }
    }
  }

  lemma SendNext(N: nat, s: State, i: nat) returns (s': State)
    requires Linked(N, s) && i < N && s.hosts[i].pc.Sending?
    ensures SendFence(N, s, s', i) && FenceNext(N, s, s')
  {
    var h := s.hosts[i];
    var j := h.pc.next;
    if j < N {
      s' := State(s.hosts[i := h.(pc := Sending(j + 1))],
                  if j == i then s.channels
                  else s.channels[Link(i, j) := Append(s.channels[Link(i, j)], Msg(h.phase, Entered(h)))]);
    } else {
      s' := s.(hosts := s.hosts[i := h.(pc := Receiving(1))]);
    }
    assert FenceStep(N, s, s', i, i);
  }

  lemma ClearAfterSend(N: nat, s: State, s': State, w: nat, i: nat, a: nat)
    requires Linked(N, s) && w < N && a < N && a != w && Clear(N, s, w)
    requires SendFence(N, s, s', i) && IsFenceTag(s.hosts[i].phase)
    ensures Link(a, w) in s'.channels && |s'.hosts| == N
    ensures ClearAhead(s'.channels[Link(a, w)], s'.hosts[w].completed)
  {
    var c, h := s.channels[Link(a, w)], s.hosts[i];
    assert ClearAhead(c, s.hosts[w].completed);
    if s'.channels[Link(a, w)] != c {
      ClearAppend(c, Msg(h.phase, Entered(h)), s.hosts[w].completed);
    }
  }

  lemma ClearAppend(c: Channel, m: Msg, n: nat)
    requires ClearAhead(c, n) && IsFenceTag(m.tag)
    ensures ClearAhead(Append(c, m), n)
  {
    var c' := Append(c, m);
    forall p | c'.taken <= p < |c'.sent| && Fences(c'.sent[..p]) == n && !IsFenceTag(c'.sent[p].tag)
      ensures c'.sent[p].tag == 0
    {
      assert c'.sent[..p] == c.sent[..p];
    }
  }

  lemma Unheard(N: nat, s: State, w: nat) returns (i: nat)
    requires Inv(N, s) && w < N && s.hosts[w].pc.Receiving? && s.hosts[w].pc.received < N
    ensures i < N && i != w && i !in Heard(N, s, w)
  {
    assert HostOk(N, s, w);
    var others := Below(N) - {w};
    assert |Heard(N, s, w)| < |others|;
    if others <= Heard(N, s, w) {
      SubsetCard(others, Heard(N, s, w));
    }
    i :| i in others && i !in Heard(N, s, w);
  }

  /** The channel from a host not yet heard: its fence message has been sent and not been taken. */
  lemma UnheardHead(N: nat, s: State, w: nat, i: nat)
    requires Inv(N, s) && AllIn(N, s, w) && i < N && i != w && i !in Heard(N, s, w)
    requires s.hosts[w].pc.Receiving? && !s.hosts[i].pc.Sending?
    ensures var c := s.channels[Link(i, w)];
            && c.taken < |c.sent|
            && FencesTaken(c) == s.hosts[w].completed
            && (IsFenceTag(c.sent[c.taken].tag) ==> c.sent[c.taken].tag == s.hosts[w].phase)
  {
    var c := s.channels[Link(i, w)];
    assert ChannelOk(c, s.hosts[i], s.hosts[w], i, w);
    assert c.sent[..|c.sent|] == c.sent;
    if IsFenceTag(c.sent[c.taken].tag) {
      HeadMatches(N, s, i, w);
    }
  }

  /** A step of `w` alone that works on one channel into it keeps what `w` relies on. */
  lemma AfterTake(N: nat, s: State, s': State, w: nat, i: nat, h': Host, c': Channel)
    requires Linked(N, s) && AllIn(N, s, w) && i < N && i != w
    requires s' == State(s.hosts[w := h'], s.channels[Link(i, w) := c'])
    requires h'.completed == s.hosts[w].completed && s.hosts[w].pc.Receiving? && h'.pc.Receiving?
    requires c'.sent == s.channels[Link(i, w)].sent && c'.taken >= s.channels[Link(i, w)].taken
    requires BacklogOf(c') < BacklogOf(s.channels[Link(i, w)])
    ensures Linked(N, s') && AllIn(N, s', w) && (Clear(N, s, w) ==> Clear(N, s', w))
    ensures SendsLeft(N, s', N) == SendsLeft(N, s, N) && Backlog(N, s', w, N) < Backlog(N, s, w, N)
  {
    SendsLeftFrame(N, s, s', w, N);
    BacklogFrame(N, s, s', w, i, N);
    if Clear(N, s, w) {
      forall a | 0 <= a < N && a != w ensures ClearAhead(s'.channels[Link(a, w)], s'.hosts[w].completed) {
        assert ClearAhead(s.channels[Link(a, w)], s.hosts[w].completed);
      }
    }
  }

  lemma TakeOne(N: nat, s: State, w: nat) returns (s': State)
    requires Inv(N, s) && AllIn(N, s, w) && Clear(N, s, w)
    requires s.hosts[w].pc.Receiving? && s.hosts[w].pc.received < N
    requires forall i :: 0 <= i < N ==> !s.hosts[i].pc.Sending?
    ensures FenceNext(N, s, s') && Inv(N, s') && AllIn(N, s', w) && Clear(N, s', w)
    ensures s'.hosts[w].completed == s.hosts[w].completed
    ensures SendsLeft(N, s', N) == SendsLeft(N, s, N) && Backlog(N, s', w, N) < Backlog(N, s, w, N)
  {
    var i := Unheard(N, s, w);
    UnheardHead(N, s, w, i);
    assert ClearAhead(s.channels[Link(i, w)], s.hosts[w].completed);
    var h', c' := HeadStep(N, s, w, i);
    s' := State(s.hosts[w := h'], s.channels[Link(i, w) := c']);
    AfterTake(N, s, s', w, i, h', c');
  }

  /** Host `w` finishes handling, takes the awaited fence message, or takes a message with tag 0. */
  lemma HeadStep(N: nat, s: State, w: nat, i: nat) returns (h': Host, c': Channel)
    requires Inv(N, s) && w < N && i < N && s.hosts[w].pc.Receiving? && s.hosts[w].pc.received < N
    requires var c := s.channels[Link(i, w)];
             && c.taken < |c.sent|
             && (IsFenceTag(c.sent[c.taken].tag) ==> c.sent[c.taken].tag == s.hosts[w].phase)
             && (c.handled < c.taken || IsFenceTag(c.sent[c.taken].tag) || c.sent[c.taken].tag == 0)
    ensures h'.completed == s.hosts[w].completed && h'.pc.Receiving?
    ensures c'.sent == s.channels[Link(i, w)].sent && c'.taken >= s.channels[Link(i, w)].taken
    ensures BacklogOf(c') < BacklogOf(s.channels[Link(i, w)])
    ensures var s' := State(s.hosts[w := h'], s.channels[Link(i, w) := c']); FenceNext(N, s, s') && Inv(N, s')
  {
    var h, c := s.hosts[w], s.channels[Link(i, w)];
    assert ChannelOk(c, s.hosts[i], h, i, w);
    h' := h;
    if c.handled < c.taken {
      c' := c.(handled := c.handled + 1);
    } else if IsFenceTag(c.sent[c.taken].tag) {
      h' := h.(pc := Receiving(h.pc.received + 1));
      c' := c.(taken := c.taken + 1, handled := c.handled + 1);
    } else {
      c' := c.(taken := c.taken + 1);
    }
    var s' := State(s.hosts[w := h'], s.channels[Link(i, w) := c']);
    assert s.hosts[w := h] == s.hosts;
    assert FenceStep(N, s, s', i, w);
    assert AnyStep(N, s, s', i, w, 0);
    NextPreserves(N, s, s');
  }

  /** A schedule of fence steps that brings `w` through its fence. */
  lemma {:induction false} GetsThrough(N: nat, s: State, w: nat) returns (st: seq<State>)
    requires Inv(N, s) && AllIn(N, s, w) && Clear(N, s, w)
    ensures FenceRun(N, st) && st[0] == s && Completes(N, s, w, st[|st| - 1])
    decreases SendsLeft(N, s, N), Backlog(N, s, w, N)
  {
    if !s.hosts[w].pc.Sending? && s.hosts[w].pc.received >= N {
      var h := s.hosts[w];
      var s' := s.(hosts := s.hosts[w := Host(Out, NextPhase(h.phase), h.completed + 1)]);
      assert FenceStep(N, s, s', w, w);
      st := [s, s'];
    } else {
      var s';
      if i: nat :| i < N && s.hosts[i].pc.Sending? {
        s' := SendOne(N, s, w, i);
      } else {
        s' := TakeOne(N, s, w);
      }
      var rest := GetsThrough(N, s', w);
      st := [s] + rest;
      forall k | 0 <= k < |st| - 1 ensures FenceNext(N, st[k], st[k + 1]) {
        if k > 0 {
          assert FenceNext(N, rest[k - 1], rest[k]);
        }
      }
    }
  }

  /** Message `p` from `i`, ahead of the fence message `w` waits for, has a tag nobody asks for. */
  predicate Obstructed(N: nat, s: State, i: nat, w: nat, p: nat, n: nat) {
    && Linked(N, s) && i < N && w < N && i != w && s.hosts[w].completed == n
    && var c := s.channels[Link(i, w)];
    && c.taken <= p < |c.sent| && Fences(c.sent[..p]) == n
    && !IsFenceTag(c.sent[p].tag) && c.sent[p].tag != 0
  }

  ghost predicate Blocked(N: nat, s: State, i: nat, w: nat, p: nat, n: nat) {
    Inv(N, s) && Obstructed(N, s, i, w, p, n)
  }

  /** How a step made while `w` waits changes the channel from `i` to `w`. */
  lemma HeadTaken(N: nat, s: State, s': State, i: nat, w: nat)
    requires Linked(N, s) && i < N && w < N && WaitingNext(N, s, s', w)
    ensures |s'.hosts| == N && Link(i, w) in s'.channels
    ensures var c, c' := s.channels[Link(i, w)], s'.channels[Link(i, w)];
            && c.sent <= c'.sent
            && (c'.taken != c.taken ==>
                  && c'.taken == c.taken + 1 && c.taken < |c.sent|
                  && (c.sent[c.taken].tag == 0 || c.sent[c.taken].tag == s.hosts[w].phase))
    ensures s'.hosts[w].completed != s.hosts[w].completed ==> s.hosts[w].pc.Receiving? && s.hosts[w].pc.received >= N
  {
  }

  lemma BlockedStays(N: nat, s: State, s': State, i: nat, w: nat, p: nat, n: nat)
    requires Blocked(N, s, i, w, p, n) && WaitingNext(N, s, s', w)
    ensures Blocked(N, s', i, w, p, n)
  {
    WaitingIsNext(N, s, s', w);
    NextPreserves(N, s, s');
    BlockedChannel(N, s, i, w, p, n);
    ObstructedStays(N, s, s', i, w, p, n);
  }

  lemma ObstructedStays(N: nat, s: State, s': State, i: nat, w: nat, p: nat, n: nat)
    requires Obstructed(N, s, i, w, p, n) && WaitingNext(N, s, s', w) && Linked(N, s')
    requires IsFenceTag(s.hosts[w].phase) && !(s.hosts[w].pc.Receiving? && s.hosts[w].pc.received >= N)
    ensures Obstructed(N, s', i, w, p, n)
  {
    HeadTaken(N, s, s', i, w);
    PrefixKept(s.channels[Link(i, w)].sent, s'.channels[Link(i, w)].sent, p);
  }

  lemma PrefixKept(a: seq<Msg>, b: seq<Msg>, p: nat)
    requires a <= b && p < |a|
    ensures b[..p] == a[..p] && b[p] == a[p]
  {
  }

  lemma WaitingIsNext(N: nat, s: State, s': State, w: nat)
    requires Linked(N, s) && WaitingNext(N, s, s', w)
    ensures Next(N, s, s')
  {
    var a: nat, b: nat, tag: nat :| WaitingStep(N, s, s', a, b, tag, w);
    assert AnyStep(N, s, s', a, b, tag);
  }

  lemma BlockedChannel(N: nat, s: State, i: nat, w: nat, p: nat, n: nat)
    requires Blocked(N, s, i, w, p, n)
    ensures IsFenceTag(s.hosts[w].phase)
    ensures !(s.hosts[w].pc.Receiving? && s.hosts[w].pc.received >= N)
  {
    assert HostOk(N, s, w);
    PhaseStep(s.hosts[w].completed);
    var c := s.channels[Link(i, w)];
    FencesMonotone(c.sent, c.taken, p);
    if s.hosts[w].pc.Receiving? && s.hosts[w].pc.received >= N {
      AllHeard(N, s, w, i);
    }
  }

  lemma {:induction false} BlockedForever(N: nat, st: seq<State>, i: nat, w: nat, p: nat, n: nat, k: nat)
    requires WaitingRun(N, st, w) && k < |st| && Blocked(N, st[0], i, w, p, n)
    ensures Blocked(N, st[k], i, w, p, n)
  {
    if k > 0 {
      BlockedForever(N, st, i, w, p, n, k - 1);
      BlockedStays(N, st[k - 1], st[k], i, w, p, n);
    }
  }

  /** Progress, exactly. Let `w` be furthest behind and let every host as far behind have entered.
      If every program message still ahead of an awaited fence message has tag 0, the fences' own
      steps bring `w` through. Otherwise nothing does: whatever the hosts do, `w` completes no fence
      as long as its program, which is inside the fence, does not receive. */
  lemma NoDeadlock(N: nat, run: seq<State>, k: nat, w: nat)
    requires IsRun(N, run) && k < |run| && AllIn(N, run[k], w)
    ensures Clear(N, run[k], w) <==>
            exists st: seq<State> :: FenceRun(N, st) && st[0] == run[k] && Completes(N, run[k], w, st[|st| - 1])
    ensures Clear(N, run[k], w) <==>
            exists st: seq<State> :: WaitingRun(N, st, w) && st[0] == run[k] && Completes(N, run[k], w, st[|st| - 1])
  {
    RunInv(N, run, k);
    var s := run[k];
    if Clear(N, s, w) {
      var st := GetsThrough(N, s, w);
      FenceRunWaits(N, st, w);
    } else {
      forall st: seq<State> | WaitingRun(N, st, w) && st[0] == s ensures !Completes(N, s, w, st[|st| - 1]) {
        NotThrough(N, s, w, st);
      }
      forall st: seq<State> | FenceRun(N, st) && st[0] == s ensures !Completes(N, s, w, st[|st| - 1]) {
        FenceRunWaits(N, st, w);
        NotThrough(N, s, w, st);
      }
    }
  }

  lemma FenceRunWaits(N: nat, st: seq<State>, w: nat)
    requires FenceRun(N, st)
    ensures WaitingRun(N, st, w)
  {
    forall k | 0 <= k < |st| - 1 ensures WaitingNext(N, st[k], st[k + 1], w) {
      assert FenceNext(N, st[k], st[k + 1]);
      var i: nat, j: nat :| FenceStep(N, st[k], st[k + 1], i, j);
      assert WaitingStep(N, st[k], st[k + 1], i, j, 0, w);
    }
  }

  lemma NotThrough(N: nat, s: State, w: nat, st: seq<State>)
    requires Inv(N, s) && w < N && !Clear(N, s, w) && WaitingRun(N, st, w) && st[0] == s
    ensures !Completes(N, s, w, st[|st| - 1])
  {
    var n := s.hosts[w].completed;
    var i :| 0 <= i < N && i != w && !ClearAhead(s.channels[Link(i, w)], n);
    var c := s.channels[Link(i, w)];
    var p :| c.taken <= p < |c.sent| && Fences(c.sent[..p]) == n && !IsFenceTag(c.sent[p].tag) && c.sent[p].tag != 0;
    BlockedForever(N, st, i, w, p, n, |st| - 1);
  }

  // ---------------------------------------------------------------- what a program receive does

  /** The program at `w` receives the message at the head of a channel. */
  lemma ReceiveHead(N: nat, s: State, w: nat, i: nat) returns (c': Channel)
    requires Inv(N, s) && w < N && i < N
    requires var c := s.channels[Link(i, w)];
             c.handled == c.taken < |c.sent| && c.sent[c.taken].tag != 0 && !IsFenceTag(c.sent[c.taken].tag)
    ensures c'.sent == s.channels[Link(i, w)].sent && c'.taken >= s.channels[Link(i, w)].taken
    ensures BacklogOf(c') < BacklogOf(s.channels[Link(i, w)])
    ensures var s' := State(s.hosts[w := s.hosts[w]], s.channels[Link(i, w) := c']); Next(N, s, s') && Inv(N, s')
  {
    var c := s.channels[Link(i, w)];
    assert ChannelOk(c, s.hosts[i], s.hosts[w], i, w);
    c' := c.(taken := c.taken + 1, handled := c.handled + 1);
    assert s.hosts[w := s.hosts[w]] == s.hosts;
    var s' := State(s.hosts[w := s.hosts[w]], s.channels[Link(i, w) := c']);
    assert AnyStep(N, s, s', i, w, 0);
    NextPreserves(N, s, s');
  }

  lemma TakeAny(N: nat, s: State, w: nat) returns (s': State)
    requires Inv(N, s) && AllIn(N, s, w)
    requires s.hosts[w].pc.Receiving? && s.hosts[w].pc.received < N
    requires forall i :: 0 <= i < N ==> !s.hosts[i].pc.Sending?
    ensures Next(N, s, s') && Inv(N, s') && AllIn(N, s', w)
    ensures s'.hosts[w].completed == s.hosts[w].completed
    ensures SendsLeft(N, s', N) == SendsLeft(N, s, N) && Backlog(N, s', w, N) < Backlog(N, s, w, N)
  {
    var i := Unheard(N, s, w);
    UnheardHead(N, s, w, i);
    var c := s.channels[Link(i, w)];
    assert ChannelOk(c, s.hosts[i], s.hosts[w], i, w);
    var h', c';
    if c.handled == c.taken && c.sent[c.taken].tag != 0 && !IsFenceTag(c.sent[c.taken].tag) {
      h' := s.hosts[w];
      c' := ReceiveHead(N, s, w, i);
    } else {
      h', c' := HeadStep(N, s, w, i);
    }
    s' := State(s.hosts[w := h'], s.channels[Link(i, w) := c']);
    if FenceNext(N, s, s') {
      FenceIsNext(N, s, s');
    }
    AfterTake(N, s, s', w, i, h', c');
  }

  lemma FenceIsNext(N: nat, s: State, s': State)
    requires Linked(N, s) && FenceNext(N, s, s')
    ensures Next(N, s, s')
  {
    var i: nat, j: nat :| FenceStep(N, s, s', i, j);
    assert AnyStep(N, s, s', i, j, 0);
  }

  /** A continuation made of any steps. */
  ghost predicate Continuation(N: nat, st: seq<State>) {
    |st| >= 1 && forall k :: 0 <= k < |st| - 1 ==> Linked(N, st[k]) && Next(N, st[k], st[k + 1])
  }

  lemma Prepend(N: nat, s: State, rest: seq<State>) returns (st: seq<State>)
    requires Linked(N, s) && Continuation(N, rest) && Next(N, s, rest[0])
    ensures Continuation(N, st) && st[0] == s && st[|st| - 1] == rest[|rest| - 1]
  {
    st := [s] + rest;
    forall k | 0 <= k < |st| - 1 ensures Linked(N, st[k]) && Next(N, st[k], st[k + 1]) {
      if k > 0 {
        assert Linked(N, rest[k - 1]) && Next(N, rest[k - 1], rest[k]);
      }
    }
  }

  lemma LeaveNow(N: nat, s: State, w: nat) returns (s': State)
    requires Inv(N, s) && AllIn(N, s, w) && s.hosts[w].pc.Receiving? && s.hosts[w].pc.received >= N
    ensures FenceNext(N, s, s') && Next(N, s, s') && Completes(N, s, w, s')
  {
    var h := s.hosts[w];
    s' := s.(hosts := s.hosts[w := Host(Out, NextPhase(h.phase), h.completed + 1)]);
    assert Leave(N, s, s', w);
    assert FenceStep(N, s, s', w, w);
    FenceIsNext(N, s, s');
  }

  lemma OneNearer(N: nat, s: State, w: nat) returns (s': State)
    requires Inv(N, s) && AllIn(N, s, w) && !(s.hosts[w].pc.Receiving? && s.hosts[w].pc.received >= N)
    ensures Next(N, s, s') && Inv(N, s') && AllIn(N, s', w) && s'.hosts[w].completed == s.hosts[w].completed
    ensures SendsLeft(N, s', N) < SendsLeft(N, s, N) ||
            (SendsLeft(N, s', N) == SendsLeft(N, s, N) && Backlog(N, s', w, N) < Backlog(N, s, w, N))
  {
    if i: nat :| i < N && s.hosts[i].pc.Sending? {
      s' := SendOne(N, s, w, i);
      FenceIsNext(N, s, s');
    } else {
      s' := TakeAny(N, s, w);
    }
  }

  /** When the program at `w` receives what is in the way, `w` always gets through: whatever the
      tags, some continuation completes its fence. */
  lemma {:induction false} ReceivingGetsThrough(N: nat, s: State, w: nat) returns (st: seq<State>)
    requires Inv(N, s) && AllIn(N, s, w)
    ensures Continuation(N, st) && st[0] == s && Completes(N, s, w, st[|st| - 1])
    decreases SendsLeft(N, s, N), Backlog(N, s, w, N)
  {
    if s.hosts[w].pc.Receiving? && s.hosts[w].pc.received >= N {
      var s' := LeaveNow(N, s, w);
      st := Prepend(N, s, [s']);
    } else {
      var s' := OneNearer(N, s, w);
      var rest := ReceivingGetsThrough(N, s', w);
      st := Prepend(N, s, rest);
    }
  }

  // ---------------------------------------------------------------- a fence that is stuck

  /** The state of two hosts that send nothing to themselves. */
  function Two(a: Host, b: Host, ab: Channel, ba: Channel): State {
    State([a, b], map[Link(0, 0) := Channel([], 0, 0), Link(0, 1) := ab, Link(1, 0) := ba, Link(1, 1) := Channel([], 0, 0)])
  }

  /** Host 0 sends host 1 a program message with a non-zero tag; both then enter the fence, and host
      0 leaves it. */
  function StuckAt(tag: nat, k: nat): State {
    var none := Channel([], 0, 0);
    var m := Channel([Msg(tag, 0)], 0, 0);
    var mf := Channel([Msg(tag, 0), Msg(1, 1)], 0, 0);
    var f := Channel([Msg(1, 1)], 0, 0);
    if k == 0 then Two(Host(Out, 1, 0), Host(Out, 1, 0), none, none)
    else if k == 1 then Two(Host(Out, 1, 0), Host(Out, 1, 0), m, none)
    else if k == 2 then Two(Host(Sending(0), 1, 0), Host(Out, 1, 0), m, none)
    else if k == 3 then Two(Host(Sending(1), 1, 0), Host(Out, 1, 0), m, none)
    else if k == 4 then Two(Host(Sending(2), 1, 0), Host(Out, 1, 0), mf, none)
    else if k == 5 then Two(Host(Receiving(1), 1, 0), Host(Out, 1, 0), mf, none)
    else if k == 6 then Two(Host(Receiving(1), 1, 0), Host(Sending(0), 1, 0), mf, none)
    else if k == 7 then Two(Host(Receiving(1), 1, 0), Host(Sending(1), 1, 0), mf, f)
    else if k == 8 then Two(Host(Receiving(1), 1, 0), Host(Sending(2), 1, 0), mf, f)
    else if k == 9 then Two(Host(Receiving(1), 1, 0), Host(Receiving(1), 1, 0), mf, f)
    else if k == 10 then Two(Host(Receiving(2), 1, 0), Host(Receiving(1), 1, 0), mf, Channel([Msg(1, 1)], 1, 1))
    else Two(Host(Out, 2, 1), Host(Receiving(1), 1, 0), mf, Channel([Msg(1, 1)], 1, 1))
  }

  /** Any program tag of 32767 or more: at the end of this run host 1 is inside the fence that host 0
      has left, and no step of any fence is possible. */
  lemma FenceStuck(tag: nat) returns (run: seq<State>)
    requires tag >= PHASE_LIMIT
    ensures IsRun(2, run) && |run| == 12 && run[11] == StuckAt(tag, 11)
    ensures AllIn(2, run[11], 1) && !Clear(2, run[11], 1)
    ensures forall s': State :: !FenceNext(2, run[11], s')
  {
    run := StuckPrefix(tag, 11);
    StuckEnd(tag);
  }

  lemma {:induction false} StuckPrefix(tag: nat, k: nat) returns (run: seq<State>)
    requires tag >= PHASE_LIMIT && k <= 11
    ensures IsRun(2, run) && |run| == k + 1 && run[k] == StuckAt(tag, k)
  {
    if k == 0 {
      run := [StuckAt(tag, 0)];
    } else {
      var before := StuckPrefix(tag, k - 1);
      StuckStep(tag, k - 1);
      run := ExtendRun(2, before, StuckAt(tag, k));
    }
  }

  lemma ExtendRun(N: nat, before: seq<State>, s: State) returns (run: seq<State>)
    requires IsRun(N, before) && Next(N, before[|before| - 1], s) && Linked(N, s)
    ensures run == before + [s] && IsRun(N, run)
  {
    run := before + [s];
    forall k | 0 <= k < |run| - 1 ensures Next(N, run[k], run[k + 1]) {
      if k < |before| - 1 {
        assert Next(N, before[k], before[k + 1]);
      }
    }
  }

  lemma StuckEnd(tag: nat)
    requires tag >= PHASE_LIMIT
    ensures var s := StuckAt(tag, 11);
            && Linked(2, s) && AllIn(2, s, 1) && !Clear(2, s, 1)
            && forall s': State :: !FenceNext(2, s, s')
  {
    var c := StuckAt(tag, 11).channels[Link(0, 1)];
    assert c.sent[..0] == [];
    assert !ClearAhead(c, 0);
  }

  lemma StuckStep(tag: nat, k: nat)
    requires tag >= PHASE_LIMIT && k < 11
    ensures Linked(2, StuckAt(tag, k)) && Linked(2, StuckAt(tag, k + 1)) && Next(2, StuckAt(tag, k), StuckAt(tag, k + 1))
  {
    if k in {0, 3, 6, 9} {
      StuckMessage(tag, k);
    } else {
      var s := StuckAt(tag, k);
      TwoSteps(s.hosts[0], s.hosts[1], s.channels[Link(0, 1)], s.channels[Link(1, 0)]);
    }
  }

  /** The steps of two hosts that leave the channels alone. */
  lemma TwoSteps(a: Host, b: Host, ab: Channel, ba: Channel)
    ensures Linked(2, Two(a, b, ab, ba))
    ensures a.pc.Out? ==> Next(2, Two(a, b, ab, ba), Two(a.(pc := Sending(0)), b, ab, ba))
    ensures b.pc.Out? ==> Next(2, Two(a, b, ab, ba), Two(a, b.(pc := Sending(0)), ab, ba))
    ensures a.pc == Sending(0) ==> Next(2, Two(a, b, ab, ba), Two(a.(pc := Sending(1)), b, ab, ba))
    ensures a.pc == Sending(2) ==> Next(2, Two(a, b, ab, ba), Two(a.(pc := Receiving(1)), b, ab, ba))
    ensures b.pc == Sending(1) ==> Next(2, Two(a, b, ab, ba), Two(a, b.(pc := Sending(2)), ab, ba))
    ensures b.pc == Sending(2) ==> Next(2, Two(a, b, ab, ba), Two(a, b.(pc := Receiving(1)), ab, ba))
    ensures a.pc == Receiving(2) ==> Next(2, Two(a, b, ab, ba), Two(Host(Out, NextPhase(a.phase), a.completed + 1), b, ab, ba))
  {
    var s := Two(a, b, ab, ba);
    if a.pc.Out? { assert AnyStep(2, s, Two(a.(pc := Sending(0)), b, ab, ba), 0, 0, 0); }
    if b.pc.Out? { assert AnyStep(2, s, Two(a, b.(pc := Sending(0)), ab, ba), 0, 1, 0); }
    if a.pc == Sending(0) { assert AnyStep(2, s, Two(a.(pc := Sending(1)), b, ab, ba), 0, 0, 0); }
    if a.pc == Sending(2) { assert AnyStep(2, s, Two(a.(pc := Receiving(1)), b, ab, ba), 0, 0, 0); }
    if b.pc == Sending(1) { assert AnyStep(2, s, Two(a, b.(pc := Sending(2)), ab, ba), 0, 1, 0); }
    if b.pc == Sending(2) { assert AnyStep(2, s, Two(a, b.(pc := Receiving(1)), ab, ba), 0, 1, 0); }
    if a.pc == Receiving(2) {
      assert Leave(2, s, Two(Host(Out, NextPhase(a.phase), a.completed + 1), b, ab, ba), 0);
      assert AnyStep(2, s, Two(Host(Out, NextPhase(a.phase), a.completed + 1), b, ab, ba), 0, 0, 0);
    }
  }

  lemma StuckMessage(tag: nat, k: nat)
    requires tag >= PHASE_LIMIT && k in {0, 3, 6, 9}
    ensures Linked(2, StuckAt(tag, k)) && Next(2, StuckAt(tag, k), StuckAt(tag, k + 1))
  {
    var s, s' := StuckAt(tag, k), StuckAt(tag, k + 1);
    var none := Channel([], 0, 0);
    if k == 0 {
      assert Append(none, Msg(tag, 0)) == Channel([Msg(tag, 0)], 0, 0);
      assert SendUser(2, s, s', 0, 1, tag);
      assert AnyStep(2, s, s', 0, 1, tag);
    } else if k == 3 {
      assert Append(Channel([Msg(tag, 0)], 0, 0), Msg(1, 1)) == Channel([Msg(tag, 0), Msg(1, 1)], 0, 0);
      assert SendFence(2, s, s', 0);
      assert AnyStep(2, s, s', 0, 0, 0);
    } else if k == 6 {
      assert Append(none, Msg(1, 1)) == Channel([Msg(1, 1)], 0, 0);
      assert SendFence(2, s, s', 1);
      assert AnyStep(2, s, s', 0, 1, 0);
    } else {
      assert TakeFence(2, s, s', 1, 0);
      assert AnyStep(2, s, s', 1, 0, 0);
    }
  }
}
