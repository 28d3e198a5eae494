/**
 One directed channel end to end: program threads add messages, the worker assembles chunks,
 the transport carries them in order (non-overtaking, section 3.5 of MPI 3.1), the remote
 worker delivers them, and program threads pop messages by tag. Any interleaving of these
 steps; `sent` and `received` are history only.
 */
module Messaging {
  import opened Framing
  import opened SendBuffer

  /** `wire`, `inflight` and `done` are the transport's queues; `pending` is the byte stream that
      the receive buffer stands for. */
  datatype Channel = Channel(
    sent: seq<Message>,
    sender: Sender,
    wire: seq<Chunk>,
    inflight: seq<Chunk>,
    done: seq<Chunk>,
    pending: seq<Tagged>,
    received: seq<Message>)

  const EMPTY := Channel([], Sender([], 0, NoJob), [], [], [], [], [])

  datatype Step =
    | Add(m: Message)
    | Begin
    | CopyFront
    | PopFront
    | Ship
    | Probe
    | Complete
    | Deliver
    | PopMsg(tag: nat)

  /** The worker turns to a queue once its bytes are urgent, many or old enough, but never while the
      byte counter is zero. */
  predicate Enabled(c: Channel, a: Step) {
    match a
    case Add(m) => Sendable(m)
    case Begin => CanBegin(c.sender) && c.sender.numBytes != 0
    case CopyFront => CanCopy(c.sender)
    case PopFront => CanPop(c.sender)
    case Ship => CanFinish(c.sender)
    case Probe => c.wire != []
    case Complete => c.inflight != []
    case Deliver => c.done != []
    case PopMsg(tag) => HasMessage(c.pending, tag)
  }

  function Do(c: Channel, a: Step): Channel
    requires Enabled(c, a)
  {
    match a
    case Add(m) => c.(sent := c.sent + [m], sender := Added(c.sender, m))
    case Begin => c.(sender := Begun(c.sender))
    case CopyFront => c.(sender := FrontCopied(c.sender))
    case PopFront => c.(sender := FrontPopped(c.sender))
    case Ship =>
      c.(sender := Finished(c.sender), wire := c.wire + [Chunk(c.sender.job.tag, c.sender.job.vec)])
    case Probe => c.(wire := c.wire[1..], inflight := c.inflight + [c.wire[0]])
    case Complete => c.(inflight := c.inflight[1..], done := c.done + [c.inflight[0]])
    case Deliver => c.(done := c.done[1..], pending := c.pending + Tag(c.done[0].tag, c.done[0].bytes))
    case PopMsg(tag) =>
      var m := HeadMessage(c.pending, tag);
      c.(pending := c.pending[4 + |m.payload|..], received := c.received + [m])
  }

  /** The state after a schedule of steps, each enabled when its turn comes. */
  ghost predicate Reaches(c: Channel, steps: seq<Step>, c': Channel)
    decreases |steps|
  {
    if steps == [] then c' == c
    else Enabled(c, steps[0]) && Reaches(Do(c, steps[0]), steps[1..], c')
  }

  // ---------------------------------------------------------------- the invariant

  /** The messages not yet copied by the worker. */
  function Unassembled(s: Sender): seq<Message> {
    if s.job.Job? && s.job.copied && s.queue != [] then s.queue[1..] else s.queue
  }

  function JobBytes(s: Sender): seq<Tagged> {
    if s.job.Job? then Tag(s.job.tag, s.job.vec) else []
  }

  /** Everything between the sender's queue and the receiver's hands, in order. */
  function Travelling(c: Channel): seq<Tagged> {
    c.pending + (Stream(c.done) + (Stream(c.inflight) + (Stream(c.wire) + JobBytes(c.sender))))
  }

  ghost predicate Inv(c: Channel) {
    && SenderOk(c.sender) && Accounted(c.sender)
    && AllSendable(c.sent) && AllSendable(c.received)
    && |Unassembled(c.sender)| <= |c.sent|
    && Unassembled(c.sender) == c.sent[|c.sent| - |Unassembled(c.sender)|..]
    && Wire(c.received) + Travelling(c) == Wire(c.sent[..|c.sent| - |Unassembled(c.sender)|])
  }

  /** Every step keeps the byte counter right. */
  lemma SenderAccounts(c: Channel, a: Step)
    requires SenderOk(c.sender) && Accounted(c.sender) && Enabled(c, a)
    ensures Accounted(Do(c, a).sender)
  {
    var s := c.sender;
    var removed: seq<Message> :| Accounts(s, removed);
    match a {
      case Add(m) => AddAccounts(s, m, removed);
      case Begin => BeginAccounts(s);
      case CopyFront => CopyAccounts(s, removed);
      case PopFront => PopAccounts(s, removed);
      case Ship => FinishAccounts(s, removed);
      case _ =>
    }
  }

  lemma AddPreserves(c: Channel, m: Message)
    requires Inv(c) && Sendable(m)
    ensures Inv(Do(c, Add(m)))
  {
    AddKeeps(c.sender, m);
    SenderAccounts(c, Add(m));
    var c' := Do(c, Add(m));
    var u, u' := Unassembled(c.sender), Unassembled(c'.sender);
    assert u' == u + [m];
    assert c'.sent[..|c'.sent| - |u'|] == c.sent[..|c.sent| - |u|];
  }

  lemma BeginPreserves(c: Channel)
    requires Inv(c) && Enabled(c, Begin)
    ensures Inv(Do(c, Begin))
  {
    BeginKeeps(c.sender);
    SenderAccounts(c, Begin);
    assert Travelling(Do(c, Begin)) == Travelling(c);
  }

  /** What the worker appends to its vector is appended to the bytes in travel. */
  lemma TravellingGrows(c: Channel, c': Channel, x: seq<Tagged>)
    requires c'.pending == c.pending && c'.done == c.done && c'.inflight == c.inflight && c'.wire == c.wire
    requires JobBytes(c'.sender) == JobBytes(c.sender) + x
    ensures Travelling(c') == Travelling(c) + x
  {
    var j := JobBytes(c.sender);
    Regroup(Stream(c.wire), j, x);
    Regroup(Stream(c.inflight), Stream(c.wire) + j, x);
    Regroup(Stream(c.done), Stream(c.inflight) + (Stream(c.wire) + j), x);
    Regroup(c.pending, Stream(c.done) + (Stream(c.inflight) + (Stream(c.wire) + j)), x);
  }

  /** Copying a message moves it from the queue to the bytes in travel. */
  lemma CopyPreserves(c: Channel)
    requires Inv(c) && Enabled(c, CopyFront)
    ensures Inv(Do(c, CopyFront))
  {
    CopyKeeps(c.sender);
    SenderAccounts(c, CopyFront);
    var c' := Do(c, CopyFront);
    var m := c.sender.queue[0];
    var n := |c.sent| - |c.sender.queue|;
    var x := Tag(m.tag, Frame(m.payload));
    assert c.sent[n] == m;
    assert c.sent[..n + 1] == c.sent[..n] + [m];
    WireSnoc(c.sent[..n], m);
    TagConcat(c.sender.job.tag, c.sender.job.vec, Frame(m.payload));
    TravellingGrows(c, c', x);
    Regroup(Wire(c.received), Travelling(c), x);
  }

  lemma PopFrontPreserves(c: Channel)
    requires Inv(c) && Enabled(c, PopFront)
    ensures Inv(Do(c, PopFront))
  {
    PopKeeps(c.sender);
    SenderAccounts(c, PopFront);
  }

  /** Handing a chunk from one queue to the next leaves the bytes in travel as they are. */
  lemma TransportKeeps(c: Channel, a: Step)
    requires Enabled(c, a) && (a.Ship? || a.Probe? || a.Complete? || a.Deliver?)
    ensures Travelling(Do(c, a)) == Travelling(c)
  {
    var j := JobBytes(c.sender);
    match a {
      case Ship =>
        StreamSnoc(c.wire, Chunk(c.sender.job.tag, c.sender.job.vec));
        assert Stream(c.wire + [Chunk(c.sender.job.tag, c.sender.job.vec)]) + [] == Stream(c.wire) + j;
      case Probe =>
        StreamSnoc(c.inflight, c.wire[0]);
        var x := Tag(c.wire[0].tag, c.wire[0].bytes);
        Regroup(x, Stream(c.wire[1..]), j);
        Regroup(Stream(c.inflight), x, Stream(c.wire[1..]) + j);
      case Complete =>
        StreamSnoc(c.done, c.inflight[0]);
        var x := Tag(c.inflight[0].tag, c.inflight[0].bytes);
        Regroup(x, Stream(c.inflight[1..]), Stream(c.wire) + j);
        Regroup(Stream(c.done), x, Stream(c.inflight[1..]) + (Stream(c.wire) + j));
      case Deliver =>
        var x := Tag(c.done[0].tag, c.done[0].bytes);
        Regroup(x, Stream(c.done[1..]), Stream(c.inflight) + (Stream(c.wire) + j));
        Regroup(c.pending, x, Stream(c.done[1..]) + (Stream(c.inflight) + (Stream(c.wire) + j)));
    }
  }

  lemma TransportPreserves(c: Channel, a: Step)
    requires Inv(c) && Enabled(c, a) && (a.Ship? || a.Probe? || a.Complete? || a.Deliver?)
    ensures Inv(Do(c, a))
  {
    TransportKeeps(c, a);
    SenderAccounts(c, a);
  }

  lemma PopMsgPreserves(c: Channel, tag: nat)
    requires Inv(c) && HasMessage(c.pending, tag)
    ensures Inv(Do(c, PopMsg(tag)))
  {
    var c' := Do(c, PopMsg(tag));
    var m := HeadMessage(c.pending, tag);
    var frame := Tag(tag, Frame(m.payload));
    assert c.pending == frame + c'.pending;
    Regroup(frame, c'.pending, Stream(c.done) + (Stream(c.inflight) + (Stream(c.wire) + JobBytes(c.sender))));
    PoppedIsSendable(c, m, Travelling(c'));
    WireSnoc(c.received, m);
    Regroup(Wire(c.received), frame, Travelling(c'));
  }

  /** A popped message is one that was sent, so its length is within the sender's limit. */
  lemma PoppedIsSendable(c: Channel, m: Message, rest: seq<Tagged>)
    requires Inv(c) && |m.payload| < WORD
    requires Travelling(c) == Tag(m.tag, Frame(m.payload)) + rest
    ensures Sendable(m)
  {
    var n := |c.sent| - |Unassembled(c.sender)|;
    WirePrefix(c.received, Travelling(c), c.sent[..n]);
    var left := c.sent[..n][|c.received|..];
    assert left != [];
    var ts := Travelling(c);
    assert ts == Tag(left[0].tag, Frame(left[0].payload)) + Wire(left[1..]);
    assert Untag(ts[..4]) == EncodeLength(|m.payload|);
    assert Untag(ts[..4]) == EncodeLength(|left[0].payload|);
    LengthRoundTrip(|m.payload|);
    LengthRoundTrip(|left[0].payload|);
  }

  lemma StepPreserves(c: Channel, a: Step)
    requires Inv(c) && Enabled(c, a)
    ensures Inv(Do(c, a))
  {
    match a {
      case Add(m) => AddPreserves(c, m);
      case Begin => BeginPreserves(c);
      case CopyFront => CopyPreserves(c);
      case PopFront => PopFrontPreserves(c);
      case PopMsg(tag) => PopMsgPreserves(c, tag);
      case _ => TransportPreserves(c, a);
    }
  }

  lemma {:induction false} RunPreserves(c: Channel, steps: seq<Step>, c': Channel)
    requires Inv(c) && Reaches(c, steps, c')
    ensures Inv(c')
    decreases |steps|
  {
    if steps != [] {
      StepPreserves(c, steps[0]);
      RunPreserves(Do(c, steps[0]), steps[1..], c');
    }
  }

  lemma EmptyIsOk()
    ensures Inv(EMPTY)
  {
    assert Accounts(EMPTY.sender, []);
  }

  lemma Split(c: Channel) returns (travelling: seq<Message>)
    requires Inv(c)
    ensures c.sent == c.received + travelling + Unassembled(c.sender)
    ensures AllSendable(travelling) && Travelling(c) == Wire(travelling)
  {
    var n := |c.sent| - |Unassembled(c.sender)|;
    var taken := c.sent[..n];
    WirePrefix(c.received, Travelling(c), taken);
    travelling := taken[|c.received|..];
    assert taken == c.received + travelling;
    assert c.sent == taken + c.sent[n..];
  }

  // ---------------------------------------------------------------- the theorems

  /** Conservation on every channel and schedule: received, then travelling, then queued messages
      are exactly the sent ones in order, and the bytes in travel are the wire image of the middle
      part: nothing is lost, duplicated, reordered or corrupted. */
  lemma Conservation(steps: seq<Step>, c: Channel) returns (travelling: seq<Message>)
    requires Reaches(EMPTY, steps, c)
    ensures c.sent == c.received + travelling + Unassembled(c.sender)
    ensures AllSendable(travelling) && Travelling(c) == Wire(travelling)
  {
    EmptyIsOk();
    RunPreserves(EMPTY, steps, c);
    travelling := Split(c);
  }

  /** What `popMsg` finds when the stream is cut anywhere: the first message, if all of it is there. */
  lemma HeadOfCut(m: Message, after: seq<Tagged>, ts: seq<Tagged>, rest: seq<Tagged>, tag: nat)
    requires Sendable(m) && ts + rest == Tag(m.tag, Frame(m.payload)) + after
    ensures HasMessage(ts, tag) <==> tag == m.tag && m.payload != [] && |ts| >= 4 + |m.payload|
    ensures HasMessage(ts, tag) ==> HeadMessage(ts, tag) == m
  {
    var frame := Tag(m.tag, Frame(m.payload));
    var n := |frame|;
    if |ts| >= n {
      assert ts[..n] == (ts + rest)[..n] == frame;
      assert ts == frame + ts[n..];
      FrameIsFound(m, ts[n..]);
      if tag != m.tag {
        OtherTagsWait(m, ts[n..], tag);
      }
    } else {
      assert ts + frame[|ts|..] == frame by {
        assert ts == (ts + rest)[..|ts|] == frame[..|ts|];
      }
      PartialFrameWaits(m, ts, frame[|ts|..], tag);
    }
  }

  /** Delivery is exact, at every moment of every schedule: `popMsg` hands out the next message
      that was sent and not yet received if it is asked for under its tag, the message has a
      payload and all its bytes have arrived; any other request finds nothing. */
  lemma DeliveryExact(steps: seq<Step>, c: Channel, tag: nat)
    requires Reaches(EMPTY, steps, c)
    ensures |c.received| <= |c.sent| && c.received == c.sent[..|c.received|]
    ensures |c.received| == |c.sent| ==> !HasMessage(c.pending, tag)
    ensures |c.received| < |c.sent| ==>
              var next := c.sent[|c.received|];
              && (HasMessage(c.pending, tag) <==>
                  tag == next.tag && next.payload != [] && |c.pending| >= 4 + |next.payload|)
              && (HasMessage(c.pending, tag) ==> HeadMessage(c.pending, tag) == next)
  {
    var left := Conservation(steps, c);
    var rest := Stream(c.done) + (Stream(c.inflight) + (Stream(c.wire) + JobBytes(c.sender)));
    assert c.pending + rest == Wire(left);
    if left == [] {
      assert |c.pending + rest| == 0;
    } else {
      assert c.sent[|c.received|] == left[0];
      HeadOfCut(left[0], Wire(left[1..]), c.pending, rest, tag);
    }
  }

  lemma {:induction false} Continue(c: Channel, a: seq<Step>, c': Channel, b: seq<Step>, c'': Channel)
    requires Reaches(c, a, c') && Reaches(c', b, c'')
    ensures Reaches(c, a + b, c'')
    decreases |a|
  {
    if a == [] {
      assert a + b == b;
    } else {
      Continue(Do(c, a[0]), a[1..], c', b, c'');
      assert (a + b)[1..] == a[1..] + b;
    }
  }

  lemma Snoc(steps: seq<Step>, c: Channel, a: Step)
    requires Reaches(EMPTY, steps, c) && Enabled(c, a)
    ensures Reaches(EMPTY, steps + [a], Do(c, a))
  {
    assert [a][1..] == [];
    Continue(EMPTY, steps, c, [a], Do(c, a));
  }

  /** An empty payload is never handed out and holds up its channel for good: once it is the next
      message, no schedule whatsoever receives anything more. */
  lemma {:induction false} EmptyPayloadBlocks(steps: seq<Step>, c: Channel, more: seq<Step>, c': Channel)
    requires Reaches(EMPTY, steps, c) && Reaches(c, more, c')
    requires |c.received| < |c.sent| && c.sent[|c.received|].payload == []
    ensures c'.received == c.received
    decreases |more|
  {
    if more != [] {
      var a := more[0];
      if a.PopMsg? {
        DeliveryExact(steps, c, a.tag);
      }
      Snoc(steps, c, a);
      EmptyPayloadBlocks(steps + [a], Do(c, a), more[1..], c');
    }
  }

  /** Such a channel is easily reached: by adding an empty message. */
  lemma EmptyPayloadReached(tag: nat)
    ensures var m := Message(tag, []);
            var c := Do(EMPTY, Add(m));
            Reaches(EMPTY, [Add(m)], c) && |c.received| < |c.sent| && c.sent[|c.received|].payload == []
  {
    assert [Add(Message(tag, []))][1..] == [];
  }

  // ---------------------------------------------------------------- the byte counter

  /** The byte counter of every reachable channel: without a job it is the payload queued, during
      one that and the payload of the messages the job has already taken off the queue. So the
      worker passes over an idle queue exactly if it holds no payload at all. */
  lemma NumBytesExact(steps: seq<Step>, c: Channel) returns (removed: seq<Message>)
    requires Reaches(EMPTY, steps, c)
    ensures var s := c.sender;
            && s.numBytes == PayloadBytes(s.queue) + PayloadBytes(removed)
            && (s.job.NoJob? ==> removed == [])
            && (s.job.Job? ==>
                  && (s.job.copied ==> s.queue != []) && AllSendable(removed) && AllSendable(s.queue)
                  && Tag(s.job.tag, s.job.vec) == Wire(if s.job.copied then removed + [s.queue[0]] else removed))
            && (s.job.NoJob? ==> (s.numBytes == 0 <==> forall i :: 0 <= i < |s.queue| ==> s.queue[i].payload == []))
  {
    EmptyIsOk();
    RunPreserves(EMPTY, steps, c);
    var s := c.sender;
    removed :| Accounts(s, removed);
    NothingCounted(s.queue);
  }

  // ---------------------------------------------------------------- delivery of everything

  /** How many steps of worker and transport are left, at most, before a message must be popped. */
  function Effort(c: Channel): nat {
    20 * |c.sender.queue| + JobEffort(c.sender.job) + 3 * |c.wire| + 2 * |c.inflight| + |c.done|
  }

  function JobEffort(job: Job): nat {
    if job.NoJob? then 9 else if job.copied then 7 else if job.vec == [] then 8 else 20
  }

  /** While messages are outstanding and the next one has a payload, some step other than `add` is
      enabled, and it brings the channel nearer to delivering everything. */
  lemma UsefulStep(steps: seq<Step>, c: Channel) returns (a: Step)
    requires Reaches(EMPTY, steps, c) && |c.received| < |c.sent| && c.sent[|c.received|].payload != []
    ensures Enabled(c, a) && Do(c, a).sent == c.sent
    ensures |Do(c, a).received| == |c.received| + 1 || (Do(c, a).received == c.received && Effort(Do(c, a)) < Effort(c))
  {
    var next := c.sent[|c.received|];
    DeliveryExact(steps, c, next.tag);
    EmptyIsOk();
    RunPreserves(EMPTY, steps, c);
    if HasMessage(c.pending, next.tag) {
      a := PopMsg(next.tag);
    } else if c.done != [] {
      a := Deliver;
    } else if c.inflight != [] {
      a := Complete;
    } else if c.wire != [] {
      a := Probe;
    } else {
      a := WorkerStep(steps, c);
    }
  }

  lemma WorkerStep(steps: seq<Step>, c: Channel) returns (a: Step)
    requires Reaches(EMPTY, steps, c) && Inv(c) && |c.received| < |c.sent| && c.sent[|c.received|].payload != []
    requires c.done == [] && c.inflight == [] && c.wire == [] && !HasMessage(c.pending, c.sent[|c.received|].tag)
    ensures Enabled(c, a) && Do(c, a).sent == c.sent && Do(c, a).received == c.received && Effort(Do(c, a)) < Effort(c)
  {
    if c.sender.job.Job? {
      AssembleProceeds(c.sender);
      a := if CanCopy(c.sender) then CopyFront else if CanPop(c.sender) then PopFront else Ship;
    } else {
      NextIsQueued(steps, c);
      var removed := NumBytesExact(steps, c);
      a := Begin;
    }
  }

  /** With nothing in transit, the next message is complete at the receiver or first in the queue. */
  lemma NextIsQueued(steps: seq<Step>, c: Channel)
    requires Reaches(EMPTY, steps, c) && |c.received| < |c.sent| && c.sent[|c.received|].payload != []
    requires c.sender.job.NoJob? && c.wire == [] && c.inflight == [] && c.done == []
    requires !HasMessage(c.pending, c.sent[|c.received|].tag)
    ensures c.sender.queue != [] && c.sender.queue[0] == c.sent[|c.received|]
  {
    var left := Conservation(steps, c);
    assert Travelling(c) == c.pending;
    if left != [] {
      assert c.sent[|c.received|] == left[0];
      DeliveryExact(steps, c, left[0].tag);
    }
  }

  lemma {:induction false} Drain(steps: seq<Step>, c: Channel) returns (more: seq<Step>, c': Channel)
    requires Reaches(EMPTY, steps, c)
    requires forall i :: |c.received| <= i < |c.sent| ==> c.sent[i].payload != []
    ensures Reaches(c, more, c') && c'.sent == c.sent && c'.received == c.sent
    decreases |c.sent| - |c.received|, Effort(c)
  {
    DeliveryExact(steps, c, 0);
    if |c.received| == |c.sent| {
      more, c' := [], c;
    } else {
      var a := UsefulStep(steps, c);
      Snoc(steps, c, a);
      var rest;
      rest, c' := Drain(steps + [a], Do(c, a));
      more := [a] + rest;
      assert more[1..] == rest;
    }
  }

  lemma {:induction false} ReceivedHavePayloads(steps: seq<Step>, c: Channel, more: seq<Step>, c': Channel)
    requires Reaches(EMPTY, steps, c) && Reaches(c, more, c')
    requires forall i :: 0 <= i < |c.received| ==> c.received[i].payload != []
    ensures forall i :: 0 <= i < |c'.received| ==> c'.received[i].payload != []
    decreases |more|
  {
    if more != [] {
      var a := more[0];
      if a.PopMsg? {
        DeliveryExact(steps, c, a.tag);
      }
      Snoc(steps, c, a);
      ReceivedHavePayloads(steps + [a], Do(c, a), more[1..], c');
    }
  }

  ghost predicate CanDeliverAll(c: Channel) {
    exists more: seq<Step>, c': Channel :: Reaches(c, more, c') && c'.sent == c.sent && c'.received == c.sent
  }

  /** From every reachable channel all messages sent so far can still be delivered, in order, if and
      only if none of them is empty. */
  lemma DeliverableExactly(steps: seq<Step>, c: Channel)
    requires Reaches(EMPTY, steps, c)
    ensures CanDeliverAll(c) <==> forall i :: 0 <= i < |c.sent| ==> c.sent[i].payload != []
  {
    if forall i :: 0 <= i < |c.sent| ==> c.sent[i].payload != [] {
      var more, c' := Drain(steps, c);
    }
    if CanDeliverAll(c) {
      var more: seq<Step>, c': Channel :| Reaches(c, more, c') && c'.sent == c.sent && c'.received == c.sent;
      Continue(EMPTY, steps, c, more, c');
      ReceivedHavePayloads([], EMPTY, steps + more, c');
    }
  }
}
