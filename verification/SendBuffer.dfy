/**
 The send buffer towards one destination host. `add` appends a message; the worker thread's
 `assemble` batches leading messages of one tag into a chunk, but drops its lock while it
 copies, so that `add` can run between any two of its locked sections. Each locked or
 unlocked section is one method, specified by a function on the buffer's value.
 */
module SendBuffer {
  import opened Framing

  /** The worker's progress through `assemble`: the batch it decided on (`want` bytes in all,
      `len` of them payload), what it has copied, and whether the front message has been copied
      but not yet removed. */
  datatype Job = NoJob | Job(tag: nat, want: nat, len: nat, vec: seq<byte>, copied: bool)

  datatype Sender = Sender(queue: seq<Message>, numBytes: int, job: Job)

  // ---------------------------------------------------------------- the batch

  /** How many leading messages of `tag` fit behind `used` bytes in one transport message. */
  function Batch(q: seq<Message>, tag: nat, used: nat): (n: nat)
    ensures n <= |q|
    ensures forall i :: 0 <= i < n ==> q[i].tag == tag
  {
    if q == [] || q[0].tag != tag || |q[0].payload| + 4 + used > INT_MAX then 0
    else 1 + Batch(q[1..], tag, used + |q[0].payload| + 4)
  }

  function PayloadBytes(q: seq<Message>): nat {
    if q == [] then 0 else |q[0].payload| + PayloadBytes(q[1..])
  }

  function FramedBytes(q: seq<Message>): nat {
    PayloadBytes(q) + 4 * |q|
  }

  lemma {:induction false} PayloadConcat(a: seq<Message>, b: seq<Message>)
    ensures PayloadBytes(a + b) == PayloadBytes(a) + PayloadBytes(b)
  {
    if a == [] {
      assert a + b == b;
    } else {
      PayloadConcat(a[1..], b);
      assert (a + b)[1..] == a[1..] + b;
    }
  }

  /** The batch fits the transport, and it is the longest run that does. */
  lemma {:induction false} BatchIsMaximal(q: seq<Message>, tag: nat, used: nat)
    requires used <= INT_MAX
    ensures var n := Batch(q, tag, used);
            && used + FramedBytes(q[..n]) <= INT_MAX
            && (n < |q| && q[n].tag == tag ==> used + FramedBytes(q[..n + 1]) > INT_MAX)
  {
    var n := Batch(q, tag, used);
    if n == 0 {
      if q != [] { assert q[..1][1..] == []; }
    } else {
      BatchIsMaximal(q[1..], tag, used + |q[0].payload| + 4);
      assert q[..n][1..] == q[1..][..n - 1];
      if n < |q| { assert q[..n + 1][1..] == q[1..][..n]; }
    }
  }

  // ---------------------------------------------------------------- the sections as functions

  function Added(s: Sender, m: Message): Sender {
    s.(queue := s.queue + [m], numBytes := s.numBytes + |m.payload|)
  }

  predicate CanBegin(s: Sender) {
    s.job.NoJob? && s.queue != []
  }

  function Begun(s: Sender): Sender
    requires CanBegin(s)
  {
    var tag := s.queue[0].tag;
    var batch := s.queue[..Batch(s.queue, tag, 0)];
    s.(job := Job(tag, FramedBytes(batch), PayloadBytes(batch), [], false))
  }

  predicate CanCopy(s: Sender) {
    s.job.Job? && !s.job.copied && |s.job.vec| < s.job.want && s.queue != [] && Sendable(s.queue[0])
  }

  function FrontCopied(s: Sender): Sender
    requires CanCopy(s)
  {
    s.(job := s.job.(vec := s.job.vec + Frame(s.queue[0].payload), copied := true))
  }

  predicate CanPop(s: Sender) {
    s.job.Job? && s.job.copied && s.queue != []
  }

  function FrontPopped(s: Sender): Sender
    requires CanPop(s)
  {
    s.(queue := s.queue[1..], job := s.job.(copied := false))
  }

  predicate CanFinish(s: Sender) {
    s.job.Job? && !s.job.copied && |s.job.vec| >= s.job.want
  }

  function Finished(s: Sender): Sender
    requires CanFinish(s)
  {
    s.(numBytes := s.numBytes - s.job.len, job := NoJob)
  }

  // ---------------------------------------------------------------- what a batch in progress means

  /** The next messages of `q` have the batch's tag and fill exactly `k` more bytes. */
  predicate Fills(q: seq<Message>, tag: nat, k: int)
    decreases |q|
  {
    k == 0 || (q != [] && q[0].tag == tag && Fills(q[1..], tag, k - |q[0].payload| - 4))
  }

  lemma {:induction false} FillsGrows(q: seq<Message>, m: Message, tag: nat, k: int)
    requires Fills(q, tag, k)
    ensures Fills(q + [m], tag, k)
    decreases |q|
  {
    if k != 0 {
      FillsGrows(q[1..], m, tag, k - |q[0].payload| - 4);
      assert (q + [m])[1..] == q[1..] + [m];
    }
  }

  lemma {:induction false} BatchFills(q: seq<Message>, tag: nat, used: nat)
    requires used <= INT_MAX
    ensures Fills(q, tag, FramedBytes(q[..Batch(q, tag, used)]))
  {
    var n := Batch(q, tag, used);
    if n > 0 {
      BatchFills(q[1..], tag, used + |q[0].payload| + 4);
      assert q[..n][1..] == q[1..][..n - 1];
    }
  }

  /** What every section keeps: queued messages can be sent, and a batch in progress will be
      completed by the messages now at the front, whatever `add` has appended meanwhile. */
  predicate SenderOk(s: Sender) {
    && AllSendable(s.queue)
    && (s.job.Job? ==>
          && s.job.want > 0
          && (s.job.copied ==> s.queue != [] && s.queue[0].tag == s.job.tag)
          && Fills(if s.job.copied then s.queue[1..] else s.queue, s.job.tag, s.job.want - |s.job.vec|))
  }

  lemma FillsBound(q: seq<Message>, tag: nat, k: int)
    requires Fills(q, tag, k)
    ensures k >= 0
    decreases |q|
  {
  }

  lemma AddKeeps(s: Sender, m: Message)
    requires SenderOk(s) && Sendable(m)
    ensures SenderOk(Added(s, m))
  {
    if s.job.Job? {
      FillsGrows(if s.job.copied then s.queue[1..] else s.queue, m, s.job.tag, s.job.want - |s.job.vec|);
      if s.job.copied {
        assert (s.queue + [m])[1..] == s.queue[1..] + [m];
      }
    }
  }

  lemma BeginKeeps(s: Sender)
    requires SenderOk(s) && CanBegin(s)
    ensures SenderOk(Begun(s))
  {
    BatchFills(s.queue, s.queue[0].tag, 0);
  }

  lemma CopyKeeps(s: Sender)
    requires SenderOk(s) && CanCopy(s)
    ensures SenderOk(FrontCopied(s)) && s.queue[0].tag == s.job.tag
  {
  }

  lemma PopKeeps(s: Sender)
    requires SenderOk(s) && CanPop(s)
    ensures SenderOk(FrontPopped(s))
  {
  }

  /** The worker is never stuck in `assemble`: at every point exactly one section is enabled. */
  lemma AssembleProceeds(s: Sender)
    requires SenderOk(s) && s.job.Job?
    ensures CanCopy(s) || CanPop(s) || CanFinish(s)
    ensures CanFinish(s) ==> |s.job.vec| == s.job.want
  {
    if !s.job.copied {
      FillsBound(s.queue, s.job.tag, s.job.want - |s.job.vec|);
    }
  }

  // ---------------------------------------------------------------- what the byte counter counts

  /** How many of the messages of `q` it takes to fill `k` bytes. */
  function Filling(q: seq<Message>, k: int): (n: nat)
    ensures n <= |q|
  {
    if k <= 0 || q == [] then 0 else 1 + Filling(q[1..], k - |q[0].payload| - 4)
  }

  /** The messages of the batch that are still in the queue, the copied one included. */
  function InBatch(s: Sender): (n: nat)
    requires s.job.Job? && (s.job.copied ==> s.queue != [])
    ensures n <= |s.queue|
  {
    var k := s.job.want - |s.job.vec|;
    if s.job.copied then 1 + Filling(s.queue[1..], k) else Filling(s.queue, k)
  }

  /** `removed` are the messages of the current batch that have left the queue; the counter still
      includes them, and the vector holds their frames and that of the copied one. */
  predicate Accounts(s: Sender, removed: seq<Message>) {
    if s.job.NoJob? then removed == [] && s.numBytes == PayloadBytes(s.queue)
    else
      && (s.job.copied ==> s.queue != [])
      && AllSendable(removed) && AllSendable(s.queue)
      && s.numBytes == PayloadBytes(s.queue) + PayloadBytes(removed)
      && s.job.len == PayloadBytes(removed) + PayloadBytes(s.queue[..InBatch(s)])
      && Tag(s.job.tag, s.job.vec) == Wire(if s.job.copied then removed + [s.queue[0]] else removed)
  }

  ghost predicate Accounted(s: Sender) {
    exists removed: seq<Message> :: Accounts(s, removed)
  }

  lemma {:induction false} FillingGrows(q: seq<Message>, m: Message, tag: nat, k: int)
    requires Fills(q, tag, k)
    ensures Filling(q + [m], k) == Filling(q, k)
    decreases |q|
  {
    FillsBound(q, tag, k);
    if k != 0 {
      FillingGrows(q[1..], m, tag, k - |q[0].payload| - 4);
      assert (q + [m])[1..] == q[1..] + [m];
    }
  }

  lemma {:induction false} BatchFilling(q: seq<Message>, n: nat)
    requires n <= |q|
    ensures Filling(q, FramedBytes(q[..n])) == n
  {
    if n > 0 {
      BatchFilling(q[1..], n - 1);
      assert q[..n][1..] == q[1..][..n - 1];
    }
  }

  lemma AddAccounts(s: Sender, m: Message, removed: seq<Message>)
    requires SenderOk(s) && Sendable(m) && Accounts(s, removed)
    ensures Accounts(Added(s, m), removed)
  {
    PayloadConcat(s.queue, [m]);
    if s.job.Job? {
      var rest := if s.job.copied then s.queue[1..] else s.queue;
      FillingGrows(rest, m, s.job.tag, s.job.want - |s.job.vec|);
      if s.job.copied {
        assert (s.queue + [m])[1..] == s.queue[1..] + [m];
      }
      assert (s.queue + [m])[..InBatch(s)] == s.queue[..InBatch(s)];
    }
  }

  lemma BeginAccounts(s: Sender)
    requires SenderOk(s) && CanBegin(s) && Accounts(s, [])
    ensures Accounts(Begun(s), [])
  {
    BatchFilling(s.queue, Batch(s.queue, s.queue[0].tag, 0));
  }

  lemma CopyAccounts(s: Sender, removed: seq<Message>)
    requires SenderOk(s) && CanCopy(s) && Accounts(s, removed)
    ensures Accounts(FrontCopied(s), removed)
  {
    var m := s.queue[0];
    CopyKeeps(s);
    WireSnoc(removed, m);
    TagConcat(s.job.tag, s.job.vec, Frame(m.payload));
  }

  lemma PopAccounts(s: Sender, removed: seq<Message>)
    requires SenderOk(s) && CanPop(s) && Accounts(s, removed)
    ensures Accounts(FrontPopped(s), removed + [s.queue[0]])
  {
    var q, n := s.queue, InBatch(s);
    PayloadConcat(removed, [q[0]]);
    assert q[..n][1..] == q[1..][..n - 1];
  }

  lemma FinishAccounts(s: Sender, removed: seq<Message>)
    requires SenderOk(s) && CanFinish(s) && Accounts(s, removed)
    ensures Accounts(Finished(s), [])
  {
    AssembleProceeds(s);
    assert s.queue[..0] == [];
  }

  /** Nothing is counted exactly if no queued message has a payload. */
  lemma {:induction false} NothingCounted(q: seq<Message>)
    ensures PayloadBytes(q) == 0 <==> forall i :: 0 <= i < |q| ==> q[i].payload == []
  {
    if q != [] {
      NothingCounted(q[1..]);
      assert forall i :: 0 < i < |q| ==> q[i] == q[1..][i - 1];
    }
  }

  // ---------------------------------------------------------------- the buffer object

  /** The scanning loop of `assemble`: payload and length words of the batch at the front of `q`. */
  method ScanBatch(q: seq<Message>, tag: nat) returns (len: nat, num: nat)
    ensures len == PayloadBytes(q[..Batch(q, tag, 0)]) && num == 4 * Batch(q, tag, 0)
  {
    len, num := 0, 0;
    var i := 0;
    ghost var n := Batch(q, tag, 0);
    assert q[..0] == [] && q[0..] == q;
    while i < |q|
      invariant 0 <= i <= n <= |q|
      invariant len == PayloadBytes(q[..i]) && num == 4 * i && len + num <= INT_MAX
      invariant i + Batch(q[i..], tag, len + num) == n
    {
      assert q[i..][0] == q[i] && q[i..][1..] == q[i + 1..];
      if q[i].tag != tag {
        break;
      }
      if |q[i].payload| + 4 + len + num > INT_MAX {
        break;
      }
      PayloadConcat(q[..i], [q[i]]);
      assert q[..i + 1] == q[..i] + [q[i]];
      len := len + |q[i].payload|;
      num := num + 4;
      i := i + 1;
    }
  }

  class Buffer {
    var messages: seq<Message>
    var numBytes: int
    var job: Job
    /** The messages of the current batch that have left the queue. */
    ghost var removed: seq<Message>

    ghost function Value(): Sender
      reads this
    {
      Sender(messages, numBytes, job)
    }

    ghost predicate Valid()
      reads this
    {
      SenderOk(Value()) && Accounts(Value(), removed)
    }

    constructor ()
      ensures Valid() && Value() == Sender([], 0, NoJob)
    {
      messages, numBytes, job, removed := [], 0, NoJob, [];
    }

    method Add(tag: nat, b: seq<byte>)
      requires Valid() && Sendable(Message(tag, b))
      modifies this
      ensures Valid() && Value() == Added(old(Value()), Message(tag, b))
      ensures messages == old(messages) + [Message(tag, b)] && numBytes == old(numBytes) + |b| && job == old(job)
    {
      AddKeeps(Value(), Message(tag, b));
      AddAccounts(Value(), Message(tag, b), removed);
      numBytes := numBytes + |b|;
      messages := messages + [Message(tag, b)];
    }

    /** First locked section: scan for the batch and its size. */
    method Begin()
      requires Valid() && CanBegin(Value())
      modifies this
      ensures Valid() && Value() == Begun(old(Value()))
    {
      BeginKeeps(Value());
      BeginAccounts(Value());
      var tag := messages[0].tag;
      var len, num := ScanBatch(messages, tag);
      job := Job(tag, len + num, len, [], false);
    }

    /** Unlocked section: frame the front message. */
    method CopyFront()
      requires Valid() && CanCopy(Value())
      modifies this
      ensures Valid() && Value() == FrontCopied(old(Value()))
    {
      CopyKeeps(Value());
      CopyAccounts(Value(), removed);
      var m := messages[0];
      job := job.(vec := job.vec + EncodeLength(|m.payload|) + m.payload, copied := true);
      assert job.vec == old(job.vec) + Frame(m.payload);
    }

    /** Locked section: remove it. */
    method PopFront()
      requires Valid() && CanPop(Value())
      modifies this
      ensures Valid() && Value() == FrontPopped(old(Value()))
    {
      PopKeeps(Value());
      PopAccounts(Value(), removed);
      removed := removed + [messages[0]];
      messages := messages[1..];
      job := job.(copied := false);
    }

    /** Last section: account for the payload and hand the chunk over. */
    method Finish() returns (chunk: Chunk)
      requires Valid() && CanFinish(Value())
      modifies this
      ensures Valid() && Value() == Finished(old(Value()))
      ensures chunk == Chunk(old(job.tag), old(job.vec)) && |chunk.bytes| == old(job.want)
    {
      AssembleProceeds(Value());
      FinishAccounts(Value(), removed);
      chunk := Chunk(job.tag, job.vec);
      removed := [];
      numBytes := numBytes - job.len;
      job := NoJob;
    }

    /** `assemble` without interference: the chunk is the wire image of the longest batch, and
        `numBytes` goes on counting the payload that is still queued. */
    method Assemble() returns (chunk: Chunk)
      requires Valid() && CanBegin(Value())
      modifies this
      ensures Valid() && job == NoJob && numBytes == PayloadBytes(messages)
      ensures var q := old(messages); var n := Batch(q, q[0].tag, 0);
              && 1 <= n && messages == q[n..]
              && AllSendable(q[..n])
              && Tag(chunk.tag, chunk.bytes) == Wire(q[..n])
    {
      ghost var q := messages;
      ghost var n := Batch(q, q[0].tag, 0);
      Begin();
      ghost var k := 0;
      assert Tag(job.tag, job.vec) == Wire(q[..0]);
      assert q[0..] == q;
      while |job.vec| < job.want
        invariant Valid() && job.Job? && !job.copied && job.tag == q[0].tag
        invariant 0 <= k <= n && messages == q[k..] && numBytes == PayloadBytes(q)
        invariant AllSendable(q[..k]) && Tag(job.tag, job.vec) == Wire(q[..k])
        invariant job.want == FramedBytes(q[..n]) && job.len == PayloadBytes(q[..n])
        invariant |job.vec| == FramedBytes(q[..k])
        decreases |messages|
      {
        AssembleProceeds(Value());
        StepOfAssemble(q, n, k, job.tag, job.vec);
        CopyFront();
        PopFront();
        k := k + 1;
      }
      AssembleProceeds(Value());
      SameLength(q, k, n);
      PayloadConcat(q[..n], q[n..]);
      assert q == q[..n] + q[n..];
      chunk := Finish();
    }
  }

  lemma StepOfAssemble(q: seq<Message>, n: nat, k: nat, tag: nat, vec: seq<byte>)
    requires AllSendable(q) && k <= n <= |q| && FramedBytes(q[..k]) < FramedBytes(q[..n])
    requires forall i :: 0 <= i < n ==> q[i].tag == tag
    requires Tag(tag, vec) == Wire(q[..k]) && |vec| == FramedBytes(q[..k])
    ensures k < n && q[k..][0] == q[k] && q[k..][1..] == q[k + 1..]
    ensures Tag(tag, vec + Frame(q[k].payload)) == Wire(q[..k + 1])
    ensures |vec + Frame(q[k].payload)| == FramedBytes(q[..k + 1])
  {
    if k < n {
      WireSnoc(q[..k], q[k]);
      PayloadConcat(q[..k], [q[k]]);
      assert q[..k + 1] == q[..k] + [q[k]];
      TagConcat(tag, vec, Frame(q[k].payload));
    }
  }

  lemma SameLength(q: seq<Message>, k: nat, n: nat)
    requires k <= n <= |q| && FramedBytes(q[..k]) >= FramedBytes(q[..n])
    ensures k == n
  {
    PayloadConcat(q[..k], q[k..n]);
    assert q[..n] == q[..k] + q[k..n];
  }
}
