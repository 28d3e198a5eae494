/**
 The wire format of the buffered network layer: a message travels as a 4-byte length followed
 by its payload, and bytes carry the tag of the chunk they arrived in.
 */
module Framing {

  type byte = x: int | 0 <= x < 256

  datatype Message = Message(tag: nat, payload: seq<byte>)

  /** A tagged buffer as handed to and from the transport. */
  datatype Chunk = Chunk(tag: nat, bytes: seq<byte>)

  /** One byte of a channel together with the tag it is delivered under. */
  datatype Tagged = Tagged(tag: nat, b: byte)

  const WORD: nat := 0x1_0000_0000

  /** The reserved length value of the receiver. */
  const NO_LENGTH: nat := 0xFFFF_FFFF

  const INT_MAX: nat := 0x7FFF_FFFF

  // ---------------------------------------------------------------- the length word

  function EncodeLength(n: nat): (bs: seq<byte>)
    requires n < WORD
    ensures |bs| == 4
  {
    [n % 256, (n / 256) % 256, (n / 65536) % 256, n / 16777216]
  }

  function DecodeLength(bs: seq<byte>): (n: nat)
    requires |bs| == 4
    ensures n < WORD
  {
    var a: int, b: int, c: int, d: int := bs[0], bs[1], bs[2], bs[3];
    a + 256 * b + 65536 * c + 16777216 * d
  }

  lemma LengthRoundTrip(n: nat)
    requires n < WORD
    ensures DecodeLength(EncodeLength(n)) == n
  {
    assert n / 65536 == (n / 256) / 256;
    assert n / 16777216 == (n / 65536) / 256;
  }

  lemma LengthIsUnique(bs: seq<byte>)
    requires |bs| == 4
    ensures EncodeLength(DecodeLength(bs)) == bs
  {
    var n := DecodeLength(bs);
    var a: int, b: int, c: int, d: int := bs[0], bs[1], bs[2], bs[3];
    assert n / 256 == b + 256 * c + 65536 * d;
    assert n / 65536 == c + 256 * d;
    assert n / 16777216 == d;
  }

  // ---------------------------------------------------------------- frames and streams

  predicate Sendable(m: Message) {
    |m.payload| + 4 <= INT_MAX
  }

  predicate AllSendable(ms: seq<Message>) {
    forall i :: 0 <= i < |ms| ==> Sendable(ms[i])
  }

  function Frame(payload: seq<byte>): (bs: seq<byte>)
    requires |payload| < WORD
    ensures |bs| == 4 + |payload|
  {
    EncodeLength(|payload|) + payload
  }

  function Tag(tag: nat, bs: seq<byte>): (r: seq<Tagged>)
    ensures |r| == |bs|
    ensures forall i {:trigger r[i]} :: 0 <= i < |bs| ==> r[i] == Tagged(tag, bs[i])
  {
    seq(|bs|, i requires 0 <= i < |bs| => Tagged(tag, bs[i]))
  }

  function Untag(ts: seq<Tagged>): (r: seq<byte>)
    ensures |r| == |ts|
    ensures forall i {:trigger r[i]} :: 0 <= i < |ts| ==> r[i] == ts[i].b
  {
    seq(|ts|, i requires 0 <= i < |ts| => ts[i].b)
  }

  /** The byte stream of a sequence of messages. */
  function Wire(ms: seq<Message>): seq<Tagged>
    requires AllSendable(ms)
  {
    if ms == [] then [] else Tag(ms[0].tag, Frame(ms[0].payload)) + Wire(ms[1..])
  }

  /** The byte stream of a sequence of chunks. */
  function Stream(cs: seq<Chunk>): seq<Tagged> {
    if cs == [] then [] else Tag(cs[0].tag, cs[0].bytes) + Stream(cs[1..])
  }

  lemma TagConcat(tag: nat, a: seq<byte>, b: seq<byte>)
    ensures Tag(tag, a + b) == Tag(tag, a) + Tag(tag, b)
  {
  }

  lemma {:induction false} WireConcat(a: seq<Message>, b: seq<Message>)
    requires AllSendable(a) && AllSendable(b)
    ensures AllSendable(a + b) && Wire(a + b) == Wire(a) + Wire(b)
  {
    if a == [] {
      assert a + b == b;
    } else {
      WireConcat(a[1..], b);
      assert (a + b)[1..] == a[1..] + b;
    }
  }

  lemma {:induction false} StreamConcat(a: seq<Chunk>, b: seq<Chunk>)
    ensures Stream(a + b) == Stream(a) + Stream(b)
  {
    if a == [] {
      assert a + b == b;
    } else {
      StreamConcat(a[1..], b);
      assert (a + b)[0] == a[0] && (a + b)[1..] == a[1..] + b;
      Regroup(Tag(a[0].tag, a[0].bytes), Stream(a[1..]), Stream(b));
    }
  }

  lemma Regroup<T>(a: seq<T>, b: seq<T>, c: seq<T>)
    ensures (a + b) + c == a + (b + c)
  {
  }

  lemma StreamSnoc(a: seq<Chunk>, c: Chunk)
    ensures Stream(a + [c]) == Stream(a) + Tag(c.tag, c.bytes)
  {
    StreamConcat(a, [c]);
    assert Stream([c]) == Tag(c.tag, c.bytes);
  }

  lemma WireSnoc(a: seq<Message>, m: Message)
    requires AllSendable(a) && Sendable(m)
    ensures AllSendable(a + [m]) && Wire(a + [m]) == Wire(a) + Tag(m.tag, Frame(m.payload))
  {
    WireConcat(a, [m]);
    assert Wire([m]) == Tag(m.tag, Frame(m.payload));
  }

  // ---------------------------------------------------------------- parsing one message

  /** The first `n` bytes exist and all carry `tag`. */
  predicate Leads(ts: seq<Tagged>, tag: nat, n: nat) {
    n <= |ts| && forall i :: 0 <= i < n ==> ts[i].tag == tag
  }

  /** What `popMsg` can find at the head of the stream: the length of a complete, non-empty
      message with the requested tag. */
  predicate HasMessage(ts: seq<Tagged>, tag: nat) {
    && Leads(ts, tag, 4)
    && var len := DecodeLength(Untag(ts[..4]));
    len != NO_LENGTH && len != 0 && Leads(ts, tag, 4 + len)
  }

  function HeadMessage(ts: seq<Tagged>, tag: nat): (m: Message)
    requires HasMessage(ts, tag)
    ensures m.tag == tag && 4 + |m.payload| <= |ts| && |m.payload| < NO_LENGTH
    ensures Tag(tag, Frame(m.payload)) == ts[..4 + |m.payload|]
  {
    var len := DecodeLength(Untag(ts[..4]));
    var p := Untag(ts[4..4 + len]);
    LengthIsUnique(Untag(ts[..4]));
    assert Tag(tag, Frame(p)) == ts[..4 + len];
    Message(tag, p)
  }

  /** A framed message at the head of a stream is what parsing finds, unless its payload is empty. */
  lemma FrameIsFound(m: Message, rest: seq<Tagged>)
    requires Sendable(m)
    ensures var ts := Tag(m.tag, Frame(m.payload)) + rest;
            && (HasMessage(ts, m.tag) <==> m.payload != [])
            && (HasMessage(ts, m.tag) ==> HeadMessage(ts, m.tag) == m)
  {
    var ts := Tag(m.tag, Frame(m.payload)) + rest;
    assert Untag(ts[..4]) == EncodeLength(|m.payload|);
    LengthRoundTrip(|m.payload|);
    if m.payload != [] {
      assert Leads(ts, m.tag, 4 + |m.payload|);
      assert Untag(ts[4..4 + |m.payload|]) == m.payload;
    }
  }

  /** No other tag can be parsed off a stream that starts with a message. */
  lemma OtherTagsWait(m: Message, rest: seq<Tagged>, tag: nat)
    requires Sendable(m) && tag != m.tag
    ensures !HasMessage(Tag(m.tag, Frame(m.payload)) + rest, tag)
  {
    var ts := Tag(m.tag, Frame(m.payload)) + rest;
    assert ts[0].tag == m.tag;
  }

  /** Nothing can be parsed off a message of which not all bytes are there. */
  lemma PartialFrameWaits(m: Message, ts: seq<Tagged>, rest: seq<Tagged>, tag: nat)
    requires Sendable(m) && |ts| < 4 + |m.payload| && ts + rest == Tag(m.tag, Frame(m.payload))
    ensures !HasMessage(ts, tag)
  {
    if |ts| >= 4 {
      var frame := Tag(m.tag, Frame(m.payload));
      assert ts[..4] == frame[..4];
      assert Untag(frame[..4]) == EncodeLength(|m.payload|);
      LengthRoundTrip(|m.payload|);
    }
  }

  /** Unique decodability: a stream that starts with the wire image of `a` can only be the wire
      image of a sequence that starts with `a`. */
  lemma {:induction false} WirePrefix(a: seq<Message>, rest: seq<Tagged>, b: seq<Message>)
    requires AllSendable(a) && AllSendable(b)
    requires Wire(a) + rest == Wire(b)
    ensures a <= b && rest == Wire(b[|a|..])
  {
    if a == [] {
      assert Wire(a) + rest == rest;
    } else {
      var ta := Tag(a[0].tag, Frame(a[0].payload));
      assert Wire(b) == ta + (Wire(a[1..]) + rest);
      assert b != [];
      var tb := Tag(b[0].tag, Frame(b[0].payload));
      assert Wire(b) == tb + Wire(b[1..]);
      SameHead(a[0], Wire(a[1..]) + rest, b[0], Wire(b[1..]));
      WirePrefix(a[1..], rest, b[1..]);
      assert b[1..][|a| - 1..] == b[|a|..];
    }
  }

  lemma SameHead(a: Message, x: seq<Tagged>, b: Message, y: seq<Tagged>)
    requires Sendable(a) && Sendable(b)
    requires Tag(a.tag, Frame(a.payload)) + x == Tag(b.tag, Frame(b.payload)) + y
    ensures a == b && x == y
  {
    var ts := Tag(a.tag, Frame(a.payload)) + x;
    assert ts == Tag(b.tag, Frame(b.payload)) + y;
    assert ts[0].tag == a.tag && ts[0].tag == b.tag;
    assert Untag(ts[..4]) == EncodeLength(|a.payload|);
    assert Untag(ts[..4]) == EncodeLength(|b.payload|);
    LengthRoundTrip(|a.payload|);
    LengthRoundTrip(|b.payload|);
    var n := 4 + |a.payload|;
    assert Untag(ts[4..n]) == a.payload;
    assert Untag(ts[4..n]) == b.payload;
    assert x == ts[n..] && y == ts[n..];
  }
}
