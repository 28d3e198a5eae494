/**
 The receive buffer of one source host: a queue of chunks, an offset into the first one, and
 the tag of the first one published for lock-free tests. Each method is specified on the
 tagged byte stream the queue stands for.
 */
module ReceiveBuffer {
  import opened Options
  import opened Framing

  /** The tag published while the queue is empty. */
  const NO_TAG: nat := 0xFFFF_FFFF

  predicate NonEmptyChunks(cs: seq<Chunk>) {
    forall i :: 0 <= i < |cs| ==> cs[i].bytes != []
  }

  function HeadTag(cs: seq<Chunk>): nat {
    if cs == [] then NO_TAG else cs[0].tag
  }

  // ---------------------------------------------------------------- positions in the stream

  lemma StreamTake(cs: seq<Chunk>, i: nat)
    requires i < |cs|
    ensures Stream(cs[..i + 1]) == Stream(cs[..i]) + Tag(cs[i].tag, cs[i].bytes)
  {
    assert cs[..i + 1] == cs[..i] + [cs[i]];
    StreamSnoc(cs[..i], cs[i]);
  }

  lemma Around<T>(xs: seq<T>, i: nat)
    requires i < |xs|
    ensures xs == xs[..i] + [xs[i]] + xs[i + 1..]
  {
  }

  lemma StreamInsert(cs: seq<Chunk>, front: seq<Chunk>, c: Chunk, back: seq<Chunk>)
    requires cs == front + [c] + back
    ensures Stream(cs) == Stream(front) + Tag(c.tag, c.bytes) + Stream(back)
  {
    StreamSnoc(front, c);
    StreamConcat(front + [c], back);
  }

  lemma StreamAround(cs: seq<Chunk>, i: nat)
    requires i < |cs|
    ensures Stream(cs) == Stream(cs[..i]) + Tag(cs[i].tag, cs[i].bytes) + Stream(cs[i + 1..])
  {
    Around(cs, i);
    StreamInsert(cs, cs[..i], cs[i], cs[i + 1..]);
  }

  lemma TaggedSlice(front: seq<Tagged>, t: nat, bytes: seq<byte>, back: seq<Tagged>, from: nat, to: nat)
    requires from <= to <= |bytes|
    ensures var all := front + Tag(t, bytes) + back;
            && |front| + to <= |all|
            && Untag(all[|front| + from..|front| + to]) == bytes[from..to]
  {
    var all := front + Tag(t, bytes) + back;
    assert all[|front| + from..|front| + to] == Tag(t, bytes)[from..to];
  }

  lemma ChunkSlice(cs: seq<Chunk>, j: nat, from: nat, to: nat)
    requires j < |cs| && from <= to <= |cs[j].bytes|
    ensures |Stream(cs[..j])| + |cs[j].bytes| == |Stream(cs[..j + 1])| <= |Stream(cs)|
    ensures var base := |Stream(cs[..j])|;
            Untag(Stream(cs)[base + from..base + to]) == cs[j].bytes[from..to]
  {
    StreamTake(cs, j);
    StreamAround(cs, j);
    TaggedSlice(Stream(cs[..j]), cs[j].tag, cs[j].bytes, Stream(cs[j + 1..]), from, to);
  }

  lemma UntagSplit(s: seq<Tagged>, a: nat, b: nat, c: nat)
    requires a <= b <= c <= |s|
    ensures Untag(s[a..b]) + Untag(s[b..c]) == Untag(s[a..c])
  {
  }

  /** `out` holds what the first `j` chunks contribute to a copy of `n` bytes from `off`. */
  ghost predicate Copied(cs: seq<Chunk>, off: nat, n: nat, out: seq<byte>, j: nat) {
    && j <= |cs|
    && |out| <= n && off + |out| <= |Stream(cs)|
    && out == Untag(Stream(cs)[off..off + |out|])
    && (|out| < n ==> off + |out| == |Stream(cs[..j])|)
  }

  lemma CopiedFirst(cs: seq<Chunk>, off: nat, n: nat, out: seq<byte>)
    requires cs != [] && off <= |cs[0].bytes| && off + n <= |Stream(cs)|
    requires out == cs[0].bytes[off..if off + n <= |cs[0].bytes| then off + n else |cs[0].bytes|]
    ensures Copied(cs, off, n, out, 1)
  {
    ChunkSlice(cs, 0, off, off + |out|);
    assert Stream(cs[..0]) == [];
  }

  lemma CopiedAll(cs: seq<Chunk>, off: nat, n: nat, out: seq<byte>, j: nat)
    requires Copied(cs, off, n, out, j) && off + n <= |Stream(cs)|
    requires j == |cs| || |out| == n
    ensures out == Untag(Stream(cs)[off..off + n])
  {
    assert cs[..|cs|] == cs;
  }

  lemma CopiedNext(cs: seq<Chunk>, off: nat, n: nat, out: seq<byte>, j: nat, more: seq<byte>)
    requires Copied(cs, off, n, out, j) && |out| < n && j < |cs|
    requires more == cs[j].bytes[..if n - |out| <= |cs[j].bytes| then n - |out| else |cs[j].bytes|]
    ensures Copied(cs, off, n, out + more, j + 1)
  {
    ChunkSlice(cs, j, 0, |more|);
    UntagSplit(Stream(cs), off, off + |out|, off + |out| + |more|);
  }

  /** The byte loop of `copyOut` over one chunk. */
  method CopyFrom(bytes: seq<byte>, start: nat, n: nat) returns (out: seq<byte>)
    requires start <= |bytes|
    ensures out == bytes[start..if start + n <= |bytes| then start + n else |bytes|]
  {
    out := [];
    var k := start;
    while k < |bytes| && |out| < n
      invariant start <= k <= |bytes| && |out| <= n
      invariant out == bytes[start..k]
    {
      out := out + [bytes[k]];
      k := k + 1;
    }
  }

  class RecvBuffer {
    var data: seq<Chunk>
    var frontOffset: nat
    var dataPresent: nat

    ghost predicate Valid()
      reads this
    {
      && NonEmptyChunks(data)
      && (data == [] ==> frontOffset == 0)
      && (data != [] ==> frontOffset < |data[0].bytes|)
      && dataPresent == HeadTag(data)
    }

    /** The bytes that have been delivered but not taken. */
    ghost function Pending(): seq<Tagged>
      requires frontOffset <= |Stream(data)|
      reads this
    {
      Stream(data)[frontOffset..]
    }

    lemma ValidOffset()
      requires Valid()
      ensures frontOffset <= |Stream(data)|
      ensures data == [] <==> frontOffset == |Stream(data)|
    {
    }

    constructor ()
      ensures Valid() && data == [] && Pending() == []
    {
      data, frontOffset, dataPresent := [], 0, NO_TAG;
    }

    /** The test made before the buffer is locked: it is true exactly if the next byte carries the
        tag, so that it never hides a message. */
    method HasData(tag: nat) returns (r: bool)
      requires Valid() && tag != NO_TAG
      ensures frontOffset <= |Stream(data)|
      ensures r <==> Pending() != [] && Pending()[0].tag == tag
      ensures HasMessage(Pending(), tag) ==> r
    {
      ValidOffset();
      if data != [] {
        StreamAround(data, 0);
        assert Stream(data[..0]) == [];
        assert Pending()[0] == Stream(data)[frontOffset];
      }
      r := dataPresent == tag;
    }

    /** Are the next `n` bytes there, all under `tag`? */
    method SizeAtLeast(n: nat, tag: nat) returns (r: bool)
      requires Valid() && n >= 1
      ensures frontOffset <= |Stream(data)|
      ensures r <==> Leads(Pending(), tag, n)
    {
      ValidOffset();
      var off: int := frontOffset;
      var tot := -off;
      var i := 0;
      while i < |data|
        invariant 0 <= i <= |data|
        invariant tot == |Stream(data[..i])| - frontOffset && tot < n
        invariant forall p :: 0 <= p < |Stream(data[..i])| ==>
                    p < |Stream(data)| && Stream(data)[p].tag == tag
      {
        StreamTake(data, i);
        StreamAround(data, i);
        if data[i].tag == tag {
          tot := tot + |data[i].bytes|;
          if tot >= n {
            return true;
          }
        } else {
          var q := if i == 0 then 0 else tot;
          assert Pending()[q].tag == data[i].tag;
          return false;
        }
        i := i + 1;
      }
      assert data[..i] == data;
      return false;
    }

    /** Copies the next `n` bytes without taking them: first from the front chunk, then, on the
        slow path, from the chunks behind it. */
    method CopyOut(n: nat) returns (out: seq<byte>)
      requires data != [] && frontOffset <= |data[0].bytes| && frontOffset + n <= |Stream(data)|
      ensures out == Untag(Stream(data)[frontOffset..frontOffset + n])
    {
      out := CopyFrom(data[0].bytes, frontOffset, n);
      CopiedFirst(data, frontOffset, n, out);
      var j := 1;
      while j < |data| && |out| < n
        invariant 1 <= j <= |data|
        invariant Copied(data, frontOffset, n, out, j)
      {
        var more := CopyFrom(data[j].bytes, 0, n - |out|);
        CopiedNext(data, frontOffset, n, out, j, more);
        out := out + more;
        j := j + 1;
      }
      CopiedAll(data, frontOffset, n, out, j);
    }

    /** The fast path: if exactly the rest of the front chunk is wanted, hand that chunk over. */
    method PopVec(len: nat) returns (r: Option<seq<byte>>)
      requires Valid() && data != [] && len >= 1
      modifies this
      ensures frontOffset <= |Stream(data)| && old(frontOffset) <= |Stream(old(data))|
      ensures r.Some? <==> |old(data)[0].bytes| == old(frontOffset) + len
      ensures r.None? ==> data == old(data) && frontOffset == old(frontOffset) && dataPresent == old(dataPresent)
      ensures r.Some? ==> |r.value| >= len && len <= |old(Pending())| &&
                          r.value[|r.value| - len..] == Untag(old(Pending())[..len]) &&
                          Pending() == old(Pending())[len..]
      ensures Valid()
    {
      ValidOffset();
      StreamAround(data, 0);
      assert Stream(data[..0]) == [];
      if |data[0].bytes| == frontOffset + len {
        var v := data[0].bytes;
        assert v[|v| - len..] == Untag(Pending()[..len]);
        data := data[1..];
        frontOffset := 0;
        dataPresent := HeadTag(data);
        r := Some(v);
      } else {
        r := None;
      }
    }

    /** Takes `n` bytes, dropping the chunks that are used up. */
    method Erase(n: nat)
      requires Valid() && n <= |Stream(data)| - frontOffset
      modifies this
      ensures Valid() && frontOffset <= |Stream(data)| && old(frontOffset) <= |Stream(old(data))|
      ensures Pending() == old(Pending())[n..]
    {
      ghost var rest := Pending()[n..];
      frontOffset := frontOffset + n;
      while frontOffset != 0 && frontOffset >= |data[0].bytes|
        invariant NonEmptyChunks(data) && frontOffset <= |Stream(data)|
        invariant frontOffset != 0 ==> data != []
        invariant Stream(data)[frontOffset..] == rest
        decreases |data|
      {
        StreamAround(data, 0);
        assert Stream(data[..0]) == [];
        assert Stream(data)[frontOffset..] == Stream(data[1..])[frontOffset - |data[0].bytes|..];
        frontOffset := frontOffset - |data[0].bytes|;
        data := data[1..];
      }
      dataPresent := HeadTag(data);
    }

    method GetLenFromFront(tag: nat) returns (len: nat)
      requires Valid()
      ensures frontOffset <= |Stream(data)|
      ensures len == if Leads(Pending(), tag, 4) then DecodeLength(Untag(Pending()[..4])) else NO_LENGTH
    {
      var enough := SizeAtLeast(4, tag);
      if enough {
        ValidOffset();
        assert Stream(data)[frontOffset..frontOffset + 4] == Pending()[..4];
        var bs := CopyOut(4);
        len := DecodeLength(bs);
      } else {
        len := NO_LENGTH;
      }
    }

    /** Takes the next message if it carries `tag`: whichever path is taken, the result is the
        payload at the head of the stream and exactly its frame is removed; otherwise nothing
        changes. */
    method PopMsg(tag: nat) returns (r: Option<seq<byte>>)
      requires Valid()
      modifies this
      ensures Valid() && frontOffset <= |Stream(data)| && old(frontOffset) <= |Stream(old(data))|
      ensures r.Some? <==> HasMessage(old(Pending()), tag)
      ensures r.Some? ==> r.value == HeadMessage(old(Pending()), tag).payload &&
                          Pending() == old(Pending())[4 + |r.value|..]
      ensures r.None? ==> data == old(data) && frontOffset == old(frontOffset) && dataPresent == old(dataPresent)
    {
      ghost var ts := old(Stream(data)[frontOffset..]);
      ValidOffset();
      var len := GetLenFromFront(tag);
      if len == NO_LENGTH || len == 0 {
        return None;
      }
      var enough := SizeAtLeast(4 + len, tag);
      if !enough {
        return None;
      }
      Erase(4);
      assert Pending() == ts[4..];
      var payload := TakePayload(len);
      assert ts[4..][..len] == ts[4..4 + len] && ts[4..][len..] == ts[4 + len..];
      r := Some(payload);
    }

    /** Takes `len` bytes, by handing over the front chunk if it ends there and by copying
        otherwise; the two paths yield the same bytes and the same remaining stream. */
    method TakePayload(len: nat) returns (out: seq<byte>)
      requires Valid() && len >= 1 && frontOffset + len <= |Stream(data)|
      modifies this
      ensures Valid() && frontOffset <= |Stream(data)| && old(frontOffset) <= |Stream(old(data))|
      ensures len <= |old(Pending())| && out == Untag(old(Pending())[..len])
      ensures Pending() == old(Pending())[len..]
    {
      var fast := PopVec(len);
      if fast.Some? {
        out := fast.value[|fast.value| - len..];
      } else {
        assert Stream(data)[frontOffset..frontOffset + len] == Pending()[..len];
        out := CopyOut(len);
        Erase(len);
      }
    }

    /** The worker thread delivers a chunk; it never delivers an empty one. */
    method Add(m: Chunk)
      requires Valid() && m.bytes != []
      modifies this
      ensures Valid() && frontOffset <= |Stream(data)| && old(frontOffset) <= |Stream(old(data))|
      ensures Pending() == old(Pending()) + Tag(m.tag, m.bytes)
    {
      ValidOffset();
      StreamSnoc(data, m);
      if data == [] {
        dataPresent := m.tag;
      }
      data := data + [m];
      ValidOffset();
    }
  }
}
