/** What holds of a write buffer in every reachable state, and how many writes
    empty it. */
module WriteRuns {
  import opened Framing
  import opened Chunks
  import opened WriteQueue
  import opened WriteBuffering

  /** What was sent is the beginning of what was attached; an empty queue has
      sent it all. */
  lemma SentInOrder(b: WriteBuffer)
    requires b.Valid()
    ensures b.log.wire <= b.Attached()
    ensures b.list == [] ==> b.log.wire == b.Attached()
  {
    if b.list == [] {
      assert b.log.wire + [] == b.log.wire;
    }
  }

  /** Every chunk holds whole messages, at least one; a chunk that reaches the
      upper limit holds a single one. */
  lemma WholeMessages(b: WriteBuffer, i: nat)
    requires b.Valid() && i < |b.list|
    ensures |b.starts| == |b.list| + 1 && b.starts[i] < b.starts[i + 1] <= |b.log.messages|
    ensures b.list[i].data == Flat(Terminated(b.log.messages[b.starts[i]..b.starts[i + 1]], b.sep))
    ensures |b.list[i].data| >= b.maxbuf ==> b.list[i].data == b.log.messages[b.starts[i]] + b.sep
  {
    hide Queue.Shape, Flat, Terminated, Queue.Pending;
    var ms, from, to := b.log.messages, b.starts[i], b.starts[i + 1];
    assert Group(b.View().cs[i], ms, b.sep, from, to, b.minbuf, b.maxbuf);
    PackedSplit(ms, b.sep, from, to - 1, to);
    PackedSplit(ms, b.sep, from, from, from + 1);
    if from + 1 == to {
      assert Packed(ms, b.sep, from, to) == ms[from] + b.sep;
    }
  }

  /** What was sent: the messages before the first chunk, and as many bytes of
      that chunk as the offset says. */
  lemma SentMessages(b: WriteBuffer)
    requires b.Valid()
    ensures |b.starts| > 0 && b.starts[0] <= |b.log.messages|
    ensures b.log.wire == Flat(Terminated(b.log.messages[..b.starts[0]], b.sep))
                        + (if b.list == [] then [] else b.list[0].data[..b.offset])
  {
    hide Queue.Shape, Terminated, Group;
    var ms, k, cs := b.log.messages, b.starts[0], b.View().cs;
    GroupedFlat(cs, b.starts, ms, b.sep, b.minbuf, b.maxbuf);
    PackedSplit(ms, b.sep, 0, k, |ms|);
    assert ms[0..|ms|] == ms && ms[0..k] == ms[..k];
    var head := if cs == [] then [] else cs[0][..b.offset];
    assert Flat(cs) == head + b.Pending() by {
      if cs != [] {
        assert cs[0] == head + cs[0][b.offset..];
        Assoc(head, cs[0][b.offset..], Flat(cs[1..]));
      }
    }
    Assoc(Packed(ms, b.sep, 0, k), head, b.Pending());
    SameHead(b.log.wire, Packed(ms, b.sep, 0, k) + head, b.Pending());
  }

  lemma SameHead(a: seq<byte>, b: seq<byte>, u: seq<byte>)
    requires a + u == b + u
    ensures a == b
  {
    assert |a| == |b|;
    assert a == (a + u)[..|a|] && b == (b + u)[..|b|];
  }

  /** How the writes were cut makes no difference to the chunks: two buffers with
      the same messages, of which the first chunks start at the same one, hold
      the same chunks. */
  lemma ChunksDetermined(a: WriteBuffer, b: WriteBuffer)
    requires a.Valid() && b.Valid()
    requires a.sep == b.sep && a.minbuf == b.minbuf && a.maxbuf == b.maxbuf
    requires a.log.messages == b.log.messages && a.starts[0] == b.starts[0]
    ensures a.View().cs == b.View().cs
  {
    hide Queue.Shape, Flat, Terminated, Queue.Pending;
    GroupedUnique(a.View().cs, a.starts, b.View().cs, b.starts, a.log.messages, a.sep, a.minbuf, a.maxbuf);
  }

  /** The total of the chunk sizes. */
  lemma SizeOfChunks(b: WriteBuffer)
    requires b.Valid()
    ensures b.size + b.offset == |Flat(b.View().cs)|
  {
    PendingIsFlat(b.View());
  }

  /** Small messages do not pile up as small chunks. */
  lemma ChunkCount(b: WriteBuffer)
    requires b.Valid()
    ensures |b.list| * b.minbuf <= 2 * (b.size + b.offset) + b.minbuf
  {
    CountBound(b.View().cs, b.minbuf, b.maxbuf);
    SizeOfChunks(b);
  }

  /** Number of full writes that empty the buffer. */
  ghost function WritesLeft(b: WriteBuffer): nat
    requires b.Valid()
    reads b
  {
    Writes(b.View().cs, b.offset, b.maxbuf, b.firstAsIs)
  }

  /** With every write confirmed in full the buffer empties in exactly the
      number of writes its chunks need. */
  method DrainFully(b: WriteBuffer) returns (n: nat)
    requires b.Valid() && b.wait == 0
    modifies b
    ensures b.Valid() && b.list == [] && b.SameOptions()
    ensures n == old(WritesLeft(b))
    ensures b.log == Log(old(b.log.messages), old(b.Attached()))
  {
    hide Queue.Shape, Queue.Pending, Flat, Terminated, Writes, Grouped;
    n := 0;
    var p := b.Next();
    while p.Region?
      invariant b.Valid() && b.SameOptions() && b.log.messages == old(b.log.messages)
      invariant p.Region? ==>
                  b.list != [] && p.len == b.wait == CurSize(b.View(), b.maxbuf, b.firstAsIs) > 0
                  && p.len <= b.size
      invariant p == NoRegion ==> b.list == []
      invariant n + WritesLeft(b) == old(WritesLeft(b))
      decreases WritesLeft(b)
    {
      WritesStep(b.View(), b.minbuf, b.maxbuf, b.firstAsIs);
      var ok := b.Confirm(p.len);
      n := n + 1;
      p := b.Next();
    }
    SentInOrder(b);
    NoWrites(b.View(), b.maxbuf, b.firstAsIs);
  }

  lemma NoWrites(q: Queue, maxbuf: nat, asIs: bool)
    requires q.Sane() && q.cs == [] && maxbuf > 0
    ensures Writes(q.cs, q.offset, maxbuf, asIs) == 0
  {
  }

  /** Whatever non-empty part of each write is sent, and however these parts vary
      from write to write, the buffer empties, and all that was attached has been
      sent in order. */
  method DrainPartly(b: WriteBuffer) returns (sent: seq<byte>)
    requires b.Valid() && b.wait == 0
    modifies b
    ensures b.Valid() && b.list == [] && b.SameOptions()
    ensures sent == old(b.Pending())
    ensures b.log == Log(old(b.log.messages), old(b.Attached()))
  {
    hide Queue.Shape, Queue.Pending, Queue.Offered, Flat, Terminated, Sent, CurSize, Grouped;
    sent := [];
    var p := b.Next();
    while p.Region?
      invariant b.Valid() && b.SameOptions() && b.log.messages == old(b.log.messages)
      invariant p.Region? ==> b.list != [] && 0 < p.len == b.wait <= b.size
      invariant p == NoRegion ==> b.list == []
      invariant b.log.wire == old(b.log.wire) + sent
      decreases b.size
    {
      var k: nat :| 0 < k <= p.len;
      PieceIsPending(b, k);
      var piece := b.list[0].data[b.offset..b.offset + k];
      Assoc(old(b.log.wire), sent, piece);
      sent := sent + piece;
      var ok := b.Confirm(k);
      p := b.Next();
    }
    SentInOrder(b);
    SameTail(old(b.log.wire), sent, old(b.Pending()));
  }

  lemma SameTail(w: seq<byte>, a: seq<byte>, b: seq<byte>)
    requires w + a == w + b
    ensures a == b
  {
    assert a == (w + a)[|w|..] && b == (w + b)[|w|..];
  }

  /** The source accepts a confirmation that breaks the queue: two messages in
      chunks of their own, the first one offered, both claimed. */
  method OverConfirm() returns (b: WriteBuffer, ok: bool)
    ensures ok && !b.Valid()
  {
    hide Flat, Terminated, Queue.Pending, Queue.Offered, Queue.Shape, Grouped;
    b := new WriteBuffer();
    b.SetOptions(Options([], 1, 1, 1, 0, true));
    b.Attach(Ptr(0, [7], 1));
    b.Attach(Ptr(1, [8], 1));
    var r := b.Next();
    ok := b.Confirm(2);
  }
}
