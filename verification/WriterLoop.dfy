/** The writer: a write is outstanding exactly while there are bytes to send. */
module WriterLoop {
  import opened Framing
  import opened Chunks
  import opened WriteQueue
  import opened WriteBuffering

  class Writer {
    const buf: WriteBuffer
    var status: bool
    // The outstanding write.
    var writing: Region

    /** A running writer's outstanding write is of the region the buffer waits
        for; a stopped one is empty. */
    ghost predicate Valid()
      reads this, buf
    {
      && buf.Valid()
      && (status && writing.Region? ==>
           && buf.wait == writing.len > 0 && buf.list != []
           && writing.pos == buf.offset && writing.id == buf.list[0].id)
      && (!status ==> buf.Empty())
    }

    /** One write is outstanding if and only if bytes are pending. */
    ghost predicate Live()
      reads this, buf
    {
      Valid() && status && (writing.Region? <==> buf.Pending() != []) && (buf.wait != 0 ==> writing.Region?)
    }

    /** The buffer waits for a write that is not outstanding. */
    ghost predicate Stalled()
      reads this, buf
    {
      Valid() && status && writing == NoRegion && buf.wait != 0
    }

    constructor (opt: Options)
      ensures Live() && fresh(buf) && buf.log == Log([], [])
      ensures Normalized(opt, Options(buf.sep, buf.bufsize, buf.maxbuf, buf.minbuf, buf.maxsize, buf.firstAsIs))
    {
      var b := new WriteBuffer();
      buf := b;
      status := true;
      writing := NoRegion;
      new;
      buf.SetOptions(opt);
    }

    /** Starts a write when the buffer offers a region. */
    method More()
      requires Valid() && (status && buf.wait == 0 ==> writing == NoRegion)
      modifies this`writing, buf`wait
      ensures Valid() && buf.Pending() == old(buf.Pending())
      ensures status && old(buf.wait) == 0 ==> Live()
      ensures !status || old(buf.wait) != 0 ==>
                writing == old(writing) && buf.wait == old(buf.wait) && buf.View() == old(buf.View())
    {
      hide Queue.Shape, Queue.Pending, Queue.Offered, Flat, Terminated, Grouped, CurSize;
      PendingNonEmpty(buf);
      var p := buf.Next();
      if p.Region? && p.len != 0 {
        writing := p;
      }
    }

    /** Queues a message; a buffer over its limit stops the writer and loses all
        that was pending. */
    method AttachMessage(d: DataPtr)
      requires Valid() && status
      modifies this`status, buf
      ensures Valid() && buf.SameOptions()
      ensures status <==>
                buf.maxsize == 0
                || old(buf.size) + (if d.Null? then 0 else |d.data| + |buf.sep|) <= buf.maxsize
      ensures status && d.Ptr? && (d.data != [] || buf.sep != []) ==>
                && buf.Pending() == old(buf.Pending()) + (d.data + buf.sep)
                && buf.log == Log(old(buf.log.messages) + [d.data], old(buf.log.wire))
      ensures status && (d.Null? || (d.data == [] && buf.sep == [])) ==>
                buf.Pending() == old(buf.Pending()) && buf.log == old(buf.log)
      ensures status ==> buf.wait == old(buf.wait) && buf.View().Offered() == old(buf.View().Offered())
    {
      hide Queue.Shape, Queue.Pending, Queue.Offered, Flat, Terminated, Pushed, Merged, Grouped;
      buf.Attach(d);
      if buf.Overflow() {
        buf.Clear();
        Stop();
      }
    }

    method Stop()
      requires buf.Valid()
      modifies this`status, buf
      ensures Valid() && !status && buf.Empty() && buf.SameOptions()
    {
      status := false;
      buf.Clear();
    }

    /** Queues a message and starts a write unless one is outstanding. */
    method Output(d: DataPtr)
      requires Valid() && status && (buf.wait == 0 ==> writing == NoRegion)
      modifies this`status, this`writing, buf
      ensures Valid() && buf.SameOptions()
      ensures status <==>
                buf.maxsize == 0
                || old(buf.size) + (if d.Null? then 0 else |d.data| + |buf.sep|) <= buf.maxsize
      ensures status && d.Ptr? && (d.data != [] || buf.sep != []) ==>
                && buf.Pending() == old(buf.Pending()) + (d.data + buf.sep)
                && buf.log == Log(old(buf.log.messages) + [d.data], old(buf.log.wire))
      ensures status && (d.Null? || (d.data == [] && buf.sep == [])) ==>
                buf.Pending() == old(buf.Pending()) && buf.log == old(buf.log)
      ensures status && old(Live()) ==> Live()
      ensures status && old(Live() && writing.Region?) ==>
                writing == old(writing) && buf.View().Offered() == old(buf.View().Offered())
      ensures status && old(Stalled()) ==> Stalled()
      ensures !status ==> writing == old(writing)
    {
      hide WriteBuffer.Valid, WriteBuffer.Pending, Queue.Offered;
      AttachMessage(d);
      More();
    }

    /** The environment: the outstanding write sends its first `k` bytes. */
    method Transmit(k: nat) returns (bytes: seq<byte>)
      requires Valid() && status && writing.Region? && k <= writing.len
      ensures k <= |buf.View().Offered()| && bytes == buf.View().Offered()[..k]
    {
      PieceIsPending(buf, k);
      bytes := buf.list[0].data[buf.offset..buf.offset + k];
    }

    /** The outstanding write has sent `k` bytes. After a stop this is of no
        consequence. */
    method Complete(k: nat)
      requires if status then Live() && writing.Region? && k <= writing.len else Valid()
      modifies this`writing, buf
      ensures status ==> Live() && buf.SameOptions()
      ensures status ==> buf.log.messages == old(buf.log.messages)
      ensures status ==> buf.log.wire == old(buf.log.wire) + old(buf.View().Offered())[..k]
      ensures status ==> k <= |old(buf.Pending())| && buf.Pending() == old(buf.Pending())[k..]
      ensures !status ==> Valid() && writing == NoRegion && buf.log == old(buf.log)
    {
      hide Queue.Shape, Queue.Pending, Queue.Offered, Flat, Terminated, Sent, CurSize, Grouped;
      if status {
        PieceIsPending(buf, k);
      }
      writing := NoRegion;
      var ok := buf.Confirm(k);
      More();
    }

    /** The outstanding write would have had to wait. The rollback does not
        reopen the buffer, so no new write is started. */
    method WouldBlock()
      requires Live() && writing.Region?
      modifies this`writing, buf`wait
      ensures Stalled() && buf.Pending() == old(buf.Pending()) != []
    {
      PendingNonEmpty(buf);
      writing := NoRegion;
      buf.Rollback();
      More();
    }

    /** What does reopen it: completing with no byte sent. The same bytes are
        offered again. */
    method Retry()
      requires Live() && writing.Region?
      modifies this`writing, buf
      ensures Live() && writing.Region?
      ensures buf.Pending() == old(buf.Pending()) && buf.log.wire == old(buf.log.wire)
    {
      PendingNonEmpty(buf);
      assert buf.Pending()[0..] == buf.Pending();
      assert buf.log.wire + buf.View().Offered()[..0] == buf.log.wire;
      Complete(0);
    }
  }
}
