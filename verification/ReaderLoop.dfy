/** The reader: one read is always outstanding; when it completes, the next one
    is started and all complete frames are handed to the user. */
module ReaderLoop {
  import opened Framing
  import opened Chunks
  import opened Snapshots
  import Transitions
  import opened ReadSteps
  import opened ReadBuffering
  import opened ReadRuns

  /** Empty messages are not handed on. */
  function NonEmpty(ms: seq<seq<byte>>): seq<seq<byte>> {
    if ms == [] then []
    else NonEmpty(ms[..|ms| - 1]) + (if ms[|ms| - 1] == [] then [] else [ms[|ms| - 1]])
  }

  lemma NonEmptyAppend(ms: seq<seq<byte>>, m: seq<byte>)
    ensures NonEmpty(ms + [m]) == if m == [] then NonEmpty(ms) else NonEmpty(ms) + [m]
  {
    assert (ms + [m])[..|ms|] == ms;
  }

  lemma {:induction false} NonEmptyKeeps(ms: seq<seq<byte>>)
    requires NoneEmpty(ms)
    ensures NonEmpty(ms) == ms
  {
    if ms != [] {
      NonEmptyKeeps(ms[..|ms| - 1]);
      assert ms == ms[..|ms| - 1] + [ms[|ms| - 1]];
    }
  }

  lemma {:induction false} NonEmptyConcat(a: seq<seq<byte>>, b: seq<seq<byte>>)
    ensures NonEmpty(a + b) == NonEmpty(a) + NonEmpty(b)
    decreases |b|
  {
    if b == [] {
      assert a + b == a && NonEmpty(a) + [] == NonEmpty(a);
    } else {
      var front, last := b[..|b| - 1], b[|b| - 1];
      NonEmptyConcat(a, front);
      assert a + b == (a + front) + [last];
      NonEmptyAppend(a + front, last);
    }
  }

  /** Leaving an empty message out makes no difference; with `NonEmptyKeeps` this
      says what the others become. */
  lemma NonEmptyDrops(a: seq<seq<byte>>, b: seq<seq<byte>>)
    ensures NonEmpty(a + [[]] + b) == NonEmpty(a + b)
  {
    NonEmptyConcat(a + [[]], b);
    NonEmptyConcat(a, b);
    NonEmptyAppend(a, []);
  }

  lemma {:induction false} NonEmptyOnly(ms: seq<seq<byte>>)
    ensures NoneEmpty(NonEmpty(ms))
  {
    if ms != [] {
      NonEmptyOnly(ms[..|ms| - 1]);
    }
  }

  /** What the user gets of the frames cut off. */
  ghost function Handed(frames: seq<seq<byte>>, sep: seq<byte>, trim: bool): seq<seq<byte>> {
    NonEmpty(TrimAll(frames, sep, trim))
  }

  lemma HandedAppend(frames: seq<seq<byte>>, f: seq<byte>, sep: seq<byte>, trim: bool)
    ensures Handed(frames + [f], sep, trim)
         == Handed(frames, sep, trim) + (if Trimmed(f, sep, trim) == [] then [] else [Trimmed(f, sep, trim)])
  {
    TrimAllAppend(frames, [f], sep, trim);
    assert TrimAll([f], sep, trim) == [Trimmed(f, sep, trim)];
    NonEmptyAppend(TrimAll(frames, sep, trim), Trimmed(f, sep, trim));
    assert NonEmpty(TrimAll(frames, sep, trim)) + [] == NonEmpty(TrimAll(frames, sep, trim));
  }

  /** So many chunks are within the limit, if there is one. */
  predicate Within(n: nat, bufsize: nat, maxsize: nat) {
    maxsize == 0 || n * bufsize <= maxsize
  }

  class Reader {
    const buf: ReadBuffer
    var status: bool
    // The outstanding read.
    var reading: Region
    // What the user has been handed.
    var input: seq<seq<byte>>
    // All bytes that arrived.
    ghost var stream: seq<byte>

    /** A running reader has exactly one read outstanding and may call detach;
        a stopped one is empty, though a read may still be outstanding. The
        memory of a running reader is within its limit. */
    ghost predicate Armed()
      reads this, buf
    {
      && buf.Valid()
      && (status ==>
           && reading.Region? && reading.len > 0 && buf.InFlight(reading) && buf.CursorOnList()
           && stream == buf.log.received && Within(|buf.buffers|, buf.bufsize, buf.maxsize))
      && (!status ==> buf.Empty())
    }

    /** Nothing that could have been delivered is left. */
    ghost predicate UpToDate()
      requires buf.Valid()
      reads this, buf
    {
      && input == Handed(buf.log.frames, buf.sep, buf.trimsep)
      && (buf.sep != [] ==> Drained(buf))
      && (buf.sep == [] && buf.Unread() != [] ==> !buf.Skips())
      && (buf.sep == [] && (buf.minbuf == 0 || buf.bufsize <= buf.minbuf + 1) ==> buf.Unread() == [])
    }

    /** Holds between steps. */
    ghost predicate Valid()
      reads this, buf
    {
      Armed() && (status ==> UpToDate())
    }

    constructor (opt: Options)
      ensures Valid() && fresh(buf)
      ensures status ==> stream == [] && input == []
      ensures status <==> opt.maxsize == 0 || buf.bufsize <= opt.maxsize
      ensures Normalized(opt, Options(buf.sep, buf.bufsize, buf.maxbuf, buf.minbuf, buf.maxsize, buf.trimsep))
    {
      hide ReadBuffer.Valid, ReadBuffer.Unread, ReadBuffer.Skips;
      var b := new ReadBuffer();
      buf := b;
      status := true;
      reading := NoRegion;
      input := [];
      stream := [];
      new;
      buf.SetOptions(opt);
      NothingYet(buf, input);
      More();
    }

    /** Starts the next read. The source does so even when the region was taken
        away again by an overflow. */
    method More()
      requires buf.Valid() && reading == NoRegion
      requires if status then !buf.Waiting() && stream == buf.log.received else buf.Empty()
      modifies this`status, this`reading, buf
      ensures Armed() && buf.SameOptions()
      ensures status <==> old(status && Within(buf.CountNext(), buf.bufsize, buf.maxsize))
      ensures old(status) && !status ==> old(Proportionate(buf.maxsize, buf.bufsize, buf.minbuf, Held()))
      ensures status ==> buf.Unread() == old(buf.Unread()) && buf.log == old(buf.log)
      ensures status ==> buf.Skips() == old(buf.Skips())
      ensures !status ==> (reading.Region? <==> old(status))
    {
      hide ReadBuffer.Valid, ReadBuffer.Unread, ReadBuffer.Skips;
      if status {
        var d := NextRegion();
        reading := d;
      }
    }

    /** The next region to read into; a buffer over its limit stops the reader. */
    method NextRegion() returns (p: Region)
      requires buf.Valid() && status
      modifies this`status, buf
      ensures buf.Valid() && buf.SameOptions()
      ensures p.Region? <==> !old(buf.Waiting())
      ensures status ==>
                && p.Region? && p.len > 0 && buf.InFlight(p) && buf.CursorOnList()
                && buf.Unread() == old(buf.Unread()) && buf.log == old(buf.log)
                && buf.Skips() == old(buf.Skips())
      ensures !status ==> buf.Empty()
      // It goes on exactly when the chunks stay within the limit, and so stops
      // only when bytes in proportion to the limit are held.
      ensures !old(buf.Waiting()) ==>
                (status <==> buf.maxsize == 0 || old(buf.CountNext()) * buf.bufsize <= buf.maxsize)
      ensures !old(buf.Waiting()) && !status ==>
                old(Proportionate(buf.maxsize, buf.bufsize, buf.minbuf, Held()))
      ensures status ==> |buf.buffers| == old(buf.CountNext())
    {
      hide ReadBuffer.Valid, ReadBuffer.Unread, ReadBuffer.Skips;
      LimitMeansBytes(buf);
      p := buf.Next();
      var over := buf.Overflow();
      if over {
        buf.Clear();
        Stop();
      } else if p == NoRegion {
        buf.Clear();
        Stop();
      }
    }

    /** Gives up the connection. A read that is outstanding stays so. */
    method Stop()
      requires buf.Valid()
      modifies this`status, buf
      ensures buf.Valid() && buf.Empty() && buf.SameOptions() && !status
    {
      hide ReadBuffer.Valid, ReadBuffer.Unread;
      buf.Clear();
      status := false;
    }

    /** The outstanding read completes with `bytes`. After a stop the buffer
        takes nothing and nothing happens. */
    method Complete(bytes: seq<byte>)
      requires Valid() && reading.Region? && |bytes| <= reading.len
      modifies this, buf
      ensures Valid() && buf.SameOptions()
      // It goes on exactly when the memory stays within the limit; the step needs
      // a chunk more when the last one received bytes and has too little room.
      ensures old(status) ==>
                var last := old(reading.pos) + |bytes|;
                var enough := last == 0 || (buf.minbuf != 0 && buf.bufsize - last > buf.minbuf);
                var n := |old(buf.buffers)| + (if enough then 0 else 1);
                (status <==> buf.maxsize == 0 || n * buf.bufsize <= buf.maxsize)
      ensures old(status) && !status ==>
                Proportionate(buf.maxsize, buf.bufsize, buf.minbuf, old(Held()) + |bytes|)
      ensures status ==> old(status) && stream == old(stream) + bytes
      ensures !status ==> input == old(input)
      ensures !old(status) ==> stream == old(stream) && reading == NoRegion
      // Without a separator, bytes are left behind exactly when the cursor hides
      // them, and not in two steps in a row.
      ensures status && buf.sep == [] ==>
                (buf.Unread() == [] <==> old(buf.Unread()) + bytes == [] || !old(buf.Skips()))
      ensures status && buf.sep == [] && old(buf.Unread()) != [] ==> buf.Unread() == []
    {
      hide ReadBuffer.Valid, ReadBuffer.Unread, ReadBuffer.Skips, Handed, Proportionate;
      Take(bytes);
      More();
      Handler();
    }

    /** The environment has written `bytes` into the region being read, and these
        are confirmed. */
    method Take(bytes: seq<byte>)
      requires Valid() && reading.Region? && |bytes| <= reading.len
      modifies this`reading, this`stream, buf
      ensures buf.Valid() && buf.SameOptions() && reading == NoRegion
      ensures status ==>
                && !buf.Waiting() && buf.Skips() == old(buf.Skips())
                && stream == old(stream) + bytes == buf.log.received
                && buf.log.frames == old(buf.log.frames)
                && buf.Unread() == old(buf.Unread()) + bytes && Held() == old(Held()) + |bytes|
      ensures status ==>
                var last := old(reading.pos) + |bytes|;
                var enough := last == 0 || (buf.minbuf != 0 && buf.bufsize - last > buf.minbuf);
                buf.CountNext() == |old(buf.buffers)| + (if enough then 0 else 1)
      ensures !status ==> buf.Empty() && stream == old(stream)
    {
      hide ReadBuffer.Valid, ReadBuffer.Unread, ReadBuffer.Skips, Handed;
      var d := reading;
      if status {
        buf.Arrive(d, bytes);
        stream := stream + bytes;
        ConfirmCount(buf, |bytes|);
      }
      reading := NoRegion;
      var ok := buf.Confirm(d, |bytes|);
      assert ok == status;
    }

    /** The outstanding read would have had to wait: it is taken back and issued
        anew. */
    method WouldBlock()
      requires Valid() && status
      modifies this, buf
      ensures Valid() && buf.SameOptions()
      ensures status && stream == old(stream) && input == old(input)
    {
      hide ReadBuffer.Valid, ReadBuffer.Unread, ReadBuffer.Skips, Handed;
      var d := reading;
      reading := NoRegion;
      ConfirmCount(buf, 0);
      var ok := buf.Rollback(d);
      More();
    }

    /** The bytes in memory that were received: those unread and those of the
        first chunk that are detached already. */
    ghost function Held(): nat
      requires buf.Valid()
      reads this, buf
    {
      |buf.Unread()| + buf.offset
    }

    /** Hands all complete frames to the user. */
    method Handler()
      requires Armed()
      requires status ==> input == Handed(buf.log.frames, buf.sep, buf.trimsep)
      modifies this`input, buf`buffers, buf`nextId, buf`size, buf`offset, buf`readbuf
      modifies buf`parsebuf, buf`parsepos, buf`log
      ensures Valid() && buf.SameOptions()
      ensures status ==> buf.log.received == old(buf.log.received)
      ensures !status ==> input == old(input)
      // Without a separator, bytes are left behind exactly when the cursor hides them.
      ensures buf.sep == [] ==>
                (buf.Unread() == [] <==> old(buf.Unread()) == [] || !old(buf.Skips()))
    {
      hide ReadBuffer.Valid, ReadBuffer.Unread, ReadBuffer.Skips, CutBehindFrame;
      hide Handed, FirstEnd, Trimmed, SplitsInto, Transitions.AtEnd, Within;
      ghost var u0, hidden := buf.Unread(), buf.Skips();
      while true
        invariant Armed()
        invariant status ==> input == Handed(buf.log.frames, buf.sep, buf.trimsep)
        invariant buf.log.received == old(buf.log.received)
        invariant !status ==> input == old(input)
        invariant buf.sep == [] ==>
                    || (buf.Unread() == [] && !(u0 != [] && hidden))
                    || (buf.Unread() == u0 && buf.Skips() == hidden)
        decreases |buf.Unread()|
      {
        ghost var fs := buf.log.frames;
        NoneLeft(buf);
        FewerWithin(|buf.buffers|, buf.bufsize, buf.maxsize);
        var d := buf.Detach();
        if d.Null? {
          NoneLeft(buf);
          break;
        }
        HandedNext(fs, buf.log.frames, d.data, buf.sep, buf.trimsep);
        if d.data != [] {
          input := input + [d.data];
        }
      }
    }
  }

  /** Going on is beyond the limit only when bytes in proportion to it are held. */
  lemma LimitMeansBytes(b: ReadBuffer)
    requires b.Valid()
    ensures !b.Waiting() && b.maxsize < b.CountNext() * b.bufsize ==>
              Proportionate(b.maxsize, b.bufsize, b.minbuf, |b.Unread()| + b.offset)
  {
    if !b.Waiting() && b.maxsize < b.CountNext() * b.bufsize {
      NextMeansBytes(b, b.maxsize);
    }
  }

  lemma FewerWithin(n: nat, bufsize: nat, maxsize: nat)
    requires Within(n, bufsize, maxsize)
    ensures forall m: nat :: m <= n ==> Within(m, bufsize, maxsize)
  {
    forall m: nat | m <= n ensures Within(m, bufsize, maxsize) {
      assert m * bufsize <= n * bufsize;
    }
  }

  /** How many chunks it takes to go on reading once `k` bytes are confirmed. */
  lemma ConfirmCount(b: ReadBuffer, k: nat)
    requires b.Valid() && b.Waiting()
    requires 0 <= b.readbuf < |b.buffers| && b.readpos + k <= |b.buffers[b.readbuf].data|
    ensures b.readpos >= 0 && b.readbuf == |b.buffers| - 1
    ensures var last := b.readpos + k;
            var enough := last == 0 || (b.minbuf != 0 && b.bufsize - last > b.minbuf);
            Transitions.Settled(b.View(), k).CountNext(b.bufsize, b.minbuf)
            == |b.buffers| + (if enough then 0 else 1)
    ensures k == 0 ==> Transitions.Settled(b.View(), k).CountNext(b.bufsize, b.minbuf) == |b.buffers|
  {
    Ready(b.View(), b.log, b.sep, b.bufsize, b.minbuf);
    Transitions.SettledCount(b.View(), k, b.bufsize, b.minbuf);
  }

  /** One frame more. */
  lemma HandedNext(fs: seq<seq<byte>>, fs': seq<seq<byte>>, d: seq<byte>, sep: seq<byte>, trim: bool)
    requires exists f :: fs' == fs + [f] && d == Trimmed(f, sep, trim)
    ensures Handed(fs', sep, trim) == if d == [] then Handed(fs, sep, trim) else Handed(fs, sep, trim) + [d]
  {
    HandedAppend(fs, fs'[|fs|], sep, trim);
    assert Handed(fs, sep, trim) + [] == Handed(fs, sep, trim);
  }

  /** An empty buffer is in its initial state; and without a separator one
      fruitless detach is enough when chunks are never extended. */
  lemma NoneLeft(b: ReadBuffer)
    requires b.Valid()
    ensures b.buffers == [] ==>
              b.Empty() && b.Unread() == [] && (b.sep != [] ==> FirstEnd(b.Unread(), b.sep) == None)
    ensures b.sep == [] && (b.minbuf == 0 || b.bufsize <= b.minbuf + 1) ==> !b.Skips()
  {
    if b.buffers == [] {
      NoChunks(b.View(), b.sep);
    }
  }

  lemma NothingYet(b: ReadBuffer, input: seq<seq<byte>>)
    requires b.Valid() && b.Empty() && b.log == Log([], [], 0) && input == []
    ensures input == Handed(b.log.frames, b.sep, b.trimsep)
    ensures b.Unread() == [] && (b.sep != [] ==> Drained(b)) && !b.Skips()
  {
    NoChunks(b.View(), b.sep);
  }

  /** At every moment between steps the user has been handed exactly the
      non-empty frames of the stream received so far, and the buffer holds
      exactly its unterminated remainder. */
  lemma DeliveredExactly(r: Reader)
    requires r.Valid() && r.status && r.buf.sep != []
    ensures r.input == Handed(Frames(r.stream, r.buf.sep), r.buf.sep, r.buf.trimsep)
    ensures r.buf.Unread() == Rest(r.stream, r.buf.sep)
    ensures NoneEmpty(r.input)
  {
    DrainedIsComplete(r.buf);
    NonEmptyOnly(TrimAll(r.buf.log.frames, r.buf.sep, r.buf.trimsep));
  }

  /** When separators are not cut off, the messages handed on and what is still
      in the buffer are the stream, and each message is a frame. */
  lemma DeliveredUntrimmed(r: Reader)
    requires r.Valid() && r.status && r.buf.sep != [] && !r.buf.trimsep
    ensures r.stream == Flat(r.input) + r.buf.Unread()
    ensures AllFrames(r.input, r.buf.sep)
  {
    var fs, sep := r.buf.log.frames, r.buf.sep;
    assert TrimAll(fs, sep, false) == fs;
    NonEmptyKeeps(fs);
  }

  /** When they are, the stream is some list of messages, each followed by a
      separator, and what is still in the buffer; the user has been handed the
      messages that are not empty. */
  lemma DeliveredTrimmed(r: Reader) returns (ms: seq<seq<byte>>)
    requires r.Valid() && r.status && r.buf.sep != [] && r.buf.trimsep
    ensures r.stream == Flat(Terminated(ms, r.buf.sep)) + r.buf.Unread()
    ensures AllFramable(ms, r.buf.sep) && r.input == NonEmpty(ms)
  {
    var fs, sep := r.buf.log.frames, r.buf.sep;
    ms := TrimAll(fs, sep, true);
    forall i | 0 <= i < |fs| ensures ms[i] + sep == fs[i] {
      FrameIsTerminated(fs[i], sep);
    }
    assert Terminated(ms, sep) == fs;
  }

  /** Without a separator the pieces handed on, followed by what is still in the
      buffer, are the stream; and nothing stays in a buffer whose chunks are
      never extended. */
  lemma DeliveredUnframed(r: Reader)
    requires r.Valid() && r.status && r.buf.sep == []
    ensures r.stream == Flat(r.input) + r.buf.Unread()
    ensures NoneEmpty(r.input)
    ensures r.buf.minbuf == 0 || r.buf.bufsize <= r.buf.minbuf + 1 ==> r.stream == Flat(r.input)
  {
    var fs, trim := r.buf.log.frames, r.buf.trimsep;
    forall i | 0 <= i < |fs| ensures TrimAll(fs, [], trim)[i] == fs[i] {
      TrimNothing(fs[i], trim);
    }
    assert TrimAll(fs, [], trim) == fs;
    NonEmptyKeeps(fs);
    assert Flat(fs) + [] == Flat(fs);
  }

  /** Two readers of the same stream hand on the same messages, however they are
      configured and however the bytes arrive. */
  lemma ReadersAgree(a: Reader, b: Reader)
    requires a.Valid() && a.status && b.Valid() && b.status
    requires a.buf.sep == b.buf.sep != [] && a.buf.trimsep == b.buf.trimsep
    requires a.stream == b.stream
    ensures a.input == b.input && a.buf.Unread() == b.buf.Unread()
  {
    DeliveredExactly(a);
    DeliveredExactly(b);
  }
}
