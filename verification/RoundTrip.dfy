/** From a writer to a reader over a channel that keeps the order of the bytes
    but may cut them up and delay them in any way. */
module RoundTrip {
  import opened Framing
  import opened Chunks
  import opened ReadSteps
  import opened ReadBuffering
  import opened ReadRuns
  import opened WriteBuffering
  import opened WriteRuns
  import opened ReaderLoop
  import opened WriterLoop

  /** The two ends are configured alike, and what the reader has received is the
      beginning of what the writer has sent. */
  ghost predicate Connected(w: WriteBuffer, r: ReadBuffer)
    reads w, r
  {
    && w.Valid() && r.Valid()
    && w.sep == r.sep != [] && r.trimsep
    && r.log.received <= w.log.wire
  }

  /** The frames of the beginning of a stream are the first frames of the stream. */
  lemma FramesOfPrefix(a: seq<byte>, s: seq<byte>, sep: seq<byte>)
    requires sep != [] && a <= s
    ensures Frames(a, sep) <= Frames(s, sep)
  {
    assert s == a + s[|a|..];
    FramesOfConcat(a, s[|a|..], sep);
  }

  lemma PrefixTransitive(a: seq<byte>, b: seq<byte>, c: seq<byte>)
    requires a <= b <= c
    ensures a <= c
  {
  }

  lemma TrimPrefix(fs: seq<seq<byte>>, ms: seq<seq<byte>>, sep: seq<byte>)
    requires fs <= Terminated(ms, sep)
    ensures TrimAll(fs, sep, true) == ms[..|fs|]
  {
    TrimTerminated(ms, sep);
    forall i | 0 <= i < |fs| ensures TrimAll(fs, sep, true)[i] == ms[..|fs|][i] {
      assert fs[i] == Terminated(ms, sep)[i];
      assert TrimAll(Terminated(ms, sep), sep, true)[i] == ms[i];
    }
  }

  /** At any moment, however writes, reads and detaches were interleaved, the
      frames detached are exactly the first messages attached. */
  lemma MessagesInOrder(w: WriteBuffer, r: ReadBuffer)
    requires Connected(w, r) && AllFramable(w.log.messages, w.sep)
    ensures |r.log.frames| <= |w.log.messages|
    ensures TrimAll(r.log.frames, r.sep, true) == w.log.messages[..|r.log.frames|]
  {
    SentInOrder(w);
    PrefixTransitive(r.log.received, w.log.wire, w.Attached());
    FramesOfPrefix(r.log.received, w.Attached(), w.sep);
    FramableFrames(w.log.messages, w.sep);
    FramesSoFar(r);
    TrimPrefix(r.log.frames, w.log.messages, w.sep);
  }

  /** Once everything is sent, received and detached, the reader has all
      messages and nothing else, exactly when all of them can be framed. */
  lemma AllMessages(w: WriteBuffer, r: ReadBuffer)
    requires Connected(w, r) && w.list == [] && r.log.received == w.log.wire && Drained(r)
    ensures TrimAll(r.log.frames, r.sep, true) == w.log.messages <==> AllFramable(w.log.messages, w.sep)
    ensures AllFramable(w.log.messages, w.sep) ==> r.Unread() == []
  {
    SentInOrder(w);
    DrainedIsComplete(r);
    RoundTripIff(w.log.messages, w.sep);
    if AllFramable(w.log.messages, w.sep) {
      FramableFrames(w.log.messages, w.sep);
    }
  }

  /** The same for the two loops: between steps the user of the reader has been
      handed the non-empty ones among the first messages of the writer. */
  lemma LoopsInOrder(w: Writer, r: Reader)
    requires w.Valid() && r.Valid() && r.status
    requires w.buf.sep == r.buf.sep != [] && r.buf.trimsep && r.stream <= w.buf.log.wire
    requires AllFramable(w.buf.log.messages, w.buf.sep)
    ensures exists n :: 0 <= n <= |w.buf.log.messages| && r.input == NonEmpty(w.buf.log.messages[..n])
    ensures w.writing == NoRegion && w.Live() && r.stream == w.buf.log.wire ==>
              r.input == NonEmpty(w.buf.log.messages)
  {
    MessagesInOrder(w.buf, r.buf);
    var n := |r.buf.log.frames|;
    assert r.input == NonEmpty(w.buf.log.messages[..n]);
    if w.writing == NoRegion && w.Live() && r.stream == w.buf.log.wire {
      PendingNonEmpty(w.buf);
      AllMessages(w.buf, r.buf);
    }
  }

  /** Carries bytes from the writer to the reader until none is left, as any
      channel may: a write is sent in part or whole while earlier bytes are still
      on their way, and these arrive in pieces of any size at any time. */
  method Pump(w: Writer, r: Reader, onTheWay: seq<byte>)
    requires w.Live() && r.Valid() && r.status && r.buf.maxsize == 0
    requires w.buf.sep == r.buf.sep != [] && r.buf.trimsep && r.stream + onTheWay == w.buf.log.wire
    requires {w, w.buf as object} !! {r, r.buf as object}
    modifies w, w.buf, r, r.buf
    ensures w.Live() && w.writing == NoRegion && r.Valid() && r.status
    ensures w.buf.log.messages == old(w.buf.log.messages)
    ensures r.stream == w.buf.log.wire == old(w.buf.Attached())
    ensures AllFramable(w.buf.log.messages, w.buf.sep) ==> r.input == NonEmpty(w.buf.log.messages)
  {
    hide ReadBuffer.Valid, ReadBuffer.Unread, Reader.UpToDate, WriteBuffer.Valid, WriteBuffer.Pending;
    hide AllFramable, NonEmpty;
    var transit := onTheWay;
    while w.writing.Region? || transit != []
      invariant w.Live() && r.Valid() && r.status
      invariant w.buf.SameOptions() && r.buf.SameOptions()
      invariant w.buf.log.messages == old(w.buf.log.messages)
      invariant r.stream + transit == w.buf.log.wire
      decreases 2 * |w.buf.Pending()| + |transit|
    {
      var write: bool :| (write ==> w.writing.Region?) && (!write ==> transit != []);
      if write {
        var k: nat :| 0 < k <= w.writing.len;
        var sent := w.Transmit(k);
        Assoc(r.stream, transit, sent);
        w.Complete(k);
        transit := transit + sent;
      } else {
        var k: nat :| 0 < k <= |transit| && k <= r.reading.len;
        Assoc(r.stream, transit[..k], transit[k..]);
        assert transit[..k] + transit[k..] == transit;
        r.Complete(transit[..k]);
        transit := transit[k..];
      }
    }
    AllAcross(w, r);
  }

  /** Nothing pending and nothing on its way: all has arrived. */
  lemma AllAcross(w: Writer, r: Reader)
    requires w.Live() && w.writing == NoRegion && r.Valid() && r.status
    requires w.buf.sep == r.buf.sep != [] && r.buf.trimsep && r.stream + [] == w.buf.log.wire
    ensures r.stream == w.buf.log.wire == w.buf.Attached()
    ensures AllFramable(w.buf.log.messages, w.buf.sep) ==> r.input == NonEmpty(w.buf.log.messages)
  {
    PendingNonEmpty(w.buf);
    SentInOrder(w.buf);
    assert r.stream + [] == r.stream;
    if AllFramable(w.buf.log.messages, w.buf.sep) {
      LoopsInOrder(w, r);
    }
  }
}
