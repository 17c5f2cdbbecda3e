/** What holds of a read buffer in every reachable state: its validity, kept by
    every operation, ties the chunks to all bytes confirmed so far. */
module ReadRuns {
  import opened Framing
  import opened Snapshots
  import opened Transitions
  import opened ReadSteps
  import opened ReadMachine
  import opened ReadBuffering
  import opened Chunks

  /** Detach would find nothing. */
  ghost predicate Drained(b: ReadBuffer)
    requires b.Valid() && b.sep != []
    reads b
  {
    FirstEnd(b.Unread(), b.sep) == None
  }

  /** The frames cut off so far are the first frames of the received stream, and
      the others are still to come out of the unread bytes. */
  lemma FramesSoFar(b: ReadBuffer)
    requires b.Valid() && b.sep != []
    ensures Frames(b.log.received, b.sep) == b.log.frames + Frames(b.Unread(), b.sep)
    ensures Rest(b.log.received, b.sep) == Rest(b.Unread(), b.sep)
  {
    FramesUnique(b.log.frames, b.Unread(), b.sep);
  }

  /** Once drained, the buffer has delivered all frames of the received stream
      and holds exactly its unterminated remainder. */
  lemma DrainedIsComplete(b: ReadBuffer)
    requires b.Valid() && b.sep != [] && Drained(b)
    ensures b.log.frames == Frames(b.log.received, b.sep)
    ensures b.Unread() == Rest(b.log.received, b.sep)
  {
    FramesSoFar(b);
    assert b.log.frames + [] == b.log.frames;
  }

  /** Neither the chunk sizes, nor the sizes of the reads, nor the moments at
      which frames were asked for make a difference. */
  lemma ChunkingIndependence(a: ReadBuffer, b: ReadBuffer)
    requires a.Valid() && b.Valid() && a.sep == b.sep != []
    requires a.log.received == b.log.received
    ensures a.log.frames + Frames(a.Unread(), a.sep) == b.log.frames + Frames(b.Unread(), b.sep)
    ensures Drained(a) && Drained(b) ==> a.log.frames == b.log.frames && a.Unread() == b.Unread()
  {
    FramesSoFar(a);
    FramesSoFar(b);
    if Drained(a) && Drained(b) {
      DrainedIsComplete(a);
      DrainedIsComplete(b);
    }
  }

  /** The saved cursor hides no separator: the first separator, if there is
      one, ends beyond it. */
  lemma CursorSound(b: ReadBuffer)
    requires b.Valid() && b.sep != []
    ensures var first := FirstEnd(b.Unread(), b.sep);
            first.Some? ==> first.value > b.View().CurPos()
  {
    Ready(b.View(), b.log, b.sep, b.bufsize, b.minbuf);
  }

  /** The forward search looks at no byte twice: what it has looked at so far is
      what was cut off and what lies before the cursor. */
  lemma LinearScan(b: ReadBuffer)
    requires b.Valid() && b.sep != []
    ensures b.log.scanned == |Flat(b.log.frames)| + b.View().CurPos()
    ensures b.log.scanned <= |b.log.received|
  {
    var s := b.View();
    if s.datas == [] || s.parsebuf == |s.datas| {
      BeforeEnd(s);
    } else {
      Ready(s, b.log, b.sep, b.bufsize, b.minbuf);
      CursorInUnread(s);
    }
  }

  /** The region handed out by next is accepted back with any length up to the
      one offered, whatever was detached meanwhile. */
  lemma RegionAccepted(b: ReadBuffer, p: Region, len: nat)
    requires b.Valid() && b.InFlight(p) && len <= p.len
    ensures b.Accepts(p, len)
  {
    Essentials(b.View(), b.log, b.sep, b.bufsize, b.minbuf);
  }

  /** The chunk being read into is the last one and holds at least one byte that
      is not data; every chunk before the last is full enough and not parsed to
      its end. */
  lemma Structure(b: ReadBuffer)
    requires b.Valid() && b.buffers != []
    ensures b.Waiting() ==>
              b.readbuf == |b.buffers| - 1 && 0 <= b.readpos < |b.buffers[b.readbuf].data|
    ensures forall i :: 0 <= i < |b.buffers| ==> 0 < |b.buffers[i].data| <= b.bufsize
    ensures forall i :: 0 <= i < |b.buffers| - 1 ==>
              && !Snapshot.Roomy(|b.buffers[i].data|, b.bufsize, b.minbuf)
              && (i == b.parsebuf ==> b.parsepos < |b.buffers[i].data|)
  {
    Ready(b.View(), b.log, b.sep, b.bufsize, b.minbuf);
  }

  /** A first chunk with nothing left is the only one, and the next read will
      extend it; no other chunk is used up. */
  lemma UsedUpChunk(b: ReadBuffer)
    requires b.Valid() && b.buffers != [] && b.Unread() == []
    ensures |b.buffers| == 1
    ensures !b.Waiting() ==> Snapshot.Roomy(|b.buffers[0].data|, b.bufsize, b.minbuf)
  {
    Ready(b.View(), b.log, b.sep, b.bufsize, b.minbuf);
    UnreadEmpty(b.View(), b.bufsize, b.minbuf);
  }

  /** Without a separator one fruitless detach proves the buffer empty, when the
      options never let a chunk be extended in place. */
  lemma NeverSkips(b: ReadBuffer)
    requires b.Valid() && b.sep == []
    requires b.minbuf == 0 || b.bufsize <= b.minbuf + 1
    ensures !b.Skips()
  {
  }

  /** The chunks beyond the first are there because of bytes held: those unread
      and those of the first chunk that are detached already. */
  lemma ChunkCount(b: ReadBuffer)
    requires b.Valid() && b.buffers != []
    ensures (|b.buffers| - 1) * LeastFill(b.bufsize, b.minbuf) <= |b.Unread()| + b.offset
    ensures 0 < b.minbuf ==> (|b.buffers| - 1) * (b.bufsize - b.minbuf) <= |b.Unread()| + b.offset
    ensures b.offset <= b.bufsize
  {
    ChunkBound(b.View(), b.bufsize, b.minbuf);
    Ready(b.View(), b.log, b.sep, b.bufsize, b.minbuf);
    if b.bufsize <= b.minbuf {
      NotPositive(|b.buffers| - 1, b.bufsize - b.minbuf);
    }
  }

  lemma NotPositive(n: nat, d: int)
    requires d <= 0
    ensures n * d <= 0
  {
  }

  /** Bytes in proportion to the limit: a limit of `n` chunks takes `n - 1` of
      them filled as far as chunks are at least filled. */
  predicate Proportionate(limit: nat, bufsize: nat, minbuf: nat, held: nat) {
    (limit - bufsize) * LeastFill(bufsize, minbuf) < bufsize * held
  }

  /** The limit is exceeded only when enough bytes are held. */
  lemma OverflowMeansBytes(b: ReadBuffer, limit: nat)
    requires b.Valid() && |b.buffers| * b.bufsize > limit
    ensures Proportionate(limit, b.bufsize, b.minbuf, |b.Unread()| + b.offset)
  {
    hide Allocated, Consistent, Snapshot.Unread;
    ChunkCount(b);
    BeyondLimit(limit, |b.buffers|, b.bufsize, b.minbuf, |b.Unread()| + b.offset);
  }

  lemma BeyondLimit(limit: nat, n: nat, bufsize: nat, minbuf: nat, held: nat)
    requires n * bufsize > limit && (n - 1) * LeastFill(bufsize, minbuf) <= held
    ensures Proportionate(limit, bufsize, minbuf, held)
  {
    assert limit - bufsize < (n - 1) * bufsize by {
      assert n * bufsize == (n - 1) * bufsize + bufsize;
    }
    Scaled(limit - bufsize, n - 1, bufsize, LeastFill(bufsize, minbuf), held);
  }

  /** The same before the next region is offered. */
  lemma NextMeansBytes(b: ReadBuffer, limit: nat)
    requires b.Valid() && !b.Waiting() && b.CountNext() * b.bufsize > limit
    ensures Proportionate(limit, b.bufsize, b.minbuf, |b.Unread()| + b.offset)
  {
    hide Allocated, Snapshot.Unread, Consistent;
    var s := b.View();
    var n := b.CountNext();
    Ready(s, b.log, b.sep, b.bufsize, b.minbuf);
    if n == |s.datas| {
      ChunkBound(s, b.bufsize, b.minbuf);
    } else {
      CreatedStep(s, Zeros(b.bufsize), b.log, b.sep, b.bufsize, b.minbuf);
      Ready(Created(s, Zeros(b.bufsize)), b.log, b.sep, b.bufsize, b.minbuf);
      ChunkBound(Created(s, Zeros(b.bufsize)), b.bufsize, b.minbuf);
    }
    BeyondLimit(limit, n, b.bufsize, b.minbuf, |b.Unread()| + b.offset);
  }

  lemma Scaled(a: int, m: nat, size: nat, least: nat, held: nat)
    requires a < m * size && 0 < least && m * least <= held
    ensures a * least < size * held
  {
    assert a * least < (m * size) * least;
    assert (m * size) * least == size * (m * least);
    assert size * (m * least) <= size * held;
  }

  // ---- The object follows the state machine ----

  ghost function ConfigOf(b: ReadBuffer): Config
    reads b
  {
    Config(b.sep, b.bufsize, b.minbuf)
  }

  ghost function StateOf(b: ReadBuffer): State
    requires b.Valid()
    reads b
  {
    State(b.View(), b.log)
  }

  datatype Call = Next | Arrive(bytes: seq<byte>) | Confirm(r: Region, len: nat) | Detach

  /** What may be called: the system writes into the region in flight only. */
  ghost predicate MayCall(b: ReadBuffer, call: Call, r: Region)
    requires b.Valid()
    reads b
  {
    match call
    case Next => true
    case Arrive(bytes) => b.InFlight(r) && |bytes| <= r.len
    case Confirm(_, _) => true
    case Detach => b.sep != [] ==> b.CursorOnList()
  }

  /** Every call is a step of the machine, or is refused and changes nothing. */
  method Perform(b: ReadBuffer, call: Call, r: Region) returns (ghost e: Option<Event>)
    requires b.Valid() && MayCall(b, call, r)
    modifies b
    ensures b.Valid() && ConfigOf(b) == old(ConfigOf(b))
    ensures e.None? ==> StateOf(b) == old(StateOf(b))
    ensures e.Some? ==> Step(ConfigOf(b), old(StateOf(b)), e.value, StateOf(b))
  {
    match call
    case Next => e := PerformNext(b);
    case Arrive(bytes) => e := PerformArrive(b, r, bytes);
    case Confirm(d, len) => e := PerformConfirm(b, d, len);
    case Detach => e := PerformDetach(b);
  }

  method PerformNext(b: ReadBuffer) returns (ghost e: Option<Event>)
    requires b.Valid()
    modifies b
    ensures b.Valid() && ConfigOf(b) == old(ConfigOf(b))
    ensures e == if old(b.Waiting()) then None else Some(Offer)
    ensures e.None? ==> StateOf(b) == old(StateOf(b))
    ensures e.Some? ==> Step(ConfigOf(b), old(StateOf(b)), e.value, StateOf(b))
  {
    hide Allocated, Consistent, Snapshot.Unread, Created, Extended;
    e := if b.Waiting() then None else Some(Offer);
    var r := b.Next();
  }

  method PerformArrive(b: ReadBuffer, r: Region, bytes: seq<byte>) returns (ghost e: Option<Event>)
    requires b.Valid() && b.InFlight(r) && |bytes| <= r.len
    modifies b
    ensures b.Valid() && ConfigOf(b) == old(ConfigOf(b))
    ensures e.Some? && Step(ConfigOf(b), old(StateOf(b)), e.value, StateOf(b))
  {
    hide Allocated, Consistent, Snapshot.Unread, Arrived;
    Essentials(b.View(), b.log, b.sep, b.bufsize, b.minbuf);
    ghost var d := b.buffers[b.readbuf].data;
    e := Some(Event.Arrive(d[..r.pos] + bytes + d[r.pos + |bytes|..]));
    b.Arrive(r, bytes);
  }

  method PerformConfirm(b: ReadBuffer, d: Region, len: nat) returns (ghost e: Option<Event>)
    requires b.Valid()
    modifies b
    ensures b.Valid() && ConfigOf(b) == old(ConfigOf(b))
    ensures e == if old(b.Accepts(d, len)) then Some(Event.Confirm(len)) else None
    ensures e.None? ==> StateOf(b) == old(StateOf(b))
    ensures e.Some? ==> Step(ConfigOf(b), old(StateOf(b)), e.value, StateOf(b))
  {
    hide Allocated, Consistent, Snapshot.Unread, Settled;
    Essentials(b.View(), b.log, b.sep, b.bufsize, b.minbuf);
    e := if b.Accepts(d, len) then Some(Event.Confirm(len)) else None;
    var ok := b.Confirm(d, len);
  }

  method PerformDetach(b: ReadBuffer) returns (ghost e: Option<Event>)
    requires b.Valid() && (b.sep != [] ==> b.CursorOnList())
    modifies b
    ensures b.Valid() && ConfigOf(b) == old(ConfigOf(b))
    ensures e.None? ==> StateOf(b) == old(StateOf(b))
    ensures e.Some? ==> Step(ConfigOf(b), old(StateOf(b)), e.value, StateOf(b))
  {
    hide Allocated, Consistent, Snapshot.Unread, AtEnd, Dropped;
    ghost var x := StateOf(b);
    Essentials(x.s, x.log, b.sep, b.bufsize, b.minbuf);
    var r := b.Detach();
    if r.Ptr? {
      ghost var i: nat, j: nat :| FrameEnd(x.s, i, j, b.sep) && b.View() == Dropped(x.s, i, j);
      e := Some(Cut(i, j));
      CutIsStep(ConfigOf(b), x, i, j, StateOf(b));
    } else if x.s.datas == [] {
      e := None;
    } else {
      e := Some(Miss);
      MissIsStep(ConfigOf(b), x, StateOf(b));
    }
  }

  /** The scan account follows from the invariant. */
  lemma MissIsStep(c: Config, x: State, y: State)
    requires Sound(c, x) && Sound(c, y) && Searchable(c, x.s) && x.s.datas != [] && y.s == AtEnd(x.s)
    requires if c.sep != [] then FirstEnd(x.s.Unread(), c.sep) == None else x.s.Unread() == [] || x.s.Skips()
    requires y.log.received == x.log.received && y.log.frames == x.log.frames
    ensures Step(c, x, Miss, y)
  {
    hide Snapshot.Shape, Snapshot.Unread, FirstEnd;
    Essentials(x.s, x.log, c.sep, c.bufsize, c.minbuf);
    AtEndBytes(x.s);
  }

  lemma CutIsStep(c: Config, x: State, b: nat, j: nat, y: State)
    requires Sound(c, x) && Sound(c, y) && Searchable(c, x.s)
    requires FrameEnd(x.s, b, j, c.sep) && (c.sep == [] ==> !x.s.Skips()) && y.s == Dropped(x.s, b, j)
    requires y.log.received == x.log.received && |y.s.Unread()| <= |x.s.Unread()|
    requires y.log.frames == x.log.frames + [x.s.Unread()[..|x.s.Unread()| - |y.s.Unread()|]]
    ensures Step(c, x, Cut(b, j), y)
  {
    hide Snapshot.Shape, Snapshot.Unread, FirstEnd;
    Essentials(x.s, x.log, c.sep, c.bufsize, c.minbuf);
    DroppedBytes(x.s, b, j);
    var f := x.s.Unread()[..x.s.Pos(b, j)];
    FlatAppend(x.log.frames, [f]);
    FlatOne(f);
  }
}
