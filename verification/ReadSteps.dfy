/** The invariant of the read buffer over whole runs, on values: what the chunk
    list and the cursors have to do with all that was received and cut off so
    far. Each step of the buffer keeps it. */
module ReadSteps {
  import opened Framing
  import opened Snapshots
  import opened Transitions

  /** The history of a run: all bytes confirmed, all frames cut off (separator
      included), and the number of bytes the forward search has looked at. */
  datatype Log = Log(received: seq<byte>, frames: seq<seq<byte>>, scanned: nat)

  /** Nothing is lost or reordered; no separator has been passed over; the
      search has looked at each byte before the cursor exactly once. Without a
      separator no empty frame is cut off, and a chunk is left half read only
      while it is still growing. */
  ghost predicate Consistent(s: Snapshot, log: Log, sep: seq<byte>, bufsize: nat, minbuf: nat): (ok: bool)
    ensures ok ==> s.Bounded()
  {
    && s.Shape(bufsize, minbuf)
    && log.received == Flat(log.frames) + s.Unread()
    && (if sep == [] then
          NoneEmpty(log.frames) && (s.offset != 0 ==> Snapshot.Roomy(s.offset, bufsize, minbuf))
        else
          && AllFrames(log.frames, sep)
          && NoSepUpTo(s.Unread(), sep, s.CurPos())
          && log.scanned == |Flat(log.frames)| + s.CurPos())
  }

  /** What the code of the buffer relies on. */
  lemma Essentials(s: Snapshot, log: Log, sep: seq<byte>, bufsize: nat, minbuf: nat)
    requires Consistent(s, log, sep, bufsize, minbuf)
    ensures 0 < bufsize && s.Bounded() && s.parsebuf <= |s.datas|
    ensures s.readbuf == NPOS || (s.datas != [] && s.readbuf == |s.datas| - 1 && 0 <= s.readpos < |Last(s)|)
    ensures s.readbuf == NPOS <==> s.readpos == NPOS
    ensures forall i :: 0 <= i < |s.datas| ==> 0 < |s.datas[i]| <= bufsize
  {
  }

  /** What the search relies on. */
  lemma Ready(s: Snapshot, log: Log, sep: seq<byte>, bufsize: nat, minbuf: nat)
    requires Consistent(s, log, sep, bufsize, minbuf)
    ensures s.Shape(bufsize, minbuf)
    ensures s.datas != [] && s.parsebuf < |s.datas| ==> s.CursorInside()
    ensures sep != [] ==> NoSepUpTo(s.Unread(), sep, s.CurPos())
  {
  }

  lemma EmptyConsistent(s: Snapshot, log: Log, sep: seq<byte>, bufsize: nat, minbuf: nat)
    requires s.datas == [] && s.offset == 0 && s.readbuf == NPOS && s.readpos == NPOS
    requires s.parsebuf == 0 && s.parsepos == 0 && bufsize > 0
    requires log.received == [] && log.frames == [] && log.scanned == 0
    ensures Consistent(s, log, sep, bufsize, minbuf)
    ensures s.Unread() == []
  {
    hide Snapshot.Unread;
    NoChunks(s, sep);
  }

  ghost predicate NoneEmpty(fs: seq<seq<byte>>) {
    forall i :: 0 <= i < |fs| ==> |fs[i]| > 0
  }

  lemma NoneEmptyAppend(fs: seq<seq<byte>>, f: seq<byte>)
    requires NoneEmpty(fs) && f != []
    ensures NoneEmpty(fs + [f])
  {
  }

  lemma SameBytes(s: Snapshot, t: Snapshot, log: Log, sep: seq<byte>, bufsize: nat, minbuf: nat)
    requires Consistent(s, log, sep, bufsize, minbuf) && t.Shape(bufsize, minbuf)
    requires t.Unread() == s.Unread() && t.CurPos() == s.CurPos() && t.offset == s.offset
    ensures Consistent(t, log, sep, bufsize, minbuf)
  {
  }

  lemma ExtendedStep(s: Snapshot, tail: seq<byte>, log: Log, sep: seq<byte>, bufsize: nat, minbuf: nat)
    requires Consistent(s, log, sep, bufsize, minbuf) && s.datas != [] && s.readbuf == NPOS
    requires tail != [] && |Last(s)| + |tail| <= bufsize
    requires Snapshot.Roomy(|Last(s)|, bufsize, minbuf)
    ensures Consistent(Extended(s, tail), log, sep, bufsize, minbuf)
    ensures Extended(s, tail).Unread() == s.Unread() && Extended(s, tail).CursorInside()
  {
    ExtendedShape(s, tail, bufsize, minbuf);
    ExtendedBytes(s, tail);
    SameBytes(s, Extended(s, tail), log, sep, bufsize, minbuf);
  }

  lemma CreatedStep(s: Snapshot, data: seq<byte>, log: Log, sep: seq<byte>, bufsize: nat, minbuf: nat)
    requires Consistent(s, log, sep, bufsize, minbuf) && s.readbuf == NPOS
    requires 0 < |data| <= bufsize
    requires s.datas != [] ==> !Snapshot.Roomy(|Last(s)|, bufsize, minbuf)
    ensures Consistent(Created(s, data), log, sep, bufsize, minbuf)
    ensures Created(s, data).Unread() == s.Unread() && Created(s, data).CursorInside()
    ensures Created(s, data).Skips() == s.Skips()
  {
    CreatedShape(s, data, bufsize, minbuf);
    CreatedSkips(s, data, bufsize, minbuf);
    CreatedBytes(s, data);
    SameBytes(s, Created(s, data), log, sep, bufsize, minbuf);
  }

  lemma ArrivedStep(s: Snapshot, data: seq<byte>, log: Log, sep: seq<byte>, bufsize: nat, minbuf: nat)
    requires Consistent(s, log, sep, bufsize, minbuf) && s.readbuf != NPOS
    requires |data| == |Last(s)| && data[..s.readpos] == Last(s)[..s.readpos]
    ensures Consistent(Arrived(s, data), log, sep, bufsize, minbuf)
    ensures Arrived(s, data).Unread() == s.Unread()
  {
    ArrivedShape(s, data, bufsize, minbuf);
    ArrivedBytes(s, data);
    SameBytes(s, Arrived(s, data), log, sep, bufsize, minbuf);
  }

  lemma GivenBackStep(s: Snapshot, log: Log, sep: seq<byte>, bufsize: nat, minbuf: nat)
    requires Consistent(s, log, sep, bufsize, minbuf) && s.readbuf != NPOS && s.readpos == 0
    ensures Consistent(GivenBack(s), log, sep, bufsize, minbuf)
    ensures GivenBack(s).Unread() == s.Unread()
    ensures |s.datas| > 1 ==> (GivenBack(s).CursorInside() <==> s.parsebuf != |s.datas| - 1)
  {
    GivenBackShape(s, bufsize, minbuf);
    GivenBackBytes(s);
    SameBytes(s, GivenBack(s), log, sep, bufsize, minbuf);
  }

  lemma ConfirmedStep(s: Snapshot, k: nat, log: Log, sep: seq<byte>, bufsize: nat, minbuf: nat)
    requires Consistent(s, log, sep, bufsize, minbuf) && s.readbuf != NPOS
    requires 0 < s.readpos + k <= |Last(s)|
    ensures var more := Last(s)[s.readpos..s.readpos + k];
            && Consistent(Confirmed(s, k), log.(received := log.received + more), sep, bufsize, minbuf)
            && Confirmed(s, k).Unread() == s.Unread() + more
    ensures Confirmed(s, k).CursorInside()
  {
    var more := Last(s)[s.readpos..s.readpos + k];
    ConfirmedShape(s, k, bufsize, minbuf);
    ConfirmedBytes(s, k);
    if sep != [] {
      CursorInUnread(s);
      NoSepPrefix(s.Unread(), more, sep, s.CurPos());
    }
    Assoc(Flat(log.frames), s.Unread(), more);
  }

  lemma CursorInUnread(s: Snapshot)
    requires s.Bounded() && s.CursorInside()
    ensures 0 <= s.CurPos() <= |s.Unread()|
  {
    PosPlace(s, s.parsebuf, s.parsepos);
  }

  /** The search found nothing and saves the end as its cursor. */
  lemma AtEndStep(s: Snapshot, seen: nat, log: Log, sep: seq<byte>, bufsize: nat, minbuf: nat)
    requires Consistent(s, log, sep, bufsize, minbuf) && s.datas != []
    requires sep != [] ==>
               FirstEnd(s.Unread(), sep) == None && seen == |s.Unread()| - s.CurPos()
    ensures Consistent(AtEnd(s), log.(scanned := log.scanned + seen), sep, bufsize, minbuf)
    ensures AtEnd(s).Unread() == s.Unread() && AtEnd(s).CursorInside()
  {
    AtEndShape(s, bufsize, minbuf);
    AtEndBytes(s);
  }

  /** With a separator, the bytes up to the first one are cut off. */
  lemma DroppedStep(s: Snapshot, b: nat, j: nat, seen: nat, log: Log, sep: seq<byte>, bufsize: nat, minbuf: nat)
    requires sep != [] && Consistent(s, log, sep, bufsize, minbuf) && s.Place(b, j)
    requires FirstEnd(s.Unread(), sep) == Some(s.Pos(b, j)) && seen == s.Pos(b, j) - s.CurPos()
    ensures var e := s.Pos(b, j);
            && e <= |s.Unread()|
            && Dropped(s, b, j).Unread() == s.Unread()[e..]
            && Consistent(Dropped(s, b, j),
                          Log(log.received, log.frames + [s.Unread()[..e]], log.scanned + seen),
                          sep, bufsize, minbuf)
    ensures Dropped(s, b, j).datas != [] ==> Dropped(s, b, j).CursorInside()
  {
    var e, u, t := s.Pos(b, j), s.Unread(), Dropped(s, b, j);
    DroppedShape(s, b, j, bufsize, minbuf);
    DroppedBytes(s, b, j);
    CutIsFrame(u, sep, e);
    CutFlat(log.frames, u, e);
    assert NoSepUpTo(t.Unread(), sep, 0);
  }

  lemma CutFlat(frames: seq<seq<byte>>, u: seq<byte>, e: nat)
    requires e <= |u|
    ensures Flat(frames + [u[..e]]) == Flat(frames) + u[..e]
    ensures Flat(frames + [u[..e]]) + u[e..] == Flat(frames) + u
  {
    FlatAppend(frames, [u[..e]]);
    FlatOne(u[..e]);
    Assoc(Flat(frames), u[..e], u[e..]);
    assert u[..e] + u[e..] == u;
  }

  lemma AllCut(frames: seq<seq<byte>>, u: seq<byte>)
    ensures Flat(frames + [u]) + [] == Flat(frames) + u
    ensures u[|u|..] == []
  {
    FlatAppend(frames, [u]);
    FlatOne(u);
    assert Flat(frames + [u]) + [] == Flat(frames + [u]);
  }

  lemma HalfRead(s: Snapshot, b: nat, j: nat, bufsize: nat, minbuf: nat)
    requires s.Shape(bufsize, minbuf) && s.Place(b, j) && j == s.Hi(b)
    ensures var left := Dropped(s, b, j).offset;
            left != 0 ==> Snapshot.Roomy(left, bufsize, minbuf)
  {
  }

  /** Without a separator, all unread bytes are cut off. */
  lemma DroppedAllStep(s: Snapshot, b: nat, j: nat, seen: nat, log: Log, sep: seq<byte>, bufsize: nat, minbuf: nat)
    requires sep == [] && Consistent(s, log, sep, bufsize, minbuf) && s.Place(b, j)
    requires s.Unread() != [] && s.Pos(b, j) == |s.Unread()| && j == s.Hi(b)
    ensures var e := s.Pos(b, j);
            && Dropped(s, b, j).Unread() == s.Unread()[e..] == []
            && Consistent(Dropped(s, b, j),
                          Log(log.received, log.frames + [s.Unread()[..e]], log.scanned + seen),
                          sep, bufsize, minbuf)
    ensures Dropped(s, b, j).datas != [] ==> Dropped(s, b, j).CursorInside()
  {
    var u := s.Unread();
    DroppedShape(s, b, j, bufsize, minbuf);
    DroppedBytes(s, b, j);
    HalfRead(s, b, j, bufsize, minbuf);
    AllCut(log.frames, u);
    NoneEmptyAppend(log.frames, u);
    assert u[..|u|] == u;
  }

  /** A place where the next frame ends: after the first separator, or, without
      one, after everything received. */
  ghost predicate FrameEnd(s: Snapshot, b: nat, j: nat, sep: seq<byte>) {
    && s.Bounded() && s.Place(b, j)
    && (if sep != [] then FirstEnd(s.Unread(), sep) == Some(s.Pos(b, j))
        else s.Unread() != [] && s.Pos(b, j) == |s.Unread()| && j == s.Hi(b))
  }

  /** What remains when the next frame is cut off. */
  ghost predicate CutBehindFrame(s: Snapshot, t: Snapshot, sep: seq<byte>) {
    exists b: nat, j: nat :: FrameEnd(s, b, j, sep) && t == Dropped(s, b, j)
  }

  lemma CutBehind(s: Snapshot, b: nat, j: nat, sep: seq<byte>)
    requires FrameEnd(s, b, j, sep)
    ensures CutBehindFrame(s, Dropped(s, b, j), sep)
  {
  }

  lemma CutStep(s: Snapshot, b: nat, j: nat, seen: nat, log: Log, sep: seq<byte>, bufsize: nat, minbuf: nat)
    requires Consistent(s, log, sep, bufsize, minbuf) && FrameEnd(s, b, j, sep)
    requires sep != [] ==> seen == s.Pos(b, j) - s.CurPos()
    ensures var e := s.Pos(b, j);
            && 0 <= e <= |s.Unread()|
            && Consistent(Dropped(s, b, j),
                          Log(log.received, log.frames + [s.Unread()[..e]], log.scanned + seen),
                          sep, bufsize, minbuf)
            && Dropped(s, b, j).Unread() == s.Unread()[e..]
    ensures Dropped(s, b, j).datas != [] ==> Dropped(s, b, j).CursorInside()
  {
    if sep != [] {
      DroppedStep(s, b, j, seen, log, sep, bufsize, minbuf);
    } else {
      DroppedAllStep(s, b, j, seen, log, sep, bufsize, minbuf);
    }
  }

  lemma NoChunks(s: Snapshot, sep: seq<byte>)
    requires s.datas == []
    ensures s.Bounded() && s.Unread() == []
    ensures sep != [] ==> FirstEnd(s.Unread(), sep) == None
  {
  }
}
