/** The read buffer as a state machine over its steps: what a caller and the
    system can do to it, from an empty buffer on. Every run keeps the invariant,
    and the states that are awkward for a caller are reached exactly when the
    options allow it. */
module ReadMachine {
  import opened Framing
  import opened Chunks
  import opened Snapshots
  import opened Transitions
  import opened ReadSteps

  datatype Config = Config(sep: seq<byte>, bufsize: nat, minbuf: nat)

  datatype State = State(s: Snapshot, log: Log)

  /** A region is offered; the system writes into it; `k` of its bytes are
      confirmed; detach finds nothing; detach cuts a frame off at place (`b`, `j`). */
  datatype Event = Offer | Arrive(data: seq<byte>) | Confirm(k: nat) | Miss | Cut(b: nat, j: nat)

  const Start := State(Snapshot([], 0, NPOS, NPOS, 0, 0), Log([], [], 0))

  predicate Extends(c: Config, s: Snapshot) {
    s.datas != [] && Snapshot.Roomy(|s.datas[|s.datas| - 1]|, c.bufsize, c.minbuf)
  }

  ghost predicate Offers(c: Config, x: State, y: State) {
    && x.s.readbuf == NPOS && y.log == x.log
    && y.s == if Extends(c, x.s)
              then Extended(x.s, Zeros(c.bufsize - |Last(x.s)|))
              else Created(x.s, Zeros(c.bufsize))
  }

  ghost predicate Arrives(x: State, data: seq<byte>, y: State) {
    && x.s.datas != [] && x.s.readbuf == |x.s.datas| - 1 && y.log == x.log
    && 0 <= x.s.readpos <= |data| == |Last(x.s)|
    && data[..x.s.readpos] == Last(x.s)[..x.s.readpos]
    && y.s == Arrived(x.s, data)
  }

  ghost predicate Confirms(x: State, k: nat, y: State) {
    && x.s.datas != [] && x.s.readbuf == |x.s.datas| - 1
    && 0 <= x.s.readpos && x.s.readpos + k <= |Last(x.s)|
    && y.s == Settled(x.s, k)
    && y.log == x.log.(received := x.log.received + Last(x.s)[x.s.readpos..x.s.readpos + k])
  }

  /** Detach may be called: with a separator, the cursor must be on the list. */
  predicate Searchable(c: Config, s: Snapshot) {
    s.Bounded() && s.parsebuf <= |s.datas| && (c.sep != [] ==> s.parsebuf < |s.datas|)
  }

  ghost predicate Misses(c: Config, x: State, y: State) {
    && Searchable(c, x.s) && x.s.datas != []
    && (x.s.readbuf != NPOS ==> x.s.readbuf >= 0 && x.s.readpos >= 0)
    && (if c.sep != [] then FirstEnd(x.s.Unread(), c.sep) == None
        else x.s.Unread() == [] || x.s.Skips())
    && y.s == AtEnd(x.s)
    && y.log.received == x.log.received && y.log.frames == x.log.frames
    && (c.sep != [] ==> y.log.scanned == x.log.scanned + |x.s.Unread()| - x.s.CurPos())
  }

  ghost predicate Cuts(c: Config, x: State, b: nat, j: nat, y: State) {
    && Searchable(c, x.s)
    && FrameEnd(x.s, b, j, c.sep) && (c.sep == [] ==> !x.s.Skips())
    && 0 <= x.s.Pos(b, j) <= |x.s.Unread()|
    && y.s == Dropped(x.s, b, j)
    && y.log.received == x.log.received
    && y.log.frames == x.log.frames + [x.s.Unread()[..x.s.Pos(b, j)]]
    && (c.sep != [] ==> y.log.scanned == x.log.scanned + x.s.Pos(b, j) - x.s.CurPos())
  }

  ghost predicate Step(c: Config, x: State, e: Event, y: State) {
    match e
    case Offer => Offers(c, x, y)
    case Arrive(data) => Arrives(x, data, y)
    case Confirm(k) => Confirms(x, k, y)
    case Miss => Misses(c, x, y)
    case Cut(b, j) => Cuts(c, x, b, j, y)
  }

  ghost predicate Runs(c: Config, es: seq<Event>, y: State) {
    if es == [] then y == Start
    else
      var before, last := es[..|es| - 1], es[|es| - 1];
      exists x :: Runs(c, before, x) && Step(c, x, last, y)
  }

  ghost predicate Reachable(c: Config, y: State) {
    exists es :: Runs(c, es, y)
  }

  lemma Reach(c: Config, x: State, e: Event, y: State)
    requires Reachable(c, x) && Step(c, x, e, y)
    ensures Reachable(c, y)
  {
    var es :| Runs(c, es, x);
    assert (es + [e])[..|es + [e]| - 1] == es;
    assert Runs(c, es + [e], y);
  }

  lemma ReachStart(c: Config)
    ensures Reachable(c, Start)
  {
    assert Runs(c, [], Start);
  }

  ghost predicate Sound(c: Config, x: State) {
    Consistent(x.s, x.log, c.sep, c.bufsize, c.minbuf)
  }

  lemma OfferKeeps(c: Config, x: State, y: State)
    requires Sound(c, x) && Offers(c, x, y)
    ensures Sound(c, y) && y.s.CursorInside()
  {
    hide Consistent, Created, Extended;
    Essentials(x.s, x.log, c.sep, c.bufsize, c.minbuf);
    if Extends(c, x.s) {
      ExtendedStep(x.s, Zeros(c.bufsize - |Last(x.s)|), x.log, c.sep, c.bufsize, c.minbuf);
    } else {
      CreatedStep(x.s, Zeros(c.bufsize), x.log, c.sep, c.bufsize, c.minbuf);
    }
  }

  lemma ConfirmKeeps(c: Config, x: State, k: nat, y: State)
    requires Sound(c, x) && Confirms(x, k, y)
    ensures Sound(c, y)
  {
    hide Consistent, Confirmed, GivenBack;
    if x.s.readpos + k == 0 {
      GivenBackStep(x.s, x.log, c.sep, c.bufsize, c.minbuf);
      assert x.log.received + [] == x.log.received;
    } else {
      ConfirmedStep(x.s, k, x.log, c.sep, c.bufsize, c.minbuf);
    }
  }

  /** Without a separator nothing is scanned. */
  lemma Uncounted(c: Config, y: State, scanned: nat)
    requires c.sep != [] ==> scanned == y.log.scanned
    requires Sound(c, y.(log := y.log.(scanned := scanned)))
    ensures Sound(c, y)
  {
  }

  lemma MissKeeps(c: Config, x: State, y: State)
    requires Sound(c, x) && Misses(c, x, y)
    ensures Sound(c, y)
  {
    hide Consistent, Snapshot.Shape, Snapshot.Unread, AtEnd;
    Ready(x.s, x.log, c.sep, c.bufsize, c.minbuf);
    if c.sep != [] {
      CursorInUnread(x.s);
    }
    var seen := if c.sep == [] then 0 else y.log.scanned - x.log.scanned;
    AtEndStep(x.s, seen, x.log, c.sep, c.bufsize, c.minbuf);
    Uncounted(c, y, x.log.scanned + seen);
  }

  lemma CutKeeps(c: Config, x: State, b: nat, j: nat, y: State)
    requires Sound(c, x) && Cuts(c, x, b, j, y)
    ensures Sound(c, y)
  {
    hide Consistent, Snapshot.Shape, Snapshot.Unread, Dropped;
    Ready(x.s, x.log, c.sep, c.bufsize, c.minbuf);
    var e := x.s.Pos(b, j);
    // The first separator ends beyond the cursor.
    assert c.sep != [] ==> SepEndsAt(x.s.Unread(), c.sep, e);
    var seen := if c.sep == [] then 0 else y.log.scanned - x.log.scanned;
    CutStep(x.s, b, j, seen, x.log, c.sep, c.bufsize, c.minbuf);
    Uncounted(c, y, x.log.scanned + seen);
  }

  /** Every step keeps the invariant, whatever the system writes and confirms. */
  lemma StepKeeps(c: Config, x: State, e: Event, y: State)
    requires Sound(c, x) && Step(c, x, e, y)
    ensures Sound(c, y)
  {
    hide Consistent, Snapshot.Shape;
    match e
    case Offer => OfferKeeps(c, x, y);
    case Arrive(data) =>
      Essentials(x.s, x.log, c.sep, c.bufsize, c.minbuf);
      ArrivedStep(x.s, data, x.log, c.sep, c.bufsize, c.minbuf);
    case Confirm(k) => ConfirmKeeps(c, x, k, y);
    case Miss => MissKeeps(c, x, y);
    case Cut(b, j) => CutKeeps(c, x, b, j, y);
  }

  lemma {:induction false} RunKeeps(c: Config, es: seq<Event>, y: State)
    requires c.bufsize > 0 && Runs(c, es, y)
    ensures Sound(c, y)
  {
    if es == [] {
      EmptyConsistent(y.s, y.log, c.sep, c.bufsize, c.minbuf);
    } else {
      var x :| Runs(c, es[..|es| - 1], x) && Step(c, x, es[|es| - 1], y);
      RunKeeps(c, es[..|es| - 1], x);
      StepKeeps(c, x, es[|es| - 1], y);
    }
  }

  /** In every reachable state nothing is lost, reordered or passed over. */
  lemma ReachableSound(c: Config, x: State)
    requires c.bufsize > 0 && Reachable(c, x)
    ensures Sound(c, x)
  {
    var es :| Runs(c, es, x);
    RunKeeps(c, es, x);
  }

  /** One read into a fresh chunk, with the cursor at the front. */
  ghost function Grown(x: State, piece: seq<byte>): State {
    State(x.s.(datas := x.s.datas + [piece]), x.log.(received := x.log.received + piece))
  }

  ghost predicate AtFront(c: Config, s: Snapshot) {
    && s.readbuf == NPOS == s.readpos && s.parsebuf == 0 == s.parsepos && !Extends(c, s)
    && (s.datas != [] ==> Last(s) != [])
  }

  lemma ReachGrown(c: Config, x: State, piece: seq<byte>)
    requires Reachable(c, x) && AtFront(c, x.s) && 0 < |piece| <= c.bufsize
    ensures Reachable(c, Grown(x, piece))
  {
    hide Reachable;
    var n, data := |x.s.datas|, piece + Zeros(c.bufsize - |piece|);
    var x1 := State(Created(x.s, Zeros(c.bufsize)), x.log);
    Reach(c, x, Offer, x1);
    var x2 := State(Arrived(x1.s, data), x.log);
    Reach(c, x1, Arrive(data), x2);
    assert x2.s.datas == x.s.datas + [data];
    assert data[0..|piece|] == piece == data[..|piece|];
    assert Settled(x2.s, |piece|).datas == x.s.datas + [piece];
    Reach(c, x2, Confirm(|piece|), Grown(x, piece));
  }

  // ---- Bytes hidden by the cursor ----

  /** Detach would return nothing although a byte is unread. */
  ghost predicate Hides(x: State) {
    x.s.Bounded() && x.s.Skips() && x.s.Unread() != []
  }

  ghost function HalfDetached(c: Config, piece: seq<byte>): State
    requires c.bufsize > 0
  {
    State(Snapshot([piece + Zeros(c.bufsize - 1)], 1, 0, 1, 0, 1), Log(piece, [piece], 0))
  }

  /** Read one byte and detach it while the next read extends the same chunk. */
  lemma ReachHalfDetached(c: Config, piece: seq<byte>)
    requires c.sep == [] && 0 < c.minbuf && c.minbuf + 1 < c.bufsize && |piece| == 1
    ensures Reachable(c, HalfDetached(c, piece))
  {
    hide Reachable, Snapshot.Unread;
    ReachStart(c);
    ReachGrown(c, Start, piece);
    var x := State(Extended(Grown(Start, piece).s, Zeros(c.bufsize - 1)), Grown(Start, piece).log);
    Reach(c, Grown(Start, piece), Offer, x);
    var chunk := piece + Zeros(c.bufsize - 1);
    assert [] + piece == piece && x.s.datas == [chunk];
    assert x.s.Pos(0, 1) == 1;
    BeforeEnd(x.s);
    PosPlace(x.s, 0, 1);
    assert x.s.Unread() == piece;
    Reach(c, x, Cut(0, 1), HalfDetached(c, piece));
  }

  /** The byte received after that is hidden. */
  lemma SkipsReachable(c: Config) returns (x: State)
    requires c.sep == [] && 0 < c.minbuf && c.minbuf + 1 < c.bufsize
    ensures Reachable(c, x) && Hides(x)
  {
    hide Reachable, Snapshot.Unread;
    var x0 := HalfDetached(c, [0]);
    ReachHalfDetached(c, [0]);
    x := State(Settled(x0.s, 1), Log([0] + Last(x0.s)[1..2], [[0]], 0));
    Reach(c, x0, Confirm(1), x);
    ReachableSound(c, x);
    UnreadEmpty(x.s, c.bufsize, c.minbuf);
  }

  /** Detach without a separator can hide a byte exactly when the options let a
      chunk be extended by a second read. */
  lemma SkipsExactly(c: Config)
    requires c.sep == [] && c.bufsize > 0
    ensures (exists x :: Reachable(c, x) && Hides(x)) <==> 0 < c.minbuf && c.minbuf + 1 < c.bufsize
  {
    if 0 < c.minbuf && c.minbuf + 1 < c.bufsize {
      var x := SkipsReachable(c);
    }
    forall x | Reachable(c, x) && Hides(x) ensures 0 < c.minbuf && c.minbuf + 1 < c.bufsize {
      ReachableSound(c, x);
    }
  }

  // ---- A cursor beyond the chunks ----

  lemma AbsentByte(y: byte, n: nat, sep: seq<byte>)
    requires sep != [] && sep[0] != y
    ensures FirstEnd(seq(n, _ => y), sep) == None
  {
    var s := seq(n, _ => y);
    forall e | e <= n ensures !SepEndsAt(s, sep, e) {
      assert |sep| <= e ==> s[e - |sep| + 0] != sep[0];
    }
  }

  /** A full chunk of `y`, searched to its end. */
  ghost function Searched(n: nat, y: byte): State {
    var chunk := seq(n, _ => y);
    State(Snapshot([chunk], 0, NPOS, NPOS, 0, n), Log(chunk, [], n))
  }

  lemma ReachSearched(c: Config, y: byte)
    requires c.sep != [] && c.sep[0] != y && c.bufsize > 0
    ensures Reachable(c, Searched(c.bufsize, y))
  {
    hide Reachable, Snapshot.Unread, FirstEnd;
    var chunk := seq(c.bufsize, _ => y);
    ReachStart(c);
    ReachGrown(c, Start, chunk);
    var x := Grown(Start, chunk);
    assert [] + chunk == chunk && x.s.datas == [chunk];
    BeforeEnd(x.s);
    PosPlace(x.s, 0, c.bufsize);
    assert x.s.Unread() == chunk;
    AbsentByte(y, c.bufsize, c.sep);
    Reach(c, x, Miss, Searched(c.bufsize, y));
  }

  /** Whatever the options, a read of zero bytes into a fresh chunk can leave the
      cursor beyond the chunk list, where a search with a separator would start
      outside it. The next region offered brings it back. */
  lemma CursorBeyondReachable(c: Config) returns (x: State)
    requires c.sep != [] && c.bufsize > 0
    ensures Reachable(c, x) && x.s.datas != [] && !Searchable(c, x.s)
    ensures forall y :: Step(c, x, Offer, y) ==> Searchable(c, y.s)
  {
    hide Reachable, Consistent;
    var v := if c.sep[0] == 0 then 1 else 0;
    var x0 := Searched(c.bufsize, v);
    ReachSearched(c, v);
    var x1 := State(Created(x0.s, Zeros(c.bufsize)), x0.log);
    Reach(c, x0, Offer, x1);
    x := State(Settled(x1.s, 0), x0.log);
    assert x0.log.received + [] == x0.log.received;
    Reach(c, x1, Confirm(0), x);
    ReachableSound(c, x);
    forall y | Step(c, x, Offer, y) ensures Searchable(c, y.s) {
      OfferKeeps(c, x, y);
    }
  }

  // ---- How many chunks there can be ----

  /** A chunk that is not the last holds at least so many bytes. */
  function LeastFill(bufsize: nat, minbuf: nat): nat {
    if 0 < minbuf < bufsize then bufsize - minbuf else 1
  }

  lemma {:induction false} FillBefore(s: Snapshot, bufsize: nat, minbuf: nat, i: nat)
    requires s.Shape(bufsize, minbuf) && 1 <= i < |s.datas|
    ensures i * LeastFill(bufsize, minbuf) <= s.Before(i) + s.offset
  {
    var least := LeastFill(bufsize, minbuf);
    if i == 1 {
      assert s.Before(1) == s.Before(0) + s.Hi(0) - s.offset;
    } else {
      FillBefore(s, bufsize, minbuf, i - 1);
      assert i * least == (i - 1) * least + least;
    }
  }

  /** The number of chunks is bounded by the bytes held: those unread and those
      of the first chunk that are detached already. */
  lemma ChunkBound(s: Snapshot, bufsize: nat, minbuf: nat)
    requires s.Shape(bufsize, minbuf) && s.datas != []
    ensures (|s.datas| - 1) * LeastFill(bufsize, minbuf) <= |s.Unread()| + s.offset
  {
    if |s.datas| > 1 {
      FillBefore(s, bufsize, minbuf, |s.datas| - 1);
      BeforeIsFlat(s, |s.datas| - 1);
    }
  }

  /** `n` chunks just full enough not to be extended. */
  ghost function Filled(c: Config, n: nat): State {
    if n == 0 then Start else Grown(Filled(c, n - 1), Zeros(LeastFill(c.bufsize, c.minbuf)))
  }

  lemma {:induction false} ReachFilled(c: Config, n: nat)
    requires c.bufsize > 0
    ensures Reachable(c, Filled(c, n)) && AtFront(c, Filled(c, n).s)
    ensures |Filled(c, n).s.datas| == n && Filled(c, n).s.offset == 0
    ensures |Filled(c, n).log.received| == n * LeastFill(c.bufsize, c.minbuf)
    ensures Filled(c, n).log.frames == []
  {
    hide Reachable;
    if n == 0 {
      ReachStart(c);
    } else {
      var least := LeastFill(c.bufsize, c.minbuf);
      ReachFilled(c, n - 1);
      ReachGrown(c, Filled(c, n - 1), Zeros(least));
      assert n * least == (n - 1) * least + least;
    }
  }

  lemma NothingDetached(c: Config, x: State)
    requires Sound(c, x) && x.log.frames == []
    ensures x.s.Unread() == x.log.received
  {
    assert [] + x.s.Unread() == x.s.Unread();
  }

  /** The bound is attained for every number of chunks. */
  lemma ChunkBoundAttained(c: Config, n: nat) returns (x: State)
    requires c.bufsize > 0
    ensures Reachable(c, x) && x.s.Bounded() && |x.s.datas| == n + 1
    ensures n * LeastFill(c.bufsize, c.minbuf) == |x.s.Unread()| + x.s.offset
  {
    hide Reachable, Consistent;
    var x0 := Filled(c, n);
    ReachFilled(c, n);
    x := State(Created(x0.s, Zeros(c.bufsize)), x0.log);
    Reach(c, x0, Offer, x);
    ReachableSound(c, x);
    NothingDetached(c, x);
  }
}
