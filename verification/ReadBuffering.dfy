/** The read buffer: bytes arrive through a two-phase next/confirm protocol into
    a list of chunks, and detach cuts the next frame off the front. */
module ReadBuffering {
  import opened Framing
  import opened Chunks
  import opened Snapshots
  import opened Transitions
  import opened ReadSteps
  import opened Searching

  datatype Options = Options(
    sep: seq<byte>,
    bufsize: nat,
    maxbuf: nat,
    minbuf: nat,
    maxsize: nat,
    trimsep: bool)

  /** What the options of a run have to do with the options asked for: a lower
      limit that is not given is taken from the upper limit before that is
      raised to the chunk size. */
  predicate Normalized(opt: Options, o: Options) {
    && o.sep == opt.sep && o.trimsep == opt.trimsep && o.maxsize == opt.maxsize
    && o.bufsize == (if opt.bufsize == 0 then 4096 else opt.bufsize)
    && o.minbuf <= o.bufsize <= o.maxbuf
    && (o.maxbuf == opt.maxbuf || o.maxbuf == o.bufsize > opt.maxbuf)
    && (o.minbuf == 0 <==> opt.minbuf == 0 && opt.maxbuf == 0)
    && var wanted := if opt.minbuf == 0 then opt.maxbuf else opt.minbuf;
       o.minbuf == wanted || o.minbuf == o.bufsize < wanted
  }

  method Normalize(opt: Options) returns (o: Options)
    ensures Normalized(opt, o)
  {
    o := opt;
    if o.bufsize == 0 {
      o := o.(bufsize := 4096);
    }
    if o.minbuf == 0 {
      o := o.(minbuf := o.maxbuf);
    }
    if o.minbuf > o.bufsize {
      o := o.(minbuf := o.bufsize);
    }
    if o.maxbuf < o.bufsize {
      o := o.(maxbuf := o.bufsize);
    }
  }

  /** Options left at zero: chunks of 4096 bytes, never extended. */
  lemma NormalizedZero(opt: Options, o: Options)
    requires Normalized(opt, o) && opt.bufsize == opt.maxbuf == opt.minbuf == 0
    ensures o.bufsize == o.maxbuf == 4096
    ensures forall size: nat :: !Snapshot.Roomy(size, o.bufsize, o.minbuf)
  {
  }

  /** Options that went through once change again only when no lower limit was
      wanted, and then chunks are extended no more than before. */
  lemma NormalizedAgain(opt: Options, o: Options, o': Options)
    requires Normalized(opt, o) && Normalized(o, o')
    ensures o' == if o.minbuf == 0 then o.(minbuf := o.bufsize) else o
    ensures forall size: nat ::
              Snapshot.Roomy(size, o'.bufsize, o'.minbuf) == Snapshot.Roomy(size, o.bufsize, o.minbuf)
  {
  }

  class ReadBuffer {
    // Options.
    var sep: seq<byte>
    var bufsize: nat
    var maxbuf: nat
    var minbuf: nat
    var maxsize: nat
    var trimsep: bool

    // Number of unread bytes, and where they start in the first chunk.
    var size: nat
    var offset: nat
    // The chunk being read into and where the region starts, or NPOS.
    var readbuf: int
    var readpos: int
    // Where to resume the search.
    var parsebuf: nat
    var parsepos: nat
    var buffers: seq<DataPtr>
    // Numbers the chunks.
    var nextId: nat

    ghost var log: Log

    /** The state as a value. */
    function View(): Snapshot
      requires NoNull(buffers)
      reads this
    {
      Snapshot(Datas(buffers), offset, readbuf, readpos, parsebuf, parsepos)
    }

    ghost predicate Valid()
      reads this
    {
      && Allocated(buffers, bufsize, nextId)
      && Consistent(View(), log, sep, bufsize, minbuf)
      && size == |View().Unread()|
    }

    ghost function Unread(): seq<byte>
      requires Valid()
      reads this
    {
      View().Unread()
    }

    /** Without a separator the next call of detach returns nothing although
        there may be unread bytes. */
    ghost predicate Skips()
      requires Valid()
      reads this
    {
      View().Skips()
    }

    /** Number of chunks once the next region has been offered. */
    function CountNext(): nat
      requires NoNull(buffers)
      reads this
    {
      View().CountNext(bufsize, minbuf)
    }

    predicate Waiting()
      reads this
    {
      readbuf != NPOS
    }

    twostate predicate SameOptions()
      reads this
    {
      && sep == old(sep) && bufsize == old(bufsize) && maxbuf == old(maxbuf)
      && minbuf == old(minbuf) && maxsize == old(maxsize) && trimsep == old(trimsep)
    }

    /** The search of detach starts inside the chunk list. */
    predicate CursorOnList()
      reads this
    {
      buffers == [] || parsebuf < |buffers|
    }

    /** The region handed out by next and not yet confirmed. */
    predicate InFlight(r: Region)
      reads this
    {
      && r.Region? && 0 <= readbuf < |buffers| && buffers[readbuf].Ptr?
      && r.id == buffers[readbuf].id && r.pos == readpos
      && r.pos + r.len == |buffers[readbuf].data|
    }

    /** No chunks, no read in flight. */
    predicate Empty()
      reads this
    {
      && buffers == [] && size == 0 && offset == 0
      && readbuf == NPOS && readpos == NPOS && parsebuf == 0 && parsepos == 0
    }

    constructor ()
      ensures Empty()
    {
      sep, bufsize, maxbuf, minbuf, maxsize, trimsep := [], 0, 0, 0, 0, false;
      size, offset, readbuf, readpos, parsebuf, parsepos := 0, 0, NPOS, NPOS, 0, 0;
      buffers, nextId, log := [], 0, Log([], [], 0);
    }

    /** Fixes the options. On an empty buffer this starts a run; later it leaves
        chunks and cursors alone, and the run goes on if separator, chunk size
        and lower limit stay the same. */
    method SetOptions(opt: Options)
      modifies this`sep, this`bufsize, this`maxbuf, this`minbuf, this`maxsize, this`trimsep, this`log
      ensures Normalized(opt, Options(sep, bufsize, maxbuf, minbuf, maxsize, trimsep))
      ensures old(Empty()) ==> Valid() && Empty() && log == Log([], [], 0)
      ensures !old(Empty()) ==> log == old(log)
      ensures old(Valid()) && sep == old(sep) && bufsize == old(bufsize) && minbuf == old(minbuf) ==>
                Valid() && (!Empty() ==> Unread() == old(Unread()))
    {
      hide Allocated, Numbered, Consistent, Snapshot.Unread;
      var o := Normalize(opt);
      sep, bufsize, maxbuf, minbuf := o.sep, o.bufsize, o.maxbuf, o.minbuf;
      maxsize, trimsep := o.maxsize, o.trimsep;
      if Empty() {
        Begin();
      }
    }

    /** Drops everything and starts a new run. */
    method Clear()
      requires Valid()
      modifies this`size, this`offset, this`readbuf, this`readpos, this`parsebuf, this`parsepos
      modifies this`buffers, this`log
      ensures Valid() && Empty() && log == Log([], [], 0)
    {
      size := 0;
      offset := 0;
      readbuf := NPOS;
      readpos := NPOS;
      parsebuf := 0;
      parsepos := 0;
      buffers := [];
      assert bufsize > 0;
      Begin();
    }

    ghost method Begin()
      requires Empty() && bufsize > 0
      modifies this`log
      ensures Valid() && log == Log([], [], 0)
    {
      log := Log([], [], 0);
      EmptyConsistent(View(), log, sep, bufsize, minbuf);
    }

    /** All bytes reserved; every chunk has the same capacity. */
    method Capacity() returns (result: nat)
      requires Valid()
      ensures result == |buffers| * bufsize
    {
      result := 0;
      for i := 0 to |buffers|
        invariant result == i * bufsize
      {
        assert buffers[i].cap == bufsize;
        result := result + buffers[i].cap;
        assert (i + 1) * bufsize == i * bufsize + bufsize;
      }
    }

    method Overflow() returns (over: bool)
      requires Valid()
      ensures over <==> maxsize != 0 && |buffers| * bufsize > maxsize
    {
      var capacity := Capacity();
      over := maxsize != 0 && capacity > maxsize;
    }

    /** Appends a fresh chunk and offers all of it. */
    method CreateForNext() returns (r: Region)
      requires Valid() && !Waiting()
      requires buffers != [] ==> !Snapshot.Roomy(|buffers[|buffers| - 1].data|, bufsize, minbuf)
      modifies this`buffers, this`nextId, this`readbuf, this`readpos, this`parsebuf, this`parsepos
      ensures Valid() && CursorOnList() && Unread() == old(Unread())
      ensures InFlight(r) && r.id == old(nextId) && r.pos == 0 && r.len == bufsize
      ensures |buffers| == old(|buffers|) + 1 && buffers[..|buffers| - 1] == old(buffers)
      ensures View() == Created(old(View()), Zeros(bufsize)) && Skips() == old(Skips())
    {
      hide Allocated, Numbered, Consistent, Snapshot.Unread;
      ghost var s := View();
      Essentials(s, log, sep, bufsize, minbuf);
      var c := Create(nextId, bufsize);
      CreatedStep(s, c.data, log, sep, bufsize, minbuf);
      AllocatedAppend(buffers, c, bufsize, nextId);
      nextId := nextId + 1;
      if buffers != [] && parsebuf == |buffers| - 1 && |buffers[parsebuf].data| == parsepos {
        parsebuf := |buffers|;
        parsepos := 0;
      }
      buffers := buffers + [c];
      readbuf := |buffers| - 1;
      readpos := 0;
      assert View() == Created(s, c.data);
      return Region(c.id, 0, |c.data|);
    }

    /** Offers a region for the next read: the spare room of the last chunk
        when that is worth it, else a fresh chunk. */
    method Next() returns (r: Region)
      requires Valid()
      modifies this`buffers, this`nextId, this`readbuf, this`readpos, this`parsebuf, this`parsepos
      ensures Valid() && Unread() == old(Unread())
      ensures log == old(log) && Skips() == old(Skips())
      ensures old(Waiting()) ==> r == NoRegion && buffers == old(buffers) && View() == old(View())
      ensures !old(Waiting()) ==> InFlight(r) && 0 < r.len <= bufsize && CursorOnList()
      ensures !old(Waiting()) ==>
                if old(buffers) != [] && minbuf != 0
                   && bufsize - old(|buffers[|buffers| - 1].data|) > minbuf
                then && |buffers| == |old(buffers)| && r.id == old(buffers[|buffers| - 1].id)
                     && r.len == bufsize - old(|buffers[|buffers| - 1].data|)
                     && View() == Extended(old(View()), Zeros(r.len))
                else && |buffers| == |old(buffers)| + 1
                     && r.id == old(nextId) && View() == Created(old(View()), Zeros(bufsize))
      ensures !old(Waiting()) ==> |buffers| == old(CountNext())
      ensures !old(Waiting()) ==> readbuf <= |old(buffers)| && buffers[..readbuf] == old(buffers)[..readbuf]
    {
      hide Allocated, Numbered, Consistent, Snapshot.Unread;
      Essentials(View(), log, sep, bufsize, minbuf);
      if Waiting() {
        return NoRegion;
      }
      if buffers == [] {
        r := CreateForNext();
        return;
      }
      var last := buffers[|buffers| - 1];
      AllocatedAt(buffers, bufsize, nextId, |buffers| - 1);
      var reserve := last.cap - |last.data|;
      if reserve > minbuf && minbuf != 0 {
        r := ExtendForNext(reserve);
      } else {
        r := CreateForNext();
      }
    }

    /** Offers the spare room of the last chunk, or as much of it as one read
        takes. */
    method ExtendForNext(reserve: nat) returns (r: Region)
      requires Valid() && !Waiting() && buffers != []
      requires reserve == buffers[|buffers| - 1].cap - |buffers[|buffers| - 1].data|
      requires reserve > minbuf && minbuf != 0
      modifies this`buffers, this`readbuf, this`readpos
      ensures Valid() && CursorOnList() && Unread() == old(Unread())
      ensures InFlight(r) && r.id == old(buffers[|buffers| - 1].id)
      ensures 0 < r.len == bufsize - old(|buffers[|buffers| - 1].data|) <= bufsize
      ensures |buffers| == old(|buffers|)
      ensures buffers[..|buffers| - 1] == old(buffers[..|buffers| - 1])
      ensures View() == Extended(old(View()), Zeros(r.len)) && Skips() == old(Skips())
    {
      hide Allocated, Numbered, Consistent, Snapshot.Unread;
      ghost var s := View();
      var last := buffers[|buffers| - 1];
      var nextsize := if bufsize < reserve then bufsize else reserve;
      Essentials(s, log, sep, bufsize, minbuf);
      AllocatedAt(buffers, bufsize, nextId, |buffers| - 1);
      ExtendedStep(s, Zeros(nextsize), log, sep, bufsize, minbuf);
      AllocatedUpdate(buffers, |buffers| - 1, last.data + Zeros(nextsize), bufsize, nextId);
      readbuf := |buffers| - 1;
      readpos := |last.data|;
      buffers := buffers[readbuf := Resize(last, |last.data| + nextsize)];
      assert View() == Extended(s, Zeros(nextsize));
      return Region(last.id, readpos, nextsize);
    }

    /** The environment: a read completes by writing at most the offered bytes
        into the offered region. */
    method Arrive(r: Region, bytes: seq<byte>)
      requires Valid() && InFlight(r) && |bytes| <= r.len
      modifies this`buffers
      ensures Valid() && InFlight(r) && Unread() == old(Unread()) && Skips() == old(Skips())
      ensures buffers[readbuf].data[r.pos..r.pos + |bytes|] == bytes
      ensures var d := old(buffers[readbuf].data);
              View() == Arrived(old(View()), d[..r.pos] + bytes + d[r.pos + |bytes|..])
    {
      hide Allocated, Numbered, Consistent, Snapshot.Unread;
      ghost var s := View();
      var d := buffers[readbuf].data;
      var d' := d[..r.pos] + bytes + d[r.pos + |bytes|..];
      Essentials(s, log, sep, bufsize, minbuf);
      AllocatedUpdate(buffers, readbuf, d', bufsize, nextId);
      ArrivedStep(s, d', log, sep, bufsize, minbuf);
      buffers := buffers[readbuf := buffers[readbuf].(data := d')];
      assert View() == Arrived(s, d');
    }

    predicate Accepts(d: Region, len: nat)
      requires Waiting() ==> 0 <= readbuf < |buffers| && buffers[readbuf].Ptr? && 0 <= readpos
      reads this
    {
      && Waiting()
      && (len > 0 ==>
           && d.Region? && d.id == buffers[readbuf].id && d.pos == readpos
           && readpos + len <= |buffers[readbuf].data|)
    }

    /** The first `len` bytes of the region become data, if the region is the
        one in flight. */
    method Confirm(d: Region, len: nat) returns (ok: bool)
      requires Valid()
      modifies this`buffers, this`readbuf, this`readpos, this`size, this`log
      ensures Valid() && Skips() == old(Skips())
      ensures ok == old(Accepts(d, len))
      // The handle of another chunk or another position is refused.
      ensures ok <==>
                && old(Waiting())
                && (len > 0 ==>
                     && d.Region? && d.id == old(buffers[readbuf].id) && d.pos == old(readpos)
                     && d.pos + len <= old(|buffers[readbuf].data|))
      ensures !ok ==>
                buffers == old(buffers) && View() == old(View()) && size == old(size) && log == old(log)
      ensures ok ==>
                var more := old(buffers[readbuf].data[readpos..readpos + len]);
                && !Waiting() && View() == Settled(old(View()), len)
                && Unread() == old(Unread()) + more
                && log == old(log).(received := old(log.received) + more)
      // A cursor on a chunk that is given back unused is left beyond the end.
      ensures ok ==>
                (CursorOnList() <==>
                  !(len == 0 && old(readpos) == 0 && old(parsebuf) == old(readbuf) && old(readbuf) > 0))
    {
      hide Allocated, Numbered, Consistent;
      Essentials(View(), log, sep, bufsize, minbuf);
      if !Waiting() {
        return false;
      }
      if readbuf >= |buffers| {
        return false;
      }
      var buf := buffers[readbuf];
      if len > 0 {
        if !d.Region? || d.id != buf.id || d.pos != readpos {
          return false;
        }
        if |buf.data| < readpos + len {
          return false;
        }
      }
      Settle(len);
      return true;
    }

    /** Nothing was received: the region is taken back. */
    method Rollback(d: Region) returns (ok: bool)
      requires Valid()
      modifies this`buffers, this`readbuf, this`readpos, this`size, this`log
      ensures Valid() && Unread() == old(Unread()) && log == old(log) && Skips() == old(Skips())
      ensures ok == old(Waiting()) && !Waiting()
      ensures !ok ==> buffers == old(buffers) && View() == old(View())
      ensures ok ==> View() == Settled(old(View()), 0)
    {
      Essentials(View(), log, sep, bufsize, minbuf);
      assert log.received + [] == log.received && Unread() + [] == Unread();
      ok := Confirm(d, 0);
    }

    /** Cuts the chunk in flight down to what it received, or gives it back. */
    method Settle(len: nat)
      requires Valid() && 0 <= readbuf < |buffers| && 0 <= readpos
      requires readpos + len <= |buffers[readbuf].data|
      modifies this`buffers, this`readbuf, this`readpos, this`size, this`log
      ensures Valid() && !Waiting() && Skips() == old(Skips())
      ensures View() == Settled(old(View()), len)
      ensures var more := old(buffers[readbuf].data[readpos..readpos + len]);
              && Unread() == old(Unread()) + more
              && log == old(log).(received := old(log.received) + more)
      ensures CursorOnList() <==>
                !(len == 0 && old(readpos) == 0 && old(parsebuf) == old(readbuf) && old(readbuf) > 0)
    {
      hide Allocated, Numbered, Consistent, Snapshot.Unread;
      ghost var s := View();
      Essentials(s, log, sep, bufsize, minbuf);
      AllocatedAt(buffers, bufsize, nextId, readbuf);
      var buf := Resize(buffers[readbuf], readpos + len);
      ghost var more := buffers[readbuf].data[readpos..readpos + len];
      size := size + len;
      if buf.data == [] {
        GivenBackStep(s, log, sep, bufsize, minbuf);
        AllocatedSlice(buffers, 0, readbuf, bufsize, nextId);
        buffers := buffers[..readbuf] + buffers[readbuf + 1..];
        assert buffers == old(buffers)[0..readbuf];
        assert log.received + more == log.received && s.Unread() + more == s.Unread();
        readpos := NPOS;
        readbuf := NPOS;
        assert View() == GivenBack(s);
      } else {
        ConfirmedStep(s, len, log, sep, bufsize, minbuf);
        AllocatedUpdate(buffers, readbuf, buf.data, bufsize, nextId);
        buffers := buffers[readbuf := buf];
        readpos := NPOS;
        readbuf := NPOS;
        assert View() == Confirmed(s, len);
      }
      log := log.(received := log.received + more);
    }

    /** Takes the whole first chunk when the frame ends with it. */
    method MakeResultIfFirst(p: SearchPair) returns (result: DataPtr)
      requires Valid() && View().Place(p.first, p.second)
      modifies this`buffers, this`nextId
      ensures result.Null? <==> p.first != 0
      ensures p.first == 0 ==>
                && result.data == old(buffers)[0].data[offset..p.second]
                && |result.data| <= result.cap
      ensures nextId >= old(nextId)
      ensures buffers == if Moves(old(buffers), p) then old(buffers)[0 := Null] else old(buffers)
    {
      hide Allocated, Numbered, Consistent, Snapshot.Unread, Snapshot.Shape;
      if p.first != 0 {
        return Null;
      }
      Essentials(View(), log, sep, bufsize, minbuf);
      AllocatedAt(buffers, bufsize, nextId, 0);
      var tmp := |buffers[0].data|;
      if tmp == p.second {
        ghost var d := buffers[0].data;
        assert d[offset..p.second] == d[offset..] && (offset == 0 ==> d == d[offset..]);
        result := buffers[0];
        buffers := buffers[0 := Null];
        if offset != 0 && offset <= |result.data| {
          result := result.(data := result.data[offset..]);
        }
      } else {
        var part := p.second - offset;
        result := Create(nextId, part);
        nextId := nextId + 1;
        result := result.(data := buffers[0].data[offset..p.second]);
      }
    }

    /** The unread bytes before place `p`, in a buffer of their own. */
    method MakeResult(p: SearchPair) returns (result: DataPtr)
      requires Valid() && View().Place(p.first, p.second)
      modifies this`buffers, this`nextId
      ensures result.Ptr? && |result.data| <= result.cap
      ensures 0 <= old(View().Pos(p.first, p.second)) <= |old(Unread())|
      ensures result.data == old(Unread())[..old(View().Pos(p.first, p.second))]
      ensures nextId >= old(nextId)
      ensures buffers == if Moves(old(buffers), p) then old(buffers)[0 := Null] else old(buffers)
    {
      hide Allocated, Numbered, Consistent;
      Essentials(View(), log, sep, bufsize, minbuf);
      PosPlace(View(), p.first, p.second);
      result := MakeResultIfFirst(p);
      if result.Ptr? {
        return;
      }
      var reserve: nat := 0;
      for i := 0 to p.first + 1 {
        reserve := reserve + |buffers[i].data|;
      }
      result := Create(nextId, reserve);
      nextId := nextId + 1;
      var data := Gather(View(), p.first, p.second);
      result := Ptr(result.id, data, if reserve < |data| then |data| else reserve);
    }

    /** Removes the used-up chunks, the first of which may have been moved out
        already, and puts the cursor on the first unread byte. */
    method Prepare(p: SearchPair, ghost was: seq<DataPtr>)
      requires NoNull(was) && 0 <= p.first < |was| && 0 <= p.second <= |was[p.first].data|
      requires buffers == if Moves(was, p) then was[0 := Null] else was
      // A chunk being read into is not used up.
      requires readbuf == NPOS || Gone(was, p) <= readbuf
      modifies this`buffers, this`offset, this`readbuf, this`parsebuf, this`parsepos
      ensures var off := Gone(was, p);
              && buffers == was[off..]
              && offset == (if |was[p.first].data| == p.second then 0 else p.second)
              && readbuf == (if old(readbuf) == NPOS then NPOS else old(readbuf) - off)
              && parsebuf == 0 && parsepos == offset
    {
      if p.first == 0 {
        if buffers[0].Null? {
          parsepos := 0;
          parsebuf := 0;
          buffers := buffers[1..];
          offset := 0;
          if readbuf != NPOS {
            // The source aborts here when the chunk removed is being read into.
            assert readbuf != 0;
            readbuf := readbuf - 1;
          }
        } else {
          offset := p.second;
          parsepos := p.second;
          parsebuf := 0;
        }
      } else {
        var complete := |buffers[p.first].data| == p.second;
        var off := p.first + (if complete then 1 else 0);
        buffers := buffers[off..];
        if readbuf != NPOS {
          // The source aborts here when a chunk removed is being read into.
          assert off <= readbuf;
          readbuf := readbuf - off;
        }
        parsebuf := 0;
        offset := if complete then 0 else p.second;
        parsepos := offset;
      }
    }

    /** Saves the end of the received bytes as the place to resume at. */
    method GiveUp(ghost seen: nat)
      requires Valid() && buffers != []
      requires sep != [] ==>
                 FirstEnd(Unread(), sep) == None && seen == |Unread()| - View().CurPos()
      modifies this`parsebuf, this`parsepos, this`log
      ensures Valid() && CursorOnList() && Unread() == old(Unread())
      ensures View() == AtEnd(old(View()))
      ensures log == old(log).(scanned := old(log.scanned) + seen)
      ensures Unread() != [] ==> !Skips()
    {
      hide Allocated, Numbered, Consistent, Snapshot.Unread;
      ghost var s := View();
      Essentials(s, log, sep, bufsize, minbuf);
      Ready(s, log, sep, bufsize, minbuf);
      UnreadEmpty(s, bufsize, minbuf);
      AtEndStep(s, seen, log, sep, bufsize, minbuf);
      if readbuf != NPOS {
        parsebuf := readbuf;
        parsepos := readpos;
      } else {
        parsebuf := |buffers| - 1;
        parsepos := |buffers[|buffers| - 1].data|;
      }
      log := log.(scanned := log.scanned + seen);
      assert View() == AtEnd(s);
    }

    /** Copies or moves the bytes before place `p` out of the chunks. */
    method Remove(p: SearchPair) returns (r: DataPtr)
      requires Valid() && View().Place(p.first, p.second)
      modifies this`buffers, this`nextId, this`offset, this`readbuf, this`parsebuf, this`parsepos
      ensures r.Ptr? && |r.data| <= r.cap
      ensures 0 <= old(View().Pos(p.first, p.second)) <= |old(Unread())|
      ensures r.data == old(Unread())[..old(View().Pos(p.first, p.second))]
      ensures Allocated(buffers, bufsize, nextId)
      ensures View() == Dropped(old(View()), p.first, p.second)
      ensures var off := Gone(old(buffers), p);
              && off <= |old(buffers)| && buffers == old(buffers)[off..]
              && readbuf == (if old(readbuf) == NPOS then NPOS else old(readbuf) - off)
      ensures old(Waiting()) ==> readbuf >= 0
      ensures Waiting() && old(0 <= readbuf < |buffers|) ==>
                0 <= readbuf < |buffers| && buffers[readbuf] == old(buffers)[old(readbuf)]
    {
      hide Allocated, Numbered, Consistent, Snapshot.Unread, Snapshot.Pos, Snapshot.Bounded;
      Essentials(View(), log, sep, bufsize, minbuf);
      ghost var s, was := View(), buffers;
      ghost var off := Gone(was, p);
      r := MakeResult(p);
      AllocatedFrom(was, off, bufsize, old(nextId), nextId);
      Prepare(p, was);
      assert View() == Dropped(s, p.first, p.second);
    }

    /** Cuts the frame that ends at place `p` off the front. */
    method CutOff(p: SearchPair, ghost seen: nat) returns (r: DataPtr)
      requires Valid() && p.first >= 0 && p.second >= 0 && FrameEnd(View(), p.first, p.second, sep)
      requires sep != [] ==> seen == View().Pos(p.first, p.second) - View().CurPos()
      modifies this`buffers, this`nextId, this`size, this`offset, this`readbuf
      modifies this`parsebuf, this`parsepos, this`log
      ensures Valid() && CursorOnList()
      ensures View() == Dropped(old(View()), p.first, p.second) && |buffers| <= |old(buffers)|
      ensures var e := old(View().Pos(p.first, p.second));
              && 0 <= e <= |old(Unread())|
              && r.Ptr? && r.data == Trimmed(old(Unread())[..e], sep, trimsep)
              && SplitsInto(old(Unread()), r.data, if trimsep then sep else [], Unread())
              && Unread() == old(Unread())[e..]
              && log.received == old(log.received) && log.scanned == old(log.scanned) + seen
              && log.frames == old(log.frames) + [old(Unread())[..e]]
      ensures Waiting() == old(Waiting())
      ensures Waiting() && old(0 <= readbuf < |buffers|) ==>
                0 <= readbuf < |buffers| && buffers[readbuf] == old(buffers[readbuf])
    {
      hide Allocated, Numbered, Consistent, Dropped, FirstEnd, Snapshot.Unread, Snapshot.Pos, SplitsInto;
      hide Snapshot.Shape, Snapshot.Hi, Snapshot.Lo, CutBehindFrame, Gone;
      CutStep(View(), p.first, p.second, seen, log, sep, bufsize, minbuf);
      TrimmedBack(Unread(), sep, trimsep, View().Pos(p.first, p.second));
      r := Remove(p);
      log := Log(log.received, log.frames + [r.data], log.scanned + seen);
      size := size - |r.data|;
      if trimsep && |r.data| >= |sep| {
        r := Resize(r, |r.data| - |sep|);
      }
    }

    /** Cuts the next frame off the front. */
    method Detach() returns (r: DataPtr)
      requires Valid() && (sep != [] ==> CursorOnList())
      modifies this`buffers, this`nextId, this`size, this`offset, this`readbuf
      modifies this`parsebuf, this`parsepos, this`log
      ensures Valid() && CursorOnList()
      ensures log.received == old(log.received)
      // With a separator.
      ensures sep != [] ==>
                (r.Null? <==> FirstEnd(old(Unread()), sep) == None)
      ensures sep != [] && r.Ptr? ==>
                var e := FirstEnd(old(Unread()), sep).value;
                && r.data == Trimmed(old(Unread())[..e], sep, trimsep)
                && Unread() == old(Unread())[e..]
                && log.frames == old(log.frames) + [old(Unread())[..e]]
      // Without one.
      ensures sep == [] ==> (r.Null? <==> old(Unread()) == [] || old(Skips()))
      ensures old(Skips()) <==> old(offset != 0 && parsebuf == 0 && offset == parsepos)
      ensures sep == [] && r.Ptr? ==>
                r.data == old(Unread()) && Unread() == [] && log.frames == old(log.frames) + [r.data]
      ensures sep == [] && r.Null? && Unread() != [] ==> !Skips()
      // Either way.
      ensures r.Ptr? ==>
                && |Unread()| < |old(Unread())|
                && var f := old(Unread())[..|old(Unread())| - |Unread()|];
                   && f != [] && old(Unread()) == f + Unread()
                   && r.data == Trimmed(f, sep, trimsep) && log.frames == old(log.frames) + [f]
                   && SplitsInto(old(Unread()), r.data, if trimsep then sep else [], Unread())
                   // The chunks and the cursor are those behind the end of the frame.
                   && CutBehindFrame(old(View()), View(), sep)
      ensures r.Null? ==>
                && Unread() == old(Unread()) && log.frames == old(log.frames)
                && View() == (if old(buffers) == [] then old(View()) else AtEnd(old(View())))
                && (old(buffers) == [] ==> log == old(log))
      ensures |buffers| <= |old(buffers)|
      ensures Waiting() == old(Waiting())
      ensures Waiting() && old(0 <= readbuf < |buffers|) ==>
                0 <= readbuf < |buffers| && buffers[readbuf] == old(buffers[readbuf]) && readpos == old(readpos)
      ensures forall p: Region :: old(InFlight(p)) ==> InFlight(p)
    {
      hide Allocated, Numbered, Consistent, FirstEnd, AtEnd, Dropped, Snapshot.Unread, Snapshot.Shape;
      hide CutBehindFrame, Snapshot.Pos, Snapshot.Bounded, Trimmed, SplitsInto;
      Essentials(View(), log, sep, bufsize, minbuf);
      if buffers == [] {
        NoChunks(View(), sep);
        return Null;
      }
      Ready(View(), log, sep, bufsize, minbuf);
      ghost var u := Unread();
      assert u[..|u|] == u && u[|u|..] == [];
      TrimNothing(u, trimsep);
      ghost var seen: nat;
      var res;
      res, seen := Search(View(), sep, bufsize, minbuf);
      if res == NOTHING {
        GiveUp(seen);
        return Null;
      }
      CutBehind(View(), res.first, res.second, sep);
      r := CutOff(res, seen);
    }
  }

  /** Number of chunks with nothing left after place `p`. */
  function Gone(ps: seq<DataPtr>, p: SearchPair): nat
    requires 0 <= p.first < |ps| && ps[p.first].Ptr?
  {
    if |ps[p.first].data| == p.second then p.first + 1 else p.first
  }

  /** The first chunk is handed out whole. */
  predicate Moves(ps: seq<DataPtr>, p: SearchPair) {
    p.first == 0 && ps != [] && ps[0].Ptr? && p.second == |ps[0].data|
  }
}
