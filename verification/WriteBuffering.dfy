/** The write buffer: messages are attached with their separator, small ones
    merged; next offers a bounded region and confirm takes what was sent of it. */
module WriteBuffering {
  import opened Framing
  import opened Chunks
  import opened WriteQueue

  datatype Options = Options(
    sep: seq<byte>,
    bufsize: nat,
    maxbuf: nat,
    minbuf: nat,
    maxsize: nat,
    firstAsIs: bool)

  /** What the options of a run have to do with the options asked for. */
  predicate Normalized(opt: Options, o: Options) {
    && o.sep == opt.sep && o.firstAsIs == opt.firstAsIs && o.maxsize == opt.maxsize
    && o.bufsize == (if opt.bufsize == 0 then 4096 else opt.bufsize)
    && 1 <= o.minbuf <= o.bufsize <= o.maxbuf
    && (o.maxbuf == opt.maxbuf || o.maxbuf == o.bufsize > opt.maxbuf)
    && var wanted := if opt.minbuf == 0 then 128 else opt.minbuf;
       o.minbuf == wanted || o.minbuf == o.bufsize < wanted
  }

  method Normalize(opt: Options) returns (o: Options)
    ensures Normalized(opt, o)
  {
    o := opt;
    if o.bufsize == 0 {
      o := o.(bufsize := 4096);
    }
    if o.minbuf == 0 {
      o := o.(minbuf := 128);
    }
    if o.minbuf > o.bufsize {
      o := o.(minbuf := o.bufsize);
    }
    if o.maxbuf < o.bufsize {
      o := o.(maxbuf := o.bufsize);
    }
  }

  /** Options left at zero: messages join a chunk of fewer than 128 bytes, and
      writes are of at most 4096. */
  lemma NormalizedZero(opt: Options, o: Options)
    requires Normalized(opt, o) && opt.bufsize == opt.maxbuf == opt.minbuf == 0
    ensures o.minbuf == 128 && o.bufsize == o.maxbuf == 4096
  {
  }

  /** Options that went through once do not change again. */
  lemma NormalizedAgain(opt: Options, o: Options, o': Options)
    requires Normalized(opt, o) && Normalized(o, o')
    ensures o' == o
  {
  }

  lemma SplitAt(w: seq<byte>, u: seq<byte>, n: nat)
    requires n <= |u|
    ensures (w + u[..n]) + u[n..] == w + u
  {
    assert u[..n] + u[n..] == u;
  }

  /** The history of a run: the messages attached, and the bytes sent. */
  datatype Log = Log(messages: seq<seq<byte>>, wire: seq<byte>)

  lemma SameFront(was: seq<DataPtr>, list: seq<DataPtr>)
    requires |was| <= |list| && (was != [] ==> list[..|was| - 1] == was[..|was| - 1])
    ensures forall i :: 0 <= i < |was| - 1 ==> list[i] == was[i]
  {
    forall i | 0 <= i < |was| - 1 ensures list[i] == was[i] {
      assert list[..|was| - 1][i] == was[..|was| - 1][i];
    }
  }

  class WriteBuffer {
    // Options.
    var sep: seq<byte>
    var bufsize: nat
    var maxbuf: nat
    var minbuf: nat
    var maxsize: nat
    var firstAsIs: bool

    // Bytes to be sent, bytes of the first chunk already sent, bytes offered.
    var size: nat
    var offset: nat
    var wait: nat
    var list: seq<DataPtr>

    ghost var log: Log
    // Where the messages of each chunk start.
    ghost var starts: seq<nat>

    /** The state as a value. */
    function View(): Queue
      requires NoNull(list)
      reads this
    {
      Queue(Datas(list), offset, wait)
    }

    ghost predicate Valid()
      reads this
    {
      && 1 <= minbuf <= bufsize <= maxbuf
      && NoNull(list) && View().Shape(minbuf, maxbuf)
      && size == |View().Pending()|
      && log.wire + View().Pending() == Flat(Terminated(log.messages, sep))
      && Grouped(View().cs, starts, log.messages, sep, minbuf, maxbuf)
    }

    /** The bytes still to be sent. */
    ghost function Pending(): seq<byte>
      requires Valid()
      reads this
    {
      View().Pending()
    }

    /** Everything attached so far, separators included. */
    ghost function Attached(): seq<byte>
      reads this
    {
      Flat(Terminated(log.messages, sep))
    }

    predicate Ready()
      reads this
    {
      wait == 0 && list != []
    }

    twostate predicate SameOptions()
      reads this
    {
      && sep == old(sep) && bufsize == old(bufsize) && maxbuf == old(maxbuf)
      && minbuf == old(minbuf) && maxsize == old(maxsize) && firstAsIs == old(firstAsIs)
    }

    predicate Empty()
      reads this
    {
      list == [] && size == 0 && offset == 0 && wait == 0
    }

    predicate Overflow()
      reads this
    {
      maxsize != 0 && size > maxsize
    }

    constructor ()
      ensures Empty()
    {
      sep, bufsize, maxbuf, minbuf, maxsize, firstAsIs := [], 0, 0, 0, 0, false;
      size, offset, wait, list := 0, 0, 0, [];
      log, starts := Log([], []), [0];
    }

    /** Fixes the options. On an empty buffer this starts a run; later it leaves
        the queue alone, and the run goes on if separator and sizes stay the
        same. */
    method SetOptions(opt: Options)
      modifies this`sep, this`bufsize, this`maxbuf, this`minbuf, this`maxsize, this`firstAsIs
      modifies this`log, this`starts
      ensures Normalized(opt, Options(sep, bufsize, maxbuf, minbuf, maxsize, firstAsIs))
      ensures old(Empty()) ==> Valid() && Empty() && log == Log([], [])
      ensures !old(Empty()) ==> log == old(log)
      ensures old(Valid()) && sep == old(sep) && minbuf == old(minbuf) && maxbuf == old(maxbuf) ==>
                Valid() && Pending() == old(Pending())
    {
      hide Queue.Shape, Queue.Pending, Flat, Terminated, Grouped;
      var o := Normalize(opt);
      sep, bufsize, maxbuf, minbuf := o.sep, o.bufsize, o.maxbuf, o.minbuf;
      maxsize, firstAsIs := o.maxsize, o.firstAsIs;
      if Empty() {
        Begin();
      }
    }

    ghost method Begin()
      requires Empty() && 1 <= minbuf <= bufsize <= maxbuf
      modifies this`log, this`starts
      ensures Valid() && log == Log([], [])
    {
      log, starts := Log([], []), [0];
    }

    method Clear()
      requires Valid()
      modifies this`size, this`offset, this`wait, this`list, this`log, this`starts
      ensures Valid() && Empty() && log == Log([], [])
    {
      size := 0;
      offset := 0;
      list := [];
      wait := 0;
      Begin();
    }

    /** The separator goes behind a message. */
    method AddSep(d: seq<byte>) returns (d': seq<byte>)
      modifies this`size
      ensures d' == d + sep && size == old(size) + |sep|
    {
      if |sep| == 0 {
        return d;
      }
      d' := d + sep;
      size := size + |sep|;
    }

    predicate Merges(d: seq<byte>)
      requires NoNull(list)
      reads this
    {
      list != [] && Joins(list[|list| - 1].data, d, sep, minbuf, maxbuf)
    }

    /** Queues a message: behind the last chunk if that is small, else in a chunk
        of its own. */
    method Attach(d: DataPtr)
      requires Valid()
      modifies this`size, this`list, this`log, this`starts
      ensures Valid()
      ensures d.Null? || (d.data == [] && sep == []) ==>
                list == old(list) && size == old(size) && log == old(log)
      ensures d.Ptr? && (d.data != [] || sep != []) ==>
                && Pending() == old(Pending()) + (d.data + sep)
                && size == old(size) + |d.data| + |sep|
                && log == Log(old(log.messages) + [d.data], old(log.wire))
                && View() == (if old(Merges(d.data)) then Merged(old(View()), d.data + sep)
                              else Pushed(old(View()), d.data + sep))
      // No chunk is added exactly when the last one is small and the sum too; the
      // message's own buffer is the new chunk otherwise.
      ensures d.Ptr? && (d.data != [] || sep != []) ==>
                && (|list| == |old(list)| <==>
                     && old(list) != []
                     && old(|list[|list| - 1].data|) < minbuf
                     && old(|list[|list| - 1].data|) + |d.data| + |sep| < maxbuf)
                && (|list| != |old(list)| ==>
                     && |list| == |old(list)| + 1 && list[|list| - 1].id == d.id
                     && list[|list| - 1].data == d.data + sep)
      // A chunk that is not the last, or not small, is never changed.
      ensures |old(list)| <= |list|
      ensures forall i :: 0 <= i < |old(list)| ==>
                i < |old(list)| - 1 || |old(list)[i].data| >= minbuf ==> list[i] == old(list)[i]
      ensures View().Offered() == old(View().Offered())
      ensures old(list) != [] ==> list != [] && list[0].id == old(list[0].id)
    {
      hide Queue.Shape, Queue.Pending, Queue.Offered, Queue.Sane, Flat, Terminated, Pushed, Merged, Grouped;
      if d.Null? || (d.data == [] && |sep| == 0) {
        return;
      }
      Enqueue(d);
      SameFront(old(list), list);
    }

    method Enqueue(d: DataPtr)
      requires Valid() && d.Ptr? && (d.data != [] || sep != [])
      modifies this`size, this`list, this`log, this`starts
      ensures Valid()
      ensures Pending() == old(Pending()) + (d.data + sep) && size == old(size) + |d.data| + |sep|
      ensures log == Log(old(log.messages) + [d.data], old(log.wire))
      ensures View() == (if old(Merges(d.data)) then Merged(old(View()), d.data + sep)
                         else Pushed(old(View()), d.data + sep))
      ensures if old(Merges(d.data)) then |list| == |old(list)| && list[..|list| - 1] == old(list)[..|list| - 1]
              else && |list| == |old(list)| + 1 && list[..|list| - 1] == old(list)
                   && list[|list| - 1].id == d.id && list[|list| - 1].data == d.data + sep
      ensures View().Offered() == old(View().Offered())
      ensures old(list) != [] ==> list != [] && list[0].id == old(list[0].id)
    {
      hide Queue.Shape, Queue.Pending, Queue.Offered, Queue.Sane, Flat, Terminated, Pushed, Merged;
      hide Grouped;
      ghost var q := View();
      size := size + |d.data|;
      if list == [] {
        Push(d);
      } else {
        var last := list[|list| - 1];
        var sumsize := |last.data| + |d.data| + |sep|;
        if |last.data| < minbuf && sumsize < maxbuf {
          Merge(d.data, sumsize);
        } else {
          Push(d);
        }
      }
      Assign(d.data, q);
      Record(d.data, q);
    }

    /** The message has joined the last chunk or has one of its own. */
    ghost method Assign(m: seq<byte>, q: Queue)
      requires NoNull(list) && Grouped(q.cs, starts, log.messages, sep, minbuf, maxbuf)
      requires View() == if q.cs != [] && Joins(q.cs[|q.cs| - 1], m, sep, minbuf, maxbuf)
                         then Merged(q, m + sep) else Pushed(q, m + sep)
      modifies this`starts
      ensures Grouped(View().cs, starts, log.messages + [m], sep, minbuf, maxbuf)
    {
      hide Joins, WriteQueue.Group;
      var n, k := |q.cs|, |log.messages| + 1;
      if n > 0 && Joins(q.cs[n - 1], m, sep, minbuf, maxbuf) {
        MergedGrouped(q.cs, starts, log.messages, m, sep, minbuf, maxbuf);
        starts := starts[n := k];
      } else {
        PushedGrouped(q.cs, starts, log.messages, m, sep, minbuf, maxbuf);
        starts := starts + [k];
      }
    }

    /** What both ways of queueing do: `more` bytes at the end. */
    twostate predicate Grown(more: seq<byte>)
      reads this
    {
      && old(NoNull(list) && View().Sane()) && NoNull(list) && View().Shape(minbuf, maxbuf)
      && View().Pending() == old(View().Pending()) + more
      && View().Offered() == old(View().Offered())
    }

    /** A chunk of its own. */
    method Push(d: DataPtr)
      requires d.Ptr? && d.data + sep != []
      requires NoNull(list) && View().Shape(minbuf, maxbuf) && !Merges(d.data)
      modifies this`size, this`list
      ensures Grown(d.data + sep) && View() == Pushed(old(View()), d.data + sep)
      ensures |list| == |old(list)| + 1 && list[..|list| - 1] == old(list)
      ensures list[|list| - 1].id == d.id && list[|list| - 1].data == d.data + sep
      ensures size == old(size) + |sep|
      ensures old(list) != [] ==> list != [] && list[0].id == old(list[0].id)
    {
      hide Queue.Shape, Queue.Pending, Queue.Offered, Flat;
      PushedKeeps(View(), d.data + sep, minbuf, maxbuf);
      var data := AddSep(d.data);
      list := list + [Ptr(d.id, data, if d.cap < |data| then |data| else d.cap)];
      assert Datas(list) == Pushed(old(View()), data).cs;
    }

    /** The bytes go behind those of the last chunk, which grows as needed. */
    method Merge(d: seq<byte>, sumsize: nat)
      requires NoNull(list) && View().Shape(minbuf, maxbuf)
      requires list != [] && sumsize == |list[|list| - 1].data| + |d| + |sep|
      modifies this`size, this`list
      ensures Grown(d + sep) && View() == Merged(old(View()), d + sep)
      ensures |list| == |old(list)| && list[..|list| - 1] == old(list)[..|list| - 1]
      ensures size == old(size) + |sep|
      ensures old(list) != [] ==> list != [] && list[0].id == old(list[0].id)
    {
      hide Queue.Shape, Queue.Pending, Queue.Offered, Flat;
      MergedKeeps(View(), d + sep, minbuf, maxbuf);
      var last := list[|list| - 1];
      var data := AddSep(last.data + d);
      Assoc(last.data, d, sep);
      list := list[|list| - 1 := Ptr(last.id, data, if last.cap < sumsize then sumsize else last.cap)];
      assert Datas(list) == Merged(old(View()), d + sep).cs;
    }

    ghost method Record(m: seq<byte>, q: Queue)
      requires q.Sane() && log.wire + q.Pending() == Attached()
      requires NoNull(list) && View().Sane() && View().Pending() == q.Pending() + (m + sep)
      modifies this`log
      ensures log == Log(old(log.messages) + [m], old(log.wire))
      ensures log.wire + View().Pending() == Attached()
    {
      hide Flat, Terminated, Queue.Pending;
      Assoc(log.wire, q.Pending(), m + sep);
      TerminatedAppend(log.messages, m, sep);
      log := Log(log.messages + [m], log.wire);
    }

    /** Offers the next bytes to send. */
    method Next() returns (r: Region)
      requires Valid()
      modifies this`wait
      ensures Valid() && Pending() == old(Pending())
      ensures !old(Ready()) ==> r == NoRegion && wait == old(wait)
      ensures old(Ready()) <==> old(wait) == 0 && list != []
      // At most the upper limit, unless an untouched chunk may go as it is; and
      // never less than that allows.
      ensures old(Ready()) ==>
                && r.Region? && (r.len <= maxbuf || (firstAsIs && offset == 0))
                && (r.len >= maxbuf || r.len == |list[0].data| - offset)
                && (firstAsIs && offset == 0 ==> r.len == |list[0].data|)
      ensures old(Ready()) ==>
                && r == Region(list[0].id, offset, CurSize(View(), maxbuf, firstAsIs))
                && 0 < r.len == wait <= |Pending()|
                && View().Offered() == Pending()[..r.len]
    {
      if !Ready() {
        return NoRegion;
      }
      var s := CurSizeOf();
      var p := list[0].id;
      wait := s;
      PendingHead(View());
      return Region(p, offset, s);
    }

    method CurSizeOf() returns (cursize: nat)
      requires Valid() && list != []
      ensures cursize == CurSize(View(), maxbuf, firstAsIs)
      ensures 0 < cursize <= |list[0].data| - offset
      ensures cursize <= maxbuf || (firstAsIs && offset == 0)
      ensures cursize >= maxbuf || cursize == |list[0].data| - offset
      ensures firstAsIs && offset == 0 ==> cursize == |list[0].data|
    {
      cursize := |list[0].data| - offset;
      var asIs := firstAsIs && offset == 0;
      if !asIs && cursize > maxbuf {
        cursize := maxbuf;
      }
    }

    /** The first `len` pending bytes are sent. The source checks `len` only
        against all that is pending; a length beyond the first chunk is accepted
        and breaks the queue. */
    method Confirm(len: nat) returns (ok: bool)
      requires Valid()
      modifies this`size, this`offset, this`wait, this`list, this`log, this`starts
      ensures NoNull(list)
      ensures ok <==> old(wait) != 0 && len <= old(size)
      ensures !ok ==> View() == old(View()) && size == old(size) && list == old(list) && log == old(log)
      ensures Valid() <==> !ok || len <= old(|list[0].data| - offset)
      ensures ok ==>
                && wait == 0 && View() == Sent(old(View()), len)
                && log == old(log).(wire := old(log.wire) + old(Pending())[..len])
      ensures ok && Valid() ==> Pending() == old(Pending())[len..]
    {
      hide Queue.Shape, Queue.Pending, Flat, Terminated, Grouped;
      if wait == 0 || size < len {
        return false;
      }
      ghost var q, u := View(), Pending();
      if len <= |q.cs[0]| - q.offset {
        SentKeeps(q, len, minbuf, maxbuf);
      }
      if offset + len == |q.cs[0]| {
        SentGrouped(q.cs, starts, log.messages, sep, minbuf, maxbuf);
        starts := starts[1..];
      }
      wait := 0;
      offset := offset + len;
      size := size - len;
      if offset == |list[0].data| {
        offset := 0;
        list := list[1..];
        Rebuild();
      }
      assert Datas(list) == Sent(q, len).cs;
      assert View() == Sent(q, len);
      SplitAt(log.wire, u, len);
      log := log.(wire := log.wire + u[..len]);
      return true;
    }

    /** Moves the chunks to a list without spare room and back, leaving null
        behind on the way. */
    method Rebuild()
      modifies this`list
      ensures list == old(list)
    {
      var n := |list|;
      var tmp := seq(n, _ => Null);
      for i := 0 to n
        invariant |tmp| == |list| == n
        invariant forall k :: 0 <= k < i ==> tmp[k] == old(list)[k]
        invariant forall k :: i <= k < n ==> list[k] == old(list)[k]
      {
        tmp := tmp[i := list[i]];
        list := list[i := Null];
      }
      list := seq(n, _ => Null);
      for i := 0 to n
        invariant |tmp| == |list| == n
        invariant forall k :: 0 <= k < i ==> list[k] == old(list)[k]
        invariant forall k :: i <= k < n ==> tmp[k] == old(list)[k]
      {
        list := list[i := tmp[i]];
        tmp := tmp[i := Null];
      }
    }

    /** As written, this changes nothing: a region offered stays offered. */
    method Rollback()
      requires Valid()
      modifies this`wait
      ensures Valid() && wait == old(wait)
    {
      if wait != 0 {
        return;
      }
      wait := 0;
    }
  }

  /** The bytes on their way are the first pending ones. */
  lemma PieceIsPending(b: WriteBuffer, k: nat)
    requires b.Valid() && b.list != [] && k <= b.wait
    ensures k <= |b.list[0].data| - b.offset && k <= |b.Pending()| == b.size
    ensures k <= |b.View().Offered()|
    ensures b.list[0].data[b.offset..b.offset + k] == b.Pending()[..k] == b.View().Offered()[..k]
  {
    var d := b.list[0].data;
    PendingHead(b.View());
    assert b.Pending()[..b.wait][..k] == b.Pending()[..k];
    assert d[b.offset..b.offset + b.wait][..k] == d[b.offset..b.offset + k];
  }

  /** Bytes are pending if and only if there is a chunk. */
  lemma PendingNonEmpty(b: WriteBuffer)
    requires b.Valid()
    ensures b.Pending() != [] <==> b.list != []
  {
    if b.list != [] {
      PendingHead(b.View());
    }
  }
}
