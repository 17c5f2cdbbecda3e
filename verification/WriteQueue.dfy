/** The output queue on values: a list of byte strings, the first of which may
    be partly sent and partly on its way. */
module WriteQueue {
  import opened Framing

  datatype Queue = Queue(cs: seq<seq<byte>>, offset: nat, wait: nat) {

    /** Holds of the queue between calls: no empty chunk, something left to send
        of the first one, and at most that on its way. Two neighbours would have
        been merged if that had been allowed. */
    ghost predicate Shape(minbuf: nat, maxbuf: nat): (ok: bool)
      ensures ok ==> Sane()
    {
      && Sane()
      && (forall i :: 0 <= i < |cs| ==> cs[i] != [])
      && (forall i {:trigger cs[i]} :: 0 <= i < |cs| - 1 ==> Unmergeable(cs[i], cs[i + 1], minbuf, maxbuf))
    }

    ghost predicate Sane() {
      && (cs == [] ==> offset == 0 && wait == 0)
      && (cs != [] ==> offset < |cs[0]| && offset + wait <= |cs[0]|)
    }

    static predicate Unmergeable(a: seq<byte>, b: seq<byte>, minbuf: nat, maxbuf: nat) {
      |a| >= minbuf || |a| + |b| >= maxbuf
    }

    /** The abstraction: the bytes still to be sent. */
    ghost function Pending(): seq<byte>
      requires Sane()
    {
      if cs == [] then [] else cs[0][offset..] + Flat(cs[1..])
    }

    /** The bytes on their way. */
    ghost function Offered(): seq<byte>
      requires Sane()
    {
      if cs == [] then [] else cs[0][offset..offset + wait]
    }
  }

  lemma PendingIsFlat(q: Queue)
    requires q.Sane()
    ensures q.offset <= |Flat(q.cs)|
    ensures |q.Pending()| == |Flat(q.cs)| - q.offset
  {
    if q.cs != [] {
      FlatCons(q.cs, []);
      assert Flat(q.cs) + [] == Flat(q.cs);
    }
  }

  lemma PendingHead(q: Queue)
    requires q.Sane() && q.cs != []
    ensures |q.cs[0]| - q.offset <= |q.Pending()|
    ensures q.Pending()[..q.wait] == q.Offered()
  {
    var c := q.cs[0];
    assert c[q.offset..q.offset + q.wait] == c[q.offset..][..q.wait];
  }

  // ---- Attach ----

  /** A chunk of its own at the end. */
  ghost function Pushed(q: Queue, d: seq<byte>): Queue {
    q.(cs := q.cs + [d])
  }

  lemma PushedKeeps(q: Queue, d: seq<byte>, minbuf: nat, maxbuf: nat)
    requires q.Shape(minbuf, maxbuf) && d != []
    requires q.cs != [] ==> Queue.Unmergeable(q.cs[|q.cs| - 1], d, minbuf, maxbuf)
    ensures Pushed(q, d).Shape(minbuf, maxbuf)
    ensures Pushed(q, d).Pending() == q.Pending() + d
    ensures Pushed(q, d).Offered() == q.Offered()
  {
    var t := Pushed(q, d);
    if q.cs == [] {
      assert t.cs == [d] && t.cs[1..] == [] && d[0..] == d;
    } else {
      assert t.cs[1..] == q.cs[1..] + [d];
      FlatAppend(q.cs[1..], [d]);
      FlatOne(d);
      PushedUnmergeable(q, d, minbuf, maxbuf);
    }
  }

  lemma PushedUnmergeable(q: Queue, d: seq<byte>, minbuf: nat, maxbuf: nat)
    requires q.Shape(minbuf, maxbuf) && q.cs != []
    requires Queue.Unmergeable(q.cs[|q.cs| - 1], d, minbuf, maxbuf)
    ensures forall i :: 0 <= i < |q.cs| ==>
              Queue.Unmergeable((q.cs + [d])[i], (q.cs + [d])[i + 1], minbuf, maxbuf)
  {
    forall i | 0 <= i < |q.cs|
      ensures Queue.Unmergeable((q.cs + [d])[i], (q.cs + [d])[i + 1], minbuf, maxbuf)
    {
      if i < |q.cs| - 1 {
        assert (q.cs + [d])[i] == q.cs[i];
      }
    }
  }

  /** More bytes in the last chunk. */
  ghost function Merged(q: Queue, d: seq<byte>): Queue
    requires q.cs != []
  {
    q.(cs := q.cs[|q.cs| - 1 := q.cs[|q.cs| - 1] + d])
  }

  lemma MergedKeeps(q: Queue, d: seq<byte>, minbuf: nat, maxbuf: nat)
    requires q.Shape(minbuf, maxbuf) && q.cs != []
    ensures Merged(q, d).Shape(minbuf, maxbuf)
    ensures Merged(q, d).Pending() == q.Pending() + d
    ensures Merged(q, d).Offered() == q.Offered()
  {
    var t, n := Merged(q, d), |q.cs|;
    MergedBytes(q, d);
    forall i | 0 <= i < n - 1 ensures Queue.Unmergeable(t.cs[i], t.cs[i + 1], minbuf, maxbuf) {
      assert t.cs[i] == q.cs[i];
    }
  }

  lemma MergedBytes(q: Queue, d: seq<byte>)
    requires q.Sane() && q.cs != []
    ensures Merged(q, d).Sane()
    ensures Merged(q, d).Pending() == q.Pending() + d
    ensures Merged(q, d).Offered() == q.Offered()
  {
    var t, n := Merged(q, d), |q.cs|;
    if n == 1 {
      assert q.cs[1..] == [] == t.cs[1..];
      assert (q.cs[0] + d)[q.offset..] == q.cs[0][q.offset..] + d;
    } else {
      var rest := q.cs[1..];
      assert t.cs[1..] == rest[|rest| - 1 := rest[|rest| - 1] + d];
      FlatGrown(rest, d);
    }
  }

  // ---- Confirm ----

  /** `n` more bytes of the first chunk are sent; a chunk sent whole goes. */
  ghost function Sent(q: Queue, n: nat): Queue
    requires q.cs != []
  {
    if q.offset + n == |q.cs[0]| then Queue(q.cs[1..], 0, 0) else Queue(q.cs, q.offset + n, 0)
  }

  lemma SentKeeps(q: Queue, n: nat, minbuf: nat, maxbuf: nat)
    requires q.Shape(minbuf, maxbuf) && q.cs != [] && n <= |q.cs[0]| - q.offset
    ensures Sent(q, n).Shape(minbuf, maxbuf)
    ensures n <= |q.Pending()| && Sent(q, n).Pending() == q.Pending()[n..]
  {
    SentBytes(q, n);
    if q.offset + n == |q.cs[0]| {
      var rest := q.cs[1..];
      forall i | 0 <= i < |rest| - 1 ensures Queue.Unmergeable(rest[i], rest[i + 1], minbuf, maxbuf) {
        assert rest[i] == q.cs[i + 1];
      }
      assert rest != [] ==> rest[0] != [];
    }
  }

  lemma SentBytes(q: Queue, n: nat)
    requires q.Sane() && q.cs != [] && n <= |q.cs[0]| - q.offset
    requires |q.cs| > 1 ==> q.cs[1] != []
    ensures Sent(q, n).Sane()
    ensures n <= |q.Pending()| && Sent(q, n).Pending() == q.Pending()[n..]
  {
    var c, rest := q.cs[0], q.cs[1..];
    DropOfConcat(c[q.offset..], Flat(rest), n);
    assert c[q.offset..][n..] == c[q.offset + n..];
    if q.offset + n == |c| {
      assert c[q.offset + n..] == [];
      if rest != [] {
        FlatCons(rest, []);
        assert rest[0][0..] == rest[0];
        assert Flat(rest) + [] == Flat(rest) && Flat(rest[1..]) + [] == Flat(rest[1..]);
      }
    }
  }

  lemma DropOfConcat(a: seq<byte>, b: seq<byte>, n: nat)
    requires n <= |a|
    ensures (a + b)[n..] == a[n..] + b
  {
  }

  /** Confirming more than is left of the first chunk breaks the queue, and
      nothing else does: the source checks the number only against the total. */
  lemma SentWithinChunk(q: Queue, n: nat, minbuf: nat, maxbuf: nat)
    requires q.Shape(minbuf, maxbuf) && q.cs != []
    ensures Sent(q, n).Shape(minbuf, maxbuf) <==> n <= |q.cs[0]| - q.offset
  {
    if n <= |q.cs[0]| - q.offset {
      SentKeeps(q, n, minbuf, maxbuf);
    }
  }

  // ---- Messages in chunks ----

  /** The messages from `a` on, before `b`, as they are sent. */
  function Packed(ms: seq<seq<byte>>, sep: seq<byte>, a: nat, b: nat): seq<byte>
    requires a <= b <= |ms|
  {
    Flat(Terminated(ms[a..b], sep))
  }

  lemma PackedMore(ms: seq<seq<byte>>, m: seq<byte>, sep: seq<byte>, a: nat)
    requires a <= |ms|
    ensures forall b :: a <= b <= |ms| ==> Packed(ms + [m], sep, a, b) == Packed(ms, sep, a, b)
    ensures Packed(ms + [m], sep, a, |ms| + 1) == Packed(ms, sep, a, |ms|) + (m + sep)
    ensures a == |ms| ==> Packed(ms + [m], sep, a, |ms| + 1) == m + sep
  {
    assert forall b :: a <= b <= |ms| ==> (ms + [m])[a..b] == ms[a..b];
    assert (ms + [m])[a..|ms| + 1] == ms[a..] + [m] && ms[a..|ms|] == ms[a..];
    TerminatedAppend(ms[a..], m, sep);
  }

  /** A message may join the chunk before it. */
  predicate Joins(c: seq<byte>, m: seq<byte>, sep: seq<byte>, minbuf: nat, maxbuf: nat) {
    |c| < minbuf && |c| + |m| + |sep| < maxbuf
  }

  /** Chunk `c` holds the messages from `a` on, before `b`, whole. The last of
      several could join those before it, and the one behind could not. */
  predicate Group(c: seq<byte>, ms: seq<seq<byte>>, sep: seq<byte>, a: nat, b: nat, minbuf: nat, maxbuf: nat) {
    && a < b <= |ms|
    && c == Packed(ms, sep, a, b)
    && (a + 1 < b ==> Joins(Packed(ms, sep, a, b - 1), ms[b - 1], sep, minbuf, maxbuf))
    && (b < |ms| ==> !Joins(c, ms[b], sep, minbuf, maxbuf))
  }

  /** Where the messages of each chunk start: each chunk holds some, and they end
      with the last one attached. */
  ghost predicate Grouped(cs: seq<seq<byte>>, starts: seq<nat>, ms: seq<seq<byte>>, sep: seq<byte>,
                          minbuf: nat, maxbuf: nat)
  {
    && |starts| == |cs| + 1 && starts[|cs|] == |ms|
    && forall i :: 0 <= i < |cs| ==> Group(cs[i], ms, sep, starts[i], starts[i + 1], minbuf, maxbuf)
  }

  lemma GroupLonger(c: seq<byte>, ms: seq<seq<byte>>, m: seq<byte>, sep: seq<byte>, a: nat, b: nat,
                    minbuf: nat, maxbuf: nat)
    requires Group(c, ms, sep, a, b, minbuf, maxbuf)
    requires b == |ms| ==> !Joins(c, m, sep, minbuf, maxbuf)
    ensures Group(c, ms + [m], sep, a, b, minbuf, maxbuf)
  {
    hide Packed;
    PackedMore(ms, m, sep, a);
  }

  /** All chunks but the last end before the last message. */
  lemma StartsBelow(cs: seq<seq<byte>>, starts: seq<nat>, ms: seq<seq<byte>>, sep: seq<byte>,
                    minbuf: nat, maxbuf: nat, i: nat)
    requires Grouped(cs, starts, ms, sep, minbuf, maxbuf) && i < |cs| - 1
    ensures starts[i + 1] < |ms|
  {
    assert Group(cs[i + 1], ms, sep, starts[i + 1], starts[i + 2], minbuf, maxbuf);
  }

  lemma PushedGrouped(cs: seq<seq<byte>>, starts: seq<nat>, ms: seq<seq<byte>>, m: seq<byte>, sep: seq<byte>,
                      minbuf: nat, maxbuf: nat)
    requires Grouped(cs, starts, ms, sep, minbuf, maxbuf)
    requires cs != [] ==> !Joins(cs[|cs| - 1], m, sep, minbuf, maxbuf)
    ensures Grouped(cs + [m + sep], starts + [|ms| + 1], ms + [m], sep, minbuf, maxbuf)
  {
    hide Packed, Joins;
    var cs', starts', ms' := cs + [m + sep], starts + [|ms| + 1], ms + [m];
    PackedMore(ms, m, sep, |ms|);
    forall i | 0 <= i < |cs'| ensures Group(cs'[i], ms', sep, starts'[i], starts'[i + 1], minbuf, maxbuf) {
      if i < |cs| {
        if i < |cs| - 1 {
          StartsBelow(cs, starts, ms, sep, minbuf, maxbuf, i);
        }
        GroupLonger(cs[i], ms, m, sep, starts[i], starts[i + 1], minbuf, maxbuf);
      }
    }
  }

  lemma MergedGrouped(cs: seq<seq<byte>>, starts: seq<nat>, ms: seq<seq<byte>>, m: seq<byte>, sep: seq<byte>,
                      minbuf: nat, maxbuf: nat)
    requires Grouped(cs, starts, ms, sep, minbuf, maxbuf)
    requires cs != [] && Joins(cs[|cs| - 1], m, sep, minbuf, maxbuf)
    ensures Grouped(cs[|cs| - 1 := cs[|cs| - 1] + (m + sep)], starts[|cs| := |ms| + 1], ms + [m], sep, minbuf, maxbuf)
  {
    hide Packed, Joins;
    var n := |cs| - 1;
    var cs', starts', ms' := cs[n := cs[n] + (m + sep)], starts[n + 1 := |ms| + 1], ms + [m];
    PackedMore(ms, m, sep, starts[n]);
    assert Group(cs[n], ms, sep, starts[n], starts[n + 1], minbuf, maxbuf);
    forall i | 0 <= i < |cs'| ensures Group(cs'[i], ms', sep, starts'[i], starts'[i + 1], minbuf, maxbuf) {
      if i < n {
        StartsBelow(cs, starts, ms, sep, minbuf, maxbuf, i);
        GroupLonger(cs[i], ms, m, sep, starts[i], starts[i + 1], minbuf, maxbuf);
      }
    }
  }

  lemma SentGrouped(cs: seq<seq<byte>>, starts: seq<nat>, ms: seq<seq<byte>>, sep: seq<byte>,
                    minbuf: nat, maxbuf: nat)
    requires Grouped(cs, starts, ms, sep, minbuf, maxbuf) && cs != []
    ensures |starts| == |cs| + 1
    ensures Grouped(cs[1..], starts[1..], ms, sep, minbuf, maxbuf)
  {
    var cs', starts' := cs[1..], starts[1..];
    forall i | 0 <= i < |cs'| ensures Group(cs'[i], ms, sep, starts'[i], starts'[i + 1], minbuf, maxbuf) {
      assert Group(cs[i + 1], ms, sep, starts[i + 1], starts[i + 2], minbuf, maxbuf);
    }
  }

  lemma PackedSplit(ms: seq<seq<byte>>, sep: seq<byte>, a: nat, b: nat, c: nat)
    requires a <= b <= c <= |ms|
    ensures Packed(ms, sep, a, c) == Packed(ms, sep, a, b) + Packed(ms, sep, b, c)
    ensures c == b + 1 ==> Packed(ms, sep, b, c) == ms[b] + sep
  {
    assert Terminated(ms[a..c], sep) == Terminated(ms[a..b], sep) + Terminated(ms[b..c], sep);
    FlatAppend(Terminated(ms[a..b], sep), Terminated(ms[b..c], sep));
    if c == b + 1 {
      assert Terminated(ms[b..c], sep) == [ms[b] + sep];
      FlatOne(ms[b] + sep);
    }
  }

  /** A chunk does not end before all messages that may join it have. */
  lemma GroupNotShorter(ms: seq<seq<byte>>, sep: seq<byte>, a: nat, c: seq<byte>, b: nat, c': seq<byte>, b': nat,
                        minbuf: nat, maxbuf: nat)
    requires Group(c, ms, sep, a, b, minbuf, maxbuf) && Group(c', ms, sep, a, b', minbuf, maxbuf)
    ensures b' <= b
  {
    hide Packed;
    if b < b' {
      PackedSplit(ms, sep, a, b, b' - 1);
      PackedSplit(ms, sep, a, b, b + 1);
      PackedSplit(ms, sep, a, b + 1, b');
      PackedSplit(ms, sep, a, b' - 1, b');
    }
  }

  /** How messages are put into chunks depends on nothing but the messages and
      where the first chunk starts. */
  lemma {:induction false} GroupedUnique(cs: seq<seq<byte>>, starts: seq<nat>, cs': seq<seq<byte>>, starts': seq<nat>,
                                         ms: seq<seq<byte>>, sep: seq<byte>, minbuf: nat, maxbuf: nat)
    requires Grouped(cs, starts, ms, sep, minbuf, maxbuf) && Grouped(cs', starts', ms, sep, minbuf, maxbuf)
    requires starts[0] == starts'[0]
    ensures cs == cs' && starts == starts'
  {
    assert cs != [] ==> Group(cs[0], ms, sep, starts[0], starts[1], minbuf, maxbuf);
    assert cs' != [] ==> Group(cs'[0], ms, sep, starts'[0], starts'[1], minbuf, maxbuf);
    if cs != [] {
      GroupNotShorter(ms, sep, starts[0], cs[0], starts[1], cs'[0], starts'[1], minbuf, maxbuf);
      GroupNotShorter(ms, sep, starts[0], cs'[0], starts'[1], cs[0], starts[1], minbuf, maxbuf);
      SentGrouped(cs, starts, ms, sep, minbuf, maxbuf);
      SentGrouped(cs', starts', ms, sep, minbuf, maxbuf);
      GroupedUnique(cs[1..], starts[1..], cs'[1..], starts'[1..], ms, sep, minbuf, maxbuf);
      assert cs == [cs[0]] + cs[1..] && cs' == [cs'[0]] + cs'[1..];
      assert starts == [starts[0]] + starts[1..] && starts' == [starts'[0]] + starts'[1..];
    }
  }

  /** All chunks together are the messages from the first start on. */
  lemma {:induction false} GroupedFlat(cs: seq<seq<byte>>, starts: seq<nat>, ms: seq<seq<byte>>, sep: seq<byte>,
                                       minbuf: nat, maxbuf: nat)
    requires Grouped(cs, starts, ms, sep, minbuf, maxbuf)
    ensures starts[0] <= |ms| && Flat(cs) == Packed(ms, sep, starts[0], |ms|)
  {
    if cs == [] {
      assert ms[|ms|..|ms|] == [] && Terminated([], sep) == [];
    } else {
      SentGrouped(cs, starts, ms, sep, minbuf, maxbuf);
      GroupedFlat(cs[1..], starts[1..], ms, sep, minbuf, maxbuf);
      PackedSplit(ms, sep, starts[0], starts[1], |ms|);
    }
  }

  // ---- Bounds ----

  lemma FlatTwo(cs: seq<seq<byte>>)
    requires |cs| >= 2
    ensures |Flat(cs)| == |cs[0]| + |cs[1]| + |Flat(cs[2..])|
  {
    FlatCons(cs, []);
    FlatCons(cs[1..], []);
    assert cs[1..][1..] == cs[2..];
  }

  lemma TwoMore(n: nat, m: nat)
    ensures (n + 2) * m == n * m + 2 * m
  {
  }

  /** Merging bounds the number of chunks by the number of bytes. */
  lemma {:induction false} CountBound(cs: seq<seq<byte>>, minbuf: nat, maxbuf: nat)
    requires minbuf <= maxbuf
    requires forall i {:trigger cs[i]} :: 0 <= i < |cs| - 1 ==> Queue.Unmergeable(cs[i], cs[i + 1], minbuf, maxbuf)
    ensures |cs| * minbuf <= 2 * |Flat(cs)| + minbuf
    decreases |cs|
  {
    if |cs| >= 2 {
      var rest := cs[2..];
      forall i | 0 <= i < |rest| - 1 ensures Queue.Unmergeable(rest[i], rest[i + 1], minbuf, maxbuf) {
        assert rest[i] == cs[i + 2];
      }
      CountBound(rest, minbuf, maxbuf);
      FlatTwo(cs);
      assert Queue.Unmergeable(cs[0], cs[1], minbuf, maxbuf);
      TwoMore(|rest|, minbuf);
    }
  }

  /** Size of the next write: what is left of the first chunk, cut to the upper
      limit unless an untouched chunk may go as it is. */
  ghost function CurSize(q: Queue, maxbuf: nat, asIs: bool): nat
    requires q.Sane() && q.cs != []
  {
    var left := |q.cs[0]| - q.offset;
    if !(asIs && q.offset == 0) && left > maxbuf then maxbuf else left
  }

  /** Rounded-up quotient. */
  function Ceil(n: nat, m: nat): nat
    requires m > 0
  {
    (n + m - 1) / m
  }

  lemma CeilStep(n: nat, m: nat)
    requires m > 0 && n > 0
    ensures n <= m ==> Ceil(n, m) == 1
    ensures n > m ==> Ceil(n, m) == Ceil(n - m, m) + 1
  {
    if n <= m {
      assert n + m - 1 == m + (n - 1) && 0 <= n - 1 < m;
      DivUnique(n + m - 1, m, 1, n - 1);
    } else {
      var k, r := (n - m + m - 1) / m, (n - m + m - 1) % m;
      assert n + m - 1 == (k + 1) * m + r;
      DivUnique(n + m - 1, m, k + 1, r);
    }
  }

  lemma DivUnique(a: nat, m: nat, k: nat, r: nat)
    requires m > 0 && a == k * m + r && r < m
    ensures a / m == k
  {
    assert a == (a / m) * m + a % m;
    Multiples(a / m, k, m);
  }

  lemma Multiples(d: int, k: int, m: nat)
    ensures d > k ==> d * m >= k * m + m
    ensures d < k ==> k * m >= d * m + m
  {
    if d > k {
      Multiple(d - k, m);
      assert d * m == k * m + (d - k) * m;
    } else if d < k {
      Multiple(k - d, m);
      assert k * m == d * m + (k - d) * m;
    }
  }

  lemma {:induction false} Multiple(e: int, m: nat)
    requires e >= 1
    ensures e * m >= m
    decreases e
  {
    if e > 1 {
      Multiple(e - 1, m);
      assert e * m == (e - 1) * m + m;
    }
  }

  /** Number of full writes that empty the queue: an untouched chunk takes one,
      or one for each piece of at most `maxbuf` bytes; so does the rest of a
      partly sent one. */
  ghost function Writes(cs: seq<seq<byte>>, offset: nat, maxbuf: nat, asIs: bool): nat
    requires maxbuf > 0 && (cs != [] ==> offset <= |cs[0]|)
  {
    if cs == [] then 0
    else (if asIs && offset == 0 then 1 else Ceil(|cs[0]| - offset, maxbuf)) + Writes(cs[1..], 0, maxbuf, asIs)
  }

  /** Each full write brings the end one write closer. */
  lemma WritesStep(q: Queue, minbuf: nat, maxbuf: nat, asIs: bool)
    requires q.Shape(minbuf, maxbuf) && q.cs != [] && maxbuf > 0
    ensures var t := Sent(q, CurSize(q, maxbuf, asIs));
            && t.Sane()
            && Writes(q.cs, q.offset, maxbuf, asIs) == Writes(t.cs, t.offset, maxbuf, asIs) + 1
  {
    CeilStep(|q.cs[0]| - q.offset, maxbuf);
    SentKeeps(q, CurSize(q, maxbuf, asIs), minbuf, maxbuf);
  }

  /** What a queue of untouched chunks costs: one write each. */
  lemma {:induction false} WritesAsIs(cs: seq<seq<byte>>, maxbuf: nat)
    requires maxbuf > 0
    ensures Writes(cs, 0, maxbuf, true) == |cs|
  {
    if cs != [] {
      WritesAsIs(cs[1..], maxbuf);
    }
  }
}
