/** The positions inside a read buffer, on plain values: which bytes of the
    chunks are unread, and how a place in a chunk maps to a place in the flat
    unread bytes. */
module Snapshots {
  import opened Framing

  /** Stands for the all-ones index: no read in flight. */
  const NPOS: int := -1

  datatype Snapshot = Snapshot(
    datas: seq<seq<byte>>,
    offset: nat,
    readbuf: int,
    readpos: int,
    parsebuf: nat,
    parsepos: nat)
  {
    /** First unread byte of chunk `i`. */
    function Lo(i: nat): nat {
      if i == 0 then offset else 0
    }

    /** End of the received bytes of chunk `i`: the tail of a chunk that is
        being read into is not data yet. */
    function Hi(i: nat): int
      requires i < |datas|
    {
      if i == readbuf then readpos else |datas[i]|
    }

    predicate Bounded() {
      forall i :: 0 <= i < |datas| ==> Lo(i) <= Hi(i) <= |datas[i]|
    }

    function Part(i: nat): seq<byte>
      requires Bounded() && i < |datas|
    {
      if Lo(i) == 0 then datas[i][..Hi(i)] else datas[i][Lo(i)..Hi(i)]
    }

    function Parts(): (r: seq<seq<byte>>)
      requires Bounded()
      ensures |r| == |datas|
      ensures forall i :: 0 <= i < |datas| ==> r[i] == Part(i)
    {
      seq(|datas|, i requires 0 <= i < |datas| && Bounded() => Part(i))
    }

    /** The abstraction: all received bytes not yet detached. */
    function Unread(): seq<byte>
      requires Bounded()
    {
      Flat(Parts())
    }

    /** Number of unread bytes in the chunks before chunk `i`. */
    function Before(i: nat): int
      requires Bounded() && i <= |datas|
    {
      if i == 0 then 0 else Before(i - 1) + Hi(i - 1) - Lo(i - 1)
    }

    /** Flat position of place `j` in chunk `i`. */
    function Pos(i: nat, j: nat): int
      requires Bounded() && i <= |datas|
    {
      Before(i) + j - Lo(i)
    }

    /** `j` is a place between bytes, or an end, of chunk `i`. */
    predicate Place(i: int, j: int) {
      0 <= i < |datas| && Lo(i) <= j <= Hi(i)
    }

    /** Place `j` of chunk `i` holds an unread byte. */
    predicate ByteAt(i: int, j: int) {
      Place(i, j) && j < Hi(i)
    }

    function CurPos(): int
      requires Bounded() && parsebuf <= |datas|
    {
      Pos(parsebuf, parsepos)
    }

    /** With no separator, a cursor left on the start of the unread bytes hides
        them once. */
    predicate Skips() {
      offset != 0 && parsebuf == 0 && offset == parsepos
    }

    /** A chunk of `size` bytes would be extended by the next read. */
    static predicate Roomy(size: int, bufsize: nat, minbuf: nat) {
      minbuf != 0 && bufsize - size > minbuf
    }

    /** Number of chunks once the next region has been offered. */
    function CountNext(bufsize: nat, minbuf: nat): nat {
      if datas != [] && Roomy(|datas[|datas| - 1]|, bufsize, minbuf) then |datas| else |datas| + 1
    }

    /** Everything that holds of the chunk list and the two cursors between
        calls. */
    predicate Shape(bufsize: nat, minbuf: nat): (ok: bool)
      ensures ok ==> Bounded() && parsebuf <= |datas|
    {
      var n := |datas|;
      && 0 < bufsize
      && (n == 0 ==> offset == 0 && readbuf == NPOS && parsebuf == 0 && parsepos == 0)
      // The chunk being read into is the last one and has room for a byte.
      && (readbuf == NPOS <==> readpos == NPOS)
      && (readbuf != NPOS ==> n > 0 && readbuf == n - 1 && 0 <= readpos < |datas[n - 1]|)
      && (readbuf != NPOS && readpos > 0 ==> Roomy(readpos, bufsize, minbuf))
      && (forall i :: 0 <= i < n ==> 0 < |datas[i]| <= bufsize)
      && (forall i :: 0 <= i < n - 1 ==> !Roomy(|datas[i]|, bufsize, minbuf))
      // A first chunk with nothing left is the only one and will be extended.
      && (n > 0 ==> offset <= Hi(0))
      && (n > 1 ==> offset < |datas[0]|)
      && (n == 1 && offset == |datas[0]| ==> Roomy(|datas[0]|, bufsize, minbuf))
      && (n > 0 ==> CursorInside() || CursorBeyond(bufsize, minbuf))
    }

    /** The search can resume at the cursor: a cursor at the end of a chunk is
        at the end of the last one. */
    predicate CursorInside() {
      && Place(parsebuf, parsepos)
      && (parsebuf < |datas| - 1 ==> parsepos < |datas[parsebuf]|)
    }

    /** The cursor points at a chunk that was given back unused. */
    predicate CursorBeyond(bufsize: nat, minbuf: nat) {
      && |datas| > 0
      && parsebuf == |datas| && parsepos == 0 && readbuf == NPOS
      && !Roomy(|datas[|datas| - 1]|, bufsize, minbuf)
    }
  }

  lemma {:induction false} BeforeIsFlat(s: Snapshot, i: nat)
    requires s.Bounded() && i <= |s.datas|
    ensures s.Before(i) == |Flat(s.Parts()[..i])| <= |s.Unread()|
  {
    if i == 0 {
      assert s.Parts()[..0] == [];
    } else {
      BeforeIsFlat(s, i - 1);
      FlatPiece(s.Parts(), i - 1);
    }
  }

  /** The flat position of the end is the number of unread bytes. */
  lemma BeforeEnd(s: Snapshot)
    requires s.Bounded()
    ensures s.Before(|s.datas|) == |s.Unread()|
    ensures |s.datas| > 0 ==> s.Pos(|s.datas| - 1, s.Hi(|s.datas| - 1)) == |s.Unread()|
  {
    BeforeIsFlat(s, |s.datas|);
    assert s.Parts()[..|s.datas|] == s.Parts();
  }

  /** The flat bytes are the bytes of the chunks. */
  lemma PosByte(s: Snapshot, i: nat, j: nat)
    requires s.Bounded() && s.ByteAt(i, j)
    ensures 0 <= s.Pos(i, j) < |s.Unread()|
    ensures s.Unread()[s.Pos(i, j)] == s.datas[i][j]
  {
    BeforeIsFlat(s, i);
    FlatPiece(s.Parts(), i);
    assert s.Parts()[i][j - s.Lo(i)] == s.datas[i][j];
  }

  /** A place splits its chunk and the unread bytes alike. */
  lemma PosPlace(s: Snapshot, i: nat, j: nat)
    requires s.Bounded() && s.Place(i, j)
    ensures 0 <= s.Pos(i, j) <= |s.Unread()|
    ensures s.Unread()[..s.Pos(i, j)] == Flat(s.Parts()[..i]) + s.datas[i][s.Lo(i)..j]
    ensures s.Unread()[s.Pos(i, j)..] == s.datas[i][j..s.Hi(i)] + Flat(s.Parts()[i + 1..])
  {
    BeforeIsFlat(s, i);
    FlatPiece(s.Parts(), i);
    SplitMiddle(s.Unread(), Flat(s.Parts()[..i]), s.Part(i), Flat(s.Parts()[i + 1..]), j - s.Lo(i));
    Slices(s.datas[i], s.Part(i), s.Lo(i), j, s.Hi(i));
  }

  lemma Slices(d: seq<byte>, part: seq<byte>, lo: nat, j: nat, hi: nat)
    requires lo <= j <= hi <= |d|
    requires part == if lo == 0 then d[..hi] else d[lo..hi]
    ensures part[..j - lo] == d[lo..j]
    ensures part[j - lo..] == d[j..hi]
  {
    assert part == d[lo..hi];
  }

  lemma SplitMiddle(u: seq<byte>, a: seq<byte>, b: seq<byte>, c: seq<byte>, k: nat)
    requires u == a + b + c && k <= |b|
    ensures u[..|a| + k] == a + b[..k]
    ensures u[|a| + k..] == b[k..] + c
  {
  }

  /** Chunks that look the same up to `i` have the same flat positions there. */
  lemma {:induction false} SameBefore(s: Snapshot, t: Snapshot, i: nat)
    requires s.Bounded() && t.Bounded() && s.offset == t.offset
    requires i <= |s.datas| && i <= |t.datas|
    requires forall k :: 0 <= k < i ==> s.Hi(k) == t.Hi(k)
    ensures s.Before(i) == t.Before(i)
  {
    if i > 0 {
      SameBefore(s, t, i - 1);
    }
  }

  /** Only a used-up first chunk leaves nothing unread. */
  lemma UnreadEmpty(s: Snapshot, bufsize: nat, minbuf: nat)
    requires s.Shape(bufsize, minbuf) && s.datas != []
    ensures s.Unread() == [] <==> s.offset == s.Hi(0)
  {
    if s.offset < s.Hi(0) {
      PosByte(s, 0, s.offset);
    } else {
      assert |s.datas| == 1;
      BeforeEnd(s);
    }
  }
}
