/** The read-only search of the read buffer: for the next separator, from the
    saved cursor on, over a list of chunks. The search changes nothing, so it
    works on the buffer's state as a value. */
module Searching {
  import opened Framing
  import opened Snapshots

  /** The end of a frame: a place inside the chunk list. */
  datatype SearchPair = SearchPair(first: int, second: int)

  const NOTHING := SearchPair(NPOS, NPOS)

  /** A stretch without the last separator byte ends no separator. */
  lemma NoSepSkip(s: Snapshot, i: nat, beg: nat, r: nat, sep: seq<byte>)
    requires s.Bounded() && sep != [] && s.Place(i, beg) && s.Place(i, r) && beg <= r
    requires forall k :: beg <= k < r ==> s.datas[i][k] != sep[|sep| - 1]
    requires NoSepUpTo(s.Unread(), sep, s.Pos(i, beg))
    ensures NoSepUpTo(s.Unread(), sep, s.Pos(i, r))
  {
    var u := s.Unread();
    forall e | s.Pos(i, beg) < e <= s.Pos(i, r) ensures !SepEndsAt(u, sep, e) {
      var k := beg + (e - 1 - s.Pos(i, beg));
      PosByte(s, i, k);
      assert u[e - 1] != sep[|sep| - 1];
    }
  }

  /** The last received byte of a chunk. The source aborts when there is none. */
  function LastOf(s: Snapshot, pos: nat): (r: int)
    requires pos < |s.datas| && s.Hi(pos) > 0
    ensures r == s.Hi(pos) - 1
  {
    if pos == s.readbuf then s.readpos - 1 else |s.datas[pos]| - 1
  }

  /** No chunk but the last may be without a received byte. */
  predicate Searchable(s: Snapshot) {
    s.Bounded() && forall i :: 0 <= i < |s.datas| - 1 ==> s.Lo(i) < s.Hi(i)
  }

  /** One byte back, across a chunk boundary if need be. */
  method Dec(s: Snapshot, pos: nat, itr: nat) returns (pos': int, itr': int)
    requires Searchable(s) && s.ByteAt(pos, itr)
    ensures s.Pos(pos, itr) == 0 ==> pos' == NPOS
    ensures s.Pos(pos, itr) > 0 ==>
              && s.ByteAt(pos', itr') && s.Pos(pos', itr') == s.Pos(pos, itr) - 1
              && s.Pos(pos, itr) <= |s.Unread()|
              && s.datas[pos'][itr'] == s.Unread()[s.Pos(pos, itr) - 1]
  {
    pos', itr' := pos, itr;
    if s.Lo(pos) != itr {
      itr' := itr - 1;
    } else if pos == 0 {
      return NPOS, itr;
    } else {
      pos' := pos - 1;
      itr' := LastOf(s, pos - 1);
    }
    PosByte(s, pos', itr');
  }

  /** Goes on matching backwards, `|sep| - scur0` bytes being matched. */
  method CheckHead(s: Snapshot, sep: seq<byte>, pos0: nat, itr0: nat, scur0: nat, ghost e: nat)
    returns (ok: bool)
    requires Searchable(s) && s.ByteAt(pos0, itr0) && 0 < scur0 < |sep|
    requires s.Pos(pos0, itr0) == e - (|sep| - scur0)
    requires MatchedFrom(s.Unread(), sep, e, scur0)
    ensures ok <==> SepEndsAt(s.Unread(), sep, e)
  {
    ghost var u := s.Unread();
    var pos: int, itr: int, scur := pos0, itr0, scur0;
    while true
      invariant 0 < scur < |sep|
      invariant s.ByteAt(pos, itr) && s.Pos(pos, itr) == e - (|sep| - scur)
      invariant MatchedFrom(u, sep, e, scur)
      decreases scur
    {
      scur := scur - 1;
      pos, itr := Dec(s, pos, itr);
      MatchBack(u, sep, e, scur);
      if pos == NPOS {
        return false;
      }
      if s.datas[pos][itr] != sep[scur] {
        return false;
      }
      if scur == 0 {
        return true;
      }
    }
  }

  /** Whether the bytes up to and including this one end in the separator,
      given that this one is its last byte. */
  method CheckSep(s: Snapshot, sep: seq<byte>, pos0: nat, itr0: nat) returns (ok: bool)
    requires Searchable(s) && sep != [] && s.ByteAt(pos0, itr0)
    requires s.datas[pos0][itr0] == sep[|sep| - 1]
    ensures ok <==> SepEndsAt(s.Unread(), sep, s.Pos(pos0, itr0) + 1)
  {
    ghost var u, e := s.Unread(), s.Pos(pos0, itr0) + 1;
    PosByte(s, pos0, itr0);
    MatchBack(u, sep, e, |sep| - 1);
    if |sep| < 2 {
      return true;
    }
    var pos: int, itr: int := Dec(s, pos0, itr0);
    MatchBack(u, sep, e, |sep| - 2);
    if pos == NPOS {
      return false;
    }
    if |sep| == 2 {
      return s.datas[pos][itr] == sep[0];
    }
    var scur := |sep| - 2;
    if s.datas[pos][itr] != sep[scur] {
      return false;
    }
    ok := CheckHead(s, sep, pos, itr, scur, e);
  }

  /** First place of the last separator byte in chunk `i`, or the end of its
      data. Looks at each byte once. */
  method Find(s: Snapshot, sep: seq<byte>, i: nat, beg: nat) returns (r: nat, ghost seen: nat)
    requires s.Bounded() && sep != [] && s.Place(i, beg)
    requires NoSepUpTo(s.Unread(), sep, s.Pos(i, beg))
    ensures beg <= r <= s.Hi(i)
    ensures r < s.Hi(i) ==> s.datas[i][r] == sep[|sep| - 1]
    ensures NoSepUpTo(s.Unread(), sep, s.Pos(i, r))
    ensures seen == r - beg + (if r < s.Hi(i) then 1 else 0)
  {
    var end := s.Hi(i);
    r, seen := beg, 0;
    while r != end
      invariant beg <= r <= end && seen == r - beg
      invariant forall k :: beg <= k < r ==> s.datas[i][k] != sep[|sep| - 1]
    {
      seen := seen + 1;
      if s.datas[i][r] == sep[|sep| - 1] {
        break;
      }
      r := r + 1;
    }
    NoSepSkip(s, i, beg, r, sep);
  }

  /** Searches one chunk from `from` on; `at` is the end of the separator found,
      or of the data. */
  method SearchChunk(s: Snapshot, sep: seq<byte>, i: nat, from: nat)
    returns (found: bool, at: nat, ghost seen: nat)
    requires Searchable(s) && sep != [] && s.Place(i, from)
    requires NoSepUpTo(s.Unread(), sep, s.Pos(i, from))
    ensures from <= at <= s.Hi(i)
    ensures found ==> from < at && SepEndsAt(s.Unread(), sep, s.Pos(i, at))
    ensures NoSepUpTo(s.Unread(), sep, s.Pos(i, at) - (if found then 1 else 0))
    ensures !found ==> at == s.Hi(i)
    ensures seen == at - from
  {
    var end := s.Hi(i);
    at, seen := from, 0;
    while at != end
      invariant from <= at <= end && seen == at - from
      invariant NoSepUpTo(s.Unread(), sep, s.Pos(i, at))
    {
      ghost var more: nat;
      at, more := Find(s, sep, i, at);
      seen := seen + more;
      if at == end {
        break;
      }
      found := CheckSep(s, sep, i, at);
      at := at + 1;
      if found {
        return;
      }
    }
    found := false;
  }

  /** Without a separator everything received so far is one frame, except that
      a cursor left on the start of the unread bytes hides them. */
  method NosepSearch(s: Snapshot, ghost bufsize: nat, ghost minbuf: nat) returns (r: SearchPair)
    requires s.Shape(bufsize, minbuf) && s.datas != []
    ensures r == NOTHING <==> s.Unread() == [] || s.Skips()
    ensures r != NOTHING ==> s.Place(r.first, r.second) && s.Pos(r.first, r.second) == |s.Unread()|
    ensures r != NOTHING ==> r.second == s.Hi(r.first)
  {
    UnreadEmpty(s, bufsize, minbuf);
    BeforeEnd(s);
    if s.Skips() {
      return NOTHING;
    }
    if s.readbuf == NPOS {
      return SearchPair(|s.datas| - 1, |s.datas[|s.datas| - 1]|);
    } else if s.readpos != 0 {
      return SearchPair(s.readbuf, s.readpos);
    } else if s.readbuf != 0 {
      return SearchPair(s.readbuf - 1, |s.datas[s.readbuf - 1]|);
    }
    return NOTHING;
  }

  /** The end of the first separator in the unread bytes, given that none ends
      at the cursor or before it; `seen` counts the bytes looked at. */
  method SepSearch(s: Snapshot, sep: seq<byte>, ghost bufsize: nat, ghost minbuf: nat)
    returns (r: SearchPair, ghost seen: nat)
    requires sep != [] && s.Shape(bufsize, minbuf) && s.datas != [] && s.CursorInside()
    requires NoSepUpTo(s.Unread(), sep, s.CurPos())
    requires s.parsepos < s.Hi(s.parsebuf)
    ensures r == NOTHING ==>
              FirstEnd(s.Unread(), sep) == None && seen == |s.Unread()| - s.CurPos()
    ensures r != NOTHING ==>
              && s.Place(r.first, r.second)
              && FirstEnd(s.Unread(), sep) == Some(s.Pos(r.first, r.second))
              && seen == s.Pos(r.first, r.second) - s.CurPos()
  {
    ghost var u := s.Unread();
    seen := 0;
    BeforeEnd(s);
    var toparse := |s.datas| - (if s.readbuf != NPOS && s.readpos == 0 then 1 else 0);
    var i := s.parsebuf;
    while i < toparse
      invariant s.parsebuf <= i <= toparse
      invariant i == s.parsebuf ==> seen == 0
      invariant i > s.parsebuf ==>
                  seen == s.Before(i) - s.CurPos() && NoSepUpTo(u, sep, s.Before(i))
    {
      ghost var more: nat;
      var found, at;
      found, at, more := SearchChunk(s, sep, i, if i == s.parsebuf then s.parsepos else s.Lo(i));
      seen := seen + more;
      if found {
        FirstEndUnique(u, sep, s.Pos(i, at));
        return SearchPair(i, at), seen;
      }
      i := i + 1;
    }
    FirstEndAbsent(u, sep, s.Before(i));
    return NOTHING, seen;
  }

  /** The end of the next frame, or nothing. */
  method Search(s: Snapshot, sep: seq<byte>, ghost bufsize: nat, ghost minbuf: nat)
    returns (r: SearchPair, ghost seen: nat)
    requires s.Shape(bufsize, minbuf)
    requires sep != [] ==> s.datas == [] || s.CursorInside()
    requires sep != [] ==> NoSepUpTo(s.Unread(), sep, s.CurPos())
    ensures r != NOTHING ==> s.Place(r.first, r.second)
    ensures sep == [] ==> (r == NOTHING <==> s.Unread() == [] || s.Skips())
    ensures sep == [] && r != NOTHING ==>
              s.Pos(r.first, r.second) == |s.Unread()| && r.second == s.Hi(r.first)
    ensures sep != [] && r == NOTHING ==>
              FirstEnd(s.Unread(), sep) == None && seen == |s.Unread()| - s.CurPos()
    ensures sep != [] && r != NOTHING ==>
              && FirstEnd(s.Unread(), sep) == Some(s.Pos(r.first, r.second))
              && seen == s.Pos(r.first, r.second) - s.CurPos()
  {
    if s.datas == [] {
      return NOTHING, 0;
    }
    if sep == [] {
      r := NosepSearch(s, bufsize, minbuf);
      seen := 0;
    } else if (s.readbuf == s.parsebuf && s.readpos == s.parsepos)
              || |s.datas[s.parsebuf]| == s.parsepos {
      // The cursor is at the end of the received bytes.
      BeforeEnd(s);
      FirstEndAbsent(s.Unread(), sep, s.CurPos());
      return NOTHING, 0;
    } else {
      r, seen := SepSearch(s, sep, bufsize, minbuf);
    }
  }

  /** Copies all unread bytes before a place out of the chunks. */
  method Gather(s: Snapshot, b: nat, j: nat) returns (data: seq<byte>)
    requires s.Bounded() && s.Place(b, j)
    requires forall i :: 0 <= i < b ==> s.Hi(i) == |s.datas[i]|
    ensures 0 <= s.Pos(b, j) <= |s.Unread()|
    ensures data == s.Unread()[..s.Pos(b, j)]
  {
    PosPlace(s, b, j);
    data := [];
    for i := 0 to b + 1
      invariant i <= b ==> data == Flat(s.Parts()[..i])
      invariant i == b + 1 ==> data == s.Unread()[..s.Pos(b, j)]
    {
      if i != b {
        FlatPiece(s.Parts(), i);
        data := data + s.datas[i][s.Lo(i)..s.Hi(i)];
      } else {
        data := data + s.datas[i][s.Lo(i)..j];
      }
    }
  }
}
