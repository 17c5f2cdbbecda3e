/** What the steps of the read buffer do to a snapshot: each keeps the shape,
    and changes the unread bytes and the search cursor only as stated. */
module Transitions {
  import opened Framing
  import opened Snapshots

  ghost function Last(s: Snapshot): seq<byte>
    requires s.datas != []
  {
    s.datas[|s.datas| - 1]
  }

  /** The last chunk grows in place and the new tail is read into. */
  ghost function Extended(s: Snapshot, tail: seq<byte>): Snapshot
    requires s.datas != []
  {
    var n := |s.datas|;
    s.(datas := s.datas[n - 1 := Last(s) + tail], readbuf := n - 1, readpos := |Last(s)|)
  }

  lemma ExtendedShape(s: Snapshot, tail: seq<byte>, bufsize: nat, minbuf: nat)
    requires s.Shape(bufsize, minbuf) && s.datas != [] && s.readbuf == NPOS
    requires tail != [] && |Last(s)| + |tail| <= bufsize
    requires Snapshot.Roomy(|Last(s)|, bufsize, minbuf)
    ensures Extended(s, tail).Shape(bufsize, minbuf) && Extended(s, tail).CursorInside()
  {
  }

  lemma ExtendedBytes(s: Snapshot, tail: seq<byte>)
    requires s.datas != [] && s.readbuf == NPOS && s.parsebuf < |s.datas|
    requires s.Bounded() && Extended(s, tail).Bounded()
    ensures Extended(s, tail).Unread() == s.Unread() && Extended(s, tail).CurPos() == s.CurPos()
  {
    var t := Extended(s, tail);
    forall i | 0 <= i < |s.datas| ensures t.Part(i) == s.Part(i) {
    }
    assert t.Parts() == s.Parts();
    SameBefore(s, t, s.parsebuf);
  }

  /** A fresh chunk is appended and read into from its start. A cursor at the
      very end moves along. */
  ghost function Created(s: Snapshot, data: seq<byte>): Snapshot {
    var n := |s.datas|;
    var atEnd := n > 0 && s.parsebuf == n - 1 && s.parsepos == |Last(s)|;
    s.(datas := s.datas + [data], readbuf := n, readpos := 0,
       parsebuf := if atEnd then n else s.parsebuf,
       parsepos := if atEnd then 0 else s.parsepos)
  }

  lemma CreatedShape(s: Snapshot, data: seq<byte>, bufsize: nat, minbuf: nat)
    requires s.Shape(bufsize, minbuf) && s.readbuf == NPOS
    requires 0 < |data| <= bufsize
    requires s.datas != [] ==> !Snapshot.Roomy(|Last(s)|, bufsize, minbuf)
    ensures Created(s, data).Shape(bufsize, minbuf) && Created(s, data).CursorInside()
  {
  }

  lemma CreatedBytes(s: Snapshot, data: seq<byte>)
    requires s.Bounded() && Created(s, data).Bounded() && s.readbuf == NPOS
    requires s.parsebuf <= |s.datas|
    requires s.parsebuf == |s.datas| ==> s.parsepos == 0
    ensures Created(s, data).Unread() == s.Unread()
    ensures Created(s, data).CurPos() == s.CurPos()
  {
    var t := Created(s, data);
    forall i | 0 <= i < |s.datas| ensures t.Part(i) == s.Part(i) {
    }
    assert t.Parts() == s.Parts() + [[]];
    FlatAppend(s.Parts(), [[]]);
    FlatOne([]);
    SameBefore(s, t, s.parsebuf);
  }

  /** A cursor that hides unread bytes is not at the end of a full chunk. */
  lemma CreatedSkips(s: Snapshot, data: seq<byte>, bufsize: nat, minbuf: nat)
    requires s.Shape(bufsize, minbuf) && s.readbuf == NPOS
    requires s.datas != [] ==> !Snapshot.Roomy(|Last(s)|, bufsize, minbuf)
    ensures Created(s, data).Skips() == s.Skips()
  {
  }

  /** The system may have written into the region being read. */
  ghost function Arrived(s: Snapshot, data: seq<byte>): Snapshot
    requires 0 <= s.readbuf < |s.datas|
  {
    s.(datas := s.datas[s.readbuf := data])
  }

  lemma ArrivedShape(s: Snapshot, data: seq<byte>, bufsize: nat, minbuf: nat)
    requires s.Shape(bufsize, minbuf) && s.readbuf != NPOS && |data| == |Last(s)|
    ensures Arrived(s, data).Shape(bufsize, minbuf) && Arrived(s, data).CursorInside()
  {
  }

  lemma ArrivedBytes(s: Snapshot, data: seq<byte>)
    requires s.datas != [] && s.readbuf == |s.datas| - 1 && s.parsebuf < |s.datas|
    requires 0 <= s.readpos <= |data| == |Last(s)| && data[..s.readpos] == Last(s)[..s.readpos]
    requires s.Bounded() && Arrived(s, data).Bounded()
    ensures Arrived(s, data).Unread() == s.Unread() && Arrived(s, data).CurPos() == s.CurPos()
  {
    var t, n := Arrived(s, data), |s.datas|;
    forall i | 0 <= i < n - 1 ensures t.Part(i) == s.Part(i) {
    }
    assert t.Part(n - 1) == data[..s.readpos][s.Lo(n - 1)..];
    assert s.Part(n - 1) == Last(s)[..s.readpos][s.Lo(n - 1)..];
    assert t.Parts() == s.Parts();
    SameBefore(s, t, s.parsebuf);
  }

  /** The first `k` bytes of the region become data. */
  ghost function Confirmed(s: Snapshot, k: nat): Snapshot
    requires s.datas != [] && s.readbuf == |s.datas| - 1
    requires 0 <= s.readpos && s.readpos + k <= |Last(s)|
  {
    s.(datas := s.datas[s.readbuf := Last(s)[..s.readpos + k]], readbuf := NPOS, readpos := NPOS)
  }

  lemma ConfirmedShape(s: Snapshot, k: nat, bufsize: nat, minbuf: nat)
    requires s.Shape(bufsize, minbuf) && s.readbuf != NPOS
    requires 0 < s.readpos + k <= |Last(s)|
    ensures Confirmed(s, k).Shape(bufsize, minbuf) && Confirmed(s, k).CursorInside()
  {
  }

  lemma Rejoin(d: seq<byte>, a: nat, b: nat, c: nat)
    requires a <= b <= c <= |d|
    ensures d[..c][a..] == d[a..b] + d[b..c]
  {
  }

  lemma ConfirmedParts(s: Snapshot, k: nat)
    requires s.datas != [] && s.readbuf == |s.datas| - 1
    requires 0 <= s.readpos && s.readpos + k <= |Last(s)|
    requires s.Bounded() && Confirmed(s, k).Bounded()
    ensures Confirmed(s, k).Parts()
         == s.Parts()[s.readbuf := s.Part(s.readbuf) + Last(s)[s.readpos..s.readpos + k]]
  {
    var t, n := Confirmed(s, k), |s.datas|;
    forall i | 0 <= i < n - 1 ensures t.Part(i) == s.Part(i) {
    }
    assert t.Part(n - 1) == Last(s)[..s.readpos + k][s.Lo(n - 1)..];
    Rejoin(Last(s), s.Lo(n - 1), s.readpos, s.readpos + k);
  }

  lemma ConfirmedBytes(s: Snapshot, k: nat)
    requires s.datas != [] && s.readbuf == |s.datas| - 1 && s.parsebuf < |s.datas|
    requires 0 <= s.readpos && s.readpos + k <= |Last(s)|
    requires s.Bounded() && Confirmed(s, k).Bounded()
    ensures Confirmed(s, k).Unread() == s.Unread() + Last(s)[s.readpos..s.readpos + k]
    ensures Confirmed(s, k).CurPos() == s.CurPos()
  {
    ConfirmedParts(s, k);
    FlatGrown(s.Parts(), Last(s)[s.readpos..s.readpos + k]);
    SameBefore(s, Confirmed(s, k), s.parsebuf);
  }

  /** A fresh chunk that received nothing is removed again. */
  ghost function GivenBack(s: Snapshot): Snapshot
    requires s.datas != []
  {
    s.(datas := s.datas[..|s.datas| - 1], readbuf := NPOS, readpos := NPOS)
  }

  lemma GivenBackShape(s: Snapshot, bufsize: nat, minbuf: nat)
    requires s.Shape(bufsize, minbuf) && s.readbuf != NPOS && s.readpos == 0
    ensures GivenBack(s).Shape(bufsize, minbuf)
    ensures |s.datas| > 1 ==> (GivenBack(s).CursorInside() <==> s.parsebuf != |s.datas| - 1)
  {
  }

  lemma GivenBackBytes(s: Snapshot)
    requires s.datas != [] && s.readbuf == |s.datas| - 1 && s.readpos == 0
    requires s.Bounded() && GivenBack(s).Bounded() && s.parsebuf < |s.datas|
    ensures GivenBack(s).Unread() == s.Unread() && GivenBack(s).CurPos() == s.CurPos()
  {
    var t, n := GivenBack(s), |s.datas|;
    forall i | 0 <= i < n - 1 ensures t.Part(i) == s.Part(i) {
    }
    assert s.Part(n - 1) == [];
    assert t.Parts() == s.Parts()[..n - 1];
    FlatPiece(s.Parts(), n - 1);
    assert s.Parts()[n..] == [];
    SameBefore(s, t, s.parsebuf);
  }

  /** A read is over. */
  ghost function Settled(s: Snapshot, k: nat): Snapshot
    requires s.datas != [] && s.readbuf == |s.datas| - 1
    requires 0 <= s.readpos && s.readpos + k <= |Last(s)|
  {
    if s.readpos + k == 0 then GivenBack(s) else Confirmed(s, k)
  }

  /** The next read needs a chunk more exactly when this one received bytes and
      is left with too little room. */
  lemma SettledCount(s: Snapshot, k: nat, bufsize: nat, minbuf: nat)
    requires s.Shape(bufsize, minbuf) && s.readbuf != NPOS && s.readpos + k <= |Last(s)|
    ensures var more := s.readpos + k > 0 && !Snapshot.Roomy(s.readpos + k, bufsize, minbuf);
            Settled(s, k).CountNext(bufsize, minbuf) == |s.datas| + (if more then 1 else 0)
  {
  }

  /** The cursor moves to the end of the received bytes. */
  ghost function AtEnd(s: Snapshot): Snapshot
    requires s.datas != []
    requires s.readbuf != NPOS ==> s.readbuf >= 0 && s.readpos >= 0
  {
    if s.readbuf != NPOS
    then s.(parsebuf := s.readbuf, parsepos := s.readpos)
    else s.(parsebuf := |s.datas| - 1, parsepos := |Last(s)|)
  }

  lemma AtEndShape(s: Snapshot, bufsize: nat, minbuf: nat)
    requires s.Shape(bufsize, minbuf) && s.datas != []
    ensures AtEnd(s).Shape(bufsize, minbuf) && AtEnd(s).CursorInside()
  {
  }

  lemma AtEndBytes(s: Snapshot)
    requires s.datas != [] && s.readbuf in {NPOS, |s.datas| - 1}
    requires s.readbuf != NPOS ==> s.readpos >= 0
    requires s.Bounded() && AtEnd(s).Bounded()
    ensures AtEnd(s).Unread() == s.Unread() && AtEnd(s).CurPos() == |s.Unread()|
  {
    assert AtEnd(s).Parts() == s.Parts();
    BeforeEnd(AtEnd(s));
  }

  /** Everything before place (`b`, `j`) is removed. */
  ghost function Dropped(s: Snapshot, b: nat, j: nat): Snapshot
    requires b < |s.datas|
  {
    var complete := |s.datas[b]| == j;
    var gone := if complete then b + 1 else b;
    var left := if complete then 0 else j;
    Snapshot(s.datas[gone..], left, if s.readbuf == NPOS then NPOS else s.readbuf - gone, s.readpos, 0, left)
  }

  lemma DroppedShape(s: Snapshot, b: nat, j: nat, bufsize: nat, minbuf: nat)
    requires s.Shape(bufsize, minbuf) && s.Place(b, j)
    ensures var t := Dropped(s, b, j);
            t.Shape(bufsize, minbuf) && (t.datas == [] || t.CursorInside())
  {
  }

  lemma DroppedPartsComplete(s: Snapshot, b: nat, j: nat)
    requires s.Bounded() && s.Place(b, j) && Dropped(s, b, j).Bounded() && |s.datas[b]| == j
    requires s.readbuf == NPOS || (s.readbuf == |s.datas| - 1 && s.readpos < |s.datas[s.readbuf]|)
    ensures Dropped(s, b, j).Parts() == s.Parts()[b + 1..]
  {
    var t := Dropped(s, b, j);
    forall i | 0 <= i < |t.datas| ensures t.Part(i) == s.Part(b + 1 + i) {
    }
  }

  lemma DroppedPartsLeft(s: Snapshot, b: nat, j: nat)
    requires s.Bounded() && s.Place(b, j) && Dropped(s, b, j).Bounded() && |s.datas[b]| != j
    ensures Dropped(s, b, j).Parts() == [s.datas[b][j..s.Hi(b)]] + s.Parts()[b + 1..]
  {
    var t := Dropped(s, b, j);
    forall i | 1 <= i < |t.datas| ensures t.Part(i) == s.Part(b + i) {
    }
    assert t.Part(0) == s.datas[b][j..s.Hi(b)];
  }

  lemma DroppedBytes(s: Snapshot, b: nat, j: nat)
    requires s.Bounded() && s.Place(b, j) && Dropped(s, b, j).Bounded()
    requires s.readbuf == NPOS || (s.readbuf == |s.datas| - 1 && s.readpos < |s.datas[s.readbuf]|)
    ensures 0 <= s.Pos(b, j) <= |s.Unread()|
    ensures Dropped(s, b, j).Unread() == s.Unread()[s.Pos(b, j)..]
    ensures Dropped(s, b, j).CurPos() == 0
  {
    var rest, cut := s.Parts()[b + 1..], s.datas[b][j..s.Hi(b)];
    PosPlace(s, b, j);
    if |s.datas[b]| == j {
      DroppedPartsComplete(s, b, j);
      assert cut == [] && [] + rest == rest && cut + Flat(rest) == Flat(rest);
    } else {
      DroppedPartsLeft(s, b, j);
      FlatAppend([cut], rest);
      FlatOne(cut);
    }
  }
}
