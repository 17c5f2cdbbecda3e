/** Byte streams cut into frames by a separator: the reference that the chunked
    buffers are measured against. Nothing here knows about chunks or cursors. */
module Framing {
  newtype byte = x: int | 0 <= x < 256

  datatype Option<+T> = None | Some(value: T)

  /** The bytes of a list of pieces, in order. */
  function Flat(ps: seq<seq<byte>>): seq<byte> {
    if ps == [] then [] else ps[0] + Flat(ps[1..])
  }

  lemma FlatHead(a: seq<seq<byte>>, b: seq<seq<byte>>)
    requires a != []
    ensures (a + b)[0] == a[0] && (a + b)[1..] == a[1..] + b
    ensures Flat(a + b) == a[0] + Flat(a[1..] + b)
  {
    assert (a + b)[1..] == a[1..] + b;
  }

  lemma {:induction false} FlatAppend(a: seq<seq<byte>>, b: seq<seq<byte>>)
    ensures Flat(a + b) == Flat(a) + Flat(b)
  {
    if a == [] {
      assert a + b == b;
    } else {
      FlatHead(a, b);
      FlatAppend(a[1..], b);
      Assoc(a[0], Flat(a[1..]), Flat(b));
    }
  }

  lemma FlatOne(p: seq<byte>)
    ensures Flat([p]) == p
  {
    assert [p][1..] == [];
  }

  lemma Assoc(a: seq<byte>, b: seq<byte>, c: seq<byte>)
    ensures (a + b) + c == a + (b + c)
  {
  }

  lemma FlatCons(fs: seq<seq<byte>>, r: seq<byte>)
    requires fs != []
    ensures Flat(fs) + r == fs[0] + (Flat(fs[1..]) + r)
  {
  }

  lemma Regroup(ps: seq<seq<byte>>, i: nat)
    requires i < |ps|
    ensures ps[..i] + [ps[i]] == ps[..i + 1]
    ensures ps[..i + 1] + ps[i + 1..] == ps
  {
  }

  /** Piece `i` occupies the positions from `|Flat(ps[..i])|` on. */
  lemma FlatPiece(ps: seq<seq<byte>>, i: nat)
    requires i < |ps|
    ensures Flat(ps) == Flat(ps[..i]) + ps[i] + Flat(ps[i + 1..])
    ensures Flat(ps[..i + 1]) == Flat(ps[..i]) + ps[i]
  {
    FlatAppend(ps[..i], [ps[i]]);
    FlatOne(ps[i]);
    FlatAppend(ps[..i + 1], ps[i + 1..]);
    Regroup(ps, i);
  }

  lemma FlatGrown(ps: seq<seq<byte>>, more: seq<byte>)
    requires ps != []
    ensures Flat(ps[|ps| - 1 := ps[|ps| - 1] + more]) == Flat(ps) + more
  {
    var n := |ps|;
    var qs := ps[n - 1 := ps[n - 1] + more];
    FlatPiece(ps, n - 1);
    FlatPiece(qs, n - 1);
    assert qs[..n - 1] == ps[..n - 1] && qs[n..] == [] == ps[n..];
  }

  /** The separator occupies the last `|sep|` positions before `e`. */
  predicate SepEndsAt(s: seq<byte>, sep: seq<byte>, e: int) {
    |sep| <= e <= |s| && forall k :: 0 <= k < |sep| ==> s[e - |sep| + k] == sep[k]
  }

  /** No separator ends at position `k` or before it. */
  ghost predicate NoSepUpTo(s: seq<byte>, sep: seq<byte>, k: int) {
    forall e :: e <= k ==> !SepEndsAt(s, sep, e)
  }

  /** The last `|sep| - k` bytes before `e` agree with the end of the separator. */
  predicate MatchedFrom(s: seq<byte>, sep: seq<byte>, e: int, k: nat) {
    && k <= |sep| && |sep| - k <= e <= |s|
    && forall i :: k <= i < |sep| ==> s[e - |sep| + i] == sep[i]
  }

  /** One byte further back decides one byte more. */
  lemma MatchBack(s: seq<byte>, sep: seq<byte>, e: int, k: nat)
    requires MatchedFrom(s, sep, e, k + 1)
    ensures MatchedFrom(s, sep, e, k) <==>
            |sep| - k <= e && s[e - (|sep| - k)] == sep[k]
    ensures !MatchedFrom(s, sep, e, k) ==> !SepEndsAt(s, sep, e)
  {
    assert sep[k] == sep[k];
  }

  /** The end of the first separator, that is, the length of the shortest
      prefix of `s` that ends in `sep`. */
  function FirstEnd(s: seq<byte>, sep: seq<byte>): (r: Option<nat>)
    requires sep != []
    ensures r.None? ==> NoSepUpTo(s, sep, |s|)
    ensures r.Some? ==> SepEndsAt(s, sep, r.value) && NoSepUpTo(s, sep, r.value - 1)
  {
    FirstEndFrom(s, sep, |sep|)
  }

  function FirstEndFrom(s: seq<byte>, sep: seq<byte>, from: nat): (r: Option<nat>)
    requires sep != [] && NoSepUpTo(s, sep, from - 1)
    ensures r.None? ==> NoSepUpTo(s, sep, |s|)
    ensures r.Some? ==> SepEndsAt(s, sep, r.value) && NoSepUpTo(s, sep, r.value - 1)
    decreases |s| - from
  {
    if from > |s| then None
    else if SepEndsAt(s, sep, from) then Some(from)
    else FirstEndFrom(s, sep, from + 1)
  }

  /** The first end is the only position with its two properties. */
  lemma FirstEndUnique(s: seq<byte>, sep: seq<byte>, e: nat)
    requires sep != [] && SepEndsAt(s, sep, e) && NoSepUpTo(s, sep, e - 1)
    ensures FirstEnd(s, sep) == Some(e)
  {
  }

  lemma FirstEndAbsent(s: seq<byte>, sep: seq<byte>, k: int)
    requires sep != [] && NoSepUpTo(s, sep, k) && |s| <= k
    ensures FirstEnd(s, sep) == None
  {
  }

  /** Bytes that arrive later do not change which separators end early. */
  lemma SepEndsPrefix(a: seq<byte>, b: seq<byte>, sep: seq<byte>, e: int)
    requires e <= |a|
    ensures SepEndsAt(a + b, sep, e) <==> SepEndsAt(a, sep, e)
  {
  }

  lemma NoSepPrefix(a: seq<byte>, b: seq<byte>, sep: seq<byte>, k: int)
    requires k <= |a|
    ensures NoSepUpTo(a + b, sep, k) <==> NoSepUpTo(a, sep, k)
  {
    forall e | e <= k ensures SepEndsAt(a + b, sep, e) <==> SepEndsAt(a, sep, e) {
      SepEndsPrefix(a, b, sep, e);
    }
    if NoSepUpTo(a + b, sep, k) {
      forall e | e <= k ensures !SepEndsAt(a, sep, e) {
        assert !SepEndsAt(a + b, sep, e);
      }
    }
    if NoSepUpTo(a, sep, k) {
      forall e | e <= k ensures !SepEndsAt(a + b, sep, e) {
        assert !SepEndsAt(a, sep, e);
      }
    }
  }

  /** A frame ends in the separator and contains no earlier one. */
  predicate IsFrame(f: seq<byte>, sep: seq<byte>) {
    sep != [] && FirstEnd(f, sep) == Some(|f|)
  }

  ghost predicate AllFrames(fs: seq<seq<byte>>, sep: seq<byte>) {
    forall i :: 0 <= i < |fs| ==> IsFrame(fs[i], sep)
  }

  /** A frame followed by anything is still the first frame. */
  lemma FrameFirst(f: seq<byte>, rest: seq<byte>, sep: seq<byte>)
    requires IsFrame(f, sep)
    ensures FirstEnd(f + rest, sep) == Some(|f|)
  {
    SepEndsPrefix(f, rest, sep, |f|);
    NoSepPrefix(f, rest, sep, |f| - 1);
    FirstEndUnique(f + rest, sep, |f|);
  }

  lemma CutIsFrame(s: seq<byte>, sep: seq<byte>, e: nat)
    requires sep != [] && FirstEnd(s, sep) == Some(e)
    ensures e <= |s| && IsFrame(s[..e], sep)
  {
    assert s == s[..e] + s[e..];
    SepEndsPrefix(s[..e], s[e..], sep, e);
    NoSepPrefix(s[..e], s[e..], sep, e - 1);
    FirstEndUnique(s[..e], sep, e);
  }

  /** All complete frames of a stream, separators included. */
  function Frames(s: seq<byte>, sep: seq<byte>): seq<seq<byte>>
    requires sep != []
    decreases |s|
  {
    match FirstEnd(s, sep)
    case None => []
    case Some(e) => [s[..e]] + Frames(s[e..], sep)
  }

  /** What follows the last complete frame. */
  function Rest(s: seq<byte>, sep: seq<byte>): seq<byte>
    requires sep != []
    decreases |s|
  {
    match FirstEnd(s, sep)
    case None => s
    case Some(e) => Rest(s[e..], sep)
  }

  lemma {:induction false} FramesFlat(s: seq<byte>, sep: seq<byte>)
    requires sep != []
    ensures Flat(Frames(s, sep)) + Rest(s, sep) == s
    decreases |s|
  {
    match FirstEnd(s, sep)
    case None =>
    case Some(e) =>
      FramesFlat(s[e..], sep);
      FlatCons(Frames(s, sep), Rest(s, sep));
      assert s[..e] + s[e..] == s;
  }

  /** Cutting loses nothing, yields only frames, and leaves no frame behind. */
  lemma {:induction false} FramesComplete(s: seq<byte>, sep: seq<byte>)
    requires sep != []
    ensures Flat(Frames(s, sep)) + Rest(s, sep) == s
    ensures AllFrames(Frames(s, sep), sep)
    ensures FirstEnd(Rest(s, sep), sep) == None
    decreases |s|
  {
    FramesFlat(s, sep);
    match FirstEnd(s, sep)
    case None =>
    case Some(e) =>
      CutIsFrame(s, sep, e);
      FramesComplete(s[e..], sep);
  }

  lemma HeadTail(a: seq<seq<byte>>, b: seq<seq<byte>>)
    requires a != []
    ensures [a[0]] + (a[1..] + b) == a + b
  {
    assert [a[0]] + a[1..] == a;
  }

  lemma FramesStep(f: seq<byte>, tail: seq<byte>, sep: seq<byte>)
    requires IsFrame(f, sep)
    ensures Frames(f + tail, sep) == [f] + Frames(tail, sep)
    ensures Rest(f + tail, sep) == Rest(tail, sep)
  {
    FrameFirst(f, tail, sep);
    assert (f + tail)[..|f|] == f;
    assert (f + tail)[|f|..] == tail;
  }

  /** There is only one way to cut a stream into frames. */
  lemma {:induction false} FramesUnique(fs: seq<seq<byte>>, r: seq<byte>, sep: seq<byte>)
    requires sep != [] && AllFrames(fs, sep)
    ensures Frames(Flat(fs) + r, sep) == fs + Frames(r, sep)
    ensures Rest(Flat(fs) + r, sep) == Rest(r, sep)
  {
    if fs == [] {
      assert Flat(fs) + r == r;
    } else {
      var f, tail := fs[0], Flat(fs[1..]) + r;
      FramesUnique(fs[1..], r, sep);
      FramesStep(f, tail, sep);
      FlatCons(fs, r);
      HeadTail(fs, Frames(r, sep));
    }
  }

  /** Frames of a longer stream: those of its beginning, then those of the
      remainder continued. */
  lemma FramesOfConcat(a: seq<byte>, b: seq<byte>, sep: seq<byte>)
    requires sep != []
    ensures Frames(a + b, sep) == Frames(a, sep) + Frames(Rest(a, sep) + b, sep)
    ensures Rest(a + b, sep) == Rest(Rest(a, sep) + b, sep)
  {
    var fs, r := Frames(a, sep), Rest(a, sep);
    FramesComplete(a, sep);
    Assoc(Flat(fs), r, b);
    FramesUnique(fs, r + b, sep);
  }

  /** A frame as handed to the user: with the separator cut off on request. */
  function Trimmed(f: seq<byte>, sep: seq<byte>, trim: bool): seq<byte> {
    if trim && |f| >= |sep| then f[..|f| - |sep|] else f
  }

  /** The bytes are those handed out, those cut off and those that stay. */
  predicate SplitsInto(u: seq<byte>, d: seq<byte>, cut: seq<byte>, rest: seq<byte>) {
    u == d + cut + rest
  }

  lemma TrimNothing(f: seq<byte>, trim: bool)
    ensures Trimmed(f, [], trim) == f
  {
  }

  /** What is handed out and the separator cut off it, if any, are the frame. */
  lemma TrimmedBack(u: seq<byte>, sep: seq<byte>, trim: bool, e: nat)
    requires if sep == [] then e == |u| else FirstEnd(u, sep) == Some(e)
    ensures e <= |u|
    ensures SplitsInto(u, Trimmed(u[..e], sep, trim), if trim then sep else [], u[e..])
  {
    assert SepEndsAt(u, sep, e);
    assert u == u[..e] + u[e..] && u[..e] == u[..e - |sep|] + sep;
  }

  function TrimAll(fs: seq<seq<byte>>, sep: seq<byte>, trim: bool): (r: seq<seq<byte>>)
    ensures |r| == |fs|
  {
    seq(|fs|, i requires 0 <= i < |fs| => Trimmed(fs[i], sep, trim))
  }

  lemma TrimAllAppend(a: seq<seq<byte>>, b: seq<seq<byte>>, sep: seq<byte>, trim: bool)
    ensures TrimAll(a + b, sep, trim) == TrimAll(a, sep, trim) + TrimAll(b, sep, trim)
  {
  }

  /** A message can be framed when its own bytes do not complete a separator
      before the appended one does. */
  predicate Framable(m: seq<byte>, sep: seq<byte>) {
    IsFrame(m + sep, sep)
  }

  /** Each message followed by the separator. */
  function Terminated(ms: seq<seq<byte>>, sep: seq<byte>): (r: seq<seq<byte>>)
    ensures |r| == |ms|
  {
    seq(|ms|, i requires 0 <= i < |ms| => ms[i] + sep)
  }

  lemma TerminatedAppend(ms: seq<seq<byte>>, m: seq<byte>, sep: seq<byte>)
    ensures Flat(Terminated(ms + [m], sep)) == Flat(Terminated(ms, sep)) + (m + sep)
  {
    assert Terminated(ms + [m], sep) == Terminated(ms, sep) + [m + sep];
    FlatAppend(Terminated(ms, sep), [m + sep]);
    FlatOne(m + sep);
  }

  lemma TrimTerminated(ms: seq<seq<byte>>, sep: seq<byte>)
    ensures TrimAll(Terminated(ms, sep), sep, true) == ms
  {
    forall i | 0 <= i < |ms|
      ensures Trimmed(Terminated(ms, sep)[i], sep, true) == ms[i]
    {
      assert (ms[i] + sep)[..|ms[i]|] == ms[i];
    }
  }

  ghost predicate AllFramable(ms: seq<seq<byte>>, sep: seq<byte>) {
    forall i :: 0 <= i < |ms| ==> Framable(ms[i], sep)
  }

  lemma FramableFrames(ms: seq<seq<byte>>, sep: seq<byte>)
    requires sep != [] && AllFramable(ms, sep)
    ensures Frames(Flat(Terminated(ms, sep)), sep) == Terminated(ms, sep)
    ensures Rest(Flat(Terminated(ms, sep)), sep) == []
  {
    var fs := Terminated(ms, sep);
    assert Flat(fs) + [] == Flat(fs);
    FramesUnique(fs, [], sep);
    assert Frames([], sep) == [] && fs + [] == fs;
  }

  lemma FrameIsTerminated(f: seq<byte>, sep: seq<byte>)
    requires IsFrame(f, sep)
    ensures f == Trimmed(f, sep, true) + sep
  {
  }

  /** Framing with a separator is lossless exactly for framable messages. */
  lemma RoundTripIff(ms: seq<seq<byte>>, sep: seq<byte>)
    requires sep != []
    ensures TrimAll(Frames(Flat(Terminated(ms, sep)), sep), sep, true) == ms
            <==> AllFramable(ms, sep)
  {
    var fs := Frames(Flat(Terminated(ms, sep)), sep);
    if AllFramable(ms, sep) {
      FramableFrames(ms, sep);
      TrimTerminated(ms, sep);
    }
    if TrimAll(fs, sep, true) == ms {
      FramesComplete(Flat(Terminated(ms, sep)), sep);
      forall i | 0 <= i < |ms| ensures Framable(ms[i], sep) {
        assert IsFrame(fs[i], sep);
        FrameIsTerminated(fs[i], sep);
      }
    }
  }
}
