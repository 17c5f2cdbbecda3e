/** Owned, growable byte buffers. A buffer has one owner at a time, so it is a
    value that moves from place to place; its number tells it from all others. */
module Chunks {
  import opened Framing

  datatype DataPtr = Null | Ptr(id: nat, data: seq<byte>, cap: nat)

  /** A region offered to the system for one transfer: `len` bytes of the buffer
      with number `id`, from `pos` on. */
  datatype Region = NoRegion | Region(id: nat, pos: nat, len: nat)

  function Zeros(n: nat): (r: seq<byte>)
    ensures |r| == n
  {
    seq(n, _ => 0)
  }

  /** `n` zero bytes, with no spare capacity. */
  function Create(id: nat, n: nat): (p: DataPtr)
    ensures p.Ptr? && |p.data| == n == p.cap
  {
    Ptr(id, Zeros(n), n)
  }

  /** Cuts the tail off, or appends zero bytes within the capacity. */
  function Resize(p: DataPtr, n: nat): (q: DataPtr)
    requires p.Ptr? && n <= p.cap
    ensures q.Ptr? && q.id == p.id && q.cap == p.cap && |q.data| == n
    ensures n <= |p.data| ==> q.data == p.data[..n]
    ensures n >= |p.data| ==> q.data == p.data + Zeros(n - |p.data|)
  {
    if n <= |p.data| then p.(data := p.data[..n]) else p.(data := p.data + Zeros(n - |p.data|))
  }

  predicate NoNull(ps: seq<DataPtr>) {
    forall i :: 0 <= i < |ps| ==> ps[i].Ptr?
  }

  /** The contents of a list of chunks. */
  function Datas(ps: seq<DataPtr>): (r: seq<seq<byte>>)
    requires NoNull(ps)
    ensures |r| == |ps|
    ensures forall i :: 0 <= i < |ps| ==> r[i] == ps[i].data
  {
    seq(|ps|, i requires 0 <= i < |ps| && ps[i].Ptr? => ps[i].data)
  }

  /** No two buffers have the same number: numbers grow along a list. */
  predicate Numbered(ps: seq<DataPtr>)
    requires NoNull(ps)
  {
    forall i, j :: 0 <= i < j < |ps| ==> ps[i].id < ps[j].id
  }

  /** Every chunk has the standard capacity and a number of its own, and the next
      number is unused. */
  predicate Allocated(ps: seq<DataPtr>, bufsize: nat, nextId: nat): (ok: bool)
    ensures ok ==> NoNull(ps)
  {
    && NoNull(ps)
    && (forall i :: 0 <= i < |ps| ==> ps[i].cap == bufsize && ps[i].id < nextId)
    && Numbered(ps)
  }

  lemma AllocatedAt(ps: seq<DataPtr>, bufsize: nat, nextId: nat, i: nat)
    requires Allocated(ps, bufsize, nextId) && i < |ps|
    ensures ps[i].Ptr? && ps[i].cap == bufsize && ps[i].id < nextId
  {
  }

  lemma AllocatedAppend(ps: seq<DataPtr>, p: DataPtr, bufsize: nat, nextId: nat)
    requires Allocated(ps, bufsize, nextId)
    requires p.Ptr? && p.id == nextId && p.cap == bufsize
    ensures Allocated(ps + [p], bufsize, nextId + 1)
    ensures Datas(ps + [p]) == Datas(ps) + [p.data]
  {
  }

  lemma AllocatedUpdate(ps: seq<DataPtr>, i: nat, data: seq<byte>, bufsize: nat, nextId: nat)
    requires Allocated(ps, bufsize, nextId) && i < |ps|
    ensures Allocated(ps[i := ps[i].(data := data)], bufsize, nextId)
    ensures Datas(ps[i := ps[i].(data := data)]) == Datas(ps)[i := data]
  {
  }

  lemma AllocatedSlice(ps: seq<DataPtr>, lo: nat, hi: nat, bufsize: nat, nextId: nat)
    requires Allocated(ps, bufsize, nextId) && lo <= hi <= |ps|
    ensures Allocated(ps[lo..hi], bufsize, nextId)
    ensures Datas(ps[lo..hi]) == Datas(ps)[lo..hi]
  {
  }

  lemma AllocatedFrom(ps: seq<DataPtr>, lo: nat, bufsize: nat, nextId: nat, more: nat)
    requires Allocated(ps, bufsize, nextId) && lo <= |ps| && nextId <= more
    ensures Allocated(ps[lo..], bufsize, more)
    ensures Datas(ps[lo..]) == Datas(ps)[lo..]
  {
  }
}
