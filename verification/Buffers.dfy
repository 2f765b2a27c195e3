/** Buffers, and the writers that append to them (src/buffer.c, src/vector.c). */
module Buffers {
  import opened Common

  /** A `GgBuffer` variable: an offset into memory and a length. */
  class Cursor {
    var data: nat
    var len: nat

    constructor (data: nat, len: nat)
      ensures this.data == data && this.len == len
    {
      this.data, this.len := data, len;
    }

    /** `GgBuffer buf_copy = *buf`. */
    constructor Copy(other: Cursor, ghost mem: array<byte>)
      requires other.InBounds(mem)
      ensures data == other.data && len == other.len && InBounds(mem) && View(mem) == other.View(mem)
    {
      data, len := other.data, other.len;
    }

    /** `*buf = buf_copy`. */
    method Assign(other: Cursor, ghost mem: array<byte>)
      requires other.InBounds(mem) && other != this
      modifies this
      ensures data == other.data && len == other.len && InBounds(mem) && View(mem) == other.View(mem)
    {
      data, len := other.data, other.len;
    }

    ghost predicate InBounds(mem: array<byte>)
      reads this
    {
      data + len <= mem.Length
    }

    /** The bytes of the buffer. */
    ghost function View(mem: array<byte>): (v: bytes)
      reads this, mem
      requires InBounds(mem)
      ensures |v| == len
    {
      mem[data..data + len]
    }

    /** `*buf = gg_buffer_substr(*buf, n, SIZE_MAX)`. */
    method Advance(n: nat, ghost mem: array<byte>)
      requires InBounds(mem) && n <= len
      modifies this
      ensures InBounds(mem) && View(mem) == old(View(mem))[n..]
      ensures data == old(data) + n && len == old(len) - n
    {
      data, len := data + n, len - n;
    }
  }

  lemma BoundsOf(buf: Cursor, mem: array<byte>)
    ensures buf.InBounds(mem) <==> buf.data + buf.len <= mem.Length
  {}

  // ----- how memory changes

  /** Memory `was` with `out` written at `at`. */
  ghost predicate Wrote(now: bytes, was: bytes, at: nat, out: bytes) {
    at + |out| <= |was| && now == was[..at] + out + was[at + |out|..]
  }

  /** Everything outside the span from `lo` to `hi` is as it was. */
  ghost predicate SameOutside(now: bytes, was: bytes, lo: nat, hi: nat) {
    lo <= hi <= |was| && |now| == |was| && now[..lo] == was[..lo] && now[hi..] == was[hi..]
  }

  lemma SubView(mem: bytes, lo: nat, hi: nat, i: nat, j: nat)
    requires lo <= hi <= |mem| && i <= j <= hi - lo
    ensures mem[lo..hi][i..j] == mem[lo + i..lo + j]
  {
    forall k | 0 <= k < j - i ensures mem[lo..hi][i..j][k] == mem[lo + i..lo + j][k] {
      assert mem[lo..hi][i + k] == mem[lo + (i + k)];
    }
  }

  lemma SameOutsideNothing(was: bytes, at: nat)
    requires at <= |was|
    ensures SameOutside(was, was, at, at)
  {}

  lemma SameOutsideWider(now: bytes, was: bytes, lo: nat, hi: nat, lo': nat, hi': nat)
    requires SameOutside(now, was, lo, hi) && lo' <= lo && hi <= hi' <= |was|
    ensures SameOutside(now, was, lo', hi')
  {
    assert now[..lo'] == now[..lo][..lo'] && was[..lo'] == was[..lo][..lo'];
    assert now[hi'..] == now[hi..][hi' - hi..] && was[hi'..] == was[hi..][hi' - hi..];
  }

  /** Changes within a stretch, and then within a part of it. */
  lemma SameOutsideTwice(now: bytes, mid: bytes, was: bytes, lo: nat, hi: nat, start: nat, end: nat)
    requires SameOutside(mid, was, start, end) && SameOutside(now, mid, lo, hi) && start <= lo && hi <= end
    ensures SameOutside(now, was, start, end)
  {
    SameOutsideWider(now, mid, lo, hi, start, end);
  }

  /** Changes to a stretch, and then to the stretch after it. */
  lemma SameOutsideJoin(now: bytes, mid: bytes, was: bytes, lo: nat, at: nat, hi: nat)
    requires SameOutside(mid, was, lo, at) && SameOutside(now, mid, at, hi)
    ensures SameOutside(now, was, lo, hi)
  {
    assert now[..lo] == now[..at][..lo] && mid[..lo] == mid[..at][..lo];
    assert mid[hi..] == mid[at..][hi - at..] && was[hi..] == was[at..][hi - at..];
  }

  /** What has not been reached yet is as it was. */
  lemma Unread(now: bytes, was: bytes, lo: nat, at: nat, hi: nat)
    requires SameOutside(now, was, lo, at) && at <= hi <= |was|
    ensures now[at..hi] == was[at..hi]
  {
    assert now[at..hi] == now[at..][..hi - at] && was[at..hi] == was[at..][..hi - at];
  }

  lemma SameOutsideSame(was: bytes, lo: nat, hi: nat)
    requires lo <= hi <= |was|
    ensures SameOutside(was, was, lo, hi)
  {}

  /** `memcpy` into memory. */
  method MemCpy(mem: array<byte>, at: nat, b: bytes)
    requires at + |b| <= mem.Length
    modifies mem
    ensures Wrote(mem[..], old(mem[..]), at, b)
  {
    forall i | 0 <= i < |b| { mem[at + i] := b[i]; }
    assert mem[..] == old(mem[..])[..at] + b + old(mem[..])[at + |b|..];
  }

  // ----- writers

  /** A bounded output buffer: what has been written, and how much more fits. */
  datatype Sink = Sink(done: bytes, room: nat)

  function Write(w: Sink, b: bytes): (GgError, Sink) {
    if |b| <= w.room then (OK, Sink(w.done + b, w.room - |b|)) else (NOMEM, w)
  }

  /** Write pieces one after the other until one does not fit. */
  function WriteAll(w: Sink, pieces: seq<bytes>): (GgError, Sink)
    decreases |pieces|
  {
    if pieces == [] then (OK, w)
    else
      var r := Write(w, pieces[0]);
      if r.0 != OK then r else WriteAll(r.1, pieces[1..])
  }

  function Concat(pieces: seq<bytes>): bytes {
    if pieces == [] then [] else pieces[0] + Concat(pieces[1..])
  }

  lemma {:induction false} WriteAllConcat(w: Sink, ps: seq<bytes>, qs: seq<bytes>)
    ensures WriteAll(w, ps + qs) == var r := WriteAll(w, ps); if r.0 != OK then r else WriteAll(r.1, qs)
    decreases |ps|
  {
    hide Write;
    if ps == [] {
      assert ps + qs == qs;
    } else {
      assert (ps + qs)[0] == ps[0] && (ps + qs)[1..] == ps[1..] + qs;
      WriteAllConcat(Write(w, ps[0]).1, ps[1..], qs);
    }
  }

  lemma {:induction false} ConcatConcat(ps: seq<bytes>, qs: seq<bytes>)
    ensures Concat(ps + qs) == Concat(ps) + Concat(qs)
    decreases |ps|
  {
    if ps == [] {
      assert ps + qs == qs;
    } else {
      assert (ps + qs)[0] == ps[0] && (ps + qs)[1..] == ps[1..] + qs;
      ConcatConcat(ps[1..], qs);
      assert ps[0] + (Concat(ps[1..]) + Concat(qs)) == ps[0] + Concat(ps[1..]) + Concat(qs);
    }
  }

  /** Pieces are written completely exactly when all of them together fit. */
  lemma {:induction false} WriteAllWrites(w: Sink, pieces: seq<bytes>)
    ensures var r := WriteAll(w, pieces); var t := Concat(pieces);
      if |t| <= w.room then r == (OK, Sink(w.done + t, w.room - |t|)) else r.0 == NOMEM
    decreases |pieces|
  {
    if pieces == [] {
      assert w.done + [] == w.done;
    } else {
      var r := Write(w, pieces[0]);
      WriteAllWrites(r.1, pieces[1..]);
      assert w.done + pieces[0] + Concat(pieces[1..]) == w.done + (pieces[0] + Concat(pieces[1..]));
    }
  }

  lemma ConcatOne(b: bytes)
    ensures Concat([b]) == b
  {
    assert [b][1..] == [];
  }

  lemma PieceAt(w: Sink, pieces: seq<bytes>, i: nat)
    requires i < |pieces|
    ensures WriteAll(w, pieces[i..]) == var r := Write(w, pieces[i]);
      if r.0 != OK then r else WriteAll(r.1, pieces[i + 1..])
    ensures pieces[|pieces|..] == [] && WriteAll(w, []) == (OK, w)
  {
    assert pieces[i..][1..] == pieces[i + 1..];
  }

  lemma OnePiece(w: Sink, b: bytes)
    ensures WriteAll(w, [b]) == Write(w, b)
  {
    PieceAt(w, [b], 0);
  }

  lemma SinkWrite(w: Sink, b: bytes)
    ensures Write(w, b) == if |b| <= w.room then (OK, Sink(w.done + b, w.room - |b|)) else (NOMEM, w)
  {}

  /** The writer over a buffer: what lies between `start` and the buffer has been written. */
  ghost function SinkOf(mem: bytes, start: nat, data: nat, len: nat): Sink
    requires start <= data <= |mem|
  {
    Sink(mem[start..data], len)
  }

  /** `buf_write`: copy into the buffer and consume what was used of it. */
  method BufWrite(mem: array<byte>, target: Cursor, buf: bytes, ghost start: nat) returns (err: GgError)
    requires target.InBounds(mem) && start <= target.data
    modifies mem, target
    ensures target.InBounds(mem) && target.data + target.len == old(target.data + target.len) &&
      target.data >= old(target.data)
    ensures (err, SinkOf(mem[..], start, target.data, target.len))
         == Write(old(SinkOf(mem[..], start, target.data, target.len)), buf)
    ensures SameOutside(mem[..], old(mem[..]), old(target.data), target.data)
  {
    if |buf| == 0 {
      assert mem[start..target.data] + buf == mem[start..target.data];
      return OK;
    }
    if target.len < |buf| {
      return NOMEM;
    }
    var at := target.data;
    forall i | 0 <= i < |buf| { mem[at + i] := buf[i]; }
    target.Advance(|buf|, mem);
    assert mem[start..target.data] == old(mem[start..target.data]) + buf;
    return OK;
  }
}
