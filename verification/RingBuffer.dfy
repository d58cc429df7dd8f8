/**
  The serial port's ring buffer: a fixed block that must behave as a queue. Bytes enter at the
  end, a flush writes them from the front, in two parts when they wrap around.
 */
module RingBuffer {
  import opened Bytes
  import Mbuf
  import Slices

  /** The block, the place of the oldest byte and the number of bytes held. */
  datatype Ring = Ring(buf: seq<byte>, pos: nat, size: nat)

  predicate InBounds(r: Ring)
  {
    r.pos <= |r.buf| && r.size <= |r.buf|
  }

  /** The bytes held run past the end of the block. */
  predicate Wraps(r: Ring)
  {
    r.pos + r.size > |r.buf|
  }

  /** How many bytes are held up to the end of the block, and how many at its start. */
  function AtEnd(r: Ring): (n: nat)
    requires InBounds(r)
  {
    if Wraps(r) then |r.buf| - r.pos else r.size
  }

  function AtStart(r: Ring): (n: nat)
    requires InBounds(r)
    ensures n + AtEnd(r) == r.size
  {
    r.size - AtEnd(r)
  }

  /** The queue: the bytes held, oldest first. */
  function Held(r: Ring): (s: seq<byte>)
    requires InBounds(r)
    ensures |s| == r.size
  {
    if Wraps(r) then r.buf[r.pos..] + r.buf[..AtStart(r)] else r.buf[r.pos..r.pos + r.size]
  }

  // ----- putting bytes in -----

  /** Where the next byte goes. */
  function End(r: Ring): (e: nat)
    requires InBounds(r)
    ensures e <= |r.buf|
  {
    if Wraps(r) then r.pos + r.size - |r.buf| else r.pos + r.size
  }

  /** The block with `data` stored from `at` on, around its end. */
  function Stored(buf: seq<byte>, at: nat, data: seq<byte>): (b: seq<byte>)
    requires at <= |buf| && |data| <= |buf|
    ensures |b| == |buf|
  {
    if at + |data| <= |buf| then buf[..at] + data + buf[at + |data|..]
    else
      var fit := |buf| - at;
      data[fit..] + buf[|data| - fit..at] + data[..fit]
  }

  function Put(r: Ring, data: seq<byte>): (r': Ring)
    requires InBounds(r) && |data| <= |r.buf| - r.size
    ensures InBounds(r')
  {
    Ring(Stored(r.buf, End(r), data), r.pos, r.size + |data|)
  }

  lemma StoredOne(buf: seq<byte>, at: nat, b: byte)
    requires at <= |buf| && buf != []
    ensures Stored(buf, at, [b]) == buf[(if at == |buf| then 0 else at) := b]
  {
  }

  lemma StoredAhead(buf: seq<byte>, at: nat, data: seq<byte>, from: nat)
    requires at + |data| <= |buf| && from <= at
    ensures Stored(buf, at, data)[from..at + |data|] == buf[from..at] + data
    ensures Stored(buf, at, data)[at + |data|..] == buf[at + |data|..]
  {
  }

  lemma StoredAround(buf: seq<byte>, at: nat, data: seq<byte>, from: nat)
    requires |data| <= |buf| && from <= at <= |buf| < at + |data| && at + |data| - |buf| <= from
    ensures var fit := |buf| - at;
            Stored(buf, at, data)[from..|buf|] == buf[from..at] + data[..fit] &&
            Stored(buf, at, data)[..|data| - fit] == data[fit..]
  {
  }

  /** Bytes put in join the queue at its end. */
  lemma PutAppends(r: Ring, data: seq<byte>)
    requires InBounds(r) && |data| <= |r.buf| - r.size
    ensures Held(Put(r, data)) == Held(r) + data
  {
    hide Stored;
    if Wraps(r) {
      PutAtStart(r, data);
    } else if End(r) + |data| <= |r.buf| {
      StoredAhead(r.buf, End(r), data, r.pos);
    } else {
      PutAround(r, data);
    }
  }

  lemma PutAtStart(r: Ring, data: seq<byte>)
    requires InBounds(r) && |data| <= |r.buf| - r.size && Wraps(r)
    ensures Held(Put(r, data)) == Held(r) + data
  {
    hide Stored;
    var b, end := Put(r, data).buf, End(r);
    var shift := r.pos - (end + |data|);
    StoredAhead(r.buf, end, data, 0);
    Slices.DropDrop(r.buf, end + |data|, shift);
    Slices.DropDrop(b, end + |data|, shift);
    assert b[0..end + |data|] == b[..end + |data|] && r.buf[0..end] == r.buf[..end];
    Slices.Assoc3(r.buf[r.pos..], r.buf[..end], data);
  }

  lemma PutAround(r: Ring, data: seq<byte>)
    requires InBounds(r) && |data| <= |r.buf| - r.size && !Wraps(r) && End(r) + |data| > |r.buf|
    ensures Held(Put(r, data)) == Held(r) + data
  {
    hide Stored;
    var b, end := Put(r, data).buf, End(r);
    var fit := |r.buf| - end;
    StoredAround(r.buf, end, data, r.pos);
    assert b[r.pos..|b|] == b[r.pos..];
    assert data == data[..fit] + data[fit..];
    Slices.Assoc3(r.buf[r.pos..end], data[..fit], data[fit..]);
  }

  // ----- writing bytes out -----

  /** What the operating system answers to a write: a count, `EINTR` or `EAGAIN`, or an error. */
  datatype Answer = Wrote(n: nat) | Again | Broken(errno: int)

  /** An answer to a write of `asked` bytes; there is no write of none. */
  predicate Answers(a: Answer, asked: nat)
  {
    asked > 0 && a.Wrote? ==> a.n <= asked
  }

  /** The state after a flush, the bytes the system took and the error, if there was one. */
  datatype Flushed = Flushed(ring: Ring, written: seq<byte>, error: Option<int>)

  function ErrorOf(a: Answer): (e: Option<int>)
  {
    if a.Broken? then Some(a.errno) else None
  }

  /** Writing `asked` bytes at `pos`. */
  function WriteOut(r: Ring, asked: nat, a: Answer): (f: Flushed)
    requires InBounds(r) && asked <= r.size && r.pos + asked <= |r.buf| && Answers(a, asked)
    ensures InBounds(f.ring) && f.ring.buf == r.buf && f.ring.size + asked >= r.size
  {
    if asked > 0 && a.Wrote? then
      Flushed(r.(pos := r.pos + a.n, size := r.size - a.n), r.buf[r.pos..r.pos + a.n], None)
    else Flushed(r, [], if asked > 0 then ErrorOf(a) else None)
  }

  predicate Flushable(r: Ring, a: Answer, b: Answer)
    requires InBounds(r)
  {
    Answers(a, AtEnd(r)) && Answers(b, AtStart(r))
  }

  /** The flush: the part up to the end of the block, then, from its start, the rest. */
  function Flush(r: Ring, a: Answer, b: Answer): (f: Flushed)
    requires InBounds(r) && Flushable(r, a, b)
    ensures InBounds(f.ring)
  {
    var first := WriteOut(r, AtEnd(r), a);
    if (AtEnd(r) > 0 && !a.Wrote?) || AtStart(r) == 0 then first
    else
      var second := WriteOut(first.ring.(pos := 0), AtStart(r), b);
      second.(written := first.written + second.written)
  }

  /** Bytes leave the queue from its front, in order. */
  predicate Fifo(r: Ring, f: Flushed)
    requires InBounds(r) && InBounds(f.ring)
  {
    Held(r) == f.written + Held(f.ring)
  }

  /** The first part of a wrapped flush is written whole or not at all. */
  predicate FirstPartWhole(r: Ring, a: Answer)
    requires InBounds(r)
  {
    AtStart(r) > 0 && a.Wrote? ==> AtEnd(r) == 0 || a.n == AtEnd(r)
  }

  lemma WriteOutTakes(r: Ring, asked: nat, a: Answer)
    requires InBounds(r) && asked <= r.size && r.pos + asked <= |r.buf| && Answers(a, asked) && !Wraps(r)
    ensures Fifo(r, WriteOut(r, asked, a))
  {
    var f := WriteOut(r, asked, a);
    if asked > 0 && a.Wrote? {
      assert r.buf[r.pos..r.pos + r.size] == r.buf[r.pos..r.pos + a.n] + r.buf[r.pos + a.n..r.pos + r.size];
    }
  }

  /** The first part of a wrapped flush, written whole. */
  lemma WriteOutAll(r: Ring, a: Answer)
    requires InBounds(r) && Wraps(r) && Answers(a, AtEnd(r)) && (AtEnd(r) == 0 || (a.Wrote? && a.n == AtEnd(r)))
    ensures var f := WriteOut(r, AtEnd(r), a);
            f.ring.(pos := 0) == Ring(r.buf, 0, AtStart(r)) && f.written == r.buf[r.pos..]
  {
    assert r.buf[r.pos..r.pos + AtEnd(r)] == r.buf[r.pos..];
  }

  lemma WriteOutNone(r: Ring, asked: nat, a: Answer)
    requires InBounds(r) && asked <= r.size && r.pos + asked <= |r.buf| && !a.Wrote?
    ensures WriteOut(r, asked, a).ring == r && WriteOut(r, asked, a).written + Held(r) == Held(r)
  {
    assert [] + Held(r) == Held(r);
  }

  lemma HeldWrapped(r: Ring)
    requires InBounds(r) && Wraps(r)
    ensures Held(r) == r.buf[r.pos..] + Held(Ring(r.buf, 0, AtStart(r)))
  {
    assert r.buf[0..AtStart(r)] == r.buf[..AtStart(r)];
  }

  lemma FlushTakes(r: Ring, a: Answer, b: Answer)
    requires InBounds(r) && Flushable(r, a, b) && FirstPartWhole(r, a)
    ensures Fifo(r, Flush(r, a, b))
  {
    hide Held, WriteOut;
    if !Wraps(r) {
      WriteOutTakes(r, AtEnd(r), a);
    } else if AtEnd(r) == 0 || a.Wrote? {
      var rest := Ring(r.buf, 0, AtStart(r));
      var second := WriteOut(rest, AtStart(r), b);
      WriteOutAll(r, a);
      HeldWrapped(r);
      WriteOutTakes(rest, AtStart(r), b);
      Slices.Assoc3(r.buf[r.pos..], second.written, Held(second.ring));
    } else {
      WriteOutNone(r, AtEnd(r), a);
    }
  }

  /** A block that differs between its start and every other place. */
  function Marked(n: nat): (s: seq<byte>)
    ensures |s| == n
  {
    seq(n, i => if i == 0 then 1 else 0)
  }

  /** A partial write of the first part of a wrapped flush breaks the queue: the place is reset to
      the start of the block, and the bytes not yet written there are lost. */
  lemma PartialFirstPartBreaks(max: nat, pos: nat, size: nat, a: Answer, b: Answer)
    requires var r := Ring(Marked(max), pos, size); InBounds(r) && Flushable(r, a, b) && !FirstPartWhole(r, a)
    ensures var r := Ring(Marked(max), pos, size); !Fifo(r, Flush(r, a, b))
  {
    var r := Ring(Marked(max), pos, size);
    var f := Flush(r, a, b);
    assert Held(r)[a.n] == 0;
    if b.Wrote? && b.n > 0 {
      assert f.written[a.n] == 1;
      assert (f.written + Held(f.ring))[a.n] == 1;
    } else {
      assert |f.written| == a.n && f.ring.pos == 0 && f.ring.size > 0;
      assert Held(f.ring)[0] == 1;
      assert (f.written + Held(f.ring))[a.n] == 1;
    }
  }

  ghost predicate AlwaysFifo(max: nat, pos: nat, size: nat, a: Answer, b: Answer)
    requires pos <= max && size <= max && Flushable(Ring(Marked(max), pos, size), a, b)
  {
    forall buf: seq<byte> | |buf| == max :: Fifo(Ring(buf, pos, size), Flush(Ring(buf, pos, size), a, b))
  }

  /** A flush keeps the queue, whatever bytes it holds, exactly when the first part of a wrapped
      flush is written whole or not at all. */
  lemma FlushIffFirstPartWhole(max: nat, pos: nat, size: nat, a: Answer, b: Answer)
    requires pos <= max && size <= max && Flushable(Ring(Marked(max), pos, size), a, b)
    ensures AlwaysFifo(max, pos, size, a, b) <==> FirstPartWhole(Ring(Marked(max), pos, size), a)
  {
    if FirstPartWhole(Ring(Marked(max), pos, size), a) {
      forall buf: seq<byte> | |buf| == max
        ensures Fifo(Ring(buf, pos, size), Flush(Ring(buf, pos, size), a, b))
      {
        FlushTakes(Ring(buf, pos, size), a, b);
      }
    } else {
      PartialFirstPartBreaks(max, pos, size, a, b);
    }
  }

  // ----- runs -----

  datatype Op = Output(data: seq<byte>) | OutChar(b: byte) | Write(first: Answer, second: Answer)

  /** What an operation is asked to store. */
  function Offered(op: Op): (data: seq<byte>)
  {
    match op
    case Output(data) => data
    case OutChar(b) => [b]
    case Write(_, _) => []
  }

  /** Bytes are taken all or not at all. */
  function Accepted(r: Ring, op: Op): (data: seq<byte>)
    requires InBounds(r)
  {
    if |Offered(op)| <= |r.buf| - r.size then Offered(op) else []
  }

  predicate Allowed(r: Ring, op: Op)
    requires InBounds(r)
  {
    op.Write? ==> Flushable(r, op.first, op.second) && FirstPartWhole(r, op.first)
  }

  function Step(r: Ring, op: Op): (f: Flushed)
    requires InBounds(r) && Allowed(r, op)
    ensures InBounds(f.ring)
  {
    if op.Write? then Flush(r, op.first, op.second) else Flushed(Put(r, Accepted(r, op)), [], None)
  }

  predicate AllAllowed(r: Ring, ops: seq<Op>)
    requires InBounds(r)
    decreases |ops|
  {
    ops == [] || (Allowed(r, ops[0]) && AllAllowed(Step(r, ops[0]).ring, ops[1..]))
  }

  datatype Trace = Trace(ring: Ring, accepted: seq<byte>, written: seq<byte>)

  function Run(r: Ring, ops: seq<Op>): (t: Trace)
    requires InBounds(r) && AllAllowed(r, ops)
    ensures InBounds(t.ring)
    decreases |ops|
  {
    if ops == [] then Trace(r, [], [])
    else
      var f := Step(r, ops[0]);
      var t := Run(f.ring, ops[1..]);
      Trace(t.ring, Accepted(r, ops[0]) + t.accepted, f.written + t.written)
  }

  /** Over every run, the bytes held before and the bytes accepted are the bytes written, in order,
      followed by the bytes still held. */
  lemma {:induction false} RunIsFifo(r: Ring, ops: seq<Op>)
    requires InBounds(r) && AllAllowed(r, ops)
    ensures var t := Run(r, ops); Held(r) + t.accepted == t.written + Held(t.ring)
    decreases |ops|
  {
    hide Held, Put, Flush;
    if ops != [] {
      var op, f := ops[0], Step(r, ops[0]);
      var t := Run(f.ring, ops[1..]);
      RunIsFifo(f.ring, ops[1..]);
      if op.Write? {
        FlushTakes(r, op.first, op.second);
        Slices.Regroup(Held(r), [], f.written, Held(f.ring), t.accepted, t.written, Held(t.ring));
      } else {
        PutAppends(r, Accepted(r, op));
        Slices.Regroup(Held(r), Accepted(r, op), [], Held(f.ring), t.accepted, t.written, Held(t.ring));
      }
    }
  }

  /** The place of the oldest byte can be the end of the block itself. */
  lemma EndIsReachable(data: seq<byte>)
    requires data != []
    ensures var ops := [Output(data), Write(Wrote(|data|), Again)];
            var r := Ring(Zeros(|data|), 0, 0);
            AllAllowed(r, ops) && Run(r, ops).ring == Ring(data, |data|, 0) && Run(r, ops).written == data
  {
    var r := Ring(Zeros(|data|), 0, 0);
    var ops := [Output(data), Write(Wrote(|data|), Again)];
    var full := Step(r, ops[0]).ring;
    assert full == Ring(data, 0, |data|);
    assert ops[1..][0] == ops[1] && ops[1..][1..] == [];
    assert Run(full, ops[1..]) == Trace(Ring(data, |data|, 0), [], data[0..|data|] + []);
  }

  // ----- in place -----

  /** Stores `data` from `at` on, around the end of the block. */
  method Store(buf: array<byte>, at: nat, data: seq<byte>)
    requires at <= buf.Length && |data| <= buf.Length
    modifies buf
    ensures buf[..] == Stored(old(buf[..]), at, data)
  {
    hide Stored;
    ghost var was := buf[..];
    if at + |data| > buf.Length {
      var availend := buf.Length - at;
      Mbuf.MemCopy(buf, at, data[..availend]);
      Mbuf.MemCopy(buf, 0, data[availend..]);
      StoredTwice(was, at, data, buf[..]);
    } else {
      Mbuf.MemCopy(buf, at, data);
      StoredOnce(was, at, data, buf[..]);
    }
  }

  lemma StoredOnce(was: seq<byte>, at: nat, data: seq<byte>, now: seq<byte>)
    requires |now| == |was| && at + |data| <= |was|
    requires forall i | at <= i < at + |data| :: now[i] == data[i - at]
    requires forall i | 0 <= i < |was| && !(at <= i < at + |data|) :: now[i] == was[i]
    ensures now == Stored(was, at, data)
  {
  }

  lemma StoredTwice(was: seq<byte>, at: nat, data: seq<byte>, now: seq<byte>)
    requires |now| == |was| && |data| <= |was| && at <= |was| < at + |data|
    requires forall i | at <= i < |was| :: now[i] == data[i - at]
    requires forall i | 0 <= i < at + |data| - |was| :: now[i] == data[i + |was| - at]
    requires forall i | at + |data| - |was| <= i < at :: now[i] == was[i]
    ensures now == Stored(was, at, data)
  {
  }

  class Sbuf {
    var buf: array<byte>
    var pos: nat
    var cursize: nat

    ghost predicate Valid()
      reads this
    {
      pos <= buf.Length && cursize <= buf.Length
    }

    ghost function Value(): (r: Ring)
      reads this, buf
    {
      Ring(buf[..], pos, cursize)
    }

    constructor (data: array<byte>)
      ensures Valid() && buf == data && Value() == Ring(data[..], 0, 0) && Held(Value()) == []
    {
      buf, pos, cursize := data, 0, 0;
    }

    /** Takes all of `data`, or none of it when there is no room. */
    method Output(data: seq<byte>) returns (ok: bool)
      requires Valid()
      modifies this`cursize, buf
      ensures Valid() && ok == (|data| <= buf.Length - old(cursize))
      ensures Value() == if ok then Put(old(Value()), data) else old(Value())
      ensures Held(Value()) == old(Held(Value())) + if ok then data else []
    {
      hide Held, Stored;
      ghost var was := Value();
      if buf.Length - cursize < |data| {
        assert Held(was) + [] == Held(was);
        return false;
      }
      var end := pos + cursize;
      if end > buf.Length {
        end := end - buf.Length;
      }
      Store(buf, end, data);
      cursize := cursize + |data|;
      ok := true;
      PutAppends(was, data);
    }

    method OutChar(b: byte) returns (ok: bool)
      requires Valid()
      modifies this`cursize, buf
      ensures Valid() && ok == (old(cursize) < buf.Length)
      ensures Value() == if ok then Put(old(Value()), [b]) else old(Value())
      ensures Held(Value()) == old(Held(Value())) + if ok then [b] else []
    {
      hide Held, Stored;
      ghost var was := Value();
      if buf.Length - cursize < 1 {
        assert Held(was) + [] == Held(was);
        return false;
      }
      var end := pos + cursize;
      if end >= buf.Length {
        end := end - buf.Length;
      }
      buf[end] := b;
      cursize := cursize + 1;
      ok := true;
      assert buf[..] == was.buf[end := b];
      StoredOne(was.buf, End(was), b);
      PutAppends(was, [b]);
    }

    /** Writes `asked` bytes at `pos`; `a` is the answer. */
    method WriteSegment(asked: nat, a: Answer) returns (errno: Option<int>, written: seq<byte>)
      requires Valid() && 0 < asked <= cursize && pos + asked <= buf.Length && Answers(a, asked)
      modifies this`pos, this`cursize
      ensures Valid() && Flushed(Value(), written, errno) == WriteOut(old(Value()), asked, a)
    {
      errno, written := None, [];
      if a.Wrote? {
        written := buf[pos..pos + a.n];
        pos, cursize := pos + a.n, cursize - a.n;
      } else if a.Broken? {
        errno := Some(a.errno);
      }
    }

    /** Flushes; `a` and `b` are the answers to the first and the second write. */
    method Write(a: Answer, b: Answer) returns (errno: Option<int>, written: seq<byte>)
      requires Valid() && Flushable(Value(), a, b)
      modifies this`pos, this`cursize
      ensures Valid() && Flushed(Value(), written, errno) == Flush(old(Value()), a, b)
      ensures FirstPartWhole(old(Value()), a) ==> old(Held(Value())) == written + Held(Value())
    {
      hide Held, WriteOut;
      ghost var was := Value();
      if FirstPartWhole(was, a) {
        FlushTakes(was, a, b);
      }
      var towrite1, towrite2 := cursize, 0;
      if pos + cursize > buf.Length {
        towrite1 := buf.Length - pos;
        towrite2 := cursize - towrite1;
      }
      errno, written := None, [];
      NothingAsked(was, a);
      if towrite1 > 0 {
        errno, written := WriteSegment(towrite1, a);
        if !a.Wrote? {
          return;
        }
      }
      if towrite2 > 0 {
        pos := 0;
        var more;
        errno, more := WriteSegment(towrite2, b);
        written := written + more;
      }
    }
  }

  lemma NothingAsked(r: Ring, a: Answer)
    requires InBounds(r)
    ensures WriteOut(r, 0, a) == Flushed(r, [], None)
  {
  }
}
