/**
  The control port's output: text waits in a block that grows in steps of 1024 bytes while the
  connection takes it piece by piece, and is given back when all of it is written.
 */
module ControllerOutput {
  import opened Bytes
  import Mbuf
  import Slices

  /** What waits, its place in the block, and the size of the block. */
  datatype Output = Idle | Sending(pending: seq<byte>, pos: nat, room: nat)

  predicate InBounds(o: Output)
  {
    o.Sending? ==> o.pos + |o.pending| <= o.room && o.room % 1024 == 0
  }

  function Pending(o: Output): (s: seq<byte>)
  {
    if o.Idle? then [] else o.pending
  }

  /** The next multiple of 1024 that is larger. */
  function Rounded(n: nat): (r: nat)
    ensures n < r <= n + 1024 && r % 1024 == 0
  {
    (n / 1024) * 1024 + 1024
  }

  /** Whether more text is taken: it fits, or there is memory for a larger block. */
  predicate Takes(o: Output, data: seq<byte>, memory: bool)
  {
    memory || (o.Sending? && |o.pending| + |data| <= o.room)
  }

  function Add(o: Output, data: seq<byte>, memory: bool): (o': Output)
    requires InBounds(o)
    ensures InBounds(o')
  {
    var all := Pending(o) + data;
    if !Takes(o, data, memory) then o
    else Sending(all, 0, if o.Sending? && |all| <= o.room then o.room else Rounded(|all|))
  }

  function Written(o: Output, n: nat): (o': Output)
    requires InBounds(o) && n <= |Pending(o)|
    ensures InBounds(o')
  {
    if n == |Pending(o)| then Idle else Sending(o.pending[n..], o.pos + n, o.room)
  }

  // ----- runs -----

  datatype Op = More(data: seq<byte>, memory: bool) | Wrote(n: nat)

  predicate Allowed(o: Output, op: Op)
  {
    op.Wrote? ==> op.n <= |Pending(o)|
  }

  function Step(o: Output, op: Op): (o': Output)
    requires InBounds(o) && Allowed(o, op)
    ensures InBounds(o')
  {
    match op
    case More(data, memory) => Add(o, data, memory)
    case Wrote(n) => Written(o, n)
  }

  /** The text taken and the text written in a step. */
  function TakenBy(o: Output, op: Op): (s: seq<byte>)
  {
    if op.More? && Takes(o, op.data, op.memory) then op.data else []
  }

  function WrittenBy(o: Output, op: Op): (s: seq<byte>)
    requires Allowed(o, op)
  {
    if op.Wrote? then Pending(o)[..op.n] else []
  }

  predicate AllAllowed(o: Output, ops: seq<Op>)
    requires InBounds(o)
    decreases |ops|
  {
    ops == [] || (Allowed(o, ops[0]) && AllAllowed(Step(o, ops[0]), ops[1..]))
  }

  datatype Trace = Trace(end: Output, taken: seq<byte>, written: seq<byte>)

  function Run(o: Output, ops: seq<Op>): (t: Trace)
    requires InBounds(o) && AllAllowed(o, ops)
    ensures InBounds(t.end)
    decreases |ops|
  {
    if ops == [] then Trace(o, [], [])
    else
      var t := Run(Step(o, ops[0]), ops[1..]);
      Trace(t.end, TakenBy(o, ops[0]) + t.taken, WrittenBy(o, ops[0]) + t.written)
  }

  /** All the text handed over in a run. */
  function Offered(ops: seq<Op>): (s: seq<byte>)
  {
    if ops == [] then [] else (if ops[0].More? then ops[0].data else []) + Offered(ops[1..])
  }

  predicate MemoryLasts(ops: seq<Op>)
  {
    forall i | 0 <= i < |ops| && ops[i].More? :: ops[i].memory
  }

  /** Nothing is lost, doubled or reordered: what waited and what was taken is what was written
      followed by what waits. */
  lemma {:induction false} NothingIsLost(o: Output, ops: seq<Op>)
    requires InBounds(o) && AllAllowed(o, ops)
    ensures var t := Run(o, ops); Pending(o) + t.taken == t.written + Pending(t.end)
    decreases |ops|
  {
    if ops == [] {
      assert Pending(o) + [] == Pending(o) == [] + Pending(o);
    } else {
      hide Step, TakenBy, WrittenBy, Pending;
      var op, o' := ops[0], Step(o, ops[0]);
      var t := Run(o', ops[1..]);
      NothingIsLost(o', ops[1..]);
      StepKeeps(o, op);
      Slices.Regroup(Pending(o), TakenBy(o, op), WrittenBy(o, op), Pending(o'), t.taken, t.written, Pending(t.end));
    }
  }

  lemma StepKeeps(o: Output, op: Op)
    requires InBounds(o) && Allowed(o, op)
    ensures Pending(o) + TakenBy(o, op) == WrittenBy(o, op) + Pending(Step(o, op))
  {
    if op.Wrote? {
      assert Pending(Step(o, op)) == Pending(o)[op.n..];
    } else {
      assert Pending(Step(o, op)) == Pending(o) + TakenBy(o, op);
    }
  }

  lemma {:induction false} AllIsTaken(o: Output, ops: seq<Op>)
    requires InBounds(o) && AllAllowed(o, ops) && MemoryLasts(ops)
    ensures Run(o, ops).taken == Offered(ops)
    decreases |ops|
  {
    if ops != [] {
      assert forall i | 0 <= i < |ops[1..]| :: ops[1..][i] == ops[i + 1];
      AllIsTaken(Step(o, ops[0]), ops[1..]);
      assert [] + Offered(ops[1..]) == Offered(ops[1..]);
    }
  }

  /** From an idle connection, with memory at hand, all text output is written or still waits. */
  lemma OutputIsConserved(ops: seq<Op>)
    requires AllAllowed(Idle, ops) && MemoryLasts(ops)
    ensures var t := Run(Idle, ops); t.written + Pending(t.end) == Offered(ops)
  {
    NothingIsLost(Idle, ops);
    AllIsTaken(Idle, ops);
    assert [] + Offered(ops) == Offered(ops);
  }

  // ----- in place -----

  /** What the connection answers to a write. */
  datatype Answer = Count(n: nat) | Again | Failed

  class Controller {
    var outbuf: array?<byte>
    var outbufPos: nat
    var outbufCount: nat
    var reading: bool

    ghost predicate Valid()
      reads this
    {
      && (outbuf != null ==> outbufPos + outbufCount <= outbuf.Length && outbuf.Length % 1024 == 0)
      && (outbuf == null ==> outbufCount == 0)
      && reading == (outbuf == null)
    }

    ghost function Value(): (o: Output)
      requires Valid()
      reads this, outbuf
    {
      if outbuf == null then Idle
      else Sending(outbuf[outbufPos..outbufPos + outbufCount], outbufPos, outbuf.Length)
    }

    constructor ()
      ensures Valid() && Value() == Idle
    {
      outbuf, outbufPos, outbufCount, reading := null, 0, 0, true;
    }

    /** Moves what waits to the front of the block. */
    method Shift()
      requires outbuf != null && Valid()
      modifies outbuf
      ensures outbuf[..outbufCount] == old(outbuf[outbufPos..outbufPos + outbufCount])
    {
      var i := 0;
      while i < outbufCount
        invariant 0 <= i <= outbufCount
        invariant outbuf[..i] == old(outbuf[outbufPos..outbufPos + i])
        invariant forall k | outbufPos + i <= k < outbuf.Length :: outbuf[k] == old(outbuf[k])
      {
        outbuf[i] := outbuf[outbufPos + i];
        assert outbuf[..i + 1] == outbuf[..i] + [outbuf[i]];
        i := i + 1;
      }
    }

    /** Adds text in the block there is. */
    method Append(data: seq<byte>)
      requires outbuf != null && Valid() && outbufCount + |data| <= outbuf.Length
      modifies this`outbufPos, this`outbufCount, outbuf
      ensures Valid() && Value() == Sending(Pending(old(Value())) + data, 0, outbuf.Length)
    {
      if outbufPos > 0 {
        Shift();
      }
      ghost var front := outbuf[..outbufCount];
      Mbuf.MemCopy(outbuf, outbufCount, data);
      outbufPos, outbufCount := 0, outbufCount + |data|;
      assert outbuf[0..outbufCount] == front + data;
    }

    /** Adds text in a larger block. */
    method Grow(data: seq<byte>)
      requires Valid()
      modifies this
      ensures Valid()
      ensures var all := Pending(old(Value())) + data; Value() == Sending(all, 0, Rounded(|all|))
    {
      var waiting := if outbuf == null then [] else outbuf[outbufPos..outbufPos + outbufCount];
      var newbuf := new byte[Rounded(outbufCount + |data|)];
      Mbuf.MemCopy(newbuf, 0, waiting);
      Mbuf.MemCopy(newbuf, outbufCount, data);
      outbufPos, outbufCount := 0, outbufCount + |data|;
      outbuf, reading := newbuf, false;
      assert outbuf[0..outbufCount] == waiting + data;
    }

    /** Adds text; without memory for a block large enough it is dropped. */
    method Output(data: seq<byte>, memory: bool)
      requires Valid()
      modifies this, outbuf
      ensures Valid() && Value() == Add(old(Value()), data, memory)
    {
      if outbuf != null && outbufCount + |data| <= outbuf.Length {
        Append(data);
      } else if memory {
        Grow(data);
      }
    }

    /** Writes what the connection takes; when all is written the block is given back and reading
        goes on. A failure ends the connection. */
    method HandleWrite(a: Answer) returns (alive: bool, written: seq<byte>)
      requires Valid() && (a.Count? ==> a.n <= outbufCount)
      modifies this
      ensures Valid() && alive == !a.Failed?
      ensures if a.Count? then written == Pending(old(Value()))[..a.n] && Value() == Written(old(Value()), a.n)
              else written == [] && Value() == old(Value())
    {
      alive, written := !a.Failed?, [];
      if a.Count? {
        if outbuf != null {
          written := outbuf[outbufPos..outbufPos + a.n];
          ghost var pending := outbuf[outbufPos..outbufPos + outbufCount];
          assert written == pending[..a.n];
          assert outbuf[outbufPos + a.n..outbufPos + outbufCount] == pending[a.n..];
        }
        outbufCount := outbufCount - a.n;
        if outbufCount != 0 {
          outbufPos := outbufPos + a.n;
        } else {
          outbuf, reading := null, true;
        }
      }
    }
  }
}
