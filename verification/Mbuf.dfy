/**
  The growable byte buffer every connection sends from and receives into.
 */
module Mbuf {
  import opened Bytes

  /** `memmove` inside one block: the source is read before anything is written. */
  method MemMove(a: array<byte>, dst: nat, src: nat, n: nat)
    requires dst + n <= a.Length && src + n <= a.Length
    modifies a
    ensures forall i | dst <= i < dst + n :: a[i] == old(a[i + (src - dst)])
    ensures forall i | 0 <= i < a.Length && !(dst <= i < dst + n) :: a[i] == old(a[i])
  {
    forall i | 0 <= i < n {
      a[dst + i] := a[src + i];
    }
  }

  /** `memcpy` of foreign bytes into a block. */
  method MemCopy(a: array<byte>, dst: nat, data: seq<byte>)
    requires dst + |data| <= a.Length
    modifies a
    ensures forall i | dst <= i < dst + |data| :: a[i] == data[i - dst]
    ensures forall i | 0 <= i < a.Length && !(dst <= i < dst + |data|) :: a[i] == old(a[i])
  {
    forall i | 0 <= i < |data| {
      a[dst + i] := data[i];
    }
  }

  /** The same, behind what is written so far. */
  method CopyBehind(a: array<byte>, at: nat, data: seq<byte>)
    requires at + |data| <= a.Length
    modifies a
    ensures a[..at + |data|] == old(a[..at]) + data
    ensures forall i | at + |data| <= i < a.Length :: a[i] == old(a[i])
  {
    MemCopy(a, at, data);
  }

  /** Opens a gap at `off` in the first `len` bytes of a block and fills it. */
  method Splice(a: array<byte>, len: nat, off: nat, data: seq<byte>)
    requires off <= len && len + |data| <= a.Length
    modifies a
    ensures a[..len + |data|] == old(a[..off]) + data + old(a[off..len])
  {
    MemMove(a, off + |data|, off, len - off);
    MemCopy(a, off, data);
  }

  lemma MaskedParts(was: seq<byte>, now: seq<byte>, mask: seq<byte>, head: seq<byte>, data: seq<byte>, rest: seq<byte>)
    requires was == head + data + rest && |now| == |was| && |mask| == 4
    requires forall k | 0 <= k < |now| && !(|head| <= k < |head| + |data|) :: now[k] == was[k]
    requires forall k | |head| <= k < |head| + |data| :: now[k] == Xor(was[k], mask[(k - |head|) % 4])
    ensures now == head + Masked(mask, data) + rest
  {
    var m := Masked(mask, data);
    forall k | 0 <= k < |now| ensures now[k] == (head + m + rest)[k] {
      if |head| <= k < |head| + |data| {
        assert was[k] == data[k - |head|];
      }
    }
  }

  lemma PulledParts(was: seq<byte>, now: seq<byte>, front: seq<byte>, gap: seq<byte>, data: seq<byte>, rest: seq<byte>)
    requires was == front + gap + data + rest && |now| == |was|
    requires forall i | |front| <= i < |front| + |data| :: now[i] == was[i + |gap|]
    requires forall i | 0 <= i < |now| && !(|front| <= i < |front| + |data|) :: now[i] == was[i]
    ensures now == front + data + now[|front| + |data|..|front| + |data| + |gap|] + rest
  {
    var a, b := |front| + |data|, |front| + |data| + |gap|;
    assert now[..|front|] == was[..|front|] == front;
    assert now[|front|..a] == was[|front| + |gap|..b] == data;
    assert now[b..] == was[b..] == rest;
    assert now == now[..|front|] + now[|front|..a] + now[a..b] + now[b..];
  }

  lemma ClosedParts(was: seq<byte>, now: seq<byte>, from: nat, to: nat)
    requires from <= to <= |was| && |now| == |was| - (to - from)
    requires forall i | from <= i < |now| :: now[i] == was[i + (to - from)]
    requires forall i | 0 <= i < from :: now[i] == was[i]
    ensures now == was[..from] + was[to..]
  {
  }

  class Buffer {
    var buf: array<byte>
    var len: nat

    ghost predicate Valid()
      reads this
    {
      len <= buf.Length
    }

    function Contents(): (s: seq<byte>)
      requires Valid()
      reads this, buf
      ensures |s| == len
    {
      buf[..len]
    }

    constructor (capacity: nat)
      ensures Valid() && fresh(buf) && Contents() == []
    {
      buf := new byte[capacity];
      len := 0;
    }

    /** The reallocation can fail, and then nothing is inserted; `grown` is its outcome. */
    method Insert(off: nat, data: seq<byte>, grown: bool) returns (n: nat)
      requires Valid() && off <= len
      modifies this, buf
      ensures Valid() && (buf == old(buf) || fresh(buf))
      ensures n == |data| || n == 0
      ensures n == 0 ==> Contents() == old(Contents())
      ensures n == |data| ==> Contents() == old(Contents()[..off]) + data + old(Contents()[off..])
      ensures grown || old(len) + |data| <= old(buf.Length) ==> n == |data|
    {
      ghost var was := Contents();
      assert was[..off] == buf[..off] && was[off..] == buf[off..len];
      if len + |data| <= buf.Length {
        Splice(buf, len, off, data);
        len := len + |data|;
        n := |data|;
      } else if grown {
        var p := new byte[(len + |data|) * 3 / 2];
        MemCopy(p, 0, buf[..len]);
        assert p[..len] == was;
        assert p[..off] == was[..off] && p[off..len] == was[off..];
        Splice(p, len, off, data);
        buf := p;
        len := len + |data|;
        n := |data|;
      } else {
        n := 0;
      }
    }

    method Append(data: seq<byte>, grown: bool) returns (n: nat)
      requires Valid()
      modifies this, buf
      ensures Valid() && (buf == old(buf) || fresh(buf))
      ensures n == |data| || n == 0
      ensures n == 0 ==> Contents() == old(Contents())
      ensures n == |data| ==> Contents() == old(Contents()) + data
      ensures grown || old(len) + |data| <= old(buf.Length) ==> n == |data|
    {
      ghost var was := Contents();
      n := Insert(len, data, grown);
      assert was[..|was|] + data + was[|was|..] == was + data;
    }

    /** Moves `n` bytes at `src` down to `dst`, across `gap`; the same number of bytes then lies
        behind them. */
    method Pull(dst: nat, src: nat, n: nat, ghost front: seq<byte>, ghost gap: seq<byte>, ghost data: seq<byte>, ghost rest: seq<byte>)
      returns (ghost gap': seq<byte>)
      requires Valid() && Contents() == front + gap + data + rest
      requires dst == |front| && src == dst + |gap| && n == |data|
      modifies buf
      ensures Contents() == front + data + gap' + rest && |gap'| == |gap|
    {
      MemMove(buf, dst, src, n);
      gap' := Contents()[dst + n..src + n];
      PulledParts(old(Contents()), Contents(), front, gap, data, rest);
    }

    /** Moves everything from `to` on down to `from`, over the bytes between. */
    method Close(from: nat, to: nat)
      requires Valid() && from <= to <= len
      modifies this`len, buf
      ensures Valid()
      ensures Contents() == old(Contents()[..from]) + old(Contents()[to..])
    {
      MemMove(buf, from, to, len - to);
      len := len - (to - from);
      ClosedParts(old(Contents()), Contents(), from, to);
    }

    /** Makes room for `n` more bytes at the end, whose values are left open; fails with the
        allocation. */
    method Extend(n: nat, grown: bool) returns (ok: bool)
      requires Valid()
      modifies this
      ensures Valid() && (buf == old(buf) || fresh(buf))
      ensures ok == (grown || old(len) + n <= old(buf.Length))
      ensures if ok then len == old(len) + n && Contents()[..old(len)] == old(Contents()) else Contents() == old(Contents())
    {
      ok := true;
      if len + n <= buf.Length {
        len := len + n;
      } else if grown {
        var p := new byte[(len + n) * 3 / 2];
        MemCopy(p, 0, buf[..len]);
        buf := p;
        len := len + n;
      } else {
        ok := false;
      }
    }

    /** Overwrites bytes at `at`. */
    method Write(at: nat, data: seq<byte>)
      requires Valid() && at + |data| <= len
      modifies buf
      ensures Contents()[..at + |data|] == old(Contents()[..at]) + data
    {
      MemCopy(buf, at, data);
      assert Contents()[..at + |data|] == old(Contents()[..at]) + data;
    }

    /** Drops bytes at the front.  The block itself stays: its first byte is the first of those
        left, or, when none are, what it was before. */
    method Remove(n: nat)
      requires Valid()
      modifies this`len, buf
      ensures Valid()
      ensures Contents() == if n <= old(len) then old(Contents()[n..]) else old(Contents())
      ensures buf.Length > 0 ==> buf[0] == if n < old(len) then old(buf[n]) else old(buf[0])
    {
      if 0 < n <= len {
        MemMove(buf, 0, n, len - n);
        len := len - n;
        ClosedParts(old(Contents()), Contents(), 0, n);
      }
    }

    method Put(i: nat, b: byte)
      requires Valid() && i < len
      modifies buf
      ensures Contents() == old(Contents())[i := b]
    {
      buf[i] := b;
    }

    /** Exclusive or with a four-byte mask, repeated, over `n` bytes at `at`. */
    method Mask(mask: seq<byte>, at: nat, n: nat, ghost head: seq<byte>, ghost data: seq<byte>, ghost rest: seq<byte>)
      requires Valid() && |mask| == 4 && at == |head| && n == |data| && Contents() == head + data + rest
      modifies buf
      ensures Contents() == head + Masked(mask, data) + rest
    {
      var i := 0;
      while i < n
        invariant 0 <= i <= n
        invariant forall k | 0 <= k < buf.Length && !(at <= k < at + i) :: buf[k] == old(buf[k])
        invariant forall k | at <= k < at + i :: buf[k] == Xor(old(buf[k]), mask[(k - at) % 4])
      {
        buf[at + i] := Xor(buf[at + i], mask[i % 4]);
        i := i + 1;
      }
      MaskedParts(old(Contents()), Contents(), mask, head, data, rest);
    }
  }
}
