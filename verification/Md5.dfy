/**
  MD5 as it is fed: a context absorbs a message in pieces of any size, and its digest is that of
  the whole message (RFC 1321, sections 3.1 and 3.2).
 */
module Md5 {
  import opened Bytes
  import opened Hashing
  import opened Mbuf
  import Slices

  datatype State = State(a: word, b: word, c: word, d: word)

  const INIT := State(0x67452301, 0xefcdab89, 0x98badcfe, 0x10325476)

  function Digest(st: State): (d: seq<byte>)
    ensures |d| == 16
  {
    Le32(st.a) + Le32(st.b) + Le32(st.c) + Le32(st.d)
  }

  /** The hash of a message, from its definition. */
  function Hash(f: Compress<State>, msg: seq<byte>): (d: seq<byte>)
    ensures |d| == 16
  {
    Digest(Fold(f, INIT, Padded(msg, Le64(BitLength(msg)))))
  }

  class Context {
    const f: Compress<State>
    /** The block being filled. */
    const buffer: array<byte>
    var state: State
    var bits0: word
    var bits1: word
    ghost var msg: seq<byte>

    ghost predicate Valid()
      reads this, buffer
    {
      && buffer.Length == 64 && Absorbed(f, INIT, msg, state, buffer[..|msg| % 64])
      && bits0 == CountLo(|msg|) && bits1 == CountHi(|msg|)
    }

    constructor (f: Compress<State>)
      ensures Valid() && msg == [] && this.f == f && fresh(buffer)
    {
      hide Absorbed, CountLo, CountHi;
      this.f := f;
      buffer := new byte[64];
      state, bits0, bits1, msg := INIT, 0, 0, [];
      AbsorbNothing(f, INIT);
    }

    /** Adds to the bit counter, carrying into its high word. */
    method Count(len: nat)
      requires len < 0x1_0000_0000 && bits0 == CountLo(|msg|) && bits1 == CountHi(|msg|)
      modifies this`bits0, this`bits1
      ensures bits0 == CountLo(|msg| + len) && bits1 == CountHi(|msg| + len)
    {
      hide CountLo, CountHi;
      CarryAdds(bits1 + 1, len / 0x2000_0000);
      var t := bits0;
      bits0 := (t + 8 * len % 0x1_0000_0000) % 0x1_0000_0000;
      if bits0 < t {
        bits1 := (bits1 + 1) % 0x1_0000_0000;
      }
      bits1 := (bits1 + len / 0x2000_0000) % 0x1_0000_0000;
      CountAdds(|msg|, len, bits0, bits1);
    }

    /** Completes a block that is partly filled. */
    method FillBlock(data: seq<byte>, t: nat)
      requires buffer.Length == 64 && 0 < t == |msg| % 64 && |data| >= 64 - t
      requires Absorbed(f, INIT, msg, state, buffer[..t])
      modifies this`state, buffer
      ensures (|msg| + (64 - t)) % 64 == 0 && state == Fold(f, INIT, msg + data[..64 - t])
    {
      hide Fold;
      AbsorbFirst(f, INIT, msg, data);
      ghost var pending := buffer[..t];
      MemCopy(buffer, t, data[..64 - t]);
      assert buffer[..] == pending + data[..64 - t];
      state := f(state, buffer[..]);
    }

    /** Compresses the whole blocks of `data` from `i` on, each through the block buffer. */
    method WholeBlocks(data: seq<byte>, start: nat) returns (i: nat)
      requires buffer.Length == 64 && start <= |data| && (|msg| + start) % 64 == 0
      requires state == Fold(f, INIT, msg + data[..start])
      modifies this`state, buffer
      ensures i <= |data| < i + 64 && (|msg| + i) % 64 == 0
      ensures state == Fold(f, INIT, msg + data[..i])
    {
      hide Fold;
      i := start;
      while |data| - i >= 64
        invariant i <= |data| && (|msg| + i) % 64 == 0
        invariant state == Fold(f, INIT, msg + data[..i])
      {
        MemCopy(buffer, 0, data[i..i + 64]);
        assert buffer[..] == data[i..i + 64];
        AbsorbBlock(f, INIT, msg, data, i);
        state := f(state, buffer[..]);
        i := i + 64;
      }
    }

    method Keep(j: nat, data: seq<byte>)
      requires j + |data| <= buffer.Length
      modifies buffer
      ensures buffer[..j + |data|] == old(buffer[..j]) + data
    {
      MemCopy(buffer, j, data);
    }

    method Update(data: seq<byte>)
      requires Valid() && |data| < 0x1_0000_0000
      modifies this, buffer
      ensures Valid() && msg == old(msg) + data
    {
      hide Fold, CountLo, CountHi, Absorbed;
      var t, i := bits0 / 8 % 64, 0;
      CountPending(|msg|);
      Count(|data|);
      if t != 0 {
        if |data| < 64 - t {
          AbsorbShort(f, INIT, msg, state, buffer[..t], data);
          Keep(t, data);
          msg := msg + data;
          return;
        }
        FillBlock(data, t);
        i := 64 - t;
      } else {
        AbsorbedWhole(f, INIT, msg, state, buffer[..t]);
        assert msg + data[..0] == msg;
      }
      i := WholeBlocks(data, i);
      AbsorbLast(f, INIT, msg, data, i);
      Keep(0, data[i..]);
      assert buffer[..0] + data[i..] == data[i..];
      msg := msg + data;
    }

    /** Pads the block buffer in place, with a second block when the length does not fit. */
    method Final() returns (digest: seq<byte>)
      requires Valid()
      modifies this, buffer
      ensures digest == Hash(f, old(msg))
    {
      hide Fold, CountLo, CountHi, Absorbed, Padded, Digest, Le32, Le64, BitLength;
      var count := bits0 / 8 % 64;
      CountPending(|msg|);
      ghost var pending, st := buffer[..count], state;
      AbsorbedSize(f, INIT, msg, state, pending);
      var length := Le32(bits0) + Le32(bits1);
      LengthBytesLe(msg);
      var rest := 63 - count;
      Keep(count, [0x80]);
      if rest < 8 {
        Keep(count + 1, Zeros(rest));
        assert buffer[..] == pending + [0x80] + Zeros(rest);
        state := f(state, buffer[..]);
        PadTwoBlocks(f, INIT, msg, st, pending, length);
        Keep(0, Zeros(56));
        assert buffer[..56] == Zeros(56);
        Keep(56, length);
        assert buffer[..] == Zeros(56) + length;
      } else {
        Keep(count + 1, Zeros(rest - 8));
        assert buffer[..56] == pending + [0x80] + Zeros(rest - 8);
        PadOneBlock(f, INIT, msg, st, pending, length);
        Keep(56, length);
        assert buffer[..] == pending + [0x80] + Zeros(rest - 8) + length;
      }
      state := f(state, buffer[..]);
      digest := Digest(state);
    }
  }

  /** Hashing a vector of pieces is hashing their concatenation. */
  method HashV(f: Compress<State>, parts: seq<seq<byte>>) returns (digest: seq<byte>)
    requires forall i | 0 <= i < |parts| :: |parts[i]| < 0x1_0000_0000
    ensures digest == Hash(f, Concat(parts))
  {
    hide *;
    var ctx := new Context(f);
    UpdateAll(ctx, parts);
    assert [] + Concat(parts) == Concat(parts);
    digest := ctx.Final();
  }

  method UpdateAll(ctx: Context, parts: seq<seq<byte>>)
    requires ctx.Valid() && forall i | 0 <= i < |parts| :: |parts[i]| < 0x1_0000_0000
    modifies ctx, ctx.buffer
    ensures ctx.Valid() && ctx.msg == old(ctx.msg) + Concat(parts)
  {
    hide *;
    ghost var msg, rest := ctx.msg, Concat(parts);
    assert parts[0..] == parts;
    for i := 0 to |parts|
      invariant ctx.Valid() && rest == Concat(parts[i..]) && ctx.msg + rest == msg + Concat(parts)
    {
      ConcatStep(parts, i);
      rest := Concat(parts[i + 1..]);
      Slices.Assoc3(ctx.msg, parts[i], rest);
      ctx.Update(parts[i]);
    }
    ConcatEnd(parts);
    assert ctx.msg + [] == ctx.msg;
  }
}
