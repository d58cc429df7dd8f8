/**
  SHA-1 as it is fed: a context absorbs a message in pieces of any size, and its digest is that of
  the whole message (RFC 3174, section 4).  HMAC on top of it (RFC 2104, section 2).
 */
module Sha1 {
  import opened Bytes
  import opened Hashing
  import opened Mbuf
  import Slices

  datatype State = State(a: word, b: word, c: word, d: word, e: word)

  const INIT := State(0x67452301, 0xEFCDAB89, 0x98BADCFE, 0x10325476, 0xC3D2E1F0)

  function Digest(st: State): (d: seq<byte>)
    ensures |d| == 20
  {
    Be32(st.a) + Be32(st.b) + Be32(st.c) + Be32(st.d) + Be32(st.e)
  }

  /** The hash of a message, from its definition. */
  function Hash(f: Compress<State>, msg: seq<byte>): (d: seq<byte>)
    ensures |d| == 20
  {
    Digest(Fold(f, INIT, Padded(msg, Be64(BitLength(msg)))))
  }

  const MAX_UPDATE := 0xFFFF_FFC0

  class Context {
    const f: Compress<State>
    const buffer: array<byte>
    var state: State
    var count0: word
    var count1: word
    ghost var msg: seq<byte>

    ghost predicate Valid()
      reads this, buffer
    {
      && buffer.Length == 64 && Absorbed(f, INIT, msg, state, buffer[..|msg| % 64])
      && count0 == CountLo(|msg|) && count1 == CountHi(|msg|)
    }

    constructor (f: Compress<State>)
      ensures Valid() && msg == [] && this.f == f && fresh(buffer)
    {
      hide Absorbed, CountLo, CountHi;
      this.f := f;
      buffer := new byte[64];
      state, count0, count1, msg := INIT, 0, 0, [];
      AbsorbNothing(f, INIT);
    }

    /** Adds to the bit counter, carrying into its high word. */
    method Count(len: nat)
      requires len < 0x1_0000_0000 && count0 == CountLo(|msg|) && count1 == CountHi(|msg|)
      modifies this`count0, this`count1
      ensures count0 == CountLo(|msg| + len) && count1 == CountHi(|msg| + len)
    {
      hide CountLo, CountHi;
      CarryAdds(count1 + 1, len / 0x2000_0000);
      var j := count0;
      count0 := (count0 + 8 * len % 0x1_0000_0000) % 0x1_0000_0000;
      if count0 < j {
        count1 := (count1 + 1) % 0x1_0000_0000;
      }
      count1 := (count1 + len / 0x2000_0000) % 0x1_0000_0000;
      CountAdds(|msg|, len, count0, count1);
    }

    /** Completes the pending block from `data` and compresses it and every further whole block;
        `i` bytes of `data` were used. */
    method Blocks(data: seq<byte>, j: nat) returns (i: nat)
      requires buffer.Length == 64 && j == |msg| % 64 && j + |data| > 63
      requires Absorbed(f, INIT, msg, state, buffer[..j])
      modifies this`state, buffer
      ensures i <= |data| < i + 64 && (|msg| + i) % 64 == 0
      ensures state == Fold(f, INIT, msg + data[..i])
    {
      hide Fold;
      AbsorbFirst(f, INIT, msg, data);
      i := 64 - j;
      ghost var pending := buffer[..j];
      MemCopy(buffer, j, data[..i]);
      assert buffer[..] == pending + data[..i];
      state := f(state, buffer[..]);
      while i + 63 < |data|
        invariant i <= |data| && (|msg| + i) % 64 == 0
        invariant state == Fold(f, INIT, msg + data[..i])
      {
        AbsorbBlock(f, INIT, msg, data, i);
        state := f(state, data[i..i + 64]);
        i := i + 64;
      }
    }

    /** Puts bytes behind those that wait. */
    method Keep(j: nat, data: seq<byte>)
      requires j + |data| <= buffer.Length
      modifies buffer
      ensures buffer[..j + |data|] == old(buffer[..j]) + data
    {
      MemCopy(buffer, j, data);
    }

    method Update(data: seq<byte>)
      requires Valid() && |data| <= MAX_UPDATE
      modifies this, buffer
      ensures Valid() && msg == old(msg) + data
    {
      hide Fold, CountLo, CountHi, Absorbed;
      var i, j := 0, count0 / 8 % 64;
      CountPending(|msg|);
      Count(|data|);
      if j + |data| > 63 {
        i := Blocks(data, j);
        AbsorbLast(f, INIT, msg, data, i);
        j := 0;
      } else {
        AbsorbShort(f, INIT, msg, state, buffer[..j], data);
      }
      ghost var pending := buffer[..j];
      Keep(j, data[i..]);
      assert if i == 0 then data[i..] == data else pending + data[i..] == data[i..];
      msg := msg + data;
    }

    /** Pads with updates of its own and gives the digest of everything fed. */
    method Final() returns (digest: seq<byte>)
      requires Valid()
      modifies this, buffer
      ensures digest == Hash(f, old(msg))
    {
      hide Fold, CountLo, CountHi, PadZeros, PadSoFar, Padded, Be32, Be64, BitLength, Digest;
      ghost var m := msg;
      var finalCount := Be32(count1) + Be32(count0);
      LengthBytes(msg);
      Update([0x80]);
      ghost var i: nat := 0;
      PadStart(m);
      CountPending(|msg|);
      while count0 / 8 % 64 != 56
        invariant Valid() && msg == PadSoFar(m, i) && i <= PadZeros(|m|)
        invariant count0 / 8 % 64 == |msg| % 64
        decreases PadZeros(|m|) - i
      {
        PadStep(m, i);
        Update([0]);
        i := i + 1;
        CountPending(|msg|);
      }
      PadDone(m, i, finalCount);
      Update(finalCount);
      assert msg[..|msg|] == msg;
      digest := Digest(state);
    }
  }

  /** Hashing a vector of pieces is hashing their concatenation. */
  method HashV(f: Compress<State>, parts: seq<seq<byte>>) returns (digest: seq<byte>)
    requires forall i | 0 <= i < |parts| :: |parts[i]| <= MAX_UPDATE
    ensures digest == Hash(f, Concat(parts))
  {
    hide *;
    var ctx := new Context(f);
    UpdateAll(ctx, parts);
    assert [] + Concat(parts) == Concat(parts);
    digest := ctx.Final();
  }

  method UpdateAll(ctx: Context, parts: seq<seq<byte>>)
    requires ctx.Valid() && forall i | 0 <= i < |parts| :: |parts[i]| <= MAX_UPDATE
    modifies ctx, ctx.buffer
    ensures ctx.Valid() && ctx.msg == old(ctx.msg) + Concat(parts)
  {
    hide *;
    ghost var msg, rest := ctx.msg, Concat(parts);
    assert parts[0..] == parts;
    for i := 0 to |parts|
      invariant ctx.Valid() && rest == Concat(parts[i..]) && ctx.msg + rest == msg + Concat(parts)
    {
      ConcatStep(parts, i);
      rest := Concat(parts[i + 1..]);
      Slices.Assoc3(ctx.msg, parts[i], rest);
      ctx.Update(parts[i]);
    }
    ConcatEnd(parts);
    assert ctx.msg + [] == ctx.msg;
  }

  // ----- HMAC -----

  /** The key, hashed if longer than a block, filled with zeros to one block. */
  function BlockKey(f: Compress<State>, key: seq<byte>): (k: seq<byte>)
    ensures |k| == 64
  {
    var short := if |key| > 64 then Hash(f, key) else key;
    short + Zeros(64 - |short|)
  }

  function XorAll(s: seq<byte>, b: byte): (r: seq<byte>)
    ensures |r| == |s|
  {
    seq(|s|, i requires 0 <= i < |s| => Xor(s[i], b))
  }

  /** Combining with a byte, bit by bit. */
  lemma XorAllBits(s: seq<byte>, b: byte, i: nat, k: nat)
    requires i < |s| && k < 8
    ensures Bit(XorAll(s, b)[i], k) == (Bit(s[i], k) + Bit(b, k)) % 2
  {
    hide Bit;
    XorIff(s[i], b, XorAll(s, b)[i]);
  }

  /** HMAC from its definition. */
  function HmacOf(f: Compress<State>, key: seq<byte>, data: seq<byte>): (d: seq<byte>)
  {
    var k := BlockKey(f, key);
    Hash(f, XorAll(k, 0x5c) + Hash(f, XorAll(k, 0x36) + data))
  }

  /** One block, each byte of the key or a filling zero combined with `pad`. */
  method PadKey(k: seq<byte>, pad: byte) returns (buf: array<byte>)
    requires |k| <= 64
    ensures fresh(buf) && buf[..] == XorAll(k + Zeros(64 - |k|), pad)
  {
    buf := new byte[64];
    forall i | 0 <= i < 64 {
      buf[i] := 0;
    }
    MemCopy(buf, 0, k);
    ghost var block := k + Zeros(64 - |k|);
    var i := 0;
    while i < buf.Length
      invariant 0 <= i <= buf.Length
      invariant forall j | 0 <= j < buf.Length :: buf[j] == if j < i then Xor(block[j], pad) else block[j]
    {
      buf[i] := Xor(buf[i], pad);
      i := i + 1;
    }
  }

  /** Two pieces, one after the other, through one context. */
  method HashPair(f: Compress<State>, a: seq<byte>, b: seq<byte>) returns (digest: seq<byte>)
    requires |a| <= MAX_UPDATE && |b| <= MAX_UPDATE
    ensures digest == Hash(f, a + b)
  {
    hide *;
    var ctx := new Context(f);
    ctx.Update(a);
    ctx.Update(b);
    assert [] + a == a;
    digest := ctx.Final();
  }

  method Hmac(f: Compress<State>, key: seq<byte>, data: seq<byte>) returns (out: seq<byte>)
    requires |key| <= MAX_UPDATE && |data| <= MAX_UPDATE
    ensures out == HmacOf(f, key, data)
  {
    hide Hash, XorAll;
    var k := key;
    if |key| > 64 {
      var ctx := new Context(f);
      ctx.Update(key);
      assert [] + key == key;
      k := ctx.Final();
    }
    var buf1 := PadKey(k, 0x36);
    var buf2 := PadKey(k, 0x5c);
    out := HashPair(f, buf1[..], data);
    out := HashPair(f, buf2[..], out);
  }
}
