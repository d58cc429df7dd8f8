/**
  The shape of the hash functions: a message is padded to whole blocks, with its length in the last
  eight bytes, and the blocks are folded into the state by a compression function.  What the
  compression function computes is left open; it is a parameter everywhere.
 */
module Hashing {
  import opened Bytes

  type word = x: int | 0 <= x < 0x1_0000_0000

  type Compress<!S> = (S, seq<byte>) -> S

  function Fold<S>(f: Compress<S>, st: S, s: seq<byte>): (r: S)
    requires |s| % 64 == 0
    decreases |s|
  {
    if s == [] then st else Fold(f, f(st, s[..64]), s[64..])
  }

  lemma {:induction false} FoldSnoc<S>(f: Compress<S>, st: S, s: seq<byte>, block: seq<byte>)
    requires |s| % 64 == 0 && |block| == 64
    ensures Fold(f, st, s + block) == f(Fold(f, st, s), block)
    decreases |s|
  {
    if s == [] {
      assert s + block == block && block[..64] == block && block[64..] == [];
    } else {
      assert (s + block)[..64] == s[..64] && (s + block)[64..] == s[64..] + block;
      FoldSnoc(f, f(st, s[..64]), s[64..], block);
    }
  }

  /** How many zero bytes stand between the 0x80 byte and the length. */
  function PadZeros(n: nat): (z: nat)
    ensures z < 64 && (n + 1 + z) % 64 == 56
  {
    (119 - n % 64) % 64
  }

  /** The padded message, given how the length is written. */
  function Padded(msg: seq<byte>, length: seq<byte>): (r: seq<byte>)
    requires |length| == 8
    ensures |r| % 64 == 0
  {
    msg + [0x80] + Zeros(PadZeros(|msg|)) + length
  }

  function BitLength(msg: seq<byte>): (n: nat)
    ensures n < TWO_64
  {
    8 * |msg| % 0x1_0000_0000_0000_0000
  }

  // ----- the running context -----

  /** Where the last whole block ends. */
  function Whole(n: nat): (k: nat)
    ensures k <= n < k + 64 && k % 64 == 0 && n - k == n % 64
  {
    n - n % 64
  }

  /** A context stands for the bytes fed so far: whole blocks are in the state, the rest waits at
      the front of the block buffer. */
  ghost predicate Absorbed<S>(f: Compress<S>, init: S, msg: seq<byte>, state: S, pending: seq<byte>)
  {
    var k := Whole(|msg|);
    state == Fold(f, init, msg[..k]) && pending == msg[k..]
  }

  function CountLo(n: nat): (w: word)
  {
    8 * n % 0x1_0000_0000
  }

  function CountHi(n: nat): (w: word)
  {
    8 * n / 0x1_0000_0000 % 0x1_0000_0000
  }

  /** The two-word counter, with its carry, adds up. */
  lemma CountAdds(n: nat, len: nat, lo: word, hi: word)
    requires len < 0x1_0000_0000
    requires lo == (CountLo(n) + 8 * len % 0x1_0000_0000) % 0x1_0000_0000
    requires hi == (CountHi(n) + (if lo < CountLo(n) then 1 else 0) + len / 0x2000_0000) % 0x1_0000_0000
    ensures lo == CountLo(n + len) && hi == CountHi(n + len)
  {
    var a1, a0 := 8 * n / 0x1_0000_0000, 8 * n % 0x1_0000_0000;
    var l1, l0 := len / 0x2000_0000, 8 * len % 0x1_0000_0000;
    assert 8 * len == l1 * 0x1_0000_0000 + l0;
    var carry := if a0 + l0 >= 0x1_0000_0000 then 1 else 0;
    assert lo == a0 + l0 - carry * 0x1_0000_0000;
    assert 8 * (n + len) == (a1 + l1 + carry) * 0x1_0000_0000 + lo;
    assert 8 * (n + len) / 0x1_0000_0000 == a1 + l1 + carry;
  }

  /** Adding the carry and the rest in two steps. */
  lemma CarryAdds(a: nat, b: nat)
    ensures (a % 0x1_0000_0000 + b) % 0x1_0000_0000 == (a + b) % 0x1_0000_0000
  {
    var q := a / 0x1_0000_0000;
    assert a + b == q * 0x1_0000_0000 + (a % 0x1_0000_0000 + b);
    ModShift(q, a % 0x1_0000_0000 + b, 0x1_0000_0000);
  }

  /** The number of pending bytes is read off the bit counter. */
  lemma CountPending(n: nat)
    ensures CountLo(n) / 8 % 64 == n % 64
  {
    assert 8 * n == (8 * n / 0x1_0000_0000) * 0x1_0000_0000 + CountLo(n);
    assert CountLo(n) % 8 == 0;
    assert n == (8 * n / 0x1_0000_0000) * 0x2000_0000 + CountLo(n) / 8;
  }

  lemma CountIsBitLength(msg: seq<byte>)
    ensures CountHi(|msg|) == BitLength(msg) / 0x1_0000_0000 && CountLo(|msg|) == BitLength(msg) % 0x1_0000_0000
  {
  }

  lemma LengthBytes(msg: seq<byte>)
    ensures Be32(CountHi(|msg|)) + Be32(CountLo(|msg|)) == Be64(BitLength(msg))
  {
    hide CountHi, CountLo, BitLength, Be32;
    CountIsBitLength(msg);
  }

  lemma AbsorbNothing<S>(f: Compress<S>, init: S)
    ensures Absorbed(f, init, [], init, []) && CountLo(0) == 0 && CountHi(0) == 0
  {
  }

  /** Bytes that do not complete a block wait. */
  lemma AbsorbShort<S>(f: Compress<S>, init: S, msg: seq<byte>, state: S, pending: seq<byte>, data: seq<byte>)
    requires |msg| % 64 + |data| < 64 && Absorbed(f, init, msg, state, pending)
    ensures Absorbed(f, init, msg + data, state, pending + data)
    ensures |msg + data| % 64 == |pending| + |data|
  {
    hide Fold;
    var k := Whole(|msg|);
    assert Whole(|msg| + |data|) == k;
    assert (msg + data)[..k] == msg[..k];
    assert (msg + data)[k..] == msg[k..] + data;
  }

  lemma WholeFill(n: nat)
    ensures (n + (64 - n % 64)) % 64 == 0
  {
  }

  /** The first `i` bytes of `data` complete the pending block. */
  lemma AbsorbFirst<S>(f: Compress<S>, init: S, msg: seq<byte>, data: seq<byte>)
    requires |msg| % 64 + |data| >= 64
    ensures var i := 64 - |msg| % 64;
      (|msg| + i) % 64 == 0 && i <= |data| &&
      Fold(f, init, msg + data[..i]) == f(Fold(f, init, msg[..Whole(|msg|)]), msg[Whole(|msg|)..] + data[..i])
  {
    hide Fold, Whole;
    var k, i := Whole(|msg|), 64 - |msg| % 64;
    WholeFill(|msg|);
    assert msg + data[..i] == msg[..k] + (msg[k..] + data[..i]);
    FoldSnoc(f, init, msg[..k], msg[k..] + data[..i]);
  }

  /** A whole block of `data` at `i`. */
  lemma AbsorbBlock<S>(f: Compress<S>, init: S, msg: seq<byte>, data: seq<byte>, i: nat)
    requires i + 64 <= |data| && (|msg| + i) % 64 == 0
    ensures (|msg| + i + 64) % 64 == 0
    ensures Fold(f, init, msg + data[..i + 64]) == f(Fold(f, init, msg + data[..i]), data[i..i + 64])
  {
    hide Fold;
    assert msg + data[..i + 64] == (msg + data[..i]) + data[i..i + 64];
    FoldSnoc(f, init, msg + data[..i], data[i..i + 64]);
  }

  /** What is left of `data` after its blocks waits at the front of the buffer. */
  lemma AbsorbLast<S>(f: Compress<S>, init: S, msg: seq<byte>, data: seq<byte>, i: nat)
    requires i <= |data| < i + 64 && (|msg| + i) % 64 == 0
    ensures Absorbed(f, init, msg + data, Fold(f, init, msg + data[..i]), data[i..])
    ensures |msg + data| % 64 == |data[i..]|
  {
    hide Fold;
    assert Whole(|msg| + |data|) == |msg| + i;
    assert (msg + data)[..|msg| + i] == msg + data[..i];
    assert (msg + data)[|msg| + i..] == data[i..];
  }

  lemma AbsorbedSize<S>(f: Compress<S>, init: S, msg: seq<byte>, state: S, pending: seq<byte>)
    requires Absorbed(f, init, msg, state, pending)
    ensures |pending| == |msg| % 64
  {
  }

  lemma AbsorbedWhole<S>(f: Compress<S>, init: S, msg: seq<byte>, state: S, pending: seq<byte>)
    requires Absorbed(f, init, msg, state, pending) && |msg| % 64 == 0
    ensures state == Fold(f, init, msg)
  {
    assert msg[..|msg|] == msg;
  }

  // ----- padding the block buffer in place -----

  lemma PadOneBlock<S>(f: Compress<S>, init: S, msg: seq<byte>, state: S, pending: seq<byte>, length: seq<byte>)
    requires Absorbed(f, init, msg, state, pending) && |pending| <= 55 && |length| == 8
    ensures f(state, pending + [0x80] + Zeros(55 - |pending|) + length) == Fold(f, init, Padded(msg, length))
  {
    hide Fold, PadZeros;
    var k := Whole(|msg|);
    PadExact(|msg|, 55 - |pending|);
    var block := pending + [0x80] + Zeros(55 - |pending|) + length;
    assert msg == msg[..k] + pending;
    assert Padded(msg, length) == msg[..k] + block;
    FoldSnoc(f, init, msg[..k], block);
  }

  lemma PadTwoBlocks<S>(f: Compress<S>, init: S, msg: seq<byte>, state: S, pending: seq<byte>, length: seq<byte>)
    requires Absorbed(f, init, msg, state, pending) && |pending| > 55 && |length| == 8
    ensures f(f(state, pending + [0x80] + Zeros(63 - |pending|)), Zeros(56) + length) == Fold(f, init, Padded(msg, length))
  {
    hide Fold, PadZeros;
    var k := Whole(|msg|);
    PadExact(|msg|, 119 - |pending|);
    var block1, block2 := pending + [0x80] + Zeros(63 - |pending|), Zeros(56) + length;
    assert msg == msg[..k] + pending;
    assert Zeros(119 - |pending|) == Zeros(63 - |pending|) + Zeros(56);
    assert Padded(msg, length) == (msg[..k] + block1) + block2;
    FoldSnoc(f, init, msg[..k], block1);
    FoldSnoc(f, init, msg[..k] + block1, block2);
  }

  lemma LengthBytesLe(msg: seq<byte>)
    ensures Le32(CountLo(|msg|)) + Le32(CountHi(|msg|)) == Le64(BitLength(msg))
  {
    hide CountHi, CountLo, BitLength, Le32;
    CountIsBitLength(msg);
  }

  // ----- padding with updates of single bytes -----

  function PadSoFar(msg: seq<byte>, i: nat): (r: seq<byte>)
    ensures |r| == |msg| + 1 + i
  {
    msg + [0x80] + Zeros(i)
  }

  lemma PadStart(msg: seq<byte>)
    ensures msg + [0x80] == PadSoFar(msg, 0)
  {
  }

  lemma PadStep(msg: seq<byte>, i: nat)
    requires i <= PadZeros(|msg|) && |PadSoFar(msg, i)| % 64 != 56
    ensures i < PadZeros(|msg|)
    ensures PadSoFar(msg, i) + [0] == PadSoFar(msg, i + 1)
  {
  }

  lemma PadExact(n: nat, i: nat)
    requires i < 64 && (n + 1 + i) % 64 == 56
    ensures i == PadZeros(n)
  {
  }

  lemma PadDone(msg: seq<byte>, i: nat, length: seq<byte>)
    requires i <= PadZeros(|msg|) && |PadSoFar(msg, i)| % 64 == 56 && |length| == 8
    ensures PadSoFar(msg, i) + length == Padded(msg, length)
  {
    hide PadZeros;
    PadExact(|msg|, i);
  }
}
