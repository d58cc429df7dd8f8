/**
  Bytes, the fixed-width integers the wire formats are built from, and bytewise exclusive or.
  A byte is a mathematical integer below 256: `b & 0x7f` is `b % 128`, `b & 0x80` is `b >= 128`,
  `b >> 4` is `b / 16`.
 */
module Bytes {

  datatype Option<T> = None | Some(value: T)

  type byte = x: int | 0 <= x < 256

  const TWO_16 := 0x1_0000
  const TWO_32 := 0x1_0000_0000
  const TWO_64 := 0x1_0000_0000_0000_0000

  /** Network byte order. */
  function Be16(n: nat): (s: seq<byte>)
    requires n < TWO_16
    ensures |s| == 2
  {
    [n / 256, n % 256]
  }

  function U16(s: seq<byte>): (n: nat)
    requires |s| >= 2
  {
    (s[0] as int) * 256 + s[1]
  }

  function Be32(n: nat): (s: seq<byte>)
    requires n < TWO_32
    ensures |s| == 4
  {
    Be16(n / 0x1_0000) + Be16(n % 0x1_0000)
  }

  function U32(s: seq<byte>): (n: nat)
    requires |s| >= 4
  {
    U16(s) * 0x1_0000 + U16(s[2..])
  }

  lemma U16Inverts(n: nat, t: seq<byte>)
    requires n < TWO_16
    ensures U16(Be16(n) + t) == n
  {
  }

  lemma U32Inverts(n: nat, t: seq<byte>)
    requires n < TWO_32
    ensures U32(Be32(n) + t) == n
  {
    U16Inverts(n / 0x1_0000, Be16(n % 0x1_0000) + t);
    U16Inverts(n % 0x1_0000, t);
    assert Be32(n) + t == Be16(n / 0x1_0000) + (Be16(n % 0x1_0000) + t);
    assert (Be32(n) + t)[2..] == Be16(n % 0x1_0000) + t;
  }

  function Be64(n: nat): (s: seq<byte>)
    requires n < TWO_64
    ensures |s| == 8
  {
    Be32(n / 0x1_0000_0000) + Be32(n % 0x1_0000_0000)
  }

  function U64(s: seq<byte>): (n: nat)
    requires |s| >= 8
  {
    U32(s) * 0x1_0000_0000 + U32(s[4..])
  }

  /** Least significant byte first. */
  function Le32(n: nat): (s: seq<byte>)
    requires n < TWO_32
    ensures |s| == 4
  {
    [n % 256, n / 256 % 256, n / 0x1_0000 % 256, n / 0x100_0000]
  }

  function Le64(n: nat): (s: seq<byte>)
    requires n < TWO_64
    ensures |s| == 8
  {
    Le32(n % 0x1_0000_0000) + Le32(n / 0x1_0000_0000)
  }

  /** The same bytes in the opposite order. */
  lemma LittleIsReversed(n: nat)
    requires n < TWO_32
    ensures forall i | 0 <= i < 4 :: Le32(n)[i] == Be32(n)[3 - i]
  {
    var hi, lo := n / 0x1_0000, n % 0x1_0000;
    assert n == 0x1_0000 * hi + lo;
    LowBytes(hi, lo);
  }

  lemma LowBytes(hi: nat, lo: nat)
    requires hi < 0x1_0000 && lo < 0x1_0000
    ensures var n := 0x1_0000 * hi + lo;
      n % 256 == lo % 256 && n / 256 % 256 == lo / 256 && n / 0x1_0000 % 256 == hi % 256 && n / 0x100_0000 == hi / 256
  {
    var n, a, b, c, d := 0x1_0000 * hi + lo, hi / 256, hi % 256, lo / 256, lo % 256;
    assert n == 0x100_0000 * a + 0x1_0000 * b + 256 * c + d;
    assert n / 256 == 0x1_0000 * a + 256 * b + c;
    assert n / 0x1_0000 == 256 * a + b;
  }

  lemma U64Inverts(n: nat, t: seq<byte>)
    requires n < TWO_64
    ensures U64(Be64(n) + t) == n
  {
    var hi, lo := Be32(n / 0x1_0000_0000), Be32(n % 0x1_0000_0000);
    U32Inverts(n / 0x1_0000_0000, lo + t);
    U32Inverts(n % 0x1_0000_0000, t);
    assert Be64(n) + t == hi + (lo + t);
    assert (Be64(n) + t)[4..] == lo + t;
  }

  /** The value of a field does not depend on what follows it. */
  lemma U64Prefix(s: seq<byte>, t: seq<byte>)
    requires |s| >= 8
    ensures U64(s + t) == U64(s)
  {
    assert (s + t)[2..] == s[2..] + t;
    assert (s + t)[4..] == s[4..] + t;
    assert (s[4..] + t)[2..] == s[4..][2..] + t;
  }

  lemma SmallMod(r: nat, width: nat)
    requires width > 0
    ensures r < width ==> r % width == r
  {
  }

  /** Whole multiples of the width do not show in a wrapped number. */
  lemma ModShift(q: nat, r: nat, width: nat)
    requires width > 0
    ensures (q * width + r) % width == r % width
  {
    var a := q * width + r;
    var qa, ra, qr, rr := a / width, a % width, r / width, r % width;
    assert a == qa * width + ra && r == qr * width + rr;
    Distribute(qa, q, qr, width);
    NoMultiple(qa - q - qr, rr - ra, width);
  }

  lemma Distribute(a: int, b: int, c: int, width: nat)
    ensures (a - b - c) * width == a * width - b * width - c * width
  {
  }

  lemma NoMultiple(x: int, d: int, width: nat)
    requires x * width == d && d < width && d + width > 0
    ensures d == 0
  {
    Multiple(x, width);
  }

  lemma Multiple(x: int, width: nat)
    ensures (x >= 1 ==> x * width >= width) && (x <= -1 ==> x * width + width <= 0)
  {
    assert (x - 1) * width == x * width - width && (x + 1) * width == x * width + width;
  }

  function Pow2(k: nat): (r: nat)
    ensures r >= 1
  {
    if k == 0 then 1 else 2 * Pow2(k - 1)
  }

  /** Bitwise exclusive or, bit by bit from the bottom. */
  function XorNat(a: nat, b: nat): (r: nat)
  {
    if a == 0 && b == 0 then 0 else 2 * XorNat(a / 2, b / 2) + (a + b) % 2
  }

  lemma {:induction false} XorNatBound(a: nat, b: nat, k: nat)
    requires a < Pow2(k) && b < Pow2(k)
    ensures XorNat(a, b) < Pow2(k)
    decreases k
  {
    if k > 0 && !(a == 0 && b == 0) {
      XorNatBound(a / 2, b / 2, k - 1);
    }
  }

  lemma XorNatStep(a: nat, b: nat)
    ensures XorNat(a, b) / 2 == XorNat(a / 2, b / 2) && XorNat(a, b) % 2 == (a + b) % 2
  {
  }

  lemma {:induction false} XorNatInvolution(a: nat, b: nat)
    ensures XorNat(XorNat(a, b), b) == a
  {
    if !(a == 0 && b == 0) {
      var x := XorNat(a, b);
      XorNatStep(a, b);
      XorNatStep(x, b);
      XorNatInvolution(a / 2, b / 2);
      ParityCancels(a, b, x);
    }
  }

  lemma ParityCancels(a: nat, b: nat, x: nat)
    requires x % 2 == (a + b) % 2
    ensures (x + b) % 2 == a % 2
  {
  }

  lemma DivUnique(a: nat, d: nat, q: nat, r: nat)
    requires r < d && a == q * d + r
    ensures a / d == q && a % d == r
  {
    ModShift(q, r, d);
    SmallMod(r, d);
    Distribute(a / d, q, 0, d);
    Multiple(a / d - q, d);
  }

  /** Halving and then dropping more bits. */
  lemma HalfFirst(a: nat, d: nat)
    requires d > 0
    ensures a / 2 / d == a / (2 * d)
  {
    var q, r := a / 2 / d, a / 2 % d;
    assert a / 2 == q * d + r;
    assert q * (2 * d) == 2 * (q * d);
    DivUnique(a, 2 * d, q, 2 * r + a % 2);
  }

  /** Bit `k` of a number. */
  function Bit(n: nat, k: nat): (b: nat)
  {
    n / Pow2(k) % 2
  }

  lemma BitBelow(n: nat, k: nat)
    ensures Bit(n, 0) == n % 2 && Bit(n, k + 1) == Bit(n / 2, k)
  {
    HalfFirst(n, Pow2(k));
  }

  lemma {:induction false} XorNatBits(a: nat, b: nat, k: nat)
    ensures Bit(XorNat(a, b), k) == (Bit(a, k) + Bit(b, k)) % 2
    decreases k
  {
    hide Bit;
    XorNatStep(a, b);
    hide XorNat;
    if k == 0 {
      BitBelow(a, 0);
      BitBelow(b, 0);
      BitBelow(XorNat(a, b), 0);
      ParityAdds(a, b);
    } else {
      BitBelow(a, k - 1);
      BitBelow(b, k - 1);
      BitBelow(XorNat(a, b), k - 1);
      XorNatBits(a / 2, b / 2, k - 1);
    }
  }

  lemma ParityAdds(a: nat, b: nat)
    ensures (a % 2 + b % 2) % 2 == (a + b) % 2
  {
  }

  /** A number is its bits. */
  lemma {:induction false} BitsDecide(a: nat, b: nat, n: nat)
    requires a < Pow2(n) && b < Pow2(n) && forall k: nat | k < n :: Bit(a, k) == Bit(b, k)
    ensures a == b
    decreases n
  {
    hide Bit;
    if n > 0 {
      forall k: nat | k < n - 1 ensures Bit(a / 2, k) == Bit(b / 2, k) {
        BitBelow(a, k);
        BitBelow(b, k);
      }
      BitsDecide(a / 2, b / 2, n - 1);
      BitBelow(a, 0);
      BitBelow(b, 0);
    }
  }

  function Xor(a: byte, b: byte): (r: byte)
  {
    Pow8();
    XorNatBound(a, b, 8);
    XorNat(a, b)
  }

  lemma Pow8()
    ensures Pow2(8) == 256
  {
    assert Pow2(4) == 16;
  }

  /** The exclusive or of two bytes is the byte whose every bit is set where just one of theirs is. */
  lemma XorIff(a: byte, b: byte, r: byte)
    ensures r == Xor(a, b) <==> forall k: nat | k < 8 :: Bit(r, k) == (Bit(a, k) + Bit(b, k)) % 2
  {
    hide Pow2, Bit;
    Pow8();
    forall k: nat ensures Bit(Xor(a, b), k) == (Bit(a, k) + Bit(b, k)) % 2 {
      XorNatBits(a, b, k);
    }
    hide Xor;
    if forall k: nat | k < 8 :: Bit(r, k) == (Bit(a, k) + Bit(b, k)) % 2 {
      BitsDecide(r, Xor(a, b), 8);
    }
  }

  predicate BitXor(a: byte, b: byte, r: byte, k: nat)
  {
    Bit(r, k) == (Bit(a, k) + Bit(b, k)) % 2
  }

  /** The same for bytes given as numbers. */
  lemma XorIs(a: byte, b: byte, r: byte)
    requires BitXor(a, b, r, 0) && BitXor(a, b, r, 1) && BitXor(a, b, r, 2) && BitXor(a, b, r, 3)
    requires BitXor(a, b, r, 4) && BitXor(a, b, r, 5) && BitXor(a, b, r, 6) && BitXor(a, b, r, 7)
    ensures Xor(a, b) == r
  {
    hide Bit, Pow2, Xor;
    forall k: nat | k < 8 ensures Bit(r, k) == (Bit(a, k) + Bit(b, k)) % 2 {
      assert BitXor(a, b, r, k);
    }
    hide BitXor;
    XorIff(a, b, r);
  }

  lemma BitsAre(n: nat)
    ensures Bit(n, 0) == n % 2 && Bit(n, 1) == n / 2 % 2 && Bit(n, 2) == n / 4 % 2 && Bit(n, 3) == n / 8 % 2
    ensures Bit(n, 4) == n / 16 % 2 && Bit(n, 5) == n / 32 % 2 && Bit(n, 6) == n / 64 % 2 && Bit(n, 7) == n / 128 % 2
  {
    PowersOf2();
    hide Pow2;
    assert n / 1 == n;
  }

  lemma PowersOf2()
    ensures Pow2(0) == 1 && Pow2(1) == 2 && Pow2(2) == 4 && Pow2(3) == 8
    ensures Pow2(4) == 16 && Pow2(5) == 32 && Pow2(6) == 64 && Pow2(7) == 128
  {
    assert Pow2(3) == 8;
    assert Pow2(5) == 32;
  }

  lemma XorInvolution(a: byte, b: byte)
    ensures Xor(Xor(a, b), b) == a
  {
    XorNatInvolution(a, b);
  }

  function Masked(mask: seq<byte>, data: seq<byte>): (r: seq<byte>)
    requires |mask| == 4
    ensures |r| == |data|
  {
    seq(|data|, i requires 0 <= i < |data| => Xor(data[i], mask[i % 4]))
  }

  lemma MaskedInvolution(mask: seq<byte>, data: seq<byte>)
    requires |mask| == 4
    ensures Masked(mask, Masked(mask, data)) == data
  {
    forall i | 0 <= i < |data| ensures Masked(mask, Masked(mask, data))[i] == data[i] {
      XorInvolution(data[i], mask[i % 4]);
    }
  }

  /** Masking, bit by bit: a bit is turned over where the mask's byte has it set. */
  lemma MaskedBits(mask: seq<byte>, data: seq<byte>, i: nat, k: nat)
    requires |mask| == 4 && i < |data| && k < 8
    ensures Bit(Masked(mask, data)[i], k) == (Bit(data[i], k) + Bit(mask[i % 4], k)) % 2
  {
    hide Bit;
    XorIff(data[i], mask[i % 4], Masked(mask, data)[i]);
  }

  /** The same byte, or a letter and the same letter in the other case. */
  predicate SameLetter(a: byte, b: byte)
  {
    a == b || (65 <= a <= 90 && b == a + 32) || (65 <= b <= 90 && a == b + 32)
  }

  /** Texts that differ in nothing but the case of letters. */
  predicate SameText(s: seq<byte>, t: seq<byte>)
  {
    |s| == |t| && forall i | 0 <= i < |s| :: SameLetter(s[i], t[i])
  }

  /** The bytes of a text of plain characters. */
  function Ascii(s: string): (r: seq<byte>)
    ensures |r| == |s|
  {
    seq(|s|, i requires 0 <= i < |s| => s[i] as int % 256)
  }

  function Zeros(n: nat): (s: seq<byte>)
  {
    seq(n, _ => 0)
  }

  function Concat<T>(parts: seq<seq<T>>): (s: seq<T>)
  {
    if parts == [] then [] else parts[0] + Concat(parts[1..])
  }

  lemma ConcatStep<T>(parts: seq<seq<T>>, i: nat)
    requires i < |parts|
    ensures Concat(parts[i..]) == parts[i] + Concat(parts[i + 1..])
  {
    assert parts[i..][1..] == parts[i + 1..];
  }

  lemma ConcatEnd<T>(parts: seq<seq<T>>)
    ensures Concat(parts[|parts|..]) == []
  {
    assert parts[|parts|..] == [];
  }
}
