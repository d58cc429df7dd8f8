/**
  Base64 (RFC 4648, section 4): the encoder that is fed piece by piece, the one that works at
  once, and the decoder.
 */
module Base64 {
  import opened Bytes
  import Mbuf
  import Slices

  const PAD: byte := 61

  type sextet = x: int | 0 <= x < 64

  /** The character of six bits. */
  function Code(v: sextet): (ch: byte)
  {
    if v < 26 then v + 65 else if v < 52 then v - 26 + 97 else if v < 62 then v - 52 + 48
    else if v == 62 then 43 else 47
  }

  /** Three bytes as four groups of six bits. */
  function Groups(a: byte, b: byte, c: byte): (g: seq<sextet>)
    ensures |g| == 4
  {
    [a / 4, (a % 4) * 16 + b / 16, (b % 16) * 4 + c / 64, c % 64]
  }

  /** The characters for `s`, the first one to three bytes left. */
  function Quad(s: seq<byte>): (q: seq<byte>)
    requires 1 <= |s| <= 3
    ensures |q| == 4
  {
    var g := Groups(s[0], if |s| > 1 then s[1] else 0, if |s| > 2 then s[2] else 0);
    [Code(g[0]), Code(g[1]), if |s| > 1 then Code(g[2]) else PAD, if |s| > 2 then Code(g[3]) else PAD]
  }

  /** The number of quads for `n` bytes. */
  function Quads(n: nat): (q: nat)
  {
    (n + 2) / 3
  }

  function Encoded(s: seq<byte>): (t: seq<byte>)
    ensures |t| == 4 * Quads(|s|)
  {
    if s == [] then [] else if |s| <= 3 then Quad(s) else Quad(s[..3]) + Encoded(s[3..])
  }

  /** Whole groups of three can be encoded apart from what follows. */
  lemma {:induction false} EncodedConcat(s: seq<byte>, t: seq<byte>)
    requires |s| % 3 == 0
    ensures Encoded(s + t) == Encoded(s) + Encoded(t)
  {
    hide Quad;
    if s == [] {
      assert s + t == t;
    } else {
      EncodedConcat(s[3..], t);
      assert (s + t)[..3] == s[..3] && (s + t)[3..] == s[3..] + t;
      assert |s| == 3 ==> s[..3] == s && s[3..] == [];
      assert Encoded(s) == Quad(s[..3]) + Encoded(s[3..]);
      if |s + t| == 3 {
        assert t == [] && s + t == s;
      } else {
        Slices.Assoc3(Quad(s[..3]), Encoded(s[3..]), Encoded(t));
      }
    }
  }

  // ----- decoding -----

  const BAD := 255
  const PADDING := 200

  /** The inverse of the alphabet; only seven bits of the character are looked at. */
  function FromCode(ch: byte): (v: nat)
    ensures v < 64 || v == PADDING || v == BAD
  {
    var c := ch % 128;
    if 65 <= c <= 90 then c - 65 else if 97 <= c <= 122 then c - 97 + 26 else if 48 <= c <= 57 then c - 48 + 52
    else if c == 43 then 62 else if c == 47 then 63 else if c == PAD then PADDING else BAD
  }

  /** The alphabet of the standard: capitals, small letters, then digits and two marks. */
  function Capitals(): (s: string)
  {
    "ABCDEFGHIJKLMNOPQRSTUVWXYZ"
  }

  function Smalls(): (s: string)
  {
    "abcdefghijklmnopqrstuvwxyz"
  }

  function Marks(): (s: string)
  {
    "0123456789+/"
  }

  function Letters(): (s: string)
    ensures |s| == 64
  {
    Capitals() + Smalls() + Marks()
  }

  lemma CapitalIs(v: nat)
    requires v < 26
    ensures Capitals()[v] as int == v + 65
  {
  }

  lemma SmallIs(v: nat)
    requires v < 26
    ensures Smalls()[v] as int == v + 97
  {
  }

  /** Six bits are written as the standard has it. */
  lemma CodeIs(v: sextet)
    ensures Code(v) == Letters()[v] as int
  {
    var a, b, c := Capitals(), Smalls(), Marks();
    assert |a| == 26 && |b| == 26;
    if v < 26 {
      CapitalIs(v);
    } else if v < 52 {
      SmallIs(v - 26);
    } else {
      assert Letters()[v] == c[v - 52];
    }
  }

  /** A character stands for the six bits that are written as it, an equals sign for padding, and no other
      for anything; the top bit of a character is not looked at. */
  lemma FromCodeIff(ch: byte, v: sextet)
    ensures FromCode(ch) == v <==> Letters()[v] as int == ch % 128
    ensures FromCode(ch) == PADDING <==> ch % 128 == '=' as byte
  {
    CodeIs(v);
    hide Letters;
  }

  /** The bytes of one quad, shifted and cut to eight bits. */
  function Bytes3(a: sextet, b: sextet, c: nat, d: nat): (s: seq<byte>)
    requires Known(c) && Known(d)
    ensures 1 <= |s| <= 3
  {
    if c == PADDING then [a * 4 + b / 16]
    else if d == PADDING then [a * 4 + b / 16, b % 16 * 16 + c / 4]
    else [a * 4 + b / 16, b % 16 * 16 + c / 4, c % 4 * 64 + d]
  }

  /** A value the decoder goes on with. */
  predicate Known(v: nat)
  {
    v < 64 || v == PADDING
  }

  /** The bytes of a quad; none when the padding is out of place. */
  function QuadBytes(a: nat, b: nat, c: nat, d: nat): (s: seq<byte>)
    requires Known(a) && Known(b) && Known(c) && Known(d)
    ensures |s| <= 3
  {
    if a == PADDING || b == PADDING then [] else Bytes3(a, b, c, d)
  }

  /** Four characters, if all are in the alphabet. */
  function ReadQuad(s: seq<byte>): (r: Option<seq<byte>>)
    requires |s| >= 4
    ensures r.Some? ==> |r.value| <= 3
  {
    var a, b, c, d := FromCode(s[0]), FromCode(s[1]), FromCode(s[2]), FromCode(s[3]);
    if a == BAD || b == BAD || c == BAD || d == BAD then None
    else Some(QuadBytes(a, b, c, d))
  }

  /** The bytes decoded and the number of quads used: up to padding, a foreign character or the
      end. */
  function Decoded(s: seq<byte>): (r: (seq<byte>, nat))
    ensures 4 * r.1 <= |s| && |r.0| <= 3 * r.1
  {
    if |s| < 4 || ReadQuad(s).None? then ([], 0)
    else
      var out := ReadQuad(s).value;
      if |out| < 3 then (out, 1)
      else
        var rest := Decoded(s[4..]);
        (out + rest.0, 1 + rest.1)
  }

  lemma JoinFirst(a: byte, b: byte)
    ensures (a / 4) * 4 + ((a % 4) * 16 + b / 16) / 16 == a
  {
  }

  lemma JoinSecond(a: byte, b: byte, c: byte)
    ensures ((a % 4) * 16 + b / 16) % 16 * 16 + ((b % 16) * 4 + c / 64) / 4 == b
  {
  }

  lemma JoinThird(b: byte, c: byte)
    ensures ((b % 16) * 4 + c / 64) % 4 * 64 + c % 64 == c
  {
  }

  lemma GroupsJoin(a: byte, b: byte, c: byte)
    ensures var g := Groups(a, b, c);
            && Bytes3(g[0], g[1], PADDING, PADDING) == [a]
            && Bytes3(g[0], g[1], g[2], PADDING) == [a, b]
            && Bytes3(g[0], g[1], g[2], g[3]) == [a, b, c]
  {
    JoinFirst(a, b);
    JoinSecond(a, b, c);
    JoinThird(b, c);
  }

  lemma CodeInverts(v: sextet)
    ensures FromCode(Code(v)) == v
  {
  }

  lemma QuadInverts(s: seq<byte>)
    requires 1 <= |s| <= 3
    ensures ReadQuad(Quad(s)) == Some(s)
  {
    hide Code, FromCode, Groups, Bytes3;
    var x, y := if |s| > 1 then s[1] else 0, if |s| > 2 then s[2] else 0;
    var g := Groups(s[0], x, y);
    CodeInverts(g[0]);
    CodeInverts(g[1]);
    CodeInverts(g[2]);
    CodeInverts(g[3]);
    PadIsPadding();
    GroupsJoin(s[0], x, y);
    var q := Quad(s);
    assert FromCode(q[0]) == g[0] && FromCode(q[1]) == g[1];
    assert FromCode(q[2]) == if |s| > 1 then g[2] else PADDING;
    assert FromCode(q[3]) == if |s| > 2 then g[3] else PADDING;
    assert s == if |s| == 1 then [s[0]] else if |s| == 2 then [s[0], s[1]] else [s[0], s[1], s[2]];
  }

  lemma QuadPrefix(q: seq<byte>, t: seq<byte>)
    requires |q| == 4
    ensures ReadQuad(q + t) == ReadQuad(q)
  {
  }

  lemma PadIsPadding()
    ensures FromCode(PAD) == PADDING
  {
  }

  /** Decoding an encoded text gives the bytes back and uses all of it. */
  lemma {:induction false} RoundTrip(s: seq<byte>)
    ensures Decoded(Encoded(s)) == (s, Quads(|s|)) && |Encoded(s)| == 4 * Quads(|s|)
    decreases |s|
  {
    hide Quad, ReadQuad;
    if s != [] {
      var front, rest := if |s| <= 3 then s else s[..3], if |s| <= 3 then [] else s[3..];
      QuadInverts(front);
      QuadPrefix(Quad(front), Encoded(rest));
      RoundTrip(rest);
      var t := Encoded(s);
      assert t == Quad(front) + Encoded(rest);
      assert t[4..] == Encoded(rest) && s == front + rest;
    }
  }

  // ----- the encoder that is fed piece by piece -----

  lemma FeedParts(fed: seq<byte>, size: nat, b: byte)
    requires size <= |fed|
    ensures var whole, tail, now := fed[..|fed| - size], fed[|fed| - size..], fed + [b];
            && now == whole + (tail + [b]) && now[..|fed| - size] == whole && now[|fed| - size..] == tail + [b]
            && now[..|now|] == now && now[|now|..] == []
  {
  }

  class Encoder {
    var chunk: array<byte>
    var size: nat
    var out: seq<byte>
    ghost var fed: seq<byte>

    ghost predicate Valid()
      reads this, chunk
    {
      && chunk.Length == 3 && size < 3 && size <= |fed| && (|fed| - size) % 3 == 0
      && chunk[..size] == fed[|fed| - size..]
      && out == Encoded(fed[..|fed| - size])
    }

    constructor ()
      ensures Valid() && fresh(chunk) && fed == [] && out == []
    {
      chunk, size, out, fed := new byte[3], 0, [], [];
    }

    method EmitCode(v: sextet)
      modifies this`out
      ensures out == old(out) + [Code(v)]
    {
      if v < 26 {
        out := out + [v + 65];
      } else if v < 52 {
        out := out + [v - 26 + 97];
      } else if v < 62 {
        out := out + [v - 52 + 48];
      } else {
        out := out + [if v - 62 == 0 then 43 else 47];
      }
    }

    /** Emits the characters of the chunk, without padding. */
    method EmitChunk()
      requires chunk.Length == 3 && 1 <= size <= 3 && (size < 3 ==> chunk[2] == 0) && (size < 2 ==> chunk[1] == 0)
      modifies this`out
      ensures out == old(out) + Quad(chunk[..size])[..size + 1]
    {
      hide Code;
      ghost var was, q := out, Quad(chunk[..size]);
      var a, b, c := chunk[0], chunk[1], chunk[2];
      EmitCode(a / 4);
      EmitCode((a % 4) * 16 + b / 16);
      assert out == was + q[..2];
      if size > 1 {
        EmitCode((b % 16) * 4 + c / 64);
        assert out == was + q[..3];
      }
      if size > 2 {
        EmitCode(c % 64);
        assert out == was + q[..4];
      }
    }

    method Feed(b: byte)
      requires Valid()
      modifies this, chunk
      ensures Valid() && chunk == old(chunk) && fed == old(fed) + [b]
    {
      hide Quad, Encoded;
      ghost var whole, tail := fed[..|fed| - size], fed[|fed| - size..];
      FeedParts(fed, size, b);
      chunk[size] := b;
      assert chunk[..size + 1] == tail + [b];
      size := size + 1;
      fed := fed + [b];
      if size == 3 {
        EmitChunk();
        QuadWhole(whole, tail + [b]);
        size := 0;
      }
    }

    method Update(s: seq<byte>)
      requires Valid()
      modifies this, chunk
      ensures Valid() && chunk == old(chunk) && fed == old(fed) + s
    {
      hide Valid;
      var i := 0;
      assert s[..0] == [];
      while i < |s|
        invariant 0 <= i <= |s| && Valid() && chunk == old(chunk)
        invariant fed == old(fed) + s[..i]
      {
        Feed(s[i]);
        assert s[..i + 1] == s[..i] + [s[i]];
        i := i + 1;
      }
      assert s[..i] == s;
    }

    /** Ends the text: whatever the pieces were, it is the encoding of all that was fed. */
    method Finish()
      requires Valid()
      modifies this, chunk
      ensures fed == old(fed) && out == Encoded(fed)
    {
      hide Quad, Encoded;
      ghost var whole, tail := fed[..|fed| - size], fed[|fed| - size..];
      assert fed == whole + tail;
      if size > 0 {
        var i := size;
        while i < 3
          invariant size == old(size) && out == old(out) && fed == old(fed) && chunk == old(chunk)
          invariant size <= i <= 3 && chunk[..size] == tail
          invariant forall k | size <= k < i :: chunk[k] == 0
        {
          chunk[i] := 0;
          i := i + 1;
        }
        EmitChunk();
        ghost var sent := out;
        i := 0;
        while i < 3 - size
          invariant 0 <= i <= 3 - size && out == sent + Pads(i) && size == old(size) && fed == old(fed)
        {
          out := out + [PAD];
          i := i + 1;
        }
        QuadLast(whole, tail);
      } else {
        assert fed[..|fed|] == fed;
      }
    }
  }

  /** However the input is cut, the pieces give the text of the whole. */
  method EncodePieces(parts: seq<seq<byte>>) returns (text: seq<byte>)
    ensures text == Encoded(Concat(parts))
  {
    hide *;
    var e := new Encoder();
    FeedAll(e, parts);
    assert [] + Concat(parts) == Concat(parts);
    e.Finish();
    text := e.out;
  }

  method FeedAll(e: Encoder, parts: seq<seq<byte>>)
    requires e.Valid()
    modifies e, e.chunk
    ensures e.Valid() && e.chunk == old(e.chunk) && e.fed == old(e.fed) + Concat(parts)
  {
    hide *;
    ghost var fed, rest := e.fed, Concat(parts);
    assert parts[0..] == parts;
    for i := 0 to |parts|
      invariant e.Valid() && e.chunk == old(e.chunk)
      invariant rest == Concat(parts[i..]) && e.fed + rest == fed + Concat(parts)
    {
      ConcatStep(parts, i);
      rest := Concat(parts[i + 1..]);
      Slices.Assoc3(e.fed, parts[i], rest);
      e.Update(parts[i]);
    }
    ConcatEnd(parts);
    assert e.fed + [] == e.fed;
  }

  function Pads(n: nat): (s: seq<byte>)
    ensures |s| == n
  {
    seq(n, _ => PAD)
  }

  lemma QuadWhole(whole: seq<byte>, tail: seq<byte>)
    requires |whole| % 3 == 0 && |tail| == 3
    ensures Encoded(whole + tail) == Encoded(whole) + Quad(tail)[..4]
  {
    EncodedConcat(whole, tail);
    assert Quad(tail)[..4] == Quad(tail);
  }

  lemma QuadLast(whole: seq<byte>, tail: seq<byte>)
    requires |whole| % 3 == 0 && 1 <= |tail| <= 2
    ensures Encoded(whole + tail) == Encoded(whole) + Quad(tail)[..|tail| + 1] + Pads(3 - |tail|)
  {
    EncodedConcat(whole, tail);
    assert Quad(tail) == Quad(tail)[..|tail| + 1] + Pads(3 - |tail|);
    Slices.Assoc3(Encoded(whole), Quad(tail)[..|tail| + 1], Pads(3 - |tail|));
  }

  // ----- at once -----

  /** Capitals, small letters, digits, `+` and `/`. */
  const ALPHABET: seq<byte> := seq(26, i => 65 + i) + seq(26, i => 97 + i) + seq(10, i => 48 + i) + [43, 47]

  lemma AlphabetIsCode(v: sextet)
    ensures |ALPHABET| == 64 && ALPHABET[v] == Code(v)
  {
  }

  /** The length of the block at `i`: three bytes, or what is left. */
  function BlockSize(size: nat, i: nat): (n: nat)
    requires i < size
    ensures 1 <= n <= 3 && i + n <= size && (n < 3 ==> i + n == size)
  {
    if i + 3 <= size then 3 else size - i
  }

  /** The characters of the block at `i`, without padding. */
  method EncodeBlock(src: seq<byte>, i: nat) returns (q: seq<byte>)
    requires i < |src|
    ensures var n := BlockSize(|src|, i); q == Quad(src[i..i + n])[..n + 1]
  {
    hide Code;
    ghost var s := src[i..i + BlockSize(|src|, i)];
    var a: byte, b: byte, c: byte := src[i], 0, 0;
    if i + 1 < |src| {
      b := src[i + 1];
    }
    if i + 2 < |src| {
      c := src[i + 2];
    }
    ghost var g := Groups(a, b, c);
    AlphabetIsCode(g[0]);
    AlphabetIsCode(g[1]);
    AlphabetIsCode(g[2]);
    AlphabetIsCode(g[3]);
    q := [ALPHABET[a / 4], ALPHABET[(a % 4) * 16 + b / 16]];
    if i + 1 < |src| {
      q := q + [ALPHABET[(b % 16) * 4 + c / 64]];
    }
    if i + 2 < |src| {
      q := q + [ALPHABET[c % 64]];
    }
  }

  /** One block more, and how much padding is missing behind it. */
  lemma EncodedBlock(src: seq<byte>, i: nat)
    requires i < |src| && i % 3 == 0
    ensures var n := BlockSize(|src|, i);
            Encoded(src[..i]) + Quad(src[i..i + n])[..n + 1] + Pads(3 - n) == Encoded(src[..i + n])
  {
    hide Quad, Encoded;
    var n := BlockSize(|src|, i);
    var whole, tail := src[..i], src[i..i + n];
    assert src[..i + n] == whole + tail;
    if n == 3 {
      QuadWhole(whole, tail);
      assert Encoded(whole) + Quad(tail)[..4] + Pads(0) == Encoded(whole) + Quad(tail)[..4];
    } else {
      QuadLast(whole, tail);
    }
  }

  /** What is sent when the blocks before `i` are: the last one can lack padding. */
  ghost predicate Sent(src: seq<byte>, i: nat, sent: seq<byte>, missing: nat)
  {
    if i <= |src| then i % 3 == 0 && missing == 0 && sent == Encoded(src[..i])
    else missing < 3 && sent + Pads(missing) == Encoded(src)
  }

  lemma SentBlock(src: seq<byte>, i: nat, sent: seq<byte>)
    requires i < |src| && Sent(src, i, sent, 0)
    ensures var n := BlockSize(|src|, i);
            var now := sent + Quad(src[i..i + n])[..n + 1];
            Sent(src, i + 3, now, 3 - n) && |now| + (3 - n) <= |Encoded(src)|
  {
    hide Quad, Encoded;
    var n := BlockSize(|src|, i);
    var now := sent + Quad(src[i..i + n])[..n + 1];
    EncodedBlock(src, i);
    if n == 3 {
      assert now + Pads(0) == now;
    } else {
      assert src[..i + n] == src;
    }
  }

  lemma SentAll(src: seq<byte>, i: nat, sent: seq<byte>, missing: nat)
    requires |src| <= i && Sent(src, i, sent, missing)
    ensures missing < 3 && sent + Pads(missing) == Encoded(src)
  {
    assert i == |src| ==> src[..i] == src && sent + Pads(0) == sent;
  }

  /** Writes the text of `src`, padded and ended by a zero byte. */
  method Encode(src: seq<byte>, dst: array<byte>)
    requires |Encoded(src)| < dst.Length
    modifies dst
    ensures var n := |Encoded(src)|; dst[..n] == Encoded(src) && dst[n] == 0
  {
    hide Encoded;
    var j;
    ghost var missing;
    j, missing := EncodeBlocks(src, dst);
    PadOut(dst, j, dst[..j], missing);
  }

  /** Writes the text without its padding. */
  method EncodeBlocks(src: seq<byte>, dst: array<byte>) returns (j: nat, ghost missing: nat)
    requires |Encoded(src)| < dst.Length
    modifies dst
    ensures j + missing == |Encoded(src)| && missing < 3 && dst[..j] + Pads(missing) == Encoded(src)
  {
    var i: nat := 0;
    j, missing := 0, 0;
    ghost var sent := dst[..0];
    assert Sent(src, 0, sent, 0);
    hide Quad, Quads, Encoded, Sent;
    while i < |src|
      invariant j == |sent| && j + missing <= |Encoded(src)| && dst[..j] == sent
      invariant Sent(src, i, sent, missing) && (i < |src| ==> missing == 0)
    {
      SentBlock(src, i, sent);
      var q := EncodeBlock(src, i);
      Mbuf.CopyBehind(dst, j, q);
      sent, missing := sent + q, 3 - BlockSize(|src|, i);
      i, j := i + 3, j + |q|;
    }
    SentAll(src, i, sent, missing);
  }

  /** Pads the text to a multiple of four and ends it. */
  method PadOut(dst: array<byte>, from: nat, ghost sent: seq<byte>, ghost missing: nat)
    requires from + missing < dst.Length && missing < 3 && (from + missing) % 4 == 0 && dst[..from] == sent
    modifies dst
    ensures dst[..from + missing] == sent + Pads(missing) && dst[from + missing] == 0
  {
    var j := from;
    while j % 4 != 0
      invariant from <= j <= from + missing && dst[..j] == sent + Pads(j - from)
      decreases from + missing - j
    {
      dst[j] := PAD;
      j := j + 1;
    }
    dst[j] := 0;
  }

  /** Writes the bytes of one quad; stops at padding. */
  method DecodeQuad(a: nat, b: nat, c: nat, d: nat, dst: array<byte>, at: nat) returns (end: nat, more: bool)
    requires Known(a) && Known(b) && Known(c) && Known(d) && at + |QuadBytes(a, b, c, d)| <= dst.Length
    modifies dst
    ensures var out := QuadBytes(a, b, c, d);
            end == at + |out| && dst[..end] == old(dst[..at]) + out && more == (|out| == 3)
  {
    end, more := at, false;
    if a == PADDING || b == PADDING {
      return;
    }
    ghost var front := dst[..at];
    dst[end], end := a * 4 + b / 16, end + 1;
    assert dst[..end] == front + [a * 4 + b / 16];
    if c == PADDING {
      return;
    }
    dst[end], end := b % 16 * 16 + c / 4, end + 1;
    assert dst[..end] == front + [a * 4 + b / 16, b % 16 * 16 + c / 4];
    if d == PADDING {
      return;
    }
    dst[end], end := c % 4 * 64 + d, end + 1;
    more := true;
  }

  lemma DecodedStep(s: seq<byte>, out: seq<byte>, quads: nat)
    requires |s| >= 4
    ensures ReadQuad(s).None? ==> (out + Decoded(s).0, quads + Decoded(s).1) == (out, quads)
    ensures ReadQuad(s).Some? ==>
              var now, rest := ReadQuad(s).value, Decoded(s[4..]);
              (out + Decoded(s).0, quads + Decoded(s).1) ==
                if |now| == 3 then (out + now + rest.0, quads + 1 + rest.1) else (out + now, quads + 1)
  {
    hide ReadQuad;
    if ReadQuad(s).Some? {
      Slices.Assoc3(out, ReadQuad(s).value, Decoded(s[4..]).0);
    } else {
      assert out + [] == out;
    }
  }

  lemma DecodedShort(s: seq<byte>, out: seq<byte>)
    requires |s| < 4
    ensures Decoded(s) == ([], 0) && out + Decoded(s).0 == out
  {
  }

  /** Decodes into `dst`, behind which a zero byte is put. */
  method Decode(s: seq<byte>, dst: array<byte>) returns (used: nat, len: nat)
    requires |Decoded(s).0| < dst.Length
    modifies dst
    ensures used == 4 * Decoded(s).1 && len == |Decoded(s).0|
    ensures dst[..len] == Decoded(s).0 && dst[len] == 0
  {
    hide FromCode, QuadBytes, Decoded;
    used, len := 0, 0;
    var more := true;
    ghost var out, quads := dst[..0], 0;
    assert s[0..] == s && [] + Decoded(s).0 == Decoded(s).0;
    while more && |s| - used >= 4
      invariant used == 4 * quads <= |s| && len <= |Decoded(s).0| && dst[..len] == out
      invariant Decoded(s) == if more then (out + Decoded(s[used..]).0, quads + Decoded(s[used..]).1) else (out, quads)
      decreases more, |s| - used
    {
      ghost var rest := s[used..];
      var a, b, c, d := FromCode(s[used]), FromCode(s[used + 1]), FromCode(s[used + 2]), FromCode(s[used + 3]);
      DecodedStep(rest, out, quads);
      if a == BAD || b == BAD || c == BAD || d == BAD {
        more := false;
      } else {
        Slices.DropDrop(s, used, 4);
        used, quads, out := used + 4, quads + 1, out + ReadQuad(rest).value;
        len, more := DecodeQuad(a, b, c, d, dst, len);
      }
    }
    if more {
      DecodedShort(s[used..], out);
    }
    dst[len] := 0;
    assert dst[..len] == out;
  }
}
