/**
  HTTP chunked transfer coding: the sender's chunks, the receiver's parser, and that the decoded
  body does not depend on how the stream was cut (RFC 7230, section 4.1).
 */
module Chunked {
  import opened Bytes
  import opened Streams
  import Slices

  const CR: byte := 13
  const LF: byte := 10
  const CRLF: seq<byte> := [13, 10]

  predicate IsHex(b: byte)
  {
    48 <= b <= 57 || 65 <= b <= 70 || 97 <= b <= 102
  }

  function HexDigit(b: byte): (d: nat)
    requires IsHex(b)
    ensures d < 16
  {
    if b <= 57 then b - 48 else if b <= 70 then b - 55 else b - 87
  }

  /** How many bytes at the front are hexadecimal digits. */
  function HexSpan(s: seq<byte>): (n: nat)
    ensures n <= |s| && (n < |s| ==> !IsHex(s[n]))
    ensures forall i | 0 <= i < n :: IsHex(s[i])
  {
    if s == [] || !IsHex(s[0]) then 0 else 1 + HexSpan(s[1..])
  }

  function HexValue(s: seq<byte>): (n: nat)
    requires forall i | 0 <= i < |s| :: IsHex(s[i])
  {
    if s == [] then 0 else 16 * HexValue(s[..|s| - 1]) + HexDigit(s[|s| - 1])
  }

  /** A whole chunk: where its data starts and how long it is; or a length that runs past all memory
      and is nevertheless taken for one. */
  datatype Chunk = NoChunk | Chunk(start: nat, size: nat) | Wild

  predicate CrLfAt(s: seq<byte>, i: nat)
  {
    i + 2 <= |s| && s[i] == CR && s[i + 1] == LF
  }

  /** A chunk as the standard has it, of any size. */
  function ParseChunk(s: seq<byte>): (c: Chunk)
    ensures !c.Wild?
    ensures c.Chunk? ==> c.start >= 3 && c.start + c.size + 2 <= |s|
  {
    var i := HexSpan(s);
    var n := HexValue(s[..i]);
    if i == 0 || !CrLfAt(s, i) || !CrLfAt(s, i + 2 + n) then NoChunk else Chunk(i + 2, n)
  }

  /** The parser on a machine whose sizes wrap around at `width`: the length is cut to its low bits,
      and so is the place where the data ends. */
  function ParseChunkAt(width: nat, s: seq<byte>): (c: Chunk)
    requires width > 0
    ensures c.Chunk? ==> c.start >= 3 && c.start + c.size + 2 <= |s|
  {
    var i := HexSpan(s);
    var start, n := i + 2, HexValue(s[..i]) % width;
    if i == 0 || !CrLfAt(s, i) then NoChunk
    else if start + n < width then (if CrLfAt(s, start + n) then Chunk(start, n) else NoChunk)
    else if start + n > width && CrLfAt(s, start + n - width) then Wild
    else NoChunk
  }

  /** A chunk header whose length is too large, with a line end where the wrapped length points. */
  predicate Wraps(width: nat, s: seq<byte>)
    requires width > 0
  {
    var i := HexSpan(s);
    var end := i + 2 + HexValue(s[..i]);
    i > 0 && CrLfAt(s, i) && end >= width && end % width != 0 && CrLfAt(s, end % width)
  }

  /** The parser finds what the standard has exactly when no length wraps around to a line end. */
  lemma ParseAgreesIff(width: nat, s: seq<byte>)
    requires |s| < width
    ensures ParseChunkAt(width, s) == ParseChunk(s) <==> !Wraps(width, s)
  {
    hide HexSpan, HexValue;
    var i := HexSpan(s);
    var start, v := i + 2, HexValue(s[..i]);
    if i > 0 && CrLfAt(s, i) {
      WrapSplits(width, start, v);
    }
  }

  /** Where the wrapped length points. */
  lemma WrapSplits(width: nat, start: nat, v: nat)
    requires start < width
    ensures var n := v % width;
      && (start + v < width ==> n == v)
      && (start + v) % width == if start + n < width then start + n else start + n - width
  {
    var q, n := v / width, v % width;
    assert v == q * width + n;
    ModShift(q, n, width);
    ModShift(q, start + n, width);
    assert start + v == q * width + (start + n);
    if start + n >= width {
      ModShift(1, start + n - width, width);
    }
    SmallMod(start + n, width);
    if start + n >= width {
      SmallMod(start + n - width, width);
    }
    if start + v < width {
      SmallMod(v, width);
    }
  }

  lemma HexSnoc(h: seq<byte>, b: byte)
    requires IsHex(b) && forall i | 0 <= i < |h| :: IsHex(h[i])
    ensures HexValue(h + [b]) == 16 * HexValue(h) + HexDigit(b)
  {
    assert (h + [b])[..|h|] == h;
  }

  lemma WildLength()
    ensures HexValue([70, 70, 70, 70, 70, 70, 70, 69]) == 0xFFFF_FFFE
  {
    hide HexValue;
    HexSnoc([], 70);
    HexSnoc([70], 70);
    HexSnoc([70, 70], 70);
    HexSnoc([70, 70, 70], 70);
    HexSnoc([70, 70, 70, 70], 70);
    HexSnoc([70, 70, 70, 70, 70], 70);
    HexSnoc([70, 70, 70, 70, 70, 70], 70);
    HexSnoc([70, 70, 70, 70, 70, 70, 70], 69);
    NoDigits();
    assert [] + [70] == [70] && [70] + [70] == [70, 70] && [70, 70] + [70] == [70, 70, 70];
    assert [70, 70, 70] + [70] == [70, 70, 70, 70] && [70, 70, 70, 70] + [70] == [70, 70, 70, 70, 70];
    assert [70, 70, 70, 70, 70] + [70] == [70, 70, 70, 70, 70, 70];
    assert [70, 70, 70, 70, 70, 70] + [70] == [70, 70, 70, 70, 70, 70, 70];
    assert [70, 70, 70, 70, 70, 70, 70] + [69] == [70, 70, 70, 70, 70, 70, 70, 69];
  }

  lemma NoDigits()
    ensures HexValue([]) == 0
  {
  }

  /** Ten bytes that are no chunk, whatever follows them in memory, and on a machine of 32 bits are
      taken for one of 2^32 - 2 bytes. */
  lemma WildChunk()
    ensures var s := [70, 70, 70, 70, 70, 70, 70, 69, 13, 10]; ParseChunk(s) == NoChunk && ParseChunkAt(0x1_0000_0000, s) == Wild
  {
    hide HexSpan, HexValue;
    var h: seq<byte> := [70, 70, 70, 70, 70, 70, 70, 69];
    var s := h + [13, 10];
    HexSpanOf(h, [13, 10]);
    WildLength();
    assert s == [70, 70, 70, 70, 70, 70, 70, 69, 13, 10] && s[..8] == h;
    assert CrLfAt(s, 8);
  }

  /** Chunks are read until the empty one. */
  datatype Ctl = Reading | Finished

  /** What is emitted are body bytes; a wild chunk ends all that can be said. */
  function Step(ctl: Ctl, c: Chunk, s: seq<byte>): (st: Streams.Step<Ctl, byte>)
    requires c.Chunk? ==> c.start + c.size + 2 <= |s|
    ensures st.Took? ==> 0 < st.used <= |s|
  {
    if ctl.Finished? || c.NoChunk? then Wait
    else if c.Wild? then Fail
    else Took(if c.size == 0 then Finished else Reading, c.start + c.size + 2, s[c.start..c.start + c.size])
  }

  /** Decoding as the standard has it. */
  function Decode(ctl: Ctl, s: seq<byte>): (st: Streams.Step<Ctl, byte>)
    ensures st.Took? ==> 0 < st.used <= |s|
  {
    Step(ctl, ParseChunk(s), s)
  }

  function ChunkDecoder(): Streams.Decoder<Ctl, byte>
  {
    (ctl, s) => Decode(ctl, s)
  }

  /** Decoding as it runs. */
  function DecodeAt(width: nat, ctl: Ctl, s: seq<byte>): (st: Streams.Step<Ctl, byte>)
    requires width > 0
    ensures st.Took? ==> 0 < st.used <= |s|
  {
    Step(ctl, ParseChunkAt(width, s), s)
  }

  function ChunkDecoderAt(width: nat): Streams.Decoder<Ctl, byte>
    requires width > 0
  {
    (ctl, s) => DecodeAt(width, ctl, s)
  }

  lemma {:induction false} HexSpanStable(s: seq<byte>, t: seq<byte>)
    requires HexSpan(s) < |s|
    ensures HexSpan(s + t) == HexSpan(s)
    decreases |s|
  {
    if IsHex(s[0]) {
      assert (s + t)[1..] == s[1..] + t;
      HexSpanStable(s[1..], t);
    }
  }

  lemma DecodeStable(width: nat, ctl: Ctl, s: seq<byte>, t: seq<byte>)
    requires width > 0 && DecodeAt(width, ctl, s) != Wait
    ensures DecodeAt(width, ctl, s + t) == DecodeAt(width, ctl, s)
  {
    hide HexSpan, HexValue;
    HexSpanStable(s, t);
    var c := ParseChunkAt(width, s);
    Slices.OfPrefix(s, t, 0, HexSpan(s));
    assert c == ParseChunkAt(width, s + t);
    if c.Chunk? {
      Slices.OfPrefix(s, t, c.start, c.start + c.size);
    }
  }

  lemma DecoderIsStream(width: nat)
    requires width > 0
    ensures Progress(ChunkDecoderAt(width)) && Stable(ChunkDecoderAt(width))
  {
    hide DecodeAt;
    forall c, s, t | ChunkDecoderAt(width)(c, s) != Wait
      ensures ChunkDecoderAt(width)(c, s + t) == ChunkDecoderAt(width)(c, s)
    {
      assert ChunkDecoderAt(width)(c, s) == DecodeAt(width, c, s);
      DecodeStable(width, c, s, t);
    }
  }

  /** For every byte stream, well-formed or not, and every width of sizes, the decoded body, the bytes
      not decoded, the end of the body and a wild chunk depend on the bytes alone. */
  lemma BodyIgnoresSplits(width: nat, chunks: seq<seq<byte>>)
    requires width > 0
    ensures ReceiveAll(ChunkDecoderAt(width), Run(Reading, [], [], false), chunks)
         == Drain(ChunkDecoderAt(width), Reading, Concat(chunks))
  {
    hide DecodeAt;
    DecoderIsStream(width);
    SplitIndependence(ChunkDecoderAt(width), Reading, [], chunks);
    NothingYet(width);
    assert [] + Concat(chunks) == Concat(chunks);
  }

  lemma NothingYet(width: nat)
    requires width > 0
    ensures Drain(ChunkDecoderAt(width), Reading, []) == Run(Reading, [], [], false)
  {
    assert ChunkDecoderAt(width)(Reading, []) == DecodeAt(width, Reading, []) == Wait;
  }

  /** No chunk header met in `s` wraps around to a line end. */
  predicate NeverWraps(width: nat, s: seq<byte>)
    requires width > 0
    decreases |s|
  {
    !Wraps(width, s) &&
    var st := Decode(Reading, s);
    (st.Took? && st.ctl.Reading? ==> NeverWraps(width, s[st.used..]))
  }

  /** A stream in memory is decoded as the standard has it exactly when no length in it wraps around
      to a line end. */
  lemma {:induction false} DecodesAlikeIff(width: nat, s: seq<byte>)
    requires |s| < width
    ensures Drain(ChunkDecoderAt(width), Reading, s) == Drain(ChunkDecoder(), Reading, s) <==> NeverWraps(width, s)
    decreases |s|
  {
    hide ParseChunk, ParseChunkAt, Wraps;
    ParseAgreesIff(width, s);
    var st, at := Decode(Reading, s), DecodeAt(width, Reading, s);
    assert ChunkDecoder()(Reading, s) == st && ChunkDecoderAt(width)(Reading, s) == at;
    if Wraps(width, s) {
      WrapsTakes(width, s);
      if at.Took? {
        DrainShrinks(width, at.ctl, s[at.used..]);
      }
    } else if st.Took? {
      var rest := s[st.used..];
      if st.ctl.Reading? {
        DecodesAlikeIff(width, rest);
        SameOut(st.out, Drain(ChunkDecoderAt(width), Reading, rest), Drain(ChunkDecoder(), Reading, rest));
      } else {
        assert ChunkDecoder()(Finished, rest) == Wait && ChunkDecoderAt(width)(Finished, rest) == Wait;
      }
    }
  }

  lemma SameOut(out: seq<byte>, a: Run<Ctl, byte>, b: Run<Ctl, byte>)
    ensures Onto(out, a) == Onto(out, b) <==> a == b
  {
    assert (out + a.out)[|out|..] == a.out && (out + b.out)[|out|..] == b.out;
  }

  /** Where a length wraps, the standard has no chunk yet and the parser acts. */
  lemma WrapsTakes(width: nat, s: seq<byte>)
    requires |s| < width && Wraps(width, s)
    ensures Decode(Reading, s) == Wait && DecodeAt(width, Reading, s) != Wait
  {
    hide HexSpan, HexValue;
    var i := HexSpan(s);
    WrapSplits(width, i + 2, HexValue(s[..i]));
  }

  lemma {:induction false} DrainShrinks(width: nat, ctl: Ctl, s: seq<byte>)
    requires width > 0
    ensures |Drain(ChunkDecoderAt(width), ctl, s).rest| <= |s|
    decreases |s|
  {
    hide DecodeAt;
    var st := DecodeAt(width, ctl, s);
    assert ChunkDecoderAt(width)(ctl, s) == st;
    if st.Took? {
      DrainShrinks(width, st.ctl, s[st.used..]);
    }
  }

  // ----- the sender -----

  function UpperHexDigit(d: nat): (b: byte)
    requires d < 16
    ensures IsHex(b) && HexDigit(b) == d
  {
    if d < 10 then 48 + d else 55 + d
  }

  /** The number in upper-case hexadecimal without leading zeros. */
  function UpperHex(n: nat): (s: seq<byte>)
    ensures |s| > 0 && forall i | 0 <= i < |s| :: IsHex(s[i])
    ensures HexValue(s) == n
  {
    if n < 16 then [UpperHexDigit(n)] else UpperHex(n / 16) + [UpperHexDigit(n % 16)]
  }

  function ChunkBytes(data: seq<byte>): (s: seq<byte>)
  {
    UpperHex(|data|) + CRLF + data + CRLF
  }

  /** Non-empty chunks, then the empty one that ends the body. */
  function BodyBytes(chunks: seq<seq<byte>>): (s: seq<byte>)
  {
    if chunks == [] then ChunkBytes([]) else ChunkBytes(chunks[0]) + BodyBytes(chunks[1..])
  }

  lemma {:induction false} HexSpanOf(h: seq<byte>, t: seq<byte>)
    requires forall i | 0 <= i < |h| :: IsHex(h[i])
    requires t != [] && !IsHex(t[0])
    ensures HexSpan(h + t) == |h|
    decreases |h|
  {
    if h == [] {
      assert h + t == t;
    } else {
      assert (h + t)[1..] == h[1..] + t;
      HexSpanOf(h[1..], t);
    }
  }

  // ----- every way to write a size -----

  /** The digits of the standard in order, with capital and with small letters. */
  const CAPITALS: seq<byte> := [48, 49, 50, 51, 52, 53, 54, 55, 56, 57, 65, 66, 67, 68, 69, 70]
  const SMALLS: seq<byte> := [48, 49, 50, 51, 52, 53, 54, 55, 56, 57, 97, 98, 99, 100, 101, 102]

  /** The digits read are those of the standard, each with its value; capitals are written. */
  lemma DigitTable(b: byte, d: nat)
    requires d < 16
    ensures IsHex(b) <==> b in CAPITALS || b in SMALLS
    ensures HexDigit(CAPITALS[d]) == d && HexDigit(SMALLS[d]) == d && UpperHexDigit(d) == CAPITALS[d]
  {
    assert SMALLS[0] == 48 && SMALLS[1] == 49 && SMALLS[2] == 50 && SMALLS[3] == 51 && SMALLS[4] == 52 && SMALLS[5] == 53;
    assert SMALLS[6] == 54 && SMALLS[7] == 55 && SMALLS[8] == 56 && SMALLS[9] == 57 && SMALLS[10] == 97 && SMALLS[11] == 98;
    assert SMALLS[12] == 99 && SMALLS[13] == 100 && SMALLS[14] == 101 && SMALLS[15] == 102;
    assert CAPITALS[10] == 65 && CAPITALS[11] == 66 && CAPITALS[12] == 67 && CAPITALS[13] == 68 && CAPITALS[14] == 69;
  }

  predicate AllHex(h: seq<byte>)
  {
    forall i | 0 <= i < |h| :: IsHex(h[i])
  }

  /** The case of the digits does not matter. */
  lemma {:induction false} CaseKeepsValue(h: seq<byte>, g: seq<byte>)
    requires AllHex(h) && SameText(h, g)
    ensures AllHex(g) && HexValue(g) == HexValue(h)
    decreases |h|
  {
    forall i | 0 <= i < |g| ensures IsHex(g[i]) && HexDigit(g[i]) == HexDigit(h[i]) {
      assert SameLetter(h[i], g[i]) && IsHex(h[i]);
    }
    if h != [] {
      CaseKeepsValue(h[..|h| - 1], g[..|g| - 1]);
    }
  }

  function Noughts(k: nat): (s: seq<byte>)
  {
    seq(k, _ => 48)
  }

  /** Nor do leading zeros. */
  lemma {:induction false} NoughtsKeepValue(k: nat, h: seq<byte>)
    requires AllHex(h)
    ensures AllHex(Noughts(k) + h) && HexValue(Noughts(k) + h) == HexValue(h)
    decreases |h|, k
  {
    var s := Noughts(k) + h;
    if h != [] {
      NoughtsKeepValue(k, h[..|h| - 1]);
      assert s[..|s| - 1] == Noughts(k) + h[..|h| - 1];
    } else if k > 0 {
      NoughtsKeepValue(k - 1, h);
      assert s[..|s| - 1] == Noughts(k - 1) + h;
    }
  }

  /** `h` is the number `n` in hexadecimal, with capital or small letters and any leading zeros. */
  ghost predicate Spells(h: seq<byte>, n: nat)
  {
    exists k: nat :: SameText(Noughts(k) + UpperHex(n), h)
  }

  lemma SpellsValue(h: seq<byte>, n: nat)
    requires Spells(h, n)
    ensures h != [] && AllHex(h) && HexValue(h) == n
  {
    hide UpperHex, HexValue;
    var k: nat :| SameText(Noughts(k) + UpperHex(n), h);
    NoughtsKeepValue(k, UpperHex(n));
    CaseKeepsValue(Noughts(k) + UpperHex(n), h);
  }

  lemma UpperHexSpells(n: nat)
    ensures Spells(UpperHex(n), n)
  {
    hide UpperHex;
    assert Noughts(0) + UpperHex(n) == UpperHex(n);
  }

  /** A chunk with the header its sender chose. */
  datatype Piece = Piece(header: seq<byte>, data: seq<byte>)

  function PieceBytes(p: Piece): (s: seq<byte>)
  {
    p.header + CRLF + p.data + CRLF
  }

  function PiecesBytes(ps: seq<Piece>): (s: seq<byte>)
  {
    if ps == [] then [] else PieceBytes(ps[0]) + PiecesBytes(ps[1..])
  }

  function DataOf(ps: seq<Piece>): (s: seq<byte>)
  {
    if ps == [] then [] else ps[0].data + DataOf(ps[1..])
  }

  ghost predicate Wellformed(width: nat, p: Piece)
  {
    Spells(p.header, |p.data|) && |PieceBytes(p)| < width
  }

  /** A body: non-empty chunks and then an empty one. */
  ghost predicate IsBody(width: nat, ps: seq<Piece>)
  {
    width > 0 && ps != [] && (forall i | 0 <= i < |ps| :: Wellformed(width, ps[i]) && (ps[i].data == [] <==> i == |ps| - 1))
  }

  /** A chunk that fits in memory is read, however its size is written and whatever follows it. */
  lemma ParsePiece(width: nat, p: Piece, t: seq<byte>)
    requires Wellformed(width, p)
    ensures var h := |p.header|;
      && ParseChunkAt(width, PieceBytes(p) + t) == Chunk(h + 2, |p.data|)
      && |PieceBytes(p)| == h + 2 + |p.data| + 2
      && (PieceBytes(p) + t)[h + 2..h + 2 + |p.data|] == p.data
  {
    hide UpperHex, HexSpan, HexValue, Spells;
    SpellsValue(p.header, |p.data|);
    ChunkParts(p.header, p.data, t);
    HexSpanOf(p.header, CRLF + p.data + CRLF + t);
    SmallMod(|p.data|, width);
  }

  /** Where the parts of a chunk stand. */
  lemma ChunkParts(h: seq<byte>, data: seq<byte>, t: seq<byte>)
    ensures var s := h + CRLF + data + CRLF + t;
      && s == h + (CRLF + data + CRLF + t) && s[..|h|] == h && s[|h| + 2..|h| + 2 + |data|] == data
      && CrLfAt(s, |h|) && CrLfAt(s, |h| + 2 + |data|)
  {
    Slices.Middle(h + CRLF, data, CRLF + t);
    assert h + CRLF + data + CRLF + t == h + CRLF + data + (CRLF + t);
  }

  /** The sender's own chunk is read back. */
  lemma ParseChunkInverts(width: nat, data: seq<byte>, t: seq<byte>)
    requires |ChunkBytes(data)| < width
    ensures var h := |UpperHex(|data|)|;
      && ParseChunkAt(width, ChunkBytes(data) + t) == Chunk(h + 2, |data|)
      && |ChunkBytes(data)| == h + 2 + |data| + 2
      && (ChunkBytes(data) + t)[h + 2..h + 2 + |data|] == data
  {
    hide UpperHex, Spells, ParseChunkAt;
    UpperHexSpells(|data|);
    ParsePiece(width, Piece(UpperHex(|data|), data), t);
  }

  lemma DrainPiece(width: nat, p: Piece, t: seq<byte>)
    requires Wellformed(width, p)
    ensures Drain(ChunkDecoderAt(width), Reading, PieceBytes(p) + t)
         == (var r := Drain(ChunkDecoderAt(width), if p.data == [] then Finished else Reading, t); r.(out := p.data + r.out))
  {
    hide ParseChunkAt, PieceBytes, Spells;
    var w := PieceBytes(p);
    ParsePiece(width, p, t);
    assert ChunkDecoderAt(width)(Reading, w + t) == DecodeAt(width, Reading, w + t);
    assert (w + t)[|w|..] == t;
  }

  lemma {:induction false} DrainPieces(width: nat, ps: seq<Piece>, t: seq<byte>)
    requires IsBody(width, ps)
    ensures Drain(ChunkDecoderAt(width), Reading, PiecesBytes(ps) + t) == Run(Finished, t, DataOf(ps), false)
    decreases |ps|
  {
    hide PieceBytes, ParseChunkAt, Wellformed;
    var rest := ps[1..];
    assert PiecesBytes(ps) + t == PieceBytes(ps[0]) + (PiecesBytes(rest) + t);
    DrainPiece(width, ps[0], PiecesBytes(rest) + t);
    if rest == [] {
      assert ChunkDecoderAt(width)(Finished, [] + t) == Wait && [] + t == t;
    } else {
      DrainPieces(width, rest, t);
    }
  }

  /** Non-empty chunks that fit in memory, and room for the empty one. */
  ghost predicate Sendable(width: nat, chunks: seq<seq<byte>>)
  {
    |ChunkBytes([])| < width && forall i | 0 <= i < |chunks| :: chunks[i] != [] && |ChunkBytes(chunks[i])| < width
  }

  /** The chunks of the sender, the empty one behind them. */
  function AsPieces(chunks: seq<seq<byte>>): (ps: seq<Piece>)
    ensures |ps| == |chunks| + 1
  {
    if chunks == [] then [Piece(UpperHex(0), [])] else [Piece(UpperHex(|chunks[0]|), chunks[0])] + AsPieces(chunks[1..])
  }

  lemma {:induction false} AsPiecesAre(width: nat, chunks: seq<seq<byte>>)
    requires Sendable(width, chunks)
    ensures IsBody(width, AsPieces(chunks))
    ensures PiecesBytes(AsPieces(chunks)) == BodyBytes(chunks) && DataOf(AsPieces(chunks)) == Concat(chunks)
    decreases |chunks|
  {
    hide UpperHex, Spells;
    var ps := AsPieces(chunks);
    UpperHexSpells(|ps[0].data|);
    if chunks == [] {
      assert ps[1..] == [] && PieceBytes(ps[0]) + [] == PieceBytes(ps[0]);
    } else {
      AsPiecesAre(width, chunks[1..]);
      assert ps[1..] == AsPieces(chunks[1..]);
    }
  }

  lemma DrainBody(width: nat, chunks: seq<seq<byte>>, t: seq<byte>)
    requires Sendable(width, chunks)
    ensures Drain(ChunkDecoderAt(width), Reading, BodyBytes(chunks) + t) == Run(Finished, t, Concat(chunks), false)
  {
    hide Drain, ChunkDecoderAt, IsBody, Sendable, PiecesBytes, DataOf;
    AsPiecesAre(width, chunks);
    DrainPieces(width, AsPieces(chunks), t);
  }

  /** Whatever any sender put into chunks, with its sizes in capital or small letters and with or without
      leading zeros, cut anywhere by the network, is what is decoded; decoding stops behind the empty
      chunk. */
  lemma AnyBodyTheorem(width: nat, ps: seq<Piece>, after: seq<byte>, receives: seq<seq<byte>>)
    requires IsBody(width, ps) && Concat(receives) == PiecesBytes(ps) + after
    ensures ReceiveAll(ChunkDecoderAt(width), Run(Reading, [], [], false), receives)
         == Run(Finished, after, DataOf(ps), false)
  {
    hide DecodeAt, ChunkDecoderAt, Wellformed;
    BodyIgnoresSplits(width, receives);
    DrainPieces(width, ps, after);
  }

  /** In particular the body of the sender in the same file. */
  lemma BodyTheorem(width: nat, chunks: seq<seq<byte>>, after: seq<byte>, receives: seq<seq<byte>>)
    requires Sendable(width, chunks) && Concat(receives) == BodyBytes(chunks) + after
    ensures ReceiveAll(ChunkDecoderAt(width), Run(Reading, [], [], false), receives)
         == Run(Finished, after, Concat(chunks), false)
  {
    hide DecodeAt, ChunkDecoderAt;
    BodyIgnoresSplits(width, receives);
    DrainBody(width, chunks, after);
  }

  /** Once the body has ended, more bytes are only kept. */
  lemma {:induction false} FinishedStays(width: nat, r: Run<Ctl, byte>, receives: seq<seq<byte>>)
    requires width > 0 && r.ctl == Finished
    ensures var r' := ReceiveAll(ChunkDecoderAt(width), r, receives); r'.ctl == Finished && r'.out == r.out
    decreases |receives|
  {
    if receives != [] {
      assert ChunkDecoderAt(width)(Finished, r.rest + receives[0]) == Wait;
      FinishedStays(width, Receive(ChunkDecoderAt(width), r, receives[0]), receives[1..]);
    }
  }
}
