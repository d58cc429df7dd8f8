/**
  Literal inputs and outputs, most of them the examples of the standards: what the functions that
  specifications and code share make of bytes that can be read off.
 */
module Vectors {
  import opened Bytes
  import Streams
  import WebSocket
  import Chunked
  import Mqtt
  import Coap
  import Dns
  import Glob
  import PathNormalizer
  import Uri
  import Base64
  import Hashing
  import Sha1
  import Md5
  import ConfigStore
  import Slices

  // ----- WebSocket (RFC 6455, section 5.7) -----

  lemma HelloInClear()
    ensures WebSocket.FrameBytes(true, 1, None, Ascii("Hello")) == [0x81, 5] + Ascii("Hello")
    ensures WebSocket.ParseFrame([0x81, 5] + Ascii("Hello")) == WebSocket.Frame(0x81, Ascii("Hello"), 7)
  {
    var data := Ascii("Hello");
    assert WebSocket.FrameBytes(true, 1, None, data) == [0x81, 5] + data;
    WebSocket.ParseFrameInverts(true, 1, None, data, []);
    assert [0x81, 5] + data + [] == [0x81, 5] + data;
  }

  lemma HelloXored()
    ensures Xor(0x48, 0x37) == 0x7f && Xor(0x65, 0xfa) == 0x9f && Xor(0x6c, 0x21) == 0x4d
    ensures Xor(0x6c, 0x3d) == 0x51 && Xor(0x6f, 0x37) == 0x58
  {
    hide Xor;
    XorOf(0x48, 0x37, 0x7f);
    XorOf(0x65, 0xfa, 0x9f);
    XorOf(0x6c, 0x21, 0x4d);
    XorOf(0x6c, 0x3d, 0x51);
    XorOf(0x6f, 0x37, 0x58);
  }

  /** The bits of the sum without carries are those of the sum of the bits. */
  predicate BitwiseSum(a: byte, b: byte, r: byte)
  {
    && r % 2 == (a % 2 + b % 2) % 2 && r / 2 % 2 == (a / 2 % 2 + b / 2 % 2) % 2
    && r / 4 % 2 == (a / 4 % 2 + b / 4 % 2) % 2 && r / 8 % 2 == (a / 8 % 2 + b / 8 % 2) % 2
    && r / 16 % 2 == (a / 16 % 2 + b / 16 % 2) % 2 && r / 32 % 2 == (a / 32 % 2 + b / 32 % 2) % 2
    && r / 64 % 2 == (a / 64 % 2 + b / 64 % 2) % 2 && r / 128 % 2 == (a / 128 % 2 + b / 128 % 2) % 2
  }

  lemma XorOf(a: byte, b: byte, r: byte)
    requires BitwiseSum(a, b, r)
    ensures Xor(a, b) == r
  {
    hide Bit, Pow2, Xor;
    BitsAre(a);
    BitsAre(b);
    BitsAre(r);
    XorIs(a, b, r);
  }

  lemma HelloMasked()
    ensures var mask: seq<byte> := [0x37, 0xfa, 0x21, 0x3d];
      && WebSocket.FrameBytes(true, 1, Some(mask), Ascii("Hello")) == [0x81, 0x85] + mask + [0x7f, 0x9f, 0x4d, 0x51, 0x58]
      && WebSocket.ParseFrame([0x81, 0x85] + mask + [0x7f, 0x9f, 0x4d, 0x51, 0x58]) == WebSocket.Frame(0x81, Ascii("Hello"), 11)
  {
    hide Xor;
    var mask: seq<byte> := [0x37, 0xfa, 0x21, 0x3d];
    var data, coded := Ascii("Hello"), [0x7f, 0x9f, 0x4d, 0x51, 0x58];
    HelloXored();
    assert data == [0x48, 0x65, 0x6c, 0x6c, 0x6f];
    assert Masked(mask, data) == coded;
    hide Masked;
    var s := WebSocket.FrameBytes(true, 1, Some(mask), data);
    assert s == [0x81] + [0x85] + (mask + coded);
    assert s == [0x81, 0x85] + mask + coded && s + [] == s;
    WebSocket.ParseFrameInverts(true, 1, Some(mask), data, []);
  }

  /** The header of a binary frame by the length of its payload. */
  lemma LongHeaders(data: seq<byte>)
    ensures |data| == 256 ==> WebSocket.FrameBytes(true, 2, None, data) == [0x82, 126, 1, 0] + data
    ensures |data| == 65536 ==> WebSocket.FrameBytes(true, 2, None, data) == [0x82, 127, 0, 0, 0, 0, 0, 1, 0, 0] + data
  {
    assert Be32(65536) == [0, 1, 0, 0] && Be32(0) == [0, 0, 0, 0];
    assert Be64(65536) == [0, 0, 0, 0, 0, 1, 0, 0];
  }

  /** A text in two fragments: the first announces its kind, the last ends it. */
  lemma HelloInTwo()
    ensures Streams.Drain(WebSocket.FrameDecoder(false), WebSocket.Idle, [0x01, 3] + Ascii("Hel") + ([0x80, 2] + Ascii("lo")))
      == Streams.Run(WebSocket.Idle, [], [WebSocket.Message(0x80, Ascii("Hello"))], false)
  {
    var a, b := WebSocket.Fragment(None, Ascii("Hel")), WebSocket.Fragment(None, Ascii("lo"));
    var m := WebSocket.Outgoing(1, [a, b]);
    assert WebSocket.FrameBytes(false, 1, None, a.data) == [0x01, 3] + a.data;
    assert WebSocket.FrameBytes(true, 0, None, b.data) == [0x80, 2] + b.data;
    hide WebSocket.FrameBytes;
    assert m.fragments[1..] == [b] && [b][1..] == [];
    var s := [0x01, 3] + a.data + ([0x80, 2] + b.data);
    assert WebSocket.TailBytes([b]) == [0x80, 2] + b.data + [];
    assert WebSocket.MessageBytes(m) == s;
    assert Ascii("Hel") + Ascii("lo") == Ascii("Hello") && Ascii("lo") + [] == Ascii("lo");
    assert WebSocket.Joined([b]) == b.data;
    assert WebSocket.Joined(m.fragments) == Ascii("Hello");
    hide WebSocket.Joined, WebSocket.MessageBytes;
    WebSocket.DrainMessage(m, []);
    WebSocket.DrainNothing();
    assert s + [] == s;
  }

  // ----- chunks (RFC 7230, section 4.1) -----

  lemma TenBytes(data: seq<byte>)
    requires |data| == 10
    ensures Chunked.ParseChunkAt(0x1_0000_0000, Ascii("a\r\n") + data + Ascii("\r\n")) == Chunked.Chunk(3, 10)
    ensures Chunked.ParseChunkAt(0x1_0000_0000, Ascii("00A\r\n") + data + Ascii("\r\n")) == Chunked.Chunk(5, 10)
    ensures Chunked.ChunkBytes(data) == Ascii("A\r\n") + data + Ascii("\r\n")
  {
    hide Chunked.ParseChunkAt;
    assert Chunked.UpperHex(10) == [65];
    hide Chunked.UpperHex;
    assert Ascii("\r\n") == Chunked.CRLF && Ascii("a\r\n") == [97] + Chunked.CRLF;
    assert Ascii("00A\r\n") == [48, 48, 65] + Chunked.CRLF && Ascii("A\r\n") == [65] + Chunked.CRLF;
    hide Ascii;
    OneTen([97], 0, data);
    OneTen([48, 48, 65], 2, data);
  }

  lemma OneTen(h: seq<byte>, zeros: nat, data: seq<byte>)
    requires |data| == 10 && Chunked.UpperHex(10) == [65] && SameText(Chunked.Noughts(zeros) + [65], h) && |h| < 4
    ensures Chunked.ParseChunkAt(0x1_0000_0000, h + Chunked.CRLF + data + Chunked.CRLF) == Chunked.Chunk(|h| + 2, 10)
  {
    hide Chunked.ParseChunkAt, Chunked.UpperHex;
    var p := Chunked.Piece(h, data);
    Chunked.ParsePiece(0x1_0000_0000, p, []);
    assert Chunked.PieceBytes(p) + [] == Chunked.PieceBytes(p);
  }

  // ----- MQTT (MQTT 3.1.1, sections 2.2.3, 3.1, 3.3 and 3.8) -----

  /** A connection request with a will, as its bytes stand on the wire. */
  lemma WillIsSent()
    ensures var o := Mqtt.ConnectOptions(0, 60, Ascii("c"), Some(Ascii("t")), Some(Ascii("m")), None, None);
      && Mqtt.Connectable(o)
      && Mqtt.ConnectBody(o) == [0, 4] + Ascii("MQTT") + [4, 4, 0, 60] + ([0, 1] + Ascii("c")) + ([0, 1] + Ascii("t")) + ([0, 1] + Ascii("m"))
  {
    var o := Mqtt.ConnectOptions(0, 60, Ascii("c"), Some(Ascii("t")), Some(Ascii("m")), None, None);
    FourFlags(o);
    Field(Ascii("c"));
    Field(Ascii("t"));
    Field(Ascii("m"));
    var head := [0, 4] + Ascii("MQTT") + [4, 4, 0, 60];
    assert Ascii("MQTT") == Mqtt.PROTOCOL && Be16(60) == [0, 60];
    hide Mqtt.ConnectFlags, Ascii, Mqtt.FieldBytes, Be16;
    assert Mqtt.ConnectHead(o) == head;
    hide Mqtt.ConnectHead;
    assert head + ([0, 1] + o.clientId) + ([0, 1] + o.topic.value) + ([0, 1] + o.message.value) + [] + []
      == head + ([0, 1] + o.clientId) + ([0, 1] + o.topic.value) + ([0, 1] + o.message.value);
  }

  lemma FourFlags(o: Mqtt.ConnectOptions)
    requires o.flags == 0 && o.topic.Some? && o.message.Some? && o.userName.None? && o.password.None?
    ensures Mqtt.ConnectFlags(o) == 4
  {
  }

  lemma Field(text: seq<byte>)
    requires |text| == 1
    ensures Mqtt.FieldBytes(text) == [0, 1] + text
  {
  }

  lemma PublishedAndSubscribed()
    ensures Mqtt.PacketBytes(Mqtt.PUBLISH, 2, Mqtt.PublishBody(Ascii("a/b"), 10, 2, Ascii("hi")))
      == [0x32, 9, 0, 3] + Ascii("a/b") + [0, 10] + Ascii("hi")
    ensures Mqtt.PacketBytes(Mqtt.SUBSCRIBE, 2, Mqtt.SubscribeBody([Mqtt.Topic(Ascii("a"), 1)], 5))
      == [0x82, 6, 0, 5, 0, 1] + Ascii("a") + [1]
    ensures Mqtt.VarLength(321) == [0xC1, 2]
  {
    var body := Mqtt.PublishBody(Ascii("a/b"), 10, 2, Ascii("hi"));
    assert body == [0, 3] + Ascii("a/b") + [0, 10] + Ascii("hi");
    var topics := [Mqtt.Topic(Ascii("a"), 1)];
    assert topics[1..] == [];
    assert Mqtt.TopicsBytes(topics) == [0, 1] + Ascii("a") + [1];
  }

  lemma Answers()
    ensures Mqtt.ParseContent(2, 0, [0, 5]) == Some(Mqtt.Connack(5)) && Mqtt.ParseContent(4, 0, [0, 10]) == Some(Mqtt.Ack(Some(10)))
    ensures Mqtt.ParseContent(5, 0, [0, 10]) == Mqtt.ParseContent(6, 0, [0, 10]) == Mqtt.ParseContent(7, 0, [0, 10])
      == Mqtt.ParseContent(9, 0, [0, 10]) == Some(Mqtt.Ack(Some(10)))
    ensures Mqtt.ParseContent(12, 0, []) == Mqtt.ParseContent(13, 0, []) == Mqtt.ParseContent(14, 0, []) == Some(Mqtt.Unhandled)
  {
  }

  // ----- CoAP (RFC 7252, appendix A) -----

  lemma GetTemperature()
    ensures var m := Coap.Message(0, 0, 1, 0x7d34, [], [Coap.Opt(11, Ascii("temperature"))], []);
      && Coap.Refused(m) == None
      && Coap.ComposeBytes(m) == [0x40, 1, 0x7d, 0x34, 0xbb] + Ascii("temperature")
  {
    var value := Ascii("temperature");
    assert |value| == 11;
    hide Ascii;
    OneOption(value);
  }

  lemma OneOption(value: seq<byte>)
    requires |value| == 11
    ensures var m := Coap.Message(0, 0, 1, 0x7d34, [], [Coap.Opt(11, value)], []);
      Coap.Refused(m) == None && Coap.ComposeBytes(m) == [0x40, 1, 0x7d, 0x34, 0xbb] + value
  {
    var opts := [Coap.Opt(11, value)];
    var m := Coap.Message(0, 0, 1, 0x7d34, [], opts, []);
    assert opts[1..] == [];
    assert Coap.OptionsFit(0, opts) && Coap.OptionsBytes(0, opts) == [0xbb] + value;
    hide Coap.OptionsBytes, Coap.OptionsFit;
    assert Coap.HeaderBytes(m) == [0x40, 1, 0x7d, 0x34];
    assert [0x40, 1, 0x7d, 0x34] + [] + ([0xbb] + value) + [] == [0x40, 1, 0x7d, 0x34, 0xbb] + value;
  }

  /** Options of all sizes: the distance and the length with no, one and two more bytes. */
  lemma OptionHeads(value: seq<byte>)
    ensures |value| == 3 ==> Coap.OptionBytes(12, value) == [0xC3] + value
    ensures |value| == 3 ==> Coap.OptionBytes(13, value) == [0xD3, 0] + value
    ensures |value| == 3 ==> Coap.OptionBytes(268, value) == [0xD3, 255] + value && Coap.OptionBytes(269, value) == [0xE3, 0, 0] + value
    ensures |value| == 300 ==> Coap.OptionBytes(1000, value) == [0xEE, 2, 219, 0, 31] + value
  {
  }

  // ----- DNS (RFC 1035, section 4.1.4) -----

  /** A name of three labels: its dots are gone, and each label has its length in front. */
  lemma NamesOnTheWire(a: seq<byte>, b: seq<byte>, c: seq<byte>)
    requires '.' as byte !in a && '.' as byte !in b && '.' as byte !in c && |a| < 64 && |b| < 64 && |c| < 64
    ensures Dns.Split(a + ['.' as byte] + (b + ['.' as byte] + c)) == [a, b, c]
    ensures Dns.Wire([a, b, c]) == [|a|] + a + ([|b|] + b + ([|c|] + c))
  {
    hide Dns.Split, Dns.Wire;
    SplitAt(a, b + [46] + c);
    SplitAt(b, c);
    SplitOne(c);
    WireOne(c, []);
    WireOne(b, [c]);
    WireOne(a, [b, c]);
    assert [a] + [b, c] == [a, b, c] && [b] + [c] == [b, c] && [c] + [] == [c] && [|c|] + c + [] == [|c|] + c;
  }

  lemma WireOne(l: seq<byte>, rest: seq<seq<byte>>)
    requires |l| < 64
    ensures Dns.Wire([l] + rest) == [|l|] + l + Dns.Wire(rest) && Dns.Wire([]) == []
  {
    Dns.WireStep(l, rest);
  }

  lemma SplitAt(l: seq<byte>, rest: seq<byte>)
    requires 46 !in l
    ensures Dns.Split(l + [46] + rest) == [l] + Dns.Split(rest)
  {
    var name := l + [46] + rest;
    DotAt(l, rest);
    assert name[..|l|] == l && name[|l| + 1..] == rest;
  }

  lemma SplitOne(l: seq<byte>)
    requires 46 !in l
    ensures Dns.Split(l) == [l]
  {
  }

  lemma {:induction false} DotAt(l: seq<byte>, rest: seq<byte>)
    requires 46 !in l
    ensures Dns.FirstDot(l + [46] + rest) == |l|
  {
    var name := l + [46] + rest;
    if l == [] {
      assert name[0] == 46;
    } else {
      assert name[0] == l[0] && name[1..] == l[1..] + [46] + rest && l[0] in l;
      DotAt(l[1..], rest);
    }
  }

  // ----- URIs (RFC 3986, sections 3 and 5.2.4) -----

  /** All parts of a URI with their marks. */
  lemma AllParts(u: Uri.Parts)
    requires u.scheme != [] && u.userInfo != [] && u.port != 0 && u.query != [] && u.fragment != []
    ensures Uri.Assembled(u) == u.scheme + Ascii("://") + (u.userInfo + Ascii("@")) + (u.host + ((Ascii(":") + Uri.Digits(u.port))
      + (u.path + (Ascii("?") + u.query) + (Ascii("#") + u.fragment))))
  {
    hide Uri.Digits;
    assert Ascii("://") == Uri.AUTHORITY && Ascii("@") == [64] && Ascii(":") == [58] && Ascii("?") == [63] && Ascii("#") == [35];
  }

  /** An address in brackets is a host, whatever stands in it but a slash or a bracket. */
  lemma BracketedHost(inner: seq<byte>)
    requires ']' as byte !in inner && '/' as byte !in inner
    ensures Uri.HostOk(['[' as byte] + inner + [']' as byte])
  {
    var host := [91] + inner + [93];
    assert host[0] == 91 && host[|host| - 1] == 93 && host[..|host| - 1] == [91] + inner;
  }

  /** A port is read byte by byte, whatever the bytes; the sum wraps at 32 bits. */
  lemma PortOf()
    ensures Uri.Number([56]) == 8 && Uri.Number([56, 48]) == 80 && Uri.Number(['8' as byte, 'x' as byte]) == 80 + 72
    ensures Uri.Number(['/' as byte]) == 0xFFFF_FFFF
    ensures Uri.Number([200]) == if Uri.SIGNED_CHAR then 0x1_0000_0000 - 56 - 48 else 200 - 48
  {
    hide Uri.Number;
    Uri.NoNumber();
    Uri.NumberSnoc([], 200);
    assert [] + [200] == [200];
    Uri.NumberSnoc([], 56);
    Uri.NumberSnoc([], 47);
    assert [] + [56] == [56] && [] + [47] == [47];
    Uri.NumberSnoc([56], 48);
    Uri.NumberSnoc([56], 120);
    assert [56] + [48] == [56, 48] && [56] + [120] == [56, 120];
  }

  /** A dot segment goes, two dots take the segment before them with them. */
  lemma DotSegments()
    ensures PathNormalizer.Normalized(Ascii("/./a")) == Ascii("/a") && PathNormalizer.Normalized(Ascii("/b/../a")) == Ascii("/a")
  {
    assert Ascii("/./a") == [47, 46, 47, 97] && Ascii("/b/../a") == [47, 98, 47, 46, 46, 47, 97] && Ascii("/a") == [47, 97];
    hide Ascii;
    PlainSegment([]);
    OneDot();
    TwoDots();
  }

  lemma PlainSegment(out: seq<byte>)
    ensures PathNormalizer.RemoveDots([47, 97], out) == out + [47, 97]
  {
    var s: seq<byte> := [47, 97];
    assert s[1..] == [97] && PathNormalizer.SegmentEnd(s, 2) == 2;
    assert PathNormalizer.SegmentEnd(s, 1) == 2;
    assert s[..2] == s && s[2..] == [];
  }

  lemma OneDot()
    ensures PathNormalizer.RemoveDots([47, 46, 47, 97], []) == [47, 97]
  {
    var s: seq<byte> := [47, 46, 47, 97];
    assert s[1..] == [46, 47, 97] && s[3..] == [97] && [47] + [97] == [47, 97];
    PlainSegment([]);
  }

  lemma TwoDots()
    ensures PathNormalizer.RemoveDots([47, 98, 47, 46, 46, 47, 97], []) == [47, 97]
  {
    var s: seq<byte> := [47, 98, 47, 46, 46, 47, 97];
    assert s[1..][0] == 98 && PathNormalizer.SegmentEnd(s, 2) == 2;
    assert PathNormalizer.SegmentEnd(s, 1) == 2;
    var t: seq<byte> := [47, 46, 46, 47, 97];
    assert s[2..] == t && s[..2] == [47, 98] && [] + [47, 98] == [47, 98];
    assert t[1..] == [46, 46, 47, 97] && t[4..] == [97] && [47] + [97] == [47, 97];
    var o: seq<byte> := [47, 98];
    assert o[..1] == [47] && [47][..0] == [];
    assert PathNormalizer.RemoveLast([47]) == [];
    assert PathNormalizer.RemoveLast(o) == [];
    hide PathNormalizer.RemoveLast;
    PlainSegment([]);
  }

  // ----- base64 (RFC 4648, section 10) -----

  lemma Foo()
    ensures Base64.Encoded(Ascii("f")) == Ascii("Zg==") && Base64.Encoded(Ascii("fo")) == Ascii("Zm8=")
    ensures Base64.Encoded(Ascii("foo")) == Ascii("Zm9v")
  {
    hide Base64.Quad;
    assert Ascii("f") == [102] && Ascii("fo") == [102, 111] && Ascii("foo") == [102, 111, 111];
    assert Ascii("Zg==") == [90, 103, 61, 61] && Ascii("Zm8=") == [90, 109, 56, 61] && Ascii("Zm9v") == [90, 109, 57, 118];
    hide Ascii;
    OneOfThree();
    TwoOfThree();
    ThreeOfThree();
  }

  lemma OneOfThree()
    ensures Base64.Quad([102]) == [90, 103, 61, 61]
  {
  }

  lemma TwoOfThree()
    ensures Base64.Quad([102, 111]) == [90, 109, 56, 61]
  {
  }

  lemma ThreeOfThree()
    ensures Base64.Quad([102, 111, 111]) == [90, 109, 57, 118]
  {
  }

  // ----- hashing (RFC 1321, section 3.3; RFC 3174, sections 4 and 6.1; RFC 2104, section 2) -----

  lemma InitialMd5()
    ensures Md5.Digest(Md5.INIT) ==
      [0x01, 0x23, 0x45, 0x67] + [0x89, 0xab, 0xcd, 0xef] + [0xfe, 0xdc, 0xba, 0x98] + [0x76, 0x54, 0x32, 0x10]
  {
    assert Le32(0x67452301) == [0x01, 0x23, 0x45, 0x67] && Le32(0xefcdab89) == [0x89, 0xab, 0xcd, 0xef];
    assert Le32(0x98badcfe) == [0xfe, 0xdc, 0xba, 0x98] && Le32(0x10325476) == [0x76, 0x54, 0x32, 0x10];
    hide Le32;
  }

  lemma InitialSha1()
    ensures Sha1.Digest(Sha1.INIT) ==
      [0x67, 0x45, 0x23, 0x01] + [0xEF, 0xCD, 0xAB, 0x89] + [0x98, 0xBA, 0xDC, 0xFE] + [0x10, 0x32, 0x54, 0x76] + [0xC3, 0xD2, 0xE1, 0xF0]
  {
    assert Be32(0x67452301) == [0x67, 0x45, 0x23, 0x01] && Be32(0xEFCDAB89) == [0xEF, 0xCD, 0xAB, 0x89];
    assert Be32(0x98BADCFE) == [0x98, 0xBA, 0xDC, 0xFE] && Be32(0x10325476) == [0x10, 0x32, 0x54, 0x76];
    assert Be32(0xC3D2E1F0) == [0xC3, 0xD2, 0xE1, 0xF0];
    hide Be32;
  }

  lemma AbcPadded()
    ensures Hashing.Padded(Ascii("abc"), Be64(Hashing.BitLength(Ascii("abc")))) ==
      Ascii("abc") + [0x80] + Zeros(52) + [0, 0, 0, 0, 0, 0, 0, 24]
  {
    assert |Ascii("abc")| == 3;
    assert Be64(24) == [0, 0, 0, 0, 0, 0, 0, 24];
  }

  /** The two keyed blocks for a key of twenty bytes 0x0b. */
  lemma KeyedBlocks(f: Hashing.Compress<Sha1.State>, data: seq<byte>)
    ensures Sha1.HmacOf(f, seq(20, _ => 0x0b), data) ==
      Sha1.Hash(f, Filled(0x57, 0x5c) + Sha1.Hash(f, Filled(0x3d, 0x36) + data))
  {
    hide Sha1.Hash, Xor, Sha1.XorAll, Filled;
    var key: seq<byte> := seq(20, _ => 0x0b);
    assert Sha1.BlockKey(f, key) == key + Zeros(44);
    XorOf(0x0b, 0x5c, 0x57);
    XorOf(0x0b, 0x36, 0x3d);
    XorOf(0, 0x5c, 0x5c);
    XorOf(0, 0x36, 0x36);
    KeyBlock(key, 0x5c, 0x57);
    KeyBlock(key, 0x36, 0x3d);
  }

  function Filled(key: byte, pad: byte): (s: seq<byte>)
  {
    seq(20, _ => key) + seq(44, _ => pad)
  }

  lemma KeyBlock(key: seq<byte>, pad: byte, keyed: byte)
    requires key == seq(20, _ => 0x0b) && Xor(0x0b, pad) == keyed && Xor(0, pad) == pad
    ensures Sha1.XorAll(key + Zeros(44), pad) == Filled(keyed, pad)
  {
    hide Xor;
    var k := key + Zeros(44);
    forall i | 0 <= i < 64 ensures Sha1.XorAll(k, pad)[i] == Filled(keyed, pad)[i] {
    }
  }

  // ----- the configuration file -----

  lemma Entries(value: seq<byte>)
    ensures ConfigStore.Entry(Ascii("RATE"), value) == Ascii("RATE") + ([' ' as byte] + value + ['\n' as byte])
    ensures ConfigStore.Entry(Ascii("A_SSID"), value) == Ascii("A_SSID") + ([' ' as byte, '\"' as byte] + value + ['\"' as byte, '\n' as byte])
  {
    hide ConfigStore.Quotes, Ascii;
    QuotedNames();
  }

  lemma QuotedNames()
    ensures ConfigStore.Quotes(Ascii("A_SSID")) && !ConfigStore.Quotes(Ascii("RATE"))
  {
    var rate, ssid := Ascii("RATE"), Ascii("A_SSID");
    assert rate == [82, 65, 84, 69] && ssid == [65, 95, 83, 83, 73, 68];
    hide Ascii;
    assert ssid[2..] == ConfigStore.SSID;
    ConfigStore.ContainsIff(ssid, ConfigStore.SSID);
    assert rate[0] != ConfigStore.SSID[0] && !ConfigStore.Contains(rate[1..], ConfigStore.SSID);
  }

  // ----- patterns -----

  lemma EitherCase()
    ensures Glob.IsLongest(Ascii("/A"), Ascii("/a"), 0, 2)
  {
    var p, s := Ascii("/A"), Ascii("/a");
    assert p == [47, 65] && s == [47, 97] && p[1..] == [65] && [65][1..] == [];
    assert Glob.Matches([65], s, 1, 2);
    assert Glob.Matches(p, s, 0, 2);
    forall e: nat | Glob.Matches(p, s, 0, e) ensures e <= 2 {
      Glob.MatchEnds(p, s, 0, e);
    }
  }
}
