/**
  WebSocket framing: what the sender puts on the wire, what the receiver makes of the bytes it
  holds, and that the second undoes the first for every cut of the stream (RFC 6455, sections
  5.2 to 5.4).
 */
module WebSocket {
  import opened Bytes
  import opened Streams
  import Slices

  /** A call of the user's handler: the flags byte of the frame that completed it, and the payload. */
  datatype Message = Message(flags: byte, data: seq<byte>)

  /** Between messages, or inside a fragmented one whose payload so far is `data`; `marker` is the
      first byte of the receive buffer, which stands in front of the collected payload. */
  datatype Ctl = Idle | Open(marker: byte, data: seq<byte>)

  datatype Header = Incomplete | Header(len: nat, maskLen: nat, size: nat)

  predicate IsFragment(flags: byte)
  {
    flags < 128 || flags % 16 == 0
  }

  predicate IsFirstFragment(flags: byte)
  {
    flags < 128 && flags % 16 != 0
  }

  function ParseHeader(s: seq<byte>): (h: Header)
    ensures h.Header? ==> h.len in {2, 4, 6, 8, 10, 14} && |s| >= 2 && h.len >= 2 + h.maskLen
  {
    if |s| < 2 then Incomplete
    else
      var n := s[1] % 128;
      var maskLen := if s[1] >= 128 then 4 else 0;
      if n < 126 && |s| >= maskLen then Header(2 + maskLen, maskLen, n)
      else if n == 126 && |s| >= 4 + maskLen then Header(4 + maskLen, maskLen, U16(s[2..]))
      else if |s| >= 10 + maskLen then
        Header(10 + maskLen, maskLen, U64(s[2..]))
      else Incomplete
  }

  function Payload(h: Header, s: seq<byte>): (r: seq<byte>)
    requires h.Header? && h.len >= h.maskLen && h.len + h.size <= |s|
    ensures |r| == h.size
  {
    var raw := s[h.len..h.len + h.size];
    if h.maskLen == 4 then Masked(s[h.len - 4..h.len], raw) else raw
  }

  /** The frame at the front of `s`: too few bytes, a length that overflows 64 bits, or a whole frame. */
  datatype Frame = Partial | Overflow | Frame(flags: byte, data: seq<byte>, used: nat)

  function ParseFrame(s: seq<byte>): (f: Frame)
    ensures f.Frame? ==> 2 <= f.used <= |s|
  {
    var h := ParseHeader(s);
    if h.Incomplete? then Partial
    else if h.len + h.size >= TWO_64 then Overflow
    else if h.len + h.size > |s| then Partial
    else Frame(s[0], Payload(h, s), h.len + h.size)
  }

  /** What one frame does to the connection. */
  function Accept(noDefrag: bool, ctl: Ctl, f: Frame): (st: Step<Ctl, Message>)
  {
    match f
    case Partial => Wait
    case Overflow => Fail
    case Frame(flags, data, used) =>
      match ctl
      case Idle =>
        if !noDefrag && IsFirstFragment(flags) then Took(Open(flags - flags % 16, data), used, [])
        else Took(Idle, used, [Message(flags, data)])
      case Open(marker, collected) =>
        var all := if IsFirstFragment(flags) then data else collected + data;
        if flags >= 128 then Took(Idle, used, [Message(flags, all)])
        else Took(Open(if IsFirstFragment(flags) then marker - marker % 16 else marker, all), used, [])
  }

  /** A buffer that starts with a continuation frame while no message is open: its first byte is
      taken for the byte that stands in front of collected payload. */
  predicate IsStray(noDefrag: bool, ctl: Ctl, s: seq<byte>)
  {
    ctl.Idle? && !noDefrag && |s| > 0 && s[0] % 16 == 0
  }

  function Decode(noDefrag: bool, ctl: Ctl, s: seq<byte>): (st: Step<Ctl, Message>)
    ensures st.Took? ==> 0 < st.used <= |s|
  {
    if IsStray(noDefrag, ctl, s) then Took(Open(s[0], []), 1, [])
    else Accept(noDefrag, ctl, ParseFrame(s))
  }

  function FrameDecoder(noDefrag: bool): Streams.Decoder<Ctl, Message>
  {
    (ctl, s) => Decode(noDefrag, ctl, s)
  }

  lemma ParseHeaderStable(s: seq<byte>, t: seq<byte>)
    requires ParseHeader(s).Header?
    ensures ParseHeader(s + t) == ParseHeader(s)
  {
    assert (s + t)[2..] == s[2..] + t;
    if |s| >= 10 {
      U64Prefix(s[2..], t);
    }
  }

  lemma ParseFrameStable(s: seq<byte>, t: seq<byte>)
    requires ParseFrame(s) != Partial
    ensures ParseFrame(s + t) == ParseFrame(s)
  {
    ParseHeaderStable(s, t);
    var h := ParseHeader(s);
    if ParseFrame(s).Frame? {
      Slices.OfPrefix(s, t, h.len, h.len + h.size);
      Slices.OfPrefix(s, t, h.len - h.maskLen, h.len);
    }
  }

  /** Every frame accepted takes bytes off the buffer, so the delivery loop ends; and bytes that
      arrive later never change what the buffered ones meant. */
  lemma DecoderIsStream(noDefrag: bool)
    ensures Progress(FrameDecoder(noDefrag)) && Stable(FrameDecoder(noDefrag))
  {
    forall c, s, t | FrameDecoder(noDefrag)(c, s) != Wait
      ensures FrameDecoder(noDefrag)(c, s + t) == FrameDecoder(noDefrag)(c, s)
    {
      if !IsStray(noDefrag, c, s) {
        ParseFrameStable(s, t);
      }
    }
  }

  /** For every byte stream, well-formed or not, the messages delivered, the bytes held and the
      verdict depend on the bytes alone. */
  lemma DeliveryIgnoresSplits(noDefrag: bool, chunks: seq<seq<byte>>)
    ensures ReceiveAll(FrameDecoder(noDefrag), Run(Idle, [], [], false), chunks)
         == Drain(FrameDecoder(noDefrag), Idle, Concat(chunks))
  {
    DecoderIsStream(noDefrag);
    SplitIndependence(FrameDecoder(noDefrag), Idle, [], chunks);
    assert [] + Concat(chunks) == Concat(chunks);
  }

  // ----- the sender -----

  /** The length field; lengths of exactly 65535 already use the long form. */
  function LengthBytes(n: nat, masked: bool): (s: seq<byte>)
    requires n < TWO_64
    ensures |s| in {1, 3, 9}
  {
    var bit := if masked then 128 else 0;
    if n < 126 then [bit + n]
    else if n < 65535 then [bit + 126] + Be16(n)
    else [bit + 127] + Be64(n)
  }

  function Body(mask: Option<seq<byte>>, data: seq<byte>): (s: seq<byte>)
    requires mask.Some? ==> |mask.value| == 4
    ensures |s| == |data| + if mask.Some? then 4 else 0
  {
    if mask.Some? then mask.value + Masked(mask.value, data) else data
  }

  function FrameBytes(fin: bool, op: nat, mask: Option<seq<byte>>, data: seq<byte>): (s: seq<byte>)
    requires |data| < TWO_64 && (mask.Some? ==> |mask.value| == 4)
  {
    [(if fin then 128 else 0) + op % 16] + LengthBytes(|data|, mask.Some?) + Body(mask, data)
  }

  lemma LengthBit(masked: bool, n: nat)
    requires n < 128
    ensures var b := (if masked then 128 else 0) + n; b < 256 && b % 128 == n && (b >= 128) == masked
  {
  }

  /** The header a length field announces, whatever stands behind it. */
  lemma ParseHeaderOf(flags: byte, b: byte, n: nat, masked: bool, ext: seq<byte>, t: seq<byte>)
    requires b % 128 == n && (b >= 128) == masked && (masked ==> |t| >= 4)
    requires |ext| == if n < 126 then 0 else if n == 126 then 2 else 8
    ensures ParseHeader([flags, b] + ext + t) == Header(2 + |ext| + (if masked then 4 else 0), if masked then 4 else 0,
                                                       if n < 126 then n else if n == 126 then U16(ext + t) else U64(ext + t))
  {
    var s := [flags, b] + ext + t;
    assert s[2..] == ext + t;
  }

  lemma ParseHeaderInverts(flags: byte, n: nat, masked: bool, t: seq<byte>)
    requires n < TWO_64 && (masked ==> |t| >= 4)
    ensures ParseHeader([flags] + LengthBytes(n, masked) + t)
         == Header(1 + |LengthBytes(n, masked)| + (if masked then 4 else 0), if masked then 4 else 0, n)
  {
    var bit, lb := if masked then 128 else 0, LengthBytes(n, masked);
    var m := if n < 126 then n else if n < 65535 then 126 else 127;
    var ext := if n < 126 then [] else if n < 65535 then Be16(n) else Be64(n);
    LengthBit(masked, m);
    ParseHeaderOf(flags, bit + m, m, masked, ext, t);
    assert [flags] + lb + t == [flags, bit + m] + ext + t;
    if 126 <= n < 65535 {
      U16Inverts(n, t);
    } else if n >= 65535 {
      U64Inverts(n, t);
    }
  }

  lemma PayloadInverts(front: seq<byte>, mask: Option<seq<byte>>, data: seq<byte>, t: seq<byte>, h: Header)
    requires mask.Some? ==> |mask.value| == 4
    requires h == Header(|front| + (if mask.Some? then 4 else 0), if mask.Some? then 4 else 0, |data|)
    ensures Payload(h, front + Body(mask, data) + t) == data
  {
    var s := front + Body(mask, data) + t;
    if mask.Some? {
      var m := Masked(mask.value, data);
      assert s == front + mask.value + (m + t);
      Slices.Middle(front, mask.value, m + t);
      assert s == (front + mask.value) + m + t;
      Slices.Middle(front + mask.value, m, t);
      MaskedInvolution(mask.value, data);
    } else {
      Slices.Middle(front, data, t);
    }
  }

  lemma ParseFrameInverts(fin: bool, op: nat, mask: Option<seq<byte>>, data: seq<byte>, t: seq<byte>)
    requires |data| < TWO_64 - 14 && (mask.Some? ==> |mask.value| == 4)
    ensures ParseFrame(FrameBytes(fin, op, mask, data) + t)
         == Frame((if fin then 128 else 0) + op % 16, data, |FrameBytes(fin, op, mask, data)|)
  {
    hide LengthBytes, Body, ParseHeader, Payload;
    var flags: byte := (if fin then 128 else 0) + op % 16;
    var lb := LengthBytes(|data|, mask.Some?);
    var s := FrameBytes(fin, op, mask, data) + t;
    assert s == [flags] + lb + (Body(mask, data) + t);
    ParseHeaderInverts(flags, |data|, mask.Some?, Body(mask, data) + t);
    PayloadInverts([flags] + lb, mask, data, t, ParseHeader(s));
  }

  // ----- whole messages -----

  datatype Fragment = Fragment(mask: Option<seq<byte>>, data: seq<byte>)

  /** A message of one frame, or a first fragment, continuations and a final continuation. */
  datatype Outgoing = Outgoing(op: nat, fragments: seq<Fragment>)

  ghost predicate Sendable(f: Fragment)
  {
    |f.data| < TWO_64 - 14 && (f.mask.Some? ==> |f.mask.value| == 4)
  }

  ghost predicate AllSendable(fs: seq<Fragment>)
  {
    forall i | 0 <= i < |fs| :: Sendable(fs[i])
  }

  ghost predicate SendableMessage(m: Outgoing)
  {
    m.op % 16 != 0 && |m.fragments| > 0 && AllSendable(m.fragments)
  }

  /** The frames behind the first one. */
  ghost function TailBytes(fs: seq<Fragment>): (s: seq<byte>)
    requires AllSendable(fs)
  {
    if fs == [] then [] else FrameBytes(|fs| == 1, 0, fs[0].mask, fs[0].data) + TailBytes(fs[1..])
  }

  ghost function MessageBytes(m: Outgoing): (s: seq<byte>)
    requires SendableMessage(m)
  {
    var f := m.fragments[0];
    FrameBytes(|m.fragments| == 1, m.op, f.mask, f.data) + TailBytes(m.fragments[1..])
  }

  ghost function StreamBytes(ms: seq<Outgoing>): (s: seq<byte>)
    requires forall i | 0 <= i < |ms| :: SendableMessage(ms[i])
  {
    if ms == [] then [] else MessageBytes(ms[0]) + StreamBytes(ms[1..])
  }

  function Joined(fs: seq<Fragment>): (s: seq<byte>)
  {
    if fs == [] then [] else fs[0].data + Joined(fs[1..])
  }

  /** What the handler is to see of a message: its whole payload, once.  A message sent in one
      frame keeps its opcode; a reassembled one shows the flags of its final continuation. */
  function Delivered(m: Outgoing): (r: Message)
  {
    Message(if |m.fragments| == 1 then 128 + m.op % 16 else 128, Joined(m.fragments))
  }

  function DeliveredAll(ms: seq<Outgoing>): (r: seq<Message>)
  {
    seq(|ms|, i requires 0 <= i < |ms| => Delivered(ms[i]))
  }

  lemma DecodeFrame(noDefrag: bool, ctl: Ctl, fin: bool, op: nat, f: Fragment, t: seq<byte>)
    requires Sendable(f) && (ctl.Open? || noDefrag || op % 16 != 0)
    ensures var w := FrameBytes(fin, op, f.mask, f.data);
            Decode(noDefrag, ctl, w + t) == Accept(noDefrag, ctl, Frame((if fin then 128 else 0) + op % 16, f.data, |w|))
  {
    hide ParseFrame, Accept, LengthBytes, Body;
    ParseFrameInverts(fin, op, f.mask, f.data, t);
    var w := FrameBytes(fin, op, f.mask, f.data);
    assert (w + t)[0] == (if fin then 128 else 0) + op % 16;
  }

  /** The rest of the receive loop once a step was taken. */
  function After(st: Step<Ctl, Message>, t: seq<byte>): (r: Run<Ctl, Message>)
    requires st.Took?
  {
    var r := Drain(FrameDecoder(false), st.ctl, t);
    r.(out := st.out + r.out)
  }

  lemma DrainTook(ctl: Ctl, w: seq<byte>, t: seq<byte>, st: Step<Ctl, Message>)
    requires Decode(false, ctl, w + t) == st && st.Took? && st.used == |w| > 0
    ensures Drain(FrameDecoder(false), ctl, w + t) == After(st, t)
  {
    assert (w + t)[|w|..] == t;
  }

  lemma DrainFrame(ctl: Ctl, fin: bool, op: nat, f: Fragment, t: seq<byte>, st: Step<Ctl, Message>)
    requires Sendable(f) && (ctl.Open? || op % 16 != 0)
    requires st == Accept(false, ctl,
      Frame((if fin then 128 else 0) + op % 16, f.data, |FrameBytes(fin, op, f.mask, f.data)|))
    ensures Drain(FrameDecoder(false), ctl, FrameBytes(fin, op, f.mask, f.data) + t) == After(st, t)
  {
    DecodeFrame(false, ctl, fin, op, f, t);
    DrainTook(ctl, FrameBytes(fin, op, f.mask, f.data), t, st);
  }

  lemma {:induction false} DrainTail(collected: seq<byte>, fs: seq<Fragment>, t: seq<byte>)
    requires |fs| > 0 && AllSendable(fs)
    ensures Drain(FrameDecoder(false), Open(0, collected), TailBytes(fs) + t)
         == After(Took(Idle, 1, [Message(128, collected + Joined(fs))]), t)
    decreases |fs|
  {
    var f, rest := fs[0], TailBytes(fs[1..]) + t;
    var w := FrameBytes(|fs| == 1, 0, f.mask, f.data);
    assert TailBytes(fs) + t == w + rest;
    assert collected + Joined(fs) == (collected + f.data) + Joined(fs[1..]);
    if |fs| == 1 {
      assert rest == t;
      assert collected + Joined(fs) == collected + f.data;
      DrainFrame(Open(0, collected), true, 0, f, t, Took(Idle, |w|, [Message(128, collected + f.data)]));
    } else {
      DrainFrame(Open(0, collected), false, 0, f, rest, Took(Open(0, collected + f.data), |w|, []));
      DrainTail(collected + f.data, fs[1..], t);
    }
  }

  lemma DrainMessage(m: Outgoing, t: seq<byte>)
    requires SendableMessage(m)
    ensures Drain(FrameDecoder(false), Idle, MessageBytes(m) + t) == After(Took(Idle, 1, [Delivered(m)]), t)
  {
    var f, tail := m.fragments[0], m.fragments[1..];
    var w := FrameBytes(|m.fragments| == 1, m.op, f.mask, f.data);
    assert MessageBytes(m) + t == w + (TailBytes(tail) + t);
    if |m.fragments| == 1 {
      assert TailBytes(tail) + t == t;
      assert Joined(m.fragments) == f.data;
      DrainFrame(Idle, true, m.op, f, t, Took(Idle, |w|, [Delivered(m)]));
    } else {
      DrainFrame(Idle, false, m.op, f, TailBytes(tail) + t, Took(Open(0, f.data), |w|, []));
      DrainTail(f.data, tail, t);
    }
  }

  lemma DrainNothing()
    ensures Drain(FrameDecoder(false), Idle, []) == Run(Idle, [], [], false)
  {
  }

  lemma {:induction false} DrainStream(ms: seq<Outgoing>)
    requires forall i | 0 <= i < |ms| :: SendableMessage(ms[i])
    ensures Drain(FrameDecoder(false), Idle, StreamBytes(ms)) == Run(Idle, [], DeliveredAll(ms), false)
    decreases |ms|
  {
    if ms == [] {
      DrainNothing();
    } else {
      hide Drain, FrameDecoder, MessageBytes, Delivered, SendableMessage;
      DrainMessage(ms[0], StreamBytes(ms[1..]));
      DrainStream(ms[1..]);
    }
  }

  /** The stream theorem: any messages, fragmented and masked in any way, cut into receives
      anywhere, are delivered exactly once each, whole and in order, and nothing is left over. */
  lemma StreamTheorem(ms: seq<Outgoing>, chunks: seq<seq<byte>>)
    requires forall i | 0 <= i < |ms| :: SendableMessage(ms[i])
    requires Concat(chunks) == StreamBytes(ms)
    ensures ReceiveAll(FrameDecoder(false), Run(Idle, [], [], false), chunks)
         == Run(Idle, [], DeliveredAll(ms), false)
  {
    DeliveryIgnoresSplits(false, chunks);
    DrainStream(ms);
  }
}
