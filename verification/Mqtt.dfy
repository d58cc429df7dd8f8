/**
  MQTT packets: the sender's encodings, the receiver's parser over everything buffered, and that
  packets come out of the stream as they went in, however it was cut (MQTT 3.1.1, sections 2.2.3,
  3.1, 3.3 and 3.8).
 */
module Mqtt {
  import opened Bytes
  import opened Streams
  import Slices

  const CONNECT := 1
  const CONNACK := 2
  const PUBLISH := 3
  const PUBACK := 4
  const PUBREC := 5
  const PUBREL := 6
  const PUBCOMP := 7
  const SUBSCRIBE := 8
  const SUBACK := 9

  /** What the handler can rely on, by packet type. */
  datatype Content =
    | Connect(protocol: seq<byte>, version: byte, flags: byte, keepAlive: nat, clientId: seq<byte>,
              willTopic: Option<seq<byte>>, willMessage: Option<seq<byte>>,
              userName: Option<seq<byte>>, password: Option<seq<byte>>)
    | Connack(code: byte)
      // no identifier if the packet has no room for one
    | Ack(id: Option<nat>)
    | Publish(topic: seq<byte>, id: Option<nat>, payload: seq<byte>)
    | Subscribe(requestId: nat, topics: seq<byte>)
    | Unhandled

  datatype Packet = Packet(cmd: nat, qos: nat, content: Content)

  function Qos(flags: nat): (q: nat)
    ensures q < 4
  {
    flags / 2 % 4
  }

  predicate HasWill(flags: byte) { flags / 4 % 2 == 1 }
  predicate HasPassword(flags: byte) { flags / 64 % 2 == 1 }
  predicate HasUserName(flags: byte) { flags / 128 % 2 == 1 }

  // ----- the parser -----

  datatype Length = Short | TooLong | Length(value: nat, size: nat)

  /** The variable-length number in `t`, of which `k` bytes were read already; a 32-bit sum. */
  function ReadLength(t: seq<byte>, k: nat, acc: nat): (r: Length)
    requires k <= 4
    ensures r.Length? ==> k < r.size <= k + |t|
    decreases |t|
  {
    if t == [] then Short
    else
      var acc' := (acc + t[0] % 128 * Pow2(7 * k)) % 0x1_0000_0000;
      if t[0] < 128 then Length(acc', k + 1)
      else if k + 1 > 4 then TooLong
      else ReadLength(t[1..], k + 1, acc')
  }

  /** A counted string at `p`, and where it ends. */
  datatype Field = Overrun | Field(text: seq<byte>, next: nat)

  function ReadField(b: seq<byte>, p: nat): (f: Field)
    ensures f.Field? ==> p + 2 <= f.next <= |b|
  {
    if p + 2 > |b| || p + 2 + U16(b[p..]) > |b| then Overrun
    else Field(b[p + 2..p + 2 + U16(b[p..])], p + 2 + U16(b[p..]))
  }

  /** A field that is there only if announced. */
  datatype Maybe = Bad | Maybe(text: Option<seq<byte>>, next: nat)

  function ReadMaybe(b: seq<byte>, p: nat, present: bool): (f: Maybe)
  {
    if !present then Maybe(None, p)
    else
      match ReadField(b, p)
      case Overrun => Bad
      case Field(text, next) => Maybe(Some(text), next)
  }

  function ParseConnect(b: seq<byte>): (r: Option<Content>)
  {
    var name := ReadField(b, 0);
    if name.Overrun? || name.next > |b| - 4 then None
    else
      var p := name.next;
      var flags := b[p + 1];
      var client := ReadField(b, p + 4);
      if client.Overrun? then None
      else
        var topic := ReadMaybe(b, client.next, HasWill(flags));
        if topic.Bad? then None
        else
          var message := ReadMaybe(b, topic.next, HasWill(flags));
          if message.Bad? then None
          else
            var user := ReadMaybe(b, message.next, HasUserName(flags));
            if user.Bad? then None
            else
              var pass := ReadMaybe(b, user.next, HasPassword(flags));
              if pass.Bad? || pass.next != |b| then None
              else Some(Connect(name.text, b[p], flags, U16(b[p + 2..]), client.text,
                                topic.text, message.text, user.text, pass.text))
  }

  function ParsePublish(qos: nat, b: seq<byte>): (r: Option<Content>)
  {
    var topic := ReadField(b, 0);
    if topic.Overrun? then None
    else if qos == 0 then Some(Publish(topic.text, None, b[topic.next..]))
    else if |b| - topic.next < 2 then None
    else Some(Publish(topic.text, Some(U16(b[topic.next..])), b[topic.next + 2..]))
  }

  predicate IsAck(cmd: nat)
  {
    cmd in {PUBACK, PUBREC, PUBREL, PUBCOMP, SUBACK}
  }

  /** The content of a packet whose bytes behind the length are `b`, or nothing for a protocol error. */
  function ParseContent(cmd: nat, qos: nat, b: seq<byte>): (r: Option<Content>)
  {
    if cmd == CONNECT then ParseConnect(b)
    else if cmd == CONNACK then (if |b| < 2 then None else Some(Connack(b[1])))
    else if IsAck(cmd) then
      Some(Ack(if |b| < 2 then None else Some(U16(b))))
    else if cmd == PUBLISH then ParsePublish(qos, b)
    else if cmd == SUBSCRIBE then (if |b| < 2 then None else Some(Subscribe(U16(b), b[2..])))
    else Some(Unhandled)
  }

  /** The connection has no state besides its buffer. */
  datatype Ctl = Ready

  function Decode(ctl: Ctl, s: seq<byte>): (st: Step<Ctl, Packet>)
    ensures st.Took? ==> 0 < st.used <= |s|
  {
    if |s| < 2 then Wait
    else
      match ReadLength(s[1..], 0, 0)
      case Short => Wait
      case TooLong => Fail
      case Length(n, size) =>
        if 1 + size + n > |s| then Wait
        else
          var cmd, qos := s[0] / 16, Qos(s[0]);
          match ParseContent(cmd, qos, s[1 + size..1 + size + n])
          case None => Fail
          case Some(c) => Took(Ready, 1 + size + n, [Packet(cmd, qos, c)])
  }

  function PacketDecoder(): Streams.Decoder<Ctl, Packet>
  {
    (ctl, s) => Decode(ctl, s)
  }

  lemma {:induction false} ReadLengthStable(t: seq<byte>, u: seq<byte>, k: nat, acc: nat)
    requires k <= 4 && ReadLength(t, k, acc) != Short
    ensures ReadLength(t + u, k, acc) == ReadLength(t, k, acc)
    decreases |t|
  {
    hide Pow2;
    if t[0] >= 128 && k < 4 {
      assert (t + u)[1..] == t[1..] + u;
      ReadLengthStable(t[1..], u, k + 1, (acc + t[0] % 128 * Pow2(7 * k)) % 0x1_0000_0000);
    }
  }

  lemma DecodeStable(ctl: Ctl, s: seq<byte>, t: seq<byte>)
    requires Decode(ctl, s) != Wait
    ensures Decode(ctl, s + t) == Decode(ctl, s)
  {
    hide ParseContent, ReadLength;
    assert (s + t)[1..] == s[1..] + t;
    ReadLengthStable(s[1..], t, 0, 0);
    var n := ReadLength(s[1..], 0, 0);
    if n.Length? {
      Slices.OfPrefix(s, t, 1 + n.size, 1 + n.size + n.value);
    }
  }

  lemma DecoderIsStream()
    ensures Progress(PacketDecoder()) && Stable(PacketDecoder())
  {
    hide Decode;
    forall c, s, t | PacketDecoder()(c, s) != Wait
      ensures PacketDecoder()(c, s + t) == PacketDecoder()(c, s)
    {
      assert PacketDecoder()(c, s) == Decode(c, s);
      DecodeStable(c, s, t);
    }
  }

  /** What a stream means does not depend on how it was cut. */
  lemma MeaningIgnoresSplits(chunks: seq<seq<byte>>)
    ensures ReceiveAll(PacketDecoder(), Run(Ready, [], [], false), chunks)
         == Drain(PacketDecoder(), Ready, Concat(chunks))
  {
    hide Decode;
    DecoderIsStream();
    SplitIndependence(PacketDecoder(), Ready, [], chunks);
    assert PacketDecoder()(Ready, []) == Decode(Ready, []) == Wait by { NothingYet(); }
    assert [] + Concat(chunks) == Concat(chunks);
  }

  lemma NothingYet()
    ensures Decode(Ready, []) == Wait
  {
  }

  // ----- what the handler sees -----

  /** The two bytes in memory behind the buffered ones. */
  type Behind = (byte, byte)

  /** How many packets were handled before. */
  datatype Turn = Turn(k: nat)

  /** What stands there at each turn, with these bytes buffered. */
  type Memory = (Turn, seq<byte>) -> Behind

  function Constant(after: Behind): Memory
  {
    (_, _) => after
  }

  /** The two bytes behind the length, read whether or not they belong to the packet or were received
      at all. */
  function IdAt(s: seq<byte>, after: Behind): (id: nat)
  {
    var n := if s == [] then Short else ReadLength(s[1..], 0, 0);
    if n.Length? then U16((s + [after.0, after.1])[1 + n.size..]) else 0
  }

  function SeenContent(c: Content, id: nat): (r: Content)
  {
    if c == Ack(None) then Ack(Some(id)) else c
  }

  function Seen(p: Packet, id: nat): (r: Packet)
  {
    p.(content := SeenContent(p.content, id))
  }

  /** The parser as it runs: an acknowledgement always has an identifier. */
  function DecodeAt(at: Turn, s: seq<byte>, after: Behind): (st: Step<Turn, Packet>)
    ensures st.Took? ==> 0 < st.used <= |s|
  {
    match Decode(Ready, s)
    case Wait => Wait
    case Fail => Fail
    case Took(_, used, out) => Took(Turn(at.k + |out|), used, seq(|out|, i requires 0 <= i < |out| => Seen(out[i], IdAt(s, after))))
  }

  function PacketDecoderAt(mem: Memory): Streams.Decoder<Turn, Packet>
  {
    (at, s) => DecodeAt(at, s, mem(at, s))
  }

  /** Every acknowledgement has room for its identifier. */
  ghost predicate Whole(ps: seq<Packet>)
  {
    forall i | 0 <= i < |ps| :: ps[i].content != Ack(None)
  }

  ghost predicate Fits(p: Packet, meant: Packet)
  {
    p == meant || (meant.content == Ack(None) && p.content.Ack? && p.(content := Ack(None)) == meant)
  }

  /** The packets are those meant, up to identifiers of acknowledgements too short to have one. */
  ghost predicate Fit(ps: seq<Packet>, meant: seq<Packet>)
  {
    |ps| == |meant| && forall i | 0 <= i < |ps| :: Fits(ps[i], meant[i])
  }

  lemma FitWhole(ps: seq<Packet>, meant: seq<Packet>)
    requires Fit(ps, meant) && Whole(meant)
    ensures ps == meant
  {
    forall i | 0 <= i < |ps| ensures ps[i] == meant[i] {
      assert Fits(ps[i], meant[i]);
    }
  }

  lemma FitConcat(a: seq<Packet>, a': seq<Packet>, b: seq<Packet>, b': seq<Packet>)
    requires Fit(a, a') && Fit(b, b')
    ensures Fit(a + b, a' + b')
  {
    hide Fits;
  }

  lemma {:induction false} DrainFits(mem: Memory, at: Turn, s: seq<byte>)
    ensures var r, m := Drain(PacketDecoderAt(mem), at, s), Drain(PacketDecoder(), Ready, s);
            r.ctl == Turn(at.k + |m.out|) && r.rest == m.rest && r.failed == m.failed && Fit(r.out, m.out)
    decreases |s|
  {
    hide Decode, Fits, IdAt;
    var st := Decode(Ready, s);
    assert PacketDecoder()(Ready, s) == st && PacketDecoderAt(mem)(at, s) == DecodeAt(at, s, mem(at, s));
    if st.Took? {
      assert st.ctl == Ready;
      var out, at', rest := DecodeAt(at, s, mem(at, s)).out, Turn(at.k + |st.out|), s[st.used..];
      SeenFits(st.out, IdAt(s, mem(at, s)));
      DrainFits(mem, at', rest);
      FitConcat(out, st.out, Drain(PacketDecoderAt(mem), at', rest).out, Drain(PacketDecoder(), Ready, rest).out);
    }
  }

  lemma SeenFits(out: seq<Packet>, id: nat)
    ensures Fit(seq(|out|, i requires 0 <= i < |out| => Seen(out[i], id)), out)
  {
  }

  lemma {:induction false} ReceiveAllFits(mem: Memory, r: Run<Turn, Packet>, m: Run<Ctl, Packet>, chunks: seq<seq<byte>>)
    requires r.ctl == Turn(|r.out|) && r.rest == m.rest && r.failed == m.failed && Fit(r.out, m.out)
    ensures var r', m' := ReceiveAll(PacketDecoderAt(mem), r, chunks), ReceiveAll(PacketDecoder(), m, chunks);
            r'.ctl == Turn(|r'.out|) && r'.rest == m'.rest && r'.failed == m'.failed && Fit(r'.out, m'.out)
    decreases |chunks|
  {
    hide Decode, Fits, PacketDecoder, PacketDecoderAt, Drain;
    if chunks != [] {
      var s := r.rest + chunks[0];
      assert m.ctl == Ready;
      DrainFits(mem, r.ctl, s);
      FitConcat(r.out, m.out, Drain(PacketDecoderAt(mem), r.ctl, s).out, Drain(PacketDecoder(), Ready, s).out);
      ReceiveAllFits(mem, Receive(PacketDecoderAt(mem), r, chunks[0]), Receive(PacketDecoder(), m, chunks[0]), chunks[1..]);
    }
  }

  /** What is handled of a stream cut into `chunks`, and what stands behind the buffer is `mem`. */
  function HandledOf(mem: Memory, chunks: seq<seq<byte>>): (r: Run<Turn, Packet>)
  {
    ReceiveAll(PacketDecoderAt(mem), Run(Turn(0), [], [], false), chunks)
  }

  /** What a stream means. */
  function Meaning(s: seq<byte>): (r: Run<Ctl, Packet>)
  {
    Drain(PacketDecoder(), Ready, s)
  }

  /** For every byte stream, every cut and whatever stands behind the buffer, the bytes left and the
      verdict depend on the stream alone, and so do the packets, but for the identifiers of
      acknowledgements without room for one. */
  lemma PacketsIgnoreSplits(mem: Memory, chunks: seq<seq<byte>>)
    ensures var r, m := HandledOf(mem, chunks), Meaning(Concat(chunks));
            && r.ctl == Turn(|r.out|) && r.rest == m.rest && r.failed == m.failed && Fit(r.out, m.out)
            && (Whole(m.out) ==> r.out == m.out)
  {
    hide Fits, PacketDecoder, PacketDecoderAt, Drain, ReceiveAll;
    MeaningIgnoresSplits(chunks);
    ReceiveAllFits(mem, Run(Turn(0), [], [], false), Run(Ready, [], [], false), chunks);
    var r, m := HandledOf(mem, chunks), Meaning(Concat(chunks));
    if Whole(m.out) {
      FitWhole(r.out, m.out);
    }
  }

  /** A short acknowledgement in a stream shows when the stream is cut behind it. */
  lemma {:induction false} ShortAckShows(s: seq<byte>, at: Turn) returns (e: nat)
    requires !Whole(Meaning(s).out)
    ensures e <= |s|
    ensures var a, b := Drain(PacketDecoderAt(Constant((0, 0))), at, s[..e]), Drain(PacketDecoderAt(Constant((1, 1))), at, s[..e]);
            |a.out| == |b.out| && a.out != b.out
    decreases |s|
  {
    hide Decode, IdAt, Fits, Drain, PacketDecoderAt;
    var st := Decode(Ready, s);
    MeaningStep(s);
    assert st.Took? ==> st.ctl == Ready;
    DecodeOne(s);
    var n, p, next := st.used, s[..st.used], Turn(at.k + 1);
    var rest := s[n..];
    var zeros, ones := PacketDecoderAt(Constant((0, 0))), PacketDecoderAt(Constant((1, 1)));
    assert st.out == [st.out[0]];
    DecodePrefix(s);
    if st.out[0].content == Ack(None) {
      e := n;
      ShortAckId(s);
      assert p[n..] == [];
      DrainNothing(Constant((0, 0)), next);
      DrainNothing(Constant((1, 1)), next);
      DrainFirst((0, 0), at, p, st.out[0], n);
      DrainFirst((1, 1), at, p, st.out[0], n);
      assert Drain(zeros, at, p).out[0].content != Drain(ones, at, p).out[0].content;
    } else {
      WholeTail(st.out[0], Meaning(rest).out);
      var e' := ShortAckShows(rest, next);
      e := n + e';
      var q := s[..e];
      assert q == p + rest[..e'] && q[n..] == rest[..e'];
      DecodeStable(Ready, p, rest[..e']);
      DrainFirst((0, 0), at, q, st.out[0], n);
      DrainFirst((1, 1), at, q, st.out[0], n);
      ConsDiffers(st.out[0], Drain(zeros, next, rest[..e']).out, Drain(ones, next, rest[..e']).out);
    }
  }

  lemma MeaningStep(s: seq<byte>)
    ensures var st := Decode(Ready, s); Meaning(s).out == if st.Took? then st.out + Meaning(s[st.used..]).out else []
  {
    hide Decode;
    assert PacketDecoder()(Ready, s) == Decode(Ready, s);
    assert Decode(Ready, s).Took? ==> Decode(Ready, s).ctl == Ready;
  }

  lemma DrainFirst(after: Behind, at: Turn, s: seq<byte>, p: Packet, used: nat)
    requires Decode(Ready, s) == Took(Ready, used, [p])
    ensures var m := PacketDecoderAt(Constant(after));
            Drain(m, at, s).out == [Seen(p, IdAt(s, after))] + Drain(m, Turn(at.k + 1), s[used..]).out
  {
    hide Decode, IdAt;
    DecoderSees(after, at, s);
    assert DecodeAt(at, s, after).out == [Seen(p, IdAt(s, after))];
  }

  lemma ConsDiffers(p: Packet, a: seq<Packet>, b: seq<Packet>)
    requires a != b
    ensures [p] + a != [p] + b
  {
    assert ([p] + a)[1..] == a && ([p] + b)[1..] == b;
  }

  lemma WholeTail(p: Packet, ps: seq<Packet>)
    requires p.content != Ack(None) && !Whole([p] + ps)
    ensures !Whole(ps)
  {
    var all := [p] + ps;
    var i :| 0 <= i < |all| && all[i].content == Ack(None);
    assert ps[i - 1] == all[i];
  }

  lemma DecodeOne(s: seq<byte>)
    ensures var st := Decode(Ready, s); st.Took? ==> |st.out| == 1
  {
    hide ParseContent, ReadLength;
  }

  lemma DecoderSees(after: Behind, at: Turn, s: seq<byte>)
    ensures PacketDecoderAt(Constant(after))(at, s) == DecodeAt(at, s, after)
  {
  }

  lemma DrainNothing(mem: Memory, at: Turn)
    ensures Drain(PacketDecoderAt(mem), at, []) == Run(at, [], [], false)
  {
    NothingYet();
    assert PacketDecoderAt(mem)(at, []) == DecodeAt(at, [], mem(at, []));
  }

  /** The bytes of one packet are decoded alone as in front of others. */
  lemma DecodePrefix(s: seq<byte>)
    requires Decode(Ready, s).Took?
    ensures var st := Decode(Ready, s); Decode(Ready, s[..st.used]) == st
  {
    hide ParseContent, ReadLength;
    var n := ReadLength(s[1..], 0, 0);
    var end := 1 + n.size + n.value;
    var p := s[..end];
    ReadLengthPrefix(s[1..], end - 1, 0, 0);
    assert p[1..] == s[1..][..end - 1];
    assert p[1 + n.size..end] == s[1 + n.size..end];
  }

  lemma {:induction false} ReadLengthPrefix(t: seq<byte>, e: nat, k: nat, acc: nat)
    requires k <= 4 && e <= |t| && ReadLength(t, k, acc).Length? && ReadLength(t, k, acc).size <= k + e
    ensures ReadLength(t[..e], k, acc) == ReadLength(t, k, acc)
    decreases |t|
  {
    hide Pow2;
    if t[0] >= 128 {
      assert t[..e][1..] == t[1..][..e - 1];
      ReadLengthPrefix(t[1..], e - 1, k + 1, (acc + t[0] % 128 * Pow2(7 * k)) % 0x1_0000_0000);
    }
  }

  /** Alone in the buffer, a short acknowledgement gets its identifier from memory. */
  lemma ShortAckId(s: seq<byte>)
    requires var st := Decode(Ready, s); st.Took? && st.out[0].content == Ack(None)
    ensures var p := s[..Decode(Ready, s).used]; IdAt(p, (0, 0)) != IdAt(p, (1, 1))
  {
    hide ReadLength;
    var n := ReadLength(s[1..], 0, 0);
    var end := 1 + n.size + n.value;
    var p := s[..end];
    assert n.value < 2;
    ReadLengthPrefix(s[1..], end - 1, 0, 0);
    assert p[1..] == s[1..][..end - 1];
    var a, b := (p + [0, 0])[1 + n.size..], (p + [1, 1])[1 + n.size..];
    assert |a| == |b| == n.value + 2 && a[1] == 0 && b[1] == 1;
    assert n.value == 0 ==> a[0] == 0 && b[0] == 1;
    assert n.value == 1 ==> a[0] == b[0];
  }

  ghost predicate AlwaysHandledAlike(s: seq<byte>)
  {
    forall chunks: seq<seq<byte>>, after: Behind | Concat(chunks) == s ::
      HandledOf(Constant(after), chunks) == HandledOf(Constant((0, 0)), [s])
  }

  /** A stream is handled alike however it is cut and whatever stands behind the buffer, exactly when
      every acknowledgement in it has room for its identifier. */
  lemma HandledAlikeIff(s: seq<byte>)
    ensures AlwaysHandledAlike(s) <==> Whole(Meaning(s).out)
  {
    hide Meaning, HandledOf, Fits, Whole;
    var one := [s];
    assert one[1..] == [] && Concat(one) == s + [] == s;
    PacketsIgnoreSplits(Constant((0, 0)), [s]);
    if Whole(Meaning(s).out) {
      forall chunks: seq<seq<byte>>, after: Behind | Concat(chunks) == s
        ensures HandledOf(Constant(after), chunks) == HandledOf(Constant((0, 0)), [s])
      {
        PacketsIgnoreSplits(Constant(after), chunks);
      }
    } else {
      var e := ShortAckShows(s, Turn(0));
      CutShows(s, e);
    }
  }

  lemma CutShows(s: seq<byte>, e: nat)
    requires e <= |s|
    requires var a, b := Drain(PacketDecoderAt(Constant((0, 0))), Turn(0), s[..e]), Drain(PacketDecoderAt(Constant((1, 1))), Turn(0), s[..e]);
             |a.out| == |b.out| && a.out != b.out
    ensures !AlwaysHandledAlike(s)
  {
    hide PacketDecoderAt, Drain, HandledOf;
    var chunks := [s[..e], s[e..]];
    ConcatTwo(s[..e], s[e..]);
    assert s[..e] + s[e..] == s;
    HandledOfTwo(Constant((0, 0)), s[..e], s[e..]);
    HandledOfTwo(Constant((1, 1)), s[..e], s[e..]);
    assert HandledOf(Constant((0, 0)), chunks) != HandledOf(Constant((1, 1)), chunks);
  }

  lemma ConcatTwo(a: seq<byte>, b: seq<byte>)
    ensures Concat([a, b]) == a + b
  {
    assert [a, b][1..] == [b];
    assert Concat([b]) == b + Concat([b][1..]) == b;
  }

  lemma HandledOfTwo(mem: Memory, a: seq<byte>, b: seq<byte>)
    ensures Drain(PacketDecoderAt(mem), Turn(0), a).out <= HandledOf(mem, [a, b]).out
  {
    hide PacketDecoderAt, Drain;
    var m, r := PacketDecoderAt(mem), Run(Turn(0), [], [], false);
    assert [] + a == a && [a, b][1..] == [b];
    var r1 := Receive(m, r, a);
    assert r1.out == Drain(m, Turn(0), a).out;
    var r2 := ReceiveAll(m, r1, [b]);
    assert r2 == ReceiveAll(m, Receive(m, r1, b), [b][1..]);
  }

  // ----- the sender -----

  /** Seven bits at a time, least significant first; all but the last byte have the top bit set. */
  function VarLength(n: nat): (s: seq<byte>)
    ensures |s| > 0
  {
    if n < 128 then [n] else [128 + n % 128] + VarLength(n / 128)
  }

  const MAX_LENGTH := 0x1000_0000

  function PacketBytes(cmd: nat, flags: nat, body: seq<byte>): (s: seq<byte>)
    requires cmd < 16 && flags < 16
  {
    [cmd * 16 + flags] + VarLength(|body|) + body
  }

  lemma PowStep(k: nat)
    ensures Pow2(7 * (k + 1)) == 128 * Pow2(7 * k)
  {
    var p := 7 * k;
    assert Pow2(p + 2) == 4 * Pow2(p) && Pow2(p + 4) == 4 * Pow2(p + 2) && Pow2(p + 6) == 4 * Pow2(p + 4);
    assert Pow2(p + 7) == 2 * Pow2(p + 6);
  }

  lemma ShiftSplit(n: nat, p: nat)
    requires p > 0
    ensures n * p == n % 128 * p + n / 128 * (128 * p)
    ensures 0 <= n % 128 * p <= n * p
  {
    var q, r := n / 128, n % 128;
    assert n == 128 * q + r;
    assert n * p == (128 * q) * p + r * p;
    assert q * (128 * p) == (128 * q) * p;
    assert 0 <= r * p && 0 <= q * (128 * p);
  }

  /** A length too long for one byte leaves room for another. */
  lemma RoomFor(n: nat, k: nat)
    requires k <= 3 && n >= 128 && n * Pow2(7 * k) < MAX_LENGTH
    ensures k < 3
  {
    if k == 3 {
      PowThree();
    }
  }

  lemma PowThree()
    ensures Pow2(21) == 0x20_0000
  {
    PowStep(0);
    PowStep(1);
    PowStep(2);
    assert Pow2(0) == 1;
  }

  lemma {:induction false} ReadLengthInverts(n: nat, t: seq<byte>, k: nat, acc: nat)
    requires k <= 3 && acc + n * Pow2(7 * k) < MAX_LENGTH
    ensures ReadLength(VarLength(n) + t, k, acc) == Length(acc + n * Pow2(7 * k), k + |VarLength(n)|)
    decreases n
  {
    hide Pow2;
    var p := Pow2(7 * k);
    ShiftSplit(n, p);
    var acc' := acc + n % 128 * p;
    assert (VarLength(n) + t)[0] % 128 == n % 128;
    if n >= 128 {
      RoomFor(n, k);
      PowStep(k);
      assert (VarLength(n) + t)[1..] == VarLength(n / 128) + t;
      ReadLengthInverts(n / 128, t, k + 1, acc');
    }
  }

  /** The parser on a buffer that starts with an encoded packet sees exactly that packet. */
  lemma DecodeInverts(cmd: nat, flags: nat, body: seq<byte>, t: seq<byte>)
    requires cmd < 16 && flags < 16 && |body| < MAX_LENGTH
    ensures Decode(Ready, PacketBytes(cmd, flags, body) + t) ==
      match ParseContent(cmd, Qos(flags), body)
      case None => Fail
      case Some(c) => Took(Ready, |PacketBytes(cmd, flags, body)|, [Packet(cmd, Qos(flags), c)])
  {
    hide ParseContent, ReadLength, VarLength, Qos;
    var v, s := VarLength(|body|), PacketBytes(cmd, flags, body) + t;
    assert Pow2(7 * 0) == 1;
    ReadLengthInverts(|body|, body + t, 0, 0);
    assert s[1..] == v + (body + t);
    assert s == ([cmd * 16 + flags] + v) + body + t;
    Slices.Middle([cmd * 16 + flags] + v, body, t);
    assert s[0] == cmd * 16 + flags;
    FirstByte(cmd, flags);
  }

  lemma FirstByte(cmd: nat, flags: nat)
    requires flags < 16
    ensures (cmd * 16 + flags) / 16 == cmd && Qos(cmd * 16 + flags) == Qos(flags)
  {
    assert (cmd * 16 + flags) / 2 == cmd * 8 + flags / 2;
  }

  /** Before its last byte a packet is never acted upon. */
  lemma PrefixWaits(cmd: nat, flags: nat, body: seq<byte>, k: nat)
    requires cmd < 16 && flags < 16 && |body| < MAX_LENGTH && ParseContent(cmd, Qos(flags), body).Some?
    requires k < |PacketBytes(cmd, flags, body)|
    ensures Decode(Ready, PacketBytes(cmd, flags, body)[..k]) == Wait
  {
    hide Decode, ParseContent, PacketBytes;
    var w := PacketBytes(cmd, flags, body);
    DecodeInverts(cmd, flags, body, []);
    assert w + [] == w && w[..k] + w[k..] == w;
    if Decode(Ready, w[..k]) != Wait {
      DecodeStable(Ready, w[..k], w[k..]);
    }
  }

  /** The identifier of an acknowledgement does not depend on what follows the packet, in the stream
      or in memory, exactly when the packet has room for it. */
  lemma IdentifierIff(cmd: nat, flags: nat, body: seq<byte>)
    requires IsAck(cmd) && flags < 16 && |body| < MAX_LENGTH
    ensures var w := PacketBytes(cmd, flags, body);
            (forall t: seq<byte>, after: Behind :: DecodeAt(Turn(0), w + t, after) == DecodeAt(Turn(0), w, (0, 0))) <==> |body| >= 2
  {
    hide Decode, IdAt, PacketBytes;
    var w, content := PacketBytes(cmd, flags, body), ParseContent(cmd, Qos(flags), body);
    DecodeInverts(cmd, flags, body, []);
    assert w + [] == w;
    if |body| >= 2 {
      forall t: seq<byte>, after: Behind ensures DecodeAt(Turn(0), w + t, after) == DecodeAt(Turn(0), w, (0, 0)) {
        DecodeInverts(cmd, flags, body, t);
        assert DecodeAt(Turn(0), w + t, after).out == [Packet(cmd, Qos(flags), content.value)] == DecodeAt(Turn(0), w, (0, 0)).out;
      }
    } else {
      IdAtPacket(cmd, flags, body, (0, 0));
      IdAtPacket(cmd, flags, body, (1, 1));
      assert DecodeAt(Turn(0), w, (0, 0)).out[0].content == Ack(Some(IdAt(w, (0, 0))));
      assert DecodeAt(Turn(0), w, (1, 1)).out[0].content == Ack(Some(IdAt(w, (1, 1))));
      assert DecodeAt(Turn(0), w + [], (1, 1)) == DecodeAt(Turn(0), w, (1, 1));
    }
  }

  lemma IdAtPacket(cmd: nat, flags: nat, body: seq<byte>, after: Behind)
    requires cmd < 16 && flags < 16 && |body| < MAX_LENGTH
    ensures IdAt(PacketBytes(cmd, flags, body), after) == U16(body + [after.0, after.1])
  {
    hide VarLength, ReadLength, U16;
    var v, w := VarLength(|body|), PacketBytes(cmd, flags, body);
    assert Pow2(7 * 0) == 1;
    ReadLengthInverts(|body|, body, 0, 0);
    assert w[1..] == v + body;
    assert (w + [after.0, after.1])[1 + |v|..] == body + [after.0, after.1];
  }

  /** A PUBACK without a body: the identifier handled is whatever stands behind it, in memory or in
      the next packet. */
  lemma IdentifierFromBehind()
    ensures DecodeAt(Turn(0), [0x40, 0], (1, 2)) == Took(Turn(1), 2, [Packet(PUBACK, 0, Ack(Some(0x102)))])
    ensures DecodeAt(Turn(0), [0x40, 0, 0x40, 0], (1, 2)) == Took(Turn(1), 2, [Packet(PUBACK, 0, Ack(Some(0x4000)))])
  {
    ShortAckAt([], (1, 2));
    ShortAckAt([0x40, 0], (1, 2));
    assert [0x40, 0] + [] == [0x40, 0] && [0x40, 0] + [0x40, 0] == [0x40, 0, 0x40, 0];
  }

  lemma ShortAckAt(t: seq<byte>, after: Behind)
    ensures DecodeAt(Turn(0), [0x40, 0] + t, after) == Took(Turn(1), 2, [Packet(PUBACK, 0, Ack(Some(U16(t + [after.0, after.1]))))])
  {
    hide U16, Decode, ReadLength, ParseContent;
    var s := [0x40, 0] + t;
    assert PacketBytes(PUBACK, 0, []) == [0x40, 0];
    DecodeInverts(PUBACK, 0, [], t);
    NoIdentifier();
    ZeroLength(t);
    assert s[1..] == [0] + t;
    assert (s + [after.0, after.1])[2..] == t + [after.0, after.1];
  }

  lemma NoIdentifier()
    ensures ParseContent(PUBACK, 0, []) == Some(Ack(None))
  {
  }

  lemma ZeroLength(t: seq<byte>)
    ensures ReadLength([0] + t, 0, 0) == Length(0, 1)
  {
  }

  // ----- contents -----

  function FieldBytes(text: seq<byte>): (s: seq<byte>)
    requires |text| < 0x1_0000
    ensures |s| == 2 + |text|
  {
    Be16(|text|) + text
  }

  lemma ReadFieldInverts(a: seq<byte>, text: seq<byte>, t: seq<byte>)
    requires |text| < 0x1_0000
    ensures ReadField(a + FieldBytes(text) + t, |a|) == Field(text, |a| + 2 + |text|)
  {
    hide Be16, U16;
    var b := a + FieldBytes(text) + t;
    assert b[|a|..] == Be16(|text|) + (text + t);
    U16Inverts(|text|, text + t);
    assert b == (a + Be16(|text|)) + text + t;
    Slices.Middle(a + Be16(|text|), text, t);
  }

  function MaybeBytes(text: Option<seq<byte>>): (s: seq<byte>)
    requires text.Some? ==> |text.value| < 0x1_0000
  {
    if text.Some? then FieldBytes(text.value) else []
  }

  lemma ReadMaybeInverts(a: seq<byte>, text: Option<seq<byte>>, t: seq<byte>)
    requires text.Some? ==> |text.value| < 0x1_0000
    ensures ReadMaybe(a + MaybeBytes(text) + t, |a|, text.Some?) == Maybe(text, |a + MaybeBytes(text)|)
  {
    hide ReadField, FieldBytes;
    if text.Some? {
      ReadFieldInverts(a, text.value, t);
    }
  }

  /** What a client connects with; `flags` can already hold the bits that announce optional strings
      it has. */
  datatype ConnectOptions = ConnectOptions(
    flags: byte, keepAlive: nat, clientId: seq<byte>,
    topic: Option<seq<byte>>, message: Option<seq<byte>>, userName: Option<seq<byte>>, password: Option<seq<byte>>)

  ghost predicate Counted(text: Option<seq<byte>>)
  {
    text.Some? ==> |text.value| < 0x1_0000
  }

  ghost predicate Connectable(o: ConnectOptions)
  {
    && (HasWill(o.flags) ==> Will(o)) && (HasUserName(o.flags) ==> o.userName.Some?)
    && (HasPassword(o.flags) ==> o.password.Some?)
    && o.keepAlive < 0x1_0000 && |o.clientId| < 0x1_0000
    && Counted(WillTopic(o)) && Counted(WillMessage(o)) && Counted(o.userName) && Counted(o.password)
  }

  /** A will needs its topic and its message. */
  predicate Will(o: ConnectOptions)
  {
    o.topic.Some? && o.message.Some?
  }

  function WillTopic(o: ConnectOptions): (r: Option<seq<byte>>)
    ensures r.Some? == Will(o)
  {
    if Will(o) then o.topic else None
  }

  function WillMessage(o: ConnectOptions): (r: Option<seq<byte>>)
    ensures r.Some? == Will(o)
  {
    if Will(o) then o.message else None
  }

  /** The flags with the bits of the strings that are sent. */
  function ConnectFlags(o: ConnectOptions): (f: byte)
    ensures HasWill(f) == (HasWill(o.flags) || Will(o))
    ensures HasUserName(f) == (HasUserName(o.flags) || o.userName.Some?)
    ensures HasPassword(f) == (HasPassword(o.flags) || o.password.Some?)
    ensures f % 4 == o.flags % 4 && f / 8 % 8 == o.flags / 8 % 8
  {
    var w := if HasWill(o.flags) || Will(o) then 1 else 0;
    var p := if HasPassword(o.flags) || o.password.Some? then 1 else 0;
    var u := if HasUserName(o.flags) || o.userName.Some? then 1 else 0;
    FlagBits(o.flags % 4, w, o.flags / 8 % 8, p, u);
    FlagsOf(o.flags % 4, w, o.flags / 8 % 8, p, u)
  }

  function FlagsOf(low: nat, w: nat, mid: nat, p: nat, u: nat): (f: nat)
  {
    low + 4 * w + 8 * mid + 64 * p + 128 * u
  }

  lemma FlagBits(low: nat, w: nat, mid: nat, p: nat, u: nat)
    requires low < 4 && w < 2 && mid < 8 && p < 2 && u < 2
    ensures var f := FlagsOf(low, w, mid, p, u);
            f < 256 && f % 4 == low && f / 4 % 2 == w && f / 8 % 8 == mid && f / 64 % 2 == p && f / 128 % 2 == u
  {
    var f := low + 4 * w + 8 * mid + 64 * p + 128 * u;
    assert f / 4 == w + 2 * (mid + 8 * p + 16 * u) && f / 8 == mid + 8 * (p + 2 * u) && f / 64 == p + 2 * u;
  }

  const PROTOCOL: seq<byte> := [77, 81, 84, 84]

  function KeepAlive(o: ConnectOptions): (n: nat)
    ensures o.keepAlive < 0x1_0000 ==> 0 < n < 0x1_0000
  {
    if o.keepAlive == 0 then 60 else o.keepAlive
  }

  ghost function ConnectHead(o: ConnectOptions): (s: seq<byte>)
    requires Connectable(o)
    ensures |s| == 10
  {
    [0, 4] + PROTOCOL + [4, ConnectFlags(o)] + Be16(KeepAlive(o))
  }

  ghost function ConnectBody(o: ConnectOptions): (s: seq<byte>)
    requires Connectable(o)
  {
    ConnectHead(o) + FieldBytes(o.clientId) + MaybeBytes(WillTopic(o)) + MaybeBytes(WillMessage(o))
    + MaybeBytes(o.userName) + MaybeBytes(o.password)
  }

  lemma ConnectHeadReads(o: ConnectOptions, t: seq<byte>)
    requires Connectable(o)
    ensures var b := ConnectHead(o) + t;
      && ReadField(b, 0) == Field(PROTOCOL, 6)
      && b[6] == 4 && b[7] == ConnectFlags(o) && U16(b[8..]) == KeepAlive(o)
  {
    hide ConnectFlags, KeepAlive;
    var b := ConnectHead(o) + t;
    assert b[0] == 0 && b[1] == 4;
    assert b[2..6] == PROTOCOL;
    assert b[8..] == Be16(KeepAlive(o)) + t;
    U16Inverts(KeepAlive(o), t);
  }

  /** What the other end is to see of a connection request, field by field: the will only with both its
      parts, a minute for a keep-alive of zero, and the flags given with the bits of the strings sent. */
  ghost predicate Requests(c: Content, o: ConnectOptions)
  {
    && c.Connect? && c.protocol == Ascii("MQTT") && c.version == 4 && c.clientId == o.clientId
    && c.keepAlive == (if o.keepAlive == 0 then 60 else o.keepAlive)
    && c.userName == o.userName && c.password == o.password
    && (if o.topic.Some? && o.message.Some? then c.willTopic == o.topic && c.willMessage == o.message
        else c.willTopic == None && c.willMessage == None)
    && forall k: nat | k < 8 :: Bit(c.flags, k) == 1 <==>
         Bit(o.flags, k) == 1 || (k == 2 && o.topic.Some? && o.message.Some?) || (k == 6 && o.password.Some?) || (k == 7 && o.userName.Some?)
  }

  lemma FlagsGiven(o: ConnectOptions, k: nat)
    requires k < 8
    ensures Bit(ConnectFlags(o), k) == 1 <==>
      Bit(o.flags, k) == 1 || (k == 2 && o.topic.Some? && o.message.Some?) || (k == 6 && o.password.Some?) || (k == 7 && o.userName.Some?)
  {
    var f := ConnectFlags(o);
    hide ConnectFlags;
    assert Pow2(1) == 2 && Pow2(2) == 4 && Pow2(3) == 8;
    assert Pow2(4) == 16 && Pow2(5) == 32 && Pow2(6) == 64;
    assert Pow2(7) == 128;
    SameBits(f, o.flags);
  }

  lemma SameBits(f: byte, g: byte)
    requires f % 4 == g % 4 && f / 8 % 8 == g / 8 % 8
    ensures f % 2 == g % 2 && f / 2 % 2 == g / 2 % 2
    ensures f / 8 % 2 == g / 8 % 2 && f / 16 % 2 == g / 16 % 2 && f / 32 % 2 == g / 32 % 2
  {
    InnerBits(f);
    InnerBits(g);
  }

  lemma InnerBits(f: byte)
    ensures f % 2 == f % 4 % 2 && f / 2 % 2 == f % 4 / 2
    ensures f / 8 % 2 == f / 8 % 8 % 2 && f / 16 % 2 == f / 8 % 8 / 2 % 2 && f / 32 % 2 == f / 8 % 8 / 4
  {
    TwoBits(f);
    assert f / 16 == f / 8 / 2 && f / 32 == f / 8 / 4;
    ThreeBits(f / 8);
  }

  lemma TwoBits(f: nat)
    ensures f % 2 == f % 4 % 2 && f / 2 % 2 == f % 4 / 2
  {
    assert f / 2 == 2 * (f / 4) + f % 4 / 2;
  }

  lemma ThreeBits(y: nat)
    ensures y % 2 == y % 8 % 2 && y / 2 % 2 == y % 8 / 2 % 2 && y / 4 % 2 == y % 8 / 4
  {
    assert y / 2 == 4 * (y / 8) + y % 8 / 2 && y / 4 == 2 * (y / 8) + y % 8 / 4;
  }

  /** A byte of flags is made of its parts. */
  lemma FlagParts(f: byte)
    ensures f == FlagsOf(f % 4, f / 4 % 2, f / 8 % 8, f / 64 % 2, f / 128 % 2)
  {
    assert f == 4 * (f / 4) + f % 4 && f / 4 == 2 * (f / 8) + f / 4 % 2;
    assert f / 8 == 8 * (f / 64) + f / 8 % 8 && f / 64 == 2 * (f / 128) + f / 64 % 2;
  }

  /** A connection request, with any combination of optional strings, is read back field by field. */
  lemma ConnectRoundTrip(o: ConnectOptions)
    requires Connectable(o)
    ensures ParseConnect(ConnectBody(o)).Some? && Requests(ParseConnect(ConnectBody(o)).value, o)
  {
    hide ParseConnect, ConnectBody, ConnectFlags, Connectable, Bit;
    ConnectReads(o);
    forall k: nat | k < 8
      ensures Bit(ConnectFlags(o), k) == 1 <==>
        Bit(o.flags, k) == 1 || (k == 2 && o.topic.Some? && o.message.Some?) || (k == 6 && o.password.Some?) || (k == 7 && o.userName.Some?)
    {
      FlagsGiven(o, k);
    }
  }

  lemma ConnectReads(o: ConnectOptions)
    requires Connectable(o)
    ensures ParseConnect(ConnectBody(o)) == Some(Connect(PROTOCOL, 4, ConnectFlags(o), KeepAlive(o), o.clientId,
      WillTopic(o), WillMessage(o), o.userName, o.password))
  {
    hide ReadField, ReadMaybe, FieldBytes, MaybeBytes, ConnectFlags, KeepAlive, ConnectHead, WillTopic, WillMessage;
    var b := ConnectBody(o);
    var h, c := ConnectHead(o), FieldBytes(o.clientId);
    var wt, wm, u, p := MaybeBytes(WillTopic(o)), MaybeBytes(WillMessage(o)), MaybeBytes(o.userName), MaybeBytes(o.password);
    SplitSix(h, c, wt, wm, u, p);
    ConnectHeadReads(o, c + wt + wm + u + p);
    ReadFieldInverts(h, o.clientId, wt + wm + u + p);
    ReadMaybeInverts(h + c, WillTopic(o), wm + u + p);
    ReadMaybeInverts(h + c + wt, WillMessage(o), u + p);
    ReadMaybeInverts(h + c + wt + wm, o.userName, p);
    ReadMaybeInverts(h + c + wt + wm + u, o.password, []);
  }

  lemma SplitSix(h: seq<byte>, c: seq<byte>, wt: seq<byte>, wm: seq<byte>, u: seq<byte>, p: seq<byte>)
    ensures var b := h + c + wt + wm + u + p;
      && b == h + (c + wt + wm + u + p)
      && b == h + c + (wt + wm + u + p)
      && b == h + c + wt + (wm + u + p)
      && b == h + c + wt + wm + (u + p)
      && b == h + c + wt + wm + u + p + []
  {
  }

  function PublishBody(topic: seq<byte>, id: nat, flags: nat, data: seq<byte>): (s: seq<byte>)
    requires |topic| < 0x1_0000 && id < 0x1_0000
  {
    FieldBytes(topic) + (if Qos(flags) > 0 then Be16(id) else []) + data
  }

  /** A message is read back with its identifier exactly when its quality of service carries one. */
  lemma PublishRoundTrip(topic: seq<byte>, id: nat, flags: nat, data: seq<byte>)
    requires |topic| < 0x1_0000 && id < 0x1_0000
    ensures ParsePublish(Qos(flags), PublishBody(topic, id, flags, data))
         == Some(Publish(topic, if Qos(flags) > 0 then Some(id) else None, data))
  {
    hide ReadField, FieldBytes, Qos, Be16, U16;
    var b, f := PublishBody(topic, id, flags, data), FieldBytes(topic);
    if Qos(flags) > 0 {
      assert b == [] + f + (Be16(id) + data);
      ReadFieldInverts([], topic, Be16(id) + data);
      assert b[|f|..] == Be16(id) + data;
      U16Inverts(id, data);
      assert b[|f| + 2..] == data;
    } else {
      assert b == [] + f + data;
      ReadFieldInverts([], topic, data);
      assert b[|f|..] == data;
    }
  }

  // ----- subscriptions -----

  datatype Topic = Topic(name: seq<byte>, qos: byte)

  ghost predicate Named(ts: seq<Topic>)
  {
    forall i | 0 <= i < |ts| :: |ts[i].name| < 0x1_0000
  }

  ghost function TopicsBytes(ts: seq<Topic>): (s: seq<byte>)
    requires Named(ts)
  {
    if ts == [] then [] else FieldBytes(ts[0].name) + [ts[0].qos] + TopicsBytes(ts[1..])
  }

  /** The topic at `pos` of a subscription's payload and where the next one starts. */
  function NextTopic(payload: seq<byte>, pos: nat): (r: Option<(Topic, nat)>)
    ensures r.Some? ==> pos + 3 <= r.value.1 <= |payload|
  {
    if pos + 2 >= |payload| then None
    else
      var next := pos + 2 + U16(payload[pos..]) + 1;
      if next > |payload| then None
      else Some((Topic(payload[pos + 2..next - 1], payload[next - 1]), next))
  }

  /** All topics from `pos` on, and where the iteration stopped. */
  function AllTopics(payload: seq<byte>, pos: nat): (r: (seq<Topic>, nat))
    decreases |payload| - pos
  {
    match NextTopic(payload, pos)
    case None => ([], pos)
    case Some((topic, next)) =>
      var (rest, end) := AllTopics(payload, next);
      ([topic] + rest, end)
  }

  lemma NextTopicInverts(a: seq<byte>, topic: Topic, t: seq<byte>)
    requires |topic.name| < 0x1_0000
    ensures NextTopic(a + (FieldBytes(topic.name) + [topic.qos] + t), |a|) == Some((topic, |a| + |topic.name| + 3))
  {
    hide U16, Be16;
    var n := topic.name;
    var p := a + (FieldBytes(n) + [topic.qos] + t);
    assert p[|a|..] == Be16(|n|) + (n + [topic.qos] + t);
    U16Inverts(|n|, n + [topic.qos] + t);
    assert p == (a + Be16(|n|)) + n + ([topic.qos] + t);
    Slices.Middle(a + Be16(|n|), n, [topic.qos] + t);
  }

  /** Iterating over the payload gives back the subscribed topics, and ends with the payload. */
  lemma {:induction false} TopicsRoundTrip(a: seq<byte>, ts: seq<Topic>)
    requires Named(ts)
    ensures AllTopics(a + TopicsBytes(ts), |a|) == (ts, |a + TopicsBytes(ts)|)
    decreases |ts|
  {
    hide NextTopic, FieldBytes;
    if ts == [] {
      assert a + TopicsBytes(ts) == a;
      NoTopicLeft(a);
    } else {
      var one, rest := FieldBytes(ts[0].name) + [ts[0].qos], TopicsBytes(ts[1..]);
      NextTopicInverts(a, ts[0], rest);
      assert a + (one + rest) == (a + one) + rest;
      TopicsRoundTrip(a + one, ts[1..]);
      assert ts == [ts[0]] + ts[1..];
    }
  }

  lemma NoTopicLeft(a: seq<byte>)
    ensures NextTopic(a, |a|) == None
  {
  }

  // ----- whole connections -----

  datatype Sent = Sent(cmd: nat, flags: nat, body: seq<byte>)

  ghost predicate Sendable(p: Sent)
  {
    p.cmd < 16 && p.flags < 16 && |p.body| < MAX_LENGTH && ParseContent(p.cmd, Qos(p.flags), p.body).Some?
  }

  ghost function Handled(p: Sent): (r: Packet)
    requires Sendable(p)
  {
    Packet(p.cmd, Qos(p.flags), ParseContent(p.cmd, Qos(p.flags), p.body).value)
  }

  ghost predicate AllSendable(ps: seq<Sent>)
  {
    forall i | 0 <= i < |ps| :: Sendable(ps[i])
  }

  ghost function StreamBytes(ps: seq<Sent>): (s: seq<byte>)
    requires AllSendable(ps)
  {
    if ps == [] then [] else PacketBytes(ps[0].cmd, ps[0].flags, ps[0].body) + StreamBytes(ps[1..])
  }

  ghost function HandledAll(ps: seq<Sent>): (r: seq<Packet>)
    requires AllSendable(ps)
  {
    seq(|ps|, i requires 0 <= i < |ps| => Handled(ps[i]))
  }

  lemma {:induction false} DrainStream(ps: seq<Sent>)
    requires AllSendable(ps)
    ensures Drain(PacketDecoder(), Ready, StreamBytes(ps)) == Run(Ready, [], HandledAll(ps), false)
    decreases |ps|
  {
    hide Decode, ParseContent, PacketBytes;
    if ps == [] {
      NothingYet();
      assert PacketDecoder()(Ready, []) == Decode(Ready, []);
    } else {
      var p, t := ps[0], StreamBytes(ps[1..]);
      var w := PacketBytes(p.cmd, p.flags, p.body);
      assert Sendable(p);
      DecodeInverts(p.cmd, p.flags, p.body, t);
      assert PacketDecoder()(Ready, w + t) == Decode(Ready, w + t);
      assert (w + t)[|w|..] == t;
      DrainStream(ps[1..]);
      assert HandledAll(ps) == [Handled(p)] + HandledAll(ps[1..]);
    }
  }

  /** Every acknowledgement sent has its identifier. */
  ghost predicate AcksHaveIds(ps: seq<Sent>)
  {
    forall i | 0 <= i < |ps| :: IsAck(ps[i].cmd) ==> |ps[i].body| >= 2
  }

  lemma HandledWhole(ps: seq<Sent>)
    requires AllSendable(ps) && AcksHaveIds(ps)
    ensures Whole(HandledAll(ps))
  {
    forall i | 0 <= i < |ps| ensures HandledAll(ps)[i].content != Ack(None) {
      assert Sendable(ps[i]);
    }
  }

  /** Any packets, cut into receives anywhere, are handled exactly once each, in order, whatever
      stands in memory behind the buffer. */
  lemma StreamTheorem(mem: Memory, ps: seq<Sent>, chunks: seq<seq<byte>>)
    requires AllSendable(ps) && AcksHaveIds(ps) && Concat(chunks) == StreamBytes(ps)
    ensures HandledOf(mem, chunks) == Run(Turn(|ps|), [], HandledAll(ps), false)
  {
    hide PacketDecoder, Sendable, HandledOf, Fits, Whole, IsAck;
    PacketsIgnoreSplits(mem, chunks);
    DrainStream(ps);
    HandledWhole(ps);
  }

  // ----- messages from one end to the other -----

  datatype Message =
    | ConnectMessage(options: ConnectOptions)
    | PublishMessage(topic: seq<byte>, id: nat, flags: nat, data: seq<byte>)
    | SubscribeMessage(topics: seq<Topic>, id: nat)

  ghost predicate CanSend(m: Message)
  {
    match m
    case ConnectMessage(o) => Connectable(o) && |ConnectBody(o)| < 0x1_0000
    case PublishMessage(topic, id, flags, data) =>
      |topic| < 0x1_0000 && id < 0x1_0000 && flags < 16 && |PublishBody(topic, id, flags, data)| < MAX_LENGTH
    case SubscribeMessage(topics, id) => Named(topics) && id < 0x1_0000 && |SubscribeBody(topics, id)| < MAX_LENGTH
  }

  ghost function SubscribeBody(topics: seq<Topic>, id: nat): (s: seq<byte>)
    requires Named(topics) && id < 0x1_0000
  {
    Be16(id) + TopicsBytes(topics)
  }

  ghost function AsSent(m: Message): (p: Sent)
    requires CanSend(m)
  {
    match m
    case ConnectMessage(o) => Sent(CONNECT, 0, ConnectBody(o))
    case PublishMessage(topic, id, flags, data) => Sent(PUBLISH, flags, PublishBody(topic, id, flags, data))
    case SubscribeMessage(topics, id) => Sent(SUBSCRIBE, 2, SubscribeBody(topics, id))
  }

  /** The handler at the other end sees what was sent. */
  ghost predicate Arrives(p: Packet, m: Message)
  {
    match m
    case ConnectMessage(o) => p.cmd == 1 && p.qos == 0 && Requests(p.content, o)
    case PublishMessage(topic, id, flags, data) =>
      var qos := flags / 2 % 4;
      p == Packet(3, qos, Publish(topic, if qos > 0 then Some(id) else None, data))
    case SubscribeMessage(topics, id) =>
      && p.cmd == 8 && p.qos == 1 && p.content.Subscribe? && p.content.requestId == id
      && AllTopics(p.content.topics, 0) == (topics, |p.content.topics|)
  }

  lemma SubscribeRoundTrip(topics: seq<Topic>, id: nat)
    requires Named(topics) && id < 0x1_0000
    ensures ParseContent(SUBSCRIBE, 1, SubscribeBody(topics, id)) == Some(Subscribe(id, TopicsBytes(topics)))
    ensures AllTopics(TopicsBytes(topics), 0) == (topics, |TopicsBytes(topics)|)
  {
    hide Be16, U16, TopicsBytes, AllTopics;
    var t := TopicsBytes(topics);
    U16Inverts(id, t);
    assert (Be16(id) + t)[2..] == t && [] + t == t;
    TopicsRoundTrip([], topics);
  }

  /** Every message is read back as it was sent. */
  lemma MessageArrives(m: Message)
    requires CanSend(m)
    ensures Sendable(AsSent(m)) && Arrives(Handled(AsSent(m)), m) && !IsAck(AsSent(m).cmd)
  {
    hide ParseConnect, ParsePublish, ConnectBody, PublishBody, SubscribeBody, Connectable, Requests, AllTopics;
    match m
    case ConnectMessage(o) =>
      ConnectRoundTrip(o);
    case PublishMessage(topic, id, flags, data) =>
      PublishRoundTrip(topic, id, flags, data);
    case SubscribeMessage(topics, id) =>
      SubscribeRoundTrip(topics, id);
  }

  ghost predicate AllCanSend(ms: seq<Message>)
  {
    forall i | 0 <= i < |ms| :: CanSend(ms[i])
  }

  ghost function AsSentAll(ms: seq<Message>): (ps: seq<Sent>)
    requires AllCanSend(ms)
    ensures |ps| == |ms| && forall i | 0 <= i < |ms| :: ps[i] == AsSent(ms[i])
  {
    seq(|ms|, i requires 0 <= i < |ms| => AsSent(ms[i]))
  }

  /** Every message arrives, once and in order. */
  ghost predicate ArriveAll(ps: seq<Packet>, ms: seq<Message>)
  {
    |ps| == |ms| && forall i | 0 <= i < |ms| :: Arrives(ps[i], ms[i])
  }

  lemma AllSent(ms: seq<Message>)
    requires AllCanSend(ms)
    ensures AllSendable(AsSentAll(ms)) && AcksHaveIds(AsSentAll(ms)) && ArriveAll(HandledAll(AsSentAll(ms)), ms)
  {
    hide CanSend, Sendable, AsSent, Arrives, Handled, IsAck;
    forall i | 0 <= i < |ms|
      ensures Sendable(AsSentAll(ms)[i]) && Arrives(Handled(AsSentAll(ms)[i]), ms[i]) && !IsAck(AsSentAll(ms)[i].cmd)
    {
      MessageArrives(ms[i]);
    }
  }

  /** Any messages, cut into receives anywhere, arrive exactly once each, as they were sent and in
      order, and the connection is not given up. */
  lemma MessagesArrive(mem: Memory, ms: seq<Message>, chunks: seq<seq<byte>>)
    requires AllCanSend(ms) && AllSendable(AsSentAll(ms)) && Concat(chunks) == StreamBytes(AsSentAll(ms))
    ensures var r := HandledOf(mem, chunks); r.ctl == Turn(|ms|) && r.rest == [] && !r.failed && ArriveAll(r.out, ms)
    ensures !AnyFailed(PacketDecoderAt(mem), Run(Turn(0), [], [], false), chunks)
  {
    hide HandledOf, AllSendable, AcksHaveIds, AllCanSend, PacketDecoder, PacketDecoderAt, Drain, Progress, Stable, ArriveAll;
    AllSent(ms);
    StreamTheorem(mem, AsSentAll(ms), chunks);
    DrainStream(AsSentAll(ms));
    AnyFailedFits(mem, Run(Turn(0), [], [], false), Run(Ready, [], [], false), chunks);
    DecoderIsStream();
    if AnyFailed(PacketDecoder(), Run(Ready, [], [], false), chunks) {
      NothingMeant();
      assert [] + Concat(chunks) == Concat(chunks);
      AnyFailedShows(PacketDecoder(), Ready, [], chunks);
    }
  }

  lemma NothingMeant()
    ensures Drain(PacketDecoder(), Ready, []) == Run(Ready, [], [], false)
  {
    NothingYet();
    assert PacketDecoder()(Ready, []) == Decode(Ready, []);
  }

  lemma {:induction false} AnyFailedFits(mem: Memory, r: Run<Turn, Packet>, m: Run<Ctl, Packet>, chunks: seq<seq<byte>>)
    requires r.ctl == Turn(|r.out|) && r.rest == m.rest && Fit(r.out, m.out)
    ensures AnyFailed(PacketDecoderAt(mem), r, chunks) == AnyFailed(PacketDecoder(), m, chunks)
    decreases |chunks|
  {
    hide Decode, Fits, PacketDecoder, PacketDecoderAt, Drain;
    if chunks != [] {
      var s := r.rest + chunks[0];
      assert m.ctl == Ready;
      DrainFits(mem, r.ctl, s);
      FitConcat(r.out, m.out, Drain(PacketDecoderAt(mem), r.ctl, s).out, Drain(PacketDecoder(), Ready, s).out);
      AnyFailedFits(mem, Receive(PacketDecoderAt(mem), r, chunks[0]), Receive(PacketDecoder(), m, chunks[0]), chunks[1..]);
    }
  }
}
