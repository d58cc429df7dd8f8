/**
  The MQTT end points as they run: a packet's body is appended to the send buffer first and its
  header then inserted in front of it; the receive loop parses packets off the receive buffer.
 */
module MqttConnection {
  import opened Bytes
  import opened Mbuf
  import opened Streams
  import opened Mqtt
  import Slices

  // ----- receiving -----

  /** The variable-length number behind the first byte. */
  method ParseLength(s: seq<byte>) returns (r: Length)
    requires |s| >= 2
    ensures r == ReadLength(s[1..], 0, 0)
  {
    hide Pow2;
    var p, lenLen := 1, 0;
    var len: nat := 0;
    while p < |s|
      invariant p == 1 + lenLen <= |s| && lenLen <= 4
      invariant ReadLength(s[p..], lenLen, len) == ReadLength(s[1..], 0, 0)
    {
      assert s[p..][0] == s[p] && s[p..][1..] == s[p + 1..];
      var lc := s[p];
      p := p + 1;
      len := (len + lc % 128 * Pow2(7 * lenLen)) % 0x1_0000_0000;
      lenLen := lenLen + 1;
      if lc < 128 {
        return Length(len, lenLen);
      }
      if lenLen > 4 {
        return TooLong;
      }
    }
    r := Short;
  }

  /** `scanto`: where the counted string at `p` ends, read from whatever is there. */
  function Scan(mem: seq<byte>, p: nat): (next: nat)
    requires p + 2 <= |mem|
    ensures next >= p + 2
  {
    p + 2 + U16(mem[p..])
  }

  /** Reading from memory, with the end compared afterwards, is reading inside the packet. */
  lemma ScanIs(s: seq<byte>, after: Behind, start: nat, end: nat, p: nat)
    requires start <= p <= end <= |s|
    ensures var mem, f := s + [after.0, after.1], ReadField(s[start..end], p - start);
      var next := Scan(mem, p);
      if next <= end then f == Field(mem[p + 2..next], next - start) else f == Overrun
  {
    hide U16;
    var mem, b, q := s + [after.0, after.1], s[start..end], p - start;
    if q + 2 <= |b| {
      U16Of(b[q..], mem[p..]);
      var next := Scan(mem, p);
      if next <= end {
        assert b[q + 2..next - start] == mem[p + 2..next];
      }
    }
  }

  lemma U16Of(a: seq<byte>, b: seq<byte>)
    requires |a| >= 2 && |b| >= 2 && a[0] == b[0] && a[1] == b[1]
    ensures U16(a) == U16(b)
  {
  }

  /** An optional string at `p`: an end of the packet before it is an error at once, one inside it
      shows later. */
  method ScanMaybe(s: seq<byte>, after: Behind, ghost start: nat, end: nat, p: nat, present: bool)
    returns (ok: bool, text: Option<seq<byte>>, next: nat)
    requires start <= p && start <= end <= |s|
    ensures ok ==> next >= p
    ensures p <= end ==> var f := ReadMaybe(s[start..end], p - start, present);
      if ok && next <= end then f == Maybe(text, next - start) else f == Bad
    ensures p > end ==> ok == !present && next == p
  {
    ok, text, next := true, None, p;
    if present {
      if p >= end {
        return false, None, p;
      }
      ScanIs(s, after, start, end, p);
      next := Scan(s + [after.0, after.1], p);
      if next <= end {
        text := Some(s[p + 2..next]);
        assert s[p + 2..next] == (s + [after.0, after.1])[p + 2..next];
      }
    }
  }

  /** CONNECT: a walk over the strings; most overruns are only noticed by where it ends. */
  method WalkConnect(s: seq<byte>, after: Behind, start: nat, end: nat) returns (r: Option<Content>)
    requires start <= end <= |s|
    ensures r == ParseConnect(s[start..end])
  {
    hide ReadField, ReadMaybe, U16;
    var mem := s + [after.0, after.1];
    ghost var b := s[start..end];
    ScanIs(s, after, start, end, start);
    var p := Scan(mem, start);
    if p + 4 > end {
      return None;
    }
    var name, version, flags, keepAlive := s[start + 2..p], s[p], s[p + 1], U16(s[p + 2..]);
    assert name == mem[start + 2..p] && version == b[p - start] && flags == b[p - start + 1];
    U16Of(s[p + 2..], b[p - start + 2..]);
    var from := p + 4;
    if from >= end {
      NoField(b, from - start);
      return None;
    }
    ScanIs(s, after, start, end, from);
    p := Scan(mem, from);
    if p > end {
      return None;
    }
    var client := s[from + 2..p];
    assert client == mem[from + 2..p];
    var ok, topic, message, user, pass;
    var will, named, secret := flags / 4 % 2 == 1, flags / 128 % 2 == 1, flags / 64 % 2 == 1;
    assert will == HasWill(flags) && named == HasUserName(flags) && secret == HasPassword(flags);
    hide HasWill, HasUserName, HasPassword;
    ok, topic, p := ScanMaybe(s, after, start, end, p, will);
    if !ok {
      return None;
    }
    ok, message, p := ScanMaybe(s, after, start, end, p, will);
    if !ok {
      return None;
    }
    ok, user, p := ScanMaybe(s, after, start, end, p, named);
    if !ok {
      return None;
    }
    ok, pass, p := ScanMaybe(s, after, start, end, p, secret);
    if !ok || p != end {
      return None;
    }
    r := Some(Connect(name, version, flags, keepAlive, client, topic, message, user, pass));
  }

  lemma NoField(b: seq<byte>, p: nat)
    requires p >= |b|
    ensures ReadField(b, p) == Overrun
  {
  }

  /** The content of the packet between `start` and `end`, as the handler sees it. */
  method WalkContent(s: seq<byte>, after: Behind, cmd: nat, qos: nat, start: nat, end: nat) returns (r: Option<Content>)
    requires start <= end <= |s|
    ensures var c := ParseContent(cmd, qos, s[start..end]);
      r == if c.None? then None else Some(SeenContent(c.value, U16((s + [after.0, after.1])[start..])))
  {
    hide ReadField, ParseConnect, U16;
    var mem := s + [after.0, after.1];
    ghost var b := s[start..end];
    if cmd == CONNECT {
      r := WalkConnect(s, after, start, end);
      if r.Some? {
        ConnectIsNoAck(b);
      }
    } else if cmd == CONNACK {
      r := if end - start < 2 then None else Some(Connack(s[start + 1]));
    } else if cmd == PUBACK || cmd == PUBREC || cmd == PUBREL || cmd == PUBCOMP || cmd == SUBACK {
      r := Some(Ack(Some(U16(mem[start..]))));
      if |b| >= 2 {
        U16Of(b, mem[start..]);
      }
    } else if cmd == PUBLISH {
      r := WalkPublish(s, after, qos, start, end);
    } else if cmd == SUBSCRIBE {
      if end - start < 2 {
        return None;
      }
      U16Of(b, s[start..]);
      assert b[2..] == s[start + 2..end];
      r := Some(Subscribe(U16(s[start..]), s[start + 2..end]));
    } else {
      r := Some(Unhandled);
    }
  }

  lemma ConnectIsNoAck(b: seq<byte>)
    requires ParseConnect(b).Some?
    ensures ParseConnect(b).value.Connect?
  {
    hide ReadField, ReadMaybe;
  }

  method WalkPublish(s: seq<byte>, after: Behind, qos: nat, start: nat, end: nat) returns (r: Option<Content>)
    requires start <= end <= |s|
    ensures r == ParsePublish(qos, s[start..end])
  {
    hide ReadField, U16;
    ghost var b := s[start..end];
    ScanIs(s, after, start, end, start);
    var p := Scan(s + [after.0, after.1], start);
    if p > end {
      return None;
    }
    var topic, id := s[start + 2..p], None;
    assert topic == (s + [after.0, after.1])[start + 2..p];
    if qos > 0 {
      if end - p < 2 {
        return None;
      }
      U16Of(s[p..], b[p - start..]);
      id := Some(U16(s[p..]));
      p := p + 2;
    }
    assert s[p..end] == b[p - start..];
    r := Some(Publish(topic, id, s[p..end]));
  }

  class Connection {
    const recv: Buffer
    var closeNow: bool
    /** The calls of the user's handler, in order. */
    var handled: seq<Packet>

    ghost predicate Valid()
      reads this, recv
    {
      recv.Valid()
    }

    constructor (recv: Buffer)
      requires recv.Valid()
      ensures Valid() && this.recv == recv && !closeNow && handled == []
    {
      this.recv := recv;
      closeNow, handled := false, [];
    }

    /** One packet, or the reason there is none: too few bytes, or a protocol error. `after` are the
        two bytes in memory behind the buffered ones. */
    method Parse(after: Behind) returns (st: Step<Turn, Packet>)
      requires Valid()
      ensures st == DecodeAt(Turn(|handled|), recv.Contents(), after)
    {
      hide ParseContent, ReadLength, U16;
      var s := recv.Contents();
      if |s| < 2 {
        return Wait;
      }
      var length := ParseLength(s);
      if length.TooLong? {
        return Fail;
      }
      if length.Short? || length.value > |s| - (1 + length.size) {
        return Wait;
      }
      var start, end := 1 + length.size, 1 + length.size + length.value;
      var qos := s[0] % 8 / 2;
      var content := WalkContent(s, after, s[0] / 16, qos, start, end);
      if content.None? {
        return Fail;
      }
      st := Took(Turn(|handled| + 1), end, [Packet(s[0] / 16, qos, content.value)]);
      assert st.out == DecodeAt(Turn(|handled|), s, after).out;
    }

    /** The receive event: packets are handled until none is whole or one is broken. */
    method OnReceive(chunk: seq<byte>, mem: Memory)
      requires Valid()
      modifies this, recv, recv.buf
      ensures Valid() && (recv.buf == old(recv.buf) || fresh(recv.buf))
      ensures var r := Receive(PacketDecoderAt(mem), Run(Turn(|old(handled)|), old(recv.Contents()), old(handled), false), chunk);
        Run(Turn(|handled|), recv.Contents(), handled, r.failed) == r && closeNow == (old(closeNow) || r.failed)
    {
      hide DecodeAt, Drain, PacketDecoderAt, Buffer.Contents;
      var n := recv.Append(chunk, true);
      var p := recv.buf;
      ghost var m := PacketDecoderAt(mem);
      ghost var r := Onto(handled, Drain(m, Turn(|handled|), recv.Contents()));
      var more := true;
      while more
        invariant Valid() && recv.buf == p
        invariant more ==> Onto(handled, Drain(m, Turn(|handled|), recv.Contents())) == r
        invariant !more ==> Run(Turn(|handled|), recv.Contents(), handled, r.failed) == r
        invariant closeNow == (old(closeNow) || (!more && r.failed))
        decreases more, recv.len
      {
        ghost var s := recv.Contents();
        var at := Turn(|handled|);
        TurnIs(mem, at, s);
        DrainUnfold(m, at, s, handled);
        var st := Parse(mem(at, recv.Contents()));
        if st.Took? {
          handled := handled + st.out;
          recv.Remove(st.used);
        } else {
          if st.Fail? {
            closeNow := true;
          }
          more := false;
        }
      }
    }
  }

  lemma TurnIs(mem: Memory, at: Turn, s: seq<byte>)
    ensures var st := DecodeAt(at, s, mem(at, s));
      PacketDecoderAt(mem)(at, s) == st && (st.Took? ==> st.ctl == Turn(at.k + |st.out|))
  {
    hide Decode, IdAt;
  }

  /** The next topic of a subscription, as the handler walks over its payload. */
  method NextSubscribeTopic(payload: seq<byte>, pos: nat) returns (topic: Topic, next: int)
    ensures match NextTopic(payload, pos)
      case None => next == -1
      case Some((t, n)) => topic == t && next == n
  {
    topic, next := Topic([], 0), -1;
    if pos >= |payload| {
      return;
    }
    if pos + 1 < |payload| {
      var len := U16(payload[pos..]);
      if pos + 2 + len + 1 <= |payload| {
        next := pos + 2 + len + 1;
        topic := Topic(payload[pos + 2..pos + 2 + len], payload[pos + 2 + len]);
      }
    }
  }

  // ----- sending -----

  method EncodeLength(len: nat) returns (vlen: seq<byte>)
    ensures vlen == VarLength(len)
  {
    hide VarLength;
    vlen := [];
    assert vlen + VarLength(len) == VarLength(len);
    var n, more := len, true;
    while more
      invariant more ==> vlen + VarLength(n) == VarLength(len)
      invariant !more ==> vlen == VarLength(len)
      decreases more, n
    {
      VarLengthStep(n);
      var b := n % 0x80;
      var q := n / 0x80;
      if q > 0 {
        b := b + 0x80;
      }
      Slices.Assoc3(vlen, [b], VarLength(q));
      assert q == 0 ==> VarLength(n) == [b];
      vlen := vlen + [b];
      n := q;
      more := n > 0;
    }
  }

  lemma VarLengthStep(n: nat)
    ensures n / 128 == 0 ==> VarLength(n) == [n % 128]
    ensures n / 128 > 0 ==> VarLength(n) == [n % 128 + 128] + VarLength(n / 128)
  {
  }

  /** Inserts the header of a packet whose body ends the buffer. */
  method PrependHeader(send: Buffer, cmd: nat, flags: nat, len: nat, ghost was: seq<byte>, ghost body: seq<byte>)
    requires send.Valid() && cmd < 16 && flags < 16 && len < MAX_LENGTH
    requires send.Contents() == was + body && len == |body|
    modifies send, send.buf
    ensures send.Valid() && (send.buf == old(send.buf) || fresh(send.buf))
    ensures send.Contents() == was + PacketBytes(cmd, flags, body)
  {
    hide VarLength;
    var off := send.len - len;
    var vlen := EncodeLength(len);
    PrependMeans(was, body);
    var k := send.Insert(off, [cmd * 16 + flags] + vlen, true);
    assert was + ([cmd * 16 + flags] + vlen) + body == was + PacketBytes(cmd, flags, body);
  }

  lemma PrependMeans(was: seq<byte>, body: seq<byte>)
    ensures (was + body)[..|was|] == was && (was + body)[|was|..] == body
  {
  }

  /** A counted string: its length, then its bytes. */
  method SendField(send: Buffer, text: seq<byte>)
    requires send.Valid() && |text| < 0x1_0000
    modifies send, send.buf
    ensures send.Valid() && (send.buf == old(send.buf) || fresh(send.buf))
    ensures send.Contents() == old(send.Contents()) + FieldBytes(text)
  {
    var n := send.Append(Be16(|text|), true);
    n := send.Append(text, true);
  }

  method SendMaybe(send: Buffer, text: Option<seq<byte>>)
    requires send.Valid() && Counted(text)
    modifies send, send.buf
    ensures send.Valid() && (send.buf == old(send.buf) || fresh(send.buf))
    ensures send.Contents() == old(send.Contents()) + MaybeBytes(text)
  {
    if text.Some? {
      SendField(send, text.value);
    }
  }

  method SendPublish(send: Buffer, topic: seq<byte>, id: nat, flags: nat, data: seq<byte>)
    requires send.Valid() && |topic| < 0x1_0000 && id < 0x1_0000 && flags < 16
    requires |PublishBody(topic, id, flags, data)| < MAX_LENGTH
    modifies send, send.buf
    ensures send.Valid() && (send.buf == old(send.buf) || fresh(send.buf))
    ensures send.Contents() == old(send.Contents()) + PacketBytes(PUBLISH, flags, PublishBody(topic, id, flags, data))
  {
    hide PacketBytes, FieldBytes, Be16;
    var oldLen := send.len;
    ghost var was := send.Contents();
    SendField(send, topic);
    ghost var ids := if Qos(flags) > 0 then Be16(id) else [];
    if flags % 8 / 2 > 0 {
      var n := send.Append(Be16(id), true);
    }
    assert send.Contents() == was + FieldBytes(topic) + ids;
    var n := send.Append(data, true);
    Slices.Assoc(was, FieldBytes(topic), ids, data);
    PrependHeader(send, PUBLISH, flags, send.len - oldLen, was, PublishBody(topic, id, flags, data));
  }

  method SendTopic(send: Buffer, topic: Topic)
    requires send.Valid() && |topic.name| < 0x1_0000
    modifies send, send.buf
    ensures send.Valid() && (send.buf == old(send.buf) || fresh(send.buf))
    ensures send.Contents() == old(send.Contents()) + (FieldBytes(topic.name) + [topic.qos])
  {
    hide FieldBytes;
    SendField(send, topic.name);
    var n := send.Append([topic.qos], true);
  }

  method SendSubscribe(send: Buffer, topics: seq<Topic>, id: nat)
    requires send.Valid() && Named(topics) && id < 0x1_0000
    requires |SubscribeBody(topics, id)| < MAX_LENGTH
    modifies send, send.buf
    ensures send.Valid() && (send.buf == old(send.buf) || fresh(send.buf))
    ensures send.Contents() == old(send.Contents()) + PacketBytes(SUBSCRIBE, 2, SubscribeBody(topics, id))
  {
    hide PacketBytes, FieldBytes, Be16;
    var oldLen := send.len;
    ghost var was := send.Contents();
    var n := send.Append(Be16(id), true);
    Slices.Assoc3(was, Be16(id), TopicsBytes(topics));
    for i := 0 to |topics|
      invariant send.Valid() && (send.buf == old(send.buf) || fresh(send.buf)) && Named(topics[i..])
      invariant send.Contents() + TopicsBytes(topics[i..]) == was + (Be16(id) + TopicsBytes(topics))
    {
      assert topics[i..][1..] == topics[i + 1..] && topics[i..][0] == topics[i];
      Slices.Assoc3(send.Contents(), FieldBytes(topics[i].name) + [topics[i].qos], TopicsBytes(topics[i + 1..]));
      SendTopic(send, topics[i]);
    }
    assert send.Contents() + TopicsBytes(topics[|topics|..]) == send.Contents();
    PrependHeader(send, SUBSCRIBE, 2, send.len - oldLen, was, Be16(id) + TopicsBytes(topics));
  }

  /** A bit of the flags is set. */
  method SetFlag(flags: byte, bit: nat) returns (r: byte)
    requires bit in {4, 64, 128}
    ensures r / bit % 2 == 1 && r == (if flags / bit % 2 == 1 then flags else flags + bit)
  {
    if flags / bit % 2 == 1 {
      return flags;
    }
    FlagRoom(flags, bit);
    r := flags + bit;
  }

  lemma FlagRoom(flags: byte, bit: nat)
    requires bit in {4, 64, 128} && flags / bit % 2 == 0
    ensures flags + bit < 256 && (flags + bit) / bit % 2 == 1
  {
  }

  /** The flags with the bits of the strings that are given. */
  method Flags(o: ConnectOptions) returns (flags: byte)
    ensures flags == ConnectFlags(o)
  {
    flags := o.flags;
    if o.userName.Some? {
      flags := SetFlag(flags, 128);
    }
    if o.password.Some? {
      flags := SetFlag(flags, 64);
    }
    if o.topic.Some? && o.message.Some? {
      flags := SetFlag(flags, 4);
    }
    FlagsAre(o, flags);
  }

  /** A byte is put together from its bits. */
  lemma FlagsAre(o: ConnectOptions, f: byte)
    requires var u := if o.userName.Some? && o.flags / 128 % 2 == 0 then o.flags + 128 else o.flags;
      var p := if o.password.Some? && u / 64 % 2 == 0 then u + 64 else u;
      f == if o.topic.Some? && o.message.Some? && p / 4 % 2 == 0 then p + 4 else p
    ensures f == ConnectFlags(o)
  {
    hide FlagsOf;
    var g := o.flags;
    var low, w, mid, p, u := g % 4, g / 4 % 2, g / 8 % 8, g / 64 % 2, g / 128 % 2;
    FlagParts(g);
    AddFlag(low, w, mid, p);
    var u' := if o.userName.Some? then 1 else u;
    var x := if o.userName.Some? && u == 0 then g + 128 else g;
    assert x == FlagsOf(low, w, mid, p, u');
    FlagBits(low, w, mid, p, u');
    AddFlags(low, w, mid, u');
    var p' := if o.password.Some? then 1 else p;
    var y := if o.password.Some? && p == 0 then x + 64 else x;
    assert y == FlagsOf(low, w, mid, p', u');
    FlagBits(low, w, mid, p', u');
    AddWill(low, mid, p', u');
  }

  lemma AddFlag(low: nat, w: nat, mid: nat, p: nat)
    ensures FlagsOf(low, w, mid, p, 0) + 128 == FlagsOf(low, w, mid, p, 1)
  {
  }

  lemma AddFlags(low: nat, w: nat, mid: nat, u: nat)
    ensures FlagsOf(low, w, mid, 0, u) + 64 == FlagsOf(low, w, mid, 1, u)
  {
  }

  lemma AddWill(low: nat, mid: nat, p: nat, u: nat)
    ensures FlagsOf(low, 0, mid, p, u) + 4 == FlagsOf(low, 1, mid, p, u)
  {
  }

  method SendConnectHead(send: Buffer, o: ConnectOptions) returns (flags: byte)
    requires send.Valid() && Connectable(o)
    modifies send, send.buf
    ensures send.Valid() && (send.buf == old(send.buf) || fresh(send.buf))
    ensures send.Contents() == old(send.Contents()) + ConnectHead(o) && flags == ConnectFlags(o)
  {
    hide ConnectFlags, Be16;
    var n := send.Append([0, 4, 77, 81, 84, 84, 4], true);
    flags := Flags(o);
    var keepAlive := o.keepAlive;
    if keepAlive == 0 {
      keepAlive := 60;
    }
    n := send.Append([flags], true);
    n := send.Append(Be16(keepAlive), true);
  }

  /** The connection request; the remaining length is kept in sixteen bits. */
  method SendConnect(send: Buffer, o: ConnectOptions)
    requires send.Valid() && Connectable(o) && |ConnectBody(o)| < 0x1_0000
    modifies send, send.buf
    ensures send.Valid() && (send.buf == old(send.buf) || fresh(send.buf))
    ensures send.Contents() == old(send.Contents()) + PacketBytes(CONNECT, 0, ConnectBody(o))
  {
    hide PacketBytes, FieldBytes, ConnectHead, ConnectFlags, MaybeBytes, WillTopic, WillMessage, Buffer.Contents;
    var oldLen := send.len;
    ghost var was := send.Contents();
    var flags := SendConnectHead(send, o);
    SendField(send, o.clientId);
    ghost var h, c := ConnectHead(o), FieldBytes(o.clientId);
    ghost var wt, wm, u, p := MaybeBytes(WillTopic(o)), MaybeBytes(WillMessage(o)), MaybeBytes(o.userName), MaybeBytes(o.password);
    ghost var now := was + h + c;
    SendStrings(send, o, flags);
    SevenParts(was, h, c, wt, wm, u, p);
    PrependHeader(send, CONNECT, 0, send.len - oldLen, was, ConnectBody(o));
  }

  /** The strings that the flags announce. */
  method SendStrings(send: Buffer, o: ConnectOptions, flags: byte)
    requires send.Valid() && Connectable(o) && flags == ConnectFlags(o)
    modifies send, send.buf
    ensures send.Valid() && (send.buf == old(send.buf) || fresh(send.buf))
    ensures send.Contents() == old(send.Contents()) + MaybeBytes(WillTopic(o)) + MaybeBytes(WillMessage(o))
      + MaybeBytes(o.userName) + MaybeBytes(o.password)
  {
    hide FieldBytes, ConnectFlags, Buffer.Contents;
    ghost var now := send.Contents();
    NothingAdded(now);
    if flags / 4 % 2 == 1 {
      SendField(send, o.topic.value);
      SendField(send, o.message.value);
    }
    now := now + MaybeBytes(WillTopic(o)) + MaybeBytes(WillMessage(o));
    assert send.Contents() == now;
    NothingAdded(now);
    if flags / 128 % 2 == 1 {
      SendField(send, o.userName.value);
    }
    now := now + MaybeBytes(o.userName);
    assert send.Contents() == now;
    NothingAdded(now);
    if flags / 64 % 2 == 1 {
      SendField(send, o.password.value);
    }
  }

  lemma NothingAdded(s: seq<byte>)
    ensures s + [] == s && s + [] + [] == s
  {
  }

  lemma SevenParts(was: seq<byte>, h: seq<byte>, c: seq<byte>, wt: seq<byte>, wm: seq<byte>, u: seq<byte>, p: seq<byte>)
    ensures was + h + c + wt + wm + u + p == was + (h + c + wt + wm + u + p)
  {
  }

  // ----- from one end to the other -----

  method SendMessage(send: Buffer, m: Message)
    requires send.Valid() && CanSend(m)
    modifies send, send.buf
    ensures send.Valid() && (send.buf == old(send.buf) || fresh(send.buf))
    ensures var p := AsSent(m); send.Contents() == old(send.Contents()) + PacketBytes(p.cmd, p.flags, p.body)
  {
    hide PacketBytes, Connectable, ConnectBody, PublishBody;
    match m
    case ConnectMessage(o) => SendConnect(send, o);
    case PublishMessage(topic, id, flags, data) => SendPublish(send, topic, id, flags, data);
    case SubscribeMessage(topics, id) => SendSubscribe(send, topics, id);
  }

  method SendMessages(send: Buffer, ms: seq<Message>)
    requires send.Valid() && AllCanSend(ms)
    modifies send, send.buf
    ensures send.Valid() && (send.buf == old(send.buf) || fresh(send.buf))
    ensures AllSendable(AsSentAll(ms)) && send.Contents() == old(send.Contents()) + StreamBytes(AsSentAll(ms))
  {
    hide PacketBytes, CanSend, Sendable, AsSent, Buffer.Contents;
    AllSent(ms);
    ghost var ps, was, now := AsSentAll(ms), send.Contents(), send.Contents();
    assert ps[0..] == ps;
    for i := 0 to |ms|
      invariant send.Valid() && (send.buf == old(send.buf) || fresh(send.buf))
      invariant AllSendable(ps[i..]) && send.Contents() == now && now + StreamBytes(ps[i..]) == was + StreamBytes(ps)
    {
      var m := ms[i];
      StreamStep(ps, i);
      ghost var w := PacketBytes(ps[i].cmd, ps[i].flags, ps[i].body);
      Slices.Assoc3(now, w, StreamBytes(ps[i + 1..]));
      SendMessage(send, m);
      now := now + w;
    }
    assert ps[|ms|..] == [] && now + [] == now;
  }

  lemma StreamStep(ps: seq<Sent>, i: nat)
    requires i < |ps| && AllSendable(ps[i..])
    ensures AllSendable(ps[i + 1..]) && ps[i].cmd < 16 && ps[i].flags < 16
    ensures StreamBytes(ps[i..]) == PacketBytes(ps[i].cmd, ps[i].flags, ps[i].body) + StreamBytes(ps[i + 1..])
  {
    hide PacketBytes;
    assert ps[i..][0] == ps[i] && ps[i..][1..] == ps[i + 1..];
  }

  /** One receive event after the other. */
  method ReceiveChunks(c: Connection, chunks: seq<seq<byte>>, mem: Memory)
    requires c.Valid()
    modifies c, c.recv, c.recv.buf
    ensures c.Valid()
    ensures var m, start := PacketDecoderAt(mem), Run(Turn(|old(c.handled)|), old(c.recv.Contents()), old(c.handled), false);
      var r := ReceiveAll(m, start, chunks);
      Run(Turn(|c.handled|), c.recv.Contents(), c.handled, r.failed) == r &&
      c.closeNow == (old(c.closeNow) || AnyFailed(m, start, chunks))
  {
    hide PacketDecoderAt, Buffer.Contents, Receive;
    ghost var m, start := PacketDecoderAt(mem), Run(Turn(|c.handled|), c.recv.Contents(), c.handled, false);
    ghost var r := start;
    assert chunks[0..] == chunks;
    for i := 0 to |chunks|
      invariant c.Valid() && (c.recv.buf == old(c.recv.buf) || fresh(c.recv.buf))
      invariant Run(Turn(|c.handled|), c.recv.Contents(), c.handled, r.failed) == r
      invariant ReceiveAll(m, r, chunks[i..]) == ReceiveAll(m, start, chunks)
      invariant (c.closeNow || AnyFailed(m, r, chunks[i..])) == (old(c.closeNow) || AnyFailed(m, start, chunks))
    {
      VerdictIsForgotten(m, r, chunks[i..], false);
      ReceiveAllStep(m, r.(failed := false), chunks, i);
      r := Receive(m, r.(failed := false), chunks[i]);
      c.OnReceive(chunks[i], mem);
    }
    assert chunks[|chunks|..] == [];
  }

  /** Messages sent at one end, cut after any numbers of bytes on the way, are handled at the other
      end exactly once each, as they were sent. */
  method Exchange(ms: seq<Message>, sizes: seq<nat>, mem: Memory) returns (handled: seq<Packet>)
    requires AllCanSend(ms)
    ensures ArriveAll(handled, ms)
  {
    hide StreamBytes, ReceiveAll, AnyFailed, PacketDecoderAt, CanSend, AllSendable, Arrives;
    var send := new Buffer(0);
    var recv := new Buffer(0);
    SendMessages(send, ms);
    ghost var bytes := StreamBytes(AsSentAll(ms));
    assert [] + bytes == bytes;
    var chunks := Cut(send.Contents(), sizes);
    var c := new Connection(recv);
    MessagesArrive(mem, ms, chunks);
    ReceiveChunks(c, chunks, mem);
    handled := c.handled;
  }
}
