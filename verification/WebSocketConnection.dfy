/**
  The WebSocket end points as they run: the receiver unmasks, reassembles and removes frames
  inside its receive buffer; the sender masks in place behind the header it has just appended.
 */
module WebSocketConnection {
  import opened Bytes
  import opened Mbuf
  import opened Streams
  import opened WebSocket
  import Slices

  /** How the state of a connection lies in its buffer: an open message is its marker byte and the
      payload collected so far, in front of the bytes not looked at yet. */
  ghost predicate Holds(noDefrag: bool, held: seq<byte>, reassLen: nat, ctl: Ctl, raw: seq<byte>)
  {
    match ctl
    case Idle => held == raw && reassLen == 0 && !IsStray(noDefrag, Idle, held)
    case Open(marker, data) => !noDefrag && marker % 16 == 0 && reassLen == |data| && held == [marker] + data + raw
  }

  /** An idle connection whose buffer starts with a continuation counts it as an open message. */
  function Settle(noDefrag: bool, c: Ctl, s: seq<byte>): (r: (Ctl, seq<byte>))
  {
    if IsStray(noDefrag, c, s) then (Open(s[0], []), s[1..]) else (c, s)
  }

  lemma OpenStays(c: Ctl, s: seq<byte>)
    requires c.Open?
    ensures Settle(false, c, s) == (c, s)
  {
  }

  lemma HoldsIdle(noDefrag: bool, rest: seq<byte>)
    ensures var (c, s) := Settle(noDefrag, Idle, rest); Holds(noDefrag, rest, 0, c, s)
  {
    if |rest| > 0 {
      assert rest == [rest[0]] + [] + rest[1..];
    }
  }

  /** Settling is a step of the decoder that emits nothing. */
  lemma SettleDrains(noDefrag: bool, c: Ctl, s: seq<byte>)
    ensures var (c', s') := Settle(noDefrag, c, s);
      Drain(FrameDecoder(noDefrag), c', s') == Drain(FrameDecoder(noDefrag), c, s) && |s'| <= |s|
  {
    if IsStray(noDefrag, c, s) {
      var r := Drain(FrameDecoder(noDefrag), Open(s[0], []), s[1..]);
      assert [] + r.out == r.out;
    }
  }

  /** The receive loop, one frame at a time. */
  lemma DrainStep(noDefrag: bool, c: Ctl, s: seq<byte>, done: seq<Message>)
    ensures var r, st := Onto(done, Drain(FrameDecoder(noDefrag), c, s)), Decode(noDefrag, c, s);
      if st.Took? then
        && st.used <= |s|
        && var (c', s') := Settle(noDefrag, st.ctl, s[st.used..]);
           |s'| < |s| && r == Onto(done + st.out, Drain(FrameDecoder(noDefrag), c', s'))
      else r == Run(c, s, done, st.Fail?)
  {
    hide Decode;
    var st := Decode(noDefrag, c, s);
    assert FrameDecoder(noDefrag)(c, s) == st;
    DrainUnfold(FrameDecoder(noDefrag), c, s, done);
    if st.Took? {
      SettleDrains(noDefrag, st.ctl, s[st.used..]);
    }
  }

  lemma Appended(noDefrag: bool, was: seq<byte>, held: seq<byte>, reassLen: nat, ctl: Ctl, raw: seq<byte>, chunk: seq<byte>)
    requires Holds(noDefrag, was, reassLen, ctl, raw) && held == was + chunk
    ensures var (c, s) := Settle(noDefrag, ctl, raw + chunk);
      Holds(noDefrag, held, reassLen, c, s) && Drain(FrameDecoder(noDefrag), c, s) == Drain(FrameDecoder(noDefrag), ctl, raw + chunk)
  {
    SettleDrains(noDefrag, ctl, raw + chunk);
    if ctl.Idle? {
      HoldsIdle(noDefrag, raw + chunk);
    } else {
      assert held == [ctl.marker] + ctl.data + (raw + chunk);
    }
  }

  lemma AcceptFragment(ctl: Ctl, f: Frame, marker: byte, all: seq<byte>)
    requires f.Frame? && (ctl.Idle? ==> IsFirstFragment(f.flags) && marker == f.flags - f.flags % 16)
    requires ctl.Open? ==> ctl.marker == marker && marker % 16 == 0
    requires all == if IsFirstFragment(f.flags) then f.data else ctl.data + f.data
    ensures Accept(false, ctl, f) == if f.flags >= 128 then Took(Idle, f.used, [Message(f.flags, all)])
                                     else Took(Open(marker, all), f.used, [])
  {
  }

  /** A frame that is handed over by itself. */
  predicate Alone(noDefrag: bool, c: Ctl, f: Frame)
  {
    f.Frame? && c.Idle? && (noDefrag || !IsFragment(f.flags))
  }

  /** When taking a frame asks for the connection to be closed: judged by the byte now in front,
      or by the frame's own first byte if nothing is left. */
  predicate ClosesAfter(noDefrag: bool, c: Ctl, f: Frame, s: seq<byte>)
  {
    Alone(noDefrag, c, f) && (if f.used < |s| then s[f.used] else f.flags) % 16 == 8
  }

  /** Whether the receive loop on `s` asks for the connection to be closed. */
  predicate DrainCloses(noDefrag: bool, c: Ctl, s: seq<byte>)
    decreases |s|
  {
    var st := Decode(noDefrag, c, s);
    st.Took? && (ClosesAfter(noDefrag, c, ParseFrame(s), s) || DrainCloses(noDefrag, st.ctl, s[st.used..]))
  }

  /** Whether one of the receives asks for the connection to be closed. */
  predicate AnyCloses(noDefrag: bool, c: Ctl, held: seq<byte>, chunks: seq<seq<byte>>)
    decreases |chunks|
  {
    chunks != [] &&
    var r := Drain(FrameDecoder(noDefrag), c, held + chunks[0]);
    DrainCloses(noDefrag, c, held + chunks[0]) || AnyCloses(noDefrag, r.ctl, r.rest, chunks[1..])
  }

  lemma AnyClosesStep(noDefrag: bool, r: Run<Ctl, Message>, chunks: seq<seq<byte>>, i: nat)
    requires i < |chunks|
    ensures var next := Receive(FrameDecoder(noDefrag), r, chunks[i]);
      AnyCloses(noDefrag, r.ctl, r.rest, chunks[i..]) ==
        (DrainCloses(noDefrag, r.ctl, r.rest + chunks[i]) || AnyCloses(noDefrag, next.ctl, next.rest, chunks[i + 1..]))
  {
    hide Drain, DrainCloses;
    assert chunks[i..][0] == chunks[i] && chunks[i..][1..] == chunks[i + 1..];
  }

  lemma SettleCloses(noDefrag: bool, c: Ctl, s: seq<byte>)
    ensures var (c', s') := Settle(noDefrag, c, s); DrainCloses(noDefrag, c', s') == DrainCloses(noDefrag, c, s)
  {
    if IsStray(noDefrag, c, s) {
      FlagsInFront(s);
    }
  }

  lemma FlagsInFront(s: seq<byte>)
    ensures var f := ParseFrame(s); f.Frame? ==> s != [] && f.flags == s[0] && 0 < f.used <= |s|
  {
    hide ParseHeader, Payload;
  }

  /** The header fields at the front of `s`; all zero while incomplete. */
  method ReadHeader(s: seq<byte>) returns (headerLen: nat, maskLen: nat, dataLen: nat)
    ensures var h := ParseHeader(s);
      if h.Header? then h == Header(headerLen, maskLen, dataLen) && maskLen in {0, 4}
      else headerLen == 0 && dataLen == 0
    ensures dataLen < TWO_64
  {
    headerLen, maskLen, dataLen := 0, 0, 0;
    if |s| >= 2 {
      var n := s[1] % 128;
      maskLen := if s[1] >= 128 then 4 else 0;
      if n < 126 && |s| >= maskLen {
        dataLen := n;
        headerLen := 2 + maskLen;
      } else if n == 126 && |s| >= 4 + maskLen {
        headerLen := 4 + maskLen;
        dataLen := U16(s[2..]);
      } else if |s| >= 10 + maskLen {
        headerLen := 10 + maskLen;
        dataLen := U64(s[2..]);
      }
    }
  }

  lemma HeldSplit(noDefrag: bool, held: seq<byte>, reassLen: nat, ctl: Ctl, raw: seq<byte>)
    requires Holds(noDefrag, held, reassLen, ctl, raw)
    ensures IsStray(noDefrag, Idle, held) == ctl.Open?
    ensures if ctl.Open? then |held| >= 1 + reassLen && held[1 + reassLen..] == raw else held == raw
  {
    if ctl.Open? {
      Slices.Middle([ctl.marker], ctl.data, raw);
    }
  }

  /** A whole frame is taken, an overflowing one ends the connection. */
  lemma FrameTells(noDefrag: bool, held: seq<byte>, reassLen: nat, ctl: Ctl, raw: seq<byte>)
    requires Holds(noDefrag, held, reassLen, ctl, raw)
    ensures var f, st := ParseFrame(raw), Decode(noDefrag, ctl, raw);
      && st == Accept(noDefrag, ctl, f) && st.Took? == f.Frame? && st.Fail? == f.Overflow?
      && (f.Frame? ==> st.used == f.used) && (!f.Frame? ==> !ClosesAfter(noDefrag, ctl, f, raw))
  {
    hide ParseFrame;
  }

  /** The 64-bit sum of the two lengths tells a whole frame from a partial or overflowing one. */
  lemma FrameVerdict(raw: seq<byte>, headerLen: nat, dataLen: nat)
    requires var h := ParseHeader(raw);
      if h.Header? then headerLen == h.len && dataLen == h.size else headerLen == 0 && dataLen == 0
    requires dataLen < TWO_64
    ensures var frameLen := (headerLen + dataLen) % TWO_64;
      var over := frameLen < headerLen || frameLen < dataLen;
      && ParseFrame(raw).Overflow? == over
      && ParseFrame(raw).Frame? == (!over && 0 < frameLen <= |raw|)
      && (!over ==> frameLen == headerLen + dataLen)
  {
    hide ParseHeader, Payload;
    var n := headerLen + dataLen;
    assert n % TWO_64 == if n < TWO_64 then n else n - TWO_64;
  }

  lemma PayloadParts(front: seq<byte>, raw: seq<byte>, h: Header)
    requires h.Header? && h.maskLen in {0, 4} && h.maskLen <= h.len && h.len + h.size <= |raw|
    ensures var head, body, rest := front + raw[..h.len], raw[h.len..h.len + h.size], raw[h.len + h.size..];
      && front + raw == head + body + rest
      && Payload(h, raw) == if h.maskLen == 4 then Masked((front + raw)[|head| - 4..|head|], body) else body
  {
    Slices.Thirds(raw, h.len, h.len + h.size);
    Slices.Assoc(front, raw[..h.len], raw[h.len..h.len + h.size], raw[h.len + h.size..]);
    if h.maskLen == 4 {
      Slices.OfSuffix(front, raw, |front| + h.len - 4, |front| + h.len);
    }
  }

  /** Closing the gap between what was collected (`head[1..buf]`) and a fragment's payload. */
  lemma Spliced(head: seq<byte>, marker: byte, buf: nat, data: seq<byte>, rest: seq<byte>)
    requires 1 <= buf <= |head|
    ensures var c := head[0 := marker] + data + rest;
      c[..buf] + c[|head|..] == [marker] + (head[1..buf] + data) + rest
  {
    var h := head[0 := marker];
    Slices.Middle(h, data, rest);
    assert (h + data + rest)[|head|..] == data + rest;
    assert (h + data + rest)[..buf] == [marker] + head[1..buf];
  }

  class Connection {
    const recv: Buffer
    const noDefrag: bool
    var reassLen: nat
    var closeNow: bool
    var sendAndClose: bool
    /** The calls of the user's handler, in order. */
    var delivered: seq<Message>
    ghost var ctl: Ctl
    ghost var raw: seq<byte>

    ghost predicate Valid()
      reads this, recv, recv.buf
    {
      recv.Valid() && Holds(noDefrag, recv.Contents(), reassLen, ctl, raw)
    }

    constructor (noDefrag: bool, recv: Buffer)
      requires recv.Valid() && recv.Contents() == []
      ensures Valid() && this.recv == recv && this.noDefrag == noDefrag
      ensures ctl == Idle && raw == [] && delivered == [] && !closeNow && !sendAndClose
    {
      this.recv, this.noDefrag := recv, noDefrag;
      reassLen, closeNow, sendAndClose, delivered := 0, false, false, [];
      ctl, raw := Idle, [];
    }

    /** Moves a fragment's payload behind what was collected, over the frame header; a first
        fragment starts the collection anew behind a byte with its opcode bits cleared. */
    method Gather(at: nat, data: nat, size: nat, flags: byte, ghost head: seq<byte>, ghost payload: seq<byte>, ghost rest: seq<byte>)
      requires recv.Valid() && |payload| == size && 0 < |head| == data && at < data
      requires recv.Contents() == head + payload + rest
      requires at == 0 ==> IsFirstFragment(flags)
      requires !IsFirstFragment(flags) ==> reassLen == at - 1
      modifies this`reassLen, recv`len, recv.buf
      ensures recv.Valid()
      ensures var first := IsFirstFragment(flags);
        var all := (if first then [] else head[1..at]) + payload;
        && recv.Contents() == [if first then head[0] - head[0] % 16 else head[0]] + all + rest
        && reassLen == |all|
    {
      var buf := at;
      assert recv.Contents()[0] == head[0];
      ghost var marker := if IsFirstFragment(flags) then head[0] - head[0] % 16 else head[0];
      if flags / 128 == 0 && flags % 16 != 0 {
        recv.Put(0, recv.Contents()[0] - recv.Contents()[0] % 16);
        buf := 1;
        reassLen := 0;
      }
      assert recv.Contents() == head[0 := marker] + payload + rest;
      Spliced(head, marker, buf, payload, rest);
      recv.Close(buf, data);
      reassLen := reassLen + size;
    }

    /** Handles a fragment; a final one hands the whole message over and removes it. */
    method Reassemble(at: nat, data: nat, size: nat, flags: byte,
                      ghost front: seq<byte>, ghost header: seq<byte>, ghost f: Frame, ghost rest: seq<byte>)
      requires recv.Valid() && !noDefrag && f.Frame? && f.flags == flags && |f.data| == size
      requires |front| == at && |front + header| == data && |header| > 0
      requires recv.Contents() == (front + header) + f.data + rest
      requires if at == 0 then ctl == Idle && IsFirstFragment(flags) && header[0] == flags else
        ctl.Open? && ctl.marker % 16 == 0 && reassLen == |ctl.data| && front == [ctl.marker] + ctl.data
      modifies this`reassLen, this`delivered, this`ctl, this`raw, recv`len, recv.buf
      ensures Valid()
      ensures delivered == old(delivered) + Accept(false, old(ctl), f).out
      ensures (ctl, raw) == Settle(false, Accept(false, old(ctl), f).ctl, rest)
    {
      hide Accept, Settle, Buffer.Contents;
      ghost var head, all := front + header, if IsFirstFragment(flags) then f.data else ctl.data + f.data;
      ghost var marker := head[0] - head[0] % 16;
      AcceptFragment(ctl, f, marker, all);
      Gather(at, data, size, flags, head, f.data, rest);
      assert all == (if IsFirstFragment(flags) then [] else head[1..at]) + f.data;
      if flags >= 128 {
        HandOver(flags, marker, all, rest);
      } else {
        OpenStays(Open(marker, all), rest);
        ctl, raw := Open(marker, all), rest;
      }
    }

    /** Hands over the collected message and removes it. */
    method HandOver(flags: byte, ghost marker: byte, ghost all: seq<byte>, ghost rest: seq<byte>)
      requires recv.Valid() && !noDefrag && reassLen == |all| && recv.Contents() == [marker] + all + rest
      modifies this`reassLen, this`delivered, this`ctl, this`raw, recv`len, recv.buf
      ensures Valid()
      ensures delivered == old(delivered) + [Message(flags, all)] && (ctl, raw) == Settle(false, Idle, rest)
    {
      hide Settle, Holds;
      Slices.Middle([marker], all, rest);
      delivered := delivered + [Message(flags, recv.Contents()[1..1 + reassLen])];
      recv.Remove(1 + reassLen);
      reassLen := 0;
      HoldsIdle(false, rest);
      ctl, raw := Settle(false, Idle, rest).0, Settle(false, Idle, rest).1;
      assert recv.Contents() == rest;
    }

    /** Hands over a frame that stands alone and removes it. */
    method TakeWhole(data: nat, size: nat, flags: byte, ghost head: seq<byte>, ghost f: Frame, ghost rest: seq<byte>)
      requires recv.Valid() && f.Frame? && f.flags == flags && |f.data| == size
      requires |head| == data > 0 && head[0] == flags && recv.Contents() == head + f.data + rest
      modifies this`reassLen, this`delivered, this`sendAndClose, this`ctl, this`raw, recv`len, recv.buf
      ensures Valid()
      ensures delivered == old(delivered) + [Message(flags, f.data)]
      ensures (ctl, raw) == Settle(noDefrag, Idle, rest)
      ensures sendAndClose == (old(sendAndClose) || (if rest != [] then rest[0] else flags) % 16 == 8)
    {
      Slices.Middle(head, f.data, rest);
      delivered := delivered + [Message(flags, recv.Contents()[data..data + size])];
      assert recv.buf[0] == recv.Contents()[0];
      assert rest != [] ==> recv.buf[data + size] == recv.Contents()[data + size] == rest[0];
      recv.Remove(data + size);
      reassLen := 0;
      HoldsIdle(noDefrag, rest);
      ctl, raw := Settle(noDefrag, Idle, rest).0, Settle(noDefrag, Idle, rest).1;
      if recv.buf[0] % 16 == 8 {
        sendAndClose := true;
      }
    }

    /** Puts the payload of the frame behind `front` in the clear. */
    method Unmask(at: nat, headerLen: nat, maskLen: nat, dataLen: nat, ghost front: seq<byte>)
      requires recv.Valid() && |front| == at && recv.Contents() == front + raw
      requires maskLen in {0, 4} && maskLen <= headerLen && headerLen + dataLen <= |raw|
      modifies recv.buf
      ensures recv.Contents() == (front + raw[..headerLen])
        + Payload(Header(headerLen, maskLen, dataLen), raw) + raw[headerLen + dataLen..]
    {
      hide Payload, Masked;
      PayloadParts(front, raw, Header(headerLen, maskLen, dataLen));
      if maskLen > 0 {
        var mask := recv.Contents()[at + headerLen - 4..at + headerLen];
        recv.Mask(mask, at + headerLen, dataLen, front + raw[..headerLen], raw[headerLen..headerLen + dataLen], raw[headerLen + dataLen..]);
      }
    }

    /** Handles a whole frame at `at`; `f` is what it says. */
    method TakeFrame(at: nat, headerLen: nat, maskLen: nat, dataLen: nat, reass: bool, ghost f: Frame)
      requires Valid() && at == if ctl.Open? then 1 + reassLen else 0
      requires maskLen in {0, 4} && maskLen < headerLen && headerLen + dataLen <= |raw|
      requires reass == (!noDefrag && (ctl.Open? || IsFragment(raw[0])))
      requires f == Frame(raw[0], Payload(Header(headerLen, maskLen, dataLen), raw), headerLen + dataLen)
      modifies this`reassLen, this`delivered, this`sendAndClose, this`ctl, this`raw, recv`len, recv.buf
      ensures Valid()
      ensures delivered == old(delivered) + Accept(noDefrag, old(ctl), f).out
      ensures (ctl, raw) == Settle(noDefrag, Accept(noDefrag, old(ctl), f).ctl, old(raw)[f.used..])
      ensures sendAndClose == (old(sendAndClose) || ClosesAfter(noDefrag, old(ctl), f, old(raw)))
    {
      hide Payload;
      ghost var front := if ctl.Open? then [ctl.marker] + ctl.data else [];
      assert recv.Contents() == front + raw;
      var flags := recv.Contents()[at];
      Unmask(at, headerLen, maskLen, dataLen, front);
      ghost var header, rest := raw[..headerLen], raw[f.used..];
      assert (front + header)[at] == flags;
      if reass {
        Reassemble(at, at + headerLen, dataLen, flags, front, header, f, rest);
      } else {
        TakeWhole(headerLen, dataLen, flags, front + header, f, rest);
      }
    }

    /** Takes one frame off the receive buffer, if a whole one is there.  The close flag looks at
        the first byte of the buffer after the frame was removed from it. */
    method DeliverData() returns (ok: bool)
      requires Valid()
      modifies this, recv`len, recv.buf
      ensures Valid()
      ensures ok == Decode(noDefrag, old(ctl), old(raw)).Took?
      ensures closeNow == (old(closeNow) || Decode(noDefrag, old(ctl), old(raw)).Fail?)
      ensures !ok ==> ctl == old(ctl) && raw == old(raw) && delivered == old(delivered)
      ensures ok ==> var st := Decode(noDefrag, old(ctl), old(raw));
        && delivered == old(delivered) + st.out
        && (ctl, raw) == Settle(noDefrag, st.ctl, old(raw)[st.used..])
      ensures sendAndClose == (old(sendAndClose) || ClosesAfter(noDefrag, old(ctl), ParseFrame(old(raw)), old(raw)))
    {
      hide Accept, Payload, Settle, ClosesAfter, ParseFrame, Decode, Holds, IsFragment;
      FrameTells(noDefrag, recv.Contents(), reassLen, ctl, raw);
      var over, at, headerLen, maskLen, dataLen, reass;
      ok, over, at, headerLen, maskLen, dataLen, reass := Locate();
      if over {
        closeNow := true;
      }
      if ok {
        TakeFrame(at, headerLen, maskLen, dataLen, reass, ParseFrame(raw));
      }
    }

    /** Finds the frame behind what is collected, and whether it is whole or its length overflows. */
    method Locate() returns (ok: bool, over: bool, at: nat, headerLen: nat, maskLen: nat, dataLen: nat, reass: bool)
      requires Valid()
      ensures ok == ParseFrame(raw).Frame? && over == ParseFrame(raw).Overflow?
      ensures ok ==>
        && at == (if ctl.Open? then 1 + reassLen else 0)
        && maskLen in {0, 4} && maskLen < headerLen && headerLen + dataLen <= |raw|
        && reass == (!noDefrag && (ctl.Open? || IsFragment(raw[0])))
        && ParseFrame(raw) == Frame(raw[0], Payload(Header(headerLen, maskLen, dataLen), raw), headerLen + dataLen)
    {
      hide Payload;
      var held, bufLen := recv.Contents(), recv.len;
      HeldSplit(noDefrag, held, reassLen, ctl, raw);
      at, reass := 0, bufLen > 0 && (held[0] / 128 == 0 || held[0] % 16 == 0) && !noDefrag;
      if reass && !(held[0] / 128 == 0 && held[0] % 16 != 0) && bufLen >= 1 && bufLen >= 1 + reassLen {
        at := 1 + reassLen;
        bufLen := bufLen - (1 + reassLen);
      }
      headerLen, maskLen, dataLen := ReadHeader(held[at..]);
      var frameLen := (headerLen + dataLen) % TWO_64;
      over := frameLen < headerLen || frameLen < dataLen;
      ok := 0 < frameLen <= bufLen && !over;
      FrameVerdict(raw, headerLen, dataLen);
    }

    /** Delivers frames until none is whole. */
    method DeliverAll()
      requires Valid()
      modifies this, recv`len, recv.buf
      ensures Valid()
      ensures var r := Onto(old(delivered), Drain(FrameDecoder(noDefrag), old(ctl), old(raw)));
        Run(ctl, raw, delivered, r.failed) == r && closeNow == (old(closeNow) || r.failed)
      ensures sendAndClose == (old(sendAndClose) || DrainCloses(noDefrag, old(ctl), old(raw)))
    {
      hide Drain, Decode, ClosesAfter, Settle, ParseFrame;
      ghost var r := Onto(delivered, Drain(FrameDecoder(noDefrag), ctl, raw));
      var more := true;
      while more
        invariant Valid()
        invariant more ==> Onto(delivered, Drain(FrameDecoder(noDefrag), ctl, raw)) == r
        invariant !more ==> Run(ctl, raw, delivered, r.failed) == r
        invariant closeNow == (old(closeNow) || (!more && r.failed))
        invariant (sendAndClose || (more && DrainCloses(noDefrag, ctl, raw)))
               == (old(sendAndClose) || DrainCloses(noDefrag, old(ctl), old(raw)))
        decreases more, |raw|
      {
        DrainStep(noDefrag, ctl, raw, delivered);
        ghost var st := Decode(noDefrag, ctl, raw);
        FrameTells(noDefrag, recv.Contents(), reassLen, ctl, raw);
        if st.Took? {
          SettleCloses(noDefrag, st.ctl, raw[st.used..]);
        }
        more := DeliverData();
      }
    }

    /** The receive event: the bytes are appended and everything whole is delivered. */
    method OnReceive(chunk: seq<byte>)
      requires Valid()
      modifies this, recv, recv.buf
      ensures Valid() && (recv.buf == old(recv.buf) || fresh(recv.buf))
      ensures var r := Receive(FrameDecoder(noDefrag), Run(old(ctl), old(raw), old(delivered), false), chunk);
        Run(ctl, raw, delivered, r.failed) == r && closeNow == (old(closeNow) || r.failed)
      ensures sendAndClose == (old(sendAndClose) || DrainCloses(noDefrag, old(ctl), old(raw) + chunk))
    {
      hide Drain, DrainCloses;
      SettleCloses(noDefrag, ctl, raw + chunk);
      var n := recv.Append(chunk, true);
      Appended(noDefrag, old(recv.Contents()), recv.Contents(), reassLen, ctl, raw, chunk);
      ctl, raw := Settle(noDefrag, ctl, raw + chunk).0, Settle(noDefrag, ctl, raw + chunk).1;
      DeliverAll();
    }
  }

  /** The bit of the opcode argument that keeps the message open. */
  predicate Final(op: nat)
  {
    op / 256 % 2 == 0
  }

  /** Client connections announce and append a mask; `pos` is where masked bytes will start, or
      zero for none. */
  method SendHeader(send: Buffer, op: nat, len: nat, mask: Option<seq<byte>>) returns (pos: nat)
    requires send.Valid() && len < TWO_64 && (mask.Some? ==> |mask.value| == 4)
    modifies send, send.buf
    ensures send.Valid() && (send.buf == old(send.buf) || fresh(send.buf))
    ensures send.Contents() == old(send.Contents()) + ([(if Final(op) then 128 else 0) + op % 16]
      + LengthBytes(len, mask.Some?) + if mask.Some? then mask.value else [])
    ensures pos == if mask.Some? then |send.Contents()| else 0
  {
    hide LengthBytes, Buffer.Contents;
    ghost var was := send.Contents();
    var header := BuildHeader(op, len, mask.Some?);
    var n := send.Append(header, true);
    if mask.Some? {
      Slices.Assoc3(was, header, mask.value);
      n := send.Append(mask.value, true);
      pos := send.len;
    } else {
      assert header + [] == header;
      pos := 0;
    }
  }

  /** The opcode and, unless more frames follow, the bit that says so. */
  method FirstByte(op: nat) returns (flags: byte)
    ensures flags == (if Final(op) then 128 else 0) + op % 16
  {
    flags := op % 16;
    if op / 256 % 2 == 0 {
      flags := flags + 128;
    }
  }

  method BuildHeader(op: nat, len: nat, masked: bool) returns (header: seq<byte>)
    requires len < TWO_64
    ensures header == [(if Final(op) then 128 else 0) + op % 16] + LengthBytes(len, masked)
  {
    hide Final;
    var flags := FirstByte(op);
    header := [flags];
    if len < 126 {
      header := header + [len];
    } else if len < 65535 {
      header := header + [126] + Be16(len);
    } else {
      header := header + [127] + (Be32(len / 0x1_0000_0000) + Be32(len % 0x1_0000_0000));
    }
    if masked {
      header := header[1 := header[1] + 128];
    }
  }

  /** A frame; its payload is masked where it lies in the send buffer. */
  method SendFrame(send: Buffer, op: nat, data: seq<byte>, mask: Option<seq<byte>>) returns (close: bool)
    requires send.Valid() && |data| < TWO_64 && (mask.Some? ==> |mask.value| == 4)
    modifies send, send.buf
    ensures send.Valid() && (send.buf == old(send.buf) || fresh(send.buf))
    ensures send.Contents() == old(send.Contents()) + FrameBytes(Final(op), op, mask, data)
    ensures close == (op == 8)
  {
    hide LengthBytes, FrameBytes, Masked, Final, Buffer.Contents;
    FrameInParts(send.Contents(), op, mask, data);
    var pos := SendHeader(send, op, |data|, mask);
    ghost var head := send.Contents();
    var n := send.Append(data, true);
    MaskPayload(send, pos, mask, head, data);
    close := op == 8;
  }

  /** Masks what stands behind `pos`, or nothing if that is zero. */
  method MaskPayload(send: Buffer, pos: nat, mask: Option<seq<byte>>, ghost head: seq<byte>, ghost data: seq<byte>)
    requires send.Valid() && send.Contents() == head + data && (mask.Some? ==> |mask.value| == 4)
    requires pos == (if mask.Some? then |head| else 0) && (mask.Some? ==> |head| > 0)
    modifies send.buf
    ensures send.Contents() == head + if mask.Some? then Masked(mask.value, data) else data
  {
    if pos != 0 {
      assert head + data + [] == head + data;
      send.Mask(mask.value, pos, send.len - pos, head, data, []);
      assert head + Masked(mask.value, data) + [] == head + Masked(mask.value, data);
    }
  }

  /** A frame whose payload is given in pieces, whose lengths add up to an `int`. */
  method SendFramev(send: Buffer, op: nat, parts: seq<seq<byte>>, mask: Option<seq<byte>>) returns (close: bool)
    requires send.Valid() && |Concat(parts)| < 0x8000_0000 && (mask.Some? ==> |mask.value| == 4)
    modifies send, send.buf
    ensures send.Valid() && (send.buf == old(send.buf) || fresh(send.buf))
    ensures send.Contents() == old(send.Contents()) + FrameBytes(Final(op), op, mask, Concat(parts))
    ensures close == (op == 8)
  {
    hide LengthBytes, Concat, FrameBytes, Masked, Final, Buffer.Contents;
    var len := TotalSize(parts);
    FrameInParts(send.Contents(), op, mask, Concat(parts));
    var pos := SendHeader(send, op, len, mask);
    ghost var head := send.Contents();
    SendParts(send, parts);
    MaskPayload(send, pos, mask, head, Concat(parts));
    close := op == 8;
  }

  lemma FrameInParts(was: seq<byte>, op: nat, mask: Option<seq<byte>>, data: seq<byte>)
    requires |data| < TWO_64 && (mask.Some? ==> |mask.value| == 4)
    ensures was + ([(if Final(op) then 128 else 0) + op % 16] + LengthBytes(|data|, mask.Some?)
                   + if mask.Some? then mask.value else [])
            + (if mask.Some? then Masked(mask.value, data) else data) == was + FrameBytes(Final(op), op, mask, data)
  {
    hide LengthBytes, Masked, Final;
    var head := [(if Final(op) then 128 else 0) + op % 16] + LengthBytes(|data|, mask.Some?);
    if mask.Some? {
      var masked := Masked(mask.value, data);
      Slices.Assoc3(head, mask.value, masked);
      Slices.Assoc3(was, head + mask.value, masked);
    } else {
      assert head + [] == head;
      Slices.Assoc3(was, head, data);
    }
  }

  method TotalSize(parts: seq<seq<byte>>) returns (len: nat)
    ensures len == |Concat(parts)|
  {
    hide *;
    len := 0;
    assert parts[0..] == parts;
    for i := 0 to |parts|
      invariant len + |Concat(parts[i..])| == |Concat(parts)|
    {
      ConcatStep(parts, i);
      len := len + |parts[i]|;
    }
    ConcatEnd(parts);
  }

  method SendParts(send: Buffer, parts: seq<seq<byte>>)
    requires send.Valid()
    modifies send, send.buf
    ensures send.Valid() && (send.buf == old(send.buf) || fresh(send.buf))
    ensures send.Contents() == old(send.Contents()) + Concat(parts)
  {
    hide *;
    ghost var was, now, rest := send.Contents(), send.Contents(), Concat(parts);
    assert parts[0..] == parts;
    for i := 0 to |parts|
      invariant send.Valid() && (send.buf == old(send.buf) || fresh(send.buf))
      invariant send.Contents() == now && rest == Concat(parts[i..]) && now + rest == was + Concat(parts)
    {
      ConcatStep(parts, i);
      rest := Concat(parts[i + 1..]);
      Slices.Assoc3(now, parts[i], rest);
      now := now + parts[i];
      var n := send.Append(parts[i], true);
    }
    ConcatEnd(parts);
    assert now + [] == now;
  }

  // ----- the close request -----

  /** Whether the peer asked to close: the frame just taken is a close frame. */
  predicate IsClose(f: Frame)
  {
    f.Frame? && f.flags % 16 == 8
  }

  /** `s` is the unfragmented frames `fs`, one behind the other, and then `t`, of which nothing is
      taken. */
  ghost predicate Frames(noDefrag: bool, s: seq<byte>, fs: seq<Frame>, t: seq<byte>)
    decreases |fs|
  {
    if fs == [] then s == t && !Decode(noDefrag, Idle, t).Took?
    else
      && ParseFrame(s) == fs[0] && fs[0].Frame? && fs[0].used <= |s| && (noDefrag || !IsFragment(fs[0].flags))
      && Frames(noDefrag, s[fs[0].used..], fs[1..], t)
  }

  /** A frame behind the first one is a close frame. */
  ghost predicate LateClose(fs: seq<Frame>)
  {
    exists i | 0 < i < |fs| :: IsClose(fs[i])
  }

  ghost predicate AnyClose(fs: seq<Frame>)
  {
    exists i | 0 <= i < |fs| :: IsClose(fs[i])
  }

  /** What the byte in front of the bytes left, or of the last frame if none are, says. */
  ghost predicate LastSays(fs: seq<Frame>, t: seq<byte>)
    requires fs != []
  {
    if t == [] then IsClose(fs[|fs| - 1]) else t[0] % 16 == 8
  }

  lemma LateStep(fs: seq<Frame>)
    requires |fs| > 1
    ensures LateClose(fs) <==> IsClose(fs[1]) || LateClose(fs[1..])
  {
    hide IsClose;
    var rest := fs[1..];
    assert rest[0] == fs[1];
    forall i | 0 < i < |rest| && IsClose(rest[i]) ensures IsClose(fs[i + 1]) {
    }
    forall i | 1 < i < |fs| && IsClose(fs[i]) ensures IsClose(rest[i - 1]) {
    }
    if LateClose(rest) {
      var i :| 0 < i < |rest| && IsClose(rest[i]);
      assert IsClose(fs[i + 1]);
    }
    if LateClose(fs) {
      var i :| 0 < i < |fs| && IsClose(fs[i]);
      assert i > 1 ==> IsClose(rest[i - 1]);
    }
  }

  /** A receive of unfragmented frames asks for closing exactly when a frame behind the first one is a
      close frame, or the bytes left start like one, or nothing is left and the last frame is one:
      each frame is judged by what comes to stand in front when it is gone. */
  lemma {:induction false} CloseFlagIff(noDefrag: bool, s: seq<byte>, fs: seq<Frame>, t: seq<byte>)
    requires Frames(noDefrag, s, fs, t)
    ensures DrainCloses(noDefrag, Idle, s) <==> LateClose(fs) || (fs != [] && LastSays(fs, t))
    decreases |fs|
  {
    hide ParseFrame, LateClose;
    if fs == [] {
      NoneLate(fs);
    } else {
      var f, rest, s' := fs[0], fs[1..], s[fs[0].used..];
      FlagsInFront(s);
      CloseFlagIff(noDefrag, s', rest, t);
      assert Decode(noDefrag, Idle, s) == Took(Idle, f.used, [Message(f.flags, f.data)]);
      if rest == [] {
        NoneLate(fs);
        NoneLate(rest);
      } else {
        FlagsInFront(s');
        LateStep(fs);
        assert rest[|rest| - 1] == fs[|fs| - 1];
      }
    }
  }

  lemma NoneLate(fs: seq<Frame>)
    requires |fs| <= 1
    ensures !LateClose(fs)
  {
  }

  /** Closing is asked for just when a close frame was taken, exactly if a later frame is one, or the
      first frame is one just when the bytes left start like one or, if none are, it is alone. */
  lemma CloseIsHonouredIff(noDefrag: bool, s: seq<byte>, fs: seq<Frame>, t: seq<byte>)
    requires Frames(noDefrag, s, fs, t)
    ensures (DrainCloses(noDefrag, Idle, s) <==> AnyClose(fs)) <==>
      fs == [] || LateClose(fs) || (if t == [] then |fs| == 1 || !IsClose(fs[0]) else (t[0] % 16 == 8) == IsClose(fs[0]))
  {
    hide DrainCloses, IsClose;
    CloseFlagIff(noDefrag, s, fs, t);
    if LateClose(fs) {
      var i :| 0 < i < |fs| && IsClose(fs[i]);
      assert AnyClose(fs);
    } else if fs != [] {
      assert AnyClose(fs) <==> IsClose(fs[0]);
    }
  }

  /** A close frame with a text frame behind it in the same receive: when all is delivered the request
      was missed. */
  lemma CloseCanBeMissed()
    ensures var close, text := FrameBytes(true, 8, None, []), FrameBytes(true, 1, None, []);
      IsClose(ParseFrame(close + text)) && !DrainCloses(false, Idle, close + text)
  {
    hide DrainCloses, FrameBytes, ParseFrame, Decode;
    var close, text := FrameBytes(true, 8, None, []), FrameBytes(true, 1, None, []);
    ParseFrameInverts(true, 8, None, [], text);
    ParseFrameInverts(true, 1, None, [], []);
    assert text + [] == text && (close + text)[|close|..] == text && text[|text|..] == [];
    TooShort([]);
    OneFrame(text, ParseFrame(text), []);
    var fs := [ParseFrame(close + text), ParseFrame(text)];
    assert fs[1..] == [ParseFrame(text)];
    CloseFlagIff(false, close + text, fs, []);
    NoLateClose(fs);
  }

  lemma NoLateClose(fs: seq<Frame>)
    requires |fs| == 2 && !IsClose(fs[1])
    ensures !LateClose(fs)
  {
  }

  lemma OneFrame(s: seq<byte>, f: Frame, t: seq<byte>)
    requires ParseFrame(s) == f && f.Frame? && !IsFragment(f.flags) && f.used <= |s| && s[f.used..] == t
    requires !Decode(false, Idle, t).Took?
    ensures Frames(false, s, [f], t)
  {
    hide Decode, ParseFrame;
    assert [f][1..] == [];
  }

  lemma TooShort(s: seq<byte>)
    requires |s| < 2 && (s != [] ==> s[0] % 16 != 0)
    ensures ParseFrame(s).Partial? && Decode(false, Idle, s) == Wait
  {
  }

  /** A text frame and the first byte of a close frame: closing is asked for before the close frame
      has arrived. */
  lemma CloseCanBeEarly()
    ensures var text := FrameBytes(true, 1, None, []);
      DrainCloses(false, Idle, text + [0x88]) && ParseFrame([0x88]).Partial?
  {
    hide DrainCloses, ParseFrame, Decode;
    var text := FrameBytes(true, 1, None, []);
    var s, f := text + [0x88], ParseFrame(text + [0x88]);
    ParseFrameInverts(true, 1, None, [], [0x88]);
    TooShort([0x88]);
    assert s[|text|..] == [0x88];
    OneFrame(s, f, [0x88]);
    CloseFlagIff(false, s, [f], [0x88]);
  }

  // ----- from one end to the other -----

  /** One frame of a message; `fin` is its last. */
  method SendFragment(send: Buffer, fin: bool, op: nat, f: Fragment)
    requires send.Valid() && Sendable(f)
    modifies send, send.buf
    ensures send.Valid() && (send.buf == old(send.buf) || fresh(send.buf))
    ensures send.Contents() == old(send.Contents()) + FrameBytes(fin, op, f.mask, f.data)
  {
    hide LengthBytes, Buffer.Contents;
    var arg := op % 16 + if fin then 0 else 256;
    OneFragment(fin, op, f);
    var close := SendFrame(send, arg, f.data, f.mask);
  }

  lemma OneFragment(fin: bool, op: nat, f: Fragment)
    requires Sendable(f)
    ensures var arg := op % 16 + if fin then 0 else 256;
      Final(arg) == fin && FrameBytes(Final(arg), arg, f.mask, f.data) == FrameBytes(fin, op, f.mask, f.data)
  {
    hide LengthBytes;
  }

  method SendMessage(send: Buffer, m: Outgoing)
    requires send.Valid() && SendableMessage(m)
    modifies send, send.buf
    ensures send.Valid() && (send.buf == old(send.buf) || fresh(send.buf))
    ensures send.Contents() == old(send.Contents()) + MessageBytes(m)
  {
    hide FrameBytes, Buffer.Contents;
    var fs := m.fragments;
    ghost var was, head := send.Contents(), FrameBytes(|fs| == 1, m.op, fs[0].mask, fs[0].data);
    SendFragment(send, |fs| == 1, m.op, fs[0]);
    ghost var now := send.Contents();
    Slices.Assoc3(was, head, TailBytes(fs[1..]));
    for i := 1 to |fs|
      invariant send.Valid() && (send.buf == old(send.buf) || fresh(send.buf))
      invariant send.Contents() == now && now + TailBytes(fs[i..]) == was + MessageBytes(m)
    {
      assert fs[i..][0] == fs[i] && fs[i..][1..] == fs[i + 1..];
      ghost var w := FrameBytes(i + 1 == |fs|, 0, fs[i].mask, fs[i].data);
      Slices.Assoc3(now, w, TailBytes(fs[i + 1..]));
      SendFragment(send, i + 1 == |fs|, 0, fs[i]);
      now := now + w;
    }
    assert fs[|fs|..] == [] && now + [] == now;
  }

  ghost predicate AllMessages(ms: seq<Outgoing>)
  {
    forall i | 0 <= i < |ms| :: SendableMessage(ms[i])
  }

  method SendMessages(send: Buffer, ms: seq<Outgoing>)
    requires send.Valid() && AllMessages(ms)
    modifies send, send.buf
    ensures send.Valid() && (send.buf == old(send.buf) || fresh(send.buf))
    ensures send.Contents() == old(send.Contents()) + StreamBytes(ms)
  {
    hide MessageBytes, SendableMessage, Buffer.Contents;
    ghost var was, now := send.Contents(), send.Contents();
    assert ms[0..] == ms;
    for i := 0 to |ms|
      invariant send.Valid() && (send.buf == old(send.buf) || fresh(send.buf))
      invariant send.Contents() == now && now + StreamBytes(ms[i..]) == was + StreamBytes(ms)
    {
      assert ms[i..][0] == ms[i] && ms[i..][1..] == ms[i + 1..];
      Slices.Assoc3(now, MessageBytes(ms[i]), StreamBytes(ms[i + 1..]));
      SendMessage(send, ms[i]);
      now := now + MessageBytes(ms[i]);
    }
    assert ms[|ms|..] == [] && now + [] == now;
  }

  /** One receive event after the other. */
  method ReceiveChunks(c: Connection, chunks: seq<seq<byte>>)
    requires c.Valid()
    modifies c, c.recv, c.recv.buf
    ensures c.Valid()
    ensures var m, start := FrameDecoder(c.noDefrag), Run(old(c.ctl), old(c.raw), old(c.delivered), false);
      var r := ReceiveAll(m, start, chunks);
      Run(c.ctl, c.raw, c.delivered, r.failed) == r && c.closeNow == (old(c.closeNow) || AnyFailed(m, start, chunks))
    ensures c.sendAndClose == (old(c.sendAndClose) || AnyCloses(c.noDefrag, old(c.ctl), old(c.raw), chunks))
  {
    hide FrameDecoder, Buffer.Contents, Receive, Holds, DrainCloses, AnyCloses;
    ghost var m, start := FrameDecoder(c.noDefrag), Run(c.ctl, c.raw, c.delivered, false);
    ghost var r := start;
    assert chunks[0..] == chunks;
    for i := 0 to |chunks|
      invariant c.Valid() && (c.recv.buf == old(c.recv.buf) || fresh(c.recv.buf))
      invariant Run(c.ctl, c.raw, c.delivered, r.failed) == r
      invariant ReceiveAll(m, r, chunks[i..]) == ReceiveAll(m, start, chunks)
      invariant (c.closeNow || AnyFailed(m, r, chunks[i..])) == (old(c.closeNow) || AnyFailed(m, start, chunks))
      invariant (c.sendAndClose || AnyCloses(c.noDefrag, r.ctl, r.rest, chunks[i..]))
             == (old(c.sendAndClose) || AnyCloses(c.noDefrag, start.ctl, start.rest, chunks))
    {
      AnyClosesStep(c.noDefrag, r.(failed := false), chunks, i);
      VerdictIsForgotten(m, r, chunks[i..], false);
      ReceiveAllStep(m, r.(failed := false), chunks, i);
      r := Receive(m, r.(failed := false), chunks[i]);
      c.OnReceive(chunks[i]);
    }
    assert chunks[|chunks|..] == [];
    NoneCloses(c.noDefrag, r.ctl, r.rest);
  }

  lemma NoneCloses(noDefrag: bool, c: Ctl, held: seq<byte>)
    ensures !AnyCloses(noDefrag, c, held, [])
  {
  }

  /** Messages sent at one end, cut after any numbers of bytes on the way, are delivered at the other
      end exactly once each, whole and in order. */
  method Exchange(ms: seq<Outgoing>, sizes: seq<nat>) returns (delivered: seq<Message>)
    requires AllMessages(ms)
    ensures delivered == DeliveredAll(ms)
  {
    hide StreamBytes, ReceiveAll, AnyFailed, FrameDecoder, SendableMessage, Holds, DeliveredAll;
    var send := new Buffer(0);
    var recv := new Buffer(0);
    SendMessages(send, ms);
    assert [] + StreamBytes(ms) == StreamBytes(ms);
    var chunks := Cut(send.Contents(), sizes);
    StreamTheorem(ms, chunks);
    var c := new Connection(false, recv);
    ReceiveChunks(c, chunks);
    delivered := c.delivered;
  }
}
