/**
  The chunked receiver as it runs: chunk data is moved down over the chunk headers, inside the
  receive buffer, behind the message headers and the body collected so far.
 */
module ChunkedConnection {
  import opened Bytes
  import opened Mbuf
  import opened Streams
  import opened Chunked
  import Slices

  /** The hexadecimal number at the front of `s`, wrapped at `width`, and how many digits it has. */
  method ReadHex(width: nat, s: seq<byte>) returns (i: nat, n: nat)
    requires width > 0
    ensures i == HexSpan(s) && n == HexValue(s[..i]) % width
  {
    i, n := 0, 0;
    SmallMod(0, width);
    while i < |s| && IsHex(s[i])
      invariant i <= |s| && HexSpan(s) == i + HexSpan(s[i..])
      invariant forall k | 0 <= k < i :: IsHex(s[k])
      invariant n == HexValue(s[..i]) % width
    {
      assert s[i..][1..] == s[i + 1..];
      assert s[..i + 1][..i] == s[..i];
      WrapDigit(HexValue(s[..i]), HexDigit(s[i]), width);
      var digit := ReadDigit(s[i]);
      n := (16 * n + digit) % width;
      i := i + 1;
    }
  }

  /** The value of a digit, letters taken in lower case. */
  method ReadDigit(b: byte) returns (d: nat)
    requires IsHex(b)
    ensures d == HexDigit(b)
  {
    var lower: int := if 'A' as byte <= b <= 'Z' as byte then b + 32 else b;
    if '0' as byte <= b <= '9' as byte {
      d := b - '0' as byte;
    } else {
      d := lower - 'a' as int + 10;
    }
  }

  lemma WrapDigit(v: nat, d: nat, width: nat)
    requires width > 0
    ensures (16 * (v % width) + d) % width == (16 * v + d) % width
  {
    var q, n := v / width, v % width;
    assert v == q * width + n;
    assert 16 * v + d == (16 * q) * width + (16 * n + d);
    ModShift(16 * q, 16 * n + d, width);
  }

  /** Length of the chunk at the front of `s`, or zero; and where its data is. Sums wrap at `width`:
      a wild chunk has a length, and a size that no memory holds. */
  method ReadChunk(width: nat, s: seq<byte>) returns (n: nat, start: nat, size: nat)
    requires |s| + 2 < width
    ensures match ParseChunkAt(width, s)
      case NoChunk => n == 0
      case Chunk(st, sz) => start == st && size == sz && n == start + size + 2
      case Wild => 0 < n <= |s| && start + size >= width
  {
    hide HexSpan, HexValue;
    var i;
    n, start := 0, 0;
    i, size := ReadHex(width, s);
    if i == 0 || i + 2 > |s| || s[i] != CR || s[i + 1] != LF {
      return;
    }
    start := i + 2;
    WrapSplits(width, start, size);
    SmallMod(size, width);
    i := (start + size) % width;
    if i == 0 || (i + 2) % width > |s| {
      if i != 0 {
        BigPlace(i, |s|, width);
      }
      return;
    }
    if i + 2 > |s| {
      // Here the source compares bytes outside the buffer, and answers zero whatever they are.
      return;
    }
    if s[i] != CR || s[i + 1] != LF {
      return;
    }
    n := i + 2;
  }

  lemma BigPlace(i: nat, len: nat, width: nat)
    requires 0 < i < width && (i + 2) % width > len && len + 2 < width
    ensures i + 2 > len
  {
    SmallMod(i + 2, width);
  }

  /** The decoder, one chunk at a time. */
  lemma ChunkStep(width: nat, rest: seq<byte>, out: seq<byte>)
    requires width > 0
    ensures var c, r := ParseChunkAt(width, rest), Onto(out, Drain(ChunkDecoderAt(width), Reading, rest));
      match c
      case NoChunk => r == Run(Reading, rest, out, false)
      case Wild => r == Run(Reading, rest, out, true)
      case Chunk(start, size) =>
        var out', rest' := out + rest[start..start + size], rest[start + size + 2..];
        r == if size == 0 then Run(Finished, rest', out', false) else Onto(out', Drain(ChunkDecoderAt(width), Reading, rest'))
  {
    hide ParseChunkAt, Drain;
    var c, m := ParseChunkAt(width, rest), ChunkDecoderAt(width);
    assert m(Reading, rest) == DecodeAt(width, Reading, rest);
    DrainUnfold(m, Reading, rest, out);
    if c.Chunk? && c.size == 0 {
      var out', rest' := out + rest[c.start..c.start + c.size], rest[c.start + c.size + 2..];
      assert m(Finished, rest') == Wait;
      DrainUnfold(m, Finished, rest', out');
    }
  }

  class Receiver {
    /** Where sizes wrap around. */
    const width: nat
    const recv: Buffer
    /** How many bytes of the receive buffer are message headers. */
    const reqLen: nat
    var bodyLen: nat
    /** Body bytes handed over and deleted at the handler's request. */
    var deleted: seq<byte>
    ghost var head: seq<byte>
    ghost var body: seq<byte>
    ghost var raw: seq<byte>
    ghost var ctl: Ctl

    ghost predicate Valid()
      reads this, recv, recv.buf
    {
      && recv.Valid() && recv.len + 2 < width && |head| == reqLen && |body| == bodyLen
      && recv.Contents() == head + body + raw
    }

    constructor (width: nat, recv: Buffer)
      requires recv.Valid() && recv.len + 2 < width
      ensures Valid() && this.width == width && this.recv == recv && head == recv.Contents() && body == [] && raw == []
      ensures ctl == Reading && deleted == []
    {
      this.width, this.recv, reqLen := width, recv, recv.len;
      bodyLen, deleted := 0, [];
      head, body, raw, ctl := recv.Contents(), [], [], Reading;
    }

    /** Moves the data of a chunk at `i` down to the end of the body. */
    method TakeChunk(end: nat, i: nat, start: nat, size: nat, ghost front: seq<byte>, ghost gap: seq<byte>, ghost rest: seq<byte>)
      returns (ghost gap': seq<byte>)
      requires recv.Valid() && recv.Contents() == front + gap + rest
      requires reqLen + end == |front| && reqLen + i == |front| + |gap| && start + size + 2 <= |rest|
      modifies recv.buf
      ensures recv.Valid() && recv.Contents() == (front + rest[start..start + size]) + gap' + rest[start + size + 2..]
    {
      ghost var data, tail := rest[start..start + size], rest[start + size..];
      ghost var after := rest[start + size + 2..];
      Slices.Thirds(rest, start, start + size);
      assert tail == tail[..2] + after;
      assert recv.Contents() == front + (gap + rest[..start]) + data + tail;
      ghost var g := recv.Pull(reqLen + end, reqLen + i + start, size, front, gap + rest[..start], data, tail);
      gap' := g + tail[..2];
      assert front + data + g + tail == (front + data) + gap' + after;
    }

    /** Collapses the whole chunks behind the collected body.  Counted from the end of the headers,
        the body now ends at `end` and the bytes not looked at start at `i`.  At a wild chunk the
        source moves more bytes than there are; nothing is said of what follows. */
    method Collapse() returns (end: nat, i: nat, zero: bool, wild: bool, ghost gap: seq<byte>)
      requires Valid() && ctl == Reading
      modifies recv.buf
      ensures recv.Valid() && |gap| == i - end
      ensures var d := Drain(ChunkDecoderAt(width), Reading, raw);
        && end == bodyLen + |d.out| && zero == d.ctl.Finished? && wild == d.failed
        && recv.Contents() == (head + body + d.out) + gap + d.rest
        && (gap == [] ==> d == Run(Reading, raw, [], wild))
    {
      hide Drain, ParseChunkAt, ChunkDecoderAt, Onto, Buffer.Contents;
      end, i, zero, wild, gap := bodyLen, bodyLen, false, false, [];
      ghost var base := head + body;
      ghost var front, out, rest := base, [], raw;
      ghost var d := Onto([], Drain(ChunkDecoderAt(width), Reading, raw));
      assert base + [] == base && base + [] + raw == base + raw;
      var more := true;
      while more
        invariant recv.Valid() && recv.Contents() == front + gap + rest && front == base + out
        invariant end == bodyLen + |out| && i == end + |gap|
        invariant gap == [] ==> rest == raw && out == [] && !zero
        invariant if more then !zero && !wild && Onto(out, Drain(ChunkDecoderAt(width), Reading, rest)) == d
                  else d == Run(if zero then Finished else Reading, rest, out, wild)
        decreases more, |rest|
      {
        ChunkStep(width, rest, out);
        Slices.Middle(front, gap, rest);
        var n, start, size := ReadChunk(width, recv.Contents()[reqLen + i..]);
        if n == 0 {
          more := false;
        } else if start + size >= width {
          wild, more := true, false;
        } else {
          ghost var data, rest' := rest[start..start + size], rest[start + size + 2..];
          Slices.Assoc3(base, out, data);
          gap := TakeChunk(end, i, start, size, front, gap, rest);
          front, out, rest := front + data, out + data, rest';
          end, i := end + size, i + n;
          zero := size == 0;
          more := !zero;
        }
      }
      OntoNothing(Drain(ChunkDecoderAt(width), Reading, raw));
    }

    /** Moves the bytes not looked at down to the end of the body. */
    method Shift(end: nat, i: nat, ghost d: Run<Ctl, byte>, ghost gap: seq<byte>)
      requires recv.Valid() && |head| == reqLen && |body| + |d.out| == end && |gap| == i - end
      requires recv.Contents() == (head + body + d.out) + gap + d.rest && recv.len + 2 < width
      modifies this`bodyLen, this`body, this`raw, this`ctl, recv`len, recv.buf
      ensures Valid() && body == old(body) + d.out && raw == d.rest && ctl == d.ctl
    {
      hide Buffer.Contents;
      ghost var front := head + body + d.out;
      Slices.Middle(front, gap, d.rest);
      recv.Close(reqLen + end, reqLen + i);
      bodyLen := end;
      Slices.Assoc3(head, body, d.out);
      body, raw, ctl := body + d.out, d.rest, d.ctl;
    }

    /** Drops the collected body from the buffer. */
    method DeleteBody()
      requires Valid()
      modifies this`deleted, this`bodyLen, this`body, recv`len, recv.buf
      ensures Valid() && body == [] && deleted == old(deleted) + old(body)
    {
      hide Buffer.Contents;
      Slices.Middle(head, body, raw);
      deleted := deleted + recv.Contents()[reqLen..reqLen + bodyLen];
      recv.Close(reqLen, reqLen + bodyLen);
      bodyLen := 0;
      body := [];
      assert head + [] + raw == head + raw;
    }

    /** Decodes everything whole.  When a chunk was found the handler is called, and may ask for the
        collected body to be deleted (`delete`).  After the empty chunk the length of the message is
        set to all that is left in the buffer.  A wild chunk ends what is promised. */
    method HandleChunked(delete: bool) returns (wild: bool, messageLen: Option<nat>)
      requires Valid() && ctl == Reading
      modifies this, recv`len, recv.buf
      ensures wild == Drain(ChunkDecoderAt(width), Reading, old(raw)).failed
      ensures !wild ==> Valid() && head == old(head) && recv.len <= old(recv.len)
      ensures var r := Onto(old(deleted) + old(body), Drain(ChunkDecoderAt(width), Reading, old(raw)));
        !wild ==> Run(ctl, raw, deleted + body, false) == r
      ensures !wild ==> raw == old(raw) || (if delete then body == [] else deleted == old(deleted))
      ensures !wild && raw == old(raw) ==> deleted == old(deleted)
      ensures !wild ==> messageLen == if ctl.Finished? then Some(recv.len) else None
    {
      hide Drain, ChunkDecoderAt, Buffer.Contents;
      ghost var d := Drain(ChunkDecoderAt(width), Reading, raw);
      var blen := recv.len - reqLen;
      var end, i, zero;
      ghost var gap;
      end, i, zero, wild, gap := Collapse();
      messageLen := None;
      if wild {
        return;
      }
      assert old(deleted) + old(body) + d.out == old(deleted) + (old(body) + d.out);
      if i > end {
        Shift(end, i, d, gap);
        if delete {
          DeleteBody();
        }
        if zero {
          messageLen := Some(bodyLen + (blen - i) + reqLen);
        }
      }
    }

    /** The receive event, while the body is being read. */
    method OnReceive(chunk: seq<byte>, delete: bool) returns (wild: bool, messageLen: Option<nat>)
      requires Valid() && ctl == Reading && recv.len + |chunk| + 2 < width
      modifies this, recv, recv.buf
      ensures recv.buf == old(recv.buf) || fresh(recv.buf)
      ensures var r := Receive(ChunkDecoderAt(width), Run(Reading, old(raw), old(deleted) + old(body), false), chunk);
        wild == r.failed && (!wild ==> Run(ctl, raw, deleted + body, false) == r)
      ensures !wild ==> Valid() && head == old(head) && recv.len <= old(recv.len) + |chunk|
      ensures !wild ==> messageLen == if ctl.Finished? then Some(recv.len) else None
    {
      hide Drain, ChunkDecoderAt, Buffer.Contents;
      var n := recv.Append(chunk, true);
      assert (head + body + raw) + chunk == head + body + (raw + chunk);
      raw := raw + chunk;
      wild, messageLen := HandleChunked(delete);
    }
  }

  /** One chunk behind what waits to be sent; the empty chunk ends the body. */
  method SendChunk(send: Buffer, data: seq<byte>)
    requires send.Valid()
    modifies send, send.buf
    ensures send.Valid() && (send.buf == old(send.buf) || fresh(send.buf))
    ensures send.Contents() == old(send.Contents()) + ChunkBytes(data)
  {
    hide UpperHex;
    ghost var was := send.Contents();
    var head := UpperHex(|data|) + CRLF;
    var n := send.Append(head, true);
    n := send.Append(data, true);
    n := send.Append(CRLF, true);
    Slices.Assoc(was, head, data, CRLF);
  }

  // ----- from one end to the other -----

  /** Chunks and the empty chunk behind them. */
  method SendBody(send: Buffer, chunks: seq<seq<byte>>)
    requires send.Valid()
    modifies send, send.buf
    ensures send.Valid() && (send.buf == old(send.buf) || fresh(send.buf))
    ensures send.Contents() == old(send.Contents()) + BodyBytes(chunks)
  {
    hide ChunkBytes, Buffer.Contents;
    ghost var was, now := send.Contents(), send.Contents();
    assert chunks[0..] == chunks;
    for i := 0 to |chunks|
      invariant send.Valid() && (send.buf == old(send.buf) || fresh(send.buf))
      invariant send.Contents() == now && now + BodyBytes(chunks[i..]) == was + BodyBytes(chunks)
    {
      assert chunks[i..][0] == chunks[i] && chunks[i..][1..] == chunks[i + 1..];
      Slices.Assoc3(now, ChunkBytes(chunks[i]), BodyBytes(chunks[i + 1..]));
      SendChunk(send, chunks[i]);
      now := now + ChunkBytes(chunks[i]);
    }
    assert chunks[|chunks|..] == [];
    SendChunk(send, []);
  }

  /** One receive event after the other, until the body has ended; `n` were used. */
  method ReceiveBody(r: Receiver, receives: seq<seq<byte>>, delete: bool) returns (wild: bool, n: nat)
    requires r.Valid() && r.ctl == Reading && r.recv.len + |Concat(receives)| + 2 < r.width
    modifies r, r.recv, r.recv.buf
    ensures n <= |receives|
    ensures var m, start := ChunkDecoderAt(r.width), Run(Reading, old(r.raw), old(r.deleted) + old(r.body), false);
      if wild then AnyFailed(m, start, receives)
      else r.Valid() && (n < |receives| ==> r.ctl == Finished) &&
           ReceiveAll(m, Run(r.ctl, r.raw, r.deleted + r.body, false), receives[n..]) == ReceiveAll(m, start, receives)
  {
    hide ChunkDecoderAt, Buffer.Contents, Receive, Concat;
    ghost var m, start := ChunkDecoderAt(r.width), Run(Reading, r.raw, r.deleted + r.body, false);
    ghost var now := start;
    wild, n := false, 0;
    var more := true;
    assert receives[0..] == receives;
    while more && n < |receives|
      invariant r.Valid() && (r.recv.buf == old(r.recv.buf) || fresh(r.recv.buf)) && n <= |receives| && !wild
      invariant more == r.ctl.Reading? && Run(r.ctl, r.raw, r.deleted + r.body, false) == now
      invariant r.recv.len + |Concat(receives[n..])| + 2 < r.width
      invariant ReceiveAll(m, now, receives[n..]) == ReceiveAll(m, start, receives)
      invariant AnyFailed(m, now, receives[n..]) ==> AnyFailed(m, start, receives)
      decreases |receives| - n
    {
      ReceiveAllStep(m, now, receives, n);
      ConcatStep(receives, n);
      now := Receive(m, now, receives[n]);
      var len;
      wild, len := r.OnReceive(receives[n], delete);
      n := n + 1;
      if wild {
        return;
      }
      more := len.None?;
    }
  }

  /** A body sent in chunks, cut after any numbers of bytes on the way, is the body received, whether
      or not it is deleted as it arrives. */
  method Exchange(width: nat, chunks: seq<seq<byte>>, sizes: seq<nat>, delete: bool) returns (body: seq<byte>)
    requires Sendable(width, chunks) && |BodyBytes(chunks)| + 2 < width
    ensures body == Concat(chunks)
  {
    hide ChunkDecoderAt, BodyBytes, Sendable, ReceiveAll, AnyFailed, Progress, Stable, Drain;
    var send := new Buffer(0);
    var recv := new Buffer(0);
    SendBody(send, chunks);
    assert [] + BodyBytes(chunks) == BodyBytes(chunks);
    var receives := Cut(send.Contents(), sizes);
    ArrivesWhole(width, chunks, receives);
    var r := new Receiver(width, recv);
    var wild, n := ReceiveBody(r, receives, delete);
    ghost var done := Run(r.ctl, r.raw, r.deleted + r.body, false);
    if r.ctl == Finished {
      FinishedStays(width, done, receives[n..]);
    } else {
      NoReceives(width, done, receives);
    }
    body := r.deleted + r.recv.Contents()[r.reqLen..r.reqLen + r.bodyLen];
    Slices.Middle(r.head, r.body, r.raw);
  }

  lemma NoReceives(width: nat, r: Run<Ctl, byte>, receives: seq<seq<byte>>)
    requires width > 0
    ensures ReceiveAll(ChunkDecoderAt(width), r, receives[|receives|..]) == r
  {
    assert receives[|receives|..] == [];
  }

  lemma ArrivesWhole(width: nat, chunks: seq<seq<byte>>, receives: seq<seq<byte>>)
    requires Sendable(width, chunks) && Concat(receives) == BodyBytes(chunks)
    ensures width > 0
    ensures ReceiveAll(ChunkDecoderAt(width), Run(Reading, [], [], false), receives) == Run(Finished, [], Concat(chunks), false)
    ensures !AnyFailed(ChunkDecoderAt(width), Run(Reading, [], [], false), receives)
  {
    hide ChunkDecoderAt, BodyBytes, ReceiveAll, Progress, Stable, Drain;
    var m := ChunkDecoderAt(width);
    assert BodyBytes(chunks) + [] == BodyBytes(chunks);
    BodyTheorem(width, chunks, [], receives);
    DrainBody(width, chunks, []);
    DecoderIsStream(width);
    NothingYet(width);
    assert [] + Concat(receives) == Concat(receives);
    if AnyFailed(m, Run(Reading, [], [], false), receives) {
      AnyFailedShows(m, Reading, [], receives);
    }
  }
}
