/**
  The control port's line editor: what typing does to the line, one byte at a time, and that the
  reader, which edits its buffer in place read by read, does just that for every cut of the input.
 */
module LineEditor {
  import opened Bytes
  import Slices

  const INBUF_SIZE := 255

  /** What the controller does in answer: output to the connection, or a command carried out. */
  datatype Event = Echo(text: seq<byte>) | Command(line: seq<byte>)

  /** The line typed so far and everything done so far. */
  datatype Typing = Typing(line: seq<byte>, events: seq<Event>)

  const NUL: byte := 0
  const LF: byte := 10
  const CR: byte := 13
  const BS: byte := 8
  const DEL: byte := 127

  const RUBOUT: seq<byte> := [8, 32, 8]
  const NEWLINE: seq<byte> := [10, 13]
  /** "Input line too long", newline, return. */
  const TOO_LONG: seq<byte> :=
    [73, 110, 112, 117, 116, 32, 108, 105, 110, 101, 32, 116, 111, 111, 32, 108, 111, 110, 103, 10, 13]

  /** One byte typed. */
  function Type(t: Typing, b: byte): (t': Typing)
    ensures |t'.line| <= |t.line| + 1
  {
    if b == NUL || b == LF then t
    else if b == BS || b == DEL then
      if t.line == [] then t else Typing(t.line[..|t.line| - 1], t.events + [Echo(RUBOUT)])
    else if b == CR then Typing([], t.events + [Echo(NEWLINE), Command(t.line)])
    else Typing(t.line + [b], t.events + [Echo([b])])
  }

  /** A full line is thrown away. */
  function Reset(t: Typing): (t': Typing)
  {
    if |t.line| == INBUF_SIZE then Typing([], t.events + [Echo(TOO_LONG)]) else t
  }

  /** Bytes typed one after the other. */
  function TypeAll(t: Typing, s: seq<byte>): (t': Typing)
    decreases |s|
  {
    if s == [] then t else TypeAll(Type(t, s[0]), s[1..])
  }

  /** The automaton: a byte typed on a full line starts a new one. */
  function Automaton(t: Typing, s: seq<byte>): (t': Typing)
    decreases |s|
  {
    if s == [] then t else Automaton(Type(Reset(t), s[0]), s[1..])
  }

  /** One read event: on a full buffer the line is dropped and nothing is read; otherwise the bytes
      read, of which there are at most as many as there is room for, are typed. */
  function ReadEvent(t: Typing, s: seq<byte>): (t': Typing)
  {
    if |t.line| == INBUF_SIZE then Reset(t) else TypeAll(t, s)
  }

  /** A run of reads.  A read on a full buffer takes no bytes and is followed by one that does. */
  function Reads(t: Typing, chunks: seq<seq<byte>>): (t': Typing)
    decreases |chunks|
  {
    if chunks == [] then t
    else if |t.line| == INBUF_SIZE then Reads(ReadEvent(ReadEvent(t, []), chunks[0]), chunks[1..])
    else Reads(ReadEvent(t, chunks[0]), chunks[1..])
  }

  /** Every read asks for no more than the buffer has room for. */
  ghost predicate Readable(t: Typing, chunks: seq<seq<byte>>)
    decreases |chunks|
  {
    chunks == [] ||
    (|Reset(t).line| + |chunks[0]| <= INBUF_SIZE && Readable(TypeAll(Reset(t), chunks[0]), chunks[1..]))
  }

  // ----- what the keys do -----

  /** A byte that stands for itself. */
  predicate IsText(b: byte)
  {
    b != 0 && b != 10 && b != '\r' as byte && b != 8 && b != 127
  }

  function Echoes(s: seq<byte>): (es: seq<Event>)
  {
    seq(|s|, i requires 0 <= i < |s| => Echo([s[i]]))
  }

  /** Text is added to the line and echoed byte by byte. */
  lemma {:induction false} TextIsTyped(t: Typing, s: seq<byte>)
    requires forall i | 0 <= i < |s| :: IsText(s[i])
    ensures TypeAll(t, s) == Typing(t.line + s, t.events + Echoes(s))
    decreases |s|
  {
    if s == [] {
      assert t.line + s == t.line && t.events + Echoes(s) == t.events;
    } else {
      TextIsTyped(Type(t, s[0]), s[1..]);
      assert t.line + [s[0]] + s[1..] == t.line + s;
      assert t.events + [Echo([s[0]])] + Echoes(s[1..]) == t.events + Echoes(s);
    }
  }

  /** Return carries out the line typed, whatever was typed before it on the same line. */
  lemma ReturnCarriesOut(t: Typing, s: seq<byte>)
    requires forall i | 0 <= i < |s| :: IsText(s[i])
    ensures TypeAll(t, s + ['\r' as byte]) ==
      Typing([], t.events + Echoes(s) + [Echo(['\n' as byte, '\r' as byte]), Command(t.line + s)])
  {
    TextIsTyped(t, s);
    TypeMore(t, s, ['\r' as byte]);
    hide Echoes;
    assert ['\r' as byte][1..] == [];
  }

  lemma {:induction false} TypeMore(t: Typing, a: seq<byte>, b: seq<byte>)
    ensures TypeAll(t, a + b) == TypeAll(TypeAll(t, a), b)
    decreases |a|
  {
    hide Type;
    if a == [] {
      assert a + b == b;
    } else {
      assert (a + b)[1..] == a[1..] + b;
      TypeMore(Type(t, a[0]), a[1..], b);
    }
  }

  /** Backspace and delete take back what was typed, on the line and on the screen; on an empty line they
      do nothing, and zero bytes and newlines never do. */
  lemma RuboutTakesBack(t: Typing, b: byte, key: byte)
    requires IsText(b) && (key == 8 || key == 127)
    ensures TypeAll(t, [b, key]) == Typing(t.line, t.events + [Echo([b]), Echo([8, ' ' as byte, 8])])
    ensures t.line == [] ==> Type(t, key) == t
    ensures Type(t, 0) == t && Type(t, '\n' as byte) == t
  {
    var u := Type(t, b);
    assert [b, key][1..] == [key] && [key][1..] == [];
    assert TypeAll(u, [key]) == Type(u, key);
    assert (t.line + [b])[..|t.line|] == t.line;
    assert t.events + [Echo([b])] + [Echo([8, 32, 8])] == t.events + [Echo([b]), Echo([8, 32, 8])];
  }

  /** A line of 255 bytes is thrown away before the next byte, with a message; a shorter one is not. */
  lemma FullLine(t: Typing, b: byte)
    requires IsText(b)
    ensures |t.line| == 255 ==>
      Automaton(t, [b]) == Typing([b], t.events + [Echo(Ascii("Input line too long\n\r")), Echo([b])])
    ensures |t.line| < 255 ==> Automaton(t, [b]) == Typing(t.line + [b], t.events + [Echo([b])])
  {
    assert [b][1..] == [] && [] + [b] == [b];
    assert TOO_LONG == Ascii("Input line too long\n\r");
    assert t.events + [Echo(TOO_LONG)] + [Echo([b])] == t.events + [Echo(TOO_LONG), Echo([b])];
  }

  /** Within one read the line cannot fill up before its last byte. */
  lemma {:induction false} OneRead(t: Typing, s: seq<byte>)
    requires |t.line| + |s| <= INBUF_SIZE
    ensures Automaton(t, s) == TypeAll(t, s)
    decreases |s|
  {
    if s != [] {
      OneRead(Type(t, s[0]), s[1..]);
    }
  }

  lemma {:induction false} AutomatonConcat(t: Typing, a: seq<byte>, b: seq<byte>)
    ensures Automaton(t, a + b) == Automaton(Automaton(t, a), b)
    decreases |a|
  {
    if a == [] {
      assert a + b == b;
    } else {
      assert (a + b)[1..] == a[1..] + b;
      AutomatonConcat(Type(Reset(t), a[0]), a[1..], b);
    }
  }

  lemma AutomatonReset(t: Typing, s: seq<byte>)
    ensures Reset(Automaton(Reset(t), s)) == Reset(Automaton(t, s))
  {
    hide Type;
  }

  /** However the input is cut into reads, the commands carried out and the output sent are those of
      the automaton on the whole input, once a pending overflow has been reported. */
  lemma {:induction false} ReadsAreTheAutomaton(t: Typing, chunks: seq<seq<byte>>)
    requires Readable(t, chunks)
    ensures Reset(Reads(t, chunks)) == Reset(Automaton(t, Concat(chunks)))
    decreases |chunks|
  {
    hide Automaton, TypeAll, Type;
    if chunks == [] {
      NothingTyped(t);
    } else {
      var c, rest := chunks[0], chunks[1..];
      var r := Reset(t);
      OneRead(r, c);
      ReadsAreTheAutomaton(TypeAll(r, c), rest);
      AutomatonConcat(r, c, Concat(rest));
      AutomatonReset(t, c + Concat(rest));
    }
  }

  lemma NothingTyped(t: Typing)
    ensures Automaton(t, []) == t
  {
  }

  /** In particular two cuts of the same input cannot be told apart. */
  lemma CutsDoNotMatter(t: Typing, a: seq<seq<byte>>, b: seq<seq<byte>>)
    requires Readable(t, a) && Readable(t, b) && Concat(a) == Concat(b)
    ensures Reset(Reads(t, a)) == Reset(Reads(t, b))
  {
    hide Reads, Readable;
    ReadsAreTheAutomaton(t, a);
    ReadsAreTheAutomaton(t, b);
  }

  // ----- the reader -----

  class Controller {
    const inbuf: array<byte>
    var count: nat
    var events: seq<Event>

    ghost predicate Valid()
      reads this
    {
      inbuf.Length == INBUF_SIZE + 1 && count <= INBUF_SIZE
    }

    ghost function State(): (t: Typing)
      requires Valid()
      reads this, inbuf
    {
      Typing(inbuf[..count], events)
    }

    constructor ()
      ensures Valid() && State() == Typing([], [])
    {
      inbuf := new byte[INBUF_SIZE + 1];
      count, events := 0, [];
    }

    /** Removes `n` bytes ending at `pos` and returns the position before them. */
    method RemoveChars(pos: nat, n: nat, ghost front: seq<byte>, ghost gone: seq<byte>, ghost rest: seq<byte>)
      returns (pos': int)
      requires Valid() && inbuf[..count] == front + gone + rest && |gone| == n && |front| + n == pos + 1
      modifies this`count, inbuf
      ensures Valid() && inbuf[..count] == front + rest && pos' == pos - n
    {
      MoveDown(inbuf, pos - n + 1, n, count - n, front, gone, rest);
      count := count - n;
      pos' := pos - n;
    }

    /** Moves everything from `i` on to the front. */
    method Leftover(i: nat, ghost front: seq<byte>, ghost rest: seq<byte>)
      requires Valid() && inbuf[..count] == front + rest && |front| == i
      modifies this`count, inbuf
      ensures Valid() && inbuf[..count] == rest
    {
      assert [] + front + rest == front + rest && [] + rest == rest;
      count := count - i;
      MoveDown(inbuf, 0, i, count, [], front, rest);
    }

    /** One byte at `i`, behind the line and before the bytes still to be looked at; the position of
        the next one is returned. */
    method Key(i: nat, ghost line: seq<byte>, ghost rest: seq<byte>) returns (next: nat)
      requires Valid() && |line| == i < count && inbuf[..count] == line + [inbuf[i]] + rest
      modifies this`count, this`events, inbuf
      ensures var t := Type(Typing(line, old(events)), old(inbuf[i]));
        && Valid() && events == t.events && next == |t.line| && inbuf[..count] == t.line + rest
    {
      var b := inbuf[i];
      if b == NUL || b == LF {
        var pos := RemoveChars(i, 1, line, [b], rest);
        next := pos + 1;
      } else if b == BS || b == DEL {
        if i == 0 {
          var pos := RemoveChars(i, 1, line, [b], rest);
          next := pos + 1;
        } else {
          ghost var kept := line[..i - 1];
          assert line == kept + [line[i - 1]];
          assert line + [b] + rest == kept + [line[i - 1], b] + rest;
          var pos := RemoveChars(i, 2, kept, [line[i - 1], b], rest);
          next := pos + 1;
          events := events + [Echo(RUBOUT)];
        }
      } else if b == CR {
        events := events + [Echo(NEWLINE)];
        Slices.Middle(line, [b], rest);
        assert inbuf[..i] == inbuf[..count][..i] == line;
        inbuf[i] := NUL;
        events := events + [Command(inbuf[..i])];
        assert inbuf[..count] == (line + [NUL]) + rest;
        Leftover(i + 1, line + [NUL], rest);
        next := 0;
        assert [] + rest == rest;
      } else {
        events := events + [Echo([b])];
        next := i + 1;
      }
    }

    /** The read event: `input` is what was read, which is at most what there is room for. */
    method HandleRead(input: seq<byte>)
      requires Valid() && |input| <= INBUF_SIZE - count
      modifies this, inbuf
      ensures Valid() && State() == ReadEvent(old(State()), input)
    {
      if count == INBUF_SIZE {
        events := events + [Echo(TOO_LONG)];
        count := 0;
        return;
      }
      ghost var line := inbuf[..count];
      var i := count;
      forall k | 0 <= k < |input| {
        inbuf[i + k] := input[k];
      }
      count := count + |input|;
      ghost var rest := input;
      assert inbuf[..count] == line + rest;
      while i < count
        invariant Valid() && i <= count && i == |line| && inbuf[..count] == line + rest
        invariant TypeAll(Typing(line, events), rest) == TypeAll(old(State()), input)
        decreases |rest|
      {
        hide Type;
        ghost var b, rest' := rest[0], rest[1..];
        assert rest == [b] + rest';
        assert inbuf[i] == inbuf[..count][i] == b;
        Slices.Assoc3(line, [b], rest');
        ghost var t := Type(Typing(line, events), b);
        i := Key(i, line, rest');
        line, rest := t.line, rest';
      }
      assert rest == [] && line + [] == line;
    }
  }

  /** One read event after the other; a full buffer is reset by a read of nothing. */
  method HandleReads(c: Controller, chunks: seq<seq<byte>>)
    requires c.Valid() && Readable(c.State(), chunks)
    modifies c, c.inbuf
    ensures c.Valid() && c.State() == Reads(old(c.State()), chunks)
    ensures Reset(c.State()) == Reset(Automaton(old(c.State()), Concat(chunks)))
  {
    hide ReadEvent, TypeAll, Automaton, Reset;
    ghost var start, t := c.State(), c.State();
    ReadsAreTheAutomaton(start, chunks);
    assert chunks[0..] == chunks;
    for i := 0 to |chunks|
      invariant c.Valid() && c.State() == t && Readable(t, chunks[i..])
      invariant Reads(t, chunks[i..]) == Reads(start, chunks)
    {
      ReadStep(t, chunks, i);
      if c.count == INBUF_SIZE {
        c.HandleRead([]);
        t := ReadEvent(t, []);
      }
      c.HandleRead(chunks[i]);
      t := ReadEvent(t, chunks[i]);
    }
    assert chunks[|chunks|..] == [];
  }

  lemma ReadStep(t: Typing, chunks: seq<seq<byte>>, i: nat)
    requires i < |chunks| && |t.line| <= INBUF_SIZE && Readable(t, chunks[i..])
    ensures var t' := if |t.line| == INBUF_SIZE then ReadEvent(t, []) else t;
      && |t'.line| + |chunks[i]| <= INBUF_SIZE
      && Readable(ReadEvent(t', chunks[i]), chunks[i + 1..])
      && Reads(t, chunks[i..]) == Reads(ReadEvent(t', chunks[i]), chunks[i + 1..])
  {
    hide TypeAll;
    assert chunks[i..][0] == chunks[i] && chunks[i..][1..] == chunks[i + 1..];
  }

  /** Moves the bytes behind a gap of `n` bytes at `at` down over it, one by one. */
  method MoveDown(a: array<byte>, at: nat, n: nat, end: nat, ghost front: seq<byte>, ghost gone: seq<byte>, ghost rest: seq<byte>)
    requires at <= end && end + n <= a.Length && a[..end + n] == front + gone + rest && |front| == at && |gone| == n
    modifies a
    ensures a[..end] == front + rest
  {
    ghost var was := a[..];
    var j := at;
    while j < end
      invariant at <= j <= end
      invariant forall k | 0 <= k < at || j <= k < a.Length :: a[k] == was[k]
      invariant forall k | at <= k < j :: a[k] == was[k + n]
    {
      a[j] := a[j + n];
      j := j + 1;
    }
    ghost var before, now := was[..end + n], a[..end];
    assert forall k | 0 <= k < at :: now[k] == before[k];
    assert forall k | at <= k < end :: now[k] == before[k + n];
    Closed(before, now, front, gone, rest);
  }

  lemma Closed(was: seq<byte>, now: seq<byte>, front: seq<byte>, gone: seq<byte>, rest: seq<byte>)
    requires was == front + gone + rest && |now| == |front| + |rest|
    requires forall k | 0 <= k < |front| :: now[k] == was[k]
    requires forall k | |front| <= k < |now| :: now[k] == was[k + |gone|]
    ensures now == front + rest
  {
  }
}
