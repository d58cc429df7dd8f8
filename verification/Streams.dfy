/**
  Streaming decoders.  A decoder looks at the bytes it holds and either waits for more, gives the
  connection up, or takes some bytes off the front, emitting what they mean.  The receive loop
  repeats that until the decoder stops; TCP decides after which bytes the loop is entered.
  For a decoder whose verdict on a buffer does not change when bytes are added behind it, what is
  emitted over a connection does not depend on how the stream was cut into receives.
 */
module Streams {
  import opened Bytes
  import Slices

  datatype Step<C, O> = Wait | Fail | Took(ctl: C, used: nat, out: seq<O>)

  type Decoder<!C, !O> = (C, seq<byte>) -> Step<C, O>

  /** What a connection has done so far, and what it holds. */
  datatype Run<C, O> = Run(ctl: C, rest: seq<byte>, out: seq<O>, failed: bool)

  ghost predicate Progress<C(!new), O>(m: Decoder<C, O>)
  {
    forall c, s :: m(c, s).Took? ==> 0 < m(c, s).used <= |s|
  }

  ghost predicate Stable<C(!new), O(!new)>(m: Decoder<C, O>)
  {
    forall c, s, t :: m(c, s) != Wait ==> m(c, s + t) == m(c, s)
  }

  /** The receive loop on everything buffered. */
  function Drain<C, O>(m: Decoder<C, O>, c: C, s: seq<byte>): (r: Run<C, O>)
    decreases |s|
  {
    match m(c, s)
    case Wait => Run(c, s, [], false)
    case Fail => Run(c, s, [], true)
    case Took(c', n, o) =>
      if 0 < n <= |s| then
        var r := Drain(m, c', s[n..]);
        r.(out := o + r.out)
      else
        Run(c, s, [], false)
  }

  /** One receive: the new bytes go behind the held ones, then the loop runs. */
  function Receive<C, O>(m: Decoder<C, O>, r: Run<C, O>, chunk: seq<byte>): (r': Run<C, O>)
  {
    var d := Drain(m, r.ctl, r.rest + chunk);
    d.(out := r.out + d.out)
  }

  function ReceiveAll<C, O>(m: Decoder<C, O>, r: Run<C, O>, chunks: seq<seq<byte>>): (r': Run<C, O>)
    decreases |chunks|
  {
    if chunks == [] then r else ReceiveAll(m, Receive(m, r, chunks[0]), chunks[1..])
  }

  /** What a run adds to what was emitted before it. */
  function Onto<C, O>(done: seq<O>, r: Run<C, O>): (r': Run<C, O>)
  {
    r.(out := done + r.out)
  }

  lemma OntoNothing<C, O>(r: Run<C, O>)
    ensures Onto([], r) == r
  {
  }

  /** The receive loop, one step at a time. */
  lemma DrainUnfold<C(!new), O(!new)>(m: Decoder<C, O>, c: C, s: seq<byte>, done: seq<O>)
    ensures var st := m(c, s);
      if st.Took? then 0 < st.used <= |s| ==> Onto(done, Drain(m, c, s)) == Onto(done + st.out, Drain(m, st.ctl, s[st.used..]))
      else Onto(done, Drain(m, c, s)) == Run(c, s, done, st.Fail?)
  {
    var st := m(c, s);
    if st.Took? && 0 < st.used <= |s| {
      var d := Drain(m, st.ctl, s[st.used..]);
      assert done + (st.out + d.out) == (done + st.out) + d.out;
    }
  }

  /** Draining, then receiving more, is draining everything at once. */
  lemma {:induction false} DrainAppend<C(!new), O(!new)>(m: Decoder<C, O>, c: C, s: seq<byte>, t: seq<byte>)
    requires Progress(m) && Stable(m)
    ensures Receive(m, Drain(m, c, s), t) == Drain(m, c, s + t)
    decreases |s|
  {
    match m(c, s)
    case Wait =>
    case Fail =>
      assert m(c, s + t) == Fail;
    case Took(c', n, o) =>
      assert m(c, s + t) == m(c, s);
      assert (s + t)[n..] == s[n..] + t;
      DrainAppend(m, c', s[n..], t);
      var r := Drain(m, c', s[n..]);
      assert o + (r.out + Drain(m, r.ctl, r.rest + t).out) == (o + r.out) + Drain(m, r.ctl, r.rest + t).out;
  }

  /** Any number of receives, cut anywhere, is one receive of the whole stream. */
  lemma {:induction false} SplitIndependence<C(!new), O(!new)>(
    m: Decoder<C, O>, c: C, s: seq<byte>, chunks: seq<seq<byte>>)
    requires Progress(m) && Stable(m)
    ensures ReceiveAll(m, Drain(m, c, s), chunks) == Drain(m, c, s + Concat(chunks))
    decreases |chunks|
  {
    hide Drain, Receive;
    if chunks == [] {
      assert s + Concat(chunks) == s;
    } else {
      DrainAppend(m, c, s, chunks[0]);
      SplitIndependence(m, c, s + chunks[0], chunks[1..]);
      Slices.Assoc3(s, chunks[0], Concat(chunks[1..]));
    }
  }

  /** Some receive gave the connection up. */
  predicate AnyFailed<C, O>(m: Decoder<C, O>, r: Run<C, O>, chunks: seq<seq<byte>>)
    decreases |chunks|
  {
    chunks != [] &&
    var r' := Receive(m, r, chunks[0]);
    r'.failed || AnyFailed(m, r', chunks[1..])
  }

  lemma {:induction false} FailedWhere<C(!new), O(!new)>(m: Decoder<C, O>, c: C, s: seq<byte>)
    requires Drain(m, c, s).failed
    ensures var r := Drain(m, c, s); m(r.ctl, r.rest) == Fail
    decreases |s|
  {
    var st := m(c, s);
    if st.Took? && 0 < st.used <= |s| {
      FailedWhere(m, st.ctl, s[st.used..]);
    }
  }

  /** A connection that is given up stays given up. */
  lemma FailureStays<C(!new), O(!new)>(m: Decoder<C, O>, c: C, s: seq<byte>, t: seq<byte>)
    requires Progress(m) && Stable(m) && Drain(m, c, s).failed
    ensures Drain(m, c, s + t).failed
  {
    var r := Drain(m, c, s);
    FailedWhere(m, c, s);
    DrainAppend(m, c, s, t);
    assert m(r.ctl, r.rest + t) == Fail;
  }

  lemma {:induction false} AnyFailedShows<C(!new), O(!new)>(m: Decoder<C, O>, c: C, s: seq<byte>, chunks: seq<seq<byte>>)
    requires Progress(m) && Stable(m) && AnyFailed(m, Drain(m, c, s), chunks)
    ensures Drain(m, c, s + Concat(chunks)).failed
    decreases |chunks|
  {
    hide Drain, Receive, Progress, Stable;
    DrainAppend(m, c, s, chunks[0]);
    Slices.Assoc3(s, chunks[0], Concat(chunks[1..]));
    if Drain(m, c, s + chunks[0]).failed {
      FailureStays(m, c, s + chunks[0], Concat(chunks[1..]));
    } else {
      AnyFailedShows(m, c, s + chunks[0], chunks[1..]);
    }
  }

  /** A stream cut after the given numbers of bytes, as far as it goes. */
  function Cut(s: seq<byte>, sizes: seq<nat>): (chunks: seq<seq<byte>>)
    ensures Concat(chunks) == s
    decreases |sizes|
  {
    if sizes == [] then
      var chunks := [s];
      assert chunks[1..] == [];
      chunks
    else
      var n := if sizes[0] <= |s| then sizes[0] else |s|;
      var rest := Cut(s[n..], sizes[1..]);
      var chunks := [s[..n]] + rest;
      assert chunks[1..] == rest && s == s[..n] + s[n..];
      chunks
  }

  function Sizes(chunks: seq<seq<byte>>): (sizes: seq<nat>)
  {
    if chunks == [] then [] else [|chunks[0]|] + Sizes(chunks[1..])
  }

  /** Every way to cut a stream is one of these cuts; nothing is left behind it. */
  lemma {:induction false} CutIsAny(chunks: seq<seq<byte>>)
    ensures Cut(Concat(chunks), Sizes(chunks)) == chunks + [[]]
    decreases |chunks|
  {
    if chunks != [] {
      var c, rest := chunks[0], chunks[1..];
      var s, sizes := Concat(chunks), Sizes(chunks);
      CutIsAny(rest);
      assert s[..|c|] == c && s[|c|..] == Concat(rest) && sizes[1..] == Sizes(rest);
      assert chunks == [c] + rest;
      Slices.Assoc3([c], rest, [[]]);
    }
  }

  lemma ReceiveAllStep<C, O>(m: Decoder<C, O>, r: Run<C, O>, chunks: seq<seq<byte>>, i: nat)
    requires i < |chunks|
    ensures ReceiveAll(m, r, chunks[i..]) == ReceiveAll(m, Receive(m, r, chunks[i]), chunks[i + 1..])
    ensures AnyFailed(m, r, chunks[i..]) ==
      (Receive(m, r, chunks[i]).failed || AnyFailed(m, Receive(m, r, chunks[i]), chunks[i + 1..]))
  {
    assert chunks[i..][0] == chunks[i] && chunks[i..][1..] == chunks[i + 1..];
  }

  /** The verdict of the last receive plays no part in the next one. */
  lemma VerdictIsForgotten<C, O>(m: Decoder<C, O>, r: Run<C, O>, chunks: seq<seq<byte>>, failed: bool)
    requires chunks != []
    ensures ReceiveAll(m, r.(failed := failed), chunks) == ReceiveAll(m, r, chunks)
    ensures AnyFailed(m, r.(failed := failed), chunks) == AnyFailed(m, r, chunks)
  {
    assert Receive(m, r.(failed := failed), chunks[0]) == Receive(m, r, chunks[0]);
  }
}
