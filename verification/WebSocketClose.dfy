/**
  The close request of a WebSocket connection over a run of receives.  A frame handed over by itself is
  judged by the byte that comes to stand in front of the buffer when it is gone, or by its own first
  byte if the buffer is then empty; so the answer depends on where the receives end.
 */
module WebSocketClose {
  import opened Bytes
  import opened Streams
  import opened WebSocket
  import opened WebSocketConnection
  import Slices

  // ----- which cuts matter -----

  /** A frame that lies in the first bytes is read from them alone. */
  lemma FrameWithin(s: seq<byte>, t: seq<byte>)
    requires var f := ParseFrame(s + t); f.Frame? && f.used <= |s|
    ensures ParseFrame(s) == ParseFrame(s + t)
  {
    var h := ParseHeader(s + t);
    assert |s| >= h.len >= 2;
    assert (s + t)[0] == s[0] && (s + t)[1] == s[1] && (s + t)[2..] == s[2..] + t;
    if |s| >= 10 {
      U64Prefix(s[2..], t);
    }
    assert ParseHeader(s) == h;
    ParseFrameStable(s, t);
  }

  lemma DecodeWithin(noDefrag: bool, c: Ctl, s: seq<byte>, t: seq<byte>)
    requires var st := Decode(noDefrag, c, s + t); st.Took? && st.used <= |s|
    ensures Decode(noDefrag, c, s) == Decode(noDefrag, c, s + t)
  {
    hide ParseFrame;
    if IsStray(noDefrag, c, s + t) {
      assert s[0] == (s + t)[0];
    } else {
      FrameWithin(s, t);
    }
  }

  lemma DecodeStable(noDefrag: bool, c: Ctl, s: seq<byte>, t: seq<byte>)
    requires Decode(noDefrag, c, s).Took?
    ensures Decode(noDefrag, c, s + t) == Decode(noDefrag, c, s)
    ensures !IsStray(noDefrag, c, s) ==> ParseFrame(s + t) == ParseFrame(s) && ParseFrame(s).Frame?
    ensures IsStray(noDefrag, c, s) ==> IsStray(noDefrag, c, s + t)
  {
    hide ParseFrame;
    if !IsStray(noDefrag, c, s) {
      ParseFrameStable(s, t);
    }
  }

  /** Where the receives end, counted from the start of the bytes held before them. */
  function Ends(at: nat, chunks: seq<seq<byte>>): (ends: set<nat>)
    ensures forall e | e in ends :: e >= at
    decreases |chunks|
  {
    if chunks == [] then {} else {at + |chunks[0]|} + Ends(at + |chunks[0]|, chunks[1..])
  }

  /** The first frame is handed over by itself and asks for closing: it is a close frame and ends with a
      receive, or is followed in its receive by a byte like that of a close frame. */
  ghost predicate Judged(noDefrag: bool, c: Ctl, s: seq<byte>, ends: set<nat>, at: nat)
  {
    var f := ParseFrame(s);
    Alone(noDefrag, c, f) && (if at + f.used in ends || f.used == |s| then f.flags else s[f.used]) % 16 == 8
  }

  /** A stream, and where its receives end: some frame in it asks for closing. */
  ghost predicate StreamCloses(noDefrag: bool, c: Ctl, s: seq<byte>, ends: set<nat>, at: nat)
    decreases |s|
  {
    var st := Decode(noDefrag, c, s);
    st.Took? && (Judged(noDefrag, c, s, ends, at) || StreamCloses(noDefrag, st.ctl, s[st.used..], ends, at + st.used))
  }

  lemma NothingCloses(noDefrag: bool, c: Ctl, s: seq<byte>)
    requires !Decode(noDefrag, c, s).Took?
    ensures !DrainCloses(noDefrag, c, s)
    ensures var r := Drain(FrameDecoder(noDefrag), c, s); r.ctl == c && r.rest == s
  {
    hide Decode;
    assert FrameDecoder(noDefrag)(c, s) == Decode(noDefrag, c, s);
  }

  /** One frame of the receive loop. */
  lemma CloseStep(noDefrag: bool, c: Ctl, s: seq<byte>)
    requires Decode(noDefrag, c, s).Took?
    ensures var st := Decode(noDefrag, c, s);
      && DrainCloses(noDefrag, c, s) ==
           (ClosesAfter(noDefrag, c, ParseFrame(s), s) || DrainCloses(noDefrag, st.ctl, s[st.used..]))
      && var r, r' := Drain(FrameDecoder(noDefrag), c, s), Drain(FrameDecoder(noDefrag), st.ctl, s[st.used..]);
         r.ctl == r'.ctl && r.rest == r'.rest
  {
    hide Decode, ClosesAfter, ParseFrame;
    assert FrameDecoder(noDefrag)(c, s) == Decode(noDefrag, c, s);
  }

  /** A frame handed over by itself is taken as it is. */
  lemma AloneIsTaken(noDefrag: bool, c: Ctl, s: seq<byte>)
    requires Alone(noDefrag, c, ParseFrame(s))
    ensures !IsStray(noDefrag, c, s) && Decode(noDefrag, c, s).Took? && Decode(noDefrag, c, s).ctl == Idle
    ensures Decode(noDefrag, c, s).used == ParseFrame(s).used
  {
    FlagsInFront(s);
  }

  /** What the loop leaves is waited for. */
  lemma {:induction false} DrainWaits(noDefrag: bool, c: Ctl, s: seq<byte>)
    ensures var r := Drain(FrameDecoder(noDefrag), c, s); !Decode(noDefrag, r.ctl, r.rest).Took? && |r.rest| <= |s|
    decreases |s|
  {
    hide Decode;
    if Decode(noDefrag, c, s).Took? {
      CloseStep(noDefrag, c, s);
      DrainWaits(noDefrag, Decode(noDefrag, c, s).ctl, s[Decode(noDefrag, c, s).used..]);
    } else {
      NothingCloses(noDefrag, c, s);
    }
  }

  /** One receive is judged by the stream up to its end. */
  lemma {:induction false} ReceiveCloses(noDefrag: bool, c: Ctl, s: seq<byte>, t: seq<byte>, ends: set<nat>, at: nat)
    requires at + |s| in ends && forall e | e in ends :: e >= at + |s|
    ensures var r := Drain(FrameDecoder(noDefrag), c, s);
      |r.rest| <= |s| &&
      (StreamCloses(noDefrag, c, s + t, ends, at) <==>
        DrainCloses(noDefrag, c, s) || StreamCloses(noDefrag, r.ctl, r.rest + t, ends, at + |s| - |r.rest|))
    decreases |s|
  {
    hide Decode, ParseFrame, Drain, Judged, ClosesAfter;
    DrainWaits(noDefrag, c, s);
    var st := Decode(noDefrag, c, s);
    if st.Took? {
      DecodeStable(noDefrag, c, s, t);
      CloseStep(noDefrag, c, s);
      var s' := s[st.used..];
      assert (s + t)[st.used..] == s' + t;
      ReceiveCloses(noDefrag, st.ctl, s', t, ends, at + st.used);
      SameVerdict(noDefrag, c, s, t, ends, at);
    } else {
      NothingCloses(noDefrag, c, s);
    }
  }

  lemma SameVerdict(noDefrag: bool, c: Ctl, s: seq<byte>, t: seq<byte>, ends: set<nat>, at: nat)
    requires at + |s| in ends && (forall e | e in ends :: e >= at + |s|) && Decode(noDefrag, c, s).Took?
    ensures ClosesAfter(noDefrag, c, ParseFrame(s), s) <==> Judged(noDefrag, c, s + t, ends, at)
  {
    hide ParseFrame;
    DecodeStable(noDefrag, c, s, t);
    if IsStray(noDefrag, c, s) {
      FlagsInFront(s);
      FlagsInFront(s + t);
    }
  }

  /** Ends of receives that no frame reaches up to play no part. */
  lemma {:induction false} EndsBehind(noDefrag: bool, c: Ctl, s: seq<byte>, ends: set<nat>, at: nat, e: nat)
    requires var st := Decode(noDefrag, c, s); st.Took? ==> e < at + st.used
    ensures StreamCloses(noDefrag, c, s, ends, at) <==> StreamCloses(noDefrag, c, s, ends + {e}, at)
    decreases |s|
  {
    hide ParseFrame, Decode;
    var st := Decode(noDefrag, c, s);
    if st.Took? {
      EndsBehind(noDefrag, st.ctl, s[st.used..], ends, at + st.used, e);
      if Alone(noDefrag, c, ParseFrame(s)) {
        AloneIsTaken(noDefrag, c, s);
      }
    }
  }

  /** Over every run of receives, from any state, with fragments, open messages and frames of any kind:
      closing is asked for exactly when some frame handed over by itself is a close frame and ends with
      a receive, or is followed in its receive by a byte like that of a close frame. */
  lemma {:induction false} RunClosesIff(noDefrag: bool, c: Ctl, held: seq<byte>, chunks: seq<seq<byte>>, at: nat)
    requires !Decode(noDefrag, c, held).Took?
    ensures AnyCloses(noDefrag, c, held, chunks) <==>
      StreamCloses(noDefrag, c, held + Concat(chunks), Ends(at + |held|, chunks), at)
    decreases |chunks|
  {
    hide Drain, Decode, DrainCloses, StreamCloses;
    if chunks == [] {
      assert held + Concat(chunks) == held;
      NoStreamCloses(noDefrag, c, held, Ends(at + |held|, chunks), at);
    } else {
      var s, t, rest := held + chunks[0], Concat(chunks[1..]), chunks[1..];
      var e := at + |s|;
      var ends := Ends(e, rest);
      Slices.Assoc3(held, chunks[0], t);
      var r := Drain(FrameDecoder(noDefrag), c, s);
      ReceiveCloses(noDefrag, c, s, t, ends + {e}, at);
      DrainWaits(noDefrag, c, s);
      var at' := at + |s| - |r.rest|;
      RunClosesIff(noDefrag, r.ctl, r.rest, rest, at');
      NotWithin(noDefrag, r.ctl, r.rest, t);
      EndsBehind(noDefrag, r.ctl, r.rest + t, ends, at', e);
      assert Ends(at + |held|, chunks) == ends + {e};
    }
  }

  lemma NoStreamCloses(noDefrag: bool, c: Ctl, s: seq<byte>, ends: set<nat>, at: nat)
    requires !Decode(noDefrag, c, s).Took?
    ensures !StreamCloses(noDefrag, c, s, ends, at)
  {
    hide Decode;
  }

  lemma NotWithin(noDefrag: bool, c: Ctl, s: seq<byte>, t: seq<byte>)
    requires !Decode(noDefrag, c, s).Took?
    ensures var st := Decode(noDefrag, c, s + t); st.Took? ==> st.used > |s|
  {
    hide Decode;
    if Decode(noDefrag, c, s + t).Took? && Decode(noDefrag, c, s + t).used <= |s| {
      DecodeWithin(noDefrag, c, s, t);
    }
  }

  // ----- when the cuts do not matter -----

  /** What a frame says itself, and what the byte behind it says, or the frame if there is none. */
  predicate Own(f: Frame)
    requires f.Frame?
  {
    f.flags % 16 == 8
  }

  predicate Next(f: Frame, s: seq<byte>)
    requires f.Frame?
  {
    (if f.used < |s| then s[f.used] else f.flags) % 16 == 8
  }

  /** Some frame handed over by itself is a close frame or is followed by a byte like that of one. */
  predicate MayClose(noDefrag: bool, c: Ctl, s: seq<byte>)
    decreases |s|
  {
    var st, f := Decode(noDefrag, c, s), ParseFrame(s);
    st.Took? && ((Alone(noDefrag, c, f) && (Own(f) || Next(f, s))) || MayClose(noDefrag, st.ctl, s[st.used..]))
  }

  /** Some frame handed over by itself is a close frame and is followed by a byte like that of one, if
      any follows. */
  predicate MustClose(noDefrag: bool, c: Ctl, s: seq<byte>)
    decreases |s|
  {
    var st, f := Decode(noDefrag, c, s), ParseFrame(s);
    st.Took? && ((Alone(noDefrag, c, f) && Own(f) && Next(f, s)) || MustClose(noDefrag, st.ctl, s[st.used..]))
  }

  lemma {:induction false} Between(noDefrag: bool, c: Ctl, s: seq<byte>, ends: set<nat>, at: nat)
    ensures MustClose(noDefrag, c, s) ==> StreamCloses(noDefrag, c, s, ends, at)
    ensures StreamCloses(noDefrag, c, s, ends, at) ==> MayClose(noDefrag, c, s)
    decreases |s|
  {
    hide ParseFrame, Decode;
    var st := Decode(noDefrag, c, s);
    if st.Took? {
      Between(noDefrag, st.ctl, s[st.used..], ends, at + st.used);
      FlagsInFront(s);
    }
  }

  /** However a stream is cut, closing is asked for if it must be and only if it may be. */
  lemma CutsBetween(noDefrag: bool, c: Ctl, chunks: seq<seq<byte>>)
    ensures MustClose(noDefrag, c, Concat(chunks)) ==> AnyCloses(noDefrag, c, [], chunks)
    ensures AnyCloses(noDefrag, c, [], chunks) ==> MayClose(noDefrag, c, Concat(chunks))
  {
    hide StreamCloses, AnyCloses, MustClose, MayClose;
    NoBytes(noDefrag, c);
    RunClosesIff(noDefrag, c, [], chunks, 0);
    assert [] + Concat(chunks) == Concat(chunks);
    Between(noDefrag, c, Concat(chunks), Ends(0, chunks), 0);
  }

  lemma NoBytes(noDefrag: bool, c: Ctl)
    ensures !Decode(noDefrag, c, []).Took?
  {
  }

  /** The cut behind the frames handed over by themselves that are, or are not, close frames. */
  function Chop(noDefrag: bool, c: Ctl, s: seq<byte>, close: bool): (chunks: seq<seq<byte>>)
    ensures |chunks| > 0
    decreases |s|
  {
    var st, f := Decode(noDefrag, c, s), ParseFrame(s);
    if !st.Took? then [s]
    else
      var rest := Chop(noDefrag, st.ctl, s[st.used..], close);
      if Alone(noDefrag, c, f) && Own(f) == close then [s[..st.used]] + rest else [s[..st.used] + rest[0]] + rest[1..]
  }

  lemma {:induction false} ChopCuts(noDefrag: bool, c: Ctl, s: seq<byte>, close: bool)
    ensures Concat(Chop(noDefrag, c, s, close)) == s
    ensures var first := Chop(noDefrag, c, s, close)[0]; first <= s && (first == [] <==> s == [])
    decreases |s|
  {
    hide Decode, ParseFrame, Alone;
    var st, chunks := Decode(noDefrag, c, s), Chop(noDefrag, c, s, close);
    if st.Took? {
      var rest, w := Chop(noDefrag, st.ctl, s[st.used..], close), s[..st.used];
      ChopCuts(noDefrag, st.ctl, s[st.used..], close);
      assert s == w + s[st.used..] && chunks[1..] == if chunks == [w] + rest then rest else rest[1..];
      Slices.Assoc3(w, rest[0], Concat(rest[1..]));
    } else {
      assert chunks[1..] == [] && s + [] == s;
    }
  }

  /** A receive that ends with the first frame. */
  lemma CutAfter(noDefrag: bool, c: Ctl, w: seq<byte>, chunks: seq<seq<byte>>)
    requires Decode(noDefrag, c, w).Took? && Decode(noDefrag, c, w).used == |w|
    ensures AnyCloses(noDefrag, c, [], [w] + chunks) <==>
      ClosesAfter(noDefrag, c, ParseFrame(w), w) || AnyCloses(noDefrag, Decode(noDefrag, c, w).ctl, [], chunks)
  {
    hide Decode, ParseFrame, ClosesAfter, Drain, DrainCloses;
    var st := Decode(noDefrag, c, w);
    assert [] + w == w && w[|w|..] == [] && ([w] + chunks)[1..] == chunks;
    CloseStep(noDefrag, c, w);
    NoBytes(noDefrag, st.ctl);
    NothingCloses(noDefrag, st.ctl, []);
  }

  /** A receive that goes on behind the first frame. */
  lemma NoCutAfter(noDefrag: bool, c: Ctl, w: seq<byte>, chunks: seq<seq<byte>>)
    requires Decode(noDefrag, c, w).Took? && Decode(noDefrag, c, w).used == |w| && chunks != []
    ensures AnyCloses(noDefrag, c, [], [w + chunks[0]] + chunks[1..]) <==>
      ClosesAfter(noDefrag, c, ParseFrame(w + chunks[0]), w + chunks[0])
      || AnyCloses(noDefrag, Decode(noDefrag, c, w).ctl, [], chunks)
  {
    hide Decode, ParseFrame, ClosesAfter, Drain, DrainCloses;
    var s, all := w + chunks[0], [w + chunks[0]] + chunks[1..];
    assert [] + s == s && s[|w|..] == chunks[0] && all[1..] == chunks[1..] && [] + chunks[0] == chunks[0];
    DecodeStable(noDefrag, c, w, chunks[0]);
    CloseStep(noDefrag, c, s);
  }

  lemma {:induction false} ChopCloses(noDefrag: bool, c: Ctl, s: seq<byte>, close: bool)
    ensures AnyCloses(noDefrag, c, [], Chop(noDefrag, c, s, close)) <==>
      if close then MayClose(noDefrag, c, s) else MustClose(noDefrag, c, s)
    decreases |s|
  {
    hide Decode, ParseFrame, AnyCloses;
    var st, f, chunks := Decode(noDefrag, c, s), ParseFrame(s), Chop(noDefrag, c, s, close);
    if st.Took? {
      var rest, w := Chop(noDefrag, st.ctl, s[st.used..], close), s[..st.used];
      assert s == w + s[st.used..];
      DecodeWithin(noDefrag, c, w, s[st.used..]);
      ChopCloses(noDefrag, st.ctl, s[st.used..], close);
      ChopCuts(noDefrag, st.ctl, s[st.used..], close);
      FirstFrame(noDefrag, c, s, w, rest[0]);
      if Alone(noDefrag, c, f) && Own(f) == close {
        CutAfter(noDefrag, c, w, rest);
      } else {
        NoCutAfter(noDefrag, c, w, rest);
      }
    } else {
      NoneInOne(noDefrag, c, s);
    }
  }

  lemma NoneInOne(noDefrag: bool, c: Ctl, s: seq<byte>)
    requires !Decode(noDefrag, c, s).Took?
    ensures !AnyCloses(noDefrag, c, [], [s])
  {
    hide Decode, Drain, DrainCloses;
    assert [] + s == s && [s][1..] == [];
    NothingCloses(noDefrag, c, s);
  }

  /** The first frame as it is judged with and without the bytes behind it. */
  lemma FirstFrame(noDefrag: bool, c: Ctl, s: seq<byte>, w: seq<byte>, more: seq<byte>)
    requires var st := Decode(noDefrag, c, s);
      && st.Took? && w == s[..st.used] && Decode(noDefrag, c, w) == st
      && more <= s[st.used..] && (more == [] <==> s[st.used..] == [])
    ensures var f := ParseFrame(s);
      && (ClosesAfter(noDefrag, c, ParseFrame(w), w) <==> Alone(noDefrag, c, f) && Own(f))
      && (ClosesAfter(noDefrag, c, ParseFrame(w + more), w + more) <==> Alone(noDefrag, c, f) && Next(f, s))
  {
    hide ParseFrame;
    var n := |w|;
    assert s == w + s[n..];
    DecodeStable(noDefrag, c, w, s[n..]);
    DecodeStable(noDefrag, c, w, more);
    FlagsInFront(s);
    FlagsInFront(w);
    FlagsInFront(w + more);
  }

  /** The receives cut the same stream and agree on closing. */
  ghost predicate Agree(noDefrag: bool, c: Ctl, a: seq<seq<byte>>, b: seq<seq<byte>>)
  {
    AnyCloses(noDefrag, c, [], a) == AnyCloses(noDefrag, c, [], b)
  }

  /** Over every stream: all cuts agree on closing exactly when closing must be asked for if it may be. */
  lemma CutsAgreeIff(noDefrag: bool, c: Ctl, s: seq<byte>)
    ensures (forall a: seq<seq<byte>>, b: seq<seq<byte>> | Concat(a) == s && Concat(b) == s :: Agree(noDefrag, c, a, b)) <==>
      (MayClose(noDefrag, c, s) ==> MustClose(noDefrag, c, s))
  {
    hide AnyCloses, MayClose, MustClose, Chop;
    if MayClose(noDefrag, c, s) ==> MustClose(noDefrag, c, s) {
      forall a: seq<seq<byte>>, b: seq<seq<byte>> | Concat(a) == s && Concat(b) == s ensures Agree(noDefrag, c, a, b) {
        CutsBetween(noDefrag, c, a);
        CutsBetween(noDefrag, c, b);
      }
    } else {
      var a, b := Chop(noDefrag, c, s, true), Chop(noDefrag, c, s, false);
      ChopCuts(noDefrag, c, s, true);
      ChopCuts(noDefrag, c, s, false);
      ChopCloses(noDefrag, c, s, true);
      ChopCloses(noDefrag, c, s, false);
      assert !Agree(noDefrag, c, a, b);
    }
  }

  /** A close frame and a text frame: closing is asked for if they come one by one, and not if they come
      together. */
  lemma CutsCanDisagree()
    ensures var close, text := FrameBytes(true, 8, None, []), FrameBytes(true, 1, None, []);
      AnyCloses(false, Idle, [], [close, text]) && !AnyCloses(false, Idle, [], [close + text])
  {
    hide FrameBytes, ParseFrame, Decode, DrainCloses, Drain;
    var close, text := FrameBytes(true, 8, None, []), FrameBytes(true, 1, None, []);
    ParseFrameInverts(true, 8, None, [], []);
    assert close + [] == close && close[|close|..] == [];
    TooShort([]);
    OneFrame(close, ParseFrame(close), []);
    CloseFlagIff(false, close, [ParseFrame(close)], []);
    CloseCanBeMissed();
    assert [] + close == close && [] + (close + text) == close + text && [close + text][1..] == [];
  }
}
