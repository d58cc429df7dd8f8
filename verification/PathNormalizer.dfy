/**
  Removing `.` and `..` from the path of a URI, in place: the loop computes what the two-buffer
  algorithm of RFC 3986, section 5.2.4 computes.
 */
module PathNormalizer {
  import opened Bytes
  import Slices

  const SLASH: byte := 47
  const DOT: byte := 46

  // ----- the algorithm of the RFC -----

  /** The output without its last segment and the slash before it. */
  function RemoveLast(out: seq<byte>): (r: seq<byte>)
    ensures |r| <= |out|
  {
    if out == [] then [] else if out[|out| - 1] == SLASH then out[..|out| - 1] else RemoveLast(out[..|out| - 1])
  }

  /** Where the first segment ends, looking from `i` on. */
  function SegmentEnd(s: seq<byte>, i: nat): (k: nat)
    requires i <= |s|
    ensures i <= k <= |s| && (k < |s| ==> s[k] == SLASH) && SLASH !in s[i..k]
    decreases |s| - i
  {
    if i == |s| || s[i] == SLASH then i
    else
      var k := SegmentEnd(s, i + 1);
      assert s[i..k] == [s[i]] + s[i + 1..k];
      k
  }

  predicate IsDot(c: seq<byte>)
  {
    |c| == 1 && c[0] == DOT
  }

  predicate IsDotDot(c: seq<byte>)
  {
    |c| == 2 && c[0] == DOT && c[1] == DOT
  }

  /** `s` is a dot, alone or with a slash behind it. */
  predicate DotFirst(s: seq<byte>)
  {
    |s| >= 1 && s[0] == DOT && (|s| > 1 ==> s[1] == SLASH)
  }

  /** `s` is two dots, alone or with a slash behind them. */
  predicate DotsFirst(s: seq<byte>)
  {
    |s| >= 2 && s[0] == DOT && s[1] == DOT && (|s| > 2 ==> s[2] == SLASH)
  }

  /** Steps A to E until the input is used up. */
  function RemoveDots(input: seq<byte>, output: seq<byte>): (r: seq<byte>)
    decreases |input|
  {
    if input == [] then output
    else if input[0] != SLASH then
      if DotsFirst(input) then RemoveDots(Behind(input, 3), output)   // A, D
      else if DotFirst(input) then RemoveDots(Behind(input, 2), output)   // A, D
      else RemoveDots(input[SegmentEnd(input, 0)..], output + input[..SegmentEnd(input, 0)])   // E
    else if DotFirst(input[1..]) then RemoveDots([SLASH] + Behind(input, 3), output)   // B
    else if DotsFirst(input[1..]) then RemoveDots([SLASH] + Behind(input, 4), RemoveLast(output))   // C
    else RemoveDots(input[SegmentEnd(input, 1)..], output + input[..SegmentEnd(input, 1)])   // E
  }

  function Behind(s: seq<byte>, i: nat): (r: seq<byte>)
    ensures |r| == if i < |s| then |s| - i else 0
  {
    if i < |s| then s[i..] else []
  }

  /** What normalising a path is to give. */
  function Normalized(path: seq<byte>): (r: seq<byte>)
  {
    RemoveDots(path, [])
  }

  // ----- the loop -----

  predicate IsAbsolute(path: seq<byte>)
  {
    path != [] && path[0] == SLASH
  }

  /** Going back to the previous slash. */
  function Back(out: seq<byte>): (r: seq<byte>)
    ensures |r| <= |out|
  {
    BackTo(if |out| > 1 && out[|out| - 1] == SLASH then out[..|out| - 1] else out)
  }

  function BackTo(out: seq<byte>): (r: seq<byte>)
    ensures |r| <= |out|
  {
    if out == [] || out[|out| - 1] == SLASH then out else BackTo(out[..|out| - 1])
  }

  /** Where the component at the front of `s` ends, its slash included. */
  function Next(s: seq<byte>): (n: nat)
    requires s != []
    ensures 0 < n <= |s|
  {
    var k := SegmentEnd(s, 0);
    if k < |s| then k + 1 else k
  }

  /** The written part after one component of the input was looked at. */
  function Step(out: seq<byte>, s: seq<byte>): (r: seq<byte>)
    requires s != []
    ensures |r| <= |out| + Next(s)
  {
    var c := s[..SegmentEnd(s, 0)];
    if IsDot(c) then out else if IsDotDot(c) then Back(out) else out + s[..Next(s)]
  }

  /** The written part after the rest of the input was looked at, component by component. */
  function Walk(out: seq<byte>, s: seq<byte>): (r: seq<byte>)
    decreases |s|
  {
    if s == [] then out else Walk(Step(out, s), s[Next(s)..])
  }

  lemma {:induction false} SegmentEndShift(a: seq<byte>, s: seq<byte>, i: nat)
    requires i <= |s|
    ensures SegmentEnd(a + s, |a| + i) == |a| + SegmentEnd(s, i)
    decreases |s| - i
  {
    assert i < |s| ==> (a + s)[|a| + i] == s[i];
    if i < |s| && s[i] != SLASH {
      SegmentEndShift(a, s, i + 1);
    }
  }

  lemma {:induction false} BackToIsRemoveLast(out: seq<byte>)
    requires SLASH in out
    ensures BackTo(out) == RemoveLast(out) + [SLASH]
    decreases |out|
  {
    if out[|out| - 1] == SLASH {
      assert out == out[..|out| - 1] + [SLASH];
    } else {
      assert out == out[..|out| - 1] + [out[|out| - 1]];
      BackToIsRemoveLast(out[..|out| - 1]);
    }
  }

  /** Backing up over `..` removes the last segment; at the root it stays there. */
  lemma BackIsRemoveLast(out: seq<byte>)
    requires out == [] || out[0] == SLASH
    ensures Back(out + [SLASH]) == RemoveLast(out) + [SLASH]
  {
    hide RemoveLast;
    var o := out + [SLASH];
    if out == [] {
      assert o == [SLASH] && BackTo(o) == o;
      assert RemoveLast([]) == [] by { RemoveLastOfNothing(); }
    } else {
      assert o[..|o| - 1] == out && out[0] in out;
      BackToIsRemoveLast(out);
    }
  }

  lemma RemoveLastOfNothing()
    ensures RemoveLast([]) == []
  {
  }

  lemma {:induction false} SegmentEndIs(s: seq<byte>, i: nat, j: nat)
    requires i <= j <= |s| && SLASH !in s[i..j] && (j < |s| ==> s[j] == SLASH)
    ensures SegmentEnd(s, i) == j
    decreases j - i
  {
    if i < j {
      assert s[i] == s[i..j][0] && s[i..j][1..] == s[i + 1..j];
      SegmentEndIs(s, i + 1, j);
    }
  }

  /** Which step applies is decided by the segment behind the leading slash. */
  lemma WhichStep(r: seq<byte>)
    ensures DotFirst(r) <==> IsDot(r[..SegmentEnd(r, 0)])
    ensures DotsFirst(r) <==> IsDotDot(r[..SegmentEnd(r, 0)])
  {
    hide SegmentEnd;
    if DotFirst(r) {
      assert r[0..1] == [DOT];
      SegmentEndIs(r, 0, 1);
    }
    if DotsFirst(r) {
      assert r[0..2] == [DOT, DOT];
      SegmentEndIs(r, 0, 2);
    }
  }

  /** One step of the RFC on an input with a leading slash. */
  lemma RfcStep(r: seq<byte>, out: seq<byte>)
    ensures var k := SegmentEnd(r, 0);
      var rest := Behind(r, k + 1);
      RemoveDots([SLASH] + r, out) ==
        if IsDot(r[..k]) then RemoveDots([SLASH] + rest, out)
        else if IsDotDot(r[..k]) then RemoveDots([SLASH] + rest, RemoveLast(out))
        else RemoveDots(r[k..], out + [SLASH] + r[..k])
  {
    hide SegmentEnd, RemoveLast, DotFirst, DotsFirst;
    var k, input := SegmentEnd(r, 0), [SLASH] + r;
    WhichStep(r);
    assert input[0] == SLASH && input[1..] == r;
    if IsDot(r[..k]) {
      assert Behind(input, 3) == Behind(r, 2);
    } else if IsDotDot(r[..k]) {
      assert Behind(input, 4) == Behind(r, 3);
    } else {
      SegmentEndShift([SLASH], r, 0);
      assert SegmentEnd(input, 1) == 1 + k;
      assert input[..1 + k] == [SLASH] + r[..k] && input[1 + k..] == r[k..];
      Slices.Assoc3(out, [SLASH], r[..k]);
    }
  }

  lemma RemoveLastIsPrefix(out: seq<byte>)
    ensures RemoveLast(out) == out[..|RemoveLast(out)|]
  {
  }

  /** The loop, which has already copied the slash the RFC still holds in its input, does the same. */
  lemma {:induction false} WalkIsRemoveDots(out: seq<byte>, r: seq<byte>)
    requires out == [] || out[0] == SLASH
    ensures Walk(out + [SLASH], r) == RemoveDots([SLASH] + r, out)
    decreases |r|
  {
    hide SegmentEnd, RemoveLast, Back, RemoveDots;
    RfcStep(r, out);
    var k := SegmentEnd(r, 0);
    var c, rest := r[..k], Behind(r, k + 1);
    if r == [] {
      assert r[k..] == [] && out + [SLASH] + c == out + [SLASH];
      NoInput(out + [SLASH]);
    } else if IsDot(c) {
      WalkIsRemoveDots(out, rest);
    } else if IsDotDot(c) {
      BackIsRemoveLast(out);
      RemoveLastIsPrefix(out);
      WalkIsRemoveDots(RemoveLast(out), rest);
    } else if k < |r| {
      assert r[..k + 1] == c + [SLASH] && r[k..] == [SLASH] + rest;
      assert out + [SLASH] + r[..k + 1] == (out + [SLASH] + c) + [SLASH];
      WalkIsRemoveDots(out + [SLASH] + c, rest);
    } else {
      assert r[k..] == [] && r[..k] == r;
      NoInput(out + [SLASH] + r);
    }
  }

  lemma NoInput(out: seq<byte>)
    ensures RemoveDots([], out) == out && Walk(out, []) == out
  {
  }

  lemma WalkIsNormalized(path: seq<byte>)
    requires IsAbsolute(path)
    ensures Walk([], path) == Normalized(path)
  {
    hide RemoveDots, Back;
    var r := path[1..];
    assert path == [SLASH] + r;
    assert SegmentEnd(path, 0) == 0 && path[..0] == [] && path[..1] == [SLASH];
    assert Walk([], path) == Walk([] + [SLASH], r);
    WalkIsRemoveDots([], r);
  }

  // ----- what normalising means -----

  /** No segment of `s` is `.` or `..`. */
  predicate Dotless(s: seq<byte>)
    decreases |s|
  {
    var k := SegmentEnd(s, 0);
    !IsDot(s[..k]) && !IsDotDot(s[..k]) && (k < |s| ==> Dotless(s[k + 1..]))
  }

  lemma {:induction false} DotlessConcat(a: seq<byte>, b: seq<byte>)
    ensures Dotless(a + [SLASH] + b) <==> Dotless(a) && Dotless(b)
    decreases |a|
  {
    hide SegmentEnd;
    var s, k := a + [SLASH] + b, SegmentEnd(a, 0);
    assert s == a + ([SLASH] + b);
    assert s[0..k] == a[0..k] == a[..k];
    if k < |a| {
      SegmentEndIs(s, 0, k);
      assert s[k + 1..] == a[k + 1..] + [SLASH] + b;
      DotlessConcat(a[k + 1..], b);
    } else {
      assert s[k] == SLASH;
      SegmentEndIs(s, 0, k);
      assert s[k + 1..] == b;
    }
  }

  /** A path that starts with a slash and has no dot segments is left alone. */
  lemma {:induction false} WalkCopies(out: seq<byte>, s: seq<byte>)
    requires Dotless(s)
    ensures Walk(out, s) == out + s
    decreases |s|
  {
    hide SegmentEnd, Back;
    if s == [] {
      NoInput(out);
      assert out + s == out;
    } else {
      var n, k := Next(s), SegmentEnd(s, 0);
      if k < |s| {
        WalkCopies(out + s[..n], s[n..]);
      } else {
        NoInput(out + s[..n]);
        assert s[n..] == [];
      }
      assert (out + s[..n]) + s[n..] == out + s;
    }
  }

  lemma {:induction false} RemoveLastSplits(out: seq<byte>)
    requires SLASH in out
    ensures var p := RemoveLast(out); |p| < |out| && out == p + [SLASH] + out[|p| + 1..]
    decreases |out|
  {
    var o := out[..|out| - 1];
    assert out == o + [out[|out| - 1]];
    if out[|out| - 1] == SLASH {
      assert out[|o| + 1..] == [];
    } else {
      RemoveLastSplits(o);
    }
  }

  lemma RemoveLastDotless(out: seq<byte>)
    requires Dotless(out) && (out == [] || out[0] == SLASH)
    ensures Dotless(RemoveLast(out)) && (RemoveLast(out) == [] || RemoveLast(out)[0] == SLASH)
  {
    hide Dotless, RemoveLast;
    if out == [] {
      RemoveLastOfNothing();
    } else {
      assert out[0] in out;
      RemoveLastSplits(out);
      var p := RemoveLast(out);
      DotlessConcat(p, out[|p| + 1..]);
      assert p != [] ==> p[0] == out[0];
    }
  }

  lemma SegmentDotless(s: seq<byte>)
    ensures var c := s[..SegmentEnd(s, 0)]; Dotless(c) <==> !IsDot(c) && !IsDotDot(c)
  {
    hide SegmentEnd;
    var c := s[..SegmentEnd(s, 0)];
    assert s[0..SegmentEnd(s, 0)] == c && c[0..|c|] == c && c[..|c|] == c;
    SegmentEndIs(c, 0, |c|);
  }

  lemma {:induction false} WalkIsClean(out: seq<byte>, r: seq<byte>)
    requires Dotless(out) && (out == [] || out[0] == SLASH)
    ensures var w := Walk(out + [SLASH], r); Dotless(w) && IsAbsolute(w) && |w| <= |out| + 1 + |r|
    decreases |r|
  {
    hide SegmentEnd, RemoveLast, Back, Dotless;
    var k := SegmentEnd(r, 0);
    var c, rest := r[..k], Behind(r, k + 1);
    if r == [] {
      NoInput(out + [SLASH]);
      NothingDotless();
      DotlessConcat(out, []);
      assert out + [SLASH] + [] == out + [SLASH];
    } else if IsDot(c) {
      WalkIsClean(out, rest);
    } else if IsDotDot(c) {
      BackIsRemoveLast(out);
      RemoveLastDotless(out);
      WalkIsClean(RemoveLast(out), rest);
    } else {
      SegmentDotless(r);
      DotlessConcat(out, c);
      if k < |r| {
        assert r[..k + 1] == c + [SLASH];
        assert out + [SLASH] + r[..k + 1] == (out + [SLASH] + c) + [SLASH];
        WalkIsClean(out + [SLASH] + c, rest);
      } else {
        assert r[..k] == r;
        NoInput(out + [SLASH] + r);
      }
    }
  }

  lemma NothingDotless()
    ensures Dotless([])
  {
  }

  /** The result starts with a slash, has no dot segments, is no longer than the path, and does not
      change when normalised again. */
  lemma NormalizedIsClean(path: seq<byte>)
    requires IsAbsolute(path)
    ensures var n := Normalized(path); IsAbsolute(n) && Dotless(n) && |n| <= |path| && Normalized(n) == n
  {
    hide RemoveDots, Dotless, Walk;
    var r, n := path[1..], Normalized(path);
    assert path == [SLASH] + r && [] + [SLASH] == [SLASH];
    WalkIsRemoveDots([], r);
    NothingDotless();
    WalkIsClean([], r);
    WalkIsNormalized(n);
    WalkCopies([], n);
    assert [] + n == n;
  }

  /** A clean absolute path is its own normal form. */
  lemma CleanIsNormal(path: seq<byte>)
    requires IsAbsolute(path) && Dotless(path)
    ensures Normalized(path) == path
  {
    hide RemoveDots, Dotless, Walk;
    WalkIsNormalized(path);
    WalkCopies([], path);
    assert [] + path == path;
  }

  // ----- in place -----

  /** The component at `from`, and where the next one starts. */
  method Component(a: array<byte>, from: nat, end: nat) returns (stop: nat, next: nat)
    requires from < end <= a.Length
    ensures stop == from + SegmentEnd(a[from..end], 0) && next == from + Next(a[from..end])
  {
    next := from;
    ghost var s := a[from..end];
    while next < end && a[next] != SLASH
      invariant from <= next <= end && SLASH !in a[from..next]
    {
      assert a[from..next + 1] == a[from..next] + [a[next]];
      next := next + 1;
    }
    assert s[0..next - from] == a[from..next];
    assert next < end ==> s[next - from] == a[next];
    SegmentEndIs(s, 0, next - from);
    stop := next;
    if next < end {
      next := next + 1;
    }
  }

  /** Back to the previous slash of what was written. */
  method BackUp(o: array<byte>, d: nat) returns (d': nat)
    requires d <= o.Length
    ensures d' <= d && o[..d'] == Back(o[..d])
  {
    d' := d;
    if d' > 1 && o[d' - 1] == SLASH {
      d' := d' - 1;
      assert o[..d][..d - 1] == o[..d'];
    }
    ghost var b := o[..d'];
    while d' > 0 && o[d' - 1] != SLASH
      invariant d' <= d && BackTo(o[..d']) == BackTo(b)
    {
      assert o[..d'][..d' - 1] == o[..d' - 1];
      d' := d' - 1;
    }
  }

  /** `memmove` of the component at `s` to the end of what was written. */
  method Copy(a: array<byte>, s: nat, next: nat, o: array<byte>, d: nat) returns (d': nat)
    requires d <= s <= next <= a.Length && d + (next - s) <= o.Length
    modifies o
    ensures d' == d + (next - s) && o[..d'] == old(o[..d]) + old(a[s..next])
    ensures forall i | next <= i < a.Length :: a[i] == old(a[i])
  {
    forall i | 0 <= i < next - s {
      o[d + i] := a[s + i];
    }
    d' := d + (next - s);
  }

  lemma StepIs(out: seq<byte>, s: seq<byte>, c: seq<byte>)
    requires s != [] && c == s[..SegmentEnd(s, 0)]
    ensures Step(out, s) == if IsDot(c) then out else if IsDotDot(c) then Back(out) else out + s[..Next(s)]
  {
  }

  /** One turn of the loop. What is not read yet stays as it was, in `o` too when it is the same block. */
  method TakeComponent(a: array<byte>, s: nat, n: nat, o: array<byte>, d: nat) returns (s': nat, d': nat)
    requires d <= s < n <= a.Length && n <= o.Length
    modifies o
    ensures s' == s + Next(old(a[s..n])) && d' <= s'
    ensures o[..d'] == Step(old(o[..d]), old(a[s..n]))
    ensures a[s'..n] == old(a[s'..n])
  {
    hide SegmentEnd, Back, Next, Step;
    var stop;
    stop, s' := Component(a, s, n);
    ghost var r := a[s..n];
    assert a[s..stop] == r[..stop - s] && a[s..s'] == r[..s' - s];
    StepIs(o[..d], r, a[s..stop]);
    if stop - s == 1 && a[s] == DOT {
      d' := d;
    } else if stop - s == 2 && a[s] == DOT && a[s + 1] == DOT {
      d' := BackUp(o, d);
    } else {
      d' := Copy(a, s, s', o, d);
    }
  }

  /** Normalises the first `n` bytes of `a` into `o`, which may be the same block: the place written
      to never overtakes the place read from. */
  method Normalize(a: array<byte>, n: nat, o: array<byte>) returns (ok: bool, len: nat)
    requires n <= a.Length && n <= o.Length
    modifies o
    ensures ok == IsAbsolute(old(a[..n]))
    ensures ok ==> len <= n && o[..len] == Normalized(old(a[..n]))
    ensures !ok ==> len == 0
  {
    hide Next, Step, RemoveDots, Dotless;
    ghost var path := a[..n];
    if n == 0 || a[0] != SLASH {
      return false, 0;
    }
    var s: nat, d: nat := 0, 0;
    ghost var rest := path;
    while s < n
      invariant d <= s <= n
      invariant a[s..n] == rest
      invariant Walk(o[..d], rest) == Walk([], path)
      decreases n - s
    {
      ghost var more := a[s + Next(rest)..n];
      assert more == rest[Next(rest)..];
      s, d := TakeComponent(a, s, n, o, d);
      rest := more;
    }
    WalkIsNormalized(path);
    NormalizedIsClean(path);
    ok, len := true, d;
    if d == 0 {
      // The source writes a slash here; the first component is a slash that stays.
      assert false;
    }
  }
}
