/**
  The pattern matcher used for URIs and file names: `?` is one byte, `*` any bytes but a slash, `**`
  any bytes, `$` the end, letters match in either case, and `|` or `,` separate alternatives.  The
  backtracking matcher finds the longest prefix the pattern matches, or that there is none.
 */
module Glob {
  import opened Bytes

  const QUESTION: byte := 63
  const DOLLAR: byte := 36
  const STAR: byte := 42
  const SLASH: byte := 47
  const BAR: byte := 124
  const COMMA: byte := 44

  function Lower(b: byte): (r: byte)
    ensures r == 0 <==> b == 0
  {
    if 65 <= b <= 90 then b + 32 else b
  }

  predicate NoSlash(s: seq<byte>, a: nat, b: nat)
    requires b <= |s|
  {
    forall i | a <= i < b :: s[i] != SLASH
  }

  /** What a pattern without alternatives matches: the bytes of `s` from `a` up to `e`. */
  ghost predicate Matches(p: seq<byte>, s: seq<byte>, a: nat, e: nat)
    decreases |p|
  {
    a <= e <= |s| &&
    if p == [] then a == e
    else if p[0] == QUESTION then a < |s| && Matches(p[1..], s, a + 1, e)
    else if p[0] == DOLLAR then a == |s|
    else if p[0] == STAR && |p| > 1 && p[1] == STAR then exists k | a <= k <= e :: Matches(p[2..], s, k, e)
    else if p[0] == STAR then exists k | a <= k <= e :: NoSlash(s, a, k) && Matches(p[1..], s, k, e)
    else a < |s| && Lower(p[0]) == Lower(s[a]) && Matches(p[1..], s, a + 1, e)
  }

  /** Letters match in either case, and all other bytes only themselves. */
  lemma LowerIff(x: byte, y: byte)
    ensures Lower(x) == Lower(y) <==> SameLetter(x, y)
  {
  }

  /** What one byte of a pattern matches: `?` any byte, `*` any but a slash, `$` the end, and every other
      byte itself in either case. */
  lemma ByteRule(b: byte, c: byte)
    ensures Matches([b], [c], 0, 1) <==>
      b == '?' as byte || (b == '*' as byte && c != '/' as byte) || (b != '*' as byte && b != '$' as byte && SameLetter(b, c))
    ensures Matches([b], [], 0, 0) <==> b == '$' as byte || b == '*' as byte
  {
    LowerIff(b, c);
    hide Lower;
    assert [b][1..] == [];
    if b == STAR {
      var s: seq<byte> := [c];
      assert NoSlash(s, 0, 1) <==> s[0] != SLASH;
      assert NoSlash(s, 0, 0) && Matches([], s, 1, 1) && NoSlash([], 0, 0) && Matches([], [], 0, 0);
    }
  }

  /** The case of letters, in the pattern and in the string, does not matter. */
  lemma {:induction false} CaseKeepsMatches(p: seq<byte>, q: seq<byte>, s: seq<byte>, t: seq<byte>, a: nat, e: nat)
    requires SameText(p, q) && SameText(s, t)
    ensures Matches(p, s, a, e) <==> Matches(q, t, a, e)
    decreases |p|
  {
    if p != [] && a <= e <= |s| {
      assert SameLetter(p[0], q[0]);
      if p[0] == STAR && |p| > 1 && p[1] == STAR {
        assert SameLetter(p[1], q[1]);
        forall k | a <= k <= e ensures Matches(p[2..], s, k, e) <==> Matches(q[2..], t, k, e) {
          CaseKeepsMatches(p[2..], q[2..], s, t, k, e);
        }
      } else if p[0] == STAR {
        assert |p| > 1 ==> SameLetter(p[1], q[1]);
        forall k | a <= k <= e
          ensures (NoSlash(s, a, k) <==> NoSlash(t, a, k)) && (Matches(p[1..], s, k, e) <==> Matches(q[1..], t, k, e))
        {
          CaseKeepsMatches(p[1..], q[1..], s, t, k, e);
          CaseKeepsSlashes(s, t, a, k);
        }
      } else {
        CaseKeepsMatches(p[1..], q[1..], s, t, a + 1, e);
        if a < |s| {
          LowerIff(p[0], s[a]);
          LowerIff(q[0], t[a]);
        }
      }
    }
  }

  lemma CaseKeepsSlashes(s: seq<byte>, t: seq<byte>, a: nat, k: nat)
    requires SameText(s, t) && k <= |s|
    ensures NoSlash(s, a, k) <==> NoSlash(t, a, k)
  {
    forall i | a <= i < k ensures s[i] != SLASH <==> t[i] != SLASH {
      assert SameLetter(s[i], t[i]);
    }
  }

  /** `r` is the length of the longest match from `a`, or -1 when there is none. */
  ghost predicate IsLongest(p: seq<byte>, s: seq<byte>, a: nat, r: int)
  {
    if r == -1 then forall e: nat :: !Matches(p, s, a, e)
    else r >= 0 && Matches(p, s, a, a + r) && forall e: nat | Matches(p, s, a, e) :: e <= a + r
  }

  /** A match that starts later can always reach as far: where the two cross, a star can be
      shortened.  So the first success, from the longest star down, is the longest match. */
  lemma {:induction false} Reach(p: seq<byte>, s: seq<byte>, a: nat, e1: nat, b: nat, e2: nat)
    requires Matches(p, s, a, e1) && Matches(p, s, b, e2) && a <= b && e2 < e1
    ensures Matches(p, s, b, e1)
    decreases |p|
  {
    if p == [] || p[0] == DOLLAR {
    } else if p[0] == STAR && |p| > 1 && p[1] == STAR {
      var k1 :| a <= k1 <= e1 && Matches(p[2..], s, k1, e1);
      var k2 :| b <= k2 <= e2 && Matches(p[2..], s, k2, e2);
      if k1 <= k2 {
        Reach(p[2..], s, k1, e1, k2, e2);
      } else {
        assert b <= k1 <= e1;
      }
    } else if p[0] == STAR {
      var k1 :| a <= k1 <= e1 && NoSlash(s, a, k1) && Matches(p[1..], s, k1, e1);
      var k2 :| b <= k2 <= e2 && NoSlash(s, b, k2) && Matches(p[1..], s, k2, e2);
      if k1 <= k2 {
        Reach(p[1..], s, k1, e1, k2, e2);
      } else {
        assert NoSlash(s, b, k1);
      }
    } else {
      Reach(p[1..], s, a + 1, e1, b + 1, e2);
    }
  }

  /** A pattern without alternatives. */
  predicate Plain(p: seq<byte>)
  {
    BAR !in p && COMMA !in p
  }

  /** The byte the code compares with: at the end of the string, the one that stands behind it. */
  function At(s: seq<byte>, i: nat, after: byte): (b: byte)
  {
    if i < |s| then s[i] else after
  }

  // ----- running past the end -----

  predicate Compares(b: byte)
  {
    b != STAR && b != DOLLAR
  }

  /** What stands before `i` in the pattern matches up to the end of the string, and what stands there
      equals the byte behind it. */
  ghost predicate OverrunsAt(p: seq<byte>, s: seq<byte>, a: nat, after: byte, i: nat)
  {
    i < |p| && Compares(p[i]) && DOLLAR !in p[..i] && Lower(p[i]) == Lower(after) && Matches(p[..i], s, a, |s|)
  }

  ghost predicate Overruns(p: seq<byte>, s: seq<byte>, a: nat, after: byte)
  {
    exists i: nat :: OverrunsAt(p, s, a, after, i)
  }

  /** `p` overruns from somewhere between `lo` and `hi`. */
  ghost predicate OverrunsWithin(p: seq<byte>, s: seq<byte>, lo: nat, hi: nat, after: byte)
  {
    exists k: nat :: lo <= k <= hi && Overruns(p, s, k, after)
  }

  /** Only the last byte of the pattern can be compared behind the end. */
  ghost predicate EndOnly(p: seq<byte>, s: seq<byte>, a: nat, after: byte)
  {
    forall i: nat | OverrunsAt(p, s, a, after, i) :: i == |p| - 1
  }

  /** Without a byte that equals the one behind the string, in either case, a pattern stays inside. */
  lemma StaysInside(p: seq<byte>, s: seq<byte>, a: nat, after: byte)
    requires forall i | 0 <= i < |p| :: Lower(p[i]) != Lower(after)
    ensures !Overruns(p, s, a, after)
  {
  }

  /** So does every pattern on a string with its zero byte behind it. */
  lemma ZeroStopsAll(p: seq<byte>, s: seq<byte>, a: nat)
    requires 0 !in p
    ensures !Overruns(p, s, a, 0)
  {
    forall i | 0 <= i < |p| ensures Lower(p[i]) != Lower(0) {
      assert p[i] in p;
    }
    StaysInside(p, s, a, 0);
  }

  /** A match of a pattern begins with a match of what stands before `i`. */
  lemma {:induction false} PrefixMatches(p: seq<byte>, s: seq<byte>, a: nat, e: nat, i: nat) returns (e': nat)
    requires i <= |p| && Matches(p, s, a, e) && DOLLAR !in p[..i]
    ensures Matches(p[..i], s, a, e')
    decreases |p|
  {
    var q := p[..i];
    if i == 0 {
      e' := a;
    } else if p[0] == STAR && |p| > 1 && p[1] == STAR && i == 1 {
      e' := a;
      assert q == [STAR] && q[1..] == [];
      assert Matches(q[1..], s, a, a) && NoSlash(s, a, a);
    } else {
      assert q[0] == p[0];
      var n := if p[0] == STAR && |p| > 1 && p[1] == STAR then 2 else 1;
      assert q[n..] == p[n..][..i - n];
      assert DOLLAR !in p[n..][..i - n] by {
        assert forall x | x in p[n..][..i - n] :: x in q;
      }
      if p[0] == STAR && n == 2 {
        var k :| a <= k <= e && Matches(p[2..], s, k, e);
        e' := PrefixMatches(p[2..], s, k, e, i - 2);
        assert q[1] == p[1];
      } else if p[0] == STAR {
        var k :| a <= k <= e && NoSlash(s, a, k) && Matches(p[1..], s, k, e);
        e' := PrefixMatches(p[1..], s, k, e, i - 1);
        assert |q| > 1 ==> q[1] == p[1];
      } else {
        e' := PrefixMatches(p[1..], s, a + 1, e, i - 1);
      }
    }
  }

  /** Where a pattern matches, an overrun from an earlier place is one from here as well: trying the
      longest run of a star first meets it before any match. */
  lemma OverrunShows(p: seq<byte>, s: seq<byte>, k: nat, b: nat, e: nat, after: byte)
    requires k <= b && Overruns(p, s, k, after) && Matches(p, s, b, e)
    ensures Overruns(p, s, b, after)
  {
    hide Matches;
    var i: nat :| OverrunsAt(p, s, k, after, i);
    var e' := PrefixMatches(p, s, b, e, i);
    MatchEnds(p[..i], s, b, e');
    if e' < |s| {
      Reach(p[..i], s, k, |s|, b, e');
    }
    assert OverrunsAt(p, s, b, after, i);
  }

  lemma MatchEnds(p: seq<byte>, s: seq<byte>, a: nat, e: nat)
    requires Matches(p, s, a, e)
    ensures a <= e <= |s|
  {
  }

  lemma ByteOverruns(q: seq<byte>, s: seq<byte>, j: nat, after: byte)
    requires q != [] && Compares(q[0]) && j <= |s|
    ensures Overruns(q, s, j, after) <==>
      if j == |s| then Lower(q[0]) == Lower(after)
      else (q[0] == QUESTION || Lower(q[0]) == Lower(s[j])) && Overruns(q[1..], s, j + 1, after)
    ensures j < |s| && EndOnly(q, s, j, after) && (q[0] == QUESTION || Lower(q[0]) == Lower(s[j])) ==> EndOnly(q[1..], s, j + 1, after)
  {
    hide Compares;
    var fits := j < |s| && (q[0] == QUESTION || Lower(q[0]) == Lower(s[j]));
    assert q[..0] == [];
    if j == |s| && Lower(q[0]) == Lower(after) {
      assert OverrunsAt(q, s, j, after, 0);
    }
    if Overruns(q, s, j, after) {
      var i: nat :| OverrunsAt(q, s, j, after, i);
      if i > 0 {
        ByteShift(q, s, j, after, i - 1);
        assert OverrunsAt(q[1..], s, j + 1, after, i - 1);
      }
    }
    if fits {
      var tail, next := q[1..], j + 1;
      if Overruns(tail, s, next, after) {
        var i: nat :| OverrunsAt(tail, s, next, after, i);
        ByteShift(q, s, j, after, i);
        assert OverrunsAt(q, s, j, after, i + 1);
      }
      if EndOnly(q, s, j, after) {
        forall i: nat | OverrunsAt(tail, s, next, after, i) ensures i == |tail| - 1 {
          ByteShift(q, s, j, after, i);
          assert OverrunsAt(q, s, j, after, i + 1);
        }
      }
    }
  }

  lemma ByteShift(q: seq<byte>, s: seq<byte>, j: nat, after: byte, i: nat)
    requires q != [] && Compares(q[0])
    ensures OverrunsAt(q, s, j, after, i + 1) <==>
      j < |s| && (q[0] == QUESTION || Lower(q[0]) == Lower(s[j])) && OverrunsAt(q[1..], s, j + 1, after, i)
  {
    if i + 1 < |q| {
      var pre := q[..i + 1];
      assert pre[0] == q[0] && pre[1..] == q[1..][..i] && q[1..][i] == q[i + 1];
      assert pre == [q[0]] + q[1..][..i];
    }
  }

  lemma DollarStops(q: seq<byte>, s: seq<byte>, j: nat, after: byte)
    requires q == [] || q[0] == DOLLAR
    ensures !Overruns(q, s, j, after)
  {
    forall i: nat ensures !OverrunsAt(q, s, j, after, i) {
      if 0 < i < |q| {
        assert q[..i][0] == DOLLAR;
      }
    }
  }

  /** The part of a pattern behind a star that starts at `j` and reaches to `hi` at most, tried from
      the longest run of the star down. */
  method AfterStar(p: seq<byte>, s: seq<byte>, j: nat, hi: nat, after: byte) returns (res: int, beyond: bool)
    requires Plain(p) && j <= hi <= |s|
    ensures beyond == OverrunsWithin(p, s, j, hi, after)
    ensures !beyond && res == -1 ==> forall e: nat :: !MatchesWithin(p, s, j, hi, e)
    ensures !beyond && res != -1 ==> res >= 0 && MatchesWithin(p, s, j, hi, j + res)
    ensures !beyond && res != -1 ==> forall e: nat | MatchesWithin(p, s, j, hi, e) :: e <= j + res
    ensures beyond && (forall k: nat | j <= k <= hi :: EndOnly(p, s, k, after)) ==> res == |s| + 1 - j
    decreases |p|, 1
  {
    hide Matches, Overruns, EndOnly;
    var len: nat := hi - j;
    while true
      invariant j + len <= hi
      invariant forall k: nat, e: nat | j + len < k <= hi :: !Matches(p, s, k, e)
      invariant forall k: nat | j + len < k <= hi :: !Overruns(p, s, k, after)
      decreases len
    {
      res, beyond := MatchPlain(p, s, j + len, after);
      if beyond {
        res := len + res;
        return;
      }
      if res != -1 {
        Found(p, s, j, j + len, hi, j + len + res, after);
        res := len + res;
        assert Matches(p, s, j + len, j + res);
        return;
      }
      if len == 0 {
        return;
      }
      len := len - 1;
    }
  }

  /** The first success is the longest match, and nothing overruns. */
  lemma Found(p: seq<byte>, s: seq<byte>, j: nat, at: nat, hi: nat, end: nat, after: byte)
    requires j <= at <= hi && Matches(p, s, at, end) && !Overruns(p, s, at, after)
    requires forall e: nat | Matches(p, s, at, e) :: e <= end
    requires forall k: nat, e: nat | at < k <= hi :: !Matches(p, s, k, e)
    requires forall k: nat | at < k <= hi :: !Overruns(p, s, k, after)
    ensures !OverrunsWithin(p, s, j, hi, after)
    ensures forall e: nat | MatchesWithin(p, s, j, hi, e) :: e <= end
  {
    hide Matches, Overruns;
    forall k: nat | j <= k <= hi ensures !Overruns(p, s, k, after) {
      if k <= at && Overruns(p, s, k, after) {
        OverrunShows(p, s, k, at, end, after);
      }
    }
    forall e: nat | MatchesWithin(p, s, j, hi, e) ensures e <= end {
      var k: nat :| j <= k <= hi && Matches(p, s, k, e);
      if e > end {
        Reach(p, s, k, e, at, end);
      }
    }
  }

  /** How far a star at the front of `q` can reach from `j`, and what stands behind it. */
  ghost predicate StarOf(q: seq<byte>, rest: seq<byte>, s: seq<byte>, j: nat, len: nat)
  {
    && q != [] && q[0] == STAR && j + len <= |s|
    && if |q| > 1 && q[1] == STAR then rest == q[2..] && j + len == |s|
       else rest == q[1..] && NoSlash(s, j, j + len) && (j + len == |s| || s[j + len] == SLASH)
  }

  /** `q` matches up to `e` from somewhere between `lo` and `hi`. */
  ghost predicate MatchesWithin(q: seq<byte>, s: seq<byte>, lo: nat, hi: nat, e: nat)
  {
    exists k: nat :: lo <= k <= hi && Matches(q, s, k, e)
  }

  lemma StarNeeds(q: seq<byte>, rest: seq<byte>, s: seq<byte>, j: nat, len: nat, e: nat)
    requires StarOf(q, rest, s, j, len) && Matches(q, s, j, e)
    ensures MatchesWithin(rest, s, j, j + len, e)
  {
    if |q| > 1 && q[1] == STAR {
      var k :| j <= k <= e && Matches(q[2..], s, k, e);
      assert Matches(rest, s, k, e);
    } else {
      var k :| j <= k <= e && NoSlash(s, j, k) && Matches(q[1..], s, k, e);
      assert Matches(rest, s, k, e) && k <= j + len;
    }
  }

  lemma StarSuffices(q: seq<byte>, rest: seq<byte>, s: seq<byte>, j: nat, len: nat, e: nat)
    requires StarOf(q, rest, s, j, len) && MatchesWithin(rest, s, j, j + len, e)
    ensures Matches(q, s, j, e)
  {
    var k: nat :| j <= k <= j + len && Matches(rest, s, k, e);
    if |q| > 1 && q[1] == STAR {
      assert j <= k <= e && Matches(q[2..], s, k, e);
    } else {
      assert j <= k <= e && NoSlash(s, j, k) && Matches(q[1..], s, k, e);
    }
  }

  lemma StarMeans(q: seq<byte>, rest: seq<byte>, s: seq<byte>, j: nat, len: nat, e: nat)
    requires StarOf(q, rest, s, j, len)
    ensures Matches(q, s, j, e) == MatchesWithin(rest, s, j, j + len, e)
  {
    hide Matches;
    if Matches(q, s, j, e) {
      StarNeeds(q, rest, s, j, len, e);
    }
    if MatchesWithin(rest, s, j, j + len, e) {
      StarSuffices(q, rest, s, j, len, e);
    }
  }

  /** A star overruns when what stands behind it does, from somewhere it reaches. */
  lemma StarOverruns(q: seq<byte>, rest: seq<byte>, s: seq<byte>, j: nat, len: nat, after: byte)
    requires StarOf(q, rest, s, j, len)
    ensures Overruns(q, s, j, after) == OverrunsWithin(rest, s, j, j + len, after)
    ensures EndOnly(q, s, j, after) ==> forall k: nat | j <= k <= j + len :: EndOnly(rest, s, k, after)
  {
    hide Matches;
    var n := |q| - |rest|;
    if Overruns(q, s, j, after) {
      var i: nat :| OverrunsAt(q, s, j, after, i);
      StarShift(q, rest, s, j, len, after, i - n);
      var k: nat :| j <= k <= j + len && OverrunsAt(rest, s, k, after, i - n);
      assert Overruns(rest, s, k, after);
    }
    forall k: nat, i: nat | j <= k <= j + len && OverrunsAt(rest, s, k, after, i) ensures OverrunsAt(q, s, j, after, i + n) {
      StarShift(q, rest, s, j, len, after, i);
    }
    if OverrunsWithin(rest, s, j, j + len, after) {
      var k: nat :| j <= k <= j + len && Overruns(rest, s, k, after);
      var i: nat :| OverrunsAt(rest, s, k, after, i);
      assert OverrunsAt(q, s, j, after, i + n);
    }
  }

  lemma StarShift(q: seq<byte>, rest: seq<byte>, s: seq<byte>, j: nat, len: nat, after: byte, i: int)
    requires StarOf(q, rest, s, j, len)
    ensures var n := |q| - |rest|;
      && (i < 0 && i + n >= 0 ==> !OverrunsAt(q, s, j, after, i + n))
      && (i >= 0 ==> (OverrunsAt(q, s, j, after, i + n) <==> exists k: nat :: j <= k <= j + len && OverrunsAt(rest, s, k, after, i)))
  {
    hide Matches;
    var n := |q| - |rest|;
    if 0 <= i < |rest| {
      var pre, tail := q[..i + n], rest[..i];
      assert q == q[..n] + rest && pre == q[..n] + tail && rest[i] == q[i + n];
      assert n == 2 ==> q[..2] == [STAR, STAR];
      assert n == 1 ==> q[..1] == [STAR];
      StarPrefix(q, rest, s, j, len, i);
      StarMeans(pre, tail, s, j, len, |s|);
      assert DOLLAR in pre <==> DOLLAR in tail;
      if OverrunsAt(q, s, j, after, i + n) {
        var k: nat :| j <= k <= j + len && Matches(tail, s, k, |s|);
        assert OverrunsAt(rest, s, k, after, i);
      }
      if k: nat :| j <= k <= j + len && OverrunsAt(rest, s, k, after, i) {
        assert MatchesWithin(tail, s, j, j + len, |s|);
      }
    }
  }

  lemma StarPrefix(q: seq<byte>, rest: seq<byte>, s: seq<byte>, j: nat, len: nat, i: nat)
    requires StarOf(q, rest, s, j, len) && i < |rest|
    ensures StarOf(q[..i + |q| - |rest|], rest[..i], s, j, len)
  {
    var n := |q| - |rest|;
    var pre := q[..i + n];
    assert pre[n..] == rest[..i];
    assert |pre| > 1 ==> pre[1] == q[1];
  }

  lemma OneByte(q: seq<byte>, s: seq<byte>, j: nat)
    requires q != [] && q[0] != STAR && q[0] != DOLLAR
    ensures forall e: nat :: Matches(q, s, j, e) <==>
        (j < |s| && (q[0] == QUESTION || Lower(q[0]) == Lower(s[j])) && Matches(q[1..], s, j + 1, e))
  {
  }

  lemma NoByte(q: seq<byte>, s: seq<byte>, j: nat)
    requires j <= |s| && (q == [] || q[0] == DOLLAR)
    ensures forall e: nat :: Matches(q, s, j, e) <==> (e == j && (q == [] || j == |s|))
  {
  }

  lemma NothingAfterStar(s: seq<byte>, lo: nat, hi: nat)
    requires lo <= hi <= |s|
    ensures forall e: nat :: MatchesWithin([], s, lo, hi, e) <==> lo <= e <= hi
  {
    forall e: nat | lo <= e <= hi ensures MatchesWithin([], s, lo, hi, e) {
      assert Matches([], s, e, e);
    }
  }

  /** A star with nothing behind it takes all it can. */
  lemma StarAtEnd(p: seq<byte>, q: seq<byte>, s: seq<byte>, from: nat, j: nat, len: nat)
    requires from <= j && StarOf(q, [], s, j, len)
    requires forall e: nat :: Matches(p, s, from, e) == Matches(q, s, j, e)
    ensures IsLongest(p, s, from, j + len - from)
  {
    hide Matches, MatchesWithin, StarOf;
    assert j + len <= |s| by {
      StarFits(q, s, j, len);
    }
    NothingAfterStar(s, j, j + len);
    forall e: nat ensures Matches(p, s, from, e) <==> j <= e <= j + len {
      StarMeans(q, [], s, j, len, e);
      assert Matches(p, s, from, e) == Matches(q, s, j, e);
    }
  }

  lemma StarFits(q: seq<byte>, s: seq<byte>, j: nat, len: nat)
    requires StarOf(q, [], s, j, len)
    ensures j + len <= |s|
  {
  }

  /** The longest match from `from`; or, if the comparison runs past the end of the string, `beyond`.
      What the source then answers depends on the memory it runs into, unless the pattern ends there. */
  method MatchPlain(p: seq<byte>, s: seq<byte>, from: nat, after: byte) returns (res: int, beyond: bool)
    requires Plain(p) && from <= |s|
    ensures beyond == Overruns(p, s, from, after)
    ensures !beyond ==> IsLongest(p, s, from, res)
    ensures beyond && EndOnly(p, s, from, after) ==> res == |s| + 1 - from
    decreases |p|, 0
  {
    hide Matches, MatchesWithin, Overruns, OverrunsWithin, EndOnly;
    var i: nat, j: nat := 0, from;
    beyond := false;
    assert p[0..] == p;
    while i < |p|
      invariant i <= |p| && from <= j <= |s| && !beyond
      invariant forall e: nat :: Matches(p, s, from, e) == Matches(p[i..], s, j, e)
      invariant Overruns(p, s, from, after) == Overruns(p[i..], s, j, after)
      invariant EndOnly(p, s, from, after) ==> EndOnly(p[i..], s, j, after)
    {
      ghost var q := p[i..];
      assert q[0] == p[i] && q[1..] == p[i + 1..];
      if Compares(p[i]) {
        OneByte(q, s, j);
        ByteOverruns(q, s, j, after);
      }
      if p[i] == QUESTION && j != |s| {
        i, j := i + 1, j + 1;
      } else if p[i] == DOLLAR {
        NoByte(q, s, j);
        DollarStops(q, s, j, after);
        res := if j == |s| then j - from else -1;
        return;
      } else if p[i] == STAR {
        i := i + 1;
        var len: nat := 0;
        if i < |p| && p[i] == STAR {
          i := i + 1;
          len := |s| - j;
        } else {
          while j + len != |s| && s[j + len] != SLASH
            invariant j + len <= |s| && NoSlash(s, j, j + len)
          {
            len := len + 1;
          }
        }
        assert StarOf(q, p[i..], s, j, len);
        StarOverruns(q, p[i..], s, j, len, after);
        if i == |p| {
          assert p[i..] == [];
          StarAtEnd(p, q, s, from, j, len);
          NoneWithin(s, j, j + len, after);
          res := j + len - from;
          return;
        }
        forall e: nat {
          StarMeans(q, p[i..], s, j, len, e);
        }
        res, beyond := AfterStar(p[i..], s, j, j + len, after);
        if res != -1 {
          res := j - from + res;
        }
        return;
      } else if Lower(p[i]) != Lower(At(s, j, after)) {
        res := -1;
        return;
      } else if j == |s| {
        res, beyond := j + 1 - from, true;
        return;
      } else {
        i, j := i + 1, j + 1;
      }
    }
    assert p[i..] == [];
    NoByte([], s, j);
    DollarStops([], s, j, after);
    res := j - from;
  }

  lemma NoneWithin(s: seq<byte>, lo: nat, hi: nat, after: byte)
    ensures !OverrunsWithin([], s, lo, hi, after)
  {
  }

  /** `/a?` on the path `/a` with a `?` behind it, as in a request for `/a?x`: no prefix matches, but
      the comparison runs past the end, at the last byte of the pattern. */
  lemma QueryMarkMatches()
    ensures var p, s := [47, 97, 63], [47, 97];
      Plain(p) && IsLongest(p, s, 0, -1) && Overruns(p, s, 0, 63) && EndOnly(p, s, 0, 63)
  {
    var p: seq<byte>, s: seq<byte> := [47, 97, 63], [47, 97];
    var q1, q2 := p[1..], p[2..];
    assert q1[0] == 97 && q1[1..] == q2 && q2 == [63] && q2[1..] == [];
    hide Matches, Overruns, EndOnly;
    OneByte(p, s, 0);
    OneByte(q1, s, 1);
    OneByte(q2, s, 2);
    ByteOverruns(p, s, 0, 63);
    ByteOverruns(q1, s, 1, 63);
    ByteOverruns(q2, s, 2, 63);
    LastOnly(p, s, 63);
  }

  lemma LastOnly(p: seq<byte>, s: seq<byte>, after: byte)
    requires forall i | 0 <= i < |p| - 1 :: Lower(p[i]) != Lower(after)
    ensures EndOnly(p, s, 0, after)
  {
  }

  // ----- alternatives -----

  function IndexOf(p: seq<byte>, b: byte): (i: nat)
    ensures i <= |p| && b !in p[..i] && (i < |p| ==> p[i] == b)
    ensures i == |p| <==> b !in p
  {
    if p == [] || p[0] == b then 0
    else
      var i := 1 + IndexOf(p[1..], b);
      assert p[..i] == [p[0]] + p[1..][..i - 1];
      assert p == [p[0]] + p[1..];
      i
  }

  /** Where a pattern is cut in two: at the first bar, else at the first comma. */
  function Cut(p: seq<byte>): (i: nat)
    ensures i <= |p| && (i == |p| <==> Plain(p))
  {
    if BAR in p then IndexOf(p, BAR) else IndexOf(p, COMMA)
  }

  /** The alternatives, in the order in which they are tried. */
  function Alternatives(p: seq<byte>): (r: seq<seq<byte>>)
    ensures |r| > 0
    decreases |p|
  {
    var i := Cut(p);
    if i == |p| then [p] else Alternatives(p[..i]) + Alternatives(p[i + 1..])
  }

  /** A bar separates before a comma does, and the first of its kind first; without either there is one
      alternative. */
  lemma AlternativesRule(a: seq<byte>, b: seq<byte>)
    ensures '|' as byte !in a ==> Alternatives(a + ['|' as byte] + b) == Alternatives(a) + Alternatives(b)
    ensures '|' as byte !in a && '|' as byte !in b && ',' as byte !in a ==>
      Alternatives(a + [',' as byte] + b) == Alternatives(a) + Alternatives(b)
    ensures '|' as byte !in a && ',' as byte !in a ==> Alternatives(a) == [a]
  {
    hide IndexOf;
    CutAt(a, BAR, b);
    CutAt(a, COMMA, b);
    var p, q := a + [BAR] + b, a + [COMMA] + b;
    assert p[|a|] == BAR && p[..|a|] == a && p[|a| + 1..] == b;
    assert q[|a|] == COMMA && q[..|a|] == a && q[|a| + 1..] == b;
    assert BAR !in a && BAR !in b ==> BAR !in q;
  }

  lemma CutAt(a: seq<byte>, mark: byte, b: seq<byte>)
    ensures mark !in a ==> IndexOf(a + [mark] + b, mark) == |a|
  {
    var p := a + [mark] + b;
    var i := IndexOf(p, mark);
    assert p[|a|] == mark && p[..|a|] == a;
    assert i < |a| ==> p[i] == p[..|a|][i];
  }

  /** What the matcher answers for several alternatives: the longest match of the first one that
      matches at least one byte; if there is none, what the last one alone gives. */
  ghost predicate Verdict(alts: seq<seq<byte>>, s: seq<byte>, r: int)
    requires |alts| > 0
  {
    if |alts| == 1 then IsLongest(alts[0], s, 0, r)
    else if NonEmptyMatch(alts[0], s) then IsLongest(alts[0], s, 0, r)
    else Verdict(alts[1..], s, r)
  }

  ghost predicate NonEmptyMatch(p: seq<byte>, s: seq<byte>)
  {
    exists e: nat :: e > 0 && Matches(p, s, 0, e)
  }

  lemma {:induction false} VerdictConcat(a: seq<seq<byte>>, b: seq<seq<byte>>, s: seq<byte>, r: int)
    requires |a| > 0 && |b| > 0 && r > 0 && Verdict(a, s, r)
    ensures Verdict(a + b, s, r)
    decreases |a|
  {
    hide Matches;
    assert (a + b)[0] == a[0] && (a + b)[1..] == a[1..] + b;
    if |a| == 1 {
      assert Matches(a[0], s, 0, 0 + r);
    } else if !NonEmptyMatch(a[0], s) {
      VerdictConcat(a[1..], b, s, r);
    }
  }

  lemma {:induction false} VerdictSkips(a: seq<seq<byte>>, b: seq<seq<byte>>, s: seq<byte>, r0: int, r: int)
    requires |a| > 0 && |b| > 0 && Verdict(a, s, r0) && r0 <= 0 && Verdict(b, s, r)
    ensures Verdict(a + b, s, r)
    decreases |a|
  {
    hide Matches;
    assert (a + b)[0] == a[0] && (a + b)[1..] == a[1..] + b;
    if |a| == 1 {
      assert a[1..] + b == b;
    } else {
      VerdictSkips(a[1..], b, s, r0, r);
    }
  }

  /** The comparison runs past the end in an alternative that is tried. */
  ghost predicate Beyond(alts: seq<seq<byte>>, s: seq<byte>, after: byte)
    requires |alts| > 0
  {
    Overruns(alts[0], s, 0, after) || (|alts| > 1 && !NonEmptyMatch(alts[0], s) && Beyond(alts[1..], s, after))
  }

  lemma {:induction false} BeyondConcat(a: seq<seq<byte>>, b: seq<seq<byte>>, s: seq<byte>, after: byte)
    requires |a| > 0 && |b| > 0
    ensures Beyond(a + b, s, after) <==>
      Beyond(a, s, after) || ((forall i | 0 <= i < |a| :: !NonEmptyMatch(a[i], s)) && Beyond(b, s, after))
    decreases |a|
  {
    hide Overruns, NonEmptyMatch;
    assert (a + b)[0] == a[0] && (a + b)[1..] == a[1..] + b;
    if |a| == 1 {
      assert a[1..] + b == b;
    } else {
      BeyondConcat(a[1..], b, s, after);
      assert forall i | 0 < i < |a| :: a[i] == a[1..][i - 1];
      assert forall i | 0 <= i < |a[1..]| :: a[1..][i] == a[i + 1];
    }
  }

  method MatchPrefix(p: seq<byte>, s: seq<byte>, after: byte) returns (res: int, beyond: bool)
    ensures beyond == Beyond(Alternatives(p), s, after)
    ensures !beyond ==> Verdict(Alternatives(p), s, res)
    decreases |p|
  {
    hide Matches, Overruns, NonEmptyMatch, Verdict, Beyond;
    var i := Cut(p);
    if i < |p| {
      ghost var a, b := Alternatives(p[..i]), Alternatives(p[i + 1..]);
      BeyondConcat(a, b, s, after);
      res, beyond := MatchPrefix(p[..i], s, after);
      if beyond {
        return;
      }
      PositiveVerdict(a, s, res);
      if res > 0 {
        VerdictConcat(a, b, s, res);
        return;
      }
      var second;
      second, beyond := MatchPrefix(p[i + 1..], s, after);
      if !beyond {
        VerdictSkips(a, b, s, res, second);
      }
      res := second;
      return;
    }
    res, beyond := MatchPlain(p, s, 0, after);
    OneAlternative(p, s, res, after);
  }

  lemma OneAlternative(p: seq<byte>, s: seq<byte>, r: int, after: byte)
    ensures Beyond([p], s, after) == Overruns(p, s, 0, after) && Verdict([p], s, r) == IsLongest(p, s, 0, r)
  {
  }

  /** A positive answer means that some alternative matches a non-empty prefix, and conversely. */
  lemma {:induction false} PositiveVerdict(alts: seq<seq<byte>>, s: seq<byte>, r: int)
    requires |alts| > 0 && Verdict(alts, s, r)
    ensures r > 0 <==> exists i | 0 <= i < |alts| :: NonEmptyMatch(alts[i], s)
    decreases |alts|
  {
    hide Matches;
    assert |alts| == 1 && r > 0 ==> Matches(alts[0], s, 0, 0 + r);
    if NonEmptyMatch(alts[0], s) {
      var e: nat :| e > 0 && Matches(alts[0], s, 0, e);
    } else if |alts| > 1 {
      PositiveVerdict(alts[1..], s, r);
      if r > 0 {
        var i :| 0 <= i < |alts[1..]| && NonEmptyMatch(alts[1..][i], s);
        assert alts[i + 1] == alts[1..][i];
      }
      forall i | 0 < i < |alts| && NonEmptyMatch(alts[i], s) ensures r > 0 {
        assert alts[i] == alts[1..][i - 1];
      }
    }
  }

  /** `p` matches some prefix, be it the empty one. */
  ghost predicate AnyMatch(p: seq<byte>, s: seq<byte>)
  {
    exists e: nat :: Matches(p, s, 0, e)
  }

  /** The matcher finds a match exactly when some alternative matches at least one byte or the last
      one matches at all. */
  lemma {:induction false} AnswerIff(alts: seq<seq<byte>>, s: seq<byte>, r: int)
    requires |alts| > 0 && Verdict(alts, s, r)
    ensures r >= 0 <==> (exists i | 0 <= i < |alts| :: NonEmptyMatch(alts[i], s)) || AnyMatch(alts[|alts| - 1], s)
    decreases |alts|
  {
    hide Matches;
    PositiveVerdict(alts, s, r);
    if |alts| == 1 {
      assert r >= 0 ==> Matches(alts[0], s, 0, 0 + r);
    } else if !NonEmptyMatch(alts[0], s) {
      AnswerIff(alts[1..], s, r);
      PositiveVerdict(alts[1..], s, r);
      assert alts[1..][|alts| - 2] == alts[|alts| - 1];
    } else {
      assert r > 0;
    }
  }

  /** An earlier alternative that matches only the empty prefix is forgotten: the whole pattern then
      fails although one of its alternatives matches. */
  lemma EmptyMatchIsForgotten()
    ensures IsLongest([], [97], 0, 0) && Alternatives([BAR, 98]) == [[], [98]] && Verdict([[], [98]], [97], -1)
  {
    assert [BAR, 98][..0] == [] && [BAR, 98][1..] == [98];
    assert IndexOf([BAR, 98], BAR) == 0;
    assert BAR in [BAR, 98];
    assert Cut([BAR, 98]) == 0;
    var empty: seq<byte> := [];
    assert Plain(empty) && Cut(empty) == 0;
    assert Alternatives(empty) == [empty];
    assert Plain([98]) && Alternatives([98]) == [[98]];
    assert [empty, [98]][1..] == [[98]];
    assert Matches([], [97], 0, 0);
  }
}
