/** Facts about slices of sequences, named so that proofs can say which one they use. */
module Slices {

  lemma OfPrefix<T>(s: seq<T>, t: seq<T>, a: nat, b: nat)
    requires a <= b <= |s|
    ensures (s + t)[a..b] == s[a..b]
  {
  }

  lemma OfSuffix<T>(s: seq<T>, t: seq<T>, a: nat, b: nat)
    requires |s| <= a <= b <= |s| + |t|
    ensures (s + t)[a..b] == t[a - |s|..b - |s|]
  {
  }

  lemma DropDrop<T>(s: seq<T>, a: nat, b: nat)
    requires a + b <= |s|
    ensures s[a..][b..] == s[a + b..]
  {
  }

  lemma Middle<T>(a: seq<T>, b: seq<T>, c: seq<T>)
    ensures (a + b + c)[|a|..|a| + |b|] == b && (a + b + c)[|a| + |b|..] == c && (a + b + c)[..|a|] == a
  {
  }

  lemma Thirds<T>(s: seq<T>, a: nat, b: nat)
    requires a <= b <= |s|
    ensures s == s[..a] + s[a..b] + s[b..]
  {
  }

  lemma Assoc3<T>(a: seq<T>, b: seq<T>, c: seq<T>)
    ensures a + (b + c) == a + b + c
  {
  }

  lemma Assoc<T>(a: seq<T>, b: seq<T>, c: seq<T>, d: seq<T>)
    ensures a + (b + c + d) == (a + b) + c + d
  {
  }

  lemma SnocInjective<T>(a: seq<T>, x: T, b: seq<T>, y: T)
    requires a + [x] == b + [y]
    ensures a == b && x == y
  {
    assert (a + [x])[..|a|] == a && (b + [y])[..|b|] == b;
    assert (a + [x])[|a|] == x && (b + [y])[|b|] == y;
  }

  /** Two steps of a queue, each taking `a` in and giving `w` out, are one step. */
  lemma Regroup<T>(held: seq<T>, a: seq<T>, w: seq<T>, mid: seq<T>, a': seq<T>, w': seq<T>, end: seq<T>)
    requires held + a == w + mid && mid + a' == w' + end
    ensures held + (a + a') == w + w' + end
  {
    Assoc3(held, a, a');
    Assoc3(w, mid, a');
    Assoc3(w, w', end);
  }
}
