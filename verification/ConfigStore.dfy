/**
  The camera's configuration: a text file of lines `NAME value`, rewritten line by line when a
  value is set. A line is read into a buffer of 256 bytes, and a longer one is taken in pieces, each
  for a line of its own. The results are about all text files and values: entries of one piece
  make the file a map from names to values, and each law says exactly what it needs.
 */
module ConfigStore {
  import opened Bytes
  import Slices

  const NL: byte := 10
  const CR: byte := 13
  const SPACE: byte := 32
  const QUOTE: byte := 34
  const SSID: seq<byte> := [83, 83, 73, 68]
  const BUFFER_SIZE := 256

  // ----- lines -----

  predicate EndsLine(b: byte)
  {
    b == NL || b == CR
  }

  /** The length of the first line, its end included. */
  function LineSize(s: seq<byte>): (n: nat)
    ensures n <= |s| && (s != [] ==> n > 0)
  {
    if s == [] then 0 else if EndsLine(s[0]) then 1 else 1 + LineSize(s[1..])
  }

  /** How much of the first line is read at once. */
  function PieceSize(s: seq<byte>): (n: nat)
    ensures n <= |s| && (s != [] ==> n > 0) && n <= BUFFER_SIZE
  {
    if LineSize(s) < BUFFER_SIZE then LineSize(s) else BUFFER_SIZE
  }

  /** A carriage return counts as a line end. */
  function Plain(s: seq<byte>): (r: seq<byte>)
    ensures |r| == |s|
  {
    seq(|s|, i requires 0 <= i < |s| => if s[i] == CR then NL else s[i])
  }

  /** A file as it is read: its lines, those longer than the buffer in pieces. */
  function Lines(s: seq<byte>): (ls: seq<seq<byte>>)
    decreases |s|
  {
    if s == [] then [] else [Plain(s[..PieceSize(s)])] + Lines(s[PieceSize(s)..])
  }

  /** The buffer has room for every line and the zero byte behind it. */
  predicate Short(ls: seq<seq<byte>>)
  {
    forall i | 0 <= i < |ls| :: |ls[i]| < BUFFER_SIZE
  }

  predicate Fits(s: seq<byte>)
  {
    Short(Lines(s))
  }

  /** The text of a buffer, up to a zero byte. */
  function Text(s: seq<byte>): (t: seq<byte>)
    ensures t <= s && 0 !in t && (|t| < |s| ==> s[|t|] == 0)
    ensures 0 !in s ==> t == s
  {
    if s == [] || s[0] == 0 then [] else [s[0]] + Text(s[1..])
  }

  // ----- entries -----

  predicate Contains(s: seq<byte>, part: seq<byte>)
  {
    |part| <= |s| && (part <= s || Contains(s[1..], part))
  }

  /** Names that hold `SSID` have their values in quotes. */
  predicate Quotes(name: seq<byte>)
  {
    Contains(name, SSID)
  }

  function Entry(name: seq<byte>, value: seq<byte>): (line: seq<byte>)
  {
    if Quotes(name) then name + ([SPACE, QUOTE] + value + [QUOTE, NL]) else name + ([SPACE] + value + [NL])
  }

  /** `isspace`. */
  predicate IsBlank(b: byte)
  {
    b == SPACE || 9 <= b <= 13
  }

  function SkipBlanks(s: seq<byte>): (t: seq<byte>)
  {
    if s != [] && IsBlank(s[0]) then SkipBlanks(s[1..]) else s
  }

  function Word(s: seq<byte>): (w: seq<byte>)
  {
    if s == [] || IsBlank(s[0]) then [] else [s[0]] + Word(s[1..])
  }

  function UpToQuote(s: seq<byte>): (w: seq<byte>)
  {
    if s == [] || s[0] == QUOTE then [] else [s[0]] + UpToQuote(s[1..])
  }

  /** `strstr`. */
  lemma {:induction false} ContainsIff(s: seq<byte>, part: seq<byte>)
    ensures Contains(s, part) <==> exists i: nat :: i <= |s| && part <= s[i..]
    decreases |s|
  {
    assert s[0..] == s;
    if s == [] {
    } else {
      ContainsIff(s[1..], part);
      forall i: nat | i <= |s[1..]| ensures s[1..][i..] == s[i + 1..] {
      }
      if Contains(s, part) && !(part <= s) {
        var i: nat :| i <= |s[1..]| && part <= s[1..][i..];
        assert part <= s[i + 1..];
      }
      if i: nat :| i <= |s| && part <= s[i..] {
        assert i > 0 ==> part <= s[1..][i - 1..];
      }
    }
  }

  /** White space, line ends and quotes, as the standard library has them. */
  lemma CharactersAre(b: byte)
    ensures IsBlank(b) <==> b in Ascii(" \t\n\r") || b == 11 || b == 12
    ensures EndsLine(b) <==> b in Ascii("\n\r")
    ensures Quotes(Ascii("SSID")) && QUOTE == '\"' as byte && SPACE == ' ' as byte
  {
    assert Ascii(" \t\n\r") == [32, 9, 10, 13] && Ascii("\n\r") == [10, 13];
    assert SSID == Ascii("SSID");
  }

  /** What is scanned from a text: blanks are skipped, then a word, or what stands between two quotes. */
  lemma ScannedRule(name: seq<byte>, blanks: seq<byte>, word: seq<byte>, rest: seq<byte>)
    requires forall i | 0 <= i < |blanks| :: IsBlank(blanks[i])
    ensures !Quotes(name) && (forall i | 0 <= i < |word| :: !IsBlank(word[i])) && (rest != [] ==> IsBlank(rest[0])) && word != [] ==>
      Scanned(name, blanks + word + rest) == word
    ensures Quotes(name) && QUOTE !in word && (rest != [] ==> rest[0] == QUOTE) ==>
      Scanned(name, blanks + ([QUOTE] + word) + rest) == word
    ensures Quotes(name) && word != [] && word[0] != QUOTE && !IsBlank(word[0]) ==> Scanned(name, blanks + word + rest) == []
  {
    hide Quotes, Word, UpToQuote;
    if word != [] && !IsBlank(word[0]) {
      SkipFront(blanks, word, rest);
    }
    var quoted := [QUOTE] + word;
    SkipFront(blanks, quoted, rest);
    assert (quoted + rest)[1..] == word + rest;
    if !Quotes(name) && (forall i | 0 <= i < |word| :: !IsBlank(word[i])) && (rest != [] ==> IsBlank(rest[0])) {
      WordIs(word, rest);
    }
    if QUOTE !in word && (rest != [] ==> rest[0] == QUOTE) {
      UpToQuoteIs(word, rest);
    }
  }

  lemma {:induction false} SkipFront(blanks: seq<byte>, word: seq<byte>, rest: seq<byte>)
    requires (forall i | 0 <= i < |blanks| :: IsBlank(blanks[i])) && word != [] && !IsBlank(word[0])
    ensures SkipBlanks(blanks + word + rest) == word + rest
    decreases |blanks|
  {
    var s := blanks + word + rest;
    if blanks == [] {
      assert s == word + rest && s[0] == word[0];
    } else {
      assert s[0] == blanks[0] && s[1..] == blanks[1..] + word + rest;
      SkipFront(blanks[1..], word, rest);
    }
  }

  /** What `sscanf` makes of the text behind a name. */
  function Scanned(name: seq<byte>, s: seq<byte>): (value: seq<byte>)
  {
    var t := SkipBlanks(s);
    if !Quotes(name) then Word(t) else if t != [] && t[0] == QUOTE then UpToQuote(t[1..]) else []
  }

  // ----- reading and writing -----

  predicate Matches(name: seq<byte>, line: seq<byte>)
  {
    name <= Text(line)
  }

  /** The value in the first line that starts with the name; no value if there is none. */
  function Find(ls: seq<seq<byte>>, name: seq<byte>): (value: seq<byte>)
  {
    if ls == [] then []
    else if Matches(name, ls[0]) then Scanned(name, Text(ls[0])[|name|..])
    else Find(ls[1..], name)
  }

  /** Some line starts with the name. */
  predicate Present(ls: seq<seq<byte>>, name: seq<byte>)
  {
    ls != [] && (Matches(name, ls[0]) || Present(ls[1..], name))
  }

  function Replace(line: seq<byte>, name: seq<byte>, value: seq<byte>): (r: seq<byte>)
  {
    if Matches(name, line) then Entry(name, value) else Text(line)
  }

  /** The lines in order, those that start with the name replaced. */
  function Joined(ls: seq<seq<byte>>, name: seq<byte>, value: seq<byte>): (s: seq<byte>)
  {
    if ls == [] then [] else Replace(ls[0], name, value) + Joined(ls[1..], name, value)
  }

  function Read(file: seq<byte>, name: seq<byte>): (value: seq<byte>)
  {
    Find(Lines(file), name)
  }

  function Write(file: seq<byte>, name: seq<byte>, value: seq<byte>): (r: seq<byte>)
  {
    Joined(Lines(file), name, value)
  }

  // ----- splitting and joining -----

  /** What can be read at once: no zero byte, and a line end nowhere but at the end. */
  predicate GoodLine(line: seq<byte>)
  {
    0 < |line| <= BUFFER_SIZE && 0 !in line && CR !in line && NL !in line[..|line| - 1]
  }

  /** A line end or a full buffer, after which reading goes on with another line. */
  predicate Ended(line: seq<byte>)
  {
    line != [] && (line[|line| - 1] == NL || |line| == BUFFER_SIZE)
  }

  /** Only the last line can lack its end. */
  predicate GoodLines(ls: seq<seq<byte>>)
  {
    (forall i | 0 <= i < |ls| :: GoodLine(ls[i])) && (forall i | 0 <= i < |ls| - 1 :: Ended(ls[i]))
  }

  /** What stands before a line's first end does not shorten it. */
  lemma {:induction false} LineSizeBehind(front: seq<byte>, w: seq<byte>)
    requires forall i | 0 <= i < |front| :: !EndsLine(front[i])
    ensures LineSize(front + w) == |front| + LineSize(w)
    decreases |front|
  {
    if front == [] {
      assert front + w == w;
    } else {
      assert (front + w)[0] == front[0] && (front + w)[1..] == front[1..] + w;
      LineSizeBehind(front[1..], w);
    }
  }

  lemma PieceSizeIs(line: seq<byte>, rest: seq<byte>)
    requires GoodLine(line) && (Ended(line) || rest == [])
    ensures PieceSize(line + rest) == |line|
  {
    var front, last := line[..|line| - 1], line[|line| - 1];
    forall i | 0 <= i < |front| ensures !EndsLine(front[i]) {
      assert front[i] in front && line[i] in line;
    }
    assert line == front + [last];
    assert line + rest == front + ([last] + rest);
    LineSizeBehind(front, [last] + rest);
    assert ([last] + rest)[1..] == rest && LineSize([]) == 0;
  }

  lemma PlainLine(line: seq<byte>)
    requires CR !in line
    ensures Plain(line) == line
  {
  }

  lemma GoodTail(ls: seq<seq<byte>>)
    requires GoodLines(ls) && ls != []
    ensures GoodLines(ls[1..]) && GoodLine(ls[0]) && (Ended(ls[0]) || |ls| == 1)
  {
    hide GoodLine, Ended;
  }

  /** A line in front is read as it is. */
  lemma LinesCons(line: seq<byte>, rest: seq<byte>)
    requires GoodLine(line) && (Ended(line) || rest == [])
    ensures Lines(line + rest) == [line] + Lines(rest)
  {
    hide PieceSize, Plain;
    PieceSizeIs(line, rest);
    assert (line + rest)[..|line|] == line && (line + rest)[|line|..] == rest;
    PlainLine(line);
  }

  /** Joined lines are split into the same lines. */
  lemma {:induction false} SplitJoin(ls: seq<seq<byte>>)
    requires GoodLines(ls)
    ensures Lines(Concat(ls)) == ls
  {
    hide PieceSize, Plain, GoodLine, Ended, GoodLines;
    if ls != [] {
      GoodTail(ls);
      SplitJoin(ls[1..]);
      assert |ls| == 1 ==> ls[1..] == [];
      LinesCons(ls[0], Concat(ls[1..]));
      assert ls == [ls[0]] + ls[1..];
    }
  }

  lemma {:induction false} NoEndInside(s: seq<byte>, i: nat)
    requires i < LineSize(s) - 1
    ensures !EndsLine(s[i])
  {
    if i > 0 {
      NoEndInside(s[1..], i - 1);
    }
  }

  lemma {:induction false} EndOfLine(s: seq<byte>)
    requires s != []
    ensures EndsLine(s[LineSize(s) - 1]) || LineSize(s) == |s|
  {
    if !EndsLine(s[0]) && |s| > 1 {
      EndOfLine(s[1..]);
    }
  }

  lemma FirstLineGood(s: seq<byte>)
    requires s != [] && 0 !in s
    ensures var k := PieceSize(s); GoodLine(Plain(s[..k])) && (Ended(Plain(s[..k])) || k == |s|)
  {
    var k := PieceSize(s);
    var line := Plain(s[..k]);
    EndOfLine(s);
    forall i | 0 <= i < k - 1 ensures !EndsLine(s[i]) {
      NoEndInside(s, i);
    }
    hide LineSize;
    assert forall i | 0 <= i < k :: line[i] == if s[i] == CR then NL else s[i];
    assert 0 !in line && CR !in line && NL !in line[..k - 1];
  }

  lemma GoodCons(line: seq<byte>, ls: seq<seq<byte>>)
    requires GoodLine(line) && GoodLines(ls) && (Ended(line) || ls == [])
    ensures GoodLines([line] + ls)
  {
    hide GoodLine, Ended;
  }

  /** Splitting gives good lines. */
  lemma {:induction false} LinesAreGood(s: seq<byte>)
    requires 0 !in s
    ensures GoodLines(Lines(s))
    decreases |s|
  {
    hide PieceSize, Plain, GoodLine, Ended;
    if s != [] {
      var k := PieceSize(s);
      FirstLineGood(s);
      LinesAreGood(s[k..]);
      GoodCons(Plain(s[..k]), Lines(s[k..]));
      assert k == |s| ==> Lines(s[k..]) == [];
    }
  }

  lemma {:induction false} LineSizeInside(e: seq<byte>, rest: seq<byte>)
    requires e != [] && EndsLine(e[|e| - 1])
    ensures LineSize(e + rest) == LineSize(e)
    decreases |e|
  {
    assert (e + rest)[0] == e[0];
    if !EndsLine(e[0]) {
      assert (e + rest)[1..] == e[1..] + rest;
      LineSizeInside(e[1..], rest);
    }
  }

  /** Reading starts afresh behind a line end, whatever the pieces before it. */
  lemma {:induction false} LinesSplit(e: seq<byte>, rest: seq<byte>)
    requires e != [] ==> EndsLine(e[|e| - 1])
    ensures Lines(e + rest) == Lines(e) + Lines(rest)
    decreases |e|
  {
    hide LineSize, Plain;
    if e == [] {
      assert e + rest == rest && Lines(e) + Lines(rest) == Lines(rest);
    } else {
      var k := PieceSize(e);
      LineSizeInside(e, rest);
      assert PieceSize(e + rest) == k;
      hide PieceSize;
      assert (e + rest)[..k] == e[..k] && (e + rest)[k..] == e[k..] + rest;
      LinesSplit(e[k..], rest);
      Slices.Assoc3([Plain(e[..k])], Lines(e[k..]), Lines(rest));
    }
  }

  lemma PlainSplit(s: seq<byte>, k: nat)
    requires k <= |s|
    ensures Plain(s) == Plain(s[..k]) + Plain(s[k..])
  {
  }

  lemma {:induction false} JoinLines(s: seq<byte>)
    ensures Concat(Lines(s)) == Plain(s)
    decreases |s|
  {
    hide PieceSize, Plain;
    if s != [] {
      var k := PieceSize(s);
      JoinLines(s[k..]);
      assert Lines(s)[1..] == Lines(s[k..]);
      PlainSplit(s, k);
    }
  }

  lemma GoodText(line: seq<byte>)
    requires GoodLine(line)
    ensures Text(line) == line && 0 < |line| <= BUFFER_SIZE
  {
  }

  // ----- the lines of a written file -----

  predicate GoodName(name: seq<byte>)
  {
    0 !in name && NL !in name && CR !in name
  }

  /** The lines made of one line by a write. */
  function Turned(line: seq<byte>, name: seq<byte>, value: seq<byte>): (ls: seq<seq<byte>>)
  {
    if Matches(name, line) then Lines(Entry(name, value)) else [Text(line)]
  }

  function TurnedAll(ls: seq<seq<byte>>, name: seq<byte>, value: seq<byte>): (r: seq<seq<byte>>)
  {
    if ls == [] then [] else Turned(ls[0], name, value) + TurnedAll(ls[1..], name, value)
  }

  lemma EntryEnds(name: seq<byte>, value: seq<byte>)
    ensures var e := Entry(name, value); |e| > |name| && e[|e| - 1] == NL && name <= e
    ensures GoodName(name) && 0 !in value ==> 0 !in Entry(name, value)
  {
    hide Quotes;
  }

  lemma {:induction false} JoinedLines(ls: seq<seq<byte>>, name: seq<byte>, value: seq<byte>)
    requires GoodLines(ls)
    ensures Lines(Joined(ls, name, value)) == TurnedAll(ls, name, value)
  {
    hide Matches, Entry, Lines, Text, GoodLine, Ended, GoodLines;
    if ls != [] {
      var line, rest := ls[0], Joined(ls[1..], name, value);
      GoodTail(ls);
      JoinedLines(ls[1..], name, value);
      if Matches(name, line) {
        EntryEnds(name, value);
        LinesSplit(Entry(name, value), rest);
      } else {
        GoodText(line);
        LinesCons(line, rest);
      }
    } else {
      NoLines(name, value);
    }
  }

  lemma NoLines(name: seq<byte>, value: seq<byte>)
    ensures Lines([]) == [] && Read([], name) == [] && Write([], name, value) == []
  {
  }

  /** Writing any value turns the lines that start with the name into those of the entry and keeps the
      others, in order. */
  lemma WrittenLines(file: seq<byte>, name: seq<byte>, value: seq<byte>)
    requires 0 !in file
    ensures Lines(Write(file, name, value)) == TurnedAll(Lines(file), name, value) && GoodLines(Lines(file))
  {
    hide Lines, GoodLines, Joined, TurnedAll;
    LinesAreGood(file);
    JoinedLines(Lines(file), name, value);
  }

  /** The entry is one line: no line end in the value and no more bytes than are read at once. */
  predicate OneLine(name: seq<byte>, value: seq<byte>)
  {
    (forall i | 0 <= i < |value| :: !EndsLine(value[i])) && |Entry(name, value)| <= BUFFER_SIZE
  }

  lemma OneLineIsGood(name: seq<byte>, value: seq<byte>)
    requires GoodName(name) && 0 !in value && OneLine(name, value)
    ensures GoodLine(Entry(name, value)) && Lines(Entry(name, value)) == [Entry(name, value)]
  {
    hide Quotes, Lines, Concat;
    var e := Entry(name, value);
    var mark := if Quotes(name) then [SPACE, QUOTE] else [SPACE];
    var close := if Quotes(name) then [QUOTE] else [];
    assert e == name + mark + value + close + [NL];
    assert e[..|e| - 1] == name + mark + value + close;
    assert forall b | b in value :: !EndsLine(b);
    LinesCons(e, []);
    assert e + [] == e;
    NoLines(name, value);
  }

  /** An entry is read at once exactly when it is one line. */
  lemma OneLineIff(name: seq<byte>, value: seq<byte>)
    requires GoodName(name) && 0 !in value
    ensures |Lines(Entry(name, value))| == 1 <==> OneLine(name, value)
  {
    hide Lines, Quotes, GoodLine, PieceSize;
    var e := Entry(name, value);
    EntryEnds(name, value);
    if OneLine(name, value) {
      OneLineIsGood(name, value);
    } else if |Lines(e)| == 1 {
      LinesAreGood(e);
      JoinLines(e);
      var p := Lines(e)[0];
      assert Lines(e) == [p] && p == Plain(e);
      NoEndsBefore(e);
      var k := if Quotes(name) then |name| + 2 else |name| + 1;
      assert forall i | 0 <= i < |value| :: value[i] == e[k + i];
      assert false;
    }
  }

  lemma NoEndsBefore(e: seq<byte>)
    requires GoodLine(Plain(e))
    ensures |e| <= BUFFER_SIZE && forall i | 0 <= i < |e| - 1 :: !EndsLine(e[i])
  {
    var p := Plain(e);
    forall i | 0 <= i < |e| - 1 ensures !EndsLine(e[i]) {
      assert p[..|p| - 1][i] == p[i];
    }
  }

  /** An entry of one line takes the places of the lines that start with the name. */
  lemma WrittenInPlace(file: seq<byte>, name: seq<byte>, value: seq<byte>)
    requires 0 !in file && GoodName(name) && 0 !in value && OneLine(name, value)
    ensures var was, now := Lines(file), Lines(Write(file, name, value));
            |now| == |was| &&
            forall i | 0 <= i < |was| :: now[i] == if name <= was[i] then Entry(name, value) else was[i]
  {
    hide Lines, TurnedAll, Write, GoodName, OneLine, GoodLine, GoodLines;
    WrittenLines(file, name, value);
    OneLineIsGood(name, value);
    InPlace(Lines(file), name, value);
  }

  lemma {:induction false} InPlace(ls: seq<seq<byte>>, name: seq<byte>, value: seq<byte>)
    requires GoodLines(ls) && Lines(Entry(name, value)) == [Entry(name, value)]
    ensures var now := TurnedAll(ls, name, value);
            |now| == |ls| && forall i | 0 <= i < |ls| :: now[i] == if name <= ls[i] then Entry(name, value) else ls[i]
  {
    hide Lines, Entry, Text, GoodLine, GoodLines, Ended;
    if ls != [] {
      GoodTail(ls);
      GoodText(ls[0]);
      InPlace(ls[1..], name, value);
      var now, rest := TurnedAll(ls, name, value), TurnedAll(ls[1..], name, value);
      assert now == [now[0]] + rest;
      forall i | 0 < i < |ls| ensures now[i] == rest[i - 1] && ls[i] == ls[1..][i - 1] {
      }
    }
  }

  // ----- what is read back -----

  /** The marks around a value. */
  function Opening(name: seq<byte>): (s: seq<byte>)
  {
    if Quotes(name) then [SPACE, QUOTE] else [SPACE]
  }

  function Closing(name: seq<byte>): (s: seq<byte>)
    ensures |s| > 0 && s[|s| - 1] == NL
  {
    if Quotes(name) then [QUOTE, NL] else [NL]
  }

  /** Values that come back: they end inside the buffer, and have no blanks, or in quotes no quotes,
      carriage returns or line ends but for one at the very end. */
  predicate ReadsBack(name: seq<byte>, value: seq<byte>)
  {
    && |name| + |Opening(name)| + |value| <= BUFFER_SIZE
    && if Quotes(name) then QUOTE !in value && CR !in value && (value != [] ==> NL !in value[..|value| - 1])
       else forall i | 0 <= i < |value| :: !IsBlank(value[i])
  }

  lemma {:induction false} FindFront(a: seq<seq<byte>>, b: seq<seq<byte>>, name: seq<byte>)
    ensures Find(a + b, name) == if Present(a, name) then Find(a, name) else Find(b, name)
    ensures Present(a + b, name) <==> Present(a, name) || Present(b, name)
    decreases |a|
  {
    hide Matches, Scanned, Text;
    if a == [] {
      assert a + b == b;
    } else {
      assert (a + b)[0] == a[0] && (a + b)[1..] == a[1..] + b;
      FindFront(a[1..], b, name);
    }
  }

  lemma {:induction false} FindAbsent(ls: seq<seq<byte>>, name: seq<byte>)
    requires !Present(ls, name)
    ensures Find(ls, name) == []
  {
    hide Matches, Scanned;
    if ls != [] {
      FindAbsent(ls[1..], name);
    }
  }

  /** The name stands at the start of its entry, unless it is longer than what is read at once. */
  lemma EntryMatches(name: seq<byte>, value: seq<byte>)
    requires GoodName(name) && 0 !in value && |name| <= BUFFER_SIZE
    ensures var ls := Lines(Entry(name, value)); |ls| > 0 && name <= ls[0] && Matches(name, ls[0]) && GoodLines(ls)
  {
    hide Quotes;
    var e := Entry(name, value);
    EntryEnds(name, value);
    var back := e[|name|..];
    assert e == name + back;
    LineSizeBehind(name, back);
    var k := PieceSize(e);
    hide LineSize, PieceSize, Entry;
    assert forall i | 0 <= i < |name| :: name[i] in name && e[i] == name[i];
    assert name <= Plain(e[..k]);
    LinesAreGood(e);
    GoodTail(Lines(e));
    GoodText(Lines(e)[0]);
  }

  lemma {:induction false} FindTurned(ls: seq<seq<byte>>, name: seq<byte>, value: seq<byte>)
    requires GoodLines(ls) && GoodName(name) && 0 !in value
    ensures Find(TurnedAll(ls, name, value), name) ==
              if Present(ls, name) then Find(Lines(Entry(name, value)), name) else []
  {
    hide Lines, Entry, Text, Find, GoodLine, GoodLines, Ended, GoodName;
    if ls == [] {
      FindAbsent([], name);
    } else {
      var first, rest := Turned(ls[0], name, value), TurnedAll(ls[1..], name, value);
      GoodTail(ls);
      GoodText(ls[0]);
      FindTurned(ls[1..], name, value);
      FindFront(first, rest, name);
      if Matches(name, ls[0]) {
        EntryMatches(name, value);
      } else {
        assert first[1..] == [];
      }
    }
  }

  function Min(a: nat, b: nat): (m: nat)
  {
    if a < b then a else b
  }

  /** As much of the first line as `room` bytes hold. */
  function Start(s: seq<byte>, room: nat): (x: seq<byte>)
  {
    Plain(s[..Min(LineSize(s), room)])
  }

  /** What stands in an entry behind the name. */
  function Back(name: seq<byte>, value: seq<byte>): (s: seq<byte>)
  {
    Opening(name) + (value + Closing(name))
  }

  /** A front without line ends is at the start of its line. */
  lemma StartBehind(front: seq<byte>, w: seq<byte>, room: nat)
    requires (forall i | 0 <= i < |front| :: !EndsLine(front[i])) && |front| <= room
    ensures Start(front + w, room) == front + Start(w, room - |front|)
  {
    LineSizeBehind(front, w);
    hide LineSize;
    var n := Min(LineSize(w), room - |front|);
    assert (front + w)[..|front| + n] == front + w[..n];
    assert Plain(front + w[..n]) == front + Plain(w[..n]);
  }

  lemma FirstPiece(s: seq<byte>)
    requires s != []
    ensures |Lines(s)| > 0 && Lines(s)[0] == Start(s, BUFFER_SIZE)
  {
    hide LineSize, Plain;
  }

  lemma FoundFirst(ls: seq<seq<byte>>, name: seq<byte>, back: seq<byte>)
    requires |ls| > 0 && ls[0] == name + back && GoodLine(ls[0])
    ensures Find(ls, name) == Scanned(name, back)
  {
    hide Scanned, GoodLine;
    GoodText(ls[0]);
    assert (name + back)[|name|..] == back;
  }

  /** What is read from an entry: the line of the name, as far as the buffer goes. */
  lemma EntryLine(name: seq<byte>, value: seq<byte>)
    requires GoodName(name) && 0 !in value && |name| <= BUFFER_SIZE
    ensures Read(Entry(name, value), name) == Scanned(name, Start(Back(name, value), BUFFER_SIZE - |name|))
  {
    hide Quotes, LineSize, Plain, Scanned, Start, Lines, Find, Matches, GoodLine, GoodLines;
    var e, w := Entry(name, value), Back(name, value);
    assert e == name + w;
    hide Entry, Back;
    EntryMatches(name, value);
    FirstPiece(e);
    forall i | 0 <= i < |name| ensures !EndsLine(name[i]) {
      assert name[i] in name;
    }
    StartBehind(name, w, BUFFER_SIZE);
    GoodTail(Lines(e));
    FoundFirst(Lines(e), name, Start(w, BUFFER_SIZE - |name|));
  }

  lemma {:induction false} PresentShort(ls: seq<seq<byte>>, name: seq<byte>)
    requires GoodLines(ls) && Present(ls, name)
    ensures |name| <= BUFFER_SIZE
  {
    hide Text, GoodLine, GoodLines, Ended;
    GoodTail(ls);
    GoodText(ls[0]);
    if !Matches(name, ls[0]) {
      PresentShort(ls[1..], name);
    }
  }

  /** The value read after a write to the name. */
  lemma WrittenReads(file: seq<byte>, name: seq<byte>, value: seq<byte>)
    requires 0 !in file && GoodName(name) && 0 !in value
    ensures Present(Lines(file), name) ==> |name| <= BUFFER_SIZE
    ensures Read(Write(file, name, value), name) ==
              if Present(Lines(file), name) then Scanned(name, Start(Back(name, value), BUFFER_SIZE - |name|)) else []
  {
    hide Lines, Start, Back, Scanned, Find, Write, GoodName, GoodLines, TurnedAll, Present;
    WrittenLines(file, name, value);
    FindTurned(Lines(file), name, value);
    if Present(Lines(file), name) {
      PresentShort(Lines(file), name);
      EntryLine(name, value);
    }
  }

  lemma {:induction false} WordIsWord(s: seq<byte>)
    ensures |Word(s)| <= |s| && forall i | 0 <= i < |Word(s)| :: !IsBlank(Word(s)[i])
    ensures forall b | b in Word(s) :: b in s
  {
    if s != [] && !IsBlank(s[0]) {
      WordIsWord(s[1..]);
    }
  }

  lemma {:induction false} SkipBlanksInside(s: seq<byte>)
    ensures |SkipBlanks(s)| <= |s| && forall b | b in SkipBlanks(s) :: b in s
  {
    if s != [] && IsBlank(s[0]) {
      SkipBlanksInside(s[1..]);
    }
  }

  lemma {:induction false} UpToQuotePrefix(s: seq<byte>)
    ensures UpToQuote(s) <= s && QUOTE !in UpToQuote(s) && (QUOTE !in s ==> UpToQuote(s) == s)
  {
    if s != [] && s[0] != QUOTE {
      UpToQuotePrefix(s[1..]);
      assert s == [s[0]] + s[1..];
    }
  }

  lemma {:induction false} UpToQuoteIs(value: seq<byte>, rest: seq<byte>)
    requires QUOTE !in value && (rest != [] ==> rest[0] == QUOTE)
    ensures UpToQuote(value + rest) == value
  {
    var s := value + rest;
    if value == [] {
      assert s == rest;
    } else {
      assert s[1..] == value[1..] + rest && s[0] == value[0];
      UpToQuoteIs(value[1..], rest);
    }
  }

  lemma {:induction false} WordIs(value: seq<byte>, rest: seq<byte>)
    requires (forall i | 0 <= i < |value| :: !IsBlank(value[i])) && (rest != [] ==> IsBlank(rest[0]))
    ensures Word(value + rest) == value
  {
    var s := value + rest;
    if value == [] {
      assert s == rest;
    } else {
      assert s[1..] == value[1..] + rest && s[0] == value[0];
      WordIs(value[1..], rest);
    }
  }

  lemma BareReads(value: seq<byte>, rest: seq<byte>)
    requires (forall i | 0 <= i < |value| :: !IsBlank(value[i])) && (rest == [] || rest == [NL])
    ensures Word(SkipBlanks(value + rest)) == value
  {
    var t := value + rest;
    WordIs(value, rest);
    if value == [] {
      assert t == rest && (rest == [NL] ==> rest[1..] == []);
    } else {
      assert t[0] == value[0];
    }
  }

  /** A value without line ends is at the start of its line as far as there is room. */
  lemma PlainStart(value: seq<byte>, close: seq<byte>, room: nat) returns (k: nat)
    requires (forall i | 0 <= i < |value| :: !EndsLine(value[i])) && |value| <= room
    ensures k <= |close| && Start(value + close, room) == value + Plain(close[..k])
  {
    StartBehind(value, close, room);
    k := Min(LineSize(close), room - |value|);
  }

  lemma BareIff(value: seq<byte>, room: nat)
    ensures Word(SkipBlanks(Start(value + [NL], room))) == value <==>
              |value| <= room && forall i | 0 <= i < |value| :: !IsBlank(value[i])
  {
    hide Word, SkipBlanks, LineSize, Plain, Start;
    var x := Start(value + [NL], room);
    assert |x| <= room by { StartShort(value + [NL], room); }
    SkipBlanksInside(x);
    WordIsWord(SkipBlanks(x));
    if |value| <= room && forall i | 0 <= i < |value| :: !IsBlank(value[i]) {
      var k := PlainStart(value, [NL], room);
      PlainLine([NL][..k]);
      assert [NL][..k] == [] || [NL][..k] == [NL];
      BareReads(value, [NL][..k]);
    }
  }

  lemma StartShort(s: seq<byte>, room: nat)
    ensures |Start(s, room)| <= room
  {
  }

  lemma QuotedIff(value: seq<byte>, room: nat)
    requires 0 !in value
    ensures UpToQuote(Start(value + [QUOTE, NL], room)) == value <==>
              |value| <= room && QUOTE !in value && CR !in value && (value != [] ==> NL !in value[..|value| - 1])
  {
    hide UpToQuote, LineSize, Plain, Start;
    var x := Start(value + [QUOTE, NL], room);
    StartShort(value + [QUOTE, NL], room);
    UpToQuotePrefix(x);
    if UpToQuote(x) == value {
      QuotedOnly(value, value + [QUOTE, NL], room);
    } else if |value| <= room && QUOTE !in value && CR !in value && (value != [] ==> NL !in value[..|value| - 1]) {
      QuotedBack(value, room);
    }
  }

  lemma QuotedOnly(value: seq<byte>, s: seq<byte>, room: nat)
    requires value <= Start(s, room)
    ensures CR !in value && (value != [] ==> NL !in value[..|value| - 1])
  {
    var k := Min(LineSize(s), room);
    forall i | 0 <= i < |value| ensures value[i] != CR && (i < |value| - 1 ==> value[i] != NL) {
      if i < |value| - 1 {
        NoEndInside(s, i);
      }
    }
  }

  lemma QuotedBack(value: seq<byte>, room: nat)
    requires |value| <= room && QUOTE !in value && CR !in value && (value != [] ==> NL !in value[..|value| - 1])
    ensures UpToQuote(Start(value + [QUOTE, NL], room)) == value
  {
    hide UpToQuote, LineSize, Plain, Start;
    var close := [QUOTE, NL];
    var k: nat;
    var rest: seq<byte>;
    if value != [] && value[|value| - 1] == NL {
      var u := value[..|value| - 1];
      assert value == u + [NL] && value + close == u + [NL, QUOTE, NL];
      NoEnds(u, value);
      StartBehind(u, [NL, QUOTE, NL], room);
      LineEndStart([QUOTE, NL], room - |u|);
      assert [NL] + [QUOTE, NL] == [NL, QUOTE, NL];
      rest := [];
      assert value + rest == value;
    } else {
      assert value != [] ==> value == value[..|value| - 1] + [value[|value| - 1]];
      NoEnds(value, value);
      k := PlainStart(value, close, room);
      PlainLine(close[..k]);
      rest := close[..k];
    }
    UpToQuoteIs(value, rest);
  }

  lemma NoEnds(u: seq<byte>, value: seq<byte>)
    requires u <= value && CR !in value && NL !in u
    ensures forall i | 0 <= i < |u| :: !EndsLine(u[i])
  {
    forall i | 0 <= i < |u| ensures !EndsLine(u[i]) {
      assert u[i] in u && u[i] == value[i] && value[i] in value;
    }
  }

  lemma LineEndStart(s: seq<byte>, room: nat)
    requires room > 0
    ensures Start([NL] + s, room) == [NL]
  {
    assert ([NL] + s)[..1] == [NL];
  }

  lemma ScannedNothing(name: seq<byte>, value: seq<byte>)
    requires |name| <= BUFFER_SIZE < |name| + |Opening(name)|
    ensures Scanned(name, Start(Back(name, value), BUFFER_SIZE - |name|)) == []
  {
    hide Quotes;
    var room, w := BUFFER_SIZE - |name|, Back(name, value);
    assert room == 0 || room == 1;
    assert w[0] == SPACE;
    var x := Start(w, room);
    assert x == [] || x == [SPACE];
    assert [SPACE][1..] == [];
    assert Word([]) == [] && SkipBlanks(x) == [];
  }

  /** What is scanned from the line of the name: as much of the value and its closing mark as has room. */
  lemma ScannedIs(name: seq<byte>, value: seq<byte>)
    requires |name| + |Opening(name)| <= BUFFER_SIZE
    ensures var x := Start(value + Closing(name), BUFFER_SIZE - |name| - |Opening(name)|);
            Scanned(name, Start(Back(name, value), BUFFER_SIZE - |name|)) ==
              if Quotes(name) then UpToQuote(x) else Word(SkipBlanks(x))
  {
    hide Quotes, Word, UpToQuote, LineSize, Plain, Start;
    var room, front, w := BUFFER_SIZE - |name|, Opening(name), value + Closing(name);
    var x := Start(w, room - |front|);
    StartBehind(front, w, room);
    if Quotes(name) {
      var t := [QUOTE] + x;
      assert [SPACE, QUOTE] + x == [SPACE] + t && ([SPACE] + t)[1..] == t;
      assert SkipBlanks([SPACE] + t) == t && t[1..] == x;
    } else {
      assert ([SPACE] + x)[1..] == x;
    }
  }

  /** The value scanned from an entry's line is the one written exactly for values that come back. */
  lemma ScannedIff(name: seq<byte>, value: seq<byte>)
    requires 0 !in value && |name| <= BUFFER_SIZE
    ensures Scanned(name, Start(Back(name, value), BUFFER_SIZE - |name|)) == value <==> ReadsBack(name, value) || value == []
  {
    hide Quotes, Word, UpToQuote, SkipBlanks, Start, Back, Scanned;
    if |name| + |Opening(name)| > BUFFER_SIZE {
      ScannedNothing(name, value);
    } else {
      ScannedIs(name, value);
      QuotedIff(value, BUFFER_SIZE - |name| - |Opening(name)|);
      BareIff(value, BUFFER_SIZE - |name| - |Opening(name)|);
    }
  }

  lemma {:induction false} WordBeforeBlank(s: seq<byte>)
    requires s != [] && IsBlank(s[|s| - 1])
    ensures |Word(SkipBlanks(s))| < |s|
  {
    if IsBlank(s[0]) {
      if |s| > 1 {
        WordBeforeBlank(s[1..]);
      } else {
        assert SkipBlanks(s) == [];
      }
    } else {
      WordEnds(s);
    }
  }

  lemma {:induction false} WordEnds(s: seq<byte>)
    requires s != [] && IsBlank(s[|s| - 1])
    ensures |Word(s)| < |s|
  {
    if !IsBlank(s[0]) {
      WordEnds(s[1..]);
    }
  }

  /** No more is scanned than was written. */
  lemma ScannedShort(value: seq<byte>, room: nat)
    ensures |Word(SkipBlanks(Start(value + [NL], room)))| <= |value|
    ensures |UpToQuote(Start(value + [QUOTE, NL], room))| <= |value|
  {
    hide Word, SkipBlanks, UpToQuote, LineSize;
    var x, y := Start(value + [NL], room), Start(value + [QUOTE, NL], room);
    SkipBlanksInside(x);
    WordIsWord(SkipBlanks(x));
    if |x| > |value| {
      assert x[|value|] == NL;
      WordBeforeBlank(x);
    }
    UpToQuotePrefix(y);
    if |y| > |value| {
      assert y[|value|] == QUOTE;
    }
  }

  lemma StartClean(s: seq<byte>, room: nat)
    requires 0 !in s
    ensures 0 !in Start(s, room)
  {
  }

  lemma ScannedInside(name: seq<byte>, s: seq<byte>)
    ensures |Scanned(name, s)| <= |s| && forall b | b in Scanned(name, s) :: b in s
  {
    hide Quotes, Word, UpToQuote, SkipBlanks;
    var t := SkipBlanks(s);
    SkipBlanksInside(s);
    WordIsWord(t);
    if t != [] {
      UpToQuotePrefix(t[1..]);
    }
  }
  /** What is read back is a text no longer than the value. */
  lemma ReadsNoMore(file: seq<byte>, name: seq<byte>, value: seq<byte>)
    requires 0 !in file && GoodName(name) && 0 !in value
    ensures var r := Read(Write(file, name, value), name); |r| <= |value| && 0 !in r
  {
    hide Lines, Read, Write, GoodName, Scanned, Start, Present, Quotes, Word, UpToQuote, SkipBlanks;
    WrittenReads(file, name, value);
    if Present(Lines(file), name) {
      var back, room := Back(name, value), BUFFER_SIZE - |name|;
      StartClean(back, room);
      ScannedInside(name, Start(back, room));
      if |name| + |Opening(name)| > BUFFER_SIZE {
        ScannedNothing(name, value);
      } else {
        ScannedIs(name, value);
        ScannedShort(value, room - |Opening(name)|);
      }
    }
  }

  /** Over all text files and values: what is read back after a write is what was written exactly when the
      name was in the file and the value is one that comes back, or the value is empty; a name that is
      not in the file is not added. */
  lemma WriteThenReadIff(file: seq<byte>, name: seq<byte>, value: seq<byte>)
    requires 0 !in file && GoodName(name) && 0 !in value
    ensures Read(Write(file, name, value), name) == value <==>
              (Present(Lines(file), name) && ReadsBack(name, value)) || value == []
  {
    hide Lines, Read, Write, GoodName, Scanned, Start, Back, Present, ReadsBack;
    WrittenReads(file, name, value);
    if Present(Lines(file), name) {
      ScannedIff(name, value);
    }
  }

  // ----- other names -----

  predicate Incomparable(a: seq<byte>, b: seq<byte>)
  {
    !(a <= b) && !(b <= a)
  }

  lemma PrefixesCompare(a: seq<byte>, b: seq<byte>, s: seq<byte>)
    requires a <= s && b <= s
    ensures a <= b || b <= a
  {
    if |a| <= |b| {
      assert a == s[..|a|] == b[..|a|];
    } else {
      assert b == s[..|b|] == a[..|b|];
    }
  }

  /** Two names that are not prefixes of each other start no line both. */
  lemma NotBoth(line: seq<byte>, a: seq<byte>, b: seq<byte>)
    requires Incomparable(a, b)
    ensures !(Matches(a, line) && Matches(b, line))
  {
    if a <= Text(line) && b <= Text(line) {
      PrefixesCompare(a, b, Text(line));
    }
  }

  /** A line of one name comes before all lines of the other. */
  predicate Ahead(ls: seq<seq<byte>>, name: seq<byte>, other: seq<byte>)
  {
    ls != [] && (Matches(name, ls[0]) || (!Matches(other, ls[0]) && Ahead(ls[1..], name, other)))
  }

  /** The entry is written ahead of the other name's lines and has a line of its own that starts with
      the other name. */
  predicate Overtakes(file: seq<byte>, name: seq<byte>, value: seq<byte>, other: seq<byte>)
  {
    Present(Lines(Entry(name, value)), other) && Ahead(Lines(file), name, other)
  }

  lemma {:induction false} FindOther(ls: seq<seq<byte>>, name: seq<byte>, value: seq<byte>, other: seq<byte>)
    requires GoodLines(ls) && Incomparable(name, other)
    ensures var e := Lines(Entry(name, value));
            Find(TurnedAll(ls, name, value), other) ==
              if Present(e, other) && Ahead(ls, name, other) then Find(e, other) else Find(ls, other)
  {
    hide Lines, Entry, Scanned, GoodLine, Ended, GoodLines, Text, Incomparable, Present;
    if ls != [] {
      var e, rest := Lines(Entry(name, value)), TurnedAll(ls[1..], name, value);
      GoodTail(ls);
      GoodText(ls[0]);
      NotBoth(ls[0], name, other);
      FindOther(ls[1..], name, value, other);
      FindFront(Turned(ls[0], name, value), rest, other);
      if !Matches(name, ls[0]) {
        OneLinePresent(ls[0], other);
      }
    }
  }

  lemma OneLinePresent(line: seq<byte>, name: seq<byte>)
    ensures Present([line], name) <==> Matches(name, line)
  {
    assert [line][1..] == [];
  }

  /** Over all text files and values: what another name reads after a write is what it read before, or the
      value found in the lines of an entry that overtakes it. */
  lemma OtherReads(file: seq<byte>, name: seq<byte>, value: seq<byte>, other: seq<byte>)
    requires 0 !in file && Incomparable(name, other)
    ensures Read(Write(file, name, value), other) ==
              if Overtakes(file, name, value, other) then Read(Entry(name, value), other) else Read(file, other)
  {
    hide Lines, Find, Write, Incomparable, Present, Ahead, TurnedAll, GoodLines, Entry;
    WrittenLines(file, name, value);
    FindOther(Lines(file), name, value, other);
  }

  /** An entry of one line overtakes no other name. */
  lemma ReadsOthersAsBefore(file: seq<byte>, name: seq<byte>, value: seq<byte>, other: seq<byte>)
    requires 0 !in file && GoodName(name) && 0 !in value && OneLine(name, value) && Incomparable(name, other)
    ensures !Overtakes(file, name, value, other) && Read(Write(file, name, value), other) == Read(file, other)
  {
    hide Lines, Read, Write, GoodName, GoodLine, OneLine, Incomparable, Entry, Text, Ahead;
    var e := Entry(name, value);
    OneLineIsGood(name, value);
    GoodText(e);
    EntryEnds(name, value);
    NotBoth(e, name, other);
    OneLinePresent(e, other);
    OtherReads(file, name, value, other);
  }

  /** A value that is cut: with 254 bytes in front, the rest of a value of `A` becomes the value of `B`. */
  lemma LongValueIsCut()
    ensures var file, a, b, q := [65, SPACE, 120, NL, 66, SPACE, 121, NL], [65], [66], seq(254, _ => 113);
            var now := Write(file, a, q + [66, 122]);
            Read(file, b) == [121] && Read(now, a) == q && Read(now, b) == [122]
  {
    hide Write, Find, Scanned, Start, Lines, Present, Ahead;
    var a, b, q: seq<byte> := [65], [66], seq(254, _ => 113);
    var x, y, v := [65, SPACE, 120, NL], [66, SPACE, 121, NL], q + [66, 122];
    var file := [65, SPACE, 120, NL, 66, SPACE, 121, NL];
    var long, short := [65, SPACE] + q, [66, 122, NL];
    assert file == x + y && Entry(a, v) == long + short;
    hide Entry;
    TwoLines(x, y);
    LongLine(long, q);
    TwoLines(long, short);
    hide GoodLine;
    assert 0 !in v && a[0] != b[0];
    CutReads(a, q, [66, 122]);
    WrittenReads(file, a, v);
    OtherReads(file, a, v, b);
    FoundIn(x, y, a, b);
    FoundIn(long, short, a, b);
    ShortReads();
  }

  lemma LongLine(long: seq<byte>, q: seq<byte>)
    requires q == seq(254, _ => 113) && long == [65, SPACE] + q
    ensures GoodLine(long) && Ended(long)
  {
  }

  lemma TwoLines(x: seq<byte>, y: seq<byte>)
    requires GoodLine(x) && Ended(x) && GoodLine(y)
    ensures Lines(x + y) == [x, y]
  {
    hide Lines, GoodLine, Ended;
    LinesCons(x, y);
    LinesCons(y, []);
    NoLines([], []);
    assert y + [] == y;
  }

  lemma FoundIn(x: seq<byte>, y: seq<byte>, a: seq<byte>, b: seq<byte>)
    requires 0 !in x && 0 !in y && a <= x && !(b <= x) && b <= y
    ensures Present([x, y], a) && Present([x, y], b) && Ahead([x, y], a, b) && Find([x, y], b) == Scanned(b, y[|b|..])
  {
    hide Scanned;
    assert [x, y][1..] == [y];
  }

  lemma ShortReads()
    ensures Scanned([66], [66, 122, NL][1..]) == [122] && Scanned([66], [66, SPACE, 121, NL][1..]) == [121]
  {
    WordIs([122], [NL]);
    WordIs([121], [NL]);
    hide Word;
    assert [66, 122, NL][1..] == [122] + [NL];
    assert [66, SPACE, 121, NL][1..] == [SPACE] + ([121] + [NL]);
    assert ([SPACE] + ([121] + [NL]))[1..] == [121] + [NL];
    assert SkipBlanks([SPACE] + ([121] + [NL])) == [121] + [NL];
  }

  /** A bare value is read as far as the line goes. */
  lemma CutReads(name: seq<byte>, q: seq<byte>, tail: seq<byte>)
    requires !Quotes(name) && |name| + 1 + |q| == BUFFER_SIZE && forall i | 0 <= i < |q| :: !IsBlank(q[i])
    ensures Scanned(name, Start(Back(name, q + tail), BUFFER_SIZE - |name|)) == q
  {
    hide Quotes, Word, Start;
    var front, w := [SPACE] + q, tail + [NL];
    assert Back(name, q + tail) == front + w;
    StartBehind(front, w, |front|);
    StartShort(w, 0);
    assert front + [] == front && front[1..] == q && q + [] == q;
    BareReads(q, []);
    assert SkipBlanks(front) == SkipBlanks(q);
  }

  // ----- two writes -----

  lemma {:induction false} JoinedSplit(a: seq<seq<byte>>, b: seq<seq<byte>>, name: seq<byte>, value: seq<byte>)
    ensures Joined(a + b, name, value) == Joined(a, name, value) + Joined(b, name, value)
    decreases |a|
  {
    hide Replace;
    if a == [] {
      assert a + b == b && [] + Joined(b, name, value) == Joined(b, name, value);
    } else {
      assert (a + b)[0] == a[0] && (a + b)[1..] == a[1..] + b;
      JoinedSplit(a[1..], b, name, value);
      Slices.Assoc3(Replace(a[0], name, value), Joined(a[1..], name, value), Joined(b, name, value));
    }
  }

  lemma JoinedOne(line: seq<byte>, name: seq<byte>, value: seq<byte>)
    ensures Joined([line], name, value) == Replace(line, name, value)
  {
    hide Replace;
    assert [line][1..] == [];
  }

  /** A second write into an entry replaces its first line and keeps or replaces the others. */
  lemma SecondWrite(name: seq<byte>, first: seq<byte>, second: seq<byte>) returns (extra: seq<byte>)
    requires GoodName(name) && 0 !in first && |name| <= BUFFER_SIZE
    ensures Write(Entry(name, first), name, second) == Entry(name, second) + extra
    ensures extra == [] <==> OneLine(name, first)
  {
    hide Lines, Entry, GoodName, OneLine, Text, GoodLine, GoodLines, Ended;
    var ls := Lines(Entry(name, first));
    EntryMatches(name, first);
    OneLineIff(name, first);
    extra := Joined(ls[1..], name, second);
    if |ls| > 1 {
      GoodTail(ls);
      GoodTail(ls[1..]);
      GoodText(ls[1]);
      EntryEnds(name, second);
    }
  }

  lemma {:induction false} TwoWrites(ls: seq<seq<byte>>, name: seq<byte>, first: seq<byte>, second: seq<byte>)
    requires GoodLines(ls) && GoodName(name) && 0 !in first
    ensures var twice, once := Joined(TurnedAll(ls, name, first), name, second), Joined(ls, name, second);
            |twice| >= |once| && (twice == once <==> !Present(ls, name) || OneLine(name, first))
  {
    hide Lines, Entry, GoodName, OneLine, Text, GoodLine, GoodLines, Ended;
    if ls != [] {
      var rest := TurnedAll(ls[1..], name, first);
      GoodTail(ls);
      GoodText(ls[0]);
      TwoWrites(ls[1..], name, first, second);
      JoinedSplit(Turned(ls[0], name, first), rest, name, second);
      if Matches(name, ls[0]) {
        var extra := SecondWrite(name, first, second);
        assert extra == [] ==> Entry(name, second) + extra == Entry(name, second);
        SameFront(Entry(name, second), extra, Joined(rest, name, second), Joined(ls[1..], name, second));
        if !OneLine(name, first) {
          assert |extra| > 0;
        }
      } else {
        JoinedOne(ls[0], name, second);
        SameFront(ls[0], [], Joined(rest, name, second), Joined(ls[1..], name, second));
        assert ls[0] + [] == ls[0];
      }
    }
  }

  lemma SameFront(front: seq<byte>, extra: seq<byte>, x: seq<byte>, y: seq<byte>)
    requires |x| >= |y|
    ensures |front + extra + x| >= |front + y|
    ensures front + extra + x == front + y <==> extra == [] && x == y
  {
    if front + extra + x == front + y {
      assert |extra| == 0;
      assert front + extra == front;
      assert (front + x)[|front|..] == x && (front + y)[|front|..] == y;
    }
  }

  /** Over all text files and values: of two writes to a name the last decides the whole file exactly when
      the name is not in the file or the entry of the first was one line. */
  lemma LastWriteCountsIff(file: seq<byte>, name: seq<byte>, first: seq<byte>, second: seq<byte>)
    requires 0 !in file && GoodName(name) && 0 !in first
    ensures Write(Write(file, name, first), name, second) == Write(file, name, second) <==>
              !Present(Lines(file), name) || OneLine(name, first)
  {
    hide Lines, Joined, TurnedAll, GoodName, GoodLines, OneLine, Present;
    WrittenLines(file, name, first);
    TwoWrites(Lines(file), name, first, second);
  }

  /** Writing the second name into the entry of the first changes nothing. */
  predicate Keeps(a: seq<byte>, v: seq<byte>, b: seq<byte>, w: seq<byte>)
  {
    |a| > BUFFER_SIZE || Write(Entry(a, v), b, w) == Entry(a, v)
  }

  predicate Commute(file: seq<byte>, a: seq<byte>, v: seq<byte>, b: seq<byte>, w: seq<byte>)
  {
    Write(Write(file, a, v), b, w) == Write(Write(file, b, w), a, v)
  }

  /** Entries of one line are kept by writes to names that are no prefixes of theirs, nor theirs of them. */
  lemma OneLineKeeps(a: seq<byte>, v: seq<byte>, b: seq<byte>, w: seq<byte>)
    requires GoodName(a) && 0 !in v && OneLine(a, v) && Incomparable(a, b)
    ensures Keeps(a, v, b, w)
  {
    hide Lines, Entry, GoodName, OneLine, Incomparable, Text, GoodLine;
    OneLineIsGood(a, v);
    GoodText(Entry(a, v));
    EntryEnds(a, v);
    NotBoth(Entry(a, v), a, b);
    JoinedOne(Entry(a, v), b, w);
  }

  lemma {:induction false} JoinedCommute(ls: seq<seq<byte>>, a: seq<byte>, v: seq<byte>, b: seq<byte>, w: seq<byte>)
    requires GoodLines(ls) && Incomparable(a, b) && Keeps(a, v, b, w) && Keeps(b, w, a, v)
    ensures Joined(TurnedAll(ls, a, v), b, w) == Joined(TurnedAll(ls, b, w), a, v)
  {
    hide Lines, Entry, Incomparable, Text, GoodLine, GoodLines, Ended;
    if ls != [] {
      GoodTail(ls);
      GoodText(ls[0]);
      NotBoth(ls[0], a, b);
      JoinedCommute(ls[1..], a, v, b, w);
      JoinedSplit(Turned(ls[0], a, v), TurnedAll(ls[1..], a, v), b, w);
      JoinedSplit(Turned(ls[0], b, w), TurnedAll(ls[1..], b, w), a, v);
      JoinedOne(ls[0], a, v);
      JoinedOne(ls[0], b, w);
    }
  }

  lemma WritesCommute(file: seq<byte>, a: seq<byte>, v: seq<byte>, b: seq<byte>, w: seq<byte>)
    requires 0 !in file && Incomparable(a, b) && Keeps(a, v, b, w) && Keeps(b, w, a, v)
    ensures Commute(file, a, v, b, w)
  {
    hide Lines, Joined, TurnedAll, Incomparable, Keeps, GoodLines;
    WrittenLines(file, a, v);
    WrittenLines(file, b, w);
    JoinedCommute(Lines(file), a, v, b, w);
  }

  /** A file of nothing but the first name shows whether its entry is kept. */
  lemma CommuteShows(a: seq<byte>, v: seq<byte>, b: seq<byte>, w: seq<byte>)
    requires GoodName(a) && Incomparable(a, b) && |a| <= BUFFER_SIZE && Commute(a, a, v, b, w)
    ensures Write(Entry(a, v), b, w) == Entry(a, v)
  {
    hide Lines, Entry, Text;
    LinesCons(a, []);
    assert a + [] == a;
    NoLines(a, v);
    hide Incomparable;
    GoodText(a);
    NotBoth(a, a, b);
    JoinedOne(a, a, v);
    JoinedOne(a, b, w);
  }

  /** Over all values: writes to names that are not prefixes of each other can be exchanged in every
      file exactly when each entry is kept by the other write. */
  lemma WritesCommuteIff(a: seq<byte>, v: seq<byte>, b: seq<byte>, w: seq<byte>)
    requires GoodName(a) && GoodName(b) && Incomparable(a, b)
    ensures (forall file | 0 !in file :: Commute(file, a, v, b, w)) <==> Keeps(a, v, b, w) && Keeps(b, w, a, v)
  {
    hide Write, Entry;
    if Keeps(a, v, b, w) && Keeps(b, w, a, v) {
      hide Commute, GoodName, Incomparable, Keeps;
      forall file: seq<byte> | 0 !in file ensures Commute(file, a, v, b, w) {
        WritesCommute(file, a, v, b, w);
      }
    } else if forall file | 0 !in file :: Commute(file, a, v, b, w) {
      assert Commute(a, a, v, b, w) && Commute(b, a, v, b, w);
      if |a| <= BUFFER_SIZE {
        CommuteShows(a, v, b, w);
      }
      if |b| <= BUFFER_SIZE {
        CommuteShows(b, w, a, v);
      }
    }
  }

  lemma {:induction false} JoinedAbsent(ls: seq<seq<byte>>, name: seq<byte>, value: seq<byte>)
    requires GoodLines(ls) && !Present(ls, name)
    ensures Joined(ls, name, value) == Concat(ls)
  {
    hide Entry, Text, GoodLine, GoodLines, Ended;
    if ls != [] {
      GoodTail(ls);
      GoodText(ls[0]);
      JoinedAbsent(ls[1..], name, value);
    }
  }

  /** Writing a name that is not in the file changes nothing but carriage returns. */
  lemma AbsentNameChangesNothing(file: seq<byte>, name: seq<byte>, value: seq<byte>)
    requires 0 !in file && !Present(Lines(file), name)
    ensures Write(file, name, value) == Plain(file)
  {
    hide Lines, Concat, Joined, GoodLines, Present, Plain;
    LinesAreGood(file);
    JoinedAbsent(Lines(file), name, value);
    JoinLines(file);
  }

  // ----- the buffer -----

  lemma ShortSplit(a: seq<seq<byte>>, b: seq<seq<byte>>)
    ensures Short(a + b) <==> Short(a) && Short(b)
  {
    if Short(a + b) {
      assert forall i | 0 <= i < |a| :: a[i] == (a + b)[i];
      assert forall i | 0 <= i < |b| :: b[i] == (a + b)[|a| + i];
    }
  }

  /** The lines that do not start with the name. */
  function Others(ls: seq<seq<byte>>, name: seq<byte>): (r: seq<seq<byte>>)
  {
    if ls == [] then [] else if Matches(name, ls[0]) then Others(ls[1..], name) else [ls[0]] + Others(ls[1..], name)
  }

  lemma {:induction false} TurnedFits(ls: seq<seq<byte>>, name: seq<byte>, value: seq<byte>)
    requires GoodLines(ls)
    ensures Short(TurnedAll(ls, name, value)) <==>
              Short(Others(ls, name)) && (Present(ls, name) ==> Fits(Entry(name, value)))
  {
    hide Lines, Entry, Text, GoodLine, GoodLines, Ended, Short, Matches;
    if ls != [] {
      GoodTail(ls);
      GoodText(ls[0]);
      TurnedFits(ls[1..], name, value);
      ShortSplit(Turned(ls[0], name, value), TurnedAll(ls[1..], name, value));
      ShortSplit([ls[0]], Others(ls[1..], name));
    } else {
      assert Short([]) by { NothingIsShort(); }
    }
  }

  lemma NothingIsShort()
    ensures Short([])
  {
  }

  /** Over all text files and values: the buffer has room for the lines of a written file exactly when it has
      for the lines kept and for those of the entry, if the name is there. */
  lemma WriteFitsIff(file: seq<byte>, name: seq<byte>, value: seq<byte>)
    requires 0 !in file
    ensures Fits(Write(file, name, value)) <==>
              Short(Others(Lines(file), name)) && (Present(Lines(file), name) ==> Fits(Entry(name, value)))
  {
    hide Lines, Write, Entry, TurnedAll, Present, Others, GoodLines, Short;
    WrittenLines(file, name, value);
    TurnedFits(Lines(file), name, value);
  }

  /** An entry of one line fits with its zero byte if it is shorter than the buffer. */
  lemma OneLineFits(name: seq<byte>, value: seq<byte>)
    requires GoodName(name) && 0 !in value && OneLine(name, value)
    ensures Fits(Entry(name, value)) <==> |Entry(name, value)| < BUFFER_SIZE
  {
    hide Lines, Entry, GoodName, OneLine, GoodLine;
    OneLineIsGood(name, value);
    assert Lines(Entry(name, value))[0] == Entry(name, value);
  }

  /** A line that fills the buffer is met before the name is found. */
  predicate Overruns(ls: seq<seq<byte>>, name: seq<byte>)
  {
    ls != [] && (|ls[0]| >= BUFFER_SIZE || (!Matches(name, ls[0]) && Overruns(ls[1..], name)))
  }

  lemma {:induction false} ShortStaysInside(ls: seq<seq<byte>>, name: seq<byte>)
    requires Short(ls)
    ensures !Overruns(ls, name)
  {
    hide Matches;
    if ls != [] {
      ShortStaysInside(ls[1..], name);
    }
  }

  // ----- the file, line by line -----

  lemma LineSizeNext(s: seq<byte>)
    requires s != [] && !EndsLine(s[0])
    ensures LineSize(s) == 1 + LineSize(s[1..])
  {
  }

  lemma LineSizeLast(s: seq<byte>)
    requires s != [] && EndsLine(s[0])
    ensures LineSize(s) == 1
  {
  }

  /** Reads the line at `pos`, or as much of it as the buffer holds, with a zero byte behind it; -1 at the
      end of the file. `buf` is the buffer and the byte behind it, which is written exactly when the line
      fills the buffer. */
  method ReadLine(buf: array<byte>, file: seq<byte>, pos: nat) returns (n: int, next: nat, beyond: bool)
    requires buf.Length == BUFFER_SIZE + 1 && pos <= |file|
    modifies buf
    ensures pos <= next <= |file|
    ensures pos == |file| ==> n == -1 && next == pos
    ensures pos < |file| ==> n == PieceSize(file[pos..]) == next - pos && buf[..n] == Plain(file[pos..next]) && buf[n] == 0
    ensures forall i | n < i < buf.Length :: buf[i] == old(buf[i])
    ensures beyond <==> LineSize(file[pos..]) >= BUFFER_SIZE
  {
    hide LineSize;
    n, next, beyond := 0, pos, false;
    var ended := false;
    while next < |file| && !ended && n < BUFFER_SIZE
      invariant pos <= next <= |file| && n == next - pos <= BUFFER_SIZE
      invariant n + (if ended then 0 else LineSize(file[next..])) == LineSize(file[pos..])
      invariant buf[..n] == Plain(file[pos..next])
      invariant forall i | n <= i < buf.Length :: buf[i] == old(buf[i])
      decreases |file| - next
    {
      var ch := if file[next] == CR then NL else file[next];
      ghost var rest := file[next..];
      if EndsLine(rest[0]) {
        LineSizeLast(rest);
      } else {
        LineSizeNext(rest);
        assert rest[1..] == file[next + 1..];
      }
      buf[n] := ch;
      n, next := n + 1, next + 1;
      assert buf[..n] == Plain(file[pos..next]);
      ended := ch == NL;
    }
    if n == 0 {
      return -1, next, false;
    }
    beyond := n == BUFFER_SIZE;
    buf[n] := 0;
  }

  /** One line of reading and of writing. */
  lemma FileStep(s: seq<byte>, name: seq<byte>, value: seq<byte>)
    requires s != []
    ensures var line, rest := Plain(s[..PieceSize(s)]), s[PieceSize(s)..];
            && Read(s, name) == (if Matches(name, line) then Scanned(name, Text(line)[|name|..]) else Read(rest, name))
            && Write(s, name, value) == Replace(line, name, value) + Write(rest, name, value)
            && (Overruns(Lines(s), name) <==> |line| >= BUFFER_SIZE || (!Matches(name, line) && Overruns(Lines(rest), name)))
            && (Fits(s) <==> |line| < BUFFER_SIZE && Fits(rest))
  {
    hide PieceSize, Plain, Replace, Matches, Text, Scanned, Short;
    var k := PieceSize(s);
    assert Lines(s)[1..] == Lines(s[k..]);
    ShortSplit([Plain(s[..k])], Lines(s[k..]));
    OneIsShort(Plain(s[..k]));
  }

  lemma OneIsShort(line: seq<byte>)
    ensures Short([line]) <==> |line| < BUFFER_SIZE
  {
    assert [line][0] == line;
  }

  class Store {
    var file: seq<byte>

    constructor (text: seq<byte>)
      ensures file == text
    {
      file := text;
    }

    /** Reads a value into `dst`, filled up with zeros; a name that is not there reads as nothing. */
    method ReadParam(name: seq<byte>, dst: array<byte>, opens: bool) returns (code: int, beyond: bool)
      requires dst.Length == 0 || |Read(file, name)| < dst.Length
      modifies dst
      ensures code == if dst.Length == 0 then -1 else if opens then 0 else -3
      ensures code == 0 ==> dst[..] == Read(file, name) + Zeros(dst.Length - |Read(file, name)|)
      ensures code != 0 ==> dst[..] == old(dst[..])
      ensures beyond <==> code == 0 && Overruns(Lines(file), name)
    {
      hide Read, Lines, Overruns;
      if dst.Length == 0 {
        return -1, false;
      }
      if !opens {
        return -3, false;
      }
      var value;
      value, beyond := Lookup(name);
      forall i | 0 <= i < dst.Length {
        dst[i] := if i < |value| then value[i] else 0;
      }
      code := 0;
    }

    /** The value in the first line that starts with the name. */
    method Lookup(name: seq<byte>) returns (value: seq<byte>, beyond: bool)
      ensures value == Read(file, name)
      ensures beyond <==> Overruns(Lines(file), name)
    {
      hide Read, Overruns, Fits, Scanned, Text, Plain, LineSize, Lines, Replace, Write;
      var buf := new byte[BUFFER_SIZE + 1];
      var pos := 0;
      beyond := false;
      ghost var rest := file;
      assert file[0..] == file;
      while pos < |file|
        invariant 0 <= pos <= |file| && rest == file[pos..] && Read(rest, name) == Read(file, name)
        invariant beyond || Overruns(Lines(rest), name) <==> Overruns(Lines(file), name)
      {
        FileStep(rest, name, []);
        var n, next, full := ReadLine(buf, file, pos);
        assert rest[..n] == file[pos..next];
        Slices.DropDrop(file, pos, n);
        beyond := beyond || full;
        var text := Text(buf[..n]);
        if name <= text {
          return Scanned(name, text[|name|..]), beyond;
        }
        pos, rest := next, file[next..];
      }
      NoLines(name, []);
      NoOverrun(name);
      value := [];
    }

    /** Rewrites the file with a new value for a name. */
    method WriteParam(name: seq<byte>, value: seq<byte>, opens: bool) returns (code: int, beyond: bool)
      modifies this
      ensures code == if opens then 0 else -1
      ensures file == if opens then Write(old(file), name, value) else old(file)
      ensures beyond <==> opens && !Fits(old(file))
    {
      hide Write, Fits;
      if !opens {
        return -1, false;
      }
      file, beyond := Rewrite(file, name, value);
      code := 0;
    }
  }

  lemma NoOverrun(name: seq<byte>)
    ensures !Overruns([], name) && Fits([])
  {
  }

  /** The new file, line by line. */
  method Rewrite(file: seq<byte>, name: seq<byte>, value: seq<byte>) returns (out: seq<byte>, beyond: bool)
    ensures out == Write(file, name, value)
    ensures beyond <==> !Fits(file)
  {
    hide Write, Fits, Entry, Text, Plain, LineSize, Lines, Read, Overruns, Scanned;
    var buf := new byte[BUFFER_SIZE + 1];
    var pos := 0;
    out, beyond := [], false;
    ghost var rest, all := file, Write(file, name, value);
    assert file[0..] == file && [] + all == all;
    while pos < |file|
      invariant 0 <= pos <= |file| && rest == file[pos..] && out + Write(rest, name, value) == all
      invariant beyond || !Fits(rest) <==> !Fits(file)
    {
      FileStep(rest, name, value);
      var n, next, full := ReadLine(buf, file, pos);
      assert rest[..n] == file[pos..next];
      Slices.DropDrop(file, pos, n);
      beyond := beyond || full;
      var text := Text(buf[..n]);
      var line := if name <= text then Entry(name, value) else text;
      pos, rest := next, file[next..];
      Slices.Assoc3(out, line, Write(rest, name, value));
      out := out + line;
    }
    NoLines(name, value);
    NoOverrun(name);
    assert out + [] == out;
  }

  lemma PaddedSame(a: seq<byte>, b: seq<byte>, n: nat)
    requires 0 !in a && 0 !in b && |a| <= |b| <= n
    ensures a + Zeros(n - |a|) == b + Zeros(n - |b|) <==> a == b
  {
    var x, y := a + Zeros(n - |a|), b + Zeros(n - |b|);
    assert |a| < |b| ==> x[|a|] == 0 && y[|a|] == b[|a|];
    assert x[..|a|] == a && y[..|b|] == b;
  }

  /** A value is set and read again. */
  method Exchange(store: Store, name: seq<byte>, value: seq<byte>, dst: array<byte>) returns (beyond: bool)
    requires 0 !in store.file && GoodName(name) && 0 !in value && |value| < dst.Length
    modifies store, dst
    ensures store.file == Write(old(store.file), name, value)
    ensures dst[..] == value + Zeros(dst.Length - |value|) <==>
              (Present(Lines(old(store.file)), name) && ReadsBack(name, value)) || value == []
    ensures beyond <==> !Fits(old(store.file)) || Overruns(Lines(store.file), name)
  {
    hide *;
    ghost var file := store.file;
    WriteThenReadIff(file, name, value);
    ReadsNoMore(file, name, value);
    var _, wrote := store.WriteParam(name, value, true);
    var _, read := store.ReadParam(name, dst, true);
    PaddedSame(Read(store.file, name), value, dst.Length);
    beyond := wrote || read;
  }
}
