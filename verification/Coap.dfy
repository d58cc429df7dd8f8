/**
  CoAP messages: composing and parsing (RFC 7252, sections 3 and 3.1), and the option list both
  work on.
 */
module Coap {
  import opened Bytes
  import Slices

  datatype Opt = Opt(number: nat, value: seq<byte>)

  datatype Message = Message(
    msgType: nat, codeClass: nat, codeDetail: nat, msgId: nat,
    token: seq<byte>, options: seq<Opt>, payload: seq<byte>)

  // ----- the option list: a stable insertion sort -----

  /** Puts `o` before the first option with a greater number. */
  function InsertSorted(opts: seq<Opt>, o: Opt): (r: seq<Opt>)
  {
    if opts == [] || opts[0].number > o.number then [o] + opts else [opts[0]] + InsertSorted(opts[1..], o)
  }

  /** Adding an option: at the end if that keeps the order, else where it belongs. */
  function Insert(opts: seq<Opt>, o: Opt): (r: seq<Opt>)
  {
    if opts == [] || opts[|opts| - 1].number <= o.number then opts + [o] else InsertSorted(opts, o)
  }

  function InsertAll(xs: seq<Opt>): (r: seq<Opt>)
  {
    if xs == [] then [] else Insert(InsertAll(xs[..|xs| - 1]), xs[|xs| - 1])
  }

  ghost predicate Sorted(opts: seq<Opt>)
  {
    forall i, j | 0 <= i < j < |opts| :: opts[i].number <= opts[j].number
  }

  /** The options with one number, in order. */
  function WithNumber(opts: seq<Opt>, k: nat): (r: seq<Opt>)
  {
    if opts == [] then []
    else WithNumber(opts[..|opts| - 1], k) + if opts[|opts| - 1].number == k then [opts[|opts| - 1]] else []
  }

  lemma {:induction false} WithNumberConcat(a: seq<Opt>, b: seq<Opt>, k: nat)
    ensures WithNumber(a + b, k) == WithNumber(a, k) + WithNumber(b, k)
    decreases |b|
  {
    if b == [] {
      assert a + b == a;
    } else {
      assert (a + b)[..|a + b| - 1] == a + b[..|b| - 1];
      WithNumberConcat(a, b[..|b| - 1], k);
    }
  }

  lemma {:induction false} WithNumberAbsent(opts: seq<Opt>, k: nat)
    requires forall i | 0 <= i < |opts| :: opts[i].number != k
    ensures WithNumber(opts, k) == []
    decreases |opts|
  {
    if opts != [] {
      WithNumberAbsent(opts[..|opts| - 1], k);
    }
  }

  /** Where a sorted insertion lands: behind everything not greater. */
  lemma {:induction false} InsertSortedAt(opts: seq<Opt>, o: Opt) returns (i: nat)
    ensures i <= |opts| && InsertSorted(opts, o) == opts[..i] + [o] + opts[i..]
    ensures forall j | 0 <= j < i :: opts[j].number <= o.number
    ensures i < |opts| ==> opts[i].number > o.number
    decreases |opts|
  {
    if opts == [] || opts[0].number > o.number {
      i := 0;
    } else {
      var k := InsertSortedAt(opts[1..], o);
      i := k + 1;
      assert opts[..i] == [opts[0]] + opts[1..][..k] && opts[i..] == opts[1..][k..];
      assert forall j | 0 <= j < i :: opts[j].number <= o.number by {
        assert forall j | 1 <= j < i :: opts[j] == opts[1..][j - 1];
      }
    }
  }

  /** On a sorted list both ways of adding are the same: behind everything not greater. */
  lemma InsertAt(opts: seq<Opt>, o: Opt) returns (i: nat)
    requires Sorted(opts)
    ensures i <= |opts| && Insert(opts, o) == opts[..i] + [o] + opts[i..]
    ensures forall j | 0 <= j < i :: opts[j].number <= o.number
    ensures forall j | i <= j < |opts| :: opts[j].number > o.number
  {
    hide InsertSorted;
    if opts == [] || opts[|opts| - 1].number <= o.number {
      i := |opts|;
    } else {
      i := InsertSortedAt(opts, o);
    }
  }

  lemma SortedAround(a: seq<Opt>, o: Opt, b: seq<Opt>)
    requires Sorted(a + b)
    requires forall j | 0 <= j < |a| :: a[j].number <= o.number
    requires forall j | 0 <= j < |b| :: b[j].number > o.number
    ensures Sorted(a + [o] + b)
  {
    var r := a + [o] + b;
    forall i, j | 0 <= i < j < |r| ensures r[i].number <= r[j].number {
      assert i < |a| ==> (a + b)[i] == r[i];
      assert j < |a| ==> (a + b)[j] == r[j];
      assert i > |a| ==> (a + b)[i - 1] == r[i];
      assert j > |a| ==> (a + b)[j - 1] == r[j];
    }
  }

  lemma InsertKeepsOrder(opts: seq<Opt>, o: Opt, k: nat)
    requires Sorted(opts)
    ensures Sorted(Insert(opts, o))
    ensures WithNumber(Insert(opts, o), k) == WithNumber(opts, k) + WithNumber([o], k)
  {
    hide Insert, WithNumber, Sorted;
    var i := InsertAt(opts, o);
    var a, b := opts[..i], opts[i..];
    assert opts == a + b;
    SortedAround(a, o, b);
    WithNumberConcat(a + [o], b, k);
    WithNumberConcat(a, [o], k);
    WithNumberConcat(a, b, k);
    if k == o.number {
      WithNumberAbsent(b, k);
    } else {
      WithNumberAbsent([o], k);
    }
  }

  /** Whatever is added in whatever order, the list is sorted by number, and options of the same
      number keep the order in which they were added; together that determines the list. */
  lemma {:induction false} InsertAllIsStableSort(xs: seq<Opt>, k: nat)
    ensures Sorted(InsertAll(xs)) && WithNumber(InsertAll(xs), k) == WithNumber(xs, k)
    decreases |xs|
  {
    hide Insert, WithNumber;
    if xs == [] {
    } else {
      var front, o := xs[..|xs| - 1], xs[|xs| - 1];
      InsertAllIsStableSort(front, k);
      InsertKeepsOrder(InsertAll(front), o, k);
      assert xs == front + [o];
      WithNumberConcat(front, [o], k);
    }
  }

  lemma {:induction false} WithNumberFinds(opts: seq<Opt>, k: nat) returns (i: nat)
    requires WithNumber(opts, k) != []
    ensures i < |opts| && opts[i].number == k
    decreases |opts|
  {
    if opts[|opts| - 1].number == k {
      i := |opts| - 1;
    } else {
      i := WithNumberFinds(opts[..|opts| - 1], k);
    }
  }

  lemma WithNumberSnoc(front: seq<Opt>, x: Opt, k: nat)
    ensures WithNumber(front + [x], k) == WithNumber(front, k) + if x.number == k then [x] else []
  {
    assert (front + [x])[..|front|] == front;
  }

  /** The last options of two sorted lists that agree number by number have the same number. */
  lemma LastNumber(a: seq<Opt>, b: seq<Opt>)
    requires Sorted(a) && a != [] && forall k: nat :: WithNumber(a, k) == WithNumber(b, k)
    ensures b != [] && (Sorted(b) ==> a[|a| - 1].number <= b[|b| - 1].number)
  {
    var n := a[|a| - 1].number;
    assert WithNumber(a, n) != [];
    assert WithNumber(b, n) != [];
    var i := WithNumberFinds(b, n);
  }

  /** Two sorted lists whose options agree number by number are the same list. */
  lemma {:induction false} StableSortIsUnique(a: seq<Opt>, b: seq<Opt>)
    requires Sorted(a) && Sorted(b) && forall k: nat :: WithNumber(a, k) == WithNumber(b, k)
    ensures a == b
    decreases |a|
  {
    hide WithNumber;
    if a == [] {
      if b != [] {
        LastNumber(b, a);
      }
    } else {
      LastNumber(a, b);
      LastNumber(b, a);
      var a', x, b', y := a[..|a| - 1], a[|a| - 1], b[..|b| - 1], b[|b| - 1];
      assert a == a' + [x] && b == b' + [y];
      forall k: nat ensures WithNumber(a', k) == WithNumber(b', k) && (k == x.number ==> x == y) {
        WithNumberSnoc(a', x, k);
        WithNumberSnoc(b', y, k);
        assert WithNumber(a, k) == WithNumber(b, k);
        if k == x.number {
          Slices.SnocInjective(WithNumber(a', k), x, WithNumber(b', k), y);
        } else {
          assert WithNumber(a', k) + [] == WithNumber(a', k) && WithNumber(b', k) + [] == WithNumber(b', k);
        }
      }
      assert x == y by {
        assert WithNumber(a', x.number) == WithNumber(b', x.number);
      }
      StableSortIsUnique(a', b');
    }
  }

  /** A sorted list comes out as it went in. */
  lemma {:induction false} InsertAllSorted(xs: seq<Opt>)
    requires Sorted(xs)
    ensures InsertAll(xs) == xs
    decreases |xs|
  {
    hide Insert;
    if xs != [] {
      var front, o := xs[..|xs| - 1], xs[|xs| - 1];
      InsertAllSorted(front);
      assert xs == front + [o] + [];
      AppendInOrder(front, o, []);
    }
  }

  // ----- composing -----

  const MAX_EXTENDED := 0xFFFF + 269

  /** The four bits that stand for a delta or a length. */
  function Base(v: nat): (b: nat)
    ensures b < 15
  {
    if v < 13 then v else if v <= 0xFF + 13 then 13 else 14
  }

  /** The bytes that extend them. */
  function Ext(v: nat): (s: seq<byte>)
    requires v <= MAX_EXTENDED
    ensures |s| == ExtSize(v)
  {
    if v < 13 then [] else if v <= 0xFF + 13 then [v - 13] else Be16(v - 269)
  }

  function ExtSize(v: nat): (n: nat)
  {
    if 13 <= v <= 0xFF + 13 then 1 else if 0xFF + 13 < v <= MAX_EXTENDED then 2 else 0
  }

  /** Why a message is refused, by the field at fault. */
  datatype Refusal = TypeField | TokenField | ClassField | DetailField | OptionsField

  /** The option checks of the sizing pass, from an option behind number `prev` on. */
  predicate OptionsFit(prev: nat, opts: seq<Opt>)
    decreases |opts|
  {
    opts == [] ||
    (&& (|opts| > 1 ==> opts[0].number <= opts[1].number)
     && |opts[0].value| <= MAX_EXTENDED && opts[0].number - prev <= MAX_EXTENDED
     && OptionsFit(opts[0].number, opts[1..]))
  }

  function Refused(m: Message): (r: Option<Refusal>)
  {
    if m.msgType > 3 then Some(TypeField)
    else if |m.token| > 8 then Some(TokenField)
    else if m.codeClass > 7 then Some(ClassField)
    else if m.codeDetail > 31 then Some(DetailField)
    else if !OptionsFit(0, m.options) then Some(OptionsField)
    else None
  }

  /** The number of the option before the one at `i`. */
  function Before(prev: nat, opts: seq<Opt>, i: nat): (n: nat)
    requires i < |opts|
  {
    if i == 0 then prev else opts[i - 1].number
  }

  /** Options in order whose lengths and distances can be written. */
  ghost predicate Writable(prev: nat, opts: seq<Opt>)
  {
    Sorted(opts) && forall i: nat | i < |opts| :: Near(prev, opts, i)
  }

  predicate Near(prev: nat, opts: seq<Opt>, i: nat)
    requires i < |opts|
  {
    |opts[i].value| <= 65804 && opts[i].number - Before(prev, opts, i) <= 65804
  }

  lemma NearShift(prev: nat, opts: seq<Opt>, i: nat)
    requires i + 1 < |opts|
    ensures Near(prev, opts, i + 1) <==> Near(opts[0].number, opts[1..], i)
  {
  }

  lemma WritableStep(prev: nat, opts: seq<Opt>)
    requires opts != []
    ensures Writable(prev, opts) <==>
      && (|opts| > 1 ==> opts[0].number <= opts[1].number)
      && |opts[0].value| <= 65804 && opts[0].number - prev <= 65804 && Writable(opts[0].number, opts[1..])
  {
    var o, rest := opts[0], opts[1..];
    assert Near(prev, opts, 0) <==> |opts[0].value| <= 65804 && opts[0].number - prev <= 65804;
    hide Near;
    SortedCons(opts);
    forall i: nat | i < |rest| ensures Near(prev, opts, i + 1) <==> Near(o.number, rest, i) {
      NearShift(prev, opts, i);
    }
    hide Sorted;
    if Writable(prev, opts) {
      forall i: nat | i < |rest| ensures Near(o.number, rest, i) {
        assert Near(prev, opts, i + 1);
      }
    }
    if Writable(o.number, rest) && Near(prev, opts, 0) {
      forall i: nat | i < |opts| ensures Near(prev, opts, i) {
        if i > 0 {
          assert Near(o.number, rest, i - 1);
        }
      }
    }
  }

  lemma SortedCons(opts: seq<Opt>)
    requires opts != []
    ensures Sorted(opts) <==> Sorted(opts[1..]) && (|opts| > 1 ==> opts[0].number <= opts[1].number)
  {
    var rest := opts[1..];
    if Sorted(rest) && (|opts| > 1 ==> opts[0].number <= opts[1].number) {
      forall i, j | 0 <= i < j < |opts| ensures opts[i].number <= opts[j].number {
        assert opts[j] == rest[j - 1] && rest[0] == opts[1];
        if i > 0 {
          assert opts[i] == rest[i - 1];
        } else if j > 1 {
          assert rest[0].number <= rest[j - 1].number;
        }
      }
    }
    if Sorted(opts) {
      forall i, j | 0 <= i < j < |rest| ensures rest[i].number <= rest[j].number {
        assert rest[i] == opts[i + 1] && rest[j] == opts[j + 1];
      }
    }
  }

  lemma {:induction false} OptionsFitIff(prev: nat, opts: seq<Opt>)
    ensures OptionsFit(prev, opts) <==> Writable(prev, opts)
    decreases |opts|
  {
    hide Writable;
    if opts != [] {
      WritableStep(prev, opts);
      OptionsFitIff(opts[0].number, opts[1..]);
    } else {
      NoneWritable(prev);
    }
  }

  lemma NoneWritable(prev: nat)
    ensures Writable(prev, [])
  {
  }

  /** Which messages are composed: the fields of the header within their bits, a token of up to eight
      bytes, and options in order whose lengths and distances can be written. */
  lemma RefusedIff(m: Message)
    ensures Refused(m).None? <==>
      m.msgType < 4 && m.codeClass < 8 && m.codeDetail < 32 && |m.token| <= 8 && Writable(0, m.options)
  {
    hide Writable, OptionsFit;
    OptionsFitIff(0, m.options);
  }

  function OptionBytes(delta: nat, value: seq<byte>): (s: seq<byte>)
    requires delta <= MAX_EXTENDED && |value| <= MAX_EXTENDED
    ensures |s| == 1 + ExtSize(delta) + ExtSize(|value|) + |value|
    ensures s[0] != 255
  {
    [Base(delta) * 16 + Base(|value|)] + Ext(delta) + Ext(|value|) + value
  }

  lemma FitIsSorted(prev: nat, opts: seq<Opt>)
    requires OptionsFit(prev, opts)
    ensures Sorted(opts)
  {
    OptionsFitIff(prev, opts);
  }

  /** The options on the wire, each number as the distance from the one before. */
  function OptionsBytes(prev: nat, opts: seq<Opt>): (s: seq<byte>)
    requires OptionsFit(prev, opts) && (opts != [] ==> prev <= opts[0].number)
    decreases |opts|
  {
    if opts == [] then []
    else OptionBytes(opts[0].number - prev, opts[0].value) + OptionsBytes(opts[0].number, opts[1..])
  }

  function OptionsSize(prev: nat, opts: seq<Opt>): (n: nat)
    requires OptionsFit(prev, opts) && (opts != [] ==> prev <= opts[0].number)
    ensures n == |OptionsBytes(prev, opts)|
    decreases |opts|
  {
    if opts == [] then 0
    else
      var head := 1 + ExtSize(opts[0].number - prev) + ExtSize(|opts[0].value|) + |opts[0].value|;
      head + OptionsSize(opts[0].number, opts[1..])
  }

  function HeaderBytes(m: Message): (s: seq<byte>)
    requires Refused(m).None? && m.msgId < 0x1_0000
    ensures |s| == 4
  {
    [64 + m.msgType * 16 + |m.token|, m.codeClass * 32 + m.codeDetail] + Be16(m.msgId)
  }

  function PayloadBytes(m: Message): (s: seq<byte>)
  {
    if m.payload == [] then [] else [255] + m.payload
  }

  function ComposeBytes(m: Message): (s: seq<byte>)
    requires Refused(m).None? && m.msgId < 0x1_0000
  {
    HeaderBytes(m) + m.token + OptionsBytes(0, m.options) + PayloadBytes(m)
  }

  // ----- parsing -----

  datatype Fault = NotEnoughData | Ignore | FormatError

  datatype Parsed<T> = Fault(fault: Fault) | Parsed(value: T)

  /** An extended delta or length: its value in sixteen bits, and how many bytes extend it. */
  function ReadExt(base: nat, s: seq<byte>): (r: Option<(nat, nat)>)
    ensures r.Some? ==> r.value.1 <= |s|
  {
    if base == 13 then (if |s| >= 1 then Some((s[0] as int + 13, 1)) else None)
    else if base == 14 then (if |s| >= 2 then Some(((U16(s) + 269) % 0x1_0000, 2)) else None)
    else Some((base, 0))
  }

  datatype OneOption = OneOption(opt: Opt, used: nat)

  /** The option at the front of `s`, behind option number `prev`. */
  function ParseOption(prev: nat, s: seq<byte>): (r: Parsed<OneOption>)
    requires |s| > 0
    ensures r.Parsed? ==> 0 < r.value.used <= |s|
  {
    var d, l := s[0] / 16, s[0] % 16;
    if d == 15 || l == 15 then Fault(FormatError)
    else
      match ReadExt(d, s[1..])
      case None => Fault(NotEnoughData)
      case Some((delta, n1)) =>
        match ReadExt(l, s[1 + n1..])
        case None => Fault(NotEnoughData)
        case Some((len, n2)) =>
          var start := 1 + n1 + n2;
          if start + len > |s| then Fault(NotEnoughData)
          else Parsed(OneOption(Opt((delta + prev) % 0x1_0000, s[start..start + len]), start + len))
  }

  /** All options up to the payload marker or the end, added to `acc` one by one; and what follows. */
  function ParseOptions(prev: nat, s: seq<byte>, acc: seq<Opt>): (r: Parsed<(seq<Opt>, seq<byte>)>)
    decreases |s|
  {
    if s == [] || s[0] == 255 then Parsed((acc, s))
    else
      match ParseOption(prev, s)
      case Fault(f) => Fault(f)
      case Parsed(one) => ParseOptions(one.opt.number, s[one.used..], Insert(acc, one.opt))
  }

  function Parse(s: seq<byte>): (r: Parsed<Message>)
  {
    if |s| < 4 then Fault(NotEnoughData)
    else if s[0] / 64 != 1 then Fault(Ignore)
    else if s[0] % 16 > 8 then Fault(FormatError)
    else if 4 + s[0] % 16 > |s| then Fault(NotEnoughData)
    else
      var tokenEnd := 4 + s[0] % 16;
      match ParseOptions(0, s[tokenEnd..], [])
      case Fault(f) => Fault(f)
      case Parsed((opts, rest)) =>
        Parsed(Message(s[0] / 16 % 4, s[1] / 32, s[1] % 32, U16(s[2..]), s[4..tokenEnd], opts,
                       if rest == [] then [] else rest[1..]))
  }

  // ----- parsing undoes composing -----

  lemma ReadExtInverts(v: nat, t: seq<byte>)
    requires v <= MAX_EXTENDED
    ensures ReadExt(Base(v), Ext(v) + t) == Some((v % 0x1_0000, ExtSize(v)))
  {
    if v > 0xFF + 13 {
      U16Inverts(v - 269, t);
    }
  }

  /** A composed option is read back; delta and length come back modulo 65536. */
  lemma ParseOptionInverts(prev: nat, delta: nat, value: seq<byte>, t: seq<byte>)
    requires delta <= MAX_EXTENDED && |value| < 0x1_0000
    ensures ParseOption(prev, OptionBytes(delta, value) + t)
         == Parsed(OneOption(Opt((delta % 0x1_0000 + prev) % 0x1_0000, value), |OptionBytes(delta, value)|))
  {
    hide Base, Ext, ReadExt, ExtSize;
    var s := OptionBytes(delta, value) + t;
    var first: byte := Base(delta) * 16 + Base(|value|);
    assert s[0] == first && first / 16 == Base(delta) && first % 16 == Base(|value|);
    assert s[1..] == Ext(delta) + (Ext(|value|) + value + t);
    ReadExtInverts(delta, Ext(|value|) + value + t);
    assert s[1 + ExtSize(delta)..] == Ext(|value|) + (value + t);
    ReadExtInverts(|value|, value + t);
    var head := [first] + Ext(delta) + Ext(|value|);
    Slices.Middle(head, value, t);
    assert s == head + value + t;
  }

  /** Everything that comes out of the parser has sixteen-bit option numbers and lengths. */
  predicate Narrow(opts: seq<Opt>)
  {
    forall i | 0 <= i < |opts| :: opts[i].number < 0x1_0000 && |opts[i].value| < 0x1_0000
  }

  lemma ParseOptionsEnds(prev: nat, rest: seq<byte>, acc: seq<Opt>)
    requires rest == [] || rest[0] == 255
    ensures ParseOptions(prev, rest, acc) == Parsed((acc, rest))
  {
  }

  lemma ParseOptionsTakes(prev: nat, s: seq<byte>, acc: seq<Opt>, one: OneOption)
    requires s != [] && s[0] != 255 && ParseOption(prev, s) == Parsed(one)
    ensures one.used <= |s| && ParseOptions(prev, s, acc) == ParseOptions(one.opt.number, s[one.used..], Insert(acc, one.opt))
  {
    hide ParseOption, Insert;
  }

  lemma {:induction false} ParseOptionsInverts(prev: nat, opts: seq<Opt>, rest: seq<byte>, acc: seq<Opt>)
    requires OptionsFit(prev, opts) && (opts != [] ==> prev <= opts[0].number) && Narrow(opts)
    requires Sorted(acc + opts) && (rest == [] || rest[0] == 255)
    ensures ParseOptions(prev, OptionsBytes(prev, opts) + rest, acc) == Parsed((acc + opts, rest))
    decreases |opts|
  {
    hide ParseOption, ParseOptions, OptionBytes, Insert, Sorted, Narrow, OptionsFit, OptionsBytes;
    if opts == [] {
      NoOptions(prev);
      assert acc + opts == acc && [] + rest == rest;
      ParseOptionsEnds(prev, rest, acc);
    } else {
      var o, tail := opts[0], opts[1..];
      NarrowTail(opts);
      FitTail(prev, opts);
      var w, t := OptionBytes(o.number - prev, o.value), OptionsBytes(o.number, tail) + rest;
      Slices.Assoc3(w, OptionsBytes(o.number, tail), rest);
      ParseOptionInverts(prev, o.number - prev, o.value, t);
      Slices.Middle([], w, t);
      assert [] + w + t == w + t;
      assert opts == [o] + tail;
      Slices.Assoc3(acc, [o], tail);
      AppendInOrder(acc, o, tail);
      ParseOptionsTakes(prev, w + t, acc, OneOption(o, |w|));
      ParseOptionsInverts(o.number, tail, rest, acc + [o]);
    }
  }

  lemma NoOptions(prev: nat)
    ensures OptionsFit(prev, []) && OptionsBytes(prev, []) == []
  {
  }

  lemma FitTail(prev: nat, opts: seq<Opt>)
    requires OptionsFit(prev, opts) && opts != [] && prev <= opts[0].number
    ensures var o, tail := opts[0], opts[1..];
      && OptionsFit(o.number, tail) && (tail != [] ==> o.number <= tail[0].number)
      && o.number - prev <= MAX_EXTENDED && |o.value| <= MAX_EXTENDED
      && OptionsBytes(prev, opts) == OptionBytes(o.number - prev, o.value) + OptionsBytes(o.number, tail)
  {
    hide OptionBytes;
  }

  lemma NarrowTail(opts: seq<Opt>)
    requires Narrow(opts) && opts != []
    ensures Narrow(opts[1..]) && opts[0].number < 0x1_0000 && |opts[0].value| < 0x1_0000
  {
  }

  lemma AppendInOrder(acc: seq<Opt>, o: Opt, tail: seq<Opt>)
    requires Sorted(acc + [o] + tail)
    ensures Insert(acc, o) == acc + [o]
  {
    hide InsertSorted;
    var all := acc + [o] + tail;
    assert all[|acc|] == o;
    if acc != [] {
      assert all[|acc| - 1] == acc[|acc| - 1];
    }
  }

  lemma HeaderReads(m: Message, t: seq<byte>)
    requires Refused(m).None? && m.msgId < 0x1_0000
    ensures var s := HeaderBytes(m) + t;
      && s[0] / 64 == 1 && s[0] % 16 == |m.token| && s[0] / 16 % 4 == m.msgType
      && s[1] / 32 == m.codeClass && s[1] % 32 == m.codeDetail && U16(s[2..]) == m.msgId
  {
    hide OptionsFit;
    var s := HeaderBytes(m) + t;
    assert s[2..] == Be16(m.msgId) + t;
    U16Inverts(m.msgId, t);
  }

  /** A message whose option numbers and lengths fit in sixteen bits survives the wire. */
  lemma RoundTrip(m: Message)
    requires Refused(m).None? && m.msgId < 0x1_0000 && Narrow(m.options)
    ensures Parse(ComposeBytes(m)) == Parsed(m)
  {
    hide HeaderBytes, OptionsBytes, OptionsFit, ParseOptions, U16, PayloadBytes, Narrow, Sorted, Refused, Parse;
    RefusedNone(m);
    var s, h := ComposeBytes(m), HeaderBytes(m);
    var os, p := OptionsBytes(0, m.options), PayloadBytes(m);
    SplitFour(h, m.token, os, p);
    HeaderReads(m, m.token + os + p);
    Slices.Assoc3(m.token, os, p);
    assert s[4..] == m.token + (os + p);
    FitIsSorted(0, m.options);
    assert [] + m.options == m.options;
    PayloadReads(m);
    ParseOptionsInverts(0, m.options, p, []);
    ParseWhole(s, m.token, os + p, m.options, p);
  }

  /** Parsing, given what the options are. */
  lemma ParseWhole(s: seq<byte>, token: seq<byte>, rest: seq<byte>, opts: seq<Opt>, p: seq<byte>)
    requires |s| >= 4 && s[0] / 64 == 1 && s[0] % 16 == |token| <= 8
    requires s[4..] == token + rest && ParseOptions(0, rest, []) == Parsed((opts, p))
    ensures Parse(s) == Parsed(Message(s[0] / 16 % 4, s[1] / 32, s[1] % 32, U16(s[2..]), token, opts,
                                       if p == [] then [] else p[1..]))
  {
    hide ParseOptions, U16;
    assert s[4..4 + |token|] == token && s[4 + |token|..] == rest;
  }

  lemma SplitFour(a: seq<byte>, b: seq<byte>, c: seq<byte>, d: seq<byte>)
    ensures a + b + c + d == a + (b + c + d) && a + b + c + d == a + b + (c + d)
  {
  }

  lemma PayloadReads(m: Message)
    ensures var p := PayloadBytes(m); (p == [] || p[0] == 255) && (if p == [] then [] else p[1..]) == m.payload
  {
  }

  lemma RefusedNone(m: Message)
    requires Refused(m).None?
    ensures |m.token| <= 8 && OptionsFit(0, m.options)
  {
  }

  lemma InsertStaysNarrow(opts: seq<Opt>, o: Opt)
    requires Narrow(opts) && Narrow([o])
    ensures Narrow(Insert(opts, o))
  {
    hide InsertSorted;
    assert Narrow([o]) ==> [o][0].number < 0x1_0000 && |[o][0].value| < 0x1_0000;
    if !(opts == [] || opts[|opts| - 1].number <= o.number) {
      var i := InsertSortedAt(opts, o);
    }
  }

  lemma {:induction false} ParseOptionsNarrow(prev: nat, s: seq<byte>, acc: seq<Opt>)
    requires Narrow(acc)
    ensures var r := ParseOptions(prev, s, acc); r.Parsed? ==> Narrow(r.value.0)
    decreases |s|
  {
    hide Insert, ParseOption;
    if s != [] && s[0] != 255 {
      var r := ParseOption(prev, s);
      if r.Parsed? {
        OptionNarrow(prev, s);
        InsertStaysNarrow(acc, r.value.opt);
        ParseOptionsNarrow(r.value.opt.number, s[r.value.used..], Insert(acc, r.value.opt));
      }
    }
  }

  lemma OptionNarrow(prev: nat, s: seq<byte>)
    requires |s| > 0
    ensures var r := ParseOption(prev, s); r.Parsed? ==> Narrow([r.value.opt])
  {
  }

  /** The sender accepts options the receiver cannot represent; exactly those without them survive. */
  lemma RoundTripIff(m: Message)
    requires Refused(m).None? && m.msgId < 0x1_0000
    ensures Parse(ComposeBytes(m)) == Parsed(m) <==> Narrow(m.options)
  {
    hide ComposeBytes, ParseOptions, OptionsFit, Narrow;
    if Narrow(m.options) {
      RoundTrip(m);
    } else if Parse(ComposeBytes(m)) == Parsed(m) {
      var s := ComposeBytes(m);
      assert Narrow([]) by { NothingIsNarrow(); }
      ParseOptionsNarrow(0, s[4 + s[0] % 16..], []);
    }
  }

  lemma NothingIsNarrow()
    ensures Narrow([])
  {
  }

  /** A composable message that is not read back: an option number of 65536. */
  lemma WideOptionIsLost()
    ensures var m := Message(0, 0, 0, 0, [], [Opt(65536, [])], []);
      Refused(m).None? && Parse(ComposeBytes(m)) != Parsed(m)
  {
    var m := Message(0, 0, 0, 0, [], [Opt(65536, [])], []);
    assert OptionsFit(65536, m.options[1..]);
    assert !Narrow(m.options) by { assert m.options[0].number == 65536; }
    RoundTripIff(m);
  }
}
