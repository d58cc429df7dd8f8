/**
  CoAP as it runs: options in a singly linked list with a tail pointer, a composer that sizes the
  packet and then fills it in place, and a parser that walks over the received bytes.
 */
module CoapCodec {
  import opened Bytes
  import opened Mbuf
  import opened Coap
  import Slices

  class Node {
    const opt: Opt
    var next: Node?

    constructor (opt: Opt)
      ensures this.opt == opt && next == null
    {
      this.opt := opt;
      next := null;
    }
  }

  class OptionList {
    var head: Node?
    var tail: Node?
    ghost var nodes: seq<Node>
    ghost var repr: set<Node>

    /** The nodes hang together in order, and the tail pointer is on the last. */
    ghost predicate Valid()
      reads this, repr
    {
      && (forall i | 0 <= i < |nodes| :: nodes[i] in repr)
      && (nodes == [] ==> head == null)
      && (nodes != [] ==> head == nodes[0] && tail == nodes[|nodes| - 1] && nodes[|nodes| - 1].next == null)
      && (forall i | 0 <= i < |nodes| - 1 :: nodes[i].next == nodes[i + 1])
      && (forall i, j | 0 <= i < j < |nodes| :: nodes[i] != nodes[j])
    }

    ghost function Options(): (s: seq<Opt>)
      reads this
    {
      OptsOf(nodes)
    }

    constructor ()
      ensures Valid() && Options() == [] && repr == {}
    {
      head, tail, nodes, repr := null, null, [], {};
    }

    /** Where the list is to be entered for a number that does not go last. */
    method Find(number: nat) returns (prev: Node?, current: Node?, ghost k: nat)
      requires Valid() && nodes != [] && tail.opt.number > number
      ensures k < |nodes| && current == nodes[k] && prev == (if k == 0 then null else nodes[k - 1])
      ensures nodes[k].opt.number > number && forall j | 0 <= j < k :: nodes[j].opt.number <= number
    {
      prev, current, k := null, head, 0;
      while current != null
        invariant k < |nodes| && current == nodes[k] && prev == (if k == 0 then null else nodes[k - 1])
        invariant forall j | 0 <= j < k :: nodes[j].opt.number <= number
        decreases |nodes| - k
      {
        if current.opt.number > number {
          break;
        }
        prev := current;
        current := current.next;
        k := k + 1;
      }
    }

    /** Hooks a node in before the one at `k`. */
    method Link(node: Node, prev: Node?, current: Node, ghost k: nat)
      requires Valid() && k < |nodes| && current == nodes[k] && prev == (if k == 0 then null else nodes[k - 1])
      requires node !in repr
      modifies this`head, this`nodes, this`repr, repr, node
      ensures Valid() && nodes == old(nodes)[..k] + [node] + old(nodes)[k..] && repr == old(repr) + {node}
    {
      if prev != null {
        prev.next := node;
        node.next := current;
      } else {
        node.next := head;
        head := node;
      }
      nodes, repr := nodes[..k] + [node] + nodes[k..], repr + {node};
    }

    method Append(node: Node)
      requires Valid() && nodes != [] && node !in repr && node.next == null
      modifies this`tail, this`nodes, this`repr, repr
      ensures Valid() && nodes == old(nodes) + [node] && repr == old(repr) + {node}
    {
      tail.next := node;
      tail := node;
      nodes, repr := nodes + [node], repr + {node};
    }

    method Start(node: Node)
      requires Valid() && nodes == [] && node.next == null && node !in repr
      modifies this
      ensures Valid() && nodes == [node] && repr == old(repr) + {node}
    {
      head, tail := node, node;
      nodes, repr := [node], repr + {node};
    }

    /** Hooks a node in where its number belongs, before the last one. */
    method AddBetween(node: Node)
      requires Valid() && nodes != [] && tail.opt.number > node.opt.number && node !in repr
      modifies this`head, this`nodes, this`repr, repr, node
      ensures Valid() && Options() == InsertSorted(old(Options()), node.opt) && repr == old(repr) + {node}
    {
      hide InsertSorted;
      var prev, current, k := Find(node.opt.number);
      InsertSortedIs(Options(), node.opt, k);
      OptsAround(nodes, node, k);
      Link(node, prev, current, k);
    }

    method Add(opt: Opt)
      requires Valid()
      modifies this, repr
      ensures Valid() && Options() == Insert(old(Options()), opt) && fresh(repr - old(repr))
    {
      hide InsertSorted;
      var node := new Node(opt);
      if head == null {
        Start(node);
      } else if tail.opt.number <= opt.number {
        OptsConcat(nodes, [node]);
        Append(node);
      } else {
        AddBetween(node);
      }
    }

    method Free()
      modifies this
      ensures Valid() && Options() == [] && repr == {}
    {
      head, nodes, repr := null, [], {};
    }
  }

  ghost function OptsOf(nodes: seq<Node>): (s: seq<Opt>)
    ensures |s| == |nodes| && forall i | 0 <= i < |s| :: s[i] == nodes[i].opt
  {
    seq(|nodes|, i requires 0 <= i < |nodes| => nodes[i].opt)
  }

  lemma OptsConcat(a: seq<Node>, b: seq<Node>)
    ensures OptsOf(a + b) == OptsOf(a) + OptsOf(b)
  {
  }

  lemma OptsAround(nodes: seq<Node>, node: Node, k: nat)
    requires k <= |nodes|
    ensures OptsOf(nodes[..k] + [node] + nodes[k..]) == OptsOf(nodes)[..k] + [node.opt] + OptsOf(nodes)[k..]
  {
  }

  lemma {:induction false} InsertSortedIs(opts: seq<Opt>, o: Opt, k: nat)
    requires k < |opts| && opts[k].number > o.number && forall j | 0 <= j < k :: opts[j].number <= o.number
    ensures InsertSorted(opts, o) == opts[..k] + [o] + opts[k..]
    decreases k
  {
    if k > 0 {
      InsertSortedIs(opts[1..], o, k - 1);
      assert opts[..k] == [opts[0]] + opts[1..][..k - 1] && opts[k..] == opts[1..][k - 1..];
    }
  }

  // ----- composing -----

  /** How many bytes extend a delta or length. */
  method ExtLength(v: nat) returns (n: nat)
    ensures n == ExtSize(v)
  {
    n := 0;
    if 13 <= v <= 0xFF + 13 {
      n := 1;
    } else if v > 0xFF + 13 && v <= 0xFFFF + 269 {
      n := 2;
    }
  }

  /** The four bits that announce them. */
  method ExtBase(v: nat) returns (b: nat)
    ensures b == Base(v)
  {
    b := 14;
    if v < 13 {
      b := v;
    } else if v <= 0xFF + 13 {
      b := 13;
    }
  }

  /** The sizing pass over the options: checks them and adds up their bytes. */
  method OptionsPass(opts: seq<Opt>) returns (ok: bool, len: nat)
    ensures ok == OptionsFit(0, opts)
    ensures ok ==> len == |OptionsBytes(0, opts)|
  {
    var i: nat, prev: nat := 0, 0;
    len := 0;
    ok := true;
    while i < |opts|
      invariant i <= |opts| && (i < |opts| ==> prev <= opts[i].number)
      invariant OptionsFit(0, opts) == OptionsFit(prev, opts[i..])
      invariant OptionsFit(0, opts) ==> len + |OptionsBytes(prev, opts[i..])| == |OptionsBytes(0, opts)|
    {
      hide ExtSize, OptionBytes;
      var o := opts[i];
      assert opts[i..][0] == o && opts[i..][1..] == opts[i + 1..];
      assert i + 1 < |opts| ==> opts[i..][1] == opts[i + 1];
      var n1 := ExtLength(o.number - prev);
      var n2 := ExtLength(|o.value|);
      len := len + 1 + n1 + n2;
      if (i + 1 < |opts| && o.number > opts[i + 1].number) || |o.value| > MAX_EXTENDED || o.number - prev > MAX_EXTENDED {
        ok := false;
        return;
      }
      len := len + |o.value|;
      prev := o.number;
      i := i + 1;
    }
    assert opts[i..] == [];
  }

  method PacketSize(m: Message) returns (refusal: Option<Refusal>, len: nat)
    requires m.msgId < 0x1_0000
    ensures refusal == Refused(m)
    ensures refusal.None? ==> len == |ComposeBytes(m)|
  {
    hide OptionsFit, OptionsBytes;
    len := 4;
    if m.msgType > 3 { return Some(TypeField), len; }
    if |m.token| > 8 { return Some(TokenField), len; }
    if m.codeClass > 7 { return Some(ClassField), len; }
    if m.codeDetail > 31 { return Some(DetailField), len; }
    len := len + |m.token|;
    if |m.payload| != 0 {
      len := len + |m.payload| + 1;
    }
    var ok, size := OptionsPass(m.options);
    if !ok { return Some(OptionsField), len; }
    refusal := None;
    len := len + size;
  }

  datatype Composed = Done | Refusal(field: Refusal) | NoMemory

  /** Writes a delta or length behind `ptr`, in as many bytes as it takes. */
  method WriteExt(io: Buffer, ptr: nat, v: nat, ghost done: seq<byte>) returns (ptr': nat)
    requires io.Valid() && v <= MAX_EXTENDED && ptr + ExtSize(v) <= io.len && io.Contents()[..ptr] == done
    modifies io.buf
    ensures ptr' == ptr + ExtSize(v) && io.Contents()[..ptr'] == done + Ext(v)
  {
    ptr' := ptr;
    if 13 <= v <= 0xFF + 13 {
      io.Write(ptr, [v - 13]);
      ptr' := ptr + 1;
    } else if v > 0xFF + 13 {
      io.Write(ptr, Be16(v - 269));
      ptr' := ptr + 2;
    }
  }

  /** Writes one option. */
  method WriteOption(io: Buffer, ptr: nat, delta: nat, value: seq<byte>, ghost done: seq<byte>) returns (ptr': nat)
    requires io.Valid() && delta <= MAX_EXTENDED && |value| <= MAX_EXTENDED
    requires ptr + |OptionBytes(delta, value)| <= io.len && io.Contents()[..ptr] == done
    modifies io.buf
    ensures ptr' == ptr + |OptionBytes(delta, value)| && io.Contents()[..ptr'] == done + OptionBytes(delta, value)
  {
    hide Base, Ext, ExtSize;
    var high := ExtBase(delta);
    var low := ExtBase(|value|);
    var first: seq<byte> := [high * 16 + low];
    io.Write(ptr, first);
    ptr' := WriteExt(io, ptr + 1, delta, done + first);
    ptr' := WriteExt(io, ptr', |value|, done + first + Ext(delta));
    io.Write(ptr', value);
    ptr' := ptr' + |value|;
    SplitFive(done, first, Ext(delta), Ext(|value|), value);
  }

  lemma SplitFive(a: seq<byte>, b: seq<byte>, c: seq<byte>, d: seq<byte>, e: seq<byte>)
    ensures a + b + c + d + e == a + (b + c + d + e)
  {
  }

  /** Fills the packet: one pass over the options, each number as a distance from the last. */
  method WriteOptions(io: Buffer, ptr: nat, opts: seq<Opt>, ghost done: seq<byte>) returns (ptr': nat)
    requires io.Valid() && OptionsFit(0, opts)
    requires ptr + |OptionsBytes(0, opts)| <= io.len && io.Contents()[..ptr] == done
    modifies io.buf
    ensures ptr' == ptr + |OptionsBytes(0, opts)| && io.Contents()[..ptr'] == done + OptionsBytes(0, opts)
  {
    hide OptionBytes;
    var i: nat, prev: nat := 0, 0;
    ptr' := ptr;
    ghost var sofar := done;
    assert opts[0..] == opts;
    while i < |opts|
      invariant i <= |opts| && (i < |opts| ==> prev <= opts[i].number)
      invariant OptionsFit(prev, opts[i..])
      invariant sofar + OptionsBytes(prev, opts[i..]) == done + OptionsBytes(0, opts)
      invariant ptr' + |OptionsBytes(prev, opts[i..])| == ptr + |OptionsBytes(0, opts)|
      invariant io.Valid() && io.Contents()[..ptr'] == sofar
    {
      var o := opts[i];
      assert opts[i..][0] == o && opts[i..][1..] == opts[i + 1..];
      assert i + 1 < |opts| ==> opts[i..][1] == opts[i + 1];
      Slices.Assoc3(sofar, OptionBytes(o.number - prev, o.value), OptionsBytes(o.number, opts[i + 1..]));
      ptr' := WriteOption(io, ptr', o.number - prev, o.value, sofar);
      sofar := sofar + OptionBytes(o.number - prev, o.value);
      prev := o.number;
      i := i + 1;
    }
    assert opts[i..] == [];
  }

  /** Composes into a buffer that may already hold bytes.  The packet takes exactly the room the
      sizing pass asked for. */
  method Compose(m: Message, io: Buffer, grown: bool) returns (r: Composed)
    requires io.Valid() && m.msgId < 0x1_0000
    modifies io, io.buf
    ensures io.Valid()
    ensures Refused(m).Some? ==> r == Refusal(Refused(m).value)
    ensures r == Done ==> Refused(m).None? && io.Contents() == old(io.Contents()) + ComposeBytes(m)
    ensures r != Done ==> io.Contents() == old(io.Contents())
    ensures grown && Refused(m).None? ==> r == Done
  {
    hide OptionsFit, OptionsBytes;
    var refusal, size := PacketSize(m);
    if refusal.Some? {
      return Refusal(refusal.value);
    }
    ghost var was := io.Contents();
    var ptr := io.len;
    var ok := io.Extend(size, grown);
    if !ok {
      return NoMemory;
    }
    Fill(m, io, ptr, was);
    assert io.Contents()[..io.len] == io.Contents();
    r := Done;
  }

  method Fill(m: Message, io: Buffer, start: nat, ghost was: seq<byte>)
    requires io.Valid() && m.msgId < 0x1_0000 && Refused(m).None?
    requires start + |ComposeBytes(m)| == io.len && io.Contents()[..start] == was
    modifies io.buf
    ensures io.Contents()[..io.len] == was + ComposeBytes(m)
  {
    hide OptionsFit, OptionsBytes, Refused, Be16;
    RefusedNone(m);
    var ptr := start;
    io.Write(ptr, HeaderBytes(m));
    ptr := ptr + 4;
    io.Write(ptr, m.token);
    ptr := ptr + |m.token|;
    ghost var sofar := was + HeaderBytes(m) + m.token;
    ptr := WriteOptions(io, ptr, m.options, sofar);
    if |m.payload| != 0 {
      io.Write(ptr, [255] + m.payload);
    }
    SplitFive(was, HeaderBytes(m), m.token, OptionsBytes(0, m.options), PayloadBytes(m));
  }

  // ----- parsing -----

  /** Walks over the options, adding each to the list; on a fault the list is freed. */
  method ReadOptions(s: seq<byte>, list: OptionList) returns (fault: Option<Fault>, ptr: nat)
    requires list.Valid() && list.Options() == [] && list.repr == {}
    modifies list
    ensures list.Valid() && ptr <= |s| && fresh(list.repr)
    ensures match ParseOptions(0, s, [])
      case Fault(f) => fault == Some(f) && list.Options() == []
      case Parsed(v) => fault == None && list.Options() == v.0 && s[ptr..] == v.1
  {
    hide ParseOption, Insert;
    var prev: nat := 0;
    ptr := 0;
    fault := None;
    assert s[0..] == s && list.Options() == [];
    while ptr < |s| && s[ptr] != 255
      invariant ptr <= |s| && list.Valid() && fresh(list.repr)
      invariant ParseOptions(prev, s[ptr..], list.Options()) == ParseOptions(0, s, [])
      decreases |s| - ptr
    {
      assert s[ptr..][0] == s[ptr];
      var one := ReadOption(prev, s[ptr..]);
      if one.Fault? {
        fault := Some(one.fault);
        list.Free();
        return;
      }
      list.Add(one.value.opt);
      Slices.DropDrop(s, ptr, one.value.used);
      prev := one.value.opt.number;
      ptr := ptr + one.value.used;
    }
    assert s[ptr..] == [] || s[ptr..][0] == 255;
  }

  /** An extended delta or length: its value in sixteen bits, and how many bytes extend it. */
  method ReadExtended(base: nat, s: seq<byte>) returns (r: Option<(nat, nat)>)
    ensures r == ReadExt(base, s)
  {
    if base == 13 {
      if |s| < 1 {
        return None;
      }
      return Some((s[0] as int + 13, 1));
    }
    if base == 14 {
      if |s| < 2 {
        return None;
      }
      return Some((((s[0] as int * 256 + s[1] as int) + 269) % 0x1_0000, 2));
    }
    r := Some((base, 0));
  }

  /** One option: first byte, extended delta, extended length, value. */
  method ReadOption(prev: nat, s: seq<byte>) returns (r: Parsed<OneOption>)
    requires |s| > 0
    ensures r == ParseOption(prev, s)
  {
    hide ReadExt;
    var delta, length := s[0] / 16, s[0] % 16;
    if delta == 15 || length == 15 {
      return Fault(FormatError);
    }
    var ptr := 1;
    var d := ReadExtended(delta, s[ptr..]);
    if d.None? {
      return Fault(NotEnoughData);
    }
    ptr := ptr + d.value.1;
    var l := ReadExtended(length, s[ptr..]);
    if l.None? {
      return Fault(NotEnoughData);
    }
    ptr := ptr + l.value.1;
    var number := (d.value.0 + prev) % 0x1_0000;
    if ptr + l.value.0 > |s| {
      return Fault(NotEnoughData);
    }
    r := Parsed(OneOption(Opt(number, s[ptr..ptr + l.value.0]), ptr + l.value.0));
  }

  /** A received packet: header, token, options in a fresh list, payload. */
  method ParsePacket(s: seq<byte>) returns (r: Parsed<Message>, list: OptionList)
    ensures fresh(list) && list.Valid()
    ensures match Parse(s)
      case Fault(f) => r == Fault(f) && list.Options() == []
      case Parsed(m) => r == Parsed(m.(options := [])) && list.Options() == m.options
  {
    hide ParseOptions, U16;
    list := new OptionList();
    if |s| < 4 {
      return Fault(NotEnoughData), list;
    }
    if s[0] / 64 != 1 {
      return Fault(Ignore), list;
    }
    var tokenLen := s[0] % 16;
    if tokenLen > 8 {
      return Fault(FormatError), list;
    }
    if 4 + tokenLen > |s| {
      return Fault(NotEnoughData), list;
    }
    var rest := s[4 + tokenLen..];
    var fault, ptr := ReadOptions(rest, list);
    if fault.Some? {
      return Fault(fault.value), list;
    }
    var payload := if ptr == |rest| then [] else rest[ptr + 1..];
    assert ptr < |rest| ==> rest[ptr..][1..] == rest[ptr + 1..];
    r := Parsed(Message(s[0] / 16 % 4, s[1] / 32, s[1] % 32, U16(s[2..]), s[4..4 + tokenLen], [], payload));
  }

  /** End to end: a message the composer accepts is read back from its packet exactly when its option
      numbers and lengths fit in sixteen bits. */
  method Exchange(m: Message) returns (r: Parsed<Message>, list: OptionList)
    requires Refused(m).None? && m.msgId < 0x1_0000
    ensures fresh(list) && list.Valid()
    ensures (r == Parsed(m.(options := [])) && list.Options() == m.options) <==> Narrow(m.options)
  {
    hide Parse, ComposeBytes, Narrow, OptsOf;
    var io := new Buffer(0);
    var done := Compose(m, io, true);
    assert [] + ComposeBytes(m) == ComposeBytes(m);
    RoundTripIff(m);
    r, list := ParsePacket(io.Contents());
  }
}
