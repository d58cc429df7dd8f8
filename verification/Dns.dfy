/**
  Domain names on the wire (RFC 1035, sections 3.1 and 4.1.4): labels behind their length, ended
  by a zero octet or by a pointer to an earlier name.
 */
module Dns {
  import opened Bytes
  import opened Mbuf
  import Slices

  const DOT: byte := 46
  const MAX_HOPS := 15
  const MAX_LABEL := 63

  // ----- names in a packet -----

  /** The two octets at `at` are a pointer. */
  predicate IsPointer(pkt: seq<byte>, at: nat)
  {
    at + 1 < |pkt| && pkt[at] >= 192
  }

  function Target(pkt: seq<byte>, at: nat): (off: nat)
    requires IsPointer(pkt, at)
  {
    (pkt[at] as int - 192) * 256 + pkt[at + 1] as int
  }

  /** The label at `at`, when there is one. */
  predicate IsLabel(pkt: seq<byte>, at: nat)
  {
    at < |pkt| && 0 < pkt[at] <= MAX_LABEL && at + 1 + pkt[at] as int < |pkt|
  }

  /** The octets at `at` spell the labels `ls`, one behind the other. */
  ghost predicate Spelled(pkt: seq<byte>, at: nat, ls: seq<seq<byte>>)
    decreases |ls|
  {
    ls == [] ||
    (IsLabel(pkt, at) && pkt[at + 1..at + 1 + pkt[at] as int] == ls[0] &&
     Spelled(pkt, at + 1 + |ls[0]|, ls[1..]))
  }

  /** Where the labels `ls` that start at `at` stop. */
  ghost function Behind(at: nat, ls: seq<seq<byte>>): (e: nat)
    decreases |ls|
  {
    if ls == [] then at else Behind(at + 1 + |ls[0]|, ls[1..])
  }

  /** The standard's three forms of a name: labels and a zero octet, a pointer, or labels and a
      pointer; `hops` bounds the number of pointers that are followed. */
  ghost predicate NameAt(pkt: seq<byte>, at: nat, ls: seq<seq<byte>>, hops: nat)
    decreases hops
  {
    EndsAt(pkt, at, ls) ||
    (hops > 0 && exists k: nat :: PointsOn(pkt, at, ls, k) && NameAt(pkt, Target(pkt, Behind(at, ls[..k])), ls[k..], hops - 1))
  }

  ghost predicate EndsAt(pkt: seq<byte>, at: nat, ls: seq<seq<byte>>)
  {
    Spelled(pkt, at, ls) && Behind(at, ls) < |pkt| && pkt[Behind(at, ls)] == 0
  }

  ghost predicate PointsOn(pkt: seq<byte>, at: nat, ls: seq<seq<byte>>, k: nat)
  {
    k <= |ls| && Spelled(pkt, at, ls[..k]) && IsPointer(pkt, Behind(at, ls[..k]))
  }

  /** Reading the labels of a name. */
  function Labels(pkt: seq<byte>, at: nat, hops: nat): (r: Option<seq<seq<byte>>>)
    decreases hops, |pkt| - at
  {
    if at >= |pkt| then None
    else if pkt[at] == 0 then Some([])
    else if IsPointer(pkt, at) then
      if hops == 0 then None else Labels(pkt, Target(pkt, at), hops - 1)
    else if !IsLabel(pkt, at) then None
    else
      var next := at + 1 + pkt[at] as int;
      var rest := Labels(pkt, next, hops);
      if rest.None? then None else Some([pkt[at + 1..next]] + rest.value)
  }

  lemma {:induction false} LabelsAreName(pkt: seq<byte>, at: nat, hops: nat)
    requires Labels(pkt, at, hops).Some?
    ensures NameAt(pkt, at, Labels(pkt, at, hops).value, hops)
    decreases hops, |pkt| - at
  {
    hide Target;
    var ls := Labels(pkt, at, hops).value;
    if pkt[at] == 0 {
    } else if IsPointer(pkt, at) {
      LabelsAreName(pkt, Target(pkt, at), hops - 1);
      assert ls[..0] == [] && ls[0..] == ls;
      assert PointsOn(pkt, at, ls, 0);
    } else {
      var next := at + 1 + pkt[at] as int;
      LabelsAreName(pkt, next, hops);
      LabelInFront(pkt, at, ls, hops);
    }
  }

  /** A label in front of a name makes a name. */
  lemma LabelInFront(pkt: seq<byte>, at: nat, ls: seq<seq<byte>>, hops: nat)
    requires ls != [] && IsLabel(pkt, at) && pkt[at + 1..at + 1 + pkt[at] as int] == ls[0]
    ensures NameAt(pkt, at, ls, hops) <==> NameAt(pkt, at + 1 + |ls[0]|, ls[1..], hops)
  {
    hide Target;
    var next, tail := at + 1 + |ls[0]|, ls[1..];
    assert EndsAt(pkt, at, ls) <==> EndsAt(pkt, next, tail);
    forall k: nat | k <= |tail|
      ensures PointsOn(pkt, at, ls, k + 1) <==> PointsOn(pkt, next, tail, k)
      ensures Behind(at, ls[..k + 1]) == Behind(next, tail[..k]) && ls[k + 1..] == tail[k..]
    {
      assert ls[..k + 1][1..] == tail[..k];
    }
    assert ls[..0] == [] && !PointsOn(pkt, at, ls, 0);
    if NameAt(pkt, at, ls, hops) && !EndsAt(pkt, at, ls) {
      var k: nat :| PointsOn(pkt, at, ls, k) && NameAt(pkt, Target(pkt, Behind(at, ls[..k])), ls[k..], hops - 1);
      assert PointsOn(pkt, next, tail, k - 1);
    }
    if NameAt(pkt, next, tail, hops) && !EndsAt(pkt, next, tail) {
      var k: nat :| PointsOn(pkt, next, tail, k) && NameAt(pkt, Target(pkt, Behind(next, tail[..k])), tail[k..], hops - 1);
      assert PointsOn(pkt, at, ls, k + 1);
    }
  }

  lemma {:induction false} NameIsRead(pkt: seq<byte>, at: nat, ls: seq<seq<byte>>, hops: nat)
    requires NameAt(pkt, at, ls, hops)
    ensures Labels(pkt, at, hops) == Some(ls)
    decreases hops, |ls|
  {
    hide Target;
    if ls != [] && IsLabel(pkt, at) && pkt[at + 1..at + 1 + pkt[at] as int] == ls[0] {
      LabelInFront(pkt, at, ls, hops);
      NameIsRead(pkt, at + 1 + |ls[0]|, ls[1..], hops);
      assert [ls[0]] + ls[1..] == ls;
    } else if EndsAt(pkt, at, ls) {
    } else {
      var k: nat :| PointsOn(pkt, at, ls, k) && NameAt(pkt, Target(pkt, Behind(at, ls[..k])), ls[k..], hops - 1);
      assert k == 0 && ls[..0] == [] && ls[0..] == ls;
      NameIsRead(pkt, Target(pkt, at), ls, hops - 1);
    }
  }

  /** Reading follows the standard: it finds exactly the names that are there, and each name once. */
  lemma LabelsIffName(pkt: seq<byte>, at: nat, ls: seq<seq<byte>>, hops: nat)
    ensures Labels(pkt, at, hops) == Some(ls) <==> NameAt(pkt, at, ls, hops)
  {
    if NameAt(pkt, at, ls, hops) {
      NameIsRead(pkt, at, ls, hops);
    }
    if Labels(pkt, at, hops) == Some(ls) {
      LabelsAreName(pkt, at, hops);
    }
  }

  /** Allowing more hops loses no name and changes none. */
  lemma {:induction false} MoreHops(pkt: seq<byte>, at: nat, hops: nat)
    ensures Labels(pkt, at, hops).Some? ==> Labels(pkt, at, hops + 1) == Labels(pkt, at, hops)
    decreases hops, |pkt| - at
  {
    hide Target;
    if IsPointer(pkt, at) {
      if hops > 0 {
        MoreHops(pkt, Target(pkt, at), hops - 1);
      }
    } else if IsLabel(pkt, at) {
      MoreHops(pkt, at + 1 + pkt[at] as int, hops);
    }
  }

  /** Labels in front of a pointer are labels in front of the name pointed to. */
  lemma {:induction false} PointerJoins(pkt: seq<byte>, at: nat, front: seq<seq<byte>>, hops: nat)
    requires Spelled(pkt, at, front) && IsPointer(pkt, Behind(at, front))
    ensures var shared := if hops == 0 then None else Labels(pkt, Target(pkt, Behind(at, front)), hops - 1);
            Labels(pkt, at, hops) == if shared.None? then None else Some(front + shared.value)
    decreases |front|
  {
    hide Target;
    var shared := if hops == 0 then None else Labels(pkt, Target(pkt, Behind(at, front)), hops - 1);
    if front == [] {
      assert shared.Some? ==> [] + shared.value == shared.value;
    } else {
      PointerJoins(pkt, at + 1 + |front[0]|, front[1..], hops);
      assert front == [front[0]] + front[1..];
      if shared.Some? {
        Slices.Assoc3([front[0]], front[1..], shared.value);
      }
    }
  }

  /** Labels that lead back to where they started are no name, however many hops are allowed. */
  lemma {:induction false} CyclesAreRefused(pkt: seq<byte>, at: nat, front: seq<seq<byte>>, hops: nat)
    requires Spelled(pkt, at, front) && IsPointer(pkt, Behind(at, front)) && Target(pkt, Behind(at, front)) == at
    ensures Labels(pkt, at, hops) == None
    decreases hops
  {
    if hops > 0 {
      CyclesAreRefused(pkt, at, front, hops - 1);
    }
    PointerJoins(pkt, at, front, hops);
  }

  // ----- the expansion loop -----

  /** Labels as text, each with a dot behind it. */
  function Dotted(ls: seq<seq<byte>>): (s: seq<byte>)
    ensures |s| >= |ls|
  {
    if ls == [] then [] else ls[0] + [DOT] + Dotted(ls[1..])
  }

  /** What is delivered of a text that ends in a dot: all but that dot, as far as there is room. */
  function Fitted(s: seq<byte>, room: nat): (r: seq<byte>)
    ensures |r| <= room
  {
    if s == [] then [] else if |s| - 1 <= room then s[..|s| - 1] else s[..room]
  }

  /** The loop: the octets delivered when `out` is written so far and the name goes on at `at`. */
  function Expand(pkt: seq<byte>, at: nat, hops: nat, out: seq<byte>, room: nat): (r: Option<seq<byte>>)
    requires at < |pkt| && |out| <= room
    decreases hops, |pkt| - at
  {
    if pkt[at] == 0 then Some(if out == [] then [] else out[..|out| - 1])
    else if at + 1 >= |pkt| then None
    else if pkt[at] >= 192 then
      if Target(pkt, at) >= |pkt| || hops == 0 then None
      else Expand(pkt, Target(pkt, at), hops - 1, out, room)
    else if pkt[at] > MAX_LABEL then None
    else
      var n := if pkt[at] > room - |out| then room - |out| else pkt[at];
      if at + 1 + n >= |pkt| then None
      else if n == room - |out| then Some(out + pkt[at + 1..at + 1 + n])
      else Expand(pkt, at + 1 + n, hops, out + pkt[at + 1..at + 1 + n] + [DOT], room)
  }

  lemma DottedLabel(out: seq<byte>, l: seq<byte>, rest: seq<seq<byte>>)
    ensures out + Dotted([l] + rest) == (out + l + [DOT]) + Dotted(rest)
  {
    assert ([l] + rest)[1..] == rest;
  }

  lemma FittedAll(out: seq<byte>, room: nat)
    requires |out| <= room
    ensures Fitted(out + Dotted([]), room) == if out == [] then [] else out[..|out| - 1]
  {
    assert out + [] == out;
  }

  lemma FittedLabel(out: seq<byte>, l: seq<byte>, rest: seq<seq<byte>>, room: nat)
    requires |out| <= room <= |out| + |l|
    ensures Fitted(out + Dotted([l] + rest), room) == out + l[..room - |out|]
  {
    var t := (out + l + [DOT]) + Dotted(rest);
    DottedLabel(out, l, rest);
    assert |t| >= |out| + |l| + 1;
    assert t[..room] == out + l[..room - |out|];
    assert |t| - 1 == room ==> t[..|t| - 1] == t[..room];
  }

  /** Where there is a name, its text is delivered, cut off only where the room ends. */
  lemma {:induction false} ExpandIsName(pkt: seq<byte>, at: nat, hops: nat, out: seq<byte>, room: nat)
    requires at < |pkt| && |out| <= room && Labels(pkt, at, hops).Some?
    ensures Expand(pkt, at, hops, out, room) == Some(Fitted(out + Dotted(Labels(pkt, at, hops).value), room))
    decreases hops, |pkt| - at
  {
    hide Target, Dotted, Fitted;
    if pkt[at] == 0 {
      FittedAll(out, room);
    } else if IsPointer(pkt, at) {
      ExpandIsName(pkt, Target(pkt, at), hops - 1, out, room);
    } else {
      var next := at + 1 + pkt[at] as int;
      var l, rest := pkt[at + 1..next], Labels(pkt, next, hops).value;
      DottedLabel(out, l, rest);
      if |out| + |l| < room {
        ExpandIsName(pkt, next, hops, out + l + [DOT], room);
      } else {
        FittedLabel(out, l, rest, room);
        assert l[..room - |out|] == pkt[at + 1..at + 1 + (room - |out|)];
      }
    }
  }

  /** Where there is no name the expansion fails, unless the room ran out before that showed. */
  lemma {:induction false} NoNameNoText(pkt: seq<byte>, at: nat, hops: nat, out: seq<byte>, room: nat)
    requires at < |pkt| && |out| <= room && Labels(pkt, at, hops).None?
    ensures var r := Expand(pkt, at, hops, out, room); r.None? || (|r.value| == room && out <= r.value)
    decreases hops, |pkt| - at
  {
    hide Target;
    if IsPointer(pkt, at) {
      if hops > 0 && Target(pkt, at) < |pkt| {
        NoNameNoText(pkt, Target(pkt, at), hops - 1, out, room);
      }
    } else if IsLabel(pkt, at) && pkt[at] as int < room - |out| {
      var next := at + 1 + pkt[at] as int;
      NoNameNoText(pkt, next, hops, out + pkt[at + 1..next] + [DOT], room);
    }
  }

  /** No expansion is longer than the packet read once for every hop. */
  function Reach(size: nat, hops: nat): (n: nat)
    ensures n >= size
  {
    if hops == 0 then size else size + Reach(size, hops - 1)
  }

  /** With that much room, the expansion succeeds exactly where there is a name. */
  lemma {:induction false} ExpandIffName(pkt: seq<byte>, at: nat, hops: nat, out: seq<byte>, room: nat)
    requires at < |pkt| && |out| + Reach(|pkt|, hops) - at < room
    ensures Expand(pkt, at, hops, out, room).Some? <==> Labels(pkt, at, hops).Some?
    decreases hops, |pkt| - at
  {
    hide Target;
    if IsPointer(pkt, at) {
      if hops > 0 && Target(pkt, at) < |pkt| {
        ExpandIffName(pkt, Target(pkt, at), hops - 1, out, room);
      }
    } else if IsLabel(pkt, at) {
      var next := at + 1 + pkt[at] as int;
      ExpandIffName(pkt, next, hops, out + pkt[at + 1..next] + [DOT], room);
    }
  }

  lemma ExpandLabel(pkt: seq<byte>, at: nat, hops: nat, out: seq<byte>, room: nat, n: nat)
    requires |out| <= room && at + 1 < |pkt| && 0 < pkt[at] <= MAX_LABEL
    requires n == if pkt[at] > room - |out| then room - |out| else pkt[at]
    ensures at + 1 + n >= |pkt| ==> Expand(pkt, at, hops, out, room) == None
    ensures at + 1 + n < |pkt| ==>
              var l := pkt[at + 1..at + 1 + n];
              Expand(pkt, at, hops, out, room) == if n == room - |out| then Some(out + l + [])
                                                  else Expand(pkt, at + 1 + n, hops, out + l + [DOT], room)
  {
    assert at + 1 + n < |pkt| ==> out + pkt[at + 1..at + 1 + n] + [] == out + pkt[at + 1..at + 1 + n];
  }

  lemma ExpandOther(pkt: seq<byte>, at: nat, hops: nat, out: seq<byte>, room: nat)
    requires at < |pkt| && |out| <= room
    ensures pkt[at] == 0 ==> Expand(pkt, at, hops, out, room) == Some(if out == [] then [] else out[..|out| - 1])
    ensures pkt[at] != 0 && at + 1 >= |pkt| ==> Expand(pkt, at, hops, out, room) == None
    ensures MAX_LABEL < pkt[at] < 192 ==> Expand(pkt, at, hops, out, room) == None
    ensures IsPointer(pkt, at) ==>
              Expand(pkt, at, hops, out, room) == if Target(pkt, at) >= |pkt| || hops == 0 then None
                                                  else Expand(pkt, Target(pkt, at), hops - 1, out, room)
  {
  }

  lemma TargetIs(pkt: seq<byte>, at: nat)
    requires IsPointer(pkt, at)
    ensures Target(pkt, at) == pkt[at] as int % 64 * 256 + pkt[at + 1] as int
  {
  }

  // ----- pointers as they are written -----

  /** The octets at `at` are a pointer to `off`: two bits set, then fourteen bits of offset. */
  predicate PointsTo(pkt: seq<byte>, at: nat, off: nat)
  {
    off < 0x4000 && at + 1 < |pkt| && pkt[at] == 192 + off / 256 && pkt[at + 1] == off % 256
  }

  lemma PointerIs(pkt: seq<byte>, at: nat, off: nat)
    requires PointsTo(pkt, at, off)
    ensures IsPointer(pkt, at) && Target(pkt, at) == off
  {
  }

  /** Two octets from 192 on are a pointer to some place, and no others are. */
  lemma PointerIff(pkt: seq<byte>, at: nat)
    requires at + 1 < |pkt|
    ensures pkt[at] >= 192 <==> exists off: nat :: PointsTo(pkt, at, off)
  {
    if pkt[at] >= 192 {
      var off: nat := (pkt[at] as int - 192) * 256 + pkt[at + 1] as int;
      assert off / 256 == pkt[at] - 192 && off % 256 == pkt[at + 1];
      assert PointsTo(pkt, at, off);
    }
  }

  /** A pointer is read as the name it points to, with one hop fewer. */
  lemma PointerFollows(pkt: seq<byte>, at: nat, off: nat, hops: nat, out: seq<byte>, room: nat)
    requires PointsTo(pkt, at, off) && |out| <= room
    ensures Labels(pkt, at, hops) == if hops == 0 then None else Labels(pkt, off, hops - 1)
    ensures Expand(pkt, at, hops, out, room) ==
              if off >= |pkt| || hops == 0 then None else Expand(pkt, off, hops - 1, out, room)
  {
    hide Target;
    PointerIs(pkt, at, off);
  }

  /** A chain of pointers to a name without any: it is read exactly if there are no more of them than hops. */
  lemma {:induction false} HopsIff(pkt: seq<byte>, ats: seq<nat>, ls: seq<seq<byte>>, hops: nat)
    requires |ats| > 0 && Labels(pkt, ats[|ats| - 1], 0) == Some(ls)
    requires forall i | 0 <= i < |ats| - 1 :: PointsTo(pkt, ats[i], ats[i + 1])
    ensures Labels(pkt, ats[0], hops) == if |ats| - 1 <= hops then Some(ls) else None
    decreases |ats|
  {
    hide PointsTo, Labels;
    if |ats| == 1 {
      EnoughHops(pkt, ats[0], hops);
    } else {
      assert PointsTo(pkt, ats[0], ats[0 + 1]);
      PointerFollows(pkt, ats[0], ats[1], hops, [], 0);
      if hops > 0 {
        var rest := ats[1..];
        forall i | 0 <= i < |rest| - 1 ensures PointsTo(pkt, rest[i], rest[i + 1]) {
          assert PointsTo(pkt, ats[i + 1], ats[(i + 1) + 1]);
        }
        HopsIff(pkt, rest, ls, hops - 1);
      }
    }
  }

  lemma {:induction false} EnoughHops(pkt: seq<byte>, at: nat, hops: nat)
    requires Labels(pkt, at, 0).Some?
    ensures Labels(pkt, at, hops) == Labels(pkt, at, 0)
    decreases hops
  {
    hide Labels;
    if hops > 0 {
      EnoughHops(pkt, at, hops - 1);
      MoreHops(pkt, at, hops - 1);
    }
  }

  /** Fifteen pointers are followed, a sixteenth is not. */
  lemma FifteenHops(pkt: seq<byte>, ats: seq<nat>, ls: seq<seq<byte>>, room: nat)
    requires |ats| > 0 && Labels(pkt, ats[|ats| - 1], 0) == Some(ls)
    requires forall i | 0 <= i < |ats| - 1 :: PointsTo(pkt, ats[i], ats[i + 1])
    requires ats[0] < |pkt| && Reach(|pkt|, MAX_HOPS) - ats[0] < room
    ensures Expand(pkt, ats[0], MAX_HOPS, [], room).Some? <==> |ats| - 1 <= 15
  {
    hide PointsTo, Labels, Expand, Reach;
    HopsIff(pkt, ats, ls, MAX_HOPS);
    ExpandIffName(pkt, ats[0], MAX_HOPS, [], room);
  }

  /** Expands the name at `at` into the first `room` bytes of `dst` and tells how many it wrote. */
  method Uncompress(pkt: seq<byte>, at: nat, dst: array<byte>, room: nat) returns (len: nat)
    requires room <= dst.Length
    modifies dst
    ensures len <= room
    ensures forall i | room <= i < dst.Length :: dst[i] == old(dst[i])
    ensures var text := if at < |pkt| then Expand(pkt, at, MAX_HOPS, [], room) else None;
            dst[..len] == if text.None? then [] else text.value
  {
    hide Target, Expand;
    if at >= |pkt| {
      return 0;
    }
    var data: nat, hops: nat, d: nat := at, MAX_HOPS, 0;
    ghost var out, text := dst[..0], Expand(pkt, at, MAX_HOPS, [], room);
    while pkt[data] != 0
      invariant data < |pkt| && d <= room
      invariant dst[..d] == out && Expand(pkt, data, hops, out, room) == text
      invariant forall i | room <= i < dst.Length :: dst[i] == old(dst[i])
      decreases hops, |pkt| - data
    {
      ExpandOther(pkt, data, hops, out, room);
      if data + 1 >= |pkt| {
        return 0;
      }
      if pkt[data] >= 192 {
        var off: nat := pkt[data] as int % 64 * 256 + pkt[data + 1] as int;
        TargetIs(pkt, data);
        if off >= |pkt| || hops == 0 {
          return 0;
        }
        data, hops := off, hops - 1;
      } else {
        if pkt[data] > MAX_LABEL {
          return 0;
        }
        var n: nat := if pkt[data] > room - d then room - d else pkt[data];
        ExpandLabel(pkt, data, hops, out, room, n);
        if data + 1 + n >= |pkt| {
          return 0;
        }
        var full := n == room - d;
        out := out + pkt[data + 1..data + 1 + n] + if full then [] else [DOT];
        d := PutLabel(pkt[data + 1..data + 1 + n], dst, d, room);
        if full {
          return d;
        }
        data := data + 1 + n;
      }
    }
    ExpandOther(pkt, data, hops, out, room);
    len := d;
    if d != 0 {
      len := d - 1;
      dst[len] := 0;
      assert dst[..len] == out[..len];
    }
  }

  /** A label behind what is written, and a dot if there is room for it. */
  method PutLabel(l: seq<byte>, dst: array<byte>, d: nat, room: nat) returns (d': nat)
    requires d + |l| <= room <= dst.Length
    modifies dst
    ensures d <= d' <= room
    ensures forall i | room <= i < dst.Length :: dst[i] == old(dst[i])
    ensures dst[..d'] == old(dst[..d]) + l + if d + |l| < room then [DOT] else []
  {
    forall i | 0 <= i < |l| {
      dst[d + i] := l[i];
    }
    d' := d + |l|;
    assert dst[..d'] == old(dst[..d]) + l;
    if d' < room {
      dst[d'], d' := DOT, d' + 1;
    }
  }

  // ----- encoding -----

  /** Where the first dot of `name` is, or its end. */
  function FirstDot(name: seq<byte>): (k: nat)
    ensures k <= |name| && DOT !in name[..k] && (k < |name| ==> name[k] == DOT)
  {
    if name == [] || name[0] == DOT then 0
    else
      var k := FirstDot(name[1..]);
      assert name[..k + 1] == [name[0]] + name[1..][..k];
      k + 1
  }

  /** The labels of a name: what stands between its dots. */
  function Split(name: seq<byte>): (ls: seq<seq<byte>>)
    ensures |ls| >= 1
    decreases |name|
  {
    var k := FirstDot(name);
    if k == |name| then [name] else [name[..k]] + Split(name[k + 1..])
  }

  /** Labels behind their lengths, up to a label too long to send. */
  function Wire(ls: seq<seq<byte>>): (s: seq<byte>)
  {
    if ls == [] || |ls[0]| > 127 then [] else [|ls[0]|] + ls[0] + Wire(ls[1..])
  }

  predicate Encodable(ls: seq<seq<byte>>)
  {
    forall i | 0 <= i < |ls| :: |ls[i]| <= 127
  }

  lemma {:induction false} DottedSplit(name: seq<byte>)
    ensures Dotted(Split(name)) == name + [DOT]
    decreases |name|
  {
    hide FirstDot;
    var k := FirstDot(name);
    if k == |name| {
      assert Split(name)[1..] == [];
    } else {
      var rest := name[k + 1..];
      DottedSplit(rest);
      DottedLabel([], name[..k], Split(rest));
      assert name == name[..k] + [DOT] + rest;
      assert [] + Dotted(Split(name)) == Dotted(Split(name)) && [] + name[..k] == name[..k];
      Slices.Assoc3(name[..k] + [DOT], rest, [DOT]);
    }
  }

  /** What a reader makes of encoded labels: it stops at an empty one and refuses one over 63. */
  function ReadBack(ls: seq<seq<byte>>): (r: Option<seq<seq<byte>>>)
  {
    if ls == [] || ls[0] == [] then Some([])
    else if |ls[0]| > MAX_LABEL then None
    else
      var rest := ReadBack(ls[1..]);
      if rest.None? then None else Some([ls[0]] + rest.value)
  }

  /** An encoded label in its packet. */
  lemma WireAt(pre: seq<byte>, ls: seq<seq<byte>>, post: seq<byte>)
    requires ls != [] && |ls[0]| <= 127
    ensures var pkt, front := pre + Wire(ls) + [0] + post, pre + [|ls[0]|] + ls[0];
            && pkt == front + Wire(ls[1..]) + [0] + post && |front| < |pkt|
            && pkt[|pre|] as int == |ls[0]| && pkt[|pre| + 1..|front|] == ls[0]
  {
    var l, rest := ls[0], Wire(ls[1..]);
    var front := pre + [|l|] + l;
    Slices.Assoc3(pre, [|l|], l);
    Slices.Assoc3(pre, [|l|] + l, rest);
    hide Wire;
    assert front + rest + [0] + post == front + (rest + [0] + post);
    Slices.Middle(pre + [|l|], l, rest + [0] + post);
    assert (front + (rest + [0] + post))[|pre|] == |l|;
  }

  lemma {:induction false} LabelsOfWire(pre: seq<byte>, ls: seq<seq<byte>>, post: seq<byte>, hops: nat)
    requires Encodable(ls)
    ensures Labels(pre + Wire(ls) + [0] + post, |pre|, hops) == ReadBack(ls)
    decreases |ls|
  {
    hide Target;
    var pkt := pre + Wire(ls) + [0] + post;
    if ls == [] {
      assert pkt[|pre|] == 0;
    } else {
      hide Wire;
      WireAt(pre, ls, post);
      if Proper(ls[0]) {
        LabelsOfWire(pre + [|ls[0]|] + ls[0], ls[1..], post, hops);
      }
    }
  }

  /** A label over 63 bytes is refused however the room is cut. */
  lemma {:induction false} LongLabelRefused(pre: seq<byte>, ls: seq<seq<byte>>, post: seq<byte>, hops: nat, out: seq<byte>, room: nat)
    requires Encodable(ls) && ReadBack(ls).None? && |out| + |Dotted(ls)| <= room + 1
    ensures Expand(pre + Wire(ls) + [0] + post, |pre|, hops, out, room) == None
    decreases |ls|
  {
    hide Target, Wire;
    WireAt(pre, ls, post);
    if Proper(ls[0]) {
      assert |Dotted(ls[1..])| >= |ls[1..]| > 0;
      LongLabelRefused(pre + [|ls[0]|] + ls[0], ls[1..], post, hops, out + ls[0] + [DOT], room);
    }
  }

  predicate Proper(l: seq<byte>)
  {
    0 < |l| <= 63
  }

  predicate AllProper(ls: seq<seq<byte>>)
  {
    forall i | 0 <= i < |ls| :: Proper(ls[i])
  }

  /** Proper labels are read back, and nothing else is. */
  lemma {:induction false} ReadBackProper(ls: seq<seq<byte>>)
    ensures AllProper(ls) ==> ReadBack(ls) == Some(ls)
    ensures !AllProper(ls) && ReadBack(ls).Some? ==> |Dotted(ReadBack(ls).value)| < |Dotted(ls)|
  {
    if ls != [] {
      ReadBackProper(ls[1..]);
      assert ls == [ls[0]] + ls[1..];
      assert AllProper(ls) <==> Proper(ls[0]) && AllProper(ls[1..]);
      if Proper(ls[0]) && ReadBack(ls).Some? {
        var rest := ReadBack(ls[1..]).value;
        assert ([ls[0]] + rest)[1..] == rest;
      }
    }
  }

  /** Expanding an encoded name gives the name back exactly when its labels have 1 to 63 bytes. */
  lemma RoundTripIff(pre: seq<byte>, name: seq<byte>, post: seq<byte>, room: nat)
    requires Encodable(Split(name)) && |name| <= room
    ensures var pkt := pre + Wire(Split(name)) + [0] + post;
            Expand(pkt, |pre|, MAX_HOPS, [], room) == Some(name) <==> name == [] || AllProper(Split(name))
  {
    hide Expand, Labels, Wire;
    var ls := Split(name);
    var pkt := pre + Wire(ls) + [0] + post;
    LabelsOfWire(pre, ls, post, MAX_HOPS);
    ReadBackProper(ls);
    DottedSplit(name);
    var back := ReadBack(ls);
    if back.Some? {
      ExpandIsName(pkt, |pre|, MAX_HOPS, [], room);
      assert [] + Dotted(back.value) == Dotted(back.value);
    } else {
      LongLabelRefused(pre, ls, post, MAX_HOPS, [], room);
    }
  }

  /** Proper labels are spelled by their encoding. */
  lemma {:induction false} SpelledWire(pre: seq<byte>, ls: seq<seq<byte>>, post: seq<byte>)
    requires AllProper(ls) && post != []
    ensures Spelled(pre + Wire(ls) + post, |pre|, ls) && Behind(|pre|, ls) == |pre + Wire(ls)|
    decreases |ls|
  {
    hide Wire;
    if ls == [] {
      NoWire();
      assert pre + [] == pre;
    } else {
      var l, rest := ls[0], ls[1..];
      assert Proper(l);
      forall i | 0 <= i < |rest| ensures Proper(rest[i]) {
        assert rest[i] == ls[i + 1];
      }
      SpelledWire(pre + [|l|] + l, rest, post);
      SpelledLabel(pre, ls, post);
    }
  }

  lemma SpelledLabel(pre: seq<byte>, ls: seq<seq<byte>>, post: seq<byte>)
    requires ls != [] && Proper(ls[0]) && post != []
    ensures var pkt, front := pre + Wire(ls) + post, pre + [|ls[0]|] + ls[0];
            && pkt == front + Wire(ls[1..]) + post && pre + Wire(ls) == front + Wire(ls[1..])
            && IsLabel(pkt, |pre|) && pkt[|pre|] as int == |ls[0]| && pkt[|pre| + 1..|front|] == ls[0]
  {
    var l, w := ls[0], Wire(ls[1..]);
    assert Wire(ls) == [|l|] + l + w;
    hide Wire;
    assert pre + ([|l|] + l + w) == pre + [|l|] + l + w;
    assert pre + [|l|] + l + w + post == (pre + [|l|]) + l + (w + post);
    Slices.Middle(pre + [|l|], l, w + post);
  }

  lemma {:induction false} DottedConcat(a: seq<seq<byte>>, b: seq<seq<byte>>)
    ensures Dotted(a + b) == Dotted(a) + Dotted(b)
    decreases |a|
  {
    if a == [] {
      assert a + b == b;
    } else {
      assert (a + b)[0] == a[0] && (a + b)[1..] == a[1..] + b;
      DottedConcat(a[1..], b);
      Slices.Assoc3(a[0] + [DOT], Dotted(a[1..]), Dotted(b));
    }
  }

  /** Compression: a name written once, and further on labels with a pointer to it, expand to the labels
      with the name behind them. */
  lemma CompressedRoundTrip(pre: seq<byte>, shared: seq<byte>, mid: seq<byte>, front: seq<byte>, post: seq<byte>, room: nat)
    requires |pre| < 0x4000 && AllProper(Split(shared)) && AllProper(Split(front)) && |front| + 1 + |shared| <= room
    ensures var head, off := pre + Wire(Split(shared)) + [0] + mid, |pre|;
            var pkt := head + Wire(Split(front)) + [192 + off / 256, off % 256] + post;
            Expand(pkt, |head|, MAX_HOPS, [], room) == Some(front + [DOT] + shared)
  {
    hide Expand, Labels, Wire, Target, Split, Dotted;
    var head, off := pre + Wire(Split(shared)) + [0] + mid, |pre|;
    var ptr: seq<byte> := [192 + off / 256, off % 256];
    var a, b := Split(front), Split(shared);
    var pkt := head + Wire(a) + ptr + post;
    var at := |head + Wire(a)|;
    Slices.Assoc3(head + Wire(a), ptr, post);
    SpelledWire(head, a, ptr + post);
    PointerAt(head + Wire(a), off, post);
    PointerJoins(pkt, |head|, a, MAX_HOPS);
    var behind := mid + Wire(a) + ptr + post;
    BehindName(pre + Wire(b) + [0], mid, Wire(a), ptr, post);
    ProperEncodable(b);
    LabelsOfWire(pre, b, behind, MAX_HOPS - 1);
    ReadBackProper(b);
    ExpandIsName(pkt, |head|, MAX_HOPS, [], room);
    DottedConcat(a, b);
    DottedSplit(front);
    DottedSplit(shared);
    var text := front + [DOT] + (shared + [DOT]);
    assert [] + text == text && text[..|text| - 1] == front + [DOT] + shared;
  }

  lemma PointerAt(front: seq<byte>, off: nat, post: seq<byte>)
    requires off < 0x4000
    ensures var pkt := front + [192 + off / 256, off % 256] + post; IsPointer(pkt, |front|) && Target(pkt, |front|) == off
  {
    PointerIs(front + [192 + off / 256, off % 256] + post, |front|, off);
  }

  lemma BehindName(name: seq<byte>, mid: seq<byte>, w: seq<byte>, ptr: seq<byte>, post: seq<byte>)
    ensures name + mid + w + ptr + post == name + (mid + w + ptr + post)
  {
  }

  lemma ProperEncodable(ls: seq<seq<byte>>)
    requires AllProper(ls)
    ensures Encodable(ls)
  {
    forall i | 0 <= i < |ls| ensures |ls[i]| <= 127 {
      assert Proper(ls[i]);
    }
  }

  /** Sending one label. */
  lemma WireStep(l: seq<byte>, rest: seq<seq<byte>>)
    ensures |l| > 127 ==> Wire([l] + rest) == [] && !Encodable([l] + rest)
    ensures |l| <= 127 ==> Wire([l] + rest) == [|l|] + l + Wire(rest) && (Encodable([l] + rest) <==> Encodable(rest))
  {
    var ls := [l] + rest;
    assert ls[0] == l && ls[1..] == rest;
    assert forall i | 0 <= i < |rest| :: rest[i] == ls[i + 1];
  }

  /** Sending the first label of a name. */
  lemma SplitStep(name: seq<byte>)
    ensures var k := FirstDot(name);
            && (k > 127 ==> Wire(Split(name)) == [] && !Encodable(Split(name)))
            && (k == |name| <= 127 ==> Wire(Split(name)) == [k] + name + [] && Encodable(Split(name)))
            && (k < |name| && k <= 127 ==>
                  && Wire(Split(name)) == [k] + name[..k] + Wire(Split(name[k + 1..]))
                  && (Encodable(Split(name)) <==> Encodable(Split(name[k + 1..]))))
  {
    hide FirstDot, Wire, Encodable;
    var k := FirstDot(name);
    if k < |name| {
      WireStep(name[..k], Split(name[k + 1..]));
    } else {
      WireStep(name, []);
      NoWire();
      assert [name] + [] == [name];
    }
  }

  lemma NoWire()
    ensures Wire([]) == [] && Encodable([])
  {
  }

  method FindDot(name: seq<byte>, from: nat) returns (at: nat)
    requires from <= |name|
    ensures at == from + FirstDot(name[from..])
  {
    at := from;
    while at < |name| && name[at] != DOT
      invariant from <= at <= |name| && from + FirstDot(name[from..]) == at + FirstDot(name[at..])
    {
      assert name[at..][1..] == name[at + 1..];
      at := at + 1;
    }
  }

  /** Appends the encoded name and tells its length; a label over 127 bytes ends it with -1, behind
      the labels already sent. */
  method EncodeName(io: Buffer, name: seq<byte>) returns (n: int)
    requires io.Valid() && 0 !in name
    modifies io, io.buf
    ensures io.Valid()
    ensures var ls := Split(name);
            if Encodable(ls) then io.Contents() == old(io.Contents()) + (Wire(ls) + [0]) && n == |Wire(ls)| + 1
            else io.Contents() == old(io.Contents()) + Wire(ls) && n == -1
  {
    hide FirstDot, Split, Wire, Encodable, Buffer.Contents;
    ghost var was, ls := io.Contents(), Split(name);
    var pos := io.len;
    var rest, last := name, false;
    ghost var sent: seq<byte> := [];
    assert was + [] == was && [] + Wire(ls) == Wire(ls);
    while !last
      invariant io.Valid() && (io.buf == old(io.buf) || fresh(io.buf))
      invariant io.Contents() == was + sent
      invariant if last then sent == Wire(ls) && Encodable(ls)
                else sent + Wire(Split(rest)) == Wire(ls) && (Encodable(ls) <==> Encodable(Split(rest)))
      decreases !last, |rest|
    {
      var k := FindDot(rest, 0);
      assert rest[0..] == rest;
      SplitStep(rest);
      if k > 127 {
        assert sent + [] == sent;
        return -1;
      }
      var c := io.Append([k], true);
      c := io.Append(rest[..k], true);
      ghost var l := [k] + rest[..k];
      Slices.Assoc3(was + sent, [k], rest[..k]);
      Slices.Assoc3(was, sent, l);
      last := k == |rest|;
      if last {
        assert rest[..k] == rest && l + [] == l;
      } else {
        Slices.Assoc3(sent, l, Wire(Split(rest[k + 1..])));
        rest := rest[k + 1..];
      }
      sent := sent + l;
    }
    var c := io.Append([0], true);
    Slices.Assoc3(was, sent, [0]);
    n := io.len - pos;
  }
}
