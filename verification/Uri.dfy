/**
  URIs taken apart and put together (RFC 3986, section 3). The parser is a loop over states; it is
  shown to be a parser in the order of the grammar, and to undo the assembling.
 */
module Uri {
  import opened Bytes
  import opened Mbuf
  import PathNormalizer
  import Slices

  const COLON: byte := 58
  const SLASH: byte := 47
  const AT: byte := 64
  const OPEN: byte := 91
  const CLOSE: byte := 93
  const QUESTION: byte := 63
  const HASH: byte := 35
  const AUTHORITY: seq<byte> := [58, 47, 47]

  datatype Parts = Parts(scheme: seq<byte>, userInfo: seq<byte>, host: seq<byte>, port: nat,
                         path: seq<byte>, query: seq<byte>, fragment: seq<byte>)

  const NOTHING := Parts([], [], [], 0, [], [], [])

  /** Where the first of the separators is, or the end. */
  function Scan(s: seq<byte>, seps: seq<byte>): (n: nat)
    ensures n <= |s| && (n < |s| ==> s[n] in seps)
  {
    if s == [] || s[0] in seps then 0 else 1 + Scan(s[1..], seps)
  }

  predicate Without(s: seq<byte>, seps: seq<byte>)
  {
    forall i | 0 <= i < |s| :: s[i] !in seps
  }

  predicate StopsAt(s: seq<byte>, seps: seq<byte>)
  {
    s == [] || s[0] in seps
  }

  lemma {:induction false} ScanIs(a: seq<byte>, b: seq<byte>, seps: seq<byte>)
    requires Without(a, seps) && StopsAt(b, seps)
    ensures Scan(a + b, seps) == |a|
  {
    if a == [] {
      assert a + b == b;
    } else {
      assert (a + b)[1..] == a[1..] + b && (a + b)[0] == a[0];
      ScanIs(a[1..], b, seps);
    }
  }

  // ----- parsing, in the order of the grammar -----

  /** What is behind the separator at `i`. */
  function Behind(s: seq<byte>, i: nat): (r: seq<byte>)
    requires i <= |s|
  {
    if i < |s| then s[i + 1..] else []
  }

  /** Path, query and fragment. */
  function ReadRest(u: Parts, s: seq<byte>): (r: Parts)
  {
    var i := Scan(s, [QUESTION, HASH]);
    var t := Behind(s, i);
    if t != [] && s[i] == QUESTION then
      var j := Scan(t, [HASH]);
      u.(path := s[..i], query := t[..j], fragment := Behind(t, j))
    else u.(path := s[..i], fragment := t)
  }

  /** Whether the compiler's characters are signed; everything holds either way. */
  const SIGNED_CHAR: bool

  function CharValue(b: byte): (n: int)
  {
    if SIGNED_CHAR && b >= 128 then b as int - 256 else b as int
  }

  /** The number in `s`, as an unsigned 32-bit integer that wraps around. */
  function Number(s: seq<byte>): (n: nat)
    ensures n < 0x1_0000_0000
  {
    if s == [] then 0 else (Number(s[..|s| - 1]) * 10 + (CharValue(s[|s| - 1]) - 48)) % 0x1_0000_0000
  }

  /** A colon, the port, and what follows it. */
  function ReadPort(u: Parts, s: seq<byte>): (r: Parts)
    requires s != []
  {
    var t := s[1..];
    var i := Scan(t, [SLASH]);
    var u' := u.(port := Number(t[..i]));
    if i < |t| then ReadRest(u', t[i..]) else u'
  }

  /** The length of the host at the front of `t`: in brackets, or up to a colon or a slash. `after`
      is the byte behind the text, which is looked at when nothing is left. */
  function HostSize(t: seq<byte>, after: byte): (n: Option<nat>)
    ensures n.Some? ==> n.value <= |t|
    ensures n.Some? && n.value < |t| && t[n.value] != COLON && t[n.value] != SLASH ==> n.value > 0
  {
    if (if t == [] then after else t[0]) == OPEN then
      var k := Scan(t, [CLOSE]);
      if k == |t| then None else Some(k + 1)
    else Some(Scan(t, [COLON, SLASH]))
  }

  /** The host and what follows it. */
  function ReadHost(u: Parts, s: seq<byte>, after: byte): (r: Option<Parts>)
    requires s != []
    decreases |s|
  {
    var t := if s[0] == AT then s[1..] else s;
    var n := HostSize(t, after);
    if n.None? then None
    else
      var u', rest := u.(host := t[..n.value]), t[n.value..];
      if rest == [] then Some(u')
      else if rest[0] == COLON then Some(ReadPort(u', rest))
      else if rest[0] == SLASH then Some(ReadRest(u', rest))
      else ReadHost(u', rest, after)
  }

  /** User information, if an `@` comes before any bracket, and the host. */
  function ReadUserInfo(u: Parts, s: seq<byte>, after: byte): (r: Option<Parts>)
    requires s != []
  {
    var i := Scan(s, [AT, OPEN]);
    if i == |s| || s[i] == OPEN then ReadHost(u.(userInfo := []), s, after)
    else ReadHost(u.(userInfo := s[..i]), s[i..], after)
  }

  /** `front` was a scheme if `://` follows, otherwise a host with a port. */
  function ReadScheme(front: seq<byte>, s: seq<byte>, after: byte): (r: Option<Parts>)
    requires s != []
  {
    if AUTHORITY <= s then
      var u := NOTHING.(scheme := front);
      if |s| == 3 then Some(u) else ReadUserInfo(u, s[3..], after)
    else Some(ReadPort(NOTHING.(host := front), s))
  }

  function Parse(uri: seq<byte>, after: byte): (r: Option<Parts>)
  {
    if uri == [] then Some(NOTHING)
    else if uri[0] == OPEN then ReadHost(NOTHING, uri, after)
    else
      var i := Scan(uri, [COLON, SLASH]);
      if i == |uri| then Some(NOTHING.(host := uri))
      else if uri[i] == SLASH then Some(ReadRest(NOTHING.(host := uri[..i]), uri[i..]))
      else ReadScheme(uri[..i], uri[i..], after)
  }

  // ----- the loop -----

  datatype State = Start | SchemeOrPort | UserInfo | Host | Port | Rest

  /** What the loop returns when it is in `state` at `p` with `u` read so far. */
  ghost function Continue(uri: seq<byte>, after: byte, state: State, p: nat, u: Parts): (r: Option<Parts>)
    requires p <= |uri|
  {
    if p == |uri| then Some(u)
    else
      match state
      case Start => Parse(uri, after)
      case SchemeOrPort => ReadScheme(uri[..p], uri[p..], after)
      case UserInfo => ReadUserInfo(u, uri[p..], after)
      case Host => ReadHost(u, uri[p..], after)
      case Port => Some(ReadPort(u, uri[p..]))
      case Rest => Some(ReadRest(u, uri[p..]))
  }

  function Rank(state: State): (n: nat)
  {
    match state
    case Start => 5
    case SchemeOrPort => 4
    case UserInfo => 3
    case Host => 2
    case Port => 1
    case Rest => 0
  }

  /** The next separator from `p` on. */
  method ScanFrom(s: seq<byte>, p: nat, seps: seq<byte>) returns (q: nat)
    requires p <= |s|
    ensures q == p + Scan(s[p..], seps) && p <= q <= |s| && (q < |s| ==> s[q] in seps)
  {
    q := p;
    while q < |s| && s[q] !in seps
      invariant p <= q <= |s| && p + Scan(s[p..], seps) == q + Scan(s[q..], seps)
    {
      assert s[q..][1..] == s[q + 1..];
      q := q + 1;
    }
  }

  /** A component and the place behind its separator. */
  method ParseComponent(s: seq<byte>, p: nat, seps: seq<byte>) returns (component: seq<byte>, next: nat)
    requires p <= |s|
    ensures var i := Scan(s[p..], seps); component == s[p..][..i] && p <= next <= |s| && s[next..] == Behind(s[p..], i)
    ensures next < |s| ==> next == p + Scan(s[p..], seps) + 1
  {
    hide Scan;
    next := ScanFrom(s, p, seps);
    component := s[p..next];
    if next < |s| {
      Slices.DropDrop(s, p, next - p + 1);
      next := next + 1;
    }
  }

  lemma {:induction false} ScanForNothing(s: seq<byte>)
    ensures Scan(s, []) == |s|
  {
    if s != [] {
      ScanForNothing(s[1..]);
    }
  }

  method TakeRest(uri: seq<byte>, p: nat, u: Parts) returns (u': Parts)
    requires p <= |uri|
    ensures u' == ReadRest(u, uri[p..])
  {
    hide Scan;
    u' := u;
    var path, next := ParseComponent(uri, p, [QUESTION, HASH]);
    u' := u'.(path := path);
    if next < |uri| && uri[next - 1] == QUESTION {
      var query, behind := ParseComponent(uri, next, [HASH]);
      u' := u'.(query := query);
      next := behind;
    }
    ScanForNothing(uri[next..]);
    var fragment, end := ParseComponent(uri, next, []);
    u' := u'.(fragment := fragment);
  }

  method TakePort(uri: seq<byte>, p: nat, u: Parts) returns (u': Parts, q: nat, state: State)
    requires p < |uri|
    ensures p < q <= |uri| && Some(ReadPort(u, uri[p..])) == Continue(uri, 0, state, q, u') && (state.Port? || state.Rest?)
    ensures state.Port? ==> q == |uri|
  {
    hide Scan, ReadRest, Number, CharValue;
    ghost var t := uri[p..][1..];
    NoNumber();
    assert uri[p + 1..p + 1] == [];
    Slices.DropDrop(uri, p, 1);
    q := p + 1;
    var port := 0;
    while q < |uri| && uri[q] != SLASH
      invariant p < q <= |uri| && port == Number(uri[p + 1..q])
      invariant p + 1 + Scan(t, [SLASH]) == q + Scan(uri[q..], [SLASH])
    {
      assert uri[p + 1..q + 1] == uri[p + 1..q] + [uri[q]];
      NumberSnoc(uri[p + 1..q], uri[q]);
      port := (port * 10 + (CharValue(uri[q]) - 48)) % 0x1_0000_0000;
      ScanNext(uri[q..], [SLASH]);
      assert uri[q..][1..] == uri[q + 1..];
      q := q + 1;
    }
    ScanStops(uri[q..], [SLASH]);
    assert t[..q - p - 1] == uri[p + 1..q];
    Slices.DropDrop(uri, p + 1, q - p - 1);
    u' := u.(port := port);
    state := if q < |uri| then Rest else Port;
  }

  lemma NumberSnoc(s: seq<byte>, b: byte)
    ensures Number(s + [b]) == (Number(s) * 10 + (CharValue(b) - 48)) % 0x1_0000_0000
  {
    assert (s + [b])[..|s|] == s;
  }

  lemma NoNumber()
    ensures Number([]) == 0
  {
  }

  lemma ScanNext(s: seq<byte>, seps: seq<byte>)
    requires s != [] && s[0] !in seps
    ensures Scan(s, seps) == 1 + Scan(s[1..], seps)
  {
  }

  lemma ScanStops(s: seq<byte>, seps: seq<byte>)
    requires StopsAt(s, seps)
    ensures Scan(s, seps) == 0
  {
  }

  method FindHostEnd(uri: seq<byte>, after: byte, from: nat) returns (ok: bool, q: nat)
    requires from <= |uri|
    ensures HostSize(uri[from..], after) == if ok then Some(q - from) else None
    ensures from <= q <= |uri|
  {
    ok := true;
    if (if from < |uri| then uri[from] else after) == OPEN {
      q := ScanFrom(uri, from, [CLOSE]);
      ok := q < |uri|;
      q := if ok then q + 1 else q;
    } else {
      q := ScanFrom(uri, from, [COLON, SLASH]);
    }
  }

  method TakeHost(uri: seq<byte>, after: byte, p: nat, u: Parts) returns (ok: bool, u': Parts, q: nat, state: State)
    requires p < |uri|
    ensures p <= q <= |uri| && (state.Host? ==> p < q) && (state.Host? || state.Port? || state.Rest?)
    ensures ReadHost(u, uri[p..], after) == if ok then Continue(uri, after, state, q, u') else None
  {
    hide HostSize, ReadRest, ReadPort;
    ghost var s := uri[p..];
    var from := if uri[p] == AT then p + 1 else p;
    ghost var t := if s[0] == AT then s[1..] else s;
    assert t == uri[from..];
    ok, q := FindHostEnd(uri, after, from);
    if !ok {
      return false, u, |uri|, Host;
    }
    u', state := u.(host := uri[from..q]), Host;
    assert t[..q - from] == uri[from..q];
    Slices.DropDrop(uri, from, q - from);
    if q < |uri| {
      if uri[q] == COLON {
        state := Port;
      } else if uri[q] == SLASH {
        state := Rest;
      }
    }
  }

  method TakeUserInfo(uri: seq<byte>, after: byte, p: nat, u: Parts) returns (u': Parts, q: nat)
    requires p < |uri|
    ensures p <= q < |uri| && ReadUserInfo(u, uri[p..], after) == ReadHost(u', uri[q..], after)
  {
    hide Scan, ReadHost;
    q := ScanFrom(uri, p, [AT, OPEN]);
    if q == |uri| || uri[q] == SLASH || uri[q] == OPEN {
      q := p;
      assert uri[p..p] == [];
    } else {
      assert uri[p..q] == uri[p..][..q - p];
      Slices.DropDrop(uri, p, q - p);
    }
    u' := u.(userInfo := uri[p..q]);
  }

  lemma AuthorityAt(uri: seq<byte>, p: nat)
    requires p <= |uri|
    ensures AUTHORITY <= uri[p..] <==> |uri| - p >= 3 && uri[p..p + 3] == AUTHORITY
  {
    if |uri| - p >= 3 {
      assert uri[p..p + 3] == uri[p..][..3];
    }
  }

  /** The loop over the states. It ends on every text, although it goes back when what it took for
      user information was none. */
  method ParseUri(uri: seq<byte>, after: byte) returns (r: Option<Parts>)
    ensures r == Parse(uri, after)
  {
    hide Scan, ReadHost, ReadUserInfo, ReadPort, ReadRest;
    var p: nat, state, u := 0, Start, NOTHING;
    while p < |uri|
      invariant p <= |uri| && Continue(uri, after, state, p, u) == Parse(uri, after)
      invariant state.Start? ==> p == |uri| || (p == 0 && u == NOTHING)
      invariant state.SchemeOrPort? ==> u == NOTHING
      decreases Rank(state), |uri| - p
    {
      match state
      case Start =>
        assert uri[0..] == uri;
        if uri[0] == OPEN {
          state := Host;
        } else {
          p := ScanFrom(uri, 0, [COLON, SLASH]);
          assert p == |uri| ==> uri[..p] == uri;
          if p < |uri| && uri[p] == COLON {
            state := SchemeOrPort;
          } else {
            state := if p < |uri| then Rest else Start;
            u := u.(host := uri[..p]);
          }
        }
      case SchemeOrPort =>
        AuthorityAt(uri, p);
        if |uri| - p >= 3 && uri[p..p + 3] == AUTHORITY {
          Slices.DropDrop(uri, p, 3);
          u, state := u.(scheme := uri[..p]), UserInfo;
          p := p + 3;
        } else {
          u, state := u.(host := uri[..p]), Port;
        }
      case UserInfo =>
        u, p := TakeUserInfo(uri, after, p, u);
        state := Host;
      case Host =>
        var ok;
        ok, u, p, state := TakeHost(uri, after, p, u);
        if !ok {
          return None;
        }
      case Port =>
        u, p, state := TakePort(uri, p, u);
      case Rest =>
        u := TakeRest(uri, p, u);
        p := |uri|;
    }
    r := Some(u);
  }

  // ----- assembling -----

  /** Decimal digits, as `%u` prints them. */
  function Digits(n: nat): (s: seq<byte>)
    ensures |s| > 0 && Without(s, [SLASH])
  {
    if n < 10 then [48 + n] else Digits(n / 10) + [48 + n % 10]
  }

  function Before(mark: seq<byte>, s: seq<byte>): (r: seq<byte>)
  {
    if s == [] then [] else mark + s
  }

  function Closed(s: seq<byte>, mark: seq<byte>): (r: seq<byte>)
  {
    if s == [] then [] else s + mark
  }

  function PortBytes(port: nat): (s: seq<byte>)
  {
    if port == 0 then [] else [COLON] + Digits(port)
  }

  function RestBytes(u: Parts): (s: seq<byte>)
  {
    u.path + Before([QUESTION], u.query) + Before([HASH], u.fragment)
  }

  /** Port, path, query and fragment. */
  function TailBytes(u: Parts): (s: seq<byte>)
  {
    PortBytes(u.port) + RestBytes(u)
  }

  function Assembled(u: Parts): (s: seq<byte>)
  {
    Closed(u.scheme, AUTHORITY) + Closed(u.userInfo, [AT]) + (u.host + TailBytes(u))
  }

  predicate RestOk(u: Parts)
  {
    && (u.path == [] ==> u.query == [] && u.fragment == [])
    && (u.path != [] ==> u.path[0] == SLASH)
    && Without(u.path, [QUESTION, HASH]) && Without(u.query, [HASH])
  }

  /** A name, or an address in brackets. */
  predicate HostOk(host: seq<byte>)
  {
    if host != [] && host[0] == OPEN then host[|host| - 1] == CLOSE && Without(host[..|host| - 1], [CLOSE])
    else Without(host, [COLON, SLASH])
  }

  /** No `@` comes before the first bracket. */
  predicate NoUserIn(s: seq<byte>)
  {
    var i := Scan(s, [AT, OPEN]);
    i < |s| ==> s[i] == OPEN
  }

  /** What can be told apart again: `after` is the byte behind the text. */
  predicate WellFormed(u: Parts, after: byte)
  {
    && Without(u.scheme, [COLON, SLASH]) && (u.scheme != [] ==> u.scheme[0] != OPEN)
    && (u.scheme == [] ==> u.userInfo == [])
    && Without(u.userInfo, [AT, OPEN])
    && (u.scheme != [] && u.userInfo == [] ==> NoUserIn(u.host + TailBytes(u)))
    && HostOk(u.host) && (u.userInfo != [] && u.host + TailBytes(u) == [] ==> after != OPEN)
    && u.port < 0x1_0000_0000 && RestOk(u)
  }

  lemma {:induction false} NumberDigits(n: nat)
    requires n < 0x1_0000_0000
    ensures Number(Digits(n)) == n
  {
    var s := Digits(n);
    if n < 10 {
      assert s[..0] == [];
    } else {
      NumberDigits(n / 10);
      assert s[..|s| - 1] == Digits(n / 10);
    }
  }

  lemma QueryReads(u: Parts, path: seq<byte>, query: seq<byte>, fragment: seq<byte>)
    requires Without(path, [QUESTION, HASH]) && Without(query, [HASH]) && query != []
    ensures ReadRest(u, path + ([QUESTION] + (query + Before([HASH], fragment)))) ==
            u.(path := path, query := query, fragment := fragment)
  {
    hide Scan;
    var f := Before([HASH], fragment);
    var t := query + f;
    var s := path + ([QUESTION] + t);
    ScanIs(path, [QUESTION] + t, [QUESTION, HASH]);
    assert s[..|path|] == path && Behind(s, |path|) == t;
    ScanIs(query, f, [HASH]);
    assert t[..|query|] == query && Behind(t, |query|) == fragment;
  }

  lemma FragmentReads(u: Parts, path: seq<byte>, fragment: seq<byte>)
    requires Without(path, [QUESTION, HASH])
    ensures ReadRest(u, path + Before([HASH], fragment)) == u.(path := path, fragment := fragment)
  {
    hide Scan;
    var f := Before([HASH], fragment);
    ScanIs(path, f, [QUESTION, HASH]);
    assert (path + f)[..|path|] == path && Behind(path + f, |path|) == fragment;
  }

  /** Path, query and fragment are read back. */
  lemma RestReads(u: Parts, v: Parts)
    requires RestOk(v) && u.query == [] && u.fragment == []
    ensures ReadRest(u, RestBytes(v)) == u.(path := v.path, query := v.query, fragment := v.fragment)
  {
    hide ReadRest;
    var q, f := Before([QUESTION], v.query), Before([HASH], v.fragment);
    if v.query != [] {
      QueryReads(u, v.path, v.query, v.fragment);
      Slices.Assoc3(v.path, q, f);
      Slices.Assoc3([QUESTION], v.query, f);
    } else {
      FragmentReads(u, v.path, v.fragment);
      assert v.path + [] == v.path;
    }
  }

  lemma RestStarts(v: Parts)
    requires RestOk(v)
    ensures StopsAt(RestBytes(v), [SLASH])
    ensures RestBytes(v) == [] ==> v.path == [] && v.query == [] && v.fragment == []
  {
    var rest := RestBytes(v);
    assert v.path != [] ==> rest[0] == v.path[0];
  }

  /** What follows the host. */
  function ReadTail(u: Parts, s: seq<byte>): (r: Parts)
  {
    if s == [] then u else if s[0] == COLON then ReadPort(u, s) else ReadRest(u, s)
  }

  lemma PortReads(u: Parts, digits: seq<byte>, rest: seq<byte>)
    requires Without(digits, [SLASH]) && StopsAt(rest, [SLASH])
    ensures ReadPort(u, [COLON] + digits + rest) ==
            var u' := u.(port := Number(digits)); if rest == [] then u' else ReadRest(u', rest)
  {
    hide Scan, Number, ReadRest;
    var t := digits + rest;
    assert ([COLON] + digits + rest)[1..] == t;
    ScanIs(digits, rest, [SLASH]);
    assert t[..|digits|] == digits && t[|digits|..] == rest;
  }

  lemma TailReads(u: Parts, v: Parts)
    requires RestOk(v) && v.port < 0x1_0000_0000 && u == u.(port := 0, path := [], query := [], fragment := [])
    ensures ReadTail(u, TailBytes(v)) == u.(port := v.port, path := v.path, query := v.query, fragment := v.fragment)
    ensures StopsAt(TailBytes(v), [COLON, SLASH])
  {
    hide Number, Digits, ReadRest, ReadPort, RestBytes;
    var rest := RestBytes(v);
    RestStarts(v);
    RestReads(u.(port := v.port), v);
    if v.port == 0 {
      assert TailBytes(v) == rest;
    } else {
      PortReads(u, Digits(v.port), rest);
      NumberDigits(v.port);
    }
  }

  lemma HostSizeIs(host: seq<byte>, tail: seq<byte>, after: byte)
    requires HostOk(host) && StopsAt(tail, [COLON, SLASH]) && (host + tail == [] ==> after != OPEN)
    ensures HostSize(host + tail, after) == Some(|host|)
  {
    hide Scan;
    if host != [] && host[0] == OPEN {
      var inner := host[..|host| - 1];
      assert host + tail == inner + ([CLOSE] + tail);
      ScanIs(inner, [CLOSE] + tail, [CLOSE]);
    } else {
      ScanIs(host, tail, [COLON, SLASH]);
      assert host == [] ==> host + tail == tail;
    }
  }

  lemma HostReads(u: Parts, v: Parts, s: seq<byte>, after: byte)
    requires u == NOTHING.(scheme := v.scheme, userInfo := v.userInfo)
    requires HostOk(v.host) && RestOk(v) && v.port < 0x1_0000_0000
    requires v.host + TailBytes(v) == [] ==> after != OPEN
    requires s != [] && (if s[0] == AT then s[1..] else s) == v.host + TailBytes(v)
    ensures ReadHost(u, s, after) == Some(v)
  {
    hide HostSize, HostOk, TailBytes, ReadTail;
    var tail := TailBytes(v);
    var u' := u.(host := v.host);
    TailReads(u', v);
    HostSizeIs(v.host, tail, after);
    assert (v.host + tail)[..|v.host|] == v.host && (v.host + tail)[|v.host|..] == tail;
    ReadTailIs(u', tail);
  }

  lemma ReadTailIs(u: Parts, s: seq<byte>)
    ensures ReadTail(u, s) == if s == [] then u else if s[0] == COLON then ReadPort(u, s) else ReadRest(u, s)
  {
  }

  lemma NothingBehind(v: Parts)
    requires RestOk(v) && v.port < 0x1_0000_0000 && TailBytes(v) == []
    ensures v.port == 0 && v.path == [] && v.query == [] && v.fragment == []
  {
    TailReads(NOTHING, v);
    assert NOTHING == NOTHING.(port := v.port, path := v.path, query := v.query, fragment := v.fragment);
  }

  /** User information and host behind `://`. */
  lemma UserReads(v: Parts, after: byte)
    requires WellFormed(v, after) && v.scheme != []
    ensures var s := Closed(v.userInfo, [AT]) + (v.host + TailBytes(v));
            if s == [] then v == NOTHING.(scheme := v.scheme)
            else ReadUserInfo(NOTHING.(scheme := v.scheme), s, after) == Some(v)
  {
    hide Scan, ReadHost, HostOk, TailBytes, RestOk, Without;
    var u, ht := NOTHING.(scheme := v.scheme), v.host + TailBytes(v);
    if v.userInfo != [] {
      var s := v.userInfo + ([AT] + ht);
      Slices.Assoc3(v.userInfo, [AT], ht);
      ScanIs(v.userInfo, [AT] + ht, [AT, OPEN]);
      assert s[..|v.userInfo|] == v.userInfo && s[|v.userInfo|..] == [AT] + ht;
      assert ([AT] + ht)[1..] == ht;
      HostReads(u.(userInfo := v.userInfo), v, [AT] + ht, after);
    } else {
      assert [] + ht == ht;
      if ht == [] {
        NothingBehind(v);
      } else {
        assert ht[0] != AT by {
          if ht[0] == AT {
            ScanStops(ht, [AT, OPEN]);
          }
        }
        HostReads(u, v, ht, after);
      }
    }
  }

  /** Without a scheme: the host, and what follows it. */
  lemma BareReads(v: Parts, after: byte)
    requires WellFormed(v, after) && v.scheme == []
    ensures Parse(v.host + TailBytes(v), after) == Some(v)
  {
    hide Scan, ReadHost, ReadPort, ReadRest, RestOk, HostSize;
    var tail, u := TailBytes(v), NOTHING.(host := v.host);
    var s := v.host + tail;
    TailReads(u, v);
    if s != [] && s[0] == OPEN {
      HostReads(NOTHING, v, s, after);
    } else {
      ScanIs(v.host, tail, [COLON, SLASH]);
      assert s[..|v.host|] == v.host && s[|v.host|..] == tail;
      assert v == u.(port := v.port, path := v.path, query := v.query, fragment := v.fragment);
      assert tail == [] ==> s == v.host;
      if tail != [] && tail[0] == COLON {
        PortNotAuthority(v);
      }
    }
  }

  lemma PortNotAuthority(v: Parts)
    requires RestOk(v) && TailBytes(v) != [] && TailBytes(v)[0] == COLON
    ensures !(AUTHORITY <= TailBytes(v))
  {
    var d := Digits(v.port);
    RestStarts(v);
    assert v.port == 0 ==> TailBytes(v) == RestBytes(v);
    assert TailBytes(v)[1] == d[0] && d[0] != SLASH;
    assert AUTHORITY[1] == SLASH;
  }

  /** What follows a scheme and `://` is read as user information and host. */
  lemma SchemeReads(scheme: seq<byte>, rest: seq<byte>, after: byte)
    requires scheme != [] && Without(scheme, [COLON, SLASH]) && scheme[0] != OPEN
    ensures var u := NOTHING.(scheme := scheme);
            Parse(scheme + AUTHORITY + rest, after) == if rest == [] then Some(u) else ReadUserInfo(u, rest, after)
  {
    hide Scan, ReadUserInfo, ReadPort, ReadRest, ReadHost;
    var s := AUTHORITY + rest;
    var uri := scheme + s;
    Slices.Assoc3(scheme, AUTHORITY, rest);
    ScanIs(scheme, s, [COLON, SLASH]);
    assert uri[..|scheme|] == scheme && uri[|scheme|..] == s && uri[0] == scheme[0];
    assert s[3..] == rest;
  }

  /** Parsing an assembled URI gives its parts back. */
  lemma ParseInvertsAssemble(v: Parts, after: byte)
    requires WellFormed(v, after)
    ensures Parse(Assembled(v), after) == Some(v)
  {
    hide Parse, ReadUserInfo, TailBytes, RestOk, HostOk;
    var user, ht := Closed(v.userInfo, [AT]), v.host + TailBytes(v);
    if v.scheme == [] {
      assert Assembled(v) == ht;
      BareReads(v, after);
    } else {
      Slices.Assoc3(v.scheme + AUTHORITY, user, ht);
      SchemeReads(v.scheme, user + ht, after);
      UserReads(v, after);
    }
  }

  // ----- nothing else is read back -----

  /** What holds of every result of the parser. */
  predicate Sound(u: Parts)
  {
    && Without(u.scheme, [COLON, SLASH]) && (u.scheme != [] ==> u.scheme[0] != OPEN)
    && Without(u.userInfo, [AT, OPEN]) && HostOk(u.host) && u.port < 0x1_0000_0000 && RestOk(u)
  }

  /** Nothing behind the host is read yet. */
  predicate Bare(u: Parts)
  {
    u == u.(port := 0, path := [], query := [], fragment := [])
  }

  lemma {:induction false} ScanWithout(s: seq<byte>, seps: seq<byte>)
    ensures Without(s[..Scan(s, seps)], seps)
  {
    var n := Scan(s, seps);
    if n > 0 {
      ScanWithout(s[1..], seps);
      assert s[..n] == [s[0]] + s[1..][..n - 1];
    }
  }

  lemma RestSound(u: Parts, s: seq<byte>)
    requires Bare(u.(port := 0)) && s != [] && s[0] == SLASH
    ensures var r := ReadRest(u, s);
            RestOk(r) && r.path != [] && r == u.(path := r.path, query := r.query, fragment := r.fragment)
    ensures |RestBytes(ReadRest(u, s))| <= |s|
  {
    var i := Scan(s, [QUESTION, HASH]);
    ScanWithout(s, [QUESTION, HASH]);
    hide Scan;
    assert i > 0 by {
      ScanNext(s, [QUESTION, HASH]);
    }
    var t := Behind(s, i);
    ScanWithout(t, [HASH]);
  }

  lemma TailSound(u: Parts, s: seq<byte>)
    requires Bare(u) && StopsAt(s, [COLON, SLASH])
    ensures var r := ReadTail(u, s);
            && RestOk(r) && r.port < 0x1_0000_0000
            && r == u.(port := r.port, path := r.path, query := r.query, fragment := r.fragment)
            && |RestBytes(r)| <= |s| && (s == [] || s[0] == SLASH ==> r.port == 0)
  {
    hide Scan, ReadRest, Number, RestBytes;
    NoRest(u);
    if s != [] && s[0] == COLON {
      var t := s[1..];
      var i := Scan(t, [SLASH]);
      var u' := u.(port := Number(t[..i]));
      NoRest(u');
      if i < |t| {
        RestSound(u', t[i..]);
      }
    } else if s != [] {
      RestSound(u, s);
    }
  }

  lemma NoRest(u: Parts)
    requires Bare(u.(port := 0))
    ensures RestOk(u) && RestBytes(u) == []
  {
  }

  lemma HostSizeOk(t: seq<byte>, after: byte)
    requires HostSize(t, after).Some?
    ensures HostOk(t[..HostSize(t, after).value])
  {
    hide Scan;
    ScanWithout(t, [CLOSE]);
    ScanWithout(t, [COLON, SLASH]);
    var n := HostSize(t, after).value;
    if t != [] && t[0] == OPEN {
      assert t[..n][..n - 1] == t[..Scan(t, [CLOSE])];
    }
  }

  /** The host of `w` stands in `s` at `k`, and the rest of `w` is read from what follows it. */
  ghost predicate TakenAt(s: seq<byte>, k: nat, u: Parts, w: Parts)
  {
    && k + |w.host| <= |s| && w.host == s[k..k + |w.host|] && HostOk(w.host)
    && StopsAt(s[k + |w.host|..], [COLON, SLASH])
    && w == ReadTail(u.(host := w.host), s[k + |w.host|..])
  }

  lemma TakenHere(s: seq<byte>, at: nat, n: nat, u: Parts)
    requires at + n <= |s| && Bare(u) && HostOk(s[at..at + n]) && StopsAt(s[at + n..], [COLON, SLASH])
    ensures TakenAt(s, at, u, ReadTail(u.(host := s[at..at + n]), s[at + n..]))
  {
    hide ReadTail, HostOk;
    TailSound(u.(host := s[at..at + n]), s[at + n..]);
  }

  lemma TakenLater(s: seq<byte>, m: nat, j: nat, u: Parts, host: seq<byte>, w: Parts)
    requires m <= |s| && TakenAt(s[m..], j, u.(host := host), w)
    ensures TakenAt(s, m + j, u, w)
  {
    hide ReadTail, HostOk;
    var n := |w.host|;
    assert s[m..][j..j + n] == s[m + j..m + j + n];
    Slices.DropDrop(s, m, j + n);
  }

  /** Wherever the parser goes for the host, it takes one that stands in the text. */
  lemma {:induction false} HostFrom(u: Parts, s: seq<byte>, after: byte) returns (k: nat)
    requires Bare(u) && s != [] && ReadHost(u, s, after).Some?
    ensures TakenAt(s, k, u, ReadHost(u, s, after).value) && (s[0] == AT ==> k > 0)
    decreases |s|
  {
    hide HostSize, HostOk, ReadPort, ReadRest, TakenAt;
    var at := if s[0] == AT then 1 else 0;
    var t := s[at..];
    var n := HostSize(t, after).value;
    HostSizeOk(t, after);
    Slices.DropDrop(s, at, n);
    assert t[..n] == s[at..at + n];
    var u', rest := u.(host := t[..n]), s[at + n..];
    if rest == [] || rest[0] == COLON || rest[0] == SLASH {
      k := at;
      TakenHere(s, at, n, u);
    } else {
      var j := HostFrom(u', rest, after);
      k := at + n + j;
      TakenLater(s, at + n, j, u, t[..n], ReadHost(u', rest, after).value);
    }
  }

  /** A host without colons and slashes is not taken again inside itself. */
  lemma NotInside(u: Parts, v: Parts, tail: seq<byte>, k: nat)
    requires 0 < k < |v.host| && Without(v.host, [COLON, SLASH]) && StopsAt(tail, [COLON, SLASH])
    ensures !TakenAt(v.host + tail, k, u, v)
  {
    hide Scan, ReadTail, HostOk;
    var ht := v.host + tail;
    if TakenAt(ht, k, u, v) {
      var rest := ht[k + |v.host|..];
      assert ht[k..] == v.host + rest;
      assert ht[k..] == v.host[k..] + tail;
      ScanIs(v.host[k..], tail, [COLON, SLASH]);
      ScanIs(v.host, rest, [COLON, SLASH]);
    }
  }

  /** And not behind itself, because too little follows there. */
  lemma NotBehind(u: Parts, v: Parts, k: nat)
    requires Bare(u) && 0 < |v.host| <= k && RestOk(v)
    ensures !TakenAt(v.host + TailBytes(v), k, u, v)
  {
    hide ReadTail, HostOk, RestOk, TailBytes;
    var tail := TailBytes(v);
    var ht := v.host + tail;
    if TakenAt(ht, k, u, v) {
      var rest := ht[k + |v.host|..];
      assert rest == tail[k..];
      ShorterTail(v, k);
      TailSound(u.(host := v.host), rest);
    }
  }

  /** An `@` that would be skipped in front of the host is not read back. */
  lemma SkippedIsLost(u: Parts, v: Parts, after: byte)
    requires Bare(u) && HostOk(v.host) && RestOk(v) && v.port < 0x1_0000_0000
    requires var ht := v.host + TailBytes(v); ht != [] && ht[0] == AT
    ensures ReadHost(u, v.host + TailBytes(v), after) != Some(v)
  {
    hide TailBytes, ReadTail, ReadHost, TakenAt, RestOk, Without;
    var tail := TailBytes(v);
    var ht := v.host + tail;
    TailReads(NOTHING, v);
    assert v.host == [] ==> ht == tail;
    if ReadHost(u, ht, after) == Some(v) {
      var k := HostFrom(u, ht, after);
      if k < |v.host| {
        NotInside(u, v, tail, k);
      } else {
        NotBehind(u, v, k);
      }
    }
  }

  /** No proper end of what follows a host can be read as all of it. */
  lemma ShorterTail(v: Parts, k: nat)
    requires 0 < k <= |TailBytes(v)| && RestOk(v)
    ensures var rest := TailBytes(v)[k..];
            StopsAt(rest, [COLON, SLASH]) ==> |RestBytes(v)| > |rest| || ((rest == [] || rest[0] == SLASH) && v.port != 0)
  {
    hide RestBytes, Digits;
    var rest := TailBytes(v)[k..];
    if v.port != 0 && |rest| > |RestBytes(v)| {
      var d := Digits(v.port);
      assert rest[0] == d[k - 1];
      DigitsAreDigits(v.port, k - 1);
    } else if v.port != 0 && |rest| == |RestBytes(v)| {
      assert rest == RestBytes(v);
      RestStarts(v);
    }
  }

  lemma {:induction false} DigitsAreDigits(n: nat, i: nat)
    requires i < |Digits(n)|
    ensures 48 <= Digits(n)[i] <= 57
  {
    if n >= 10 && i < |Digits(n)| - 1 {
      DigitsAreDigits(n / 10, i);
    }
  }

  /** A host leaves scheme and user information alone. */
  lemma HostSound(u: Parts, s: seq<byte>, after: byte)
    requires Bare(u) && s != [] && ReadHost(u, s, after).Some?
    ensures var w := ReadHost(u, s, after).value;
            && w.scheme == u.scheme && w.userInfo == u.userInfo
            && HostOk(w.host) && w.port < 0x1_0000_0000 && RestOk(w)
  {
    hide HostOk, ReadHost, RestOk, ReadTail;
    var w := ReadHost(u, s, after).value;
    var k := HostFrom(u, s, after);
    TailSound(u.(host := w.host), s[k + |w.host|..]);
  }

  /** The user information read from `s`. */
  function UserIn(s: seq<byte>): (r: seq<byte>)
  {
    var i := Scan(s, [AT, OPEN]);
    if i == |s| || s[i] == OPEN then [] else s[..i]
  }

  lemma UserSound(u: Parts, s: seq<byte>, after: byte)
    requires Bare(u) && s != [] && ReadUserInfo(u, s, after).Some?
    ensures var w := ReadUserInfo(u, s, after).value;
            && w.scheme == u.scheme && w.userInfo == UserIn(s) && Without(w.userInfo, [AT, OPEN])
            && HostOk(w.host) && w.port < 0x1_0000_0000 && RestOk(w)
  {
    hide Scan, HostOk, ReadHost, RestOk;
    var i := Scan(s, [AT, OPEN]);
    ScanWithout(s, [AT, OPEN]);
    if i == |s| || s[i] == OPEN {
      HostSound(u.(userInfo := []), s, after);
    } else {
      HostSound(u.(userInfo := s[..i]), s[i..], after);
    }
  }

  /** Every result is sound, and has user information only from behind a `://`. */
  lemma ParseSound(uri: seq<byte>, after: byte)
    requires Parse(uri, after).Some?
    ensures var w := Parse(uri, after).value;
            && Sound(w)
            && (w.userInfo != [] ==>
                  var i := |w.scheme|;
                  i + 3 <= |uri| && uri[..i] == w.scheme && AUTHORITY <= uri[i..] && w.userInfo == UserIn(uri[i + 3..]))
  {
    hide Scan, ReadHost, ReadUserInfo, ReadRest, ReadPort, RestOk, UserIn;
    NoRest(NOTHING);
    if uri != [] && uri[0] == OPEN {
      HostSound(NOTHING, uri, after);
    } else {
      var i := Scan(uri, [COLON, SLASH]);
      var front, rest := uri[..i], uri[i..];
      ScanWithout(uri, [COLON, SLASH]);
      assert i > 0 ==> front[0] == uri[0];
      assert i == |uri| ==> front == uri;
      TailSound(NOTHING.(host := front), rest);
      NoRest(NOTHING.(scheme := front));
      if AUTHORITY <= rest && |rest| > 3 {
        UserSound(NOTHING.(scheme := front), rest[3..], after);
        Slices.DropDrop(uri, i, 3);
      }
    }
  }

  /** Without a scheme, user information is not read back. */
  lemma NoBareUser(v: Parts, after: byte)
    requires v.scheme == [] && v.userInfo != []
    ensures Parse(Assembled(v), after) != Some(v)
  {
    hide Parse, Scan, TailBytes, RestOk, HostOk;
    var uri, ht := Assembled(v), v.host + TailBytes(v);
    assert uri == v.userInfo + ([AT] + ht);
    if Parse(uri, after) == Some(v) {
      ParseSound(uri, after);
      assert uri[0..] == uri && uri[1] == SLASH && uri[2] == SLASH;
      assert uri[|v.userInfo|] == AT;
      assert uri[3..] == v.userInfo[3..] + ([AT] + ht);
      ScanIs(v.userInfo[3..], [AT] + ht, [AT, OPEN]);
    }
  }

  /** With a scheme, an `@` before the first bracket is taken for the end of user information. */
  lemma NoHiddenUser(v: Parts, after: byte)
    requires Sound(v) && v.scheme != [] && v.userInfo == [] && !NoUserIn(v.host + TailBytes(v))
    ensures Parse(Assembled(v), after) != Some(v)
  {
    hide Parse, Scan, ReadHost, TailBytes, RestOk, HostOk, Without;
    var ht := v.host + TailBytes(v);
    assert [] + ht == ht && v.scheme + AUTHORITY + [] == v.scheme + AUTHORITY;
    SchemeReads(v.scheme, ht, after);
    if Parse(Assembled(v), after) == Some(v) {
      UserSound(NOTHING.(scheme := v.scheme), ht, after);
      assert ht[0..] == ht;
      SkippedIsLost(NOTHING.(scheme := v.scheme), v, after);
    }
  }

  /** A text that ends in `@` is refused if a bracket happens to stand behind it. */
  lemma NoHostBehindUser(v: Parts, after: byte)
    requires Sound(v) && v.scheme != [] && v.userInfo != [] && v.host + TailBytes(v) == [] && after == OPEN
    ensures Parse(Assembled(v), after) == None
  {
    hide Parse, Scan, TailBytes, RestOk, HostOk, Without;
    var s := v.userInfo + [AT];
    assert v.scheme + AUTHORITY + s + [] == v.scheme + AUTHORITY + s;
    SchemeReads(v.scheme, s, after);
    ScanIs(v.userInfo, [AT], [AT, OPEN]);
    assert s[|v.userInfo|..] == [AT];
    var t: seq<byte> := [AT][1..];
    assert t == [];
    ScanStops(t, [CLOSE]);
  }

  /** Exactly the well-formed tuples are read back from their assembled text. */
  lemma ParseInvertsIff(v: Parts, after: byte)
    ensures Parse(Assembled(v), after) == Some(v) <==> WellFormed(v, after)
  {
    hide Parse, Assembled, TailBytes, RestOk, HostOk, Without, NoUserIn, UserIn;
    if WellFormed(v, after) {
      ParseInvertsAssemble(v, after);
    } else if Parse(Assembled(v), after) == Some(v) {
      ParseSound(Assembled(v), after);
      if v.scheme == [] && v.userInfo != [] {
        NoBareUser(v, after);
      } else if v.userInfo == [] {
        NoHiddenUser(v, after);
      } else {
        NoHostBehindUser(v, after);
      }
    }
  }

  /** The parts with the path normalised, an empty one to a slash. */
  function NormalForm(u: Parts): (v: Parts)
  {
    u.(path := if u.path == [] then [SLASH] else PathNormalizer.Normalized(u.path))
  }

  /** A part and its mark, or nothing if there is no such part. */
  method AppendClosed(out: Buffer, s: seq<byte>, mark: seq<byte>)
    requires out.Valid()
    modifies out, out.buf
    ensures out.Valid() && (out.buf == old(out.buf) || fresh(out.buf))
    ensures out.Contents() == old(out.Contents()) + Closed(s, mark)
  {
    if s != [] {
      Slices.Assoc3(out.Contents(), s, mark);
      var n := out.Append(s, true);
      n := out.Append(mark, true);
    }
  }

  method AppendBefore(out: Buffer, mark: seq<byte>, s: seq<byte>)
    requires out.Valid()
    modifies out, out.buf
    ensures out.Valid() && (out.buf == old(out.buf) || fresh(out.buf))
    ensures out.Contents() == old(out.Contents()) + Before(mark, s)
  {
    if s != [] {
      Slices.Assoc3(out.Contents(), mark, s);
      var n := out.Append(mark, true);
      n := out.Append(s, true);
    }
  }

  /** The path as it is assembled; one to be normalised has to start with a slash. */
  method PreparePath(path: seq<byte>, normalize: bool) returns (r: Option<seq<byte>>)
    ensures r == if !normalize then Some(path)
                 else if path == [] then Some([SLASH])
                 else if PathNormalizer.IsAbsolute(path) then Some(PathNormalizer.Normalized(path)) else None
  {
    hide PathNormalizer.RemoveDots;
    if !normalize {
      return Some(path);
    }
    if path == [] {
      return Some([SLASH]);
    }
    var text, npath := new byte[|path|], new byte[|path|];
    MemCopy(text, 0, path);
    assert text[..|path|] == path;
    var ok, len := PathNormalizer.Normalize(text, |path|, npath);
    r := if ok then Some(npath[..len]) else None;
  }

  lemma AppendedInOrder(u: Parts)
    ensures [] + Closed(u.scheme, AUTHORITY) + Closed(u.userInfo, [AT]) + u.host + PortBytes(u.port) + u.path +
            Before([QUESTION], u.query) + Before([HASH], u.fragment) == Assembled(u)
  {
    hide Closed, Before, PortBytes;
    var front := Closed(u.scheme, AUTHORITY) + Closed(u.userInfo, [AT]);
    assert [] + Closed(u.scheme, AUTHORITY) == Closed(u.scheme, AUTHORITY);
    var p, q, f := PortBytes(u.port), Before([QUESTION], u.query), Before([HASH], u.fragment);
    Slices.Assoc3(front, u.host, p + (u.path + q + f));
    Slices.Assoc3(front + u.host, p, u.path + q + f);
    Slices.Assoc(front + u.host + p, u.path, q, f);
  }

  /** Assembles a URI. */
  method AssembleUri(u: Parts, normalize: bool) returns (r: Option<seq<byte>>)
    ensures r == if !normalize then Some(Assembled(u))
                 else if u.path != [] && !PathNormalizer.IsAbsolute(u.path) then None
                 else Some(Assembled(NormalForm(u)))
  {
    hide Assembled, Closed, Before, PortBytes, PathNormalizer.Normalized;
    var out := new Buffer(0);
    AppendClosed(out, u.scheme, AUTHORITY);
    AppendClosed(out, u.userInfo, [AT]);
    var n := out.Append(u.host, true);
    n := out.Append(PortBytes(u.port), true);
    var path := PreparePath(u.path, normalize);
    if path.None? {
      return None;
    }
    n := out.Append(path.value, true);
    AppendBefore(out, [QUESTION], u.query);
    AppendBefore(out, [HASH], u.fragment);
    r := Some(out.Contents());
    AppendedInOrder(u.(path := path.value));
  }
}
