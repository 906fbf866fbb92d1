/** The packages between cluster nodes, lua-cluster.c, and their reassembly in
    clusterd.lua. */
module Cluster {
  import opened Wrappers
  import opened Bytes
  import opened Framing
  import opened Interleaving
  import Netpack

  const TEMP_LENGTH: nat := 0x8200
  const MULTI_PART: nat := 0x8000

  type uint32 = x: int | 0 <= x < 0x1_0000_0000

  datatype Address = Number(n: uint32) | Name(name: seq<byte>)

  datatype Request = Request(addr: Address, session: uint32, msg: seq<byte>, push: bool)

  /** What packrequest accepts: a positive session, a name of 1 to 255 bytes and a
      size of 32 bits. */
  predicate Valid(r: Request) {
    && 0 < r.session < 0x8000_0000 && |r.msg| < 0x1_0000_0000
    && (r.addr.Name? ==> 1 <= |r.addr.name| <= 255)
  }

  // ------------------------------------------------------------ packages

  function Fill32(n: uint32): (s: seq<byte>)
    ensures |s| == 4
  {
    LeBytes(n, 4)
  }

  /** The first byte and the address. */
  function Target(number: byte, name: byte, addr: Address): seq<byte>
    requires addr.Name? ==> |addr.name| <= 255
  {
    match addr
    case Number(n) => [number] + Fill32(n)
    case Name(s) => [name, |s|] + s
  }

  /** The body of the first package, after its two length bytes. */
  function Head(r: Request): seq<byte>
    requires Valid(r)
  {
    if |r.msg| < MULTI_PART then Target(0, 0x80, r.addr) + Fill32(if r.push then 0 else r.session) + r.msg
    else if r.push then Target(0x41, 0xc1, r.addr) + Fill32(r.session) + Fill32(|r.msg|)
    else Target(1, 0x81, r.addr) + Fill32(r.session) + Fill32(|r.msg|)
  }

  /** A message cut into parts; only the last is not marked by `more`. */
  function Cut(msg: seq<byte>): (parts: seq<seq<byte>>)
    ensures |parts| > 0
    decreases |msg|
  {
    if |msg| > MULTI_PART then [msg[..MULTI_PART]] + Cut(msg[MULTI_PART..]) else [msg]
  }

  function Part(session: uint32, part: seq<byte>, more: bool): seq<byte> {
    [if more then 2 else 3] + Fill32(session) + part
  }

  function Parts(session: uint32, parts: seq<seq<byte>>): (r: seq<seq<byte>>)
    ensures |r| == |parts|
  {
    seq(|parts|, i requires 0 <= i < |parts| => Part(session, parts[i], i + 1 < |parts|))
  }

  /** All packages of a request, in the order they are sent. */
  function Packages(r: Request): (ps: seq<seq<byte>>)
    requires Valid(r)
    ensures |ps| > 0
  {
    [Head(r)] + if |r.msg| < MULTI_PART then [] else Parts(r.session, Cut(r.msg))
  }

  lemma {:induction false} CutFits(msg: seq<byte>)
    ensures Flatten(Cut(msg)) == msg
    ensures forall i :: 0 <= i < |Cut(msg)| ==> |Cut(msg)[i]| <= 0x8000
    ensures forall i :: 0 <= i < |Cut(msg)| - 1 ==> |Cut(msg)[i]| == 0x8000
    decreases |msg|
  {
    if |msg| > MULTI_PART {
      CutFits(msg[MULTI_PART..]);
      assert msg == msg[..MULTI_PART] + msg[MULTI_PART..];
      assert Cut(msg)[1..] == Cut(msg[MULTI_PART..]);
    } else {
      assert Flatten([msg]) == msg + Flatten<byte>([]);
    }
  }

  /** A request goes in one package exactly below 0x8000 bytes. */
  lemma OnePackage(r: Request)
    requires Valid(r)
    ensures |Packages(r)| == 1 <==> |r.msg| < 0x8000
  {
  }

  /** Every package fits the buffer on the stack and its two length bytes. */
  lemma PackagesFit(r: Request, i: nat)
    requires Valid(r) && i < |Packages(r)|
    ensures 2 + |Packages(r)[i]| <= 0x8200 && |Packages(r)[i]| < 0x10000
  {
    CutFits(r.msg);
  }

  // ------------------------------------------------------------ packing

  /** packreq_multi. */
  method PackMulti(session: uint32, msg: seq<byte>) returns (packages: seq<seq<byte>>)
    requires |msg| < 0x1_0000_0000 && |msg| > 0
    ensures |packages| == |Cut(msg)|
    ensures forall i :: 0 <= i < |packages| ==> packages[i] == Frame(2, Part(session, Cut(msg)[i], i + 1 < |packages|))
  {
    var part := (|msg| - 1) / MULTI_PART + 1;
    packages := [];
    var ptr := msg;
    CutCount(msg);
    CutFits(msg);
    for i := 0 to part
      invariant |packages| == i && part == |Cut(msg)|
      invariant i < part ==> Cut(msg)[i..] == Cut(ptr)
      invariant forall k :: 0 <= k < i ==> packages[k] == Frame(2, Part(session, Cut(msg)[k], k + 1 < part))
    {
      assert Cut(msg)[i] == Cut(ptr)[0] && |Cut(ptr)| == part - i;
      assert Cut(msg)[i..][1..] == Cut(msg)[i + 1..];
      if |ptr| > MULTI_PART {
        packages := packages + [Frame(2, Part(session, ptr[..MULTI_PART], true))];
        ptr := ptr[MULTI_PART..];
      } else {
        packages := packages + [Frame(2, Part(session, ptr, false))];
        ptr := [];
      }
    }
  }

  lemma {:induction false} CutCount(msg: seq<byte>)
    requires |msg| > 0
    ensures |Cut(msg)| == (|msg| - 1) / MULTI_PART + 1
    decreases |msg|
  {
    if |msg| > MULTI_PART {
      CutCount(msg[MULTI_PART..]);
    }
  }

  datatype Packed = Packed(request: seq<byte>, nextSession: uint32, parts: seq<seq<byte>>)

  function Framed(bodies: seq<seq<byte>>): (r: seq<seq<byte>>)
    ensures |r| == |bodies|
  {
    seq(|bodies|, i requires 0 <= i < |bodies| => Frame(2, bodies[i]))
  }

  /** packrequest: the packages of the request, each with its length, or an error
      for exactly the sessions and names that are not allowed. */
  method PackRequest(addr: Address, session: int, msg: seq<byte>, push: bool) returns (r: Result<Packed>)
    requires -0x8000_0000 <= session < 0x8000_0000 && |msg| < 0x1_0000_0000
    ensures r.Ok? <==> session > 0 && (addr.Name? ==> 1 <= |addr.name| <= 255)
    ensures r.Ok? ==>
      && [r.value.request] + r.value.parts == Framed(Packages(Request(addr, session, msg, push)))
      && 0 < r.value.nextSession < 0x8000_0000
      && r.value.nextSession == if session == 0x7fff_ffff then 1 else session + 1
  {
    if session <= 0 {
      return Error("Invalid request session");
    }
    if addr.Name? && (|addr.name| < 1 || |addr.name| > 255) {
      return Error("name is too long");
    }
    var q := Request(addr, session, msg, push);
    var next := session + 1;
    if next > 0x7fff_ffff {
      next := 1;
    }
    var parts: seq<seq<byte>> := [];
    if |msg| >= MULTI_PART {
      parts := PackMulti(session, msg);
    }
    FramedPackages(q, parts);
    r := Ok(Packed(Frame(2, Head(q)), next, parts));
  }

  lemma FramedPackages(q: Request, parts: seq<seq<byte>>)
    requires Valid(q) && |parts| == (if |q.msg| < MULTI_PART then 0 else |Cut(q.msg)|)
    requires forall i :: 0 <= i < |parts| ==> parts[i] == Frame(2, Part(q.session, Cut(q.msg)[i], i + 1 < |parts|))
    ensures [Frame(2, Head(q))] + parts == Framed(Packages(q))
  {
    var ps := Packages(q);
    forall i | 0 <= i < |ps| ensures ([Frame(2, Head(q))] + parts)[i] == Framed(ps)[i] {
      if i > 0 {
        assert ps[i] == Part(q.session, Cut(q.msg)[i - 1], i < |parts|);
      }
    }
  }

  // ------------------------------------------------------------ unpacking

  datatype Unpacked =
    | Single(addr: Address, session: uint32, msg: seq<byte>, push: bool)
    | Begin(addr: Address, session: uint32, size: uint32, push: bool)
    | Piece(session: uint32, msg: seq<byte>, padding: bool)

  function Unpack32(s: seq<byte>, i: nat): uint32
    requires i + 4 <= |s|
  {
    LeBound(s[i..i + 4]);
    PowValues();
    LeNat(s[i..i + 4])
  }

  function UnpackNumber(b: seq<byte>): Result<Unpacked> {
    if |b| < 9 then Error("Invalid cluster message")
    else Ok(Single(Number(Unpack32(b, 1)), Unpack32(b, 5), b[9..], Unpack32(b, 5) == 0))
  }

  function UnpackMultiNumber(b: seq<byte>, push: bool): Result<Unpacked> {
    if |b| != 13 then Error("Invalid cluster message size (multi req must be 13)")
    else Ok(Begin(Number(Unpack32(b, 1)), Unpack32(b, 5), Unpack32(b, 9), push))
  }

  function UnpackPart(b: seq<byte>): Result<Unpacked> {
    if |b| < 5 then Error("Invalid cluster multi part message")
    else Ok(Piece(Unpack32(b, 1), b[5..], b[0] == 2))
  }

  function UnpackName(b: seq<byte>): Result<Unpacked> {
    if |b| < 2 || |b| < 6 + (b[1] as int) then Error("Invalid cluster message")
    else
      var n: nat := b[1];
      Ok(Single(Name(b[2..2 + n]), Unpack32(b, n + 2), b[n + 6..], Unpack32(b, n + 2) == 0))
  }

  function UnpackMultiName(b: seq<byte>, push: bool): Result<Unpacked> {
    if |b| < 2 || |b| < 10 + (b[1] as int) then Error("Invalid cluster message")
    else
      var n: nat := b[1];
      Ok(Begin(Name(b[2..2 + n]), Unpack32(b, n + 2), Unpack32(b, n + 6), push))
  }

  /** lunpackrequest; the byte after an empty string is a zero. */
  function Unpack(b: seq<byte>): Result<Unpacked> {
    var t := if b == [] then 0 else b[0];
    if t == 0 then UnpackNumber(b)
    else if t == 1 then UnpackMultiNumber(b, false)
    else if t == 0x41 then UnpackMultiNumber(b, true)
    else if t == 2 || t == 3 then UnpackPart(b)
    else if t == 0x80 then UnpackName(b)
    else if t == 0x81 then UnpackMultiName(b, false)
    else if t == 0xc1 then UnpackMultiName(b, true)
    else Error("Invalid req package type")
  }

  /** What the bytes of a package say, numbers with the low byte first. */
  predicate IsPackage(b: seq<byte>, u: Unpacked) {
    match u
    case Single(Number(n), session, msg, push) =>
      && |b| == 9 + |msg| && b[0] == 0 && WordOf(b[1..]) == n && WordOf(b[5..]) == session && b[9..] == msg
      && (push <==> session == 0)
    case Single(Name(s), session, msg, push) =>
      && |b| == 6 + |s| + |msg| && b[0] == 0x80 && b[1] == |s| && b[2..2 + |s|] == s
      && WordOf(b[2 + |s|..]) == session && b[6 + |s|..] == msg && (push <==> session == 0)
    case Begin(Number(n), session, size, push) =>
      && |b| == 13 && b[0] == (if push then 0x41 else 1)
      && WordOf(b[1..]) == n && WordOf(b[5..]) == session && WordOf(b[9..]) == size
    case Begin(Name(s), session, size, push) =>
      && |b| >= 10 + |s| && b[0] == (if push then 0xc1 else 0x81) && b[1] == |s| && b[2..2 + |s|] == s
      && WordOf(b[2 + |s|..]) == session && WordOf(b[6 + |s|..]) == size
    case Piece(session, msg, padding) =>
      |b| == 5 + |msg| && b[0] == (if padding then 2 else 3) && WordOf(b[1..]) == session && b[5..] == msg
  }

  lemma Unpack32Is(b: seq<byte>, i: nat)
    requires i + 4 <= |b|
    ensures Unpack32(b, i) == WordOf(b[i..])
  {
    LeNatFour(b[i..i + 4]);
    assert WordOf(b[i..i + 4]) == WordOf(b[i..]);
  }

  /** lunpackrequest understands exactly these packages. */
  lemma UnpackExactly(b: seq<byte>, u: Unpacked)
    ensures Unpack(b) == Ok(u) <==> IsPackage(b, u)
  {
    if |b| >= 2 && b[0] in {0x80, 0x81, 0xc1} {
      NameExactly(b, u);
    } else {
      NumberExactly(b, u);
    }
  }

  lemma NumberExactly(b: seq<byte>, u: Unpacked)
    requires |b| >= 2 ==> b[0] !in {0x80, 0x81, 0xc1}
    ensures Unpack(b) == Ok(u) <==> IsPackage(b, u)
  {
    if |b| >= 5 { Unpack32Is(b, 1); }
    if |b| >= 9 { Unpack32Is(b, 5); }
    if |b| >= 13 { Unpack32Is(b, 9); }
  }

  lemma NameExactly(b: seq<byte>, u: Unpacked)
    requires |b| >= 2 && b[0] in {0x80, 0x81, 0xc1}
    ensures Unpack(b) == Ok(u) <==> IsPackage(b, u)
  {
    var n: nat := b[1];
    if |b| >= 6 + n { Unpack32Is(b, 2 + n); }
    if |b| >= 10 + n { Unpack32Is(b, 6 + n); }
  }

  lemma Slices(a: seq<byte>, b: seq<byte>, c: seq<byte>)
    ensures var s := a + b + c; s[|a|..|a| + |b|] == b && s[|a| + |b|..] == c && s[..|a|] == a
  {
  }

  lemma Unpack32Of(a: seq<byte>, n: uint32, c: seq<byte>)
    ensures Unpack32(a + Fill32(n) + c, |a|) == n
  {
    PowValues();
    Slices(a, Fill32(n), c);
    LeRoundTrip(n, 4);
  }

  lemma NumberHead(t: byte, n: uint32, session: uint32, rest: seq<byte>)
    ensures var b := [t] + Fill32(n) + Fill32(session) + rest;
            |b| == 9 + |rest| && b[0] == t && Unpack32(b, 1) == n && Unpack32(b, 5) == session && b[9..] == rest
  {
    var b := [t] + Fill32(n) + Fill32(session) + rest;
    Unpack32Of([t], n, Fill32(session) + rest);
    assert b == [t] + Fill32(n) + (Fill32(session) + rest);
    Unpack32Of([t] + Fill32(n), session, rest);
  }

  lemma NameHead(t: byte, name: seq<byte>, session: uint32, rest: seq<byte>)
    requires |name| <= 255
    ensures var b := [t, |name|] + name + Fill32(session) + rest;
            && |b| == 6 + |name| + |rest| && b[0] == t && b[1] == |name| && b[2..2 + |name|] == name
            && Unpack32(b, |name| + 2) == session && b[|name| + 6..] == rest
  {
    var b := [t, |name|] + name + Fill32(session) + rest;
    Unpack32Of([t, |name|] + name, session, rest);
    assert b == [t, |name|] + name + (Fill32(session) + rest);
  }

  lemma Last32(a: seq<byte>, n: uint32)
    ensures Unpack32(a + Fill32(n), |a|) == n
  {
    Unpack32Of(a, n, []);
    assert a + Fill32(n) + [] == a + Fill32(n);
  }

  lemma UnpackSingle(r: Request)
    requires Valid(r) && |r.msg| < MULTI_PART
    ensures Unpack(Head(r)) == Ok(Single(r.addr, if r.push then 0 else r.session, r.msg, r.push))
  {
    var session := if r.push then 0 else r.session;
    if r.addr.Number? {
      NumberHead(0, r.addr.n, session, r.msg);
    } else {
      NameHead(0x80, r.addr.name, session, r.msg);
    }
  }

  lemma UnpackBegin(r: Request)
    requires Valid(r) && |r.msg| >= MULTI_PART
    ensures Unpack(Head(r)) == Ok(Begin(r.addr, r.session, |r.msg|, r.push))
  {
    var size := Fill32(|r.msg|);
    if r.addr.Number? {
      var t := if r.push then 0x41 else 1;
      NumberHead(t, r.addr.n, r.session, size);
      Last32([t] + Fill32(r.addr.n) + Fill32(r.session), |r.msg|);
    } else {
      var t := if r.push then 0xc1 else 0x81;
      NameHead(t, r.addr.name, r.session, size);
      Last32([t, |r.addr.name|] + r.addr.name + Fill32(r.session), |r.msg|);
    }
  }

  lemma UnpackPiece(session: uint32, part: seq<byte>, more: bool)
    ensures Unpack(Part(session, part, more)) == Ok(Piece(session, part, more))
  {
    Unpack32Of([if more then 2 else 3], session, part);
    Slices([if more then 2 else 3], Fill32(session), part);
  }

  // ------------------------------------------------------------ reassembly

  /** An entry of the table that lconcat is given. */
  datatype Item = Size(n: uint32) | Text(s: seq<byte>)

  function Texts(items: seq<Item>): seq<byte> {
    if items == [] || !items[0].Text? then [] else items[0].s + Texts(items[1..])
  }

  /** lconcat: nothing, the process aborted, or the whole message. */
  datatype Concatenated = Nothing | Abort | Whole(msg: seq<byte>)

  function Joined(items: seq<Item>): Concatenated {
    if items == [] || !items[0].Size? then Nothing
    else if items[0].n >= 0x8000_0000 then Abort
    else if |Texts(items[1..])| != items[0].n then Nothing
    else Whole(Texts(items[1..]))
  }

  /** The texts after the size, when their length is the size.  A size that is negative
      as a C int is more than can be allocated. */
  method Concat(items: seq<Item>) returns (r: Concatenated)
    ensures r == Joined(items)
  {
    if items == [] || !items[0].Size? {
      return Nothing;
    }
    if items[0].n >= 0x8000_0000 {
      return Abort;
    }
    var sz, idx, buff: seq<byte> := items[0].n, 1, [];
    while idx < |items| && items[idx].Text?
      invariant 1 <= idx <= |items| && |buff| <= sz
      invariant buff + Texts(items[idx..]) == Texts(items[1..])
    {
      var str := items[idx].s;
      assert items[idx..][1..] == items[idx + 1..];
      Assoc(buff, str, Texts(items[idx + 1..]));
      if |str| + |buff| > sz {
        return Nothing;
      }
      buff := buff + str;
      idx := idx + 1;
    }
    assert Texts(items[idx..]) == [];
    assert buff + [] == buff;
    r := if |buff| == sz then Whole(buff) else Nothing;
  }

  function AsTexts(parts: seq<seq<byte>>): (r: seq<Item>)
    ensures |r| == |parts|
  {
    seq(|parts|, i requires 0 <= i < |parts| => Text(parts[i]))
  }

  lemma {:induction false} TextsOf(parts: seq<seq<byte>>)
    ensures Texts(AsTexts(parts)) == Flatten(parts)
  {
    if parts != [] {
      TextsOf(parts[1..]);
      assert AsTexts(parts)[1..] == AsTexts(parts[1..]);
    }
  }

  /** Joining the parts of a message gives the message exactly if its length is
      announced and is below 0x8000_0000. */
  lemma JoinedCut(msg: seq<byte>, size: uint32)
    ensures Joined([Size(size)] + AsTexts(Cut(msg))) ==
            if size >= 0x8000_0000 then Abort else if |msg| == size then Whole(msg) else Nothing
  {
    var items := [Size(size)] + AsTexts(Cut(msg));
    assert items[1..] == AsTexts(Cut(msg));
    TextsOf(Cut(msg));
    CutFits(msg);
  }

  /** An entry of large_request in clusterd.lua. */
  datatype Req = Req(addr: Option<Address>, push: bool, items: seq<Item>)

  datatype Outcome =
    | Deliver(addr: Option<Address>, session: uint32, msg: seq<byte>, push: bool)
    | BadLarge(session: uint32)
    | Failed(message: string)
    | Aborted

  type Requests = map<uint32, Req>

  function Collect(m: Requests, session: uint32, start: Req, item: Item): Step<Requests, Outcome> {
    var req := if session in m then m[session] else start;
    Step(m[session := req.(items := req.items + [item])], None)
  }

  function Finish(m: Requests, session: uint32, msg: seq<byte>, addr: Option<Address>, push: bool):
    Step<Requests, Outcome>
  {
    if session in m then
      var req := m[session];
      match Joined(req.items + [Text(msg)])
      case Nothing => Step(m - {session}, Some(BadLarge(session)))
      case Abort => Step(m - {session}, Some(Aborted))
      case Whole(whole) => Step(m - {session}, Some(Deliver(req.addr, session, whole, req.push)))
    else Step(m, Some(Deliver(addr, session, msg, push)))
  }

  /** The data command of clusterd.lua. */
  function Receive(m: Requests, b: seq<byte>): Step<Requests, Outcome> {
    match Unpack(b)
    case Error(e) => Step(m, Some(Failed(e)))
    case Ok(Begin(addr, session, size, push)) => Collect(m, session, Req(Some(addr), push, []), Size(size))
    case Ok(Piece(session, msg, true)) => Collect(m, session, Req(None, false, []), Text(msg))
    case Ok(Piece(session, msg, false)) => Finish(m, session, msg, None, false)
    case Ok(Single(addr, session, msg, push)) => Finish(m, session, msg, Some(addr), push)
  }

  /** What is collected after `j` packages of a request. */
  function Partial(r: Request, j: nat): Req
    requires Valid(r) && 0 < j <= |Cut(r.msg)|
  {
    Req(Some(r.addr), r.push, [Size(|r.msg|)] + AsTexts(Cut(r.msg)[..j - 1]))
  }

  /** A push in one package carries session 0. */
  function WireSession(r: Request): uint32 {
    if r.push && |r.msg| < MULTI_PART then 0 else r.session
  }

  /** The request as it was sent; but a size that is negative as a C int ends the
      process that joins the parts. */
  function DeliveryOf(r: Request): Outcome {
    if |r.msg| < 0x8000_0000 then Deliver(Some(r.addr), WireSession(r), r.msg, r.push) else Aborted
  }

  /** The request is partly collected. */
  predicate InFlight(r: Request, j: nat)
    requires Valid(r)
  {
    0 < j < |Packages(r)|
  }

  lemma ReceiveHead(r: Request, m: Requests)
    requires Valid(r) && WireSession(r) !in m
    ensures Receive(m, Packages(r)[0]) ==
            if |Packages(r)| == 1 then Step(m, Some(DeliveryOf(r))) else Step(m[r.session := Partial(r, 1)], None)
  {
    if |r.msg| < MULTI_PART {
      UnpackSingle(r);
    } else {
      UnpackBegin(r);
      assert AsTexts(Cut(r.msg)[..0]) == [];
      assert [] + [Size(|r.msg|)] == [Size(|r.msg|)] + [];
    }
  }

  lemma PartialNext(r: Request, j: nat)
    requires Valid(r) && 0 < j <= |Cut(r.msg)|
    ensures Partial(r, j).items + [Text(Cut(r.msg)[j - 1])] == [Size(|r.msg|)] + AsTexts(Cut(r.msg)[..j])
  {
    var cut := Cut(r.msg);
    assert AsTexts(cut[..j]) == AsTexts(cut[..j - 1]) + [Text(cut[j - 1])];
    Assoc([Size(|r.msg|)], AsTexts(cut[..j - 1]), [Text(cut[j - 1])]);
  }

  lemma ReceivePart(r: Request, j: nat, m: Requests)
    requires Valid(r) && InFlight(r, j) && r.session in m && m[r.session] == Partial(r, j)
    ensures Receive(m, Packages(r)[j]) ==
            if j + 1 == |Packages(r)| then Step(m - {r.session}, Some(DeliveryOf(r)))
            else Step(m[r.session := Partial(r, j + 1)], None)
  {
    var cut := Cut(r.msg);
    var more := j < |cut|;
    assert Packages(r)[j] == Part(r.session, cut[j - 1], more);
    UnpackPiece(r.session, cut[j - 1], more);
    PartialNext(r, j);
    if !more {
      assert cut[..j] == cut;
      JoinedCut(r.msg, |r.msg|);
    }
  }

  /** One package moves its request on by one, or completes it, and leaves the others
      as they are. */
  lemma ReceiveStep(r: Request, j: nat, m: Requests)
    requires Valid(r) && j < |Packages(r)|
    requires if j == 0 then WireSession(r) !in m else r.session in m && m[r.session] == Partial(r, j)
    ensures var st := Receive(m, Packages(r)[j]);
            && (InFlight(r, j + 1) ==> st.state == m[r.session := Partial(r, j + 1)])
            && (!InFlight(r, j + 1) ==> st.state == m - {if j == 0 then WireSession(r) else r.session})
            && st.outcome == if j + 1 == |Packages(r)| then Some(DeliveryOf(r)) else None
  {
    if j == 0 {
      ReceiveHead(r, m);
      assert m - {WireSession(r)} == m;
    } else {
      ReceivePart(r, j, m);
    }
  }

  // ------------------------------------------------------------ requests on one connection

  ghost predicate AllValid(rs: seq<Request>) {
    forall k :: 0 <= k < |rs| ==> Valid(rs[k])
  }

  ghost function AllPackages(rs: seq<Request>): (packs: seq<seq<seq<byte>>>)
    requires AllValid(rs)
    ensures |packs| == |rs|
  {
    seq(|rs|, k requires 0 <= k < |rs| => Packages(rs[k]))
  }

  /** No other request that is partly collected has the session of this package. */
  ghost predicate Free(rs: seq<Request>, p: seq<nat>, k: nat)
    requires AllValid(rs) && |p| == |rs| && k < |rs|
  {
    forall j :: 0 <= j < |rs| && j != k && InFlight(rs[j], p[j]) ==>
      rs[j].session != (if p[k] == 0 then WireSession(rs[k]) else rs[k].session)
  }

  /** Session numbers may be used again, but not while a request is under way. */
  ghost function Frees(rs: seq<Request>): (seq<nat>, nat) -> bool
    requires AllValid(rs)
  {
    (p: seq<nat>, k: nat) => |p| == |rs| && k < |rs| && Free(rs, p, k)
  }

  ghost predicate HoldsAt(rs: seq<Request>, p: seq<nat>, m: Requests, k: nat)
    requires AllValid(rs) && |p| == |rs|
  {
    k < |rs| && p[k] <= |Packages(rs[k])| &&
    (InFlight(rs[k], p[k]) ==> rs[k].session in m && m[rs[k].session] == Partial(rs[k], p[k]))
  }

  /** Every entry of the table belongs to a request under way. */
  ghost predicate OwnedAt(rs: seq<Request>, p: seq<nat>, s: uint32)
    requires AllValid(rs) && |p| == |rs|
  {
    exists k :: 0 <= k < |rs| && InFlight(rs[k], p[k]) && rs[k].session == s
  }

  ghost predicate Holding(rs: seq<Request>, p: seq<nat>, m: Requests)
    requires AllValid(rs) && |p| == |rs|
  {
    && (forall k :: 0 <= k < |rs| ==> HoldsAt(rs, p, m, k))
    && (forall s :: s in m ==> OwnedAt(rs, p, s))
  }

  /** The package finds the table as its request left it. */
  lemma Expected(rs: seq<Request>, p: seq<nat>, m: Requests, k: nat)
    requires AllValid(rs) && |p| == |rs| && Holding(rs, p, m) && k < |rs| && p[k] < |Packages(rs[k])| && Free(rs, p, k)
    ensures if p[k] == 0 then WireSession(rs[k]) !in m
            else rs[k].session in m && m[rs[k].session] == Partial(rs[k], p[k])
  {
    assert HoldsAt(rs, p, m, k);
    if p[k] == 0 {
      NotOwned(rs, p, k);
    }
  }

  lemma NotOwned(rs: seq<Request>, p: seq<nat>, k: nat)
    requires AllValid(rs) && |p| == |rs| && k < |rs| && p[k] == 0 && Free(rs, p, k)
    ensures !OwnedAt(rs, p, WireSession(rs[k]))
  {
  }

  /** The session that a package carries. */
  function Carried(r: Request, j: nat): uint32 {
    if j == 0 then WireSession(r) else r.session
  }

  /** Another request is as it was. */
  lemma HoldsNext(rs: seq<Request>, p: seq<nat>, m: Requests, m': Requests, k: nat, i: nat)
    requires AllValid(rs) && |p| == |rs| && k < |rs| && i < |rs| && i != k && Free(rs, p, k) && HoldsAt(rs, p, m, i)
    requires forall s :: s in m && s != Carried(rs[k], p[k]) ==> s in m' && m'[s] == m[s]
    ensures HoldsAt(rs, p[k := p[k] + 1], m', i)
  {
  }

  lemma OwnedNext(rs: seq<Request>, p: seq<nat>, k: nat, s: uint32)
    requires AllValid(rs) && |p| == |rs| && k < |rs| && p[k] < |Packages(rs[k])|
    requires OwnedAt(rs, p, s) && (s != Carried(rs[k], p[k]) || InFlight(rs[k], p[k] + 1))
    ensures OwnedAt(rs, p[k := p[k] + 1], s)
  {
    var j :| 0 <= j < |rs| && InFlight(rs[j], p[j]) && rs[j].session == s;
    var p' := p[k := p[k] + 1];
    assert InFlight(rs[j], p'[j]);
  }

  /** The table after one package: its own request is moved on, the others stay. */
  ghost predicate Moved(rs: seq<Request>, p: seq<nat>, k: nat, m: Requests, m': Requests)
    requires AllValid(rs) && |p| == |rs| && k < |rs| && p[k] < |Packages(rs[k])|
  {
    if InFlight(rs[k], p[k] + 1) then m' == m[rs[k].session := Partial(rs[k], p[k] + 1)]
    else m' == m - {Carried(rs[k], p[k])}
  }

  lemma AllHoldNext(rs: seq<Request>, p: seq<nat>, p': seq<nat>, m: Requests, m': Requests, k: nat)
    requires AllValid(rs) && |p| == |rs| && k < |rs| && p[k] < |Packages(rs[k])| && p' == p[k := p[k] + 1]
    requires Free(rs, p, k)
    requires Moved(rs, p, k, m, m') && (p[k] == 0 ==> Carried(rs[k], 0) !in m)
    requires forall i :: 0 <= i < |rs| ==> HoldsAt(rs, p, m, i)
    ensures forall i :: 0 <= i < |rs| ==> HoldsAt(rs, p', m', i)
  {
    assert HoldsAt(rs, p, m, k);
    forall i | 0 <= i < |rs| ensures HoldsAt(rs, p', m', i) {
      if i != k {
        assert HoldsAt(rs, p, m, i);
        HoldsNext(rs, p, m, m', k, i);
      }
    }
  }

  lemma AllOwnedNext(rs: seq<Request>, p: seq<nat>, p': seq<nat>, m: Requests, m': Requests, k: nat)
    requires AllValid(rs) && |p| == |rs| && k < |rs| && p[k] < |Packages(rs[k])| && p' == p[k := p[k] + 1]
    requires Moved(rs, p, k, m, m')
    requires forall s :: s in m ==> OwnedAt(rs, p, s)
    ensures forall s :: s in m' ==> OwnedAt(rs, p', s)
  {
    forall s | s in m' ensures OwnedAt(rs, p', s) {
      if s in m && (s != Carried(rs[k], p[k]) || InFlight(rs[k], p[k] + 1)) {
        OwnedNext(rs, p, k, s);
      } else {
        assert InFlight(rs[k], p'[k]) && rs[k].session == s;
      }
    }
  }

  lemma HoldingStep(rs: seq<Request>, p: seq<nat>, m: Requests, k: nat)
    requires AllValid(rs) && |p| == |rs| && Holding(rs, p, m)
    requires k < |rs| && p[k] < |Packages(rs[k])| && Free(rs, p, k)
    ensures var st := Receive(m, Packages(rs[k])[p[k]]);
            && Holding(rs, p[k := p[k] + 1], st.state)
            && st.outcome == if p[k] + 1 == |Packages(rs[k])| then Some(DeliveryOf(rs[k])) else None
  {
    Expected(rs, p, m, k);
    ReceiveStep(rs[k], p[k], m);
    var m' := Receive(m, Packages(rs[k])[p[k]]).state;
    AllHoldNext(rs, p, p[k := p[k] + 1], m, m', k);
    AllOwnedNext(rs, p, p[k := p[k] + 1], m, m', k);
  }

  function Delivered(rs: seq<Request>): nat -> Outcome {
    (k: nat) => if k < |rs| then DeliveryOf(rs[k]) else Aborted
  }

  /** However the packages of requests are interleaved, as long as no session is used
      again while its request is under way, the receiver delivers exactly the requests,
      each when its last package arrives. */
  lemma InterleavedRequests(rs: seq<Request>, order: seq<nat>)
    requires AllValid(rs) && Order(AllPackages(rs), NoneYet(|rs|), order)
    requires Admitted(Frees(rs), NoneYet(|rs|), order)
    ensures Results(Receive, map[], Arrivals(AllPackages(rs), NoneYet(|rs|), order)) ==
            Each(Delivered(rs), Finishers(AllPackages(rs), NoneYet(|rs|), order))
  {
    var good := (p: seq<nat>, m: Requests) => |p| == |rs| && Holding(rs, p, m);
    var packs := AllPackages(rs);
    forall p: seq<nat>, m: Requests, k: nat
      | |p| == |packs| && k < |packs| && p[k] < |packs[k]| && good(p, m) && Frees(rs)(p, k)
      ensures var st := Receive(m, packs[k][p[k]]);
              && good(p[k := p[k] + 1], st.state)
              && st.outcome == if p[k] + 1 == |packs[k]| then Some(Delivered(rs)(k)) else None
    {
      HoldingStep(rs, p, m, k);
    }
    Interleaved(Receive, packs, Delivered(rs), Frees(rs), good, NoneYet(|rs|), order, map[]);
  }

  // ------------------------------------------------------------ through netpack

  ghost predicate AllFit(packs: seq<seq<seq<byte>>>) {
    forall k, i :: 0 <= k < |packs| && 0 <= i < |packs[k]| ==> |packs[k][i]| < 0x10000
  }

  lemma {:induction false} ArrivalsFit(packs: seq<seq<seq<byte>>>, p: seq<nat>, order: seq<nat>)
    requires |p| == |packs| && Order(packs, p, order) && AllFit(packs)
    ensures forall i :: 0 <= i < |order| ==> |Arrivals(packs, p, order)[i]| < 0x10000
    decreases |order|
  {
    if order != [] {
      var k := order[0];
      var p' := p[k := p[k] + 1];
      ArrivalsFit(packs, p', order[1..]);
      var bs := Arrivals(packs, p, order);
      forall i | 0 <= i < |order| ensures |bs[i]| < 0x10000 {
        assert i > 0 ==> bs[i] == Arrivals(packs, p', order[1..])[i - 1];
      }
    }
  }

  /** The packages one after the other are a stream of netpack frames. */
  lemma {:induction false} FlattenFramed(bodies: seq<seq<byte>>)
    ensures Flatten(Framed(bodies)) == Frames(2, bodies)
  {
    if bodies != [] {
      FlattenFramed(bodies[1..]);
      assert Framed(bodies)[1..] == Framed(bodies[1..]);
    }
  }

  /** What netpack emits for a socket on which framed packages arrive. */
  lemma PackagesParsed(packs: seq<seq<seq<byte>>>, order: seq<nat>, es: seq<Netpack.Event>, fd: int)
    requires Order(packs, NoneYet(|packs|), order) && AllFit(packs)
    requires Netpack.Closed(fd) !in es
    requires Netpack.Stream(es, fd) == Flatten(Framed(Arrivals(packs, NoneYet(|packs|), order)))
    ensures Netpack.OfClosed(es, fd) + Parse(2, Netpack.SinceClose(es, fd)) == Arrivals(packs, NoneYet(|packs|), order)
  {
    var bs := Arrivals(packs, NoneYet(|packs|), order);
    ArrivalsFit(packs, NoneYet(|packs|), order);
    FlattenFramed(bs);
    forall i | 0 <= i < |bs| ensures Netpack.Pack(bs[i]).Ok? {
      Netpack.PackIsFrame(bs[i]);
    }
    Netpack.PackedStreamIsParsed(es, fd, bs);
  }

  /** Through netpack: whatever chunks the framed packages arrive in, and whatever
      other sockets do, the packets that netpack emits for the socket give exactly
      the requests. */
  lemma ThroughNetpack(rs: seq<Request>, order: seq<nat>, es: seq<Netpack.Event>, fd: int)
    requires AllValid(rs) && Order(AllPackages(rs), NoneYet(|rs|), order)
    requires Admitted(Frees(rs), NoneYet(|rs|), order)
    requires Netpack.Closed(fd) !in es
    requires Netpack.Stream(es, fd) == Flatten(Framed(Arrivals(AllPackages(rs), NoneYet(|rs|), order)))
    ensures Results(Receive, map[], Netpack.OfClosed(es, fd) + Parse(2, Netpack.SinceClose(es, fd))) ==
            Each(Delivered(rs), Finishers(AllPackages(rs), NoneYet(|rs|), order))
  {
    var packs := AllPackages(rs);
    forall k, i | 0 <= k < |packs| && 0 <= i < |packs[k]| ensures |packs[k][i]| < 0x10000 {
      PackagesFit(rs[k], i);
    }
    PackagesParsed(packs, order, es, fd);
    InterleavedRequests(rs, order);
  }
}
