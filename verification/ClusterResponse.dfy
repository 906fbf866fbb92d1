/** The responses between cluster nodes, lua-cluster.c, and how a channel gives them to
    the calls that wait, socketchannel.lua and clusterd.lua. */
module ClusterResponse {
  import opened Wrappers
  import opened Bytes
  import opened Framing
  import opened Interleaving
  import opened Cluster

  // ------------------------------------------------------------ packing

  function Answer(session: uint32, t: byte, data: seq<byte>): seq<byte> {
    Fill32(session) + [t] + data
  }

  function Answers(session: uint32, parts: seq<seq<byte>>): (r: seq<seq<byte>>)
    ensures |r| == |parts|
  {
    seq(|parts|, i requires 0 <= i < |parts| => Answer(session, if i + 1 < |parts| then 3 else 4, parts[i]))
  }

  function Size32(msg: seq<byte>): uint32 {
    |msg| % 0x1_0000_0000
  }

  /** An error message is cut off. */
  function Shortened(msg: seq<byte>): seq<byte> {
    if |msg| > MULTI_PART then msg[..MULTI_PART] else msg
  }

  /** A long answer is announced, with 32 bits of its size, and sent in parts. */
  function Response(session: uint32, ok: bool, msg: seq<byte>): (bs: seq<seq<byte>>)
    ensures |bs| > 0
  {
    if ok && |msg| > MULTI_PART then [Answer(session, 2, Fill32(Size32(msg)))] + Answers(session, Cut(msg))
    else if ok then [Answer(session, 1, msg)]
    else [Answer(session, 0, Shortened(msg))]
  }

  lemma ResponseFits(session: uint32, ok: bool, msg: seq<byte>, i: nat)
    requires i < |Response(session, ok, msg)|
    ensures 2 + |Response(session, ok, msg)[i]| <= TEMP_LENGTH && |Response(session, ok, msg)[i]| < 0x10000
  {
    CutFits(msg);
  }

  /** lpackresponse; the number of parts is a C int. */
  method PackResponse(session: uint32, ok: bool, msg: seq<byte>) returns (packages: seq<seq<byte>>)
    requires |msg| <= 0x3fff_ffff_0000
    ensures packages == Framed(Response(session, ok, msg))
    ensures forall i :: 0 <= i < |packages| ==> 2 <= |packages[i]| <= TEMP_LENGTH
  {
    CutFits(msg);
    var text := msg;
    if !ok {
      if |text| > MULTI_PART {
        text := text[..MULTI_PART];
      }
    } else if |text| > MULTI_PART {
      var parts := PackAnswers(session, msg);
      packages := [Frame(2, Answer(session, 2, Fill32(|msg| % 0x1_0000_0000)))] + parts;
      forall i | 0 <= i < |packages| ensures packages[i] == Framed(Response(session, ok, msg))[i] {
        assert i > 0 ==> Response(session, ok, msg)[i] == Answers(session, Cut(msg))[i - 1];
      }
      return;
    }
    packages := [Frame(2, Answer(session, if ok then 1 else 0, text))];
  }

  /** The loop of lpackresponse. */
  method PackAnswers(session: uint32, msg: seq<byte>) returns (packages: seq<seq<byte>>)
    requires |msg| > 0
    ensures packages == Framed(Answers(session, Cut(msg)))
  {
    var part := (|msg| - 1) / MULTI_PART + 1;
    packages := [];
    var ptr := msg;
    CutCount(msg);
    for i := 0 to part
      invariant |packages| == i && part == |Cut(msg)|
      invariant i < part ==> Cut(msg)[i..] == Cut(ptr)
      invariant forall k :: 0 <= k < i ==>
        packages[k] == Frame(2, Answer(session, if k + 1 < part then 3 else 4, Cut(msg)[k]))
    {
      assert Cut(msg)[i] == Cut(ptr)[0] && |Cut(ptr)| == part - i;
      assert Cut(msg)[i..][1..] == Cut(msg)[i + 1..];
      if |ptr| > MULTI_PART {
        packages := packages + [Frame(2, Answer(session, 3, ptr[..MULTI_PART]))];
        ptr := ptr[MULTI_PART..];
      } else {
        packages := packages + [Frame(2, Answer(session, 4, ptr))];
        ptr := [];
      }
    }
  }

  // ------------------------------------------------------------ unpacking

  /** What lunpackresponse returns: an error, the end of an answer, or a part of it
      with the padding flag. */
  datatype Reply =
    | Failure(session: uint32, text: seq<byte>)
    | Last(session: uint32, text: seq<byte>)
    | More(session: uint32, item: Item)

  function UnpackResponse(b: seq<byte>): Option<Reply> {
    if |b| < 5 then None
    else
      var session, t := Unpack32(b, 0), b[4];
      if t == 0 then Some(Failure(session, b[5..]))
      else if t == 1 || t == 4 then Some(Last(session, b[5..]))
      else if t == 2 then if |b| != 9 then None else Some(More(session, Size(Unpack32(b, 5))))
      else if t == 3 then Some(More(session, Text(b[5..])))
      else None
  }

  /** What the bytes of a response say, numbers with the low byte first. */
  predicate IsAnswer(b: seq<byte>, r: Reply) {
    |b| >= 5 && WordOf(b) == r.session &&
    match r
    case Failure(_, text) => b[4] == 0 && text == b[5..]
    case Last(_, text) => (b[4] == 1 || b[4] == 4) && text == b[5..]
    case More(_, Size(n)) => b[4] == 2 && |b| == 9 && WordOf(b[5..]) == n
    case More(_, Text(part)) => b[4] == 3 && part == b[5..]
  }

  /** lunpackresponse understands exactly these packages. */
  lemma UnpackExactly(b: seq<byte>, r: Reply)
    ensures UnpackResponse(b) == Some(r) <==> IsAnswer(b, r)
  {
    if |b| >= 5 {
      Unpack32Is(b, 0);
      assert b[0..] == b;
    }
    if |b| >= 9 { Unpack32Is(b, 5); }
  }

  /** Only an ok response above 0x8000 bytes is cut, and its packages are told apart from
      the others: a size (2), parts (3) and the last part (4). */
  lemma ResponseTypes(session: uint32, ok: bool, msg: seq<byte>, i: nat)
    requires i < |Response(session, ok, msg)|
    ensures var bs := Response(session, ok, msg);
            && (|bs| == 1 <==> !ok || |msg| <= 0x8000)
            && bs[i][4] == if |bs| == 1 then (if ok then 1 else 0)
                           else if i == 0 then 2 else if i + 1 < |bs| then 3 else 4
  {
  }

  lemma AnswerFields(session: uint32, t: byte, data: seq<byte>)
    ensures var b := Answer(session, t, data); Unpack32(b, 0) == session && b[4] == t && b[5..] == data
  {
    var none: seq<byte> := [];
    Unpack32Of(none, session, [t] + data);
    assert none + Fill32(session) + ([t] + data) == Answer(session, t, data);
  }

  /** The reply that package `i` of an ok response carries. */
  function ReplyAt(session: uint32, msg: seq<byte>, i: nat): Reply
    requires i < |Response(session, true, msg)|
  {
    if |msg| <= MULTI_PART then Last(session, msg)
    else if i == 0 then More(session, Size(Size32(msg)))
    else if i < |Cut(msg)| then More(session, Text(Cut(msg)[i - 1]))
    else Last(session, Cut(msg)[i - 1])
  }

  /** Every package of an ok response is unpacked with its session, only the last
      without padding. */
  lemma ResponseRoundTrip(session: uint32, msg: seq<byte>, i: nat)
    requires i < |Response(session, true, msg)|
    ensures UnpackResponse(Response(session, true, msg)[i]) == Some(ReplyAt(session, msg, i))
  {
    if |msg| <= MULTI_PART {
      AnswerFields(session, 1, msg);
    } else if i == 0 {
      AnswerFields(session, 2, Fill32(Size32(msg)));
      Last32(Fill32(session) + [2], Size32(msg));
    } else {
      var more := i < |Cut(msg)|;
      assert Response(session, true, msg)[i] == Answer(session, if more then 3 else 4, Cut(msg)[i - 1]);
      AnswerFields(session, if more then 3 else 4, Cut(msg)[i - 1]);
    }
  }

  /** An error response is unpacked as an error with the message, cut at 32K. */
  lemma ErrorRoundTrip(session: uint32, msg: seq<byte>)
    ensures var bs, n := Response(session, false, msg), if |msg| > 0x8000 then 0x8000 else |msg|;
            |bs| == 1 && UnpackResponse(bs[0]) == Some(Failure(session, msg[..n]))
  {
    AnswerFields(session, 0, Shortened(msg));
    assert msg[..|msg|] == msg;
  }

  // ------------------------------------------------------------ the channel

  /** A call that waits for its answer, and a package from the socket. */
  datatype Event = Ask(session: uint32) | Data(body: seq<byte>)

  /** The sessions that are waited for, with what has been collected for each. */
  type Waiting = map<uint32, seq<Item>>

  /** What a call gets, or what the channel does with a package that nobody expects or
      that it cannot read. */
  datatype Outcome =
    | Returned(session: uint32, msg: seq<byte>)
    | Raised(session: uint32, text: seq<byte>)
    | Unknown(session: uint32)
    | Broken
    | Crashed

  /** The end of command.req: several items are joined, and if that gives nothing an
      empty message is returned. */
  function Give(session: uint32, items: seq<Item>, text: seq<byte>): Outcome {
    if items == [] then Returned(session, text)
    else
      match Joined(items + [Text(text)])
      case Nothing => Returned(session, [])
      case Abort => Crashed
      case Whole(msg) => Returned(session, msg)
  }

  /** One round of dispatch_by_session. */
  function Dispatch(w: Waiting, e: Event): Step<Waiting, Outcome> {
    match e
    case Ask(session) => Step(w[session := []], None)
    case Data(b) =>
      match UnpackResponse(b)
      case None => Step(map[], Some(Broken))
      case Some(reply) =>
        var s := reply.session;
        if s !in w then Step(w, Some(Unknown(s)))
        else
          match reply
          case More(_, item) => Step(w[s := w[s] + [item]], None)
          case Last(_, text) => Step(w - {s}, Some(Give(s, w[s], text)))
          case Failure(_, text) => Step(w - {s}, Some(Raised(s, text)))
  }

  datatype Call = Call(session: uint32, ok: bool, msg: seq<byte>)

  /** What happens for one call: it waits and then its response arrives. */
  function Pieces(c: Call): (es: seq<Event>)
    ensures |es| > 1
  {
    var bs := Response(c.session, c.ok, c.msg);
    [Ask(c.session)] + seq(|bs|, i requires 0 <= i < |bs| => Data(bs[i]))
  }

  predicate InFlight(c: Call, j: nat) {
    0 < j < |Pieces(c)|
  }

  /** What is collected for a call after `j` of its events. */
  function Collected(c: Call, j: nat): seq<Item>
    requires InFlight(c, j)
  {
    if j == 1 then [] else [Size(Size32(c.msg))] + AsTexts(Cut(c.msg)[..j - 2])
  }

  /** What the caller should get: exactly below 0x8000_0000 bytes the message. */
  function AnswerOf(c: Call): Outcome {
    if !c.ok then Raised(c.session, Shortened(c.msg))
    else if |c.msg| < 0x8000_0000 then Returned(c.session, c.msg)
    else if Size32(c.msg) >= 0x8000_0000 then Crashed
    else Returned(c.session, [])
  }

  lemma OneMore(size: seq<Item>, cut: seq<seq<byte>>, i: nat)
    requires i < |cut|
    ensures size + AsTexts(cut[..i]) + [Text(cut[i])] == size + AsTexts(cut[..i + 1])
  {
    assert AsTexts(cut[..i + 1]) == AsTexts(cut[..i]) + [Text(cut[i])];
    Assoc(size, AsTexts(cut[..i]), [Text(cut[i])]);
  }

  lemma CollectedNext(c: Call, j: nat)
    requires 1 < j && InFlight(c, j)
    ensures Collected(c, j) + [Text(Cut(c.msg)[j - 2])] == [Size(Size32(c.msg))] + AsTexts(Cut(c.msg)[..j - 1])
  {
    OneMore([Size(Size32(c.msg))], Cut(c.msg), j - 2);
  }

  lemma Given(c: Call)
    requires c.ok
    ensures var n := |Pieces(c)| - 1;
            Give(c.session, Collected(c, n), if n == 1 then c.msg else Cut(c.msg)[n - 2]) == AnswerOf(c)
  {
    var n := |Pieces(c)| - 1;
    if |c.msg| > MULTI_PART {
      CollectedNext(c, n);
      assert Cut(c.msg)[..n - 1] == Cut(c.msg);
      JoinedCut(c.msg, Size32(c.msg));
    }
  }

  /** One package moves its call on by one, or completes it, and leaves the others as
      they are. */
  lemma DispatchStep(c: Call, j: nat, w: Waiting)
    requires j < |Pieces(c)|
    requires j > 0 ==> c.session in w && w[c.session] == Collected(c, j)
    ensures var st := Dispatch(w, Pieces(c)[j]);
            if j + 1 < |Pieces(c)| then st == Step(w[c.session := Collected(c, j + 1)], None)
            else st == Step(w - {c.session}, Some(AnswerOf(c)))
  {
    if j > 0 && !c.ok {
      ErrorRoundTrip(c.session, c.msg);
      assert c.msg[..|c.msg|] == c.msg;
    } else if j > 0 {
      ResponseRoundTrip(c.session, c.msg, j - 1);
      if j + 1 == |Pieces(c)| {
        Given(c);
      } else if j > 1 {
        CollectedNext(c, j);
      } else {
        assert Collected(c, 1) + [Size(Size32(c.msg))] == Collected(c, 2);
      }
    }
  }

  // ------------------------------------------------------------ calls on one channel

  ghost function AllPieces(cs: seq<Call>): (packs: seq<seq<Event>>)
    ensures |packs| == |cs|
  {
    seq(|cs|, k requires 0 <= k < |cs| => Pieces(cs[k]))
  }

  /** Session numbers may be used again, but not while a call waits. */
  ghost function Frees(cs: seq<Call>): (seq<nat>, nat) -> bool {
    (p: seq<nat>, k: nat) => |p| == |cs| && k < |cs| &&
      forall j :: 0 <= j < |cs| && j != k && InFlight(cs[j], p[j]) ==> cs[j].session != cs[k].session
  }

  ghost predicate HoldsAt(cs: seq<Call>, p: seq<nat>, w: Waiting, k: nat)
    requires |p| == |cs|
  {
    k < |cs| && (InFlight(cs[k], p[k]) ==> cs[k].session in w && w[cs[k].session] == Collected(cs[k], p[k]))
  }

  ghost predicate Holding(cs: seq<Call>, p: seq<nat>, w: Waiting)
    requires |p| == |cs|
  {
    forall k :: 0 <= k < |cs| ==> HoldsAt(cs, p, w, k)
  }

  lemma HoldingStep(cs: seq<Call>, p: seq<nat>, w: Waiting, k: nat)
    requires |p| == |cs| && Holding(cs, p, w) && k < |cs| && p[k] < |Pieces(cs[k])| && Frees(cs)(p, k)
    ensures var st := Dispatch(w, Pieces(cs[k])[p[k]]);
            && Holding(cs, p[k := p[k] + 1], st.state)
            && st.outcome == if p[k] + 1 == |Pieces(cs[k])| then Some(AnswerOf(cs[k])) else None
  {
    assert HoldsAt(cs, p, w, k);
    DispatchStep(cs[k], p[k], w);
    var st, p' := Dispatch(w, Pieces(cs[k])[p[k]]), p[k := p[k] + 1];
    forall i | 0 <= i < |cs| ensures HoldsAt(cs, p', st.state, i) {
      assert HoldsAt(cs, p, w, i);
    }
  }

  function Answered(cs: seq<Call>): nat -> Outcome {
    (k: nat) => if k < |cs| then AnswerOf(cs[k]) else Broken
  }

  /** However the responses to calls are interleaved, as long as no session is used again
      while its call waits, every call gets its own answer when the last package of its
      response arrives, and nothing else happens. */
  lemma InterleavedResponses(cs: seq<Call>, order: seq<nat>)
    requires Order(AllPieces(cs), NoneYet(|cs|), order) && Admitted(Frees(cs), NoneYet(|cs|), order)
    ensures Results(Dispatch, map[], Arrivals(AllPieces(cs), NoneYet(|cs|), order)) ==
            Each(Answered(cs), Finishers(AllPieces(cs), NoneYet(|cs|), order))
  {
    var good := (p: seq<nat>, w: Waiting) => |p| == |cs| && Holding(cs, p, w);
    var packs := AllPieces(cs);
    forall p: seq<nat>, w: Waiting, k: nat
      | |p| == |packs| && k < |packs| && p[k] < |packs[k]| && good(p, w) && Frees(cs)(p, k)
      ensures var st := Dispatch(w, packs[k][p[k]]);
              && good(p[k := p[k] + 1], st.state)
              && st.outcome == if p[k] + 1 == |packs[k]| then Some(Answered(cs)(k)) else None
    {
      HoldingStep(cs, p, w, k);
    }
    Interleaved(Dispatch, packs, Answered(cs), Frees(cs), good, NoneYet(|cs|), order, map[]);
  }

  // ------------------------------------------------------------ through the socket

  /** The packages among the events. */
  function Bodies(es: seq<Event>): seq<seq<byte>> {
    if es == [] then []
    else if es[0].Data? then [es[0].body] + Bodies(es[1..])
    else Bodies(es[1..])
  }

  ghost predicate Fits(e: Event) {
    e.Data? ==> |e.body| < 0x10000
  }

  lemma PiecesFit(c: Call, i: nat)
    requires i < |Pieces(c)|
    ensures Fits(Pieces(c)[i])
  {
    if i > 0 {
      ResponseFits(c.session, c.ok, c.msg, i - 1);
    }
  }

  lemma {:induction false} ArrivalsFit(cs: seq<Call>, packs: seq<seq<Event>>, p: seq<nat>, order: seq<nat>)
    requires packs == AllPieces(cs) && |p| == |cs| && Order(packs, p, order)
    ensures forall i :: 0 <= i < |order| ==> Fits(Arrivals(packs, p, order)[i])
    decreases |order|
  {
    if order != [] {
      var k := order[0];
      ArrivalsFit(cs, packs, p[k := p[k] + 1], order[1..]);
      PiecesFit(cs[k], p[k]);
      var es, rest := Arrivals(packs, p, order), Arrivals(packs, p[k := p[k] + 1], order[1..]);
      forall i | 0 <= i < |order| ensures Fits(es[i]) {
        assert i > 0 ==> es[i] == rest[i - 1];
      }
    }
  }

  lemma {:induction false} BodiesFit(es: seq<Event>)
    requires forall i :: 0 <= i < |es| ==> Fits(es[i])
    ensures forall i :: 0 <= i < |Bodies(es)| ==> |Bodies(es)[i]| < 0x10000
  {
    if es != [] {
      assert Fits(es[0]);
      BodiesFit(es[1..]);
    }
  }

  /** The bytes on the connection, read length by length as read_response does, are the
      packages of the responses, to the last byte. */
  lemma ReadResponses(cs: seq<Call>, order: seq<nat>, stream: seq<byte>)
    requires Order(AllPieces(cs), NoneYet(|cs|), order)
    requires stream == Flatten(Framed(Bodies(Arrivals(AllPieces(cs), NoneYet(|cs|), order))))
    ensures Parse(2, stream) == Bodies(Arrivals(AllPieces(cs), NoneYet(|cs|), order)) && Rest(2, stream) == []
  {
    var es := Arrivals(AllPieces(cs), NoneYet(|cs|), order);
    ArrivalsFit(cs, AllPieces(cs), NoneYet(|cs|), order);
    BodiesFit(es);
    FlattenFramed(Bodies(es));
    ParseFrames(2, Bodies(es));
  }

  /** What happens at the channel: a call begins to wait, or the next package is read. */
  function Marks(es: seq<Event>): (ms: seq<Option<uint32>>)
    ensures |ms| == |es|
  {
    seq(|es|, i requires 0 <= i < |es| => if es[i].Ask? then Some(es[i].session) else None)
  }

  function Said(st: Step<Waiting, Outcome>): seq<Outcome> {
    if st.outcome.None? then [] else [st.outcome.value]
  }

  /** dispatch_by_session on the bytes of the connection: read_response reads a length and
      that many bytes. */
  function ReadAll(w: Waiting, ms: seq<Option<uint32>>, s: seq<byte>): seq<Outcome>
    decreases |ms|
  {
    if ms == [] then []
    else if ms[0].Some? then
      var st := Dispatch(w, Ask(ms[0].value));
      Said(st) + ReadAll(st.state, ms[1..], s)
    else if !Complete(2, s) then []
    else
      var n := 2 + SizeOf(2, s);
      var st := Dispatch(w, Data(s[2..n]));
      Said(st) + ReadAll(st.state, ms[1..], s[n..])
  }

  lemma FrameRead(body: seq<byte>, t: seq<byte>)
    requires |body| < 0x10000
    ensures var s := Frame(2, body) + t;
            Complete(2, s) && SizeOf(2, s) == |body| && s[2..2 + |body|] == body && s[2 + |body|..] == t
  {
    var s := Frame(2, body) + t;
    assert s[..2] == SizeBytes(2, |body|);
    SizeRoundTrip(2, |body|, s);
  }

  lemma {:induction false} ReadAllIs(w: Waiting, es: seq<Event>)
    requires forall i :: 0 <= i < |es| ==> Fits(es[i])
    ensures ReadAll(w, Marks(es), Frames(2, Bodies(es))) == Results(Dispatch, w, es)
    decreases |es|
  {
    if es != [] {
      var st := Dispatch(w, es[0]);
      ReadAllIs(st.state, es[1..]);
      assert Marks(es)[1..] == Marks(es[1..]);
      assert es == [es[0]] + es[1..];
      ResultsStep(Dispatch, w, es[0], es[1..]);
      if es[0].Data? {
        assert Fits(es[0]);
        FrameRead(es[0].body, Frames(2, Bodies(es[1..])));
        assert Bodies(es)[1..] == Bodies(es[1..]);
      }
    }
  }

  /** From the bytes of the connection to the answers: however the responses to calls are
      interleaved in them, every call gets its own answer. */
  lemma AnswersFromBytes(cs: seq<Call>, order: seq<nat>, stream: seq<byte>)
    requires Order(AllPieces(cs), NoneYet(|cs|), order) && Admitted(Frees(cs), NoneYet(|cs|), order)
    requires stream == Flatten(Framed(Bodies(Arrivals(AllPieces(cs), NoneYet(|cs|), order))))
    ensures ReadAll(map[], Marks(Arrivals(AllPieces(cs), NoneYet(|cs|), order)), stream) ==
            Each(Answered(cs), Finishers(AllPieces(cs), NoneYet(|cs|), order))
  {
    var es := Arrivals(AllPieces(cs), NoneYet(|cs|), order);
    ArrivalsFit(cs, AllPieces(cs), NoneYet(|cs|), order);
    FlattenFramed(Bodies(es));
    ReadAllIs(map[], es);
    InterleavedResponses(cs, order);
  }
}
