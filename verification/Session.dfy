/**
 One client's session with the server, as a function of the bytes that arrive, of how the stream
 ends, and of how many bytes the peer takes.
 */
module Session {
  import opened Bytes
  import opened Wire
  import opened Errors
  import opened Protocol
  import opened StoreSpec
  import Plaintext
  import SecretId
  import opened Sockets

  // ---------------------------------------------------------------- one request

  /** What a response carries: a status, a diagnostic, and a secret or a list. */
  datatype Reply = Reply(status: Status, text: Text, data: bytes)

  function Refusal(e: Exception): Reply { Reply(Classify(e), e.text, []) }

  function Done(data: bytes): Reply { Reply(Success, Silent, data) }

  function Malformed(text: Text): Reply { Refusal(InvalidArgument(text)) }

  ghost function AnswerPut(v: Vault, payload: bytes, fault: Fault): (Vault, Reply) {
    match ParsePutRequest(payload)
    case None => (v, Malformed(BadPutPayload))
    case Some((id, value)) =>
      match Put(v, id, value, fault)
      case (w, None) => (w, Done([]))
      case (w, Some(e)) => (w, Refusal(e))
  }

  function AnswerGet(v: Vault, payload: bytes): Reply {
    match ParseIdRequest(payload)
    case None => Malformed(BadIdPayload)
    case Some(id) =>
      match Get(v, id)
      case Ok(value) => Done(value)
      case Err(e) => Refusal(e)
  }

  ghost function AnswerRemove(v: Vault, payload: bytes, fault: Fault): (Vault, Reply) {
    match ParseIdRequest(payload)
    case None => (v, Malformed(BadIdPayload))
    case Some(id) =>
      match Remove(v, id, fault)
      case (w, Ok(true)) => (w, Done([]))
      case (w, Ok(false)) => (w, Refusal(OutOfRange(SecretMissing)))
      case (w, Err(e)) => (w, Refusal(e))
  }

  ghost function AnswerList(v: Vault, payload: bytes): Reply {
    if payload != [] then Malformed(ListNotEmpty)
    else
      match List(v)
      case Err(e) => Refusal(e)
      case Ok(ids) =>
        match IdListBytes(ids)
        case Err(e) => Refusal(e)
        case Ok(data) => Done(data)
  }

  /** The switch of `handle_client` and its exception handler. */
  ghost function Answer(v: Vault, kind: nat, payload: bytes, fault: Fault): (Vault, Reply)
    requires ResponseKind(kind).Some?
  {
    if kind == PING_REQUEST then
      (v, if payload != [] then Malformed(PingNotEmpty) else Done([]))
    else if kind == PUT_REQUEST then AnswerPut(v, payload, fault)
    else if kind == GET_REQUEST then (v, AnswerGet(v, payload))
    else if kind == REMOVE_REQUEST then AnswerRemove(v, payload, fault)
    else if kind == LOCK_REQUEST then
      if payload != [] then (v, Malformed(LockNotEmpty)) else (Lock(v), Done([]))
    else (v, AnswerList(v, payload))
  }

  /** The reply's frame; None when it is too large, which ends the session. */
  function ReplyFrame(kind: nat, requestId: nat, reply: Reply): Option<bytes>
    requires ResponseKind(kind).Some?
  {
    match ResponseBytes(Response(reply.status, Render(reply.text), reply.data))
    case Err(_) => None
    case Ok(payload) => FrameBytes(ResponseKind(kind).value, requestId, payload)
  }

  // ---------------------------------------------------------------- the session

  datatype Exit = Returned | Threw

  datatype Outcome = Outcome(vault: Vault, sent: bytes, exit: Exit)

  function HeadFault(faults: seq<Fault>): Fault { if faults == [] then None else faults[0] }

  function TailFaults(faults: seq<Fault>): seq<Fault> { if faults == [] then [] else faults[1..] }

  /** The first frame of the stream, if it is a request that arrives whole. */
  datatype First = NoHeader | BadHeader | Cut | Request(header: Header, payload: bytes, rest: bytes)

  function FirstFrame(input: bytes): First {
    if |input| < HEADER_SIZE then NoHeader
    else
      match ParseHeader(input[..HEADER_SIZE])
      case None => BadHeader
      case Some(h) =>
        var body := input[HEADER_SIZE..];
        if ResponseKind(h.kind).None? then BadHeader
        else if |body| < h.payloadSize then Cut
        else Request(h, body[..h.payloadSize], body[h.payloadSize..])
  }

  /** One turn of the loop: it ends the session, or answers one request and leaves the rest of the stream. */
  datatype Turn = Stop(outcome: Outcome) | Go(vault: Vault, frame: bytes, rest: bytes)

  ghost function OneTurn(v: Vault, fault: Fault, input: bytes, ending: Ending, room: nat): (t: Turn)
    ensures t.Go? ==> |t.rest| < |input| && |t.frame| <= room
  {
    match FirstFrame(input)
    case NoHeader => Stop(Outcome(v, [], if ending.PeerClosed? then Returned else Threw))
    case BadHeader => Stop(Outcome(v, [], Threw))
    case Cut => Stop(Outcome(v, [], Threw))
    case Request(h, payload, rest) =>
      var answer := Answer(v, h.kind, payload, fault);
      match ReplyFrame(h.kind, h.requestId, answer.1)
      case None => Stop(Outcome(answer.0, [], Threw))
      case Some(frame) =>
        if |frame| > room then Stop(Outcome(answer.0, frame[..room], Threw)) else Go(answer.0, frame, rest)
  }

  /** `handle_client`, with one fault for each request answered. */
  ghost function RunSession(v: Vault, faults: seq<Fault>, input: bytes, ending: Ending, room: nat): Outcome
    decreases |input|
  {
    match OneTurn(v, HeadFault(faults), input, ending, room)
    case Stop(outcome) => outcome
    case Go(w, frame, rest) => Prepend(frame, RunSession(w, TailFaults(faults), rest, ending, room - |frame|))
  }

  function Prepend(frame: bytes, o: Outcome): Outcome { o.(sent := frame + o.sent) }

  // ---------------------------------------------------------------- streams of requests

  datatype RawReq = RawReq(kind: nat, requestId: nat, payload: bytes)

  /** A request as a client may send it. */
  predicate IsRequest(r: RawReq) {
    ResponseKind(r.kind).Some? && r.requestId < 0x1_0000_0000_0000_0000 && |r.payload| <= MAX_PAYLOAD
  }

  type Req = r: RawReq | IsRequest(r) witness RawReq(PING_REQUEST, 0, [])

  function ReqFrame(r: Req): bytes
  {
    FrameBytes(r.kind, r.requestId, r.payload).value
  }

  function ReqFrames(rs: seq<Req>): bytes
  {
    if rs == [] then [] else ReqFrame(rs[0]) + ReqFrames(rs[1..])
  }

  lemma FirstOfFrames(r: Req, rest: bytes)
    ensures FirstFrame(ReqFrame(r) + rest) == Request(Header(r.kind, r.requestId, |r.payload|), r.payload, rest)
  {
    hide HeaderBytes, ParseHeader;
    KindFits(r.kind);
    var h := Header(r.kind, r.requestId, |r.payload|);
    var input := ReqFrame(r) + rest;
    assert input == HeaderBytes(h) + (r.payload + rest);
    assert input[..HEADER_SIZE] == HeaderBytes(h) && input[HEADER_SIZE..] == r.payload + rest;
    HeaderExact(HeaderBytes(h), h);
    assert (r.payload + rest)[..|r.payload|] == r.payload && (r.payload + rest)[|r.payload|..] == rest;
  }

  /** What the session does with one request that has arrived whole. */
  ghost function AfterRequest(v: Vault, faults: seq<Fault>, r: Req, rest: bytes, ending: Ending, room: nat): Outcome
  {
    var (w, reply) := Answer(v, r.kind, r.payload, HeadFault(faults));
    match ReplyFrame(r.kind, r.requestId, reply)
    case None => Outcome(w, [], Threw)
    case Some(frame) =>
      if |frame| > room then Outcome(w, frame[..room], Threw)
      else Prepend(frame, RunSession(w, TailFaults(faults), rest, ending, room - |frame|))
  }

  lemma SessionStep(v: Vault, faults: seq<Fault>, r: Req, rest: bytes, ending: Ending, room: nat)
    ensures RunSession(v, faults, ReqFrame(r) + rest, ending, room) == AfterRequest(v, faults, r, rest, ending, room)
  {
    hide Answer, ReplyFrame, FirstFrame, FrameBytes, Prepend;
    FirstOfFrames(r, rest);
  }

  /** The state and the reply frames after answering requests one after the other; None once one cannot be sent. */
  ghost function Served(v: Vault, faults: seq<Fault>, rs: seq<Req>): Option<(Vault, seq<bytes>)>
    decreases |rs|
  {
    if rs == [] then Some((v, []))
    else
      var r := rs[0];
      var answer := Answer(v, r.kind, r.payload, HeadFault(faults));
      match ReplyFrame(r.kind, r.requestId, answer.1)
      case None => None
      case Some(frame) =>
        match Served(answer.0, TailFaults(faults), rs[1..])
        case None => None
        case Some((u, frames)) => Some((u, [frame] + frames))
  }

  function Flatten(frames: seq<bytes>): bytes {
    if frames == [] then [] else frames[0] + Flatten(frames[1..])
  }

  ghost function FaultsAfter(faults: seq<Fault>, n: nat): seq<Fault> {
    if n <= |faults| then faults[n..] else []
  }

  /**
   k request frames in the stream give exactly their k replies, in order, and the session goes on
   with whatever follows them as if it had just begun in the state they led to.
   */
  lemma {:induction false} RepliesInOrder(
    v: Vault, faults: seq<Fault>, rs: seq<Req>, rest: bytes, ending: Ending, room: nat)
    requires Served(v, faults, rs).Some? && |Flatten(Served(v, faults, rs).value.1)| <= room
    ensures var (w, frames) := Served(v, faults, rs).value;
      && |frames| == |rs|
      && RunSession(v, faults, ReqFrames(rs) + rest, ending, room)
         == Prepend(Flatten(frames), RunSession(w, FaultsAfter(faults, |rs|), rest, ending, room - |Flatten(frames)|))
    decreases |rs|
  {
    hide Answer, ReplyFrame, FirstFrame, RunSession, FrameBytes, ResponseKind;
    if rs == [] {
      assert ReqFrames(rs) + rest == rest;
      var tail := RunSession(v, faults, rest, ending, room);
      assert [] + tail.sent == tail.sent;
    } else {
      var tailRs, tailFaults := rs[1..], TailFaults(faults);
      var (w, reply) := Answer(v, rs[0].kind, rs[0].payload, HeadFault(faults));
      var frame := ReplyFrame(rs[0].kind, rs[0].requestId, reply).value;
      var frames := Served(w, tailFaults, tailRs).value.1;
      assert ([frame] + frames)[1..] == frames;
      assert ReqFrames(rs) + rest == ReqFrame(rs[0]) + (ReqFrames(tailRs) + rest);
      SessionStep(v, faults, rs[0], ReqFrames(tailRs) + rest, ending, room);
      RepliesInOrder(w, tailFaults, tailRs, rest, ending, room - |frame|);
      assert FaultsAfter(tailFaults, |tailRs|) == FaultsAfter(faults, |rs|);
      var left := room - |frame| - |Flatten(frames)|;
      PrependTwice(frame, Flatten(frames),
        RunSession(Served(w, tailFaults, tailRs).value.0, FaultsAfter(faults, |rs|), rest, ending, left));
    }
  }

  lemma PrependTwice(a: bytes, b: bytes, o: Outcome)
    ensures Prepend(a, Prepend(b, o)) == Prepend(a + b, o)
  {
    assert a + (b + o.sent) == a + b + o.sent;
  }

  /** A reply frame decodes to the request's identifier, its response type and the reply itself. */
  lemma ReplyDecodes(kind: nat, requestId: u64, reply: Reply)
    requires ResponseKind(kind).Some? && ReplyFrame(kind, requestId, reply).Some?
    ensures var frame := ReplyFrame(kind, requestId, reply).value;
      && |frame| == HEADER_SIZE + 12 + |Render(reply.text)| + |reply.data|
      && ParseHeader(frame[..HEADER_SIZE])
         == Some(Header(ResponseKind(kind).value, requestId, |frame| - HEADER_SIZE))
      && ParseResponse(frame[HEADER_SIZE..]) == Some(Response(reply.status, Render(reply.text), reply.data))
  {
    hide Render, ParseHeader, ParseResponse, HeaderBytes, ResponseSteps;
    var r := Response(reply.status, Render(reply.text), reply.data);
    var payload := ResponseBytes(r).value;
    ResponseExact(payload, r);
    ResponseStepsOutput(r);
    var h := Header(ResponseKind(kind).value, requestId, |payload|);
    HeaderExact(HeaderBytes(h), h);
    var frame := ReplyFrame(kind, requestId, reply).value;
    assert frame[..HEADER_SIZE] == HeaderBytes(h) && frame[HEADER_SIZE..] == payload;
  }

  /** Bytes that are not a whole frame. */
  predicate Incomplete(input: bytes) { FirstFrame(input).NoHeader? || FirstFrame(input).Cut? }

  /** A frame cut short after any number of requests changes neither the store nor the replies. */
  lemma {:induction false} TrailingBytesAreHarmless(
    v: Vault, faults: seq<Fault>, rs: seq<Req>, partial: bytes, ending: Ending, room: nat)
    requires Incomplete(partial)
    ensures var whole, cut := RunSession(v, faults, ReqFrames(rs), ending, room),
                              RunSession(v, faults, ReqFrames(rs) + partial, ending, room);
      SameEffect(whole, cut)
    decreases |rs|
  {
    hide Answer, ReplyFrame, FirstFrame, RunSession, Incomplete, FrameBytes, AfterRequest;
    if rs == [] {
      assert ReqFrames(rs) + partial == partial;
      PartialAlone(v, faults, partial, ending, room);
    } else {
      var t, u := ReqFrames(rs[1..]), ReqFrames(rs[1..]) + partial;
      SessionStep(v, faults, rs[0], t, ending, room);
      SessionStep(v, faults, rs[0], u, ending, room);
      assert ReqFrames(rs) + partial == ReqFrame(rs[0]) + u;
      var (w, reply) := Answer(v, rs[0].kind, rs[0].payload, HeadFault(faults));
      match ReplyFrame(rs[0].kind, rs[0].requestId, reply) {
        case None =>
        case Some(frame) =>
          if |frame| <= room {
            TrailingBytesAreHarmless(w, TailFaults(faults), rs[1..], partial, ending, room - |frame|);
          }
      }
      SameAfterRequest(v, faults, rs[0], t, u, ending, room);
    }
  }

  lemma PartialAlone(v: Vault, faults: seq<Fault>, partial: bytes, ending: Ending, room: nat)
    requires Incomplete(partial)
    ensures SameEffect(RunSession(v, faults, [], ending, room), RunSession(v, faults, partial, ending, room))
  {
    hide Answer, ReplyFrame, ParseHeader;
  }

  ghost predicate SameEffect(a: Outcome, b: Outcome) { a.vault == b.vault && a.sent == b.sent }

  lemma SameAfterRequest(v: Vault, faults: seq<Fault>, r: Req, t: bytes, u: bytes, ending: Ending, room: nat)
    requires var (w, reply) := Answer(v, r.kind, r.payload, HeadFault(faults));
      match ReplyFrame(r.kind, r.requestId, reply)
      case None => true
      case Some(frame) => |frame| <= room ==>
        SameEffect(RunSession(w, TailFaults(faults), t, ending, room - |frame|),
                   RunSession(w, TailFaults(faults), u, ending, room - |frame|))
    ensures SameEffect(AfterRequest(v, faults, r, t, ending, room), AfterRequest(v, faults, r, u, ending, room))
  {
    hide Answer, ReplyFrame, RunSession;
  }
}
