/**
 Client, codec, session and store together: over any sequence of calls, on a channel that may break at
 any byte, the stack behaves like a map with a locked flag.
 */
module EndToEnd {
  import opened Bytes
  import opened Wire
  import opened Errors
  import opened Protocol
  import S = StoreSpec
  import opened Sockets
  import opened Session
  import SessionLaws
  import opened AbstractVault
  import opened ClientSpec
  import Plaintext
  import SecretId

  // ---------------------------------------------------------------- the server's side of a call

  /** A get whose value the response cannot carry. */
  predicate Oversize(v: S.Vault, op: Operation) { op.Get? && SessionLaws.TooLargeToRead(v, op.id) }

  /** A reply says what the operation means: its status, its data on success and a text on failure. */
  ghost predicate Says(op: Operation, reply: Reply, status: Status, data: Data) {
    && reply.status == status
    && (status != Success ==> data == NoData && reply.data == [] && reply.text != Silent)
    && (status == Success ==> reply.text == Silent)
    && (status == Success ==>
          if op.Get? then data == Secret(reply.data)
          else if op.List? then ParseIdList(reply.data).Some? && data == Ids(ParseIdList(reply.data).value)
          else data == NoData && reply.data == [])
  }

  /** The operation a request asks for; None when its payload is malformed. */
  function Decoded(kind: nat, payload: bytes): Option<Operation>
    requires ResponseKind(kind).Some?
  {
    if kind == PUT_REQUEST then
      match ParsePutRequest(payload) case Some((id, value)) => Some(Put(id, value)) case None => None
    else if kind == GET_REQUEST then
      match ParseIdRequest(payload) case Some(id) => Some(Get(id)) case None => None
    else if kind == REMOVE_REQUEST then
      match ParseIdRequest(payload) case Some(id) => Some(Remove(id)) case None => None
    else if payload != [] then None
    else if kind == PING_REQUEST then Some(Ping)
    else if kind == LOCK_REQUEST then Some(Lock)
    else Some(List)
  }

  lemma PutIsPerform(v: S.Vault, payload: bytes, fault: S.Fault)
    requires S.Good(v) && ParsePutRequest(payload).Some?
    ensures var (id, value) := ParsePutRequest(payload).value;
      var (w, reply) := AnswerPut(v, payload, fault); var (u, status, data) := Perform(v, Put(id, value), fault);
      w == u && Says(Put(id, value), reply, status, data)
  {
    hide ParsePutRequest, S.Put, S.Good, PerformPut, Classify;
    var (id, value) := ParsePutRequest(payload).value;
    PutExactly(v, id, value, fault);
    var e := S.Put(v, id, value, fault).1;
    if e.Some? { ErrorIsNotSuccess(e.value); }
  }

  lemma ErrorIsNotSuccess(e: Exception)
    ensures Classify(e) != Success
  {}

  lemma GetIsPerform(v: S.Vault, payload: bytes, fault: S.Fault)
    requires ParseIdRequest(payload).Some?
    ensures var id := ParseIdRequest(payload).value; var (u, status, data) := Perform(v, Get(id), fault);
      && u == v && Says(Get(id), AnswerGet(v, payload), status, data)
      && SessionLaws.OversizeGet(v, GET_REQUEST, payload) == Oversize(v, Get(id))
  {
    hide ParseIdRequest, S.Get, PerformGet, Classify;
    var id := ParseIdRequest(payload).value;
    GetExactly(v, id);
    var r := S.Get(v, id);
    if r.Err? { ErrorIsNotSuccess(r.error); }
  }

  lemma RemoveIsPerform(v: S.Vault, payload: bytes, fault: S.Fault)
    requires S.Good(v) && ParseIdRequest(payload).Some?
    ensures var id := ParseIdRequest(payload).value;
      var (w, reply) := AnswerRemove(v, payload, fault); var (u, status, data) := Perform(v, Remove(id), fault);
      w == u && Says(Remove(id), reply, status, data)
  {
    hide ParseIdRequest, S.Remove, S.Good, PerformRemove;
    var id := ParseIdRequest(payload).value;
    RemoveExactly(v, id, fault);
  }

  lemma ListIsPerform(v: S.Vault, fault: S.Fault)
    requires S.Good(v)
    ensures var (u, status, data) := Perform(v, List, fault);
      u == v && Says(List, AnswerList(v, []), status, data)
  {
    hide ParseIdList, IdListBytes, S.Good;
    if !v.locked { SessionLaws.ListAlwaysFits(v); }
  }

  /**
   What the server answers to any request whatever: a malformed one is refused as a bad argument, and
   every other one is answered with exactly what the operation means on the abstract vault.
   */
  lemma AnswerExactly(v: S.Vault, kind: nat, payload: bytes, fault: S.Fault)
    requires S.Good(v) && ResponseKind(kind).Some?
    ensures var (w, reply) := Answer(v, kind, payload, fault);
      match Decoded(kind, payload)
      case None => w == v && reply.status == BadArgument && reply.data == [] && reply.text != Silent
      case Some(op) =>
        var (u, status, data) := Perform(v, op, fault);
        && w == u && Says(op, reply, status, data)
        && SessionLaws.OversizeGet(v, kind, payload) == Oversize(v, op)
  {
    hide AnswerPut, AnswerGet, AnswerRemove, AnswerList, ParseIdRequest, ParsePutRequest, ParseIdList, S.Good, Perform;
    match Decoded(kind, payload)
    case None => MalformedIsRefused(v, kind, payload, fault);
    case Some(op) =>
      match op
      case Put(_, _) => PutIsPerform(v, payload, fault);
      case Get(_) => GetIsPerform(v, payload, fault);
      case Remove(_) => RemoveIsPerform(v, payload, fault);
      case List => ListIsPerform(v, fault);
      case Ping => AlwaysPerformed(v, fault);
      case Lock => AlwaysPerformed(v, fault);
  }

  lemma MalformedIsRefused(v: S.Vault, kind: nat, payload: bytes, fault: S.Fault)
    requires ResponseKind(kind).Some? && Decoded(kind, payload).None?
    ensures var (w, reply) := Answer(v, kind, payload, fault);
      w == v && reply.status == BadArgument && reply.data == [] && reply.text != Silent
  {
    hide ParseIdRequest, ParsePutRequest;
  }

  lemma AlwaysPerformed(v: S.Vault, fault: S.Fault)
    ensures Perform(v, Ping, fault) == (v, Success, NoData) && Perform(v, Lock, fault) == (S.Lock(v), Success, NoData)
  {}

  /** NOT_FOUND is reported exactly for a well-formed get or remove, on an open store, of what is not there. */
  lemma NotFoundExactly(v: S.Vault, kind: nat, payload: bytes, fault: S.Fault)
    requires S.Good(v) && ResponseKind(kind).Some?
    ensures Answer(v, kind, payload, fault).1.status == NotFound <==>
      && !v.locked && kind in {GET_REQUEST, REMOVE_REQUEST}
      && ParseIdRequest(payload).Some? && ParseIdRequest(payload).value !in v.secrets
  {
    hide Answer, ParseIdRequest, ParsePutRequest, S.Good, TooMany, HasRoomFor, With, Without, SecretId.IsValid;
    AnswerExactly(v, kind, payload, fault);
    if ParseIdRequest(payload).Some? { SessionLaws.ParsedIdIsValid(payload); }
  }

  /** OK is reported exactly for a well-formed request that finds what it needs and whose save succeeds. */
  lemma SuccessExactly(v: S.Vault, kind: nat, payload: bytes, fault: S.Fault)
    requires S.Good(v) && ResponseKind(kind).Some?
    ensures Answer(v, kind, payload, fault).1.status == Success <==>
      match Decoded(kind, payload)
      case None => false
      case Some(Ping) => true
      case Some(Lock) => true
      case Some(List) => !v.locked
      case Some(Get(id)) => !v.locked && id in v.secrets
      case Some(Remove(id)) => !v.locked && id in v.secrets && fault.None?
      case Some(Put(id, value)) =>
        && !v.locked && (id in v.secrets || |v.secrets| < 10000)
        && HasRoomFor(v.secrets, id, value) && fault.None?
  {
    hide Answer, ParseIdRequest, ParsePutRequest, S.Good, TooMany, HasRoomFor, With, Without, SecretId.IsValid;
    AnswerExactly(v, kind, payload, fault);
    if ParseIdRequest(payload).Some? { SessionLaws.ParsedIdIsValid(payload); }
    if ParsePutRequest(payload).Some? {
      SessionLaws.ParsedPutIsAllowed(payload);
      TooManyExactly(v, ParsePutRequest(payload).value.0);
    }
  }

  /** A call's request asks for the call's operation. */
  lemma RequestDecodes(op: Operation)
    requires RequestPayload(op).Some?
    ensures Decoded(Kind(op), RequestPayload(op).value) == Some(op)
  {
    hide SecretId.IsValid, IdRequestBytes, ParseIdRequest, PutRequestBytes, ParsePutRequest;
    match op
    case Put(id, value) => PutRequestExact(RequestPayload(op).value, id, value);
    case Get(id) => IdRequestExact(RequestPayload(op).value, id);
    case Remove(id) => IdRequestExact(RequestPayload(op).value, id);
    case _ =>
  }

  /** The response a server gives to a call's request is what the call means. */
  lemma AnswerIsPerform(v: S.Vault, op: Operation, fault: S.Fault)
    requires S.Good(v) && RequestPayload(op).Some?
    ensures var (w, reply) := Answer(v, Kind(op), RequestPayload(op).value, fault);
      var (u, status, data) := Perform(v, op, fault);
      w == u && Says(op, reply, status, data)
    ensures SessionLaws.OversizeGet(v, Kind(op), RequestPayload(op).value) == Oversize(v, op)
  {
    hide Answer, RequestPayload, Decoded, Perform, Says, S.Good, SessionLaws.OversizeGet, Oversize;
    RequestDecodes(op);
    AnswerExactly(v, Kind(op), RequestPayload(op).value, fault);
  }

  /** A proper prefix of a frame is never a request. */
  lemma PrefixIsIncomplete(r: Req, k: nat)
    requires k < |ReqFrame(r)|
    ensures Incomplete(ReqFrame(r)[..k])
  {
    hide ParseHeader, HeaderBytes;
    if k >= HEADER_SIZE {
      var h := Header(r.kind, r.requestId, |r.payload|);
      HeaderExact(HeaderBytes(h), h);
      assert ReqFrame(r)[..k][..HEADER_SIZE] == HeaderBytes(h);
    }
  }

  /** What the server makes of the part of a frame that reaches it. */
  lemma ServerSide(v: S.Vault, fault: S.Fault, r: Req, arrived: nat, ending: Ending, room: nat)
    requires arrived <= |ReqFrame(r)|
    ensures var o := RunSession(v, [fault], ReqFrame(r)[..arrived], ending, room);
      if arrived < |ReqFrame(r)| then o.vault == v && o.sent == []
      else
        var (w, reply) := Answer(v, r.kind, r.payload, fault);
        o.vault == w
        && match ReplyFrame(r.kind, r.requestId, reply)
           case None => o.sent == []
           case Some(frame) => o.sent == frame[..Min(room, |frame|)]
  {
    hide Answer, ReplyFrame, FirstFrame, FrameBytes, Incomplete;
    if arrived < |ReqFrame(r)| {
      PrefixIsIncomplete(r, arrived);
      PartialAlone(v, [fault], ReqFrame(r)[..arrived], ending, room);
      NothingArrives(v, [fault], ending, room);
    } else {
      assert ReqFrame(r)[..arrived] == ReqFrame(r) + [];
      SessionStep(v, [fault], r, [], ending, room);
      hide RunSession;
      var (w, reply) := Answer(v, r.kind, r.payload, fault);
      match ReplyFrame(r.kind, r.requestId, reply)
      case None =>
      case Some(frame) =>
        if |frame| <= room {
          NothingArrives(w, [], ending, room - |frame|);
          assert frame + [] == frame && frame[..|frame|] == frame;
        }
    }
  }

  lemma NothingArrives(v: S.Vault, faults: seq<S.Fault>, ending: Ending, room: nat)
    ensures var o := RunSession(v, faults, [], ending, room); o.vault == v && o.sent == []
  {
    hide Answer, ReplyFrame, ParseHeader;
  }

  // ---------------------------------------------------------------- the client's side of a call

  /** A reply that arrives whole is taken for what it is; anything less closes the handle. */
  lemma ClientSide(h: Handle, kind: nat, id: u64, sent: bytes, reply: Reply, arrived: nat)
    requires ResponseKind(kind).Some? && ReplyFrame(kind, id, reply).Some?
    requires arrived <= |ReplyFrame(kind, id, reply).value|
    ensures var frame := ReplyFrame(kind, id, reply).value;
      var x := ReadResponse(h, kind, id, sent, frame[..arrived]);
      if arrived < |frame| then x.handle == Disconnected(h) && x.status == IoError && x.response == None
      else x == Exchange(h, reply.status, Some(Response(reply.status, Render(reply.text), reply.data)), sent, [])
  {
    hide ParseHeader, ParseResponse, ReplyFrame, ResponseKind, Render;
    var frame := ReplyFrame(kind, id, reply).value;
    ReplyDecodes(kind, id, reply);
    if arrived >= HEADER_SIZE { assert frame[..arrived][..HEADER_SIZE] == frame[..HEADER_SIZE]; }
    if arrived == |frame| {
      assert frame[..arrived] == frame;
      assert frame[HEADER_SIZE..][..|frame| - HEADER_SIZE] == frame[HEADER_SIZE..];
    }
  }

  // ---------------------------------------------------------------- one call over a channel

  /** How many bytes of the request and of the reply get through, and how the server sees the end. */
  datatype Channel = Channel(requestRoom: nat, replyRoom: nat, ending: Ending)

  /** What a call leaves behind, and the bytes that went each way. */
  datatype Finished = Finished(
    vault: S.Vault, handle: Handle, status: Status, data: Data, unread: bytes, sent: bytes, received: bytes)

  /** The client's call and the server's session on the bytes that reach it. */
  ghost function Over(v: S.Vault, h: Handle, op: Operation, fault: S.Fault, ch: Channel): (r: Finished)
    ensures |r.sent| <= ch.requestRoom && |r.received| <= ch.replyRoom
    ensures ValidHandle(h) ==> ValidHandle(r.handle)
    ensures r.handle.open ==> h.open
    ensures r.received == RunSession(v, [fault], r.sent, ch.ending, ch.replyRoom).sent
    ensures r.sent == Call(h, op, r.received, ch.requestRoom).sent
  {
    var delivered := Call(h, op, [], ch.requestRoom).sent;
    var server := RunSession(v, [fault], delivered, ch.ending, ch.replyRoom);
    SentWithinRoom(v, [fault], delivered, ch.ending, ch.replyRoom);
    SentBeforeReading(h, op, [], server.sent, ch.requestRoom);
    CallKeepsHandle(h, op, server.sent, ch.requestRoom);
    var c := Call(h, op, server.sent, ch.requestRoom);
    Finished(server.vault, c.handle, c.status, c.data, c.rest, c.sent, server.sent)
  }

  lemma {:induction false} SentWithinRoom(v: S.Vault, faults: seq<S.Fault>, input: bytes, ending: Ending, room: nat)
    ensures |RunSession(v, faults, input, ending, room).sent| <= room
    decreases |input|
  {
    hide OneTurn;
    match OneTurn(v, HeadFault(faults), input, ending, room)
    case Stop(outcome) => StopWithinRoom(v, HeadFault(faults), input, ending, room);
    case Go(w, frame, rest) => SentWithinRoom(w, TailFaults(faults), rest, ending, room - |frame|);
  }

  lemma StopWithinRoom(v: S.Vault, fault: S.Fault, input: bytes, ending: Ending, room: nat)
    ensures var t := OneTurn(v, fault, input, ending, room); t.Stop? ==> |t.outcome.sent| <= room
  {
    hide FirstFrame, Answer, ReplyFrame;
  }

  function RequestOf(h: Handle, op: Operation): Req
    requires ValidHandle(h) && RequestPayload(op).Some?
  {
    PayloadFits(op);
    RawReq(Kind(op), h.nextId, RequestPayload(op).value)
  }

  /** A call that has nothing to send: it is refused and nobody notices. */
  lemma RefusedCall(v: S.Vault, h: Handle, op: Operation, fault: S.Fault, ch: Channel)
    requires !h.open || RequestPayload(op).None?
    ensures Over(v, h, op, fault, ch) == Finished(v, h, BadArgument, NoData, [], [], [])
  {
    hide RequestPayload, RunSession, ReadResponse, FrameBytes;
    NothingArrives(v, [fault], ch.ending, ch.replyRoom);
  }

  /** A call whose request does not get through whole. */
  lemma CutRequest(v: S.Vault, h: Handle, op: Operation, fault: S.Fault, ch: Channel)
    requires ValidHandle(h) && h.open && RequestPayload(op).Some?
    requires ch.requestRoom < |ReqFrame(RequestOf(h, op))|
    ensures var r := Over(v, h, op, fault, ch);
      && r.vault == v && r.status == IoError && r.data == NoData && !r.handle.open
      && r.sent == ReqFrame(RequestOf(h, op))[..ch.requestRoom]
  {
    hide RequestPayload, RunSession, ReadResponse, FrameBytes, HeaderBytes;
    PayloadFits(op);
    FrameExists(RequestOf(h, op));
    ServerSide(v, fault, RequestOf(h, op), ch.requestRoom, ch.ending, ch.replyRoom);
  }

  lemma FrameExists(r: Req)
    ensures FrameBytes(r.kind, r.requestId, r.payload) == Some(ReqFrame(r))
  {}

  /** A call whose request gets through: the vault has performed it, whatever the client learns. */
  lemma SentRequest(v: S.Vault, h: Handle, op: Operation, fault: S.Fault, ch: Channel)
    requires S.Good(v) && S.ValidFault(fault) && ValidHandle(h) && h.open && RequestPayload(op).Some?
    requires ch.requestRoom >= |ReqFrame(RequestOf(h, op))|
    ensures var r := Over(v, h, op, fault, ch); var (w, status, data) := Perform(v, op, fault);
      && r.vault == w && r.sent == ReqFrame(RequestOf(h, op))
      && (if !Oversize(v, op) && ch.replyRoom >= ReplySize(v, h, op, fault)
          then r.status == status && r.data == data && r.handle.open && r.unread == []
          else r.status == IoError && r.data == NoData && !r.handle.open)
  {
    hide RequestPayload, RunSession, ReadResponse, FrameBytes, HeaderBytes, Answer, Perform, ReplyFrame,
      SessionLaws.OversizeGet, Oversize, ParseIdList, Interpret;
    var req := RequestOf(h, op);
    FrameExists(req);
    ServerSide(v, fault, req, |ReqFrame(req)|, ch.ending, ch.replyRoom);
    assert ReqFrame(req)[..|ReqFrame(req)|] == ReqFrame(req);
    AnswerIsPerform(v, op, fault);
    SessionLaws.ReplyFitsExactly(v, req.kind, req.requestId, req.payload, fault);
    var (w, reply) := Answer(v, req.kind, req.payload, fault);
    var next := h.(nextId := Following(h.nextId));
    match ReplyFrame(req.kind, req.requestId, reply)
    case None =>
      EmptyResponse(next, req.kind, h.nextId, ReqFrame(req));
      InterpretFailure(op, ReadResponse(next, req.kind, h.nextId, ReqFrame(req), []));
    case Some(frame) =>
      ClientSide(next, req.kind, h.nextId, ReqFrame(req), reply, Min(ch.replyRoom, |frame|));
      InterpretReply(v, op, fault, next, ReqFrame(req), reply);
      var x := ReadResponse(next, req.kind, h.nextId, ReqFrame(req), frame[..Min(ch.replyRoom, |frame|)]);
      if x.status == IoError && x.response.None? { InterpretFailure(op, x); }
  }

  /** How much room the reply to a call needs. */
  ghost function ReplySize(v: S.Vault, h: Handle, op: Operation, fault: S.Fault): nat
    requires RequestPayload(op).Some?
  {
    match ReplyFrame(Kind(op), h.nextId, Answer(v, Kind(op), RequestPayload(op).value, fault).1)
    case None => 0
    case Some(frame) => |frame|
  }

  lemma EmptyResponse(h: Handle, kind: nat, id: nat, sent: bytes)
    ensures var x := ReadResponse(h, kind, id, sent, []);
      x.handle == Disconnected(h) && x.status == IoError && x.response == None
  {
    hide ParseHeader;
  }

  lemma InterpretFailure(op: Operation, x: Exchange)
    requires x.status != Success
    ensures Interpret(op, x) == Called(x.handle, x.status, NoData, x.sent, x.rest)
  {
    hide ParseIdList;
  }

  lemma InterpretReply(v: S.Vault, op: Operation, fault: S.Fault, h: Handle, sent: bytes, reply: Reply)
    requires S.Good(v) && RequestPayload(op).Some?
    requires reply == Answer(v, Kind(op), RequestPayload(op).value, fault).1
    ensures var (w, status, data) := Perform(v, op, fault);
      Interpret(op, Exchange(h, reply.status, Some(Response(reply.status, Render(reply.text), reply.data)), sent, []))
      == Called(h, status, data, sent, [])
  {
    hide ParseIdList, Perform, Answer, RequestPayload, Render;
    AnswerIsPerform(v, op, fault);
  }

  // ---------------------------------------------------------------- the refinement, call by call

  /**
   Over a channel that may break anywhere: a call answered OK was performed, exactly once, with the
   data it returns; a call answered with any other error but an I/O error changed nothing, and the error
   is the vault's own unless the client refused the arguments; a call that failed with an I/O error was
   performed at most once and closed the handle; there is no protocol error; and as long as the handle is
   open, no reply byte is left to be taken for another call's.
   */
  lemma CallRefines(v: S.Vault, h: Handle, op: Operation, fault: S.Fault, ch: Channel)
    requires S.Good(v) && S.ValidFault(fault) && ValidHandle(h)
    ensures var r := Over(v, h, op, fault, ch); var (w, status, data) := Perform(v, op, fault);
      && (r.status == Success ==> r.vault == w && status == Success && r.data == data)
      && (r.status !in {Success, IoError} ==> r.vault == v)
      && (r.status !in {IoError, BadArgument} ==> r.status == status)
      && (r.status == IoError ==> !r.handle.open && (r.vault == v || r.vault == w))
      && r.status != Status.ProtocolError
      && (r.handle.open ==> r.unread == [])
      && S.Good(r.vault)
  {
    hide RequestPayload, RunSession, Answer, Perform, Over, Oversize, ReplySize, ReqFrame, S.Good;
    FailureHasNoEffect(v, op, fault);
    PerformKeepsGood(v, op, fault);
    if !h.open || RequestPayload(op).None? {
      RefusedCall(v, h, op, fault, ch);
    } else if ch.requestRoom < |ReqFrame(RequestOf(h, op))| {
      CutRequest(v, h, op, fault, ch);
    } else {
      SentRequest(v, h, op, fault, ch);
    }
  }

  /** With room enough on the channel, every call that is sent is answered, oversize gets excepted. */
  lemma CallIsAnswered(v: S.Vault, h: Handle, op: Operation, fault: S.Fault, ch: Channel)
    requires S.Good(v) && S.ValidFault(fault) && ValidHandle(h) && h.open && RequestPayload(op).Some?
    requires ch.requestRoom >= HEADER_SIZE + MAX_PAYLOAD && ch.replyRoom >= HEADER_SIZE + MAX_PAYLOAD
    ensures var r := Over(v, h, op, fault, ch); var (w, status, data) := Perform(v, op, fault);
      if Oversize(v, op) then r.status == IoError && r.vault == v && !r.handle.open
      else r.status == status && r.data == data && r.vault == w && r.handle.open
  {
    hide RequestPayload, RunSession, Answer, Perform, Over, ReplyFrame, HeaderBytes;
    PayloadFits(op);
    SentRequest(v, h, op, fault, ch);
    if ReplyFrame(Kind(op), h.nextId, Answer(v, Kind(op), RequestPayload(op).value, fault).1).Some? {
      SessionLaws.FrameSize(Kind(op), h.nextId, Answer(v, Kind(op), RequestPayload(op).value, fault).1);
    }
    if Oversize(v, op) { GetChangesNothing(v, op, fault); }
  }

  lemma GetChangesNothing(v: S.Vault, op: Operation, fault: S.Fault)
    requires op.Get?
    ensures Perform(v, op, fault).0 == v
  {}
}
