/** The client calls as functions of the bytes that arrive and of how many bytes the peer takes. */
module ClientSpec {
  import opened Bytes
  import opened Wire
  import opened Errors
  import opened Protocol
  import opened AbstractVault
  import SecretId

  /** What a handle remembers: whether its socket is open, and the identifier of the next request. */
  datatype Handle = Handle(open: bool, nextId: nat)

  const LAST_ID: nat := 0xFFFF_FFFF_FFFF_FFFF

  /** Request identifiers in use are never zero. */
  predicate ValidHandle(h: Handle) { 1 <= h.nextId <= LAST_ID }

  /** The 64-bit increment, with the wrap to zero skipped. */
  function Following(id: nat): nat {
    var next := (id + 1) % 0x1_0000_0000_0000_0000;
    if next == 0 then 1 else next
  }

  /** One exchange: the handle afterwards, the status, the response, what was sent and what is left unread. */
  datatype Exchange = Exchange(handle: Handle, status: Status, response: Option<Response>, sent: bytes, rest: bytes)

  function Disconnected(h: Handle): Handle { h.(open := false) }

  /** Reading the response to request `id` of type `kind`. */
  function ReadResponse(h: Handle, kind: nat, id: nat, frame: bytes, input: bytes): (x: Exchange)
    ensures x.sent == frame
  {
    if |input| < HEADER_SIZE then Exchange(Disconnected(h), IoError, None, frame, [])
    else
      var body := input[HEADER_SIZE..];
      match ParseHeader(input[..HEADER_SIZE])
      case None => Exchange(Disconnected(h), Status.ProtocolError, None, frame, body)
      case Some(header) =>
        if header.requestId != id || ResponseKind(kind) != Some(header.kind)
        then Exchange(Disconnected(h), Status.ProtocolError, None, frame, body)
        else if |body| < header.payloadSize then Exchange(Disconnected(h), IoError, None, frame, [])
        else
          var rest := body[header.payloadSize..];
          match ParseResponse(body[..header.payloadSize])
          case None => Exchange(Disconnected(h), Status.ProtocolError, None, frame, rest)
          case Some(r) => Exchange(h, r.status, Some(r), frame, rest)
  }

  /** `transact`. */
  function Transact(h: Handle, kind: nat, payload: bytes, input: bytes, room: nat): Exchange {
    if !h.open then Exchange(h, BadArgument, None, [], input)
    else
      var next := h.(nextId := Following(h.nextId));
      match FrameBytes(kind, h.nextId, payload)
      case None => Exchange(next, BadArgument, None, [], input)
      case Some(frame) =>
        if |frame| > room then Exchange(Disconnected(next), IoError, None, frame[..room], input)
        else ReadResponse(next, kind, h.nextId, frame, input)
  }

  // ---------------------------------------------------------------- the calls

  datatype Called = Called(handle: Handle, status: Status, data: Data, sent: bytes, rest: bytes)

  function Kind(op: Operation): (k: nat)
    ensures ResponseKind(k).Some?
  {
    match op
    case Ping => PING_REQUEST
    case Put(_, _) => PUT_REQUEST
    case Get(_) => GET_REQUEST
    case Remove(_) => REMOVE_REQUEST
    case List => LIST_REQUEST
    case Lock => LOCK_REQUEST
  }

  /** The request payload; None when the call refuses its arguments and sends nothing. */
  function RequestPayload(op: Operation): Option<bytes> {
    match op
    case Put(id, value) => if !SecretId.IsValid(id) then None else Accepted(PutRequestBytes(id, value))
    case Get(id) => if !SecretId.IsValid(id) then None else Accepted(IdRequestBytes(id))
    case Remove(id) => if !SecretId.IsValid(id) then None else Accepted(IdRequestBytes(id))
    case _ => Some([])
  }

  function Accepted(r: Result<bytes, Exception>): Option<bytes> {
    match r
    case Ok(payload) => Some(payload)
    case Err(_) => None
  }

  /** What a call makes of an exchange. */
  function Interpret(op: Operation, x: Exchange): (c: Called)
    ensures c.sent == x.sent && c.rest == x.rest
  {
    var plain := Called(x.handle, x.status, NoData, x.sent, x.rest);
    if x.status != Success || x.response.None? then plain
    else
      match op
      case Get(_) => plain.(data := Secret(x.response.value.data))
      case List =>
        (match ParseIdList(x.response.value.data)
         case Some(ids) => plain.(data := Ids(ids))
         case None => plain.(handle := Disconnected(x.handle), status := Status.ProtocolError))
      case _ => plain
  }

  /** A client call. */
  function Call(h: Handle, op: Operation, input: bytes, room: nat): Called {
    match RequestPayload(op)
    case None => Called(h, BadArgument, NoData, [], input)
    case Some(payload) => Interpret(op, Transact(h, Kind(op), payload, input, room))
  }

  // ---------------------------------------------------------------- what holds of every exchange

  /** Identifiers stay within 1 .. 2^64 - 1 for ever, across the wrap-around; a closed handle stays closed. */
  lemma CallKeepsHandle(h: Handle, op: Operation, input: bytes, room: nat)
    ensures ValidHandle(h) ==> ValidHandle(Call(h, op, input, room).handle)
    ensures Call(h, op, input, room).handle.open ==> h.open
    ensures |Call(h, op, input, room).sent| <= room
  {
    hide ParseHeader, ParseResponse, RequestPayload, ParseIdList, FrameBytes;
  }

  /** Every call that sends anything uses up its identifier: the next one is one more, and after the last comes 1. */
  lemma IdentifierAdvances(h: Handle, op: Operation, input: bytes, room: nat)
    requires ValidHandle(h)
    ensures var next := Call(h, op, input, room).handle.nextId;
      if h.open && RequestPayload(op).Some? then next == (if h.nextId == LAST_ID then 1 else h.nextId + 1)
      else next == h.nextId
    ensures Call(h, op, input, room).sent != [] ==> h.open && RequestPayload(op).Some?
  {
    hide ParseHeader, ParseResponse, RequestPayload, ParseIdList, FrameBytes;
  }

  /** What goes out is the frame of the request under the handle's identifier, or as much of it as there is room for. */
  lemma SentIsTheRequest(h: Handle, op: Operation, input: bytes, room: nat)
    requires h.open && RequestPayload(op).Some?
    ensures FrameBytes(Kind(op), h.nextId, RequestPayload(op).value).Some?
    ensures var frame := FrameBytes(Kind(op), h.nextId, RequestPayload(op).value).value;
      Call(h, op, input, room).sent == frame[..Min(room, |frame|)]
  {
    hide ReadResponse, RequestPayload, ParseIdList, HeaderBytes;
    PayloadFits(op);
    var frame := FrameBytes(Kind(op), h.nextId, RequestPayload(op).value).value;
    assert frame[..|frame|] == frame;
  }

  /** The arguments a call accepts: valid identifiers, and for a put what fits a payload of 1 MiB. */
  lemma AcceptsExactly(op: Operation)
    ensures RequestPayload(op).Some? <==>
      match op
      case Put(id, value) => SecretId.IsValid(id) && 8 + |id| + |value| <= 0x10_0000
      case Get(id) => SecretId.IsValid(id)
      case Remove(id) => SecretId.IsValid(id)
      case _ => true
  {
    hide SecretId.IsValid, PutRequestBytes, IdRequestBytes;
    match op
    case Put(id, value) => PutRequestExact([], id, value);
    case Get(id) => IdRequestExact([], id);
    case Remove(id) => IdRequestExact([], id);
    case _ =>
  }

  /** What a call sends depends on the handle and the room only, not on what arrives. */
  lemma SentBeforeReading(h: Handle, op: Operation, input: bytes, other: bytes, room: nat)
    ensures Call(h, op, input, room).sent == Call(h, op, other, room).sent
  {
    hide ReadResponse, RequestPayload, ParseIdList, FrameBytes;
  }

  lemma AcceptedIsAFrame(h: Handle, kind: nat, id: u64, sent: bytes, input: bytes) returns (payload: bytes)
    requires ResponseKind(kind).Some? && ReadResponse(h, kind, id, sent, input).response.Some?
    ensures var x := ReadResponse(h, kind, id, sent, input);
      IsResponseFrame(ResponseKind(kind).value, id, payload, x.response.value, x.rest, input)
  {
    hide ParseHeader, ParseResponse, HeaderBytes, ResponseKind;
    var header := ParseHeader(input[..HEADER_SIZE]).value;
    HeaderExact(input[..HEADER_SIZE], header);
    payload := input[HEADER_SIZE..][..header.payloadSize];
    assert input == input[..HEADER_SIZE] + (payload + input[HEADER_SIZE..][header.payloadSize..]);
  }

  lemma FrameIsAccepted(
    h: Handle, kind: nat, id: u64, sent: bytes, input: bytes, payload: bytes, response: Response, rest: bytes)
    requires ResponseKind(kind).Some? && IsResponseFrame(ResponseKind(kind).value, id, payload, response, rest, input)
    ensures var x := ReadResponse(h, kind, id, sent, input); x.response == Some(response) && x.rest == rest
  {
    hide ParseHeader, ParseResponse, HeaderBytes, ResponseKind;
    var header := Header(ResponseKind(kind).value, id, |payload|);
    KindFits(kind);
    HeaderExact(HeaderBytes(header), header);
    assert input == HeaderBytes(header) + (payload + rest);
    assert input[..HEADER_SIZE] == HeaderBytes(header) && input[HEADER_SIZE..] == payload + rest;
    assert (payload + rest)[..|payload|] == payload && (payload + rest)[|payload|..] == rest;
  }

  /**
   A response is accepted, from any peer whatever, exactly when the stream begins with a frame of the
   matching type and identifier around a well-formed response; exactly that frame is consumed.
   */
  lemma AcceptedExactly(h: Handle, kind: nat, id: u64, sent: bytes, input: bytes, response: Response, rest: bytes)
    requires ResponseKind(kind).Some?
    ensures var x := ReadResponse(h, kind, id, sent, input);
      x.response == Some(response) && x.rest == rest
      <==> exists payload :: IsResponseFrame(ResponseKind(kind).value, id, payload, response, rest, input)
  {
    hide ReadResponse, IsResponseFrame, ResponseKind;
    var x := ReadResponse(h, kind, id, sent, input);
    if x.response == Some(response) && x.rest == rest {
      var payload := AcceptedIsAFrame(h, kind, id, sent, input);
    }
    if payload :| IsResponseFrame(ResponseKind(kind).value, id, payload, response, rest, input) {
      FrameIsAccepted(h, kind, id, sent, input, payload, response, rest);
    }
  }

  /** The request of a call fits a frame. */
  lemma PayloadFits(op: Operation)
    requires RequestPayload(op).Some?
    ensures |RequestPayload(op).value| <= MAX_PAYLOAD
  {
    hide SecretId.IsValid;
  }

  /** The input begins with a response frame that the call is content with. */
  ghost predicate IsContent(op: Operation, id: nat, response: Response, rest: bytes, input: bytes) {
    && (exists payload :: IsResponseFrame(ResponseKind(Kind(op)).value, id, payload, response, rest, input))
    && (op.List? && response.status == Success ==> ParseIdList(response.data).Some?)
  }

  /**
   A call on an open handle closes it, whatever the peer sends, exactly when its request does not get
   through, or the input does not begin with a matching well-formed response, or a successful listing
   is malformed.  It then reports an I/O or protocol error; but so does a response that carries one of
   these statuses, and that leaves the handle open.
   */
  lemma DisconnectsExactly(h: Handle, op: Operation, input: bytes, room: nat)
    requires ValidHandle(h) && h.open && RequestPayload(op).Some?
    ensures FrameBytes(Kind(op), h.nextId, RequestPayload(op).value).Some?
    ensures var frame := FrameBytes(Kind(op), h.nextId, RequestPayload(op).value).value;
      var c := Call(h, op, input, room);
      && (!c.handle.open
          <==> |frame| > room || !exists response, rest :: IsContent(op, h.nextId, response, rest, input))
      && (!c.handle.open ==> c.status in {IoError, Status.ProtocolError} && c.data == NoData)
      && (|frame| <= room ==> forall response, rest ::
            IsContent(op, h.nextId, response, rest, input) ==>
            c.status == response.status && c.handle == h.(nextId := Following(h.nextId)) && c.rest == rest)
  {
    hide ReadResponse, RequestPayload, ParseIdList, IsContent, ParseResponse, HeaderBytes;
    PayloadFits(op);
    var next := h.(nextId := Following(h.nextId));
    var frame := FrameBytes(Kind(op), h.nextId, RequestPayload(op).value).value;
    if |frame| <= room {
      var x := ReadResponse(next, Kind(op), h.nextId, frame, input);
      ResponseOrNot(next, Kind(op), h.nextId, frame, input);
      forall response, rest
        ensures IsContent(op, h.nextId, response, rest, input)
          <==> x.response == Some(response) && x.rest == rest
               && (op.List? && response.status == Success ==> ParseIdList(response.data).Some?)
      {
        ContentIsAccepted(next, op, h.nextId, frame, input, response, rest);
      }
      if x.response.Some? { ContentIsAccepted(next, op, h.nextId, frame, input, x.response.value, x.rest); }
    }
  }

  lemma ContentIsAccepted(h: Handle, op: Operation, id: u64, sent: bytes, input: bytes, response: Response, rest: bytes)
    ensures var x := ReadResponse(h, Kind(op), id, sent, input);
      IsContent(op, id, response, rest, input)
      <==> x.response == Some(response) && x.rest == rest
           && (op.List? && response.status == Success ==> ParseIdList(response.data).Some?)
  {
    hide ReadResponse, ParseIdList, IsResponseFrame;
    AcceptedExactly(h, Kind(op), id, sent, input, response, rest);
  }

  /** The stream ends before the response that its header announces, or before the header. */
  predicate EndsEarly(kind: nat, id: nat, input: bytes) {
    |input| < 24 ||
    exists size | 0 <= size <= 0x10_0000 ::
      |input| < 24 + size && ResponseKind(kind).Some? && IsFrameHeader(input[..24], ResponseKind(kind).value, id, size)
  }

  /** Of the two, it is the I/O error exactly when the request does not get through or the stream ends early. */
  lemma DisconnectStatusExactly(h: Handle, op: Operation, input: bytes, room: nat)
    requires ValidHandle(h) && h.open && RequestPayload(op).Some? && !Call(h, op, input, room).handle.open
    ensures FrameBytes(Kind(op), h.nextId, RequestPayload(op).value).Some?
    ensures var frame := FrameBytes(Kind(op), h.nextId, RequestPayload(op).value).value;
      Call(h, op, input, room).status == IoError <==> |frame| > room || EndsEarly(Kind(op), h.nextId, input)
  {
    hide RequestPayload, ParseIdList, ParseResponse, HeaderBytes, IsFrameHeader, ParseHeader, EndsEarly, ResponseKind;
    PayloadFits(op);
    EndsEarlyExactly(Kind(op), h.nextId, input);
  }

  lemma EndsEarlyExactly(kind: nat, id: nat, input: bytes)
    requires ResponseKind(kind).Some?
    ensures EndsEarly(kind, id, input)
       <==> |input| < HEADER_SIZE ||
            match ParseHeader(input[..HEADER_SIZE])
            case None => false
            case Some(h) =>
              h.requestId == id && ResponseKind(kind) == Some(h.kind) && |input| < HEADER_SIZE + h.payloadSize
  {
    hide IsFrameHeader, ParseHeader, ResponseKind;
    if |input| >= HEADER_SIZE {
      var head := input[..HEADER_SIZE];
      forall size: nat
        ensures IsFrameHeader(head, ResponseKind(kind).value, id, size)
           <==> ParseHeader(head) == Some(Header(ResponseKind(kind).value, id, size))
      {
        HeaderLayout(head, Header(ResponseKind(kind).value, id, size));
      }
      if ParseHeader(head).Some? { ParsedHeaderFits(head); }
    }
  }

  /** Reading gives a response with its own status, or gives up with one of two. */
  lemma ResponseOrNot(h: Handle, kind: nat, id: nat, sent: bytes, input: bytes)
    ensures var x := ReadResponse(h, kind, id, sent, input);
      match x.response
      case Some(r) => x.handle == h && x.status == r.status
      case None => x.handle == Disconnected(h) && x.status in {IoError, Status.ProtocolError}
  {
    hide ParseHeader, ParseResponse, ResponseKind;
  }

  /** So an I/O error need not mean that the handle is closed: here a peer answers a ping with that status. */
  lemma IoErrorOnTheWire(h: Handle)
    requires ValidHandle(h) && h.open
    ensures ResponseBytes(Response(IoError, [], [])).Ok?
    ensures var payload := ResponseBytes(Response(IoError, [], [])).value;
      && FrameBytes(ResponseKind(PING_REQUEST).value, h.nextId, payload).Some?
      && var c := Call(h, Ping, FrameBytes(ResponseKind(PING_REQUEST).value, h.nextId, payload).value, HEADER_SIZE);
         c.status == IoError && c.handle.open
  {
    hide ParseResponse, HeaderBytes, Transact, IsContent;
    var r := Response(IoError, [], []);
    ResponseExact([], r);
    var payload := ResponseBytes(r).value;
    ResponseExact(payload, r);
    var input := FrameBytes(ResponseKind(PING_REQUEST).value, h.nextId, payload).value;
    assert input == input + [];
    assert IsResponseFrame(ResponseKind(PING_REQUEST).value, h.nextId, payload, r, [], input);
    assert IsContent(Ping, h.nextId, r, [], input) by { PingIsContent(h.nextId, payload, r, input); }
    DisconnectsExactly(h, Ping, input, HEADER_SIZE);
  }

  lemma PingIsContent(id: nat, payload: bytes, response: Response, input: bytes)
    requires IsResponseFrame(ResponseKind(PING_REQUEST).value, id, payload, response, [], input)
    ensures IsContent(Ping, id, response, [], input)
  {
    hide IsResponseFrame;
    assert IsResponseFrame(ResponseKind(Kind(Ping)).value, id, payload, response, [], input);
  }

  /** A call on a closed handle, or with arguments it refuses, does nothing. */
  lemma RefusalDoesNothing(h: Handle, op: Operation, input: bytes, room: nat)
    requires !h.open || RequestPayload(op).None?
    ensures Call(h, op, input, room) == Called(h, BadArgument, NoData, [], input)
  {
    hide RequestPayload, ReadResponse, FrameBytes;
  }

  ghost predicate IsResponseFrame(kind: nat, id: nat, payload: bytes, response: Response, rest: bytes, input: bytes) {
    && FrameBytes(kind, id, payload).Some? && input == FrameBytes(kind, id, payload).value + rest
    && ParseResponse(payload) == Some(response)
  }
}
