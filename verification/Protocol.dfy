/** Wire protocol v1 on byte strings: what each encoder produces and what each decoder accepts. */
module Protocol {
  import opened Bytes
  import opened Wire
  import opened Errors
  import SecretId

  const VERSION: nat := 1
  const HEADER_SIZE: nat := 24
  const MAX_PAYLOAD: nat := 0x10_0000
  const MAX_SECRET_COUNT: nat := 10000
  const MAX_DIAGNOSTIC: nat := 0x1_0000
  const MAGIC: bytes := [0x5A, 0x56, 0x4C, 0x54]

  const PING_REQUEST: nat := 1
  const PUT_REQUEST: nat := 3
  const GET_REQUEST: nat := 5
  const REMOVE_REQUEST: nat := 7
  const LOCK_REQUEST: nat := 9
  const LIST_REQUEST: nat := 11

  /** `response_type`: each request type's response type; anything else is not a request. */
  function ResponseKind(kind: nat): Option<nat> {
    if kind == PING_REQUEST then Some(2)
    else if kind == PUT_REQUEST then Some(4)
    else if kind == GET_REQUEST then Some(6)
    else if kind == REMOVE_REQUEST then Some(8)
    else if kind == LOCK_REQUEST then Some(10)
    else if kind == LIST_REQUEST then Some(12)
    else None
  }

  lemma KindFits(kind: nat)
    requires ResponseKind(kind).Some?
    ensures kind < 0x1_0000 && ResponseKind(kind).value < 0x1_0000
  {}

  // ---------------------------------------------------------------- frames

  datatype Header = Header(kind: nat, requestId: nat, payloadSize: nat) {
    /** The fields fit the widths they have on the wire. */
    predicate Fits() {
      kind < 0x1_0000 && requestId < 0x1_0000_0000_0000_0000 && payloadSize <= MAX_PAYLOAD
    }
  }

  function HeaderBytes(h: Header): (b: bytes)
    ensures |b| == HEADER_SIZE
  {
    MAGIC + (LittleEndian(VERSION, 2) + (LittleEndian(h.kind, 2) + (LittleEndian(h.requestId, 8)
    + (LittleEndian(h.payloadSize, 4) + LittleEndian(0, 4)))))
  }

  function ParseHeader(b: bytes): Option<Header> {
    if |b| != HEADER_SIZE then None else
    var magic :- TakeBytes(b, 4);
    var version :- TakeUint(magic.rest, 2);
    var kind :- TakeUint(version.rest, 2);
    var id :- TakeUint(kind.rest, 8);
    var size :- TakeUint(id.rest, 4);
    var reserved :- TakeUint(size.rest, 4);
    if magic.value != MAGIC || version.value != VERSION || reserved.value != 0
       || size.value > MAX_PAYLOAD then None
    else Some(Header(kind.value, id.value, size.value))
  }

  /** A complete frame; a payload above the limit is refused. */
  function FrameBytes(kind: nat, requestId: nat, payload: bytes): Option<bytes> {
    if |payload| > MAX_PAYLOAD then None
    else Some(HeaderBytes(Header(kind, requestId, |payload|)) + payload)
  }

  lemma HeaderRead(b: bytes)
    requires ParseHeader(b).Some?
    ensures b == HeaderBytes(ParseHeader(b).value)
  {
    hide LittleEndian, FromLittleEndian, Power256;
    PowerValues();
    ParsedHeaderFits(b);
    var h := ParseHeader(b).value;
    var rest := b[4..];
    var version := TakeUint(rest, 2).value;
    var kind := TakeUint(version.rest, 2).value;
    var id := TakeUint(kind.rest, 8).value;
    var size := TakeUint(id.rest, 4).value;
    var reserved := TakeUint(size.rest, 4).value;
    TakeUintExact(size.rest, 4, 0, reserved.rest);
    assert reserved.rest == [];
    TakeUintExact(id.rest, 4, h.payloadSize, size.rest);
    TakeUintExact(kind.rest, 8, h.requestId, id.rest);
    TakeUintExact(version.rest, 2, h.kind, kind.rest);
    TakeUintExact(rest, 2, VERSION, version.rest);
    assert b == MAGIC + rest;
  }

  lemma HeaderWritten(h: Header)
    requires h.Fits()
    ensures ParseHeader(HeaderBytes(h)) == Some(h)
  {
    hide LittleEndian, FromLittleEndian, Power256;
    PowerValues();
    var r5 := LittleEndian(0, 4);
    var r4 := LittleEndian(h.payloadSize, 4) + r5;
    var r3 := LittleEndian(h.requestId, 8) + r4;
    var r2 := LittleEndian(h.kind, 2) + r3;
    var r1 := LittleEndian(VERSION, 2) + r2;
    var b := HeaderBytes(h);
    assert b[..4] == MAGIC && b[4..] == r1;
    TakeUintExact(r1, 2, VERSION, r2);
    TakeUintExact(r2, 2, h.kind, r3);
    TakeUintExact(r3, 8, h.requestId, r4);
    TakeUintExact(r4, 4, h.payloadSize, r5);
    assert r5 == r5 + [];
    TakeUintExact(r5, 4, 0, []);
  }

  /** The header decoder accepts exactly the headers the encoder writes, with the fields it wrote. */
  lemma HeaderExact(b: bytes, h: Header)
    ensures ParseHeader(b) == Some(h) <==> h.Fits() && b == HeaderBytes(h)
  {
    hide HeaderBytes;
    if ParseHeader(b).Some? {
      HeaderRead(b);
      ParsedHeaderFits(b);
    }
    if h.Fits() { HeaderWritten(h); }
  }

  lemma ParsedHeaderFits(b: bytes)
    requires ParseHeader(b).Some?
    ensures ParseHeader(b).value.Fits()
  {
    PowerValues();
    LittleEndianBytes(b[4..][2..][..2]);
    LittleEndianBytes(b[4..][2..][2..][..8]);
  }

  /** Frames are uniquely readable from a stream: no frame is a prefix of another one. */
  lemma FramePrefixFree(k1: u16, id1: u64, p1: bytes, rest1: bytes, k2: u16, id2: u64, p2: bytes, rest2: bytes)
    requires |p1| <= MAX_PAYLOAD && |p2| <= MAX_PAYLOAD
    requires FrameBytes(k1, id1, p1).value + rest1 == FrameBytes(k2, id2, p2).value + rest2
    ensures k1 == k2 && id1 == id2 && p1 == p2 && rest1 == rest2
  {
    hide HeaderBytes, ParseHeader;
    var h1, h2 := Header(k1, id1, |p1|), Header(k2, id2, |p2|);
    var stream := FrameBytes(k1, id1, p1).value + rest1;
    assert stream == HeaderBytes(h1) + (p1 + rest1) == HeaderBytes(h2) + (p2 + rest2);
    assert stream[..HEADER_SIZE] == HeaderBytes(h1) && stream[..HEADER_SIZE] == HeaderBytes(h2);
    HeaderExact(HeaderBytes(h1), h1);
    HeaderExact(HeaderBytes(h1), h2);
    assert stream[HEADER_SIZE..] == p1 + rest1 && stream[HEADER_SIZE..] == p2 + rest2;
    assert p1 == (p1 + rest1)[..|p1|] && p2 == (p2 + rest2)[..|p1|];
    assert rest1 == (p1 + rest1)[|p1|..] && rest2 == (p2 + rest2)[|p1|..];
  }

  // ---------------------------------------------------------------- the documented layout

  /** Request types are the odd numbers up to 11; the response to each is the number after it. */
  lemma RequestsAreOdd(kind: nat, response: nat)
    ensures ResponseKind(kind) == Some(response) <==> kind % 2 == 1 && kind <= 11 && response == kind + 1
  {}

  /** A frame header by its offsets: ZVLT, version 1, type, identifier, size, four zeros. */
  predicate IsFrameHeader(b: bytes, kind: nat, requestId: nat, size: nat) {
    && |b| == 24
    && b[..6] == [0x5A, 0x56, 0x4C, 0x54, 1, 0]
    && TwoBytes(b[6], b[7]) == kind
    && EightBytes(b[8..16]) == requestId
    && FourBytes(b[16], b[17], b[18], b[19]) == size <= 0x10_0000
    && b[20..] == [0, 0, 0, 0]
  }

  lemma HeaderLayout(b: bytes, h: Header)
    ensures ParseHeader(b) == Some(h) <==> IsFrameHeader(b, h.kind, h.requestId, h.payloadSize)
  {
    hide FromLittleEndian, LittleEndian, FourBytes, TwoBytes;
    if |b| == HEADER_SIZE {
      HeaderSlices(b);
      FixedWidths(b[4..6]);
      FixedWidths(b[6..8]);
      FixedWidths(b[8..16]);
      FixedWidths(b[16..20]);
      FixedWidths(b[20..24]);
      VersionBytes(b);
      ReservedBytes(b);
    }
  }

  lemma HeaderSlices(b: bytes)
    requires |b| == 24
    ensures b[4..][..2] == b[4..6] && b[4..][2..][..2] == b[6..8] && b[4..][2..][2..][..8] == b[8..16]
    ensures b[4..][2..][2..][8..][..4] == b[16..20] && b[4..][2..][2..][8..][4..][..4] == b[20..24]
    ensures b[..6] == b[..4] + b[4..6] && b[20..24] == b[20..]
  {
    assert b[4..][2..] == b[6..] && b[6..][2..] == b[8..] && b[8..][8..] == b[16..] && b[16..][4..] == b[20..];
  }

  lemma VersionBytes(b: bytes)
    requires |b| == 24
    ensures b[..4] == MAGIC && TwoBytes(b[4], b[5]) == VERSION <==> b[..6] == [0x5A, 0x56, 0x4C, 0x54, 1, 0]
  {
    assert b[..6] == b[..4] + [b[4], b[5]];
  }

  lemma ReservedBytes(b: bytes)
    requires |b| == 24
    ensures FourBytes(b[20], b[21], b[22], b[23]) == 0 <==> b[20..] == [0, 0, 0, 0]
  {
    assert b[20..] == [b[20], b[21], b[22], b[23]];
  }

  // ---------------------------------------------------------------- identifier and put requests

  function TooLargePayload(): Exception { LengthError(PayloadTooLarge) }

  /** `encode_payload`: a closure's output, or a length error. */
  function Payload(c: Closure): Result<bytes, Exception> {
    match TwoPass(c, MAX_PAYLOAD)
    case Some(p) => Ok(p)
    case None => Err(TooLargePayload())
  }

  function IdRequestBytes(id: bytes): Result<bytes, Exception> {
    if !SecretId.IsValid(id) then Err(InvalidArgument(BadIdentifier))
    else Payload(SizedSteps(id))
  }

  function ParseIdRequest(payload: bytes): Option<bytes> {
    var id :- TakeSized(payload, SecretId.MAX_ID_SIZE);
    if !SecretId.IsValid(id.value) || id.rest != [] then None else Some(id.value)
  }

  /** Identifier requests: decoding and encoding are inverse in both directions, on all inputs. */
  lemma IdRequestExact(payload: bytes, id: bytes)
    ensures ParseIdRequest(payload) == Some(id) <==> IdRequestBytes(id) == Ok(payload)
    ensures SecretId.IsValid(id) <==> IdRequestBytes(id).Ok?
  {
    hide LittleEndian, FromLittleEndian, Power256;
    SizedStepsOutput(id);
    assert Sized(id) == Sized(id) + [];
    TakeSizedExact(payload, SecretId.MAX_ID_SIZE, id, []);
  }

  lemma IdRequestLayout(payload: bytes, id: bytes)
    ensures IdRequestBytes(id) == Ok(payload) <==> SecretId.IsValid(id) && IsSized(payload, id)
  {
    hide IsSized, SecretId.IsValid;
    IdRequestExact(payload, id);
    SizedStepsOutput(id);
    if SecretId.IsValid(id) {
      ValidIdIsShort(id);
      SizedLayout(payload, id);
    }
  }

  lemma ValidIdIsShort(id: bytes)
    requires SecretId.IsValid(id)
    ensures 1 <= |id| <= 63
  {}

  function PutSteps(id: bytes, value: bytes): Closure { SizedSteps(id) + SizedSteps(value) }

  function PutRequestBytes(id: bytes, value: bytes): Result<bytes, Exception> {
    if !SecretId.IsValid(id) || |value| > MAX_PAYLOAD
    then Err(InvalidArgument(BadPutSize))
    else Payload(PutSteps(id, value))
  }

  function ParsePutRequest(payload: bytes): Option<(bytes, bytes)> {
    var id :- TakeSized(payload, SecretId.MAX_ID_SIZE);
    if !SecretId.IsValid(id.value) then None else
    var value :- TakeSized(id.rest, MAX_PAYLOAD);
    if value.rest != [] then None else Some((id.value, value.value))
  }

  lemma PutStepsOutput(id: bytes, value: bytes)
    requires |id| <= U32_MAX && |value| <= U32_MAX
    ensures Passes(PutSteps(id, value)) && Output(PutSteps(id, value)) == Sized(id) + Sized(value)
  {
    SizedStepsOutput(id);
    SizedStepsOutput(value);
    OutputAppend(SizedSteps(id), SizedSteps(value));
  }

  /**
   Put requests: a payload that can travel decodes to (id, value) exactly when it is their encoding,
   and the pairs that can be encoded are exactly those with |id| + |value| + 8 within the limit.
   */
  lemma PutRequestExact(payload: bytes, id: bytes, value: bytes)
    ensures ParsePutRequest(payload) == Some((id, value)) && |payload| <= MAX_PAYLOAD
       <==> PutRequestBytes(id, value) == Ok(payload)
    ensures PutRequestBytes(id, value).Ok?
       <==> SecretId.IsValid(id) && |id| + |value| + 8 <= MAX_PAYLOAD
  {
    hide LittleEndian, FromLittleEndian, Power256;
    if SecretId.IsValid(id) && |value| <= MAX_PAYLOAD { PutStepsOutput(id, value); }
    TakeSizedExact(payload, SecretId.MAX_ID_SIZE, id, Sized(value));
    assert Sized(value) == Sized(value) + [];
    TakeSizedExact(Sized(value), MAX_PAYLOAD, value, []);
    match TakeSized(payload, SecretId.MAX_ID_SIZE)
    case Some(r) =>
      TakeSizedExact(r.rest, MAX_PAYLOAD, value, []);
      TakeSizedExact(payload, SecretId.MAX_ID_SIZE, r.value, r.rest);
    case None =>
  }

  /** The payload of a put: the identifier, then the value, each with its length. */
  lemma PutRequestLayout(payload: bytes, id: bytes, value: bytes)
    requires |payload| == 8 + |id| + |value|
    ensures PutRequestBytes(id, value) == Ok(payload)
       <==> && SecretId.IsValid(id) && |payload| <= 0x10_0000
            && IsSized(payload[..4 + |id|], id) && IsSized(payload[4 + |id|..], value)
  {
    hide IsSized, SecretId.IsValid, LittleEndian;
    PutRequestExact(payload, id, value);
    if SecretId.IsValid(id) && |payload| <= 0x10_0000 {
      PutStepsOutput(id, value);
      SizedLayout(payload[..4 + |id|], id);
      SizedLayout(payload[4 + |id|..], value);
      assert payload == payload[..4 + |id|] + payload[4 + |id|..];
    }
  }

  // ---------------------------------------------------------------- responses

  datatype Response = Response(status: Status, diagnostic: bytes, data: bytes)

  function ResponseSteps(r: Response): Closure {
    [Uint(Code(r.status), 4)] + (SizedSteps(r.diagnostic) + SizedSteps(r.data))
  }

  function ResponseBytes(r: Response): Result<bytes, Exception> {
    if |r.diagnostic| > MAX_DIAGNOSTIC || |r.data| > MAX_PAYLOAD
    then Err(InvalidArgument(BadResponseSize))
    else Payload(ResponseSteps(r))
  }

  function ParseResponse(payload: bytes): Option<Response> {
    var code :- TakeUint(payload, 4);
    var diagnostic :- TakeSized(code.rest, MAX_DIAGNOSTIC);
    var data :- TakeSized(diagnostic.rest, MAX_PAYLOAD);
    if data.rest != [] then None else
    var status :- FromCode(code.value);
    Some(Response(status, diagnostic.value, data.value))
  }

  function ResponseText(r: Response): (b: bytes)
    ensures |b| == 12 + |r.diagnostic| + |r.data|
  {
    LittleEndian(Code(r.status), 4) + (Sized(r.diagnostic) + Sized(r.data))
  }

  lemma ResponseStepsOutput(r: Response)
    requires |r.diagnostic| <= U32_MAX && |r.data| <= U32_MAX
    ensures Passes(ResponseSteps(r)) && Output(ResponseSteps(r)) == ResponseText(r)
  {
    var code := Uint(Code(r.status), 4);
    OutputOne(code);
    PutStepsOutput(r.diagnostic, r.data);
    OutputAppend([code], PutSteps(r.diagnostic, r.data));
  }

  lemma ResponseTextExact(payload: bytes, r: Response)
    requires |r.diagnostic| <= MAX_DIAGNOSTIC && |r.data| <= MAX_PAYLOAD
    ensures ParseResponse(payload) == Some(r) <==> payload == ResponseText(r)
  {
    hide LittleEndian, FromLittleEndian, Power256;
    PowerValues();
    var tail := Sized(r.diagnostic) + Sized(r.data);
    assert Sized(r.data) == Sized(r.data) + [];
    if payload == ResponseText(r) {
      TakeUintExact(payload, 4, Code(r.status), tail);
      TakeSizedExact(tail, MAX_DIAGNOSTIC, r.diagnostic, Sized(r.data));
      TakeSizedExact(Sized(r.data), MAX_PAYLOAD, r.data, []);
      assert FromCode(Code(r.status)) == Some(r.status);
    }
    if ParseResponse(payload) == Some(r) {
      var code := TakeUint(payload, 4).value;
      var diagnostic := TakeSized(code.rest, MAX_DIAGNOSTIC).value;
      TakeSizedExact(diagnostic.rest, MAX_PAYLOAD, r.data, []);
      TakeSizedExact(code.rest, MAX_DIAGNOSTIC, r.diagnostic, diagnostic.rest);
      TakeUintExact(payload, 4, code.value, code.rest);
    }
  }

  /**
   Responses: a payload that can travel decodes to a response exactly when it is its encoding, and
   the encodable responses are exactly those with |diagnostic| + |data| + 12 within the limit.
   */
  lemma ResponseExact(payload: bytes, r: Response)
    ensures ParseResponse(payload) == Some(r) && |payload| <= MAX_PAYLOAD <==> ResponseBytes(r) == Ok(payload)
    ensures ResponseBytes(r).Ok?
       <==> |r.diagnostic| <= MAX_DIAGNOSTIC && |r.diagnostic| + |r.data| + 12 <= MAX_PAYLOAD
  {
    if |r.diagnostic| <= MAX_DIAGNOSTIC && |r.data| <= MAX_PAYLOAD {
      ResponseStepsOutput(r);
      ResponseTextExact(payload, r);
    }
  }

  /** The payload of a response: the status as a number, then the diagnostic and the data with their lengths. */
  lemma ResponseLayout(payload: bytes, r: Response)
    requires |payload| == 12 + |r.diagnostic| + |r.data| <= 0x10_0000 && |r.diagnostic| <= 0x1_0000
    ensures ResponseBytes(r) == Ok(payload)
       <==> && FourBytes(payload[0], payload[1], payload[2], payload[3]) == Code(r.status)
            && IsSized(payload[4..8 + |r.diagnostic|], r.diagnostic)
            && IsSized(payload[8 + |r.diagnostic|..], r.data)
  {
    hide IsSized, LittleEndian, FromLittleEndian, FourBytes;
    PowerValues();
    var middle := 8 + |r.diagnostic|;
    ResponseExact(payload, r);
    ResponseStepsOutput(r);
    SizedLayout(payload[4..middle], r.diagnostic);
    SizedLayout(payload[middle..], r.data);
    FixedWidths(payload[..4]);
    TakeUintExact(payload, 4, Code(r.status), payload[4..]);
    assert payload[4..] == payload[4..middle] + payload[middle..];
    if payload == ResponseText(r) {
      assert payload[4..] == Sized(r.diagnostic) + Sized(r.data);
      assert payload[4..middle] == Sized(r.diagnostic) && payload[middle..] == Sized(r.data);
    }
  }

  // ---------------------------------------------------------------- identifier lists

  /** Valid, and in strictly increasing order after `previous`. */
  predicate Increasing(ids: seq<bytes>, previous: Option<bytes>) {
    ids == []
    || (IdFollows(previous, ids[0]) && Increasing(ids[1..], Some(ids[0])))
  }

  predicate IdFollows(previous: Option<bytes>, id: bytes) {
    SecretId.IsValid(id) && (previous.Some? ==> Below(previous.value, id))
  }

  function Names(ids: seq<bytes>): bytes {
    if ids == [] then [] else Sized(ids[0]) + Names(ids[1..])
  }

  /** The loop of `encode_id_list`: each identifier is tested, then written. */
  function IdSteps(ids: seq<bytes>, previous: Option<bytes>): Closure {
    if ids == [] then []
    else [Check(IdFollows(previous, ids[0]))] + (SizedSteps(ids[0]) + IdSteps(ids[1..], Some(ids[0])))
  }

  function IdListSteps(ids: seq<bytes>): Closure { [Uint(|ids|, 4)] + IdSteps(ids, None) }

  function IdListBytes(ids: seq<bytes>): Result<bytes, Exception> {
    if |ids| > MAX_SECRET_COUNT
    then Err(InvalidArgument(TooManyIdentifiers))
    else Payload(IdListSteps(ids))
  }

  /** The loop of `decode_id_list`. */
  function ParseIds(n: nat, b: bytes, previous: Option<bytes>): Option<Read<seq<bytes>>> {
    if n == 0 then Some(Read([], b)) else
    var id :- TakeSized(b, SecretId.MAX_ID_SIZE);
    if !IdFollows(previous, id.value) then None else
    var others :- ParseIds(n - 1, id.rest, Some(id.value));
    Some(Read([id.value] + others.value, others.rest))
  }

  function ParseIdList(payload: bytes): Option<seq<bytes>> {
    var count :- TakeUint(payload, 4);
    if count.value > MAX_SECRET_COUNT then None else
    var ids :- ParseIds(count.value, count.rest, None);
    if ids.rest != [] then None else Some(ids.value)
  }

  lemma {:induction false} IdStepsOutput(ids: seq<bytes>, previous: Option<bytes>)
    ensures Passes(IdSteps(ids, previous)) <==> Increasing(ids, previous)
    ensures Output(IdSteps(ids, previous)) == Names(ids)
  {
    if ids != [] {
      var check := Check(IdFollows(previous, ids[0]));
      var tail := IdSteps(ids[1..], Some(ids[0]));
      IdStepsOutput(ids[1..], Some(ids[0]));
      SizedStepsOutput(ids[0]);
      OutputAppend(SizedSteps(ids[0]), tail);
      OutputOne(check);
      OutputAppend([check], SizedSteps(ids[0]) + tail);
    }
  }

  lemma {:induction false} NamesBound(ids: seq<bytes>, previous: Option<bytes>)
    requires Increasing(ids, previous)
    ensures |Names(ids)| <= 67 * |ids|
  {
    if ids != [] { NamesBound(ids[1..], Some(ids[0])); }
  }

  lemma NamesCons(id: bytes, ids: seq<bytes>, previous: Option<bytes>, rest: bytes)
    ensures Names([id] + ids) + rest == Sized(id) + (Names(ids) + rest)
    ensures Increasing([id] + ids, previous) <==> IdFollows(previous, id) && Increasing(ids, Some(id))
  {
    assert ([id] + ids)[1..] == ids;
  }

  lemma {:induction false} ParseIdsSound(n: nat, b: bytes, previous: Option<bytes>)
    requires ParseIds(n, b, previous).Some?
    ensures var r := ParseIds(n, b, previous).value;
      |r.value| == n && Increasing(r.value, previous) && b == Names(r.value) + r.rest
  {
    if n > 0 {
      var id := TakeSized(b, SecretId.MAX_ID_SIZE).value;
      ParseIdsSound(n - 1, id.rest, Some(id.value));
      var others := ParseIds(n - 1, id.rest, Some(id.value)).value;
      NamesCons(id.value, others.value, previous, others.rest);
      TakeSizedExact(b, SecretId.MAX_ID_SIZE, id.value, id.rest);
    }
  }

  lemma {:induction false} ParseIdsComplete(ids: seq<bytes>, previous: Option<bytes>, rest: bytes)
    requires Increasing(ids, previous)
    ensures ParseIds(|ids|, Names(ids) + rest, previous) == Some(Read(ids, rest))
  {
    if ids == [] {
      assert Names(ids) + rest == rest;
    } else {
      var tail := Names(ids[1..]) + rest;
      assert Names(ids) + rest == Sized(ids[0]) + tail;
      TakeSizedExact(Names(ids) + rest, SecretId.MAX_ID_SIZE, ids[0], tail);
      ParseIdsComplete(ids[1..], Some(ids[0]), rest);
      assert ids == [ids[0]] + ids[1..];
    }
  }

  lemma ParseIdsExact(n: nat, b: bytes, previous: Option<bytes>, ids: seq<bytes>, rest: bytes)
    ensures ParseIds(n, b, previous) == Some(Read(ids, rest))
       <==> |ids| == n && Increasing(ids, previous) && b == Names(ids) + rest
  {
    if ParseIds(n, b, previous).Some? { ParseIdsSound(n, b, previous); }
    if Increasing(ids, previous) { ParseIdsComplete(ids, previous, rest); }
  }

  /** At most this many bytes for a list the encoder accepts: always well within one payload. */
  const MAX_ID_LIST: nat := 4 + 10000 * 67

  /**
   Identifier lists: the decoder accepts exactly the encodings of strictly increasing lists of at
   most 10000 valid identifiers, and encoding and decoding are inverse in both directions.
   */
  lemma IdListExact(payload: bytes, ids: seq<bytes>)
    ensures ParseIdList(payload) == Some(ids) <==> IdListBytes(ids) == Ok(payload)
    ensures IdListBytes(ids).Ok? <==> |ids| <= MAX_SECRET_COUNT && Increasing(ids, None)
    ensures IdListBytes(ids).Ok? ==> 4 <= |IdListBytes(ids).value| <= MAX_ID_LIST
  {
    hide LittleEndian, FromLittleEndian, Power256;
    PowerValues();
    var count := Uint(|ids|, 4);
    OutputOne(count);
    OutputAppend([count], IdSteps(ids, None));
    IdStepsOutput(ids, None);
    if Increasing(ids, None) { NamesBound(ids, None); }
    assert Names(ids) == Names(ids) + [];
    if |ids| <= MAX_SECRET_COUNT { TakeUintExact(payload, 4, |ids|, Names(ids)); }
    ParseIdsExact(|ids|, Names(ids), None, ids, []);
    match TakeUint(payload, 4)
    case Some(r) =>
      LittleEndianBytes(payload[..4]);
      ParseIdsExact(r.value, r.rest, None, ids, []);
      TakeUintExact(payload, 4, r.value, r.rest);
    case None =>
  }

  /** The payload of a list: the count, then every identifier with its length. */
  lemma IdListLayout(payload: bytes, ids: seq<bytes>)
    requires |payload| >= 4
    ensures IdListBytes(ids) == Ok(payload)
       <==> && |ids| <= 10000 && Increasing(ids, None)
            && FourBytes(payload[0], payload[1], payload[2], payload[3]) == |ids| && payload[4..] == Names(ids)
  {
    hide LittleEndian, FromLittleEndian, FourBytes, Increasing, IdSteps, Names, Output, Passes, ParseIdList;
    PowerValues();
    var count := Uint(|ids|, 4);
    OutputOne(count);
    OutputAppend([count], IdSteps(ids, None));
    IdStepsOutput(ids, None);
    IdListExact(payload, ids);
    FixedWidths(payload[..4]);
    if |ids| <= 10000 { TakeUintExact(payload, 4, |ids|, payload[4..]); }
    assert payload == payload[..4] + payload[4..];
  }

  /** The order the list codec insists on is the order of sorted, distinct, valid identifiers. */
  lemma {:induction false} IncreasingIsSorted(ids: seq<bytes>, previous: Option<bytes>)
    ensures Increasing(ids, previous)
       <==> StrictlySorted(ids) && (forall id | id in ids :: IdFollows(previous, id))
  {
    if ids != [] {
      var tail := ids[1..];
      IncreasingIsSorted(tail, Some(ids[0]));
      assert ids == [ids[0]] + tail;
      if Increasing(ids, previous) {
        forall i, j | 0 <= i < j < |ids| ensures Below(ids[i], ids[j]) {
          assert ids[j] == tail[j - 1] && ids[j] in tail;
          if i > 0 { assert ids[i] == tail[i - 1]; }
        }
        forall id | id in ids ensures IdFollows(previous, id) {
          if id in tail && previous.Some? { BelowTransitive(previous.value, ids[0], id); }
        }
      }
      if StrictlySorted(ids) && (forall id | id in ids :: IdFollows(previous, id)) {
        forall i, j | 0 <= i < j < |tail| ensures Below(tail[i], tail[j]) {
          assert tail[i] == ids[i + 1] && tail[j] == ids[j + 1];
        }
        forall id | id in tail ensures IdFollows(Some(ids[0]), id) {
          var i :| 0 <= i < |tail| && tail[i] == id;
          assert id == ids[i + 1] && id in ids;
        }
        assert ids[0] in ids;
      }
    }
  }
}
