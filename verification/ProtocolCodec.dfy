/**
 The protocol encoders and decoders as the code runs them: cursors over buffers, loops over
 identifiers.  Each is proved equal to its counterpart on byte strings in module Protocol.
 */
module ProtocolCodec {
  import opened Bytes
  import opened Wire
  import opened Errors
  import opened Protocol
  import SecretId

  // ---------------------------------------------------------------- encoders

  method EncodePayload(c: Closure) returns (r: Result<bytes, Exception>)
    ensures r == Payload(c)
  {
    var e := EncodeTwoPass(c, MAX_PAYLOAD);
    match e {
      case TooLong => r := Err(TooLargePayload());
      case Failed => r := Err(RuntimeError(PayloadNotEncoded));
      case Done(data) => r := Ok(data);
    }
  }

  function FrameSteps(kind: nat, requestId: nat, payload: bytes): Closure {
    [Raw(MAGIC)] + ([Uint(VERSION, 2)] + ([Uint(kind, 2)] + ([Uint(requestId, 8)]
    + ([Uint(|payload|, 4)] + ([Uint(0, 4)] + [Raw(payload)])))))
  }

  lemma FrameStepsOutput(kind: nat, requestId: nat, payload: bytes)
    requires |payload| <= MAX_PAYLOAD
    ensures Passes(FrameSteps(kind, requestId, payload))
    ensures Output(FrameSteps(kind, requestId, payload)) == FrameBytes(kind, requestId, payload).value
  {
    hide LittleEndian, Output, Passes;
    var m, v, k, i, s, z, p := Raw(MAGIC), Uint(VERSION, 2), Uint(kind, 2), Uint(requestId, 8),
      Uint(|payload|, 4), Uint(0, 4), Raw(payload);
    OutputAppend([z], [p]);
    OutputAppend([s], [z] + [p]);
    OutputAppend([i], [s] + ([z] + [p]));
    OutputAppend([k], [i] + ([s] + ([z] + [p])));
    OutputAppend([v], [k] + ([i] + ([s] + ([z] + [p]))));
    OutputAppend([m], [v] + ([k] + ([i] + ([s] + ([z] + [p])))));
    OutputOne(m); OutputOne(v); OutputOne(k); OutputOne(i); OutputOne(s); OutputOne(z); OutputOne(p);
  }

  /** `encode_frame`: a payload within the limit always encodes. */
  method EncodeFrame(kind: u16, requestId: u64, payload: bytes) returns (r: Result<bytes, Exception>)
    ensures r == match FrameBytes(kind, requestId, payload)
      case Some(frame) => Ok(frame)
      case None => Err(LengthError(FrameTooLarge))
  {
    if |payload| > MAX_PAYLOAD || |payload| > U32_MAX {
      return Err(LengthError(FrameTooLarge));
    }
    FrameStepsOutput(kind, requestId, payload);
    var encoded := WriteOut(FrameSteps(kind, requestId, payload), HEADER_SIZE + |payload|);
    r := match encoded case Some(frame) => Ok(frame) case None => Err(RuntimeError(FrameNotEncoded));
  }

  method EncodeIdRequest(id: bytes) returns (r: Result<bytes, Exception>)
    ensures r == IdRequestBytes(id)
  {
    if !SecretId.IsValid(id) {
      return Err(InvalidArgument(BadIdentifier));
    }
    r := EncodePayload(SizedSteps(id));
  }

  method EncodePutRequest(id: bytes, value: bytes) returns (r: Result<bytes, Exception>)
    ensures r == PutRequestBytes(id, value)
  {
    if !SecretId.IsValid(id) || |value| > MAX_PAYLOAD {
      return Err(InvalidArgument(BadPutSize));
    }
    r := EncodePayload(PutSteps(id, value));
  }

  method EncodeIdList(ids: seq<bytes>) returns (r: Result<bytes, Exception>)
    ensures r == IdListBytes(ids)
  {
    if |ids| > MAX_SECRET_COUNT {
      return Err(InvalidArgument(TooManyIdentifiers));
    }
    r := EncodePayload(IdListSteps(ids));
  }

  method EncodeResponse(response: Response) returns (r: Result<bytes, Exception>)
    ensures r == ResponseBytes(response)
  {
    if |response.diagnostic| > MAX_DIAGNOSTIC || |response.data| > MAX_PAYLOAD {
      return Err(InvalidArgument(BadResponseSize));
    }
    r := EncodePayload(ResponseSteps(response));
  }

  // ---------------------------------------------------------------- decoders

  method DecodeHeader(encoded: bytes) returns (r: Option<Header>)
    ensures r == ParseHeader(encoded)
  {
    if |encoded| != HEADER_SIZE { return None; }
    var reader := new Reader(encoded);
    var ok, magic := reader.ReadBytes(4);
    if !ok { return None; }
    var version, kind, requestId, payloadSize, reserved;
    ok, version := reader.ReadUint(2);
    if !ok { return None; }
    ok, kind := reader.ReadUint(2);
    if !ok { return None; }
    ok, requestId := reader.ReadUint(8);
    if !ok { return None; }
    ok, payloadSize := reader.ReadUint(4);
    if !ok { return None; }
    ok, reserved := reader.ReadUint(4);
    if !ok || !reader.Complete() { return None; }
    if magic != MAGIC || version != VERSION || reserved != 0 || payloadSize > MAX_PAYLOAD {
      return None;
    }
    return Some(Header(kind, requestId, payloadSize));
  }

  method DecodeIdRequest(payload: bytes) returns (r: Option<bytes>)
    ensures r == ParseIdRequest(payload)
  {
    var reader := new Reader(payload);
    var ok, id := reader.ReadSizedBytes(SecretId.MAX_ID_SIZE);
    if !ok || !SecretId.IsValid(id) || !reader.Complete() { return None; }
    return Some(id);
  }

  method DecodePutRequest(payload: bytes) returns (r: Option<(bytes, bytes)>)
    ensures r == ParsePutRequest(payload)
  {
    var reader := new Reader(payload);
    var ok, id := reader.ReadSizedBytes(SecretId.MAX_ID_SIZE);
    if !ok || !SecretId.IsValid(id) { return None; }
    var value;
    ok, value := reader.ReadSizedBytes(MAX_PAYLOAD);
    if !ok || !reader.Complete() { return None; }
    return Some((id, value));
  }

  method DecodeIdList(payload: bytes) returns (r: Option<seq<bytes>>)
    ensures r == ParseIdList(payload)
  {
    var reader := new Reader(payload);
    var ok, count := reader.ReadUint(4);
    if !ok || count > MAX_SECRET_COUNT { return None; }
    var decoded;
    ok, decoded := DecodeIds(reader, count);
    if !ok || !reader.Complete() { return None; }
    return Some(decoded);
  }

  /** The loop of `decode_id_list`. */
  method DecodeIds(reader: Reader, count: nat) returns (ok: bool, decoded: seq<bytes>)
    requires reader.Valid()
    modifies reader
    ensures reader.Valid()
    ensures match ParseIds(count, old(reader.Rest()), None)
      case Some(r) => ok && decoded == r.value && reader.Rest() == r.rest
      case None => !ok
  {
    hide ParseIds, Below, SecretId.IsValid;
    ghost var all := ParseIds(count, reader.Rest(), None);
    assert all.Some? ==> [] + all.value.value == all.value.value;
    decoded := [];
    for index := 0 to count
      invariant reader.Valid()
      invariant all == Resume(decoded, ParseIds(count - index, reader.Rest(), Last(decoded)))
    {
      DecodeStep(count - index, reader.Rest(), decoded);
      var id;
      ok, id := reader.ReadSizedBytes(SecretId.MAX_ID_SIZE);
      if !ok || !FollowsLast(decoded, id) { return false, decoded; }
      decoded := decoded + [id];
    }
    NothingToParse(reader.Rest(), decoded);
    ok := true;
  }

  lemma NothingToParse(b: bytes, decoded: seq<bytes>)
    ensures Resume(decoded, ParseIds(0, b, Last(decoded))) == Some(Read(decoded, b))
  {
    assert decoded + [] == decoded;
  }

  /** The test of one decoded identifier against the one before it. */
  predicate FollowsLast(decoded: seq<bytes>, id: bytes)
    ensures FollowsLast(decoded, id) <==> IdFollows(Last(decoded), id)
  {
    SecretId.IsValid(id) && (decoded == [] || Below(decoded[|decoded| - 1], id))
  }

  function Last(ids: seq<bytes>): Option<bytes> {
    if ids == [] then None else Some(ids[|ids| - 1])
  }

  /** Identifiers already decoded, put back before those still to come. */
  function Resume(decoded: seq<bytes>, later: Option<Read<seq<bytes>>>): Option<Read<seq<bytes>>> {
    match later
    case None => None
    case Some(r) => Some(Read(decoded + r.value, r.rest))
  }

  /** One turn of the decoding loop: it stops exactly when the rest cannot be parsed. */
  lemma DecodeStep(n: nat, b: bytes, decoded: seq<bytes>)
    requires n > 0
    ensures match TakeSized(b, SecretId.MAX_ID_SIZE)
      case None => ParseIds(n, b, Last(decoded)).None?
      case Some(r) =>
        if IdFollows(Last(decoded), r.value)
        then Resume(decoded, ParseIds(n, b, Last(decoded)))
          == Resume(decoded + [r.value], ParseIds(n - 1, r.rest, Some(r.value)))
        else ParseIds(n, b, Last(decoded)).None?
  {
    match TakeSized(b, SecretId.MAX_ID_SIZE)
    case Some(r) =>
      var later := ParseIds(n - 1, r.rest, Some(r.value));
      if later.Some? {
        assert decoded + [r.value] + later.value.value == decoded + ([r.value] + later.value.value);
      }
    case None =>
  }

  method DecodeResponse(payload: bytes) returns (r: Option<Response>)
    ensures r == ParseResponse(payload)
  {
    var reader := new Reader(payload);
    var ok, code := reader.ReadUint(4);
    if !ok { return None; }
    var diagnostic, data;
    ok, diagnostic := reader.ReadSizedBytes(MAX_DIAGNOSTIC);
    if !ok { return None; }
    ok, data := reader.ReadSizedBytes(MAX_PAYLOAD);
    if !ok || !reader.Complete() { return None; }
    var status := FromCode(code);
    if status.None? { return None; }
    return Some(Response(status.value, diagnostic, data));
  }
}
