/** What the server answers: which requests, with which status, within which sizes. */
module SessionLaws {
  import opened Bytes
  import opened Errors
  import opened Protocol
  import opened StoreSpec
  import opened Plaintext
  import SecretId
  import opened Sockets
  import opened Session

  // ---------------------------------------------------------------- sizes

  /** A secret that is stored but does not fit a response. */
  predicate TooLargeToRead(v: Vault, id: bytes) {
    !v.locked && id in v.secrets && |v.secrets[id]| + 12 > MAX_PAYLOAD
  }

  predicate OversizeGet(v: Vault, kind: nat, payload: bytes) {
    && kind == GET_REQUEST
    && match ParseIdRequest(payload)
       case None => false
       case Some(id) => TooLargeToRead(v, id)
  }

  /** A listing of an open store always encodes, and decodes to exactly its identifiers in order. */
  lemma ListAlwaysFits(v: Vault)
    requires Good(v) && !v.locked
    ensures var ids := SortedIds(v.secrets.Keys);
      && AnswerList(v, []).status == Success && AnswerList(v, []).text == Silent
      && IdListBytes(ids) == Ok(AnswerList(v, []).data)
      && ParseIdList(AnswerList(v, []).data) == Some(ids)
      && StrictlySorted(ids) && ToSet(ids) == v.secrets.Keys
      && |AnswerList(v, []).data| <= MAX_ID_LIST
  {
    hide SecretId.IsValid, IdListBytes, ParseIdList, Increasing;
    var ids := SortedIds(v.secrets.Keys);
    SortedIdsCount(ids);
    forall id | id in ids ensures SecretId.IsValid(id) { assert id in ToSet(ids); }
    IncreasingIsSorted(ids, None);
    IdListExact([], ids);
    IdListExact(IdListBytes(ids).value, ids);
  }

  /** Every reply is short, except that of a get. */
  predicate Short(r: Reply) {
    |Render(r.text)| <= MAX_DIAGNOSTIC && (r.data == [] || (r.text == Silent && |r.data| <= MAX_ID_LIST))
  }

  lemma FixedTextIsShort(e: Exception)
    requires e.text.OsError? ==> |e.text.detail| <= MAX_DIAGNOSTIC
    ensures Short(Refusal(e))
  {}

  lemma PutReplyIsShort(v: Vault, payload: bytes, fault: Fault)
    requires ValidFault(fault)
    ensures Short(AnswerPut(v, payload, fault).1)
  {
    hide Render, RenderFixed, SecretId.IsValid, Short, ParsePutRequest, Persistable, SortedEntries;
    match ParsePutRequest(payload)
    case None => FixedTextIsShort(InvalidArgument(BadPutPayload));
    case Some((id, value)) =>
      match Put(v, id, value, fault).1
      case None => SilentIsShort();
      case Some(e) => FixedTextIsShort(e);
  }

  lemma SilentIsShort()
    ensures Short(Done([]))
  {}

  lemma RemoveReplyIsShort(v: Vault, payload: bytes, fault: Fault)
    requires ValidFault(fault)
    ensures Short(AnswerRemove(v, payload, fault).1)
  {
    hide Render, RenderFixed, SecretId.IsValid, Short, ParseIdRequest, Persistable, SortedEntries;
    match ParseIdRequest(payload)
    case None => FixedTextIsShort(InvalidArgument(BadIdPayload));
    case Some(id) =>
      match Remove(v, id, fault).1
      case Ok(_) =>
        SilentIsShort();
        FixedTextIsShort(OutOfRange(SecretMissing));
      case Err(e) => FixedTextIsShort(e);
  }

  /** A reply is too large to be sent exactly when it is that of an oversize get. */
  lemma ReplyFitsExactly(v: Vault, kind: nat, requestId: nat, payload: bytes, fault: Fault)
    requires Good(v) && ValidFault(fault) && ResponseKind(kind).Some?
    ensures ReplyFrame(kind, requestId, Answer(v, kind, payload, fault).1).None? <==> OversizeGet(v, kind, payload)
  {
    hide Render, RenderFixed, SecretId.IsValid, AnswerPut, AnswerRemove, AnswerList, Short, ParseIdRequest;
    var reply := Answer(v, kind, payload, fault).1;
    if kind == GET_REQUEST {
      GetReplyFits(v, requestId, payload);
    } else {
      if kind == PUT_REQUEST { PutReplyIsShort(v, payload, fault); }
      else if kind == REMOVE_REQUEST { RemoveReplyIsShort(v, payload, fault); }
      else { OtherReplyIsShort(v, kind, payload, fault); }
      ShortFits(kind, requestId, reply);
    }
  }

  lemma OtherReplyIsShort(v: Vault, kind: nat, payload: bytes, fault: Fault)
    requires Good(v) && kind in {PING_REQUEST, LOCK_REQUEST, LIST_REQUEST}
    ensures Short(Answer(v, kind, payload, fault).1)
  {
    hide Short, Render, Good, AnswerList, Lock;
    SilentIsShort();
    if kind == LIST_REQUEST { ListReplyIsShort(v, payload); }
    else {
      FixedTextIsShort(InvalidArgument(PingNotEmpty));
      FixedTextIsShort(InvalidArgument(LockNotEmpty));
    }
  }

  lemma ListReplyIsShort(v: Vault, payload: bytes)
    requires Good(v)
    ensures Short(AnswerList(v, payload))
  {
    hide IdListBytes, Good, Render;
    FixedTextIsShort(InvalidArgument(ListNotEmpty));
    FixedTextIsShort(LockedError());
    if payload == [] && !v.locked {
      ListAlwaysFits(v);
      SilentIsShort();
    }
  }

  lemma ShortFits(kind: nat, requestId: nat, reply: Reply)
    requires Short(reply) && ResponseKind(kind).Some?
    ensures ReplyFrame(kind, requestId, reply).Some?
  {
    hide Render, Payload, HeaderBytes;
    var r := Response(reply.status, Render(reply.text), reply.data);
    if reply.text == Silent { assert Render(Silent) == []; }
    ResponseExact([], r);
    ResponseExact(ResponseBytes(r).value, r);
  }

  lemma GetReplyFits(v: Vault, requestId: nat, payload: bytes)
    requires Good(v)
    ensures ReplyFrame(GET_REQUEST, requestId, AnswerGet(v, payload)).None? <==> OversizeGet(v, GET_REQUEST, payload)
  {
    hide Payload, HeaderBytes, ParseIdRequest, SecretId.IsValid;
    match ParseIdRequest(payload)
    case None => ShortFits(GET_REQUEST, requestId, AnswerGet(v, payload));
    case Some(id) =>
      match Get(v, id)
      case Err(_) => ShortFits(GET_REQUEST, requestId, AnswerGet(v, payload));
      case Ok(value) =>
        ParsedIdIsValid(payload);
        var r := Response(Success, [], value);
        ResponseExact([], r);
        if ResponseBytes(r).Ok? { ResponseExact(ResponseBytes(r).value, r); }
  }

  lemma ParsedIdIsValid(payload: bytes)
    requires ParseIdRequest(payload).Some?
    ensures SecretId.IsValid(ParseIdRequest(payload).value)
  {}

  /** The stream begins with a whole request, which is not an oversize get. */
  predicate Answerable(v: Vault, input: bytes) {
    FirstFrame(input).Request? && !OversizeGet(v, FirstFrame(input).header.kind, FirstFrame(input).payload)
  }

  /**
   A stream gets a reply exactly when it is answerable; one that does not leaves the store alone, and
   ends the session quietly only if the peer has closed before a whole header.
   */
  lemma AnsweredExactly(v: Vault, faults: seq<Fault>, input: bytes, ending: Ending, room: nat)
    requires Good(v) && ValidFault(HeadFault(faults))
    ensures var o := RunSession(v, faults, input, ending, room);
      && (o.sent != [] <==> Answerable(v, input) && room > 0)
      && (!Answerable(v, input) ==> o.vault == v && o.sent == [])
      && (!Answerable(v, input) ==> (o.exit.Returned? <==> |input| < 24 && ending.PeerClosed?))
  {
    hide Answer, ReplyFrame, OversizeGet, ParseHeader;
    match FirstFrame(input)
    case NoHeader =>
    case BadHeader =>
    case Cut =>
    case Request(h, payload, rest) =>
      var reply := Answer(v, h.kind, payload, HeadFault(faults)).1;
      ReplyFitsExactly(v, h.kind, h.requestId, payload, HeadFault(faults));
      match ReplyFrame(h.kind, h.requestId, reply)
      case None => OversizeGetChangesNothing(v, h.kind, payload, HeadFault(faults));
      case Some(frame) => FrameSize(h.kind, h.requestId, reply);
  }

  lemma OversizeGetChangesNothing(v: Vault, kind: nat, payload: bytes, fault: Fault)
    requires OversizeGet(v, kind, payload)
    ensures Answer(v, kind, payload, fault).0 == v
  {
    hide ParseIdRequest;
  }

  lemma FrameSize(kind: nat, requestId: nat, reply: Reply)
    requires ResponseKind(kind).Some? && ReplyFrame(kind, requestId, reply).Some?
    ensures HEADER_SIZE < |ReplyFrame(kind, requestId, reply).value| <= HEADER_SIZE + MAX_PAYLOAD
  {
    hide Render, ParseResponse, HeaderBytes;
    var r := Response(reply.status, Render(reply.text), reply.data);
    ResponseExact(ResponseBytes(r).value, r);
    ResponseStepsOutput(r);
  }

  // ---------------------------------------------------------------- whole sessions

  ghost predicate ValidFaults(faults: seq<Fault>) { forall f | f in faults :: ValidFault(f) }

  /** The store after the requests, one after the other: a fold of the abstract operations. */
  ghost function VaultAfter(v: Vault, faults: seq<Fault>, rs: seq<Req>): Vault
    decreases |rs|
  {
    if rs == [] then v
    else VaultAfter(Answer(v, rs[0].kind, rs[0].payload, HeadFault(faults)).0, TailFaults(faults), rs[1..])
  }

  /** Request `k` is an oversize get in the state it meets. */
  ghost predicate OversizeAt(v: Vault, faults: seq<Fault>, rs: seq<Req>, k: nat)
    requires k < |rs|
  {
    OversizeGet(VaultAfter(v, faults, rs[..k]), rs[k].kind, rs[k].payload)
  }

  lemma OversizeLater(v: Vault, faults: seq<Fault>, rs: seq<Req>, k: nat)
    requires 0 < k < |rs|
    ensures OversizeAt(v, faults, rs, k)
      == OversizeAt(Answer(v, rs[0].kind, rs[0].payload, HeadFault(faults)).0, TailFaults(faults), rs[1..], k - 1)
  {
    hide Answer, OversizeGet;
    assert rs[..k][1..] == rs[1..][..k - 1];
  }

  /** Requests are all answered exactly when none is an oversize get in the state it meets. */
  lemma {:induction false} ServedExactly(v: Vault, faults: seq<Fault>, rs: seq<Req>)
    requires Good(v) && ValidFaults(faults)
    ensures Served(v, faults, rs).None? <==> exists k :: 0 <= k < |rs| && OversizeAt(v, faults, rs, k)
    ensures Served(v, faults, rs).Some? ==> Served(v, faults, rs).value.0 == VaultAfter(v, faults, rs)
    decreases |rs|
  {
    hide Answer, ReplyFrame, OversizeGet, Good, ResponseKind;
    if rs != [] {
      var r, fault := rs[0], HeadFault(faults);
      var w := Answer(v, r.kind, r.payload, fault).0;
      ReplyFitsExactly(v, r.kind, r.requestId, r.payload, fault);
      AnswerKeepsGood(v, r.kind, r.payload, fault);
      ServedExactly(w, TailFaults(faults), rs[1..]);
      assert rs[..0] == [] && OversizeAt(v, faults, rs, 0) == OversizeGet(v, r.kind, r.payload);
      LaterOversize(v, faults, rs);
    }
  }

  lemma LaterOversize(v: Vault, faults: seq<Fault>, rs: seq<Req>)
    requires rs != []
    ensures var w := Answer(v, rs[0].kind, rs[0].payload, HeadFault(faults)).0;
      (exists k :: 0 < k < |rs| && OversizeAt(v, faults, rs, k))
      <==> exists k :: 0 <= k < |rs| - 1 && OversizeAt(w, TailFaults(faults), rs[1..], k)
  {
    hide OversizeAt, Answer;
    var w := Answer(v, rs[0].kind, rs[0].payload, HeadFault(faults)).0;
    if k :| 0 < k < |rs| && OversizeAt(v, faults, rs, k) {
      OversizeLater(v, faults, rs, k);
    }
    if k :| 0 <= k < |rs| - 1 && OversizeAt(w, TailFaults(faults), rs[1..], k) {
      OversizeLater(v, faults, rs, k + 1);
    }
  }

  /** A whole request at the head of a stream is a request frame. */
  lemma FirstIsAFrame(input: bytes) returns (r: Req, rest: bytes)
    requires FirstFrame(input).Request?
    ensures input == ReqFrame(r) + rest && |rest| < |input|
    ensures FirstFrame(input) == Request(Header(r.kind, r.requestId, |r.payload|), r.payload, rest)
  {
    hide ParseHeader, HeaderBytes, ResponseKind;
    var Request(h, payload, tail) := FirstFrame(input);
    HeaderExact(input[..HEADER_SIZE], h);
    r, rest := RawReq(h.kind, h.requestId, payload), tail;
    assert input == input[..HEADER_SIZE] + (payload + tail);
  }

  /** What a stream begins with, in terms of frames and of the header's layout. */
  lemma FirstFrameExactly(input: bytes)
    ensures FirstFrame(input).NoHeader? <==> |input| < 24
    ensures FirstFrame(input).Request? <==> exists r: Req, rest :: input == ReqFrame(r) + rest
    ensures FirstFrame(input).Cut? <==> CutShort(input)
  {
    hide ParseHeader, ReqFrame, ResponseKind, IsFrameHeader;
    if FirstFrame(input).Request? {
      var r, rest := FirstIsAFrame(input);
    }
    if r: Req, rest :| input == ReqFrame(r) + rest { FirstOfFrames(r, rest); }
    if |input| >= 24 {
      var head := input[..24];
      forall h: Header
        ensures ParseHeader(head) == Some(h) <==> IsFrameHeader(head, h.kind, h.requestId, h.payloadSize)
      {
        HeaderLayout(head, h);
      }
      forall kind: nat, id: nat, size: nat
        ensures IsFrameHeader(head, kind, id, size) <==> ParseHeader(head) == Some(Header(kind, id, size))
      {
        HeaderLayout(head, Header(kind, id, size));
      }
    }
  }

  /** A whole request header, but not all of the payload it announces. */
  ghost predicate CutShort(input: bytes) {
    |input| >= 24 && exists kind: nat, id: nat, size: nat ::
      IsFrameHeader(input[..24], kind, id, size) && ResponseKind(kind).Some? && |input| < 24 + size
  }

  /** How a session ends after its last whole reply: on what is no answerable request, or for want of room. */
  ghost predicate EndsOn(v: Vault, fault: Fault, rest: bytes, ending: Ending, room: nat, o: Outcome) {
    if !Answerable(v, rest) then
      o.vault == v && o.sent == [] && (o.exit.Returned? <==> |rest| < 24 && ending.PeerClosed?)
    else
      var Request(h, payload, _) := FirstFrame(rest);
      var (w, reply) := Answer(v, h.kind, payload, fault);
      && ReplyFrame(h.kind, h.requestId, reply).Some?
      && var frame := ReplyFrame(h.kind, h.requestId, reply).value;
         |frame| > room && o.vault == w && o.sent == frame[..room] && o.exit.Threw?
  }

  /**
   What a session does with any stream of bytes: the stream is some request frames, none of them an
   oversize get in the state it meets, and a rest; exactly these requests are answered, in order.  The
   rest changes nothing and gets no reply, unless it begins with a request whose reply no longer fits.
   */
  lemma {:induction false} SessionExactly(v: Vault, faults: seq<Fault>, input: bytes, ending: Ending, room: nat)
    returns (rs: seq<Req>, rest: bytes, last: Outcome)
    requires Good(v) && ValidFaults(faults)
    ensures input == ReqFrames(rs) + rest && Served(v, faults, rs).Some?
    ensures var (w, frames) := Served(v, faults, rs).value;
      && |Flatten(frames)| <= room
      && RunSession(v, faults, input, ending, room) == Prepend(Flatten(frames), last)
      && EndsOn(w, HeadFault(FaultsAfter(faults, |rs|)), rest, ending, room - |Flatten(frames)|, last)
    decreases |input|
  {
    hide Answer, ReplyFrame, FirstFrame, OversizeGet, Good, EndsOn, OneTurn, ReqFrame, ResponseKind;
    var fault := HeadFault(faults);
    match OneTurn(v, fault, input, ending, room) {
      case Stop(outcome) =>
        rs, rest, last := [], input, outcome;
        StopMeans(v, fault, input, ending, room);
        assert [] + last.sent == last.sent && [] + input == input;
      case Go(w, frame, tail) =>
        var r := GoMeans(v, fault, input, ending, room);
        AnswerKeepsGood(v, r.kind, r.payload, fault);
        rs, rest, last := SessionExactly(w, TailFaults(faults), tail, ending, room - |frame|);
        ServedOneMore(v, faults, r, rs);
        FramesOneMore(r, rs, rest);
        FaultsOneMore(faults, |rs|);
        PrependTwice(frame, Flatten(Served(w, TailFaults(faults), rs).value.1), last);
        rs := [r] + rs;
    }
  }

  lemma StopMeans(v: Vault, fault: Fault, input: bytes, ending: Ending, room: nat)
    requires Good(v) && ValidFault(fault) && OneTurn(v, fault, input, ending, room).Stop?
    ensures EndsOn(v, fault, input, ending, room, OneTurn(v, fault, input, ending, room).outcome)
  {
    hide Answer, ReplyFrame, OversizeGet, ParseHeader;
    match FirstFrame(input)
    case NoHeader =>
    case BadHeader =>
    case Cut =>
    case Request(h, payload, rest) =>
      ReplyFitsExactly(v, h.kind, h.requestId, payload, fault);
      if OversizeGet(v, h.kind, payload) { OversizeGetChangesNothing(v, h.kind, payload, fault); }
  }

  lemma GoMeans(v: Vault, fault: Fault, input: bytes, ending: Ending, room: nat) returns (r: Req)
    requires OneTurn(v, fault, input, ending, room).Go?
    ensures var t := OneTurn(v, fault, input, ending, room);
      var (w, reply) := Answer(v, r.kind, r.payload, fault);
      input == ReqFrame(r) + t.rest && t.vault == w && ReplyFrame(r.kind, r.requestId, reply) == Some(t.frame)
  {
    hide Answer, ReplyFrame, FirstFrame, ReqFrame;
    var rest;
    r, rest := FirstIsAFrame(input);
  }

  lemma ServedOneMore(v: Vault, faults: seq<Fault>, r: Req, rs: seq<Req>)
    requires var (w, reply) := Answer(v, r.kind, r.payload, HeadFault(faults));
      ReplyFrame(r.kind, r.requestId, reply).Some? && Served(w, TailFaults(faults), rs).Some?
    ensures var (w, reply) := Answer(v, r.kind, r.payload, HeadFault(faults));
      var frame := ReplyFrame(r.kind, r.requestId, reply).value;
      var (u, frames) := Served(w, TailFaults(faults), rs).value;
      && Served(v, faults, [r] + rs) == Some((u, [frame] + frames))
      && Flatten([frame] + frames) == frame + Flatten(frames)
  {
    hide Answer, ReplyFrame;
    var (w, reply) := Answer(v, r.kind, r.payload, HeadFault(faults));
    var frame := ReplyFrame(r.kind, r.requestId, reply).value;
    var frames := Served(w, TailFaults(faults), rs).value.1;
    assert ([r] + rs)[1..] == rs && ([frame] + frames)[1..] == frames;
  }

  lemma FramesOneMore(r: Req, rs: seq<Req>, rest: bytes)
    ensures ReqFrames([r] + rs) + rest == ReqFrame(r) + (ReqFrames(rs) + rest)
  {
    hide ReqFrame;
    assert ([r] + rs)[1..] == rs;
  }

  lemma FaultsOneMore(faults: seq<Fault>, n: nat)
    ensures FaultsAfter(TailFaults(faults), n) == FaultsAfter(faults, n + 1)
  {
    if 0 < n + 1 <= |faults| { assert faults[1..][n..] == faults[n + 1..]; }
  }

  /**
   Requests none of which is an oversize get, then anything that is no answerable request: the replies
   are exactly those of the requests, and the store is exactly what they make of it.
   */
  lemma RequestsThenStop(v: Vault, faults: seq<Fault>, rs: seq<Req>, rest: bytes, ending: Ending, room: nat)
    requires Good(v) && ValidFaults(faults)
    requires forall k | 0 <= k < |rs| :: !OversizeAt(v, faults, rs, k)
    requires !Answerable(VaultAfter(v, faults, rs), rest)
    requires Served(v, faults, rs).Some? ==> |Flatten(Served(v, faults, rs).value.1)| <= room
    ensures Served(v, faults, rs).Some? && |Served(v, faults, rs).value.1| == |rs|
    ensures var o := RunSession(v, faults, ReqFrames(rs) + rest, ending, room);
      && o.vault == VaultAfter(v, faults, rs) && o.sent == Flatten(Served(v, faults, rs).value.1)
      && (o.exit.Returned? <==> |rest| < 24 && ending.PeerClosed?)
  {
    hide RunSession, Served, OversizeAt, VaultAfter, Answerable, Good;
    ServedExactly(v, faults, rs);
    var (w, frames) := Served(v, faults, rs).value;
    RepliesInOrder(v, faults, rs, rest, ending, room);
    var left := room - |Flatten(frames)|;
    AfterKeepsGood(v, faults, rs);
    AnsweredExactly(w, FaultsAfter(faults, |rs|), rest, ending, left);
    assert Flatten(frames) + [] == Flatten(frames);
  }

  lemma {:induction false} AfterKeepsGood(v: Vault, faults: seq<Fault>, rs: seq<Req>)
    requires Good(v)
    ensures Good(VaultAfter(v, faults, rs))
    decreases |rs|
  {
    hide Answer, Good;
    if rs != [] {
      AnswerKeepsGood(v, rs[0].kind, rs[0].payload, HeadFault(faults));
      AfterKeepsGood(Answer(v, rs[0].kind, rs[0].payload, HeadFault(faults)).0, TailFaults(faults), rs[1..]);
    }
  }

  // ---------------------------------------------------------------- what put over the wire can be read back

  /**
   A secret stored through the wire can be read back through the wire exactly when it leaves room for
   the response's 12 bytes; with identifiers of four bytes or more that is always so.
   */
  lemma ReadBackExactly(v: Vault, id: bytes, value: bytes, requestId: nat)
    requires Good(v) && PutRequestBytes(id, value).Ok? && Put(v, id, value, None).1.None?
    ensures var w := Put(v, id, value, None).0;
      && IdRequestBytes(id).Ok?
      && (ReplyFrame(GET_REQUEST, requestId, AnswerGet(w, IdRequestBytes(id).value)).Some?
          <==> |value| + 12 <= MAX_PAYLOAD)
      && AnswerGet(w, IdRequestBytes(id).value) == Done(value)
      && (|id| >= 4 ==> |value| + 12 <= MAX_PAYLOAD)
  {
    hide SecretId.IsValid, PutRequestBytes, IdRequestBytes, ParseIdRequest, ReplyFrame, Serialized;
    PutRequestExact([], id, value);
    IdRequestExact([], id);
    IdRequestExact(IdRequestBytes(id).value, id);
    PutKeepsGood(v, id, value, None);
    var w := Put(v, id, value, None).0;
    GetReplyFits(w, requestId, IdRequestBytes(id).value);
  }

  /** The family that is stored but cannot be read back is not empty: identifier "a", 2^20 - 9 bytes. */
  lemma StoredButUnreadable(value: bytes, requestId: nat)
    requires |value| == MAX_PAYLOAD - 9
    ensures PutRequestBytes([0x61], value).Ok? && IdRequestBytes([0x61]).Ok?
    ensures var (w, e) := Put(Vault(map[], false), [0x61], value, None);
      e.None? && ReplyFrame(GET_REQUEST, requestId, AnswerGet(w, IdRequestBytes([0x61]).value)).None?
  {
    hide ReplyFrame, AnswerGet, PutRequestBytes, IdRequestBytes, Serialized;
    var v, id: bytes := Vault(map[], false), [0x61];
    PutRequestExact([], id, value);
    IdRequestExact([], id);
    SerializedRoundTrip(map[]);
    assert v.secrets - {id} == map[];
    PutPersistable(v.secrets, id, value);
    ReadBackExactly(v, id, value, requestId);
  }

  // ---------------------------------------------------------------- locking

  /** A request that the decoders accept. */
  predicate WellFormed(kind: nat, payload: bytes) {
    if kind == PUT_REQUEST then ParsePutRequest(payload).Some?
    else if kind == GET_REQUEST || kind == REMOVE_REQUEST then ParseIdRequest(payload).Some?
    else payload == []
  }

  predicate AddsToAFullVault(v: Vault, payload: bytes) {
    match ParsePutRequest(payload)
    case None => false
    case Some((id, _)) => id !in v.secrets && |v.secrets| >= Plaintext.MAX_SECRET_COUNT
  }

  /**
   The status LOCKED is reported exactly for a well-formed put, get, remove or list on a locked store,
   and for a put of a new identifier into an open store that is full.
   */
  lemma LockedExactly(v: Vault, kind: nat, payload: bytes, fault: Fault)
    requires Good(v) && ResponseKind(kind).Some?
    ensures Answer(v, kind, payload, fault).1.status == Locked
       <==> if v.locked then kind !in {PING_REQUEST, LOCK_REQUEST} && WellFormed(kind, payload)
            else kind == PUT_REQUEST && AddsToAFullVault(v, payload)
  {
    hide SecretId.IsValid, IdListBytes, ParsePutRequest, ParseIdRequest, Serialized;
    if kind == PUT_REQUEST {
      if ParsePutRequest(payload).Some? { ParsedPutIsAllowed(payload); }
      PutErrors(v, payload, fault);
    } else if kind == REMOVE_REQUEST {
      RemoveErrors(v, payload, fault);
    } else if kind == GET_REQUEST {
    } else if kind == LIST_REQUEST && payload == [] && !v.locked {
      ListAlwaysFits(v);
    }
  }

  lemma ParsedPutIsAllowed(payload: bytes)
    requires ParsePutRequest(payload).Some?
    ensures var (id, value) := ParsePutRequest(payload).value; SecretId.IsValid(id) && |value| <= MAX_SECRET_SIZE
  {}

  lemma PutErrors(v: Vault, payload: bytes, fault: Fault)
    requires Good(v)
    ensures AnswerPut(v, payload, fault).1.status == Locked
       <==> ParsePutRequest(payload).Some? && (v.locked || AddsToAFullVault(v, payload))
  {
    hide SecretId.IsValid, ParsePutRequest, Serialized;
    if ParsePutRequest(payload).Some? {
      ParsedPutIsAllowed(payload);
      var (id, value) := ParsePutRequest(payload).value;
      SaveErrors(v, v.secrets[id := value], fault);
    }
  }

  lemma RemoveErrors(v: Vault, payload: bytes, fault: Fault)
    requires Good(v)
    ensures AnswerRemove(v, payload, fault).1.status == Locked <==> ParseIdRequest(payload).Some? && v.locked
  {
    hide SecretId.IsValid, ParseIdRequest, Serialized;
    if ParseIdRequest(payload).Some? {
      SaveErrors(v, v.secrets - {ParseIdRequest(payload).value}, fault);
    }
  }

  /** The `i`-th of ten thousand identifiers: the letter n and four digits. */
  function NumberedId(i: nat): (id: bytes)
    requires i < 10000
    ensures |id| == 5 && id[0] == 0x6E
  {
    [0x6E, 0x30 + i / 10 / 10 / 10, 0x30 + i / 10 / 10 % 10, 0x30 + i / 10 % 10, 0x30 + i % 10]
  }

  lemma NumberedIdIsValid(i: nat)
    requires i < 10000
    ensures SecretId.IsValid(NumberedId(i))
  {}

  lemma NumberedIdsDiffer(i: nat, j: nat)
    requires i < 10000 && j < 10000 && NumberedId(i) == NumberedId(j)
    ensures i == j
  {
    var a, b := NumberedId(i), NumberedId(j);
    assert a[1] == b[1] && a[2] == b[2] && a[3] == b[3] && a[4] == b[4];
  }

  /** A vault of `n` numbered, empty secrets. */
  function Numbered(n: nat): SecretMap
    requires n <= 10000
  {
    if n == 0 then map[] else Numbered(n - 1)[NumberedId(n - 1) := []]
  }

  lemma {:induction false} NumberedIds(n: nat)
    requires n <= 10000
    ensures forall id | id in Numbered(n) :: Numbered(n)[id] == [] && exists i :: 0 <= i < n && id == NumberedId(i)
  {
    hide NumberedId;
    if n > 0 { NumberedIds(n - 1); }
  }

  lemma {:induction false} NumberedSize(n: nat)
    requires n <= 10000
    ensures |Numbered(n)| == n && Weight(Numbered(n)) == 13 * n
  {
    hide NumberedId;
    if n > 0 {
      var m, id := Numbered(n - 1), NumberedId(n - 1);
      NumberedSize(n - 1);
      NumberedIds(n - 1);
      if id in m {
        var i :| 0 <= i < n - 1 && id == NumberedId(i);
        NumberedIdsDiffer(i, n - 1);
        assert false;
      }
      AddEmptySecret(m, id);
    }
  }

  lemma AddEmptySecret(m: SecretMap, id: bytes)
    requires id !in m
    ensures |m[id := []]| == |m| + 1 && Weight(m[id := []]) == 8 + |id| + Weight(m)
  {
    hide Weight;
    WeightAdd(m, id, []);
    assert m - {id} == m;
  }

  /**
   There are full vaults, and they report LOCKED though they are open: with ten thousand secrets of
   identifiers n0000 to n9999, a put of identifier "b".
   */
  lemma FullVaultSaysLocked(value: bytes, fault: Fault)
    requires PutRequestBytes([0x62], value).Ok?
    ensures var v := Vault(Numbered(10000), false);
      && Good(v)
      && Answer(v, PUT_REQUEST, PutRequestBytes([0x62], value).value, fault).0 == v
      && Answer(v, PUT_REQUEST, PutRequestBytes([0x62], value).value, fault).1.status == Locked
  {
    hide NumberedId, Numbered, PutRequestBytes, ParsePutRequest, SecretId.IsValid, Serialized;
    var v, payload := Vault(Numbered(10000), false), PutRequestBytes([0x62], value).value;
    NumberedIds(10000);
    NumberedSize(10000);
    forall id | id in v.secrets ensures SecretId.IsValid(id) && id != [0x62] {
      var i :| 0 <= i < 10000 && id == NumberedId(i);
      NumberedIdIsValid(i);
    }
    PutRequestExact(payload, [0x62], value);
    LockedExactly(v, PUT_REQUEST, payload, fault);
  }

  /** A locked store answers nothing from its contents and stays as it is. */
  lemma LockedTellsNothing(v: Vault, kind: nat, payload: bytes, fault: Fault)
    requires v == Vault(map[], true) && ResponseKind(kind).Some?
    ensures Answer(v, kind, payload, fault).0 == v && Answer(v, kind, payload, fault).1.data == []
  {
    hide ParsePutRequest, ParseIdRequest;
  }

  lemma {:induction false} LockedSession(v: Vault, faults: seq<Fault>, input: bytes, ending: Ending, room: nat)
    requires v == Vault(map[], true)
    ensures RunSession(v, faults, input, ending, room).vault == v
    decreases |input|
  {
    hide Answer, ReplyFrame, FirstFrame;
    match FirstFrame(input)
    case NoHeader =>
    case BadHeader =>
    case Cut =>
    case Request(h, payload, rest) =>
      RestIsShorter(input);
      LockedTellsNothing(v, h.kind, payload, HeadFault(faults));
      match ReplyFrame(h.kind, h.requestId, Answer(v, h.kind, payload, HeadFault(faults)).1)
      case None =>
      case Some(frame) =>
        if |frame| <= room { LockedSession(v, TailFaults(faults), rest, ending, room - |frame|); }
  }

  lemma RestIsShorter(input: bytes)
    requires FirstFrame(input).Request?
    ensures |FirstFrame(input).rest| < |input| && ResponseKind(FirstFrame(input).header.kind).Some?
  {}

  /** One accepted connection, as the server sees it. */
  datatype Connection = Connection(faults: seq<Fault>, input: bytes, ending: Ending, room: nat)

  /** The accept loop: one session after the other on the same store, however each of them ends. */
  ghost function Serve(v: Vault, connections: seq<Connection>): Vault
    decreases |connections|
  {
    if connections == [] then v
    else
      var c := connections[0];
      Serve(RunSession(v, c.faults, c.input, c.ending, c.room).vault, connections[1..])
  }

  /** Once locked, whatever any number of clients send, the store stays locked and empty. */
  lemma {:induction false} LockedForever(v: Vault, connections: seq<Connection>)
    requires v == Vault(map[], true)
    ensures Serve(v, connections) == v
    decreases |connections|
  {
    hide RunSession;
    if connections != [] {
      var c := connections[0];
      LockedSession(v, c.faults, c.input, c.ending, c.room);
      LockedForever(v, connections[1..]);
    }
  }

  // ---------------------------------------------------------------- the invariant over sessions

  lemma AnswerKeepsGood(v: Vault, kind: nat, payload: bytes, fault: Fault)
    requires Good(v) && ResponseKind(kind).Some?
    ensures Good(Answer(v, kind, payload, fault).0)
  {
    hide ParsePutRequest, ParseIdRequest, Put, Remove, Good, Lock;
    LockKeepsGood(v);
    if ParsePutRequest(payload).Some? {
      var (id, value) := ParsePutRequest(payload).value;
      PutKeepsGood(v, id, value, fault);
    }
    if ParseIdRequest(payload).Some? { RemoveKeepsGood(v, ParseIdRequest(payload).value, fault); }
  }

  /** No sequence of bytes makes the store hold what it could not save or list. */
  lemma {:induction false} SessionKeepsGood(v: Vault, faults: seq<Fault>, input: bytes, ending: Ending, room: nat)
    requires Good(v)
    ensures Good(RunSession(v, faults, input, ending, room).vault)
    decreases |input|
  {
    hide Answer, ReplyFrame, FirstFrame, Good;
    match FirstFrame(input)
    case NoHeader =>
    case BadHeader =>
    case Cut =>
    case Request(h, payload, rest) =>
      RestIsShorter(input);
      AnswerKeepsGood(v, h.kind, payload, HeadFault(faults));
      var (w, reply) := Answer(v, h.kind, payload, HeadFault(faults));
      match ReplyFrame(h.kind, h.requestId, reply)
      case None =>
      case Some(frame) =>
        if |frame| <= room { SessionKeepsGood(w, TailFaults(faults), rest, ending, room - |frame|); }
  }
}
