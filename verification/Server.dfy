/** The server's session loop over a real store and a real socket. */
module Server {
  import opened Bytes
  import opened Errors
  import opened Protocol
  import ProtocolCodec
  import StoreSpec
  import opened VaultStore
  import opened Sockets
  import opened Session
  import opened SessionLaws

  /** The disk did nothing during a session. */
  ghost predicate Faultless(faults: seq<StoreSpec.Fault>) { forall f | f in faults :: f.None? }

  class Server {
    const store: VaultStore

    constructor (store: VaultStore)
      ensures this.store == store
    {
      this.store := store;
    }

    method AnswerPut(payload: bytes) returns (reply: Reply, ghost fault: StoreSpec.Fault)
      requires store.Valid()
      modifies store, store.kernel
      ensures store.Valid() && StoreSpec.ValidFault(fault)
      ensures store.kernel.failures >= old(store.kernel.failures)
      ensures fault.None? <==> store.kernel.failures == old(store.kernel.failures)
      ensures (store.View(), reply) == Session.AnswerPut(old(store.View()), payload, fault)
    {
      fault := None;
      var decoded := ProtocolCodec.DecodePutRequest(payload);
      if decoded.None? { return Malformed(BadPutPayload), fault; }
      var error;
      error, fault := store.Put(decoded.value.0, decoded.value.1);
      reply := if error.Some? then Refusal(error.value) else Done([]);
    }

    method AnswerRemove(payload: bytes) returns (reply: Reply, ghost fault: StoreSpec.Fault)
      requires store.Valid()
      modifies store, store.kernel
      ensures store.Valid() && StoreSpec.ValidFault(fault)
      ensures store.kernel.failures >= old(store.kernel.failures)
      ensures fault.None? <==> store.kernel.failures == old(store.kernel.failures)
      ensures (store.View(), reply) == Session.AnswerRemove(old(store.View()), payload, fault)
    {
      fault := None;
      var id := ProtocolCodec.DecodeIdRequest(payload);
      if id.None? { return Malformed(BadIdPayload), fault; }
      var removed;
      removed, fault := store.Remove(id.value);
      reply := match removed
        case Ok(true) => Done([])
        case Ok(false) => Refusal(OutOfRange(SecretMissing))
        case Err(e) => Refusal(e);
    }

    method AnswerGet(payload: bytes) returns (reply: Reply)
      requires store.Valid()
      ensures reply == Session.AnswerGet(store.View(), payload)
    {
      var id := ProtocolCodec.DecodeIdRequest(payload);
      if id.None? { return Malformed(BadIdPayload); }
      var value := store.Get(id.value);
      reply := match value case Ok(data) => Done(data) case Err(e) => Refusal(e);
    }

    method AnswerList(payload: bytes) returns (reply: Reply)
      requires store.Valid()
      ensures reply == Session.AnswerList(store.View(), payload)
    {
      if payload != [] { return Malformed(ListNotEmpty); }
      var ids := store.List();
      if ids.Err? { return Refusal(ids.error); }
      var data := ProtocolCodec.EncodeIdList(ids.value);
      reply := match data case Ok(d) => Done(d) case Err(e) => Refusal(e);
    }

    /** The switch on the message type, with its exception handler. */
    method Answer(kind: nat, payload: bytes) returns (reply: Reply, ghost fault: StoreSpec.Fault)
      requires store.Valid() && ResponseKind(kind).Some?
      modifies store, store.kernel
      ensures store.Valid() && StoreSpec.ValidFault(fault)
      ensures store.kernel.failures >= old(store.kernel.failures)
      ensures fault.None? <==> store.kernel.failures == old(store.kernel.failures)
      ensures (store.View(), reply) == Session.Answer(old(store.View()), kind, payload, fault)
    {
      hide Session.AnswerPut, Session.AnswerGet, Session.AnswerRemove, Session.AnswerList;
      fault := None;
      if kind == PING_REQUEST {
        reply := if payload != [] then Malformed(PingNotEmpty) else Done([]);
      } else if kind == PUT_REQUEST {
        reply, fault := AnswerPut(payload);
      } else if kind == GET_REQUEST {
        reply := AnswerGet(payload);
      } else if kind == REMOVE_REQUEST {
        reply, fault := AnswerRemove(payload);
      } else if kind == LOCK_REQUEST {
        if payload != [] {
          reply := Malformed(LockNotEmpty);
        } else {
          store.Lock();
          reply := Done([]);
        }
      } else {
        reply := AnswerList(payload);
      }
    }

    /** `encode_response` and `encode_frame`; None when either throws. */
    method EncodeReply(kind: nat, requestId: u64, reply: Reply) returns (frame: Option<bytes>)
      requires ResponseKind(kind).Some?
      ensures frame == ReplyFrame(kind, requestId, reply)
    {
      var payload := ProtocolCodec.EncodeResponse(Response(reply.status, Render(reply.text), reply.data));
      if payload.Err? { return None; }
      var r := ProtocolCodec.EncodeFrame(ResponseKind(kind).value, requestId, payload.value);
      frame := match r case Ok(f) => Some(f) case Err(_) => None;
    }

    /** Reads the next request, if one arrives whole. */
    method ReadRequest(socket: Socket) returns (request: Option<(Header, bytes)>, exit: Exit)
      modifies socket`input
      ensures End(socket.input) == End(old(socket.input))
      ensures match FirstFrame(Stream(old(socket.input)))
        case Request(h, payload, rest) => request == Some((h, payload)) && Stream(socket.input) == rest
        case NoHeader => request.None? && exit == (if End(old(socket.input)).PeerClosed? then Returned else Threw)
        case BadHeader => request.None? && exit == Threw
        case Cut => request.None? && exit == Threw
    {
      hide ParseHeader;
      request, exit := None, Threw;
      var encoded := ReadAll(socket, HEADER_SIZE);
      if encoded.Closed? { return None, Returned; }
      if encoded.Failed? { return None, Threw; }
      var header := ProtocolCodec.DecodeHeader(encoded.data);
      if header.None? { return None, Threw; }
      if ResponseKind(header.value.kind).None? { return None, Threw; }
      var payload := ReadAll(socket, header.value.payloadSize);
      if !payload.Complete? { return None, Threw; }
      return Some((header.value, payload.data)), Returned;
    }

    /** One turn of the loop. */
    method Turn(socket: Socket) returns (exit: Option<Exit>, ghost fault: StoreSpec.Fault)
      requires store.Valid()
      modifies store, store.kernel, socket
      ensures store.Valid() && StoreSpec.ValidFault(fault) && End(socket.input) == End(old(socket.input))
      ensures store.kernel.failures >= old(store.kernel.failures)
      ensures fault.None? <==> store.kernel.failures == old(store.kernel.failures)
      ensures match OneTurn(old(store.View()), fault,
          Stream(old(socket.input)), End(old(socket.input)), Capacity(old(socket.output)))
        case Stop(o) => exit == Some(o.exit) && store.View() == o.vault && socket.sent == old(socket.sent) + o.sent
        case Go(w, frame, rest) =>
          exit.None? && store.View() == w && socket.sent == old(socket.sent) + frame
          && Stream(socket.input) == rest && Capacity(socket.output) == Capacity(old(socket.output)) - |frame|
    {
      hide FirstFrame, Session.Answer, ReplyFrame, ResponseKind;
      fault := None;
      var request, stop := ReadRequest(socket);
      RequestIsAnswerable(Stream(old(socket.input)));
      if request.None? {
        assert socket.sent == old(socket.sent) + [];
        return Some(stop), fault;
      }
      var (h, payload) := request.value;
      var reply;
      reply, fault := Answer(h.kind, payload);
      var frame := EncodeReply(h.kind, h.requestId, reply);
      if frame.None? {
        assert socket.sent == old(socket.sent) + [];
        return Some(Threw), fault;
      }
      var ok := Sockets.WriteAll(socket, frame.value);
      if !ok { return Some(Threw), fault; }
      assert frame.value[..|frame.value|] == frame.value;
      return None, fault;
    }

    /**
     `handle_client`: the store, the bytes sent and the way the session ends are a function of the
     stream, of how it ends, of the room for replies and of what the disk did - not of how the bytes
     were split into parts or how often a call was interrupted.  The disk did nothing unless a call failed.
     */
    method HandleClient(socket: Socket) returns (exit: Exit, ghost faults: seq<StoreSpec.Fault>)
      requires store.Valid()
      modifies store, store.kernel, socket
      ensures store.Valid() && ValidFaults(faults)
      ensures store.kernel.failures >= old(store.kernel.failures)
      ensures Faultless(faults) <==> store.kernel.failures == old(store.kernel.failures)
      ensures var o := RunSession(old(store.View()), faults,
          Stream(old(socket.input)), End(old(socket.input)), Capacity(old(socket.output)));
        store.View() == o.vault && exit == o.exit && socket.sent == old(socket.sent) + o.sent
    {
      hide OneTurn, RunSession, Resumes, Stream, Capacity, End;
      ghost var v0, stream := store.View(), Stream(socket.input);
      ghost var ending, room := End(socket.input), Capacity(socket.output);
      ghost var sent: bytes := [];
      faults := [];
      ResumesAtStart(v0, stream, ending, room);
      while true
        invariant store.Valid() && ValidFaults(faults) && End(socket.input) == ending
        invariant store.kernel.failures >= old(store.kernel.failures)
        invariant Faultless(faults) <==> store.kernel.failures == old(store.kernel.failures)
        invariant socket.sent == old(socket.sent) + sent
        invariant Resumes(v0, faults, stream, ending, room, sent,
          store.View(), Stream(socket.input), Capacity(socket.output))
        decreases |Stream(socket.input)|
      {
        ghost var v, input, left := store.View(), Stream(socket.input), Capacity(socket.output);
        var stop;
        ghost var fault;
        stop, fault := Turn(socket);
        ghost var turn := OneTurn(v, fault, input, ending, left);
        ResumeTurn(v0, faults, stream, ending, room, sent, v, input, left, fault);
        faults := faults + [fault];
        if stop.Some? {
          assert socket.sent == old(socket.sent) + (sent + turn.outcome.sent);
          return stop.value, faults;
        }
        sent := sent + turn.frame;
      }
    }

    /** The accept loop of `run`: one session after the other; how a session ends does not matter. */
    method Run(sockets: seq<Socket>) returns (ghost served: seq<Connection>)
      requires store.Valid()
      requires forall i, j :: 0 <= i < j < |sockets| ==> sockets[i] != sockets[j]
      modifies store, store.kernel, sockets
      ensures store.Valid() && |served| == |sockets|
      ensures store.kernel.failures >= old(store.kernel.failures)
      ensures (forall c | c in served :: Faultless(c.faults)) <==> store.kernel.failures == old(store.kernel.failures)
      ensures forall i | 0 <= i < |sockets| :: Serves(served[i], old(sockets[i].input), old(sockets[i].output))
      ensures store.View() == Serve(old(store.View()), served)
    {
      hide RunSession, Serve, Stream, End, Capacity;
      ghost var v0 := store.View();
      served := [];
      NobodyServed(v0);
      for i := 0 to |sockets|
        invariant store.Valid() && |served| == i
        invariant store.kernel.failures >= old(store.kernel.failures)
        invariant (forall c | c in served :: Faultless(c.faults))
          <==> store.kernel.failures == old(store.kernel.failures)
        invariant forall j | i <= j < |sockets| ::
          sockets[j].input == old(sockets[j].input) && sockets[j].output == old(sockets[j].output)
        invariant forall j | 0 <= j < i :: Serves(served[j], old(sockets[j].input), old(sockets[j].output))
        invariant store.View() == Serve(v0, served)
      {
        var exit;
        ghost var faults;
        ghost var c := Connection([], Stream(sockets[i].input), End(sockets[i].input), Capacity(sockets[i].output));
        exit, faults := HandleClient(sockets[i]);
        c := c.(faults := faults);
        ServeOneMore(v0, served, c);
        served := served + [c];
      }
    }
  }

  /** A connection is the stream, its end and the room of a socket, with valid faults. */
  ghost predicate Serves(c: Connection, input: seq<Arrival>, output: seq<Departure>) {
    c.input == Stream(input) && c.ending == End(input) && c.room == Capacity(output) && ValidFaults(c.faults)
  }

  lemma NobodyServed(v: StoreSpec.Vault)
    ensures Serve(v, []) == v
  {}

  /** A later session works on what the earlier ones left. */
  lemma {:induction false} ServeOneMore(v: StoreSpec.Vault, cs: seq<Connection>, c: Connection)
    ensures Serve(v, cs + [c]) == RunSession(Serve(v, cs), c.faults, c.input, c.ending, c.room).vault
    decreases |cs|
  {
    hide RunSession;
    if cs == [] {
      assert ([c] + [])[1..] == [];
      assert cs + [c] == [c];
    } else {
      assert (cs + [c])[1..] == cs[1..] + [c];
      ServeOneMore(RunSession(v, cs[0].faults, cs[0].input, cs[0].ending, cs[0].room).vault, cs[1..], c);
    }
  }

  lemma ResumesAtStart(v: StoreSpec.Vault, stream: bytes, ending: Ending, room: nat)
    ensures Resumes(v, [], stream, ending, room, [], v, stream, room)
  {
    hide RunSession;
    forall later: seq<StoreSpec.Fault>
      ensures RunSession(v, [] + later, stream, ending, room) == Prepend([], RunSession(v, later, stream, ending, room))
    {
      assert [] + later == later;
      assert [] + RunSession(v, later, stream, ending, room).sent == RunSession(v, later, stream, ending, room).sent;
    }
  }

  lemma RequestIsAnswerable(input: bytes)
    ensures FirstFrame(input).Request? ==>
      ResponseKind(FirstFrame(input).header.kind).Some? && FirstFrame(input).header.requestId < 0x1_0000_0000_0000_0000
  {
    if FirstFrame(input).Request? { ParsedHeaderFits(input[..HEADER_SIZE]); }
  }

  /** Whatever faults are still to come, the session so far and the session from here make the whole. */
  ghost predicate Resumes(
    v0: StoreSpec.Vault, faults: seq<StoreSpec.Fault>, stream: bytes, ending: Ending, room: nat,
    sent: bytes, v: StoreSpec.Vault, input: bytes, left: nat)
  {
    forall later: seq<StoreSpec.Fault> ::
      RunSession(v0, faults + later, stream, ending, room) == Prepend(sent, RunSession(v, later, input, ending, left))
  }

  lemma ResumeTurn(
    v0: StoreSpec.Vault, faults: seq<StoreSpec.Fault>, stream: bytes, ending: Ending, room: nat,
    sent: bytes, v: StoreSpec.Vault, input: bytes, left: nat, fault: StoreSpec.Fault)
    requires Resumes(v0, faults, stream, ending, room, sent, v, input, left)
    ensures match OneTurn(v, fault, input, ending, left)
      case Stop(o) => RunSession(v0, faults + [fault], stream, ending, room) == Prepend(sent, o)
      case Go(w, frame, rest) =>
        Resumes(v0, faults + [fault], stream, ending, room, sent + frame, w, rest, left - |frame|)
  {
    hide OneTurn;
    match OneTurn(v, fault, input, ending, left)
    case Stop(o) =>
      assert RunSession(v, [fault], input, ending, left) == o;
    case Go(w, frame, rest) =>
      forall later: seq<StoreSpec.Fault>
        ensures RunSession(v0, faults + [fault] + later, stream, ending, room)
             == Prepend(sent + frame, RunSession(w, later, rest, ending, left - |frame|))
      {
        assert faults + [fault] + later == faults + ([fault] + later);
        assert ([fault] + later)[1..] == later;
        PrependTwice(sent, frame, RunSession(w, later, rest, ending, left - |frame|));
      }
  }
}
