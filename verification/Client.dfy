/** The client handle as the C library keeps it: a socket that is given up on failure, and a counter. */
module Client {
  import opened Bytes
  import opened Errors
  import opened Protocol
  import ProtocolCodec
  import SecretId
  import opened Sockets
  import opened AbstractVault
  import opened ClientSpec

  class Client {
    var socket: Socket?
    var nextRequestId: u64

    ghost predicate Valid()
      reads this
    {
      nextRequestId != 0
    }

    function View(): Handle
      reads this
    {
      Handle(socket != null, nextRequestId)
    }

    /** The bytes that may still be read, and the room for bytes to be sent. */
    ghost function Input(): bytes
      reads this, socket
    {
      if socket == null then [] else Stream(socket.input)
    }

    ghost function Space(): nat
      reads this, socket
    {
      if socket == null then 0 else Capacity(socket.output)
    }

    constructor (socket: Socket)
      ensures Valid() && this.socket == socket && View() == Handle(true, 1)
    {
      this.socket, nextRequestId := socket, 1;
    }

    method Disconnect()
      modifies this`socket
      ensures socket == null
    {
      socket := null;
    }

    ghost function Sent(): bytes
      reads this, socket
    {
      if socket == null then [] else socket.sent
    }

    /** What a call leaves behind: the handle, the bytes sent over its socket, the bytes not read from it. */
    ghost predicate Leaves(before: Socket?, sentBefore: bytes, handle: Handle, sent: bytes, rest: bytes)
      reads this, before
    {
      && View() == handle
      && (socket != null ==> socket == before)
      && (if before == null then sent == [] else before.sent == sentBefore + sent)
      && (socket != null && socket == before ==> Stream(socket.input) == rest)
    }

    /** `transact`. */
    method Transact(kind: u16, payload: bytes) returns (status: Status, response: Option<Response>)
      requires Valid() && ResponseKind(kind).Some?
      modifies this, socket
      ensures Valid()
      ensures var x := ClientSpec.Transact(old(View()), kind, payload, old(Input()), old(Space()));
        status == x.status && response == x.response && Leaves(old(socket), old(Sent()), x.handle, x.sent, x.rest)
    {
      hide FrameBytes, ReadResponse;
      response := None;
      if socket == null { return BadArgument, None; }
      var requestId := nextRequestId;
      nextRequestId := (nextRequestId + 1) % 0x1_0000_0000_0000_0000;
      if nextRequestId == 0 { nextRequestId := 1; }
      var frame := ProtocolCodec.EncodeFrame(kind, requestId, payload);
      if frame.Err? {
        assert socket.sent == old(socket.sent) + [];
        return BadArgument, None;
      }
      var ok := WriteAll(socket, frame.value);
      if !ok {
        Disconnect();
        return IoError, None;
      }
      assert frame.value[..|frame.value|] == frame.value;
      status, response := Receive(kind, requestId, frame.value);
    }

    /** The second half of `transact`: the response to the request just sent. */
    method Receive(kind: u16, requestId: u64, ghost frame: bytes) returns (status: Status, response: Option<Response>)
      requires socket != null && nextRequestId != 0
      modifies this`socket, socket`input
      ensures var x := ReadResponse(old(View()), kind, requestId, frame, old(Stream(socket.input)));
        && status == x.status && response == x.response && View() == x.handle
        && (socket != null ==> socket == old(socket) && Stream(socket.input) == x.rest)
    {
      hide ParseHeader, ParseResponse, ResponseKind;
      response := None;
      var encoded := ReadAll(socket, HEADER_SIZE);
      if !encoded.Complete? {
        Disconnect();
        return IoError, None;
      }
      var header := ProtocolCodec.DecodeHeader(encoded.data);
      if header.None? || header.value.requestId != requestId || ResponseKind(kind) != Some(header.value.kind) {
        Disconnect();
        return Status.ProtocolError, None;
      }
      var payload := ReadAll(socket, header.value.payloadSize);
      if !payload.Complete? {
        Disconnect();
        return IoError, None;
      }
      response := ProtocolCodec.DecodeResponse(payload.data);
      if response.None? {
        Disconnect();
        return Status.ProtocolError, None;
      }
      status := response.value.status;
    }

    method Ping() returns (status: Status)
      requires Valid()
      modifies this, socket
      ensures Valid()
      ensures var c := Call(old(View()), Operation.Ping, old(Input()), old(Space()));
        status == c.status && Leaves(old(socket), old(Sent()), c.handle, c.sent, c.rest)
    {
      hide ClientSpec.Transact;
      var response;
      status, response := Transact(PING_REQUEST, []);
    }

    method PutSecret(id: bytes, value: bytes) returns (status: Status)
      requires Valid()
      modifies this, socket
      ensures Valid()
      ensures var c := Call(old(View()), Put(id, value), old(Input()), old(Space()));
        status == c.status && Leaves(old(socket), old(Sent()), c.handle, c.sent, c.rest)
    {
      hide ClientSpec.Transact, PutRequestBytes, SecretId.IsValid;
      if socket != null { assert socket.sent == old(socket.sent) + []; }
      if !SecretId.IsValid(id) { return BadArgument; }
      var payload := ProtocolCodec.EncodePutRequest(id, value);
      if payload.Err? { return BadArgument; }
      var response;
      status, response := Transact(PUT_REQUEST, payload.value);
    }

    method GetSecret(id: bytes) returns (status: Status, secret: Data)
      requires Valid()
      modifies this, socket
      ensures Valid()
      ensures var c := Call(old(View()), Get(id), old(Input()), old(Space()));
        status == c.status && secret == c.data && Leaves(old(socket), old(Sent()), c.handle, c.sent, c.rest)
    {
      hide ClientSpec.Transact, IdRequestBytes, SecretId.IsValid;
      secret := NoData;
      if socket != null { assert socket.sent == old(socket.sent) + []; }
      if !SecretId.IsValid(id) { return BadArgument, NoData; }
      var payload := ProtocolCodec.EncodeIdRequest(id);
      if payload.Err? { return BadArgument, NoData; }
      var response;
      status, response := Transact(GET_REQUEST, payload.value);
      if status == Success && response.Some? { secret := Secret(response.value.data); }
    }

    method RemoveSecret(id: bytes) returns (status: Status)
      requires Valid()
      modifies this, socket
      ensures Valid()
      ensures var c := Call(old(View()), Remove(id), old(Input()), old(Space()));
        status == c.status && Leaves(old(socket), old(Sent()), c.handle, c.sent, c.rest)
    {
      hide ClientSpec.Transact, IdRequestBytes, SecretId.IsValid;
      if socket != null { assert socket.sent == old(socket.sent) + []; }
      if !SecretId.IsValid(id) { return BadArgument; }
      var payload := ProtocolCodec.EncodeIdRequest(id);
      if payload.Err? { return BadArgument; }
      var response;
      status, response := Transact(REMOVE_REQUEST, payload.value);
    }

    method ListSecrets() returns (status: Status, list: Data)
      requires Valid()
      modifies this, socket
      ensures Valid()
      ensures var c := Call(old(View()), List, old(Input()), old(Space()));
        status == c.status && list == c.data && Leaves(old(socket), old(Sent()), c.handle, c.sent, c.rest)
    {
      hide ClientSpec.Transact, ParseIdList;
      list := NoData;
      var response;
      status, response := Transact(LIST_REQUEST, []);
      if status == Success && response.Some? {
        var ids := ProtocolCodec.DecodeIdList(response.value.data);
        if ids.None? {
          Disconnect();
          return Status.ProtocolError, NoData;
        }
        list := Ids(ids.value);
      }
    }

    method Lock() returns (status: Status)
      requires Valid()
      modifies this, socket
      ensures Valid()
      ensures var c := Call(old(View()), Operation.Lock, old(Input()), old(Space()));
        status == c.status && Leaves(old(socket), old(Sent()), c.handle, c.sent, c.rest)
    {
      hide ClientSpec.Transact;
      var response;
      status, response := Transact(LOCK_REQUEST, []);
    }
  }
}
