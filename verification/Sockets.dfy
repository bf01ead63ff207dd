/** A stream socket with partial transfers, and the loops that read and write exactly. */
module Sockets {
  import opened Bytes

  /** What the next recv reports: part of the stream, a signal, or an error.  An empty part is the peer's close. */
  datatype Arrival = Data(part: bytes) | Interrupt | Failure

  /** What the next send reports: room for so many bytes, a signal, or an error.  No room is an error too. */
  datatype Departure = Room(size: nat) | Signal | Broken

  datatype Ending = PeerClosed | ReceiveFailed

  // ---------------------------------------------------------------- the stream behind the arrivals

  /** Every byte that will arrive before the peer closes or receiving fails. */
  function Stream(input: seq<Arrival>): bytes {
    if input == [] then []
    else
      match input[0]
      case Data(part) => if part == [] then [] else part + Stream(input[1..])
      case Interrupt => Stream(input[1..])
      case Failure => []
  }

  /** How the stream ends; when nothing more is to arrive the peer has closed. */
  function End(input: seq<Arrival>): Ending {
    if input == [] then PeerClosed
    else
      match input[0]
      case Data(part) => if part == [] then PeerClosed else End(input[1..])
      case Interrupt => End(input[1..])
      case Failure => ReceiveFailed
  }

  /** How many bytes will be taken before sending fails. */
  function Capacity(output: seq<Departure>): nat {
    if output == [] then 0
    else
      match output[0]
      case Room(size) => if size == 0 then 0 else size + Capacity(output[1..])
      case Signal => Capacity(output[1..])
      case Broken => 0
  }

  lemma StreamCons(a: Arrival, rest: seq<Arrival>)
    ensures a.Data? && a.part != [] ==> Stream([a] + rest) == a.part + Stream(rest) && End([a] + rest) == End(rest)
    ensures a.Interrupt? ==> Stream([a] + rest) == Stream(rest) && End([a] + rest) == End(rest)
  {
    assert ([a] + rest)[1..] == rest;
  }

  /** However a part is split, and wherever signals arrive, the stream is the same. */
  lemma {:induction false} SplittingKeepsStream(before: seq<Arrival>, a: bytes, b: bytes, after: seq<Arrival>)
    requires a != [] && b != []
    ensures var whole, split := before + [Data(a + b)] + after, before + [Data(a), Interrupt, Data(b)] + after;
      Stream(whole) == Stream(split) && End(whole) == End(split)
  {
    var whole, split := before + [Data(a + b)] + after, before + [Data(a), Interrupt, Data(b)] + after;
    if before == [] {
      assert whole == [Data(a + b)] + after && |a + b| > 0;
      assert split == [Data(a)] + ([Interrupt] + ([Data(b)] + after));
      StreamCons(Data(a + b), after);
      StreamCons(Data(b), after);
      StreamCons(Interrupt, [Data(b)] + after);
      StreamCons(Data(a), [Interrupt] + ([Data(b)] + after));
      assert a + b + Stream(after) == a + (b + Stream(after));
    } else {
      assert whole[1..] == before[1..] + [Data(a + b)] + after;
      assert split[1..] == before[1..] + [Data(a), Interrupt, Data(b)] + after;
      SplittingKeepsStream(before[1..], a, b, after);
    }
  }

  /** The same for what the peer takes. */
  lemma {:induction false} SplittingKeepsRoom(before: seq<Departure>, a: nat, b: nat, after: seq<Departure>)
    requires a > 0 && b > 0
    ensures Capacity(before + [Room(a + b)] + after) == Capacity(before + [Room(a), Signal, Room(b)] + after)
  {
    var whole, split := before + [Room(a + b)] + after, before + [Room(a), Signal, Room(b)] + after;
    if before == [] {
      assert whole == [Room(a + b)] + after;
      assert split == [Room(a)] + ([Signal] + ([Room(b)] + after));
      RoomCons(Room(a + b), after);
      RoomCons(Room(b), after);
      RoomCons(Signal, [Room(b)] + after);
      RoomCons(Room(a), [Signal] + ([Room(b)] + after));
    } else {
      assert whole[1..] == before[1..] + [Room(a + b)] + after;
      assert split[1..] == before[1..] + [Room(a), Signal, Room(b)] + after;
      SplittingKeepsRoom(before[1..], a, b, after);
    }
  }

  lemma RoomCons(d: Departure, rest: seq<Departure>)
    ensures d.Room? && d.size > 0 ==> Capacity([d] + rest) == d.size + Capacity(rest)
    ensures d.Signal? ==> Capacity([d] + rest) == Capacity(rest)
  {
    assert ([d] + rest)[1..] == rest;
  }

  // ---------------------------------------------------------------- the socket

  datatype Received = Got(data: bytes) | Interrupted | Errored

  datatype ReadResult = Complete(data: bytes) | Closed | Failed

  class Socket {
    var input: seq<Arrival>
    var output: seq<Departure>
    var sent: bytes

    constructor (input: seq<Arrival>, output: seq<Departure>)
      ensures this.input == input && this.output == output && sent == []
    {
      this.input, this.output, sent := input, output, [];
    }

    /** recv: at most `size` bytes of the next part; what does not fit stays for the next call. */
    method Recv(size: nat) returns (r: Received)
      requires size > 0
      modifies this`input
      ensures r.Got? && r.data != [] ==>
        |r.data| <= size && Stream(old(input)) == r.data + Stream(input) && End(input) == End(old(input))
      ensures r.Got? && r.data == [] ==> Stream(old(input)) == [] && End(old(input)) == PeerClosed
      ensures r.Interrupted? ==>
        Stream(input) == Stream(old(input)) && End(input) == End(old(input)) && |input| < |old(input)|
      ensures r.Errored? ==> Stream(old(input)) == [] && End(old(input)) == ReceiveFailed
      ensures (r.Got? && r.data == []) || r.Errored? ==> input == old(input)
    {
      if input == [] { return Got([]); }
      match input[0] {
        case Interrupt =>
          input := input[1..];
          return Interrupted;
        case Failure => return Errored;
        case Data(part) =>
          if |part| <= size {
            if part != [] { input := input[1..]; }
            return Got(part);
          }
          assert part == part[..size] + part[size..];
          assert part[..size] + (part[size..] + Stream(input[1..])) == part + Stream(input[1..]);
          input := [Data(part[size..])] + input[1..];
          return Got(part[..size]);
      }
    }

    /** send: as much of the data as there is room for. */
    method Send(data: bytes) returns (r: Received)
      requires data != []
      modifies this`output, this`sent
      ensures r.Got? ==>
        r.data <= data && sent == old(sent) + r.data && Capacity(old(output)) == |r.data| + Capacity(output)
      ensures r.Got? && r.data == [] ==> Capacity(old(output)) == 0
      ensures r.Interrupted? ==>
        Capacity(output) == Capacity(old(output)) && |output| < |old(output)| && sent == old(sent)
      ensures r.Errored? ==> Capacity(old(output)) == 0 && output == old(output) && sent == old(sent)
    {
      if output == [] { return Errored; }
      match output[0] {
        case Signal =>
          output := output[1..];
          return Interrupted;
        case Broken => return Errored;
        case Room(size) =>
          if size == 0 { return Got([]); }
          if size <= |data| {
            output := output[1..];
            sent := sent + data[..size];
            return Got(data[..size]);
          }
          output := [Room(size - |data|)] + output[1..];
          sent := sent + data;
          return Got(data);
      }
    }
  }

  // ---------------------------------------------------------------- exact transfers

  /**
   `read_all`: the next `size` bytes of the stream whatever parts they come in, or, if the stream is
   shorter, how it ended.
   */
  method ReadAll(socket: Socket, size: nat) returns (r: ReadResult)
    modifies socket`input
    ensures End(socket.input) == End(old(socket.input))
    ensures if |Stream(old(socket.input))| >= size
      then r == Complete(Stream(old(socket.input))[..size]) && Stream(socket.input) == Stream(old(socket.input))[size..]
      else r == (if End(old(socket.input)).PeerClosed? then Closed else Failed) && Stream(socket.input) == []
  {
    var data: bytes := [];
    while |data| < size
      invariant |data| <= size
      invariant Stream(old(socket.input)) == data + Stream(socket.input)
      invariant End(socket.input) == End(old(socket.input))
      decreases size - |data|, |socket.input|
    {
      var received := socket.Recv(size - |data|);
      match received {
        case Interrupted =>
        case Errored => return Failed;
        case Got(part) =>
          if part == [] { return Closed; }
          data := data + part;
      }
    }
    return Complete(data);
  }

  /** `write_all`: everything, or as much as the peer takes before the connection breaks. */
  method WriteAll(socket: Socket, data: bytes) returns (ok: bool)
    modifies socket`output, socket`sent
    ensures ok <==> |data| <= Capacity(old(socket.output))
    ensures socket.sent == old(socket.sent) + data[..Min(|data|, Capacity(old(socket.output)))]
    ensures Capacity(socket.output) == Capacity(old(socket.output)) - Min(|data|, Capacity(old(socket.output)))
  {
    var offset := 0;
    while offset < |data|
      invariant offset <= |data| && offset <= Capacity(old(socket.output))
      invariant socket.sent == old(socket.sent) + data[..offset]
      invariant Capacity(old(socket.output)) == offset + Capacity(socket.output)
      decreases |data| - offset, |socket.output|
    {
      var written := socket.Send(data[offset..]);
      match written {
        case Interrupted =>
        case Errored => return false;
        case Got(part) =>
          if part == [] {
            assert socket.sent == old(socket.sent) + data[..offset];
            return false;
          }
          assert data[..offset] + part == data[..offset + |part|];
          offset := offset + |part|;
      }
    }
    return true;
  }
}
