/**
 Whole conversations.  The calls made on one handle are one stream to the server, which runs one
 session on it; any run of connections, each breaking where it may, is the accept loop on these
 streams, and behaves like the abstract vault.
 */
module Connection {
  import opened Bytes
  import opened Errors
  import opened Protocol
  import S = StoreSpec
  import opened Sockets
  import opened Session
  import SessionLaws
  import opened AbstractVault
  import opened ClientSpec
  import opened EndToEnd

  /** A call, and what the disk does to the server while it is answered. */
  datatype Said = Said(op: Operation, fault: S.Fault)

  /** What a call reported. */
  datatype Answered = Answered(status: Status, data: Data)

  /** A conversation: its result, the two streams it consisted of, and what each call reported. */
  datatype Talked = Talked(
    vault: S.Vault, handle: Handle, stream: bytes, replies: bytes, faults: seq<S.Fault>, log: seq<Answered>)

  /** What is left of a channel after a call. */
  function Used(ch: Channel, sent: bytes, received: bytes): Channel
    requires |sent| <= ch.requestRoom && |received| <= ch.replyRoom
  {
    Channel(ch.requestRoom - |sent|, ch.replyRoom - |received|, ch.ending)
  }

  /** Calls made one after the other on one connection, which may break at any byte in either direction. */
  ghost function Talk(v: S.Vault, h: Handle, calls: seq<Said>, ch: Channel): Talked
    decreases |calls|
  {
    if calls == [] then Talked(v, h, [], [], [], [])
    else
      var c := calls[0];
      var r := Over(v, h, c.op, c.fault, ch);
      Joined(c, r, Talk(r.vault, r.handle, calls[1..], Used(ch, r.sent, r.received)))
  }

  /** An exchange, then a conversation. */
  function Joined(c: Said, r: Finished, t: Talked): Talked {
    Talked(t.vault, t.handle, r.sent + t.stream, r.received + t.replies,
           if r.sent == [] then t.faults else [c.fault] + t.faults, [Answered(r.status, r.data)] + t.log)
  }

  ghost predicate Tolerable(calls: seq<Said>) { forall c | c in calls :: S.ValidFault(c.fault) }

  // ---------------------------------------------------------------- one connection is one session

  /** Once closed, a handle sends nothing, changes nothing and refuses every call. */
  lemma {:induction false} ClosedStaysClosed(v: S.Vault, h: Handle, calls: seq<Said>, ch: Channel)
    requires !h.open
    ensures var t := Talk(v, h, calls, ch);
      && t == Talked(v, h, [], [], [], t.log)
      && forall a | a in t.log :: a == Answered(BadArgument, NoData)
    decreases |calls|
  {
    hide RequestPayload, RunSession, Over;
    if calls != [] {
      RefusedCall(v, h, calls[0].op, calls[0].fault, ch);
      ClosedStaysClosed(v, h, calls[1..], Used(ch, [], []));
    }
  }

  /** An exchange that leaves the handle open: the whole request went out and the whole reply came back. */
  lemma OpenIsWhole(v: S.Vault, h: Handle, op: Operation, fault: S.Fault, ch: Channel)
    requires S.Good(v) && S.ValidFault(fault) && ValidHandle(h) && RequestPayload(op).Some?
    requires Over(v, h, op, fault, ch).handle.open
    ensures var r := Over(v, h, op, fault, ch); var req := RequestOf(h, op);
      var (w, reply) := Answer(v, req.kind, req.payload, fault);
      && r.vault == w && r.sent == ReqFrame(req)
      && ReplyFrame(req.kind, req.requestId, reply) == Some(r.received)
  {
    hide RequestPayload, RunSession, Over, Answer, Perform, ReplyFrame, ReqFrame, Oversize, Says, Call, S.Good,
      SessionLaws.OversizeGet;
    var req := RequestOf(h, op);
    if ch.requestRoom < |ReqFrame(req)| {
      CutRequest(v, h, op, fault, ch);
      assert false;
    }
    SentRequest(v, h, op, fault, ch);
    AnswerIsPerform(v, op, fault);
    SessionLaws.ReplyFitsExactly(v, req.kind, req.requestId, req.payload, fault);
    ServerSide(v, fault, req, |ReqFrame(req)|, ch.ending, ch.replyRoom);
    assert ReqFrame(req)[..|ReqFrame(req)|] == ReqFrame(req);
    var frame := ReplyFrame(req.kind, req.requestId, Answer(v, req.kind, req.payload, fault).1).value;
    assert frame[..|frame|] == frame;
  }

  /** Such an exchange is one turn of the session. */
  lemma OpenIsOneTurn(
    v: S.Vault, h: Handle, op: Operation, fault: S.Fault, ch: Channel, later: seq<S.Fault>, rest: bytes)
    requires S.Good(v) && S.ValidFault(fault) && ValidHandle(h) && RequestPayload(op).Some?
    requires Over(v, h, op, fault, ch).handle.open
    ensures var r := Over(v, h, op, fault, ch);
      && r.sent != []
      && RunSession(v, [fault] + later, r.sent + rest, ch.ending, ch.replyRoom)
         == Prepend(r.received, RunSession(r.vault, later, rest, ch.ending, ch.replyRoom - |r.received|))
  {
    hide RequestPayload, RunSession, Over, Answer, ReplyFrame, ReqFrame, Call, S.Good, Prepend;
    OpenIsWhole(v, h, op, fault, ch);
    FrameIsNotEmpty(RequestOf(h, op));
    SessionStep(v, [fault] + later, RequestOf(h, op), rest, ch.ending, ch.replyRoom);
    assert HeadFault([fault] + later) == fault && TailFaults([fault] + later) == later;
  }

  lemma FrameIsNotEmpty(r: Req)
    ensures ReqFrame(r) != []
  {
    hide HeaderBytes;
  }

  /** One session of the server accounts for this conversation, begun in this state on this channel. */
  ghost predicate IsSession(v: S.Vault, t: Talked, ch: Channel) {
    var o := RunSession(v, t.faults, t.stream, ch.ending, ch.replyRoom);
    && o.vault == t.vault && o.sent == t.replies
    && (t.handle.open ==> o.exit == if ch.ending.PeerClosed? then Returned else Threw)
  }

  /**
   Whatever calls are made on a handle and wherever its connection breaks, one session of the server on
   the bytes that reached it makes the same changes and sends the same replies; if the handle is still
   open at the end, the session ends as an idle one does.
   */
  lemma {:induction false} OneSession(v: S.Vault, h: Handle, calls: seq<Said>, ch: Channel)
    requires S.Good(v) && ValidHandle(h) && Tolerable(calls)
    ensures IsSession(v, Talk(v, h, calls, ch), ch)
    decreases |calls|
  {
    hide RequestPayload, Over, S.Good, Perform, IsSession, Joined;
    if calls == [] {
      EmptySession(v, h, ch);
    } else {
      var c := calls[0];
      assert c in calls;
      CallRefines(v, h, c.op, c.fault, ch);
      var r := Over(v, h, c.op, c.fault, ch);
      var left := Used(ch, r.sent, r.received);
      OneSession(r.vault, r.handle, calls[1..], left);
      var t := Talk(r.vault, r.handle, calls[1..], left);
      if !h.open || RequestPayload(c.op).None? {
        RefusedExchange(v, h, c, ch, t);
      } else if r.handle.open {
        OpenExchange(v, h, c, ch, t);
      } else {
        ClosedStaysClosed(r.vault, r.handle, calls[1..], left);
        LastExchange(v, h, c, ch, t);
      }
    }
  }

  lemma EmptySession(v: S.Vault, h: Handle, ch: Channel)
    ensures IsSession(v, Talked(v, h, [], [], [], []), ch)
  {
    hide Answer, ReplyFrame, ParseHeader;
  }

  /** A call that is refused leaves no trace in the session. */
  lemma RefusedExchange(v: S.Vault, h: Handle, c: Said, ch: Channel, t: Talked)
    requires !h.open || RequestPayload(c.op).None?
    requires var r := Over(v, h, c.op, c.fault, ch); IsSession(r.vault, t, Used(ch, r.sent, r.received))
    ensures IsSession(v, Joined(c, Over(v, h, c.op, c.fault, ch), t), ch)
  {
    hide RequestPayload, RunSession, Over;
    RefusedCall(v, h, c.op, c.fault, ch);
    assert [] + t.stream == t.stream && [] + t.replies == t.replies;
  }

  /** An exchange that leaves the handle open is the first turn of the session. */
  lemma OpenExchange(v: S.Vault, h: Handle, c: Said, ch: Channel, t: Talked)
    requires S.Good(v) && S.ValidFault(c.fault) && ValidHandle(h) && RequestPayload(c.op).Some?
    requires var r := Over(v, h, c.op, c.fault, ch);
      r.handle.open && IsSession(r.vault, t, Used(ch, r.sent, r.received))
    ensures IsSession(v, Joined(c, Over(v, h, c.op, c.fault, ch), t), ch)
  {
    hide RequestPayload, RunSession, Over, S.Good, S.ValidFault, ValidHandle, Call;
    OpenIsOneTurn(v, h, c.op, c.fault, ch, t.faults, t.stream);
  }

  /** The exchange that closes the handle is the last turn of the session. */
  lemma LastExchange(v: S.Vault, h: Handle, c: Said, ch: Channel, t: Talked)
    requires var r := Over(v, h, c.op, c.fault, ch);
      !r.handle.open && t == Talked(r.vault, r.handle, [], [], [], t.log)
    ensures IsSession(v, Joined(c, Over(v, h, c.op, c.fault, ch), t), ch)
  {
    hide RunSession;
    var r := Over(v, h, c.op, c.fault, ch);
    SentBeforeReading(h, c.op, [], r.received, ch.requestRoom);
    assert r.sent + [] == r.sent && r.received + [] == r.received && [c.fault] + [] == [c.fault];
    if r.sent == [] {
      NothingArrives(v, [], ch.ending, ch.replyRoom);
      NothingArrives(v, [c.fault], ch.ending, ch.replyRoom);
    }
  }

  // ---------------------------------------------------------------- the identifiers of one connection

  /** The identifiers under which the calls of a conversation are made, those that are refused left out. */
  ghost function Identifiers(v: S.Vault, h: Handle, calls: seq<Said>, ch: Channel): seq<nat>
    decreases |calls|
  {
    if calls == [] then []
    else
      var c := calls[0];
      var r := Over(v, h, c.op, c.fault, ch);
      (if h.open && RequestPayload(c.op).Some? then [h.nextId] else [])
      + Identifiers(r.vault, r.handle, calls[1..], Used(ch, r.sent, r.received))
  }

  /** The `k`-th identifier after `id`, counting round from 1 to 2^64 - 1. */
  function Counted(id: nat, k: nat): int { 1 + (id - 1 + k) % LAST_ID }

  lemma CountedNext(id: nat, k: nat)
    requires 1 <= id <= LAST_ID
    ensures k == 0 ==> Counted(id, k) == id
    ensures k > 0 ==> Counted(id, k) == Counted(if id == LAST_ID then 1 else id + 1, k - 1)
  {}

  /** They count up from the handle's next identifier, from 2^64 - 1 on to 1. */
  lemma {:induction false} IdentifiersCount(v: S.Vault, h: Handle, calls: seq<Said>, ch: Channel, k: nat)
    requires ValidHandle(h) && k < |Identifiers(v, h, calls, ch)|
    ensures Identifiers(v, h, calls, ch)[k] == Counted(h.nextId, k)
    decreases |calls|
  {
    hide RequestPayload, Over, Call, Counted, Identifiers, RunSession;
    IdentifiersOne(v, h, calls, ch);
    var c := calls[0];
    var r := Over(v, h, c.op, c.fault, ch);
    var later := Identifiers(r.vault, r.handle, calls[1..], Used(ch, r.sent, r.received));
    NextOfCall(v, h, c.op, c.fault, ch);
    CountedNext(h.nextId, k);
    if !h.open || RequestPayload(c.op).None? {
      IdentifiersCount(r.vault, r.handle, calls[1..], Used(ch, r.sent, r.received), k);
    } else if k > 0 {
      assert ([h.nextId] + later)[k] == later[k - 1];
      IdentifiersCount(r.vault, r.handle, calls[1..], Used(ch, r.sent, r.received), k - 1);
    }
  }

  lemma IdentifiersOne(v: S.Vault, h: Handle, calls: seq<Said>, ch: Channel)
    ensures calls == [] ==> Identifiers(v, h, calls, ch) == []
    ensures calls != [] ==>
      var c := calls[0]; var r := Over(v, h, c.op, c.fault, ch);
      var later := Identifiers(r.vault, r.handle, calls[1..], Used(ch, r.sent, r.received));
      Identifiers(v, h, calls, ch) == if h.open && RequestPayload(c.op).Some? then [h.nextId] + later else later
  {
    hide RequestPayload, Over;
  }

  lemma NextOfCall(v: S.Vault, h: Handle, op: Operation, fault: S.Fault, ch: Channel)
    requires ValidHandle(h)
    ensures var next := Over(v, h, op, fault, ch).handle.nextId;
      if h.open && RequestPayload(op).Some? then next == (if h.nextId == LAST_ID then 1 else h.nextId + 1)
      else next == h.nextId
  {
    hide RequestPayload, RunSession, Call;
    IdentifierAdvances(h, op, Over(v, h, op, fault, ch).received, ch.requestRoom);
  }

  /** Fewer than 2^64 requests on one connection never share an identifier, wherever they start. */
  lemma IdentifiersDiffer(v: S.Vault, h: Handle, calls: seq<Said>, ch: Channel, i: nat, j: nat)
    requires ValidHandle(h) && |Identifiers(v, h, calls, ch)| < 0x1_0000_0000_0000_0000
    requires i < j < |Identifiers(v, h, calls, ch)|
    ensures Identifiers(v, h, calls, ch)[i] != Identifiers(v, h, calls, ch)[j]
  {
    hide Identifiers;
    IdentifiersCount(v, h, calls, ch, i);
    IdentifiersCount(v, h, calls, ch, j);
  }

  // ---------------------------------------------------------------- any number of connections

  /** One connection of a client: its calls, on a new handle, and how much the connection carries. */
  datatype Visit = Visit(calls: seq<Said>, channel: Channel)

  const NEW_HANDLE: Handle := Handle(true, 1)

  ghost function TalkOf(v: S.Vault, visit: Visit): Talked { Talk(v, NEW_HANDLE, visit.calls, visit.channel) }

  /** The vault after clients have come one after the other, and all that their calls reported. */
  ghost function Drive(v: S.Vault, visits: seq<Visit>): (S.Vault, seq<Answered>)
    decreases |visits|
  {
    if visits == [] then (v, [])
    else
      var t := TalkOf(v, visits[0]);
      var (w, log) := Drive(t.vault, visits[1..]);
      (w, t.log + log)
  }

  /** The same connections as the server's accept loop sees them. */
  ghost function Accepted(v: S.Vault, visits: seq<Visit>): seq<SessionLaws.Connection>
    decreases |visits|
  {
    if visits == [] then []
    else
      var t := TalkOf(v, visits[0]);
      var ch := visits[0].channel;
      [SessionLaws.Connection(t.faults, t.stream, ch.ending, ch.replyRoom)] + Accepted(t.vault, visits[1..])
  }

  function AllCalls(visits: seq<Visit>): seq<Said> {
    if visits == [] then [] else visits[0].calls + AllCalls(visits[1..])
  }

  /** The server's accept loop on the streams of these connections makes exactly the changes the clients made. */
  lemma {:induction false} ServerIsDriven(v: S.Vault, visits: seq<Visit>)
    requires S.Good(v) && Tolerable(AllCalls(visits))
    ensures SessionLaws.Serve(v, Accepted(v, visits)) == Drive(v, visits).0
    decreases |visits|
  {
    hide RunSession, Talk, S.Good;
    if visits != [] {
      var t := TalkOf(v, visits[0]);
      CallsOfVisits(visits);
      OneSession(v, NEW_HANDLE, visits[0].calls, visits[0].channel);
      TalkKeepsGood(v, NEW_HANDLE, visits[0].calls, visits[0].channel);
      ServerIsDriven(t.vault, visits[1..]);
      assert Accepted(v, visits)[1..] == Accepted(t.vault, visits[1..]);
    }
  }

  lemma CallsOfVisits(visits: seq<Visit>)
    requires visits != [] && Tolerable(AllCalls(visits))
    ensures Tolerable(visits[0].calls) && Tolerable(AllCalls(visits[1..]))
  {
    forall c | c in visits[0].calls ensures c in AllCalls(visits) {}
    forall c | c in AllCalls(visits[1..]) ensures c in AllCalls(visits) {}
  }

  lemma {:induction false} TalkKeepsGood(v: S.Vault, h: Handle, calls: seq<Said>, ch: Channel)
    requires S.Good(v) && ValidHandle(h) && Tolerable(calls)
    ensures S.Good(Talk(v, h, calls, ch).vault)
    decreases |calls|
  {
    hide Over, S.Good, Perform;
    if calls != [] {
      var c := calls[0];
      assert c in calls;
      CallRefines(v, h, c.op, c.fault, ch);
      var r := Over(v, h, c.op, c.fault, ch);
      TalkKeepsGood(r.vault, r.handle, calls[1..], Used(ch, r.sent, r.received));
    }
  }

  // ---------------------------------------------------------------- the refinement

  /** The abstract vault after performing those of the calls that took effect. */
  ghost function Selected(v: S.Vault, calls: seq<Said>, effective: seq<bool>): S.Vault
    requires |effective| == |calls|
    decreases |calls|
  {
    if calls == [] then v
    else Selected(if effective[0] then Perform(v, calls[0].op, calls[0].fault).0 else v, calls[1..], effective[1..])
  }

  /** One report agrees with the abstract vault: OK means performed, and any error but an I/O error means not. */
  ghost predicate Fits(v: S.Vault, c: Said, took: bool, a: Answered) {
    var (_, status, data) := Perform(v, c.op, c.fault);
    && (a.status == Success ==> took && status == Success && a.data == data)
    && (a.status !in {Success, IoError} ==> !took)
    && (a.status !in {IoError, BadArgument} ==> a.status == status)
  }

  /** Every report agrees with the abstract vault in the state it has then. */
  ghost predicate Agrees(v: S.Vault, calls: seq<Said>, effective: seq<bool>, log: seq<Answered>)
    requires |effective| == |calls| == |log|
    decreases |calls|
  {
    calls == [] ||
    var next := if effective[0] then Perform(v, calls[0].op, calls[0].fault).0 else v;
    Fits(v, calls[0], effective[0], log[0]) && Agrees(next, calls[1..], effective[1..], log[1..])
  }

  /** The calls of one connection. */
  lemma {:induction false} TalkRefines(v: S.Vault, h: Handle, calls: seq<Said>, ch: Channel)
    returns (effective: seq<bool>)
    requires S.Good(v) && ValidHandle(h) && Tolerable(calls)
    ensures var t := Talk(v, h, calls, ch);
      && |effective| == |calls| == |t.log|
      && t.vault == Selected(v, calls, effective)
      && Agrees(v, calls, effective, t.log)
    decreases |calls|
  {
    hide Perform, Over, S.Good;
    if calls == [] {
      effective := [];
    } else {
      var c := calls[0];
      assert c in calls;
      CallRefines(v, h, c.op, c.fault, ch);
      var r := Over(v, h, c.op, c.fault, ch);
      var took := r.status == Success || (r.status == IoError && r.vault != v);
      var later := TalkRefines(r.vault, r.handle, calls[1..], Used(ch, r.sent, r.received));
      effective := [took] + later;
      assert effective[1..] == later && Talk(v, h, calls, ch).log[1..]
        == Talk(r.vault, r.handle, calls[1..], Used(ch, r.sent, r.received)).log;
    }
  }

  lemma {:induction false} SelectedAppend(
    v: S.Vault, a: seq<Said>, ea: seq<bool>, la: seq<Answered>, b: seq<Said>, eb: seq<bool>, lb: seq<Answered>)
    requires |a| == |ea| == |la| && |b| == |eb| == |lb|
    ensures Selected(v, a + b, ea + eb) == Selected(Selected(v, a, ea), b, eb)
    ensures Agrees(v, a + b, ea + eb, la + lb) <==> Agrees(v, a, ea, la) && Agrees(Selected(v, a, ea), b, eb, lb)
    decreases |a|
  {
    hide Perform, Fits;
    if a == [] {
      assert a + b == b && ea + eb == eb && la + lb == lb;
    } else {
      assert (a + b)[1..] == a[1..] + b && (ea + eb)[1..] == ea[1..] + eb && (la + lb)[1..] == la[1..] + lb;
      SelectedAppend(if ea[0] then Perform(v, a[0].op, a[0].fault).0 else v, a[1..], ea[1..], la[1..], b, eb, lb);
    }
  }

  /**
   Any run of clients' calls, over connections that break anywhere, leaves the server's accept loop in
   the state of the abstract vault after performing, in order, a selection of the calls: every call
   answered OK is selected and its answer is the abstract one, no call answered with another error is,
   and a call that failed with an I/O error may be either.
   */
  lemma {:induction false} RunRefines(v: S.Vault, visits: seq<Visit>) returns (effective: seq<bool>)
    requires S.Good(v) && Tolerable(AllCalls(visits))
    ensures var (w, log) := Drive(v, visits);
      && |effective| == |AllCalls(visits)| == |log|
      && SessionLaws.Serve(v, Accepted(v, visits)) == w == Selected(v, AllCalls(visits), effective)
      && Agrees(v, AllCalls(visits), effective, log)
      && S.Good(w)
    decreases |visits|
  {
    hide Perform, S.Good, Talk, Agrees, Selected, RunSession;
    ServerIsDriven(v, visits);
    if visits == [] {
      effective := [];
      NothingSaid(v);
    } else {
      var t := TalkOf(v, visits[0]);
      CallsOfVisits(visits);
      TalkKeepsGood(v, NEW_HANDLE, visits[0].calls, visits[0].channel);
      var first := TalkRefines(v, NEW_HANDLE, visits[0].calls, visits[0].channel);
      var later := RunRefines(t.vault, visits[1..]);
      effective := first + later;
      SelectedAppend(v, visits[0].calls, first, t.log, AllCalls(visits[1..]), later, Drive(t.vault, visits[1..]).1);
    }
  }

  lemma NothingSaid(v: S.Vault)
    ensures Selected(v, [], []) == v && Agrees(v, [], [], [])
  {}
}
