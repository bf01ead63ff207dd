/**
 What the operations mean to their users: a plain map with a locked flag, and nothing about stores,
 exceptions, files or bytes on a wire.
 */
module AbstractVault {
  import opened Bytes
  import opened Errors
  import opened Plaintext
  import SecretId
  import S = StoreSpec

  datatype Operation = Ping | Put(id: bytes, value: bytes) | Get(id: bytes) | Remove(id: bytes) | List | Lock

  /** What an operation hands to its caller besides the status. */
  datatype Data = NoData | Secret(value: bytes) | Ids(ids: seq<bytes>)

  /** The size the saved map may have: the whole file is at most 64 MiB, with 76 + 16 + 4 bytes around the entries. */
  ghost predicate HasRoomFor(m: SecretMap, id: bytes, value: bytes) {
    76 + 16 + 4 + Weight(m - {id}) + 8 + |id| + |value| <= 0x400_0000
  }

  /** With `id`, there would be more than ten thousand secrets. */
  ghost predicate TooMany(m: SecretMap, id: bytes) { |m.Keys + {id}| > 10000 }

  function With(m: SecretMap, id: bytes, value: bytes): SecretMap { m + map[id := value] }

  function Without(m: SecretMap, id: bytes): SecretMap { map other | other in m && other != id :: m[other] }

  ghost function PerformPut(v: S.Vault, id: bytes, value: bytes, fault: S.Fault): (S.Vault, Status) {
    if !SecretId.IsValid(id) || |value| > 0x10_0000 then (v, BadArgument)
    else if TooMany(v.secrets, id) then (v, Locked)
    else if !HasRoomFor(v.secrets, id, value) || fault.Some? then (v, InternalError)
    else (S.Vault(With(v.secrets, id, value), false), Success)
  }

  ghost function PerformRemove(v: S.Vault, id: bytes, fault: S.Fault): (S.Vault, Status) {
    if !SecretId.IsValid(id) then (v, BadArgument)
    else if id !in v.secrets then (v, NotFound)
    else if fault.Some? then (v, InternalError)
    else (S.Vault(Without(v.secrets, id), false), Success)
  }

  ghost function PerformGet(v: S.Vault, id: bytes): (Status, Data) {
    if !SecretId.IsValid(id) then (BadArgument, NoData)
    else if id in v.secrets then (Success, Secret(v.secrets[id]))
    else (NotFound, NoData)
  }

  ghost function PerformOpen(v: S.Vault, op: Operation, fault: S.Fault): (S.Vault, Status, Data) {
    match op
    case Ping => (v, Success, NoData)
    case Lock => (S.Vault(map[], true), Success, NoData)
    case Put(id, value) => var r := PerformPut(v, id, value, fault); (r.0, r.1, NoData)
    case Remove(id) => var r := PerformRemove(v, id, fault); (r.0, r.1, NoData)
    case Get(id) => var r := PerformGet(v, id); (v, r.0, r.1)
    case List => (v, Success, Ids(SortedIds(v.secrets.Keys)))
  }

  /** The vault after an operation, the status reported and the data returned. */
  ghost function Perform(v: S.Vault, op: Operation, fault: S.Fault): (S.Vault, Status, Data) {
    if v.locked && !op.Ping? && !op.Lock? then (v, Locked, NoData) else PerformOpen(v, op, fault)
  }

  // ---------------------------------------------------------------- the store does just that

  function StatusOf(e: Option<Exception>): Status {
    match e
    case None => Success
    case Some(e) => Classify(e)
  }

  /** A put succeeds exactly when it should, and then stores the value, whether or not there was one before. */
  lemma PutSucceedsExactly(v: S.Vault, id: bytes, value: bytes, fault: S.Fault)
    requires S.Good(v)
    ensures var (w, e) := S.Put(v, id, value, fault);
      && (e.None? <==>
            && !v.locked && SecretId.IsValid(id) && |value| <= 0x10_0000
            && (id in v.secrets || |v.secrets| < 10000)
            && HasRoomFor(v.secrets, id, value) && fault.None?)
      && w == (if e.None? then v.(secrets := v.secrets[id := value]) else v)
  {
    hide SecretId.IsValid, Serialized, Persistable, Weight;
    if SecretId.IsValid(id) && |value| <= MAX_SECRET_SIZE && (id in v.secrets || |v.secrets| < MAX_SECRET_COUNT) {
      PutPersistable(v.secrets, id, value);
    }
  }

  /** A put fails with each of its errors exactly when it should. */
  lemma PutExactly(v: S.Vault, id: bytes, value: bytes, fault: S.Fault)
    requires S.Good(v)
    ensures var (w, e) := S.Put(v, id, value, fault); var (u, status, _) := Perform(v, Put(id, value), fault);
      w == u && StatusOf(e) == status && (e.Some? ==> e.value.text != Silent)
  {
    hide SecretId.IsValid, HasRoomFor, S.Save, S.Good, TooMany, With;
    PutSucceedsExactly(v, id, value, fault);
    S.SaveErrors(v, v.secrets[id := value], fault);
    TooManyExactly(v, id);
    WithIsUpdate(v.secrets, id, value);
  }

  lemma TooManyExactly(v: S.Vault, id: bytes)
    requires S.Good(v)
    ensures TooMany(v.secrets, id) <==> id !in v.secrets && |v.secrets| >= 10000
  {
    hide ValidIds, Weight;
    if id in v.secrets { assert v.secrets.Keys + {id} == v.secrets.Keys; }
  }

  lemma WithIsUpdate(m: SecretMap, id: bytes, value: bytes)
    ensures With(m, id, value) == m[id := value]
  {}

  /** A get answers with the stored value, or with each of its errors exactly when it should. */
  lemma GetExactly(v: S.Vault, id: bytes)
    ensures var r := S.Get(v, id); var (u, status, data) := Perform(v, Get(id), None);
      && u == v
      && (match r case Ok(value) => status == Success && data == Secret(value)
                  case Err(e) => status == Classify(e) && data == NoData && e.text != Silent)
      && (r.Ok? <==> !v.locked && SecretId.IsValid(id) && id in v.secrets)
      && (r.Err? && Classify(r.error) == NotFound <==> !v.locked && SecretId.IsValid(id) && id !in v.secrets)
  {
    hide SecretId.IsValid;
  }

  /** A remove finds, misses and fails exactly when it should, and takes out just the one identifier. */
  lemma RemoveExactly(v: S.Vault, id: bytes, fault: S.Fault)
    requires S.Good(v)
    ensures var (w, r) := S.Remove(v, id, fault); var (u, status, _) := Perform(v, Remove(id), fault);
      && w == u
      && (match r case Ok(found) => status == if found then Success else NotFound
                  case Err(e) => status == Classify(e) && status !in {Success, NotFound} && e.text != Silent)
      && (r == Ok(true) <==> !v.locked && SecretId.IsValid(id) && id in v.secrets && fault.None?)
      && (r == Ok(false) <==> !v.locked && SecretId.IsValid(id) && id !in v.secrets)
  {
    hide SecretId.IsValid, Serialized, Persistable;
    if !v.locked && SecretId.IsValid(id) && id in v.secrets {
      S.RemoveOnlyFailsAtTheDisk(v, id, fault);
      assert Without(v.secrets, id) == v.secrets - {id};
    }
  }

  /** Each element before the later ones: at their first difference it ends or has the smaller byte. */
  ghost predicate Ascending(ids: seq<bytes>) {
    forall i, j :: 0 <= i < j < |ids| ==> Precedes(ids[i], ids[j])
  }

  /** A listing is refused exactly when the vault is locked, and otherwise is the identifiers in order. */
  lemma ListExactly(v: S.Vault)
    ensures var r := S.List(v); var (u, status, data) := Perform(v, List, None);
      && u == v
      && (match r case Ok(ids) => status == Success && data == Ids(ids)
                  case Err(e) => status == Classify(e) && data == NoData && e.text != Silent)
      && (r.Ok? <==> !v.locked)
      && (r.Ok? ==> ToSet(r.value) == v.secrets.Keys && Ascending(r.value))
  {
    if !v.locked {
      var ids := S.List(v).value;
      forall i, j | 0 <= i < j < |ids| ensures Precedes(ids[i], ids[j]) {
        BelowExactly(ids[i], ids[j]);
      }
    }
  }

  // ---------------------------------------------------------------- laws of the abstract vault

  /** What fails does not change the vault, and never with an I/O or protocol error. */
  lemma FailureHasNoEffect(v: S.Vault, op: Operation, fault: S.Fault)
    ensures Perform(v, op, fault).1 != Success ==> Perform(v, op, fault).0 == v
    ensures Perform(v, op, fault).1 !in {IoError, Status.ProtocolError}
  {
    hide SecretId.IsValid, HasRoomFor, SortedIds, PerformGet, PerformPut, PerformRemove;
    match op
    case Put(id, value) => PutFailure(v, id, value, fault);
    case Get(id) => GetFailure(v, id);
    case Remove(id) => RemoveFailure(v, id, fault);
    case _ =>
  }

  lemma PutFailure(v: S.Vault, id: bytes, value: bytes, fault: S.Fault)
    ensures var r := PerformPut(v, id, value, fault);
      (r.1 != Success ==> r.0 == v) && r.1 !in {IoError, Status.ProtocolError}
  {
    hide SecretId.IsValid, HasRoomFor, TooMany, With;
  }

  lemma GetFailure(v: S.Vault, id: bytes)
    ensures PerformGet(v, id).0 !in {IoError, Status.ProtocolError}
  {
    hide SecretId.IsValid;
  }

  lemma RemoveFailure(v: S.Vault, id: bytes, fault: S.Fault)
    ensures var r := PerformRemove(v, id, fault);
      (r.1 != Success ==> r.0 == v) && r.1 !in {IoError, Status.ProtocolError}
  {
    hide SecretId.IsValid;
  }

  /** Without a failure of the disk, nothing but a vault grown too large is an internal error. */
  lemma InternalErrorExactly(v: S.Vault, op: Operation, fault: S.Fault)
    ensures Perform(v, op, fault).1 == InternalError <==>
      && !v.locked
      && match op
         case Put(id, value) =>
           && SecretId.IsValid(id) && |value| <= 0x10_0000 && !TooMany(v.secrets, id)
           && (fault.Some? || !HasRoomFor(v.secrets, id, value))
         case Remove(id) => id in v.secrets && SecretId.IsValid(id) && fault.Some?
         case _ => false
  {
    hide SecretId.IsValid, HasRoomFor, TooMany, With;
  }

  lemma PerformKeepsGood(v: S.Vault, op: Operation, fault: S.Fault)
    requires S.Good(v)
    ensures S.Good(Perform(v, op, fault).0)
  {
    hide S.Put, S.Remove, S.Good, PerformPut, PerformRemove;
    match op
    case Put(id, value) =>
      PutExactly(v, id, value, fault);
      S.PutKeepsGood(v, id, value, fault);
    case Remove(id) =>
      RemoveExactly(v, id, fault);
      S.RemoveKeepsGood(v, id, fault);
    case Lock => S.LockKeepsGood(v);
    case _ =>
  }
}
