/** What the operations of an open store do to its map, with every error in the order it is raised. */
module StoreSpec {
  import opened Bytes
  import opened Errors
  import opened Plaintext
  import SecretId

  /** A store as its callers see it. */
  datatype Vault = Vault(secrets: SecretMap, locked: bool)

  /** Why a save failed at the operating system, if it did: the text of the runtime error. */
  type Fault = Option<bytes>

  const MAX_FAULT_TEXT: nat := 0x1_0000

  ghost predicate ValidFault(f: Fault) { f.Some? ==> |f.value| <= MAX_FAULT_TEXT }

  /** The invariant of a store: what it holds can be saved; a locked store holds nothing. */
  ghost predicate Good(v: Vault) { Persistable(v.secrets) && (v.locked ==> v.secrets == map[]) }

  function LockedError(): Exception { LogicError(VaultLocked) }
  function BadIdError(): Exception { InvalidArgument(BadIdentifier) }
  function BadPutError(): Exception { InvalidArgument(BadIdentifierOrSize) }
  function FullError(): Exception { LengthError(VaultFull) }
  function MissingError(): Exception { OutOfRange(SecretMissing) }

  /** Saving a changed map: it may not fit, and the operating system may fail. */
  ghost function Save(v: Vault, secrets: SecretMap, fault: Fault): (Vault, Option<Exception>) {
    match Serialized(secrets)
    case Err(e) => (v, Some(e))
    case Ok(_) =>
      match fault
      case Some(text) => (v, Some(RuntimeError(OsError(text))))
      case None => (v.(secrets := secrets), None)
  }

  ghost function Put(v: Vault, id: bytes, value: bytes, fault: Fault): (Vault, Option<Exception>) {
    if v.locked then (v, Some(LockedError()))
    else if !SecretId.IsValid(id) || |value| > MAX_SECRET_SIZE then (v, Some(BadPutError()))
    else if id !in v.secrets && |v.secrets| >= MAX_SECRET_COUNT then (v, Some(FullError()))
    else Save(v, v.secrets[id := value], fault)
  }

  function Get(v: Vault, id: bytes): Result<bytes, Exception> {
    if v.locked then Err(LockedError())
    else if !SecretId.IsValid(id) then Err(BadIdError())
    else if id !in v.secrets then Err(MissingError())
    else Ok(v.secrets[id])
  }

  /** Whether there was something to remove. */
  ghost function Remove(v: Vault, id: bytes, fault: Fault): (Vault, Result<bool, Exception>) {
    if v.locked then (v, Err(LockedError()))
    else if !SecretId.IsValid(id) then (v, Err(BadIdError()))
    else if id !in v.secrets then (v, Ok(false))
    else
      match Save(v, v.secrets - {id}, fault)
      case (w, None) => (w, Ok(true))
      case (w, Some(e)) => (w, Err(e))
  }

  ghost function List(v: Vault): Result<seq<bytes>, Exception> {
    if v.locked then Err(LockedError()) else Ok(SortedIds(v.secrets.Keys))
  }

  function Lock(v: Vault): Vault { Vault(map[], true) }

  /** A save fails with runtime errors only, and says why. */
  lemma SaveErrors(v: Vault, secrets: SecretMap, fault: Fault)
    ensures var e := Save(v, secrets, fault).1; e.Some? ==> e.value.RuntimeError? && e.value.text != Silent
  {
    hide Persistable;
  }

  /** No operation leaves a store holding something it could not save, or a locked store readable. */
  lemma PutKeepsGood(v: Vault, id: bytes, value: bytes, fault: Fault)
    requires Good(v)
    ensures Good(Put(v, id, value, fault).0)
  {
    hide Serialized, Persistable;
    if SecretId.IsValid(id) && |value| <= MAX_SECRET_SIZE && (id in v.secrets || |v.secrets| < MAX_SECRET_COUNT) {
      PutPersistable(v.secrets, id, value);
    }
  }

  lemma RemoveKeepsGood(v: Vault, id: bytes, fault: Fault)
    requires Good(v)
    ensures Good(Remove(v, id, fault).0)
  {
    hide Serialized, Persistable;
    RemovePersistable(v.secrets, id);
  }

  lemma LockKeepsGood(v: Vault)
    ensures Good(Lock(v))
  {
    SerializedRoundTrip(map[]);
  }

  /** A remove fails only where the operating system does. */
  lemma RemoveOnlyFailsAtTheDisk(v: Vault, id: bytes, fault: Fault)
    requires Good(v) && !v.locked && id in v.secrets
    ensures Remove(v, id, fault)
         == match fault
            case None => (v.(secrets := v.secrets - {id}), Ok(true))
            case Some(text) => (v, Err(RuntimeError(OsError(text))))
  {
    RemovePersistable(v.secrets, id);
    SerializedRoundTrip(v.secrets - {id});
  }

  /** A remove undoes the put of an identifier that was not there. */
  lemma RemoveUndoesPut(v: Vault, id: bytes, value: bytes)
    requires Good(v) && id !in v.secrets && Put(v, id, value, None).1.None?
    ensures Remove(Put(v, id, value, None).0, id, None) == (v, Ok(true))
  {
    hide Serialized, Persistable;
    var w := Put(v, id, value, None).0;
    PutKeepsGood(v, id, value, None);
    RemoveOnlyFailsAtTheDisk(w, id, None);
    assert w.secrets - {id} == v.secrets;
  }

  /** What is put can be read back until it is put again or removed; other identifiers do not notice. */
  lemma GetAfterPut(v: Vault, id: bytes, value: bytes, fault: Fault, other: bytes)
    requires Good(v)
    ensures var (w, e) := Put(v, id, value, fault);
      && (e.None? ==> Get(w, id) == Ok(value))
      && (other != id || e.Some? ==> Get(w, other) == Get(v, other))
  {
    hide Serialized, SecretId.IsValid, Persistable;
  }
}
