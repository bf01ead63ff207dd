/** The store: a map in memory that is only ever changed after the changed map is on disk. */
module VaultStore {
  import opened Bytes
  import opened Wire
  import opened Errors
  import opened Plaintext
  import PlaintextCodec
  import opened VaultFile
  import opened FileSystem
  import opened VaultSystem
  import VaultInvariant
  import K = Syscalls
  import StoreSpec
  import SecretId

  /** libsodium's moderate Argon2id limits. */
  const DEFAULT_OPSLIMIT: nat := 3
  const DEFAULT_MEMLIMIT: nat := 256 * 0x10_0000

  // ---------------------------------------------------------------- files

  /** `read_file`: the whole content, however the kernel splits it, unless a call fails or it is too large. */
  method ReadFile(kernel: K.Kernel) returns (r: Option<bytes>)
    requires kernel.Valid()
    modifies kernel`signals, kernel`failures
    ensures kernel.Valid() && kernel.failures >= old(kernel.failures)
    ensures kernel.failures == old(kernel.failures) ==> VaultContent(kernel.disk).Some?
    ensures r == if kernel.failures == old(kernel.failures) && |VaultContent(kernel.disk).value| <= MAX_FILE_SIZE
                 then VaultContent(kernel.disk) else None
  {
    var size := kernel.OpenVault();
    if size.None? || size.value > MAX_FILE_SIZE { return None; }
    ghost var content := VaultContent(kernel.disk).value;
    var data: bytes := [];
    while |data| < size.value
      invariant kernel.Valid() && |data| <= size.value && data == content[..|data|]
      invariant kernel.failures == old(kernel.failures)
      decreases size.value - |data|, kernel.signals
    {
      var t, part := kernel.Read(|data|, size.value - |data|);
      match t {
        case Interrupted =>
        case Refused => return None;
        case Moved(count) =>
          if count == 0 { return None; }
          assert content[..|data|] + content[|data|..|data| + count] == content[..|data| + count];
          data := data + part;
      }
    }
    assert content[..|content|] == content;
    return Some(data);
  }

  /** The write loop: all of the file, unless a call fails. */
  method WriteAll(kernel: K.Kernel, p: nat, ino: nat, file: bytes) returns (ok: bool)
    requires kernel.Valid() && p in kernel.sys.procs && kernel.sys.procs[p].work.Writing?
    requires ino < |kernel.disk.inodes| && kernel.sys.procs[p].work.offset == 0
    requires kernel.sys.procs[p].work.u.ino == ino && kernel.sys.procs[p].work.u.file == file
    modifies kernel
    ensures kernel.Valid() && ino < |kernel.disk.inodes|
    ensures p in kernel.sys.procs && kernel.sys.procs[p].work.Writing? && kernel.drawn == old(kernel.drawn)
    ensures kernel.sys.procs[p] == old(kernel.sys.procs[p]).(work := kernel.sys.procs[p].work)
    ensures kernel.sys.procs[p].work.u == old(kernel.sys.procs[p].work.u)
    ensures ok ==> kernel.sys.procs[p].work.offset == |file|
    ensures kernel.failures >= old(kernel.failures) && (ok <==> kernel.failures == old(kernel.failures))
    ensures VaultContent(kernel.disk) == old(VaultContent(kernel.disk))
  {
    var offset := 0;
    ghost var proc := kernel.sys.procs[p];
    while offset < |file|
      invariant kernel.Valid() && offset <= |file| && ino < |kernel.disk.inodes|
      invariant kernel.Has(p, proc.(work := Writing(proc.work.u, offset)))
      invariant kernel.failures == old(kernel.failures) && kernel.drawn == old(kernel.drawn)
      invariant VaultContent(kernel.disk) == old(VaultContent(kernel.disk))
      decreases |file| - offset, kernel.signals
    {
      var t := kernel.Write(p, ino, file[offset..]);
      match t {
        case Interrupted =>
        case Refused => return false;
        case Moved(count) =>
          if count == 0 { return false; }
          offset := offset + count;
      }
    }
    return true;
  }

  /**
   `write_file_atomically`: it fails exactly if a call fails that it is told about.  On success the file
   is at the vault path; on failure the temporary file is unlinked and nothing has changed for anybody
   else.
   */
  method WriteFileAtomically(kernel: K.Kernel, p: nat, file: bytes,
                             ghost change: Change, ghost after: Loaded, ghost nonce: bytes)
    returns (error: Option<bytes>)
    requires kernel.Valid() && K.CanBegin(kernel.crypto, kernel.sys, p, change, after, nonce) && p in kernel.sys.procs
    requires file == SavedFile(kernel.crypto, after, nonce)
    modifies kernel
    ensures kernel.Valid() && p in kernel.sys.procs && kernel.drawn == old(kernel.drawn)
    ensures error.None? ==> Published(old(kernel.sys.procs[p]), kernel.sys.procs[p], change, after, file)
    ensures error.Some? ==> |error.value| <= StoreSpec.MAX_FAULT_TEXT
    ensures kernel.failures >= old(kernel.failures) && (error.None? <==> kernel.failures == old(kernel.failures))
    ensures error.Some? ==> kernel.sys.procs[p] == old(kernel.sys.procs[p])
    ensures error.Some? ==> VaultContent(kernel.disk) == old(VaultContent(kernel.disk))
  {
    hide LoadFile, Run, K.CanBegin, SavedFile, VaultContent;
    BeginsResting(kernel.crypto, kernel.sys, p, change, after, nonce);
    var suffix := kernel.RandomSuffix();
    var text := kernel.ErrorText();
    var ok, ino := kernel.OpenTemp(p, suffix, change, after, nonce);
    if !ok { return Some(text); }
    ok := WriteAll(kernel, p, ino, file);
    if ok { ok := kernel.Fsync(p, ino); }
    if ok { ok := kernel.Close(p); }
    if ok { ok := kernel.Rename(p, suffix, ino); }
    if !ok {
      kernel.Unlink(p, suffix);
      return Some(text);
    }
    kernel.SyncParent(p);
    return None;
  }

  /** A process has published its file and has only to take the new state over. */
  ghost predicate Published(before: Proc, now: Proc, change: Change, after: Loaded, file: bytes) {
    && now.work.Published? && now.work.u.change == change && now.work.u.after == after && now.work.u.file == file
    && now == before.(work := now.work)
  }

  lemma BeginsResting(crypto: Crypto, s: Sys, p: nat, change: Change, after: Loaded, nonce: bytes)
    requires K.CanBegin(crypto, s, p, change, after, nonce)
    ensures p in s.procs && s.procs[p].work.Resting?
  {}

  // ---------------------------------------------------------------- encoding and decoding

  /** The header and ciphertext written in `persist`. */
  function FileSteps(f: Fields): Closure {
    [Raw(FILE_MAGIC)] + ([Uint(FILE_VERSION, 4)] + ([Uint(f.params.opslimit, 8)]
    + ([Uint(f.params.memlimit, 8)] + ([Raw(f.params.salt)] + ([Raw(f.nonce)]
    + ([Uint(|f.ciphertext|, 8)] + [Raw(f.ciphertext)]))))))
  }

  lemma FileStepsOutput(f: Fields)
    ensures Passes(FileSteps(f)) && Output(FileSteps(f)) == FileBytes(f)
  {
    hide LittleEndian, Output, Passes;
    var m, v, o, l, s, n, z, c := Raw(FILE_MAGIC), Uint(FILE_VERSION, 4), Uint(f.params.opslimit, 8),
      Uint(f.params.memlimit, 8), Raw(f.params.salt), Raw(f.nonce), Uint(|f.ciphertext|, 8), Raw(f.ciphertext);
    OutputOne(m); OutputOne(v); OutputOne(o); OutputOne(l); OutputOne(s); OutputOne(n); OutputOne(z); OutputOne(c);
    OutputAppend([z], [c]);
    OutputAppend([n], [z] + [c]);
    OutputAppend([s], [n] + ([z] + [c]));
    OutputAppend([l], [s] + ([n] + ([z] + [c])));
    OutputAppend([o], [l] + ([s] + ([n] + ([z] + [c]))));
    OutputAppend([v], [o] + ([l] + ([s] + ([n] + ([z] + [c])))));
    OutputAppend([m], [v] + ([o] + ([l] + ([s] + ([n] + ([z] + [c]))))));
  }

  method EncodeFile(f: Fields) returns (r: Option<bytes>)
    requires |f.params.salt| == SALT_SIZE && |f.nonce| == NONCE_SIZE
    ensures r == Some(FileBytes(f))
  {
    FileStepsOutput(f);
    r := WriteOut(FileSteps(f), FILE_HEADER_SIZE + |f.ciphertext|);
  }

  /** The header checks of `load_existing`. */
  method DecodeFields(file: bytes) returns (r: Option<Fields>)
    requires |file| <= MAX_FILE_SIZE
    ensures r == ParseFields(file)
  {
    if |file| < FILE_HEADER_SIZE { return None; }
    var reader := new Reader(file);
    var ok, magic := reader.ReadBytes(8);
    if !ok { return None; }
    var version, opslimit, memlimit, salt, nonce, size;
    ok, version := reader.ReadUint(4);
    if !ok { return None; }
    ok, opslimit := reader.ReadUint(8);
    if !ok { return None; }
    ok, memlimit := reader.ReadUint(8);
    if !ok { return None; }
    ok, salt := reader.ReadBytes(SALT_SIZE);
    if !ok { return None; }
    ok, nonce := reader.ReadBytes(NONCE_SIZE);
    if !ok { return None; }
    ok, size := reader.ReadUint(8);
    if !ok { return None; }
    var params := Params(opslimit, memlimit, salt);
    if magic != FILE_MAGIC || version != FILE_VERSION { return None; }
    if !params.InRange() { return None; }
    if size != reader.Remaining() || size < TAG_SIZE { return None; }
    return Some(Fields(params, nonce, reader.Rest()));
  }

  /** `load_existing`. */
  method LoadExisting(kernel: K.Kernel, password: bytes) returns (r: Option<Loaded>)
    requires kernel.Valid()
    modifies kernel`signals, kernel`failures
    ensures kernel.Valid() && kernel.failures >= old(kernel.failures)
    ensures kernel.failures == old(kernel.failures) ==> VaultContent(kernel.disk).Some?
    ensures r == if kernel.failures == old(kernel.failures)
                 then LoadFile(kernel.crypto, password, VaultContent(kernel.disk).value) else None
  {
    var file := ReadFile(kernel);
    if file.None? { return None; }
    var f := DecodeFields(file.value);
    if f.None? { return None; }
    var key := kernel.crypto.derive(password, f.value.params);
    if key.None? { return None; }
    var text := kernel.crypto.decrypt(key.value, f.value.nonce, f.value.ciphertext);
    if text.None? { return None; }
    var secrets := PlaintextCodec.DeserializePlaintext(text.value);
    if secrets.None? { return None; }
    return Some(Loaded(secrets.value, key.value, f.value.params));
  }

  // ---------------------------------------------------------------- the store

  class VaultStore {
    const kernel: K.Kernel
    const pid: nat
    ghost const password: bytes
    var secrets: SecretMap
    var key: bytes
    var params: Params
    var locked: bool

    /** The store's process rests, and what the model machine says it holds is what it holds. */
    ghost predicate Valid()
      reads this, kernel
    {
      && kernel.Valid()
      && kernel.Has(pid, Proc(password, if locked then Sealed else Open(Loaded(secrets, key, params)), Resting))
      && (locked ==> secrets == map[])
    }

    function View(): StoreSpec.Vault
      reads this
    {
      StoreSpec.Vault(secrets, locked)
    }

    /** A store whose state the machine already has. */
    constructor (kernel: K.Kernel, pid: nat, ghost password: bytes, l: Loaded)
      requires kernel.Valid() && kernel.Has(pid, Proc(password, Open(l), Resting))
      ensures Valid() && this.kernel == kernel && this.pid == pid && this.password == password
      ensures View() == StoreSpec.Vault(l.secrets, false) && key == l.key && params == l.params
    {
      this.kernel, this.pid, this.password := kernel, pid, password;
      secrets, key, params, locked := l.secrets, l.key, l.params, false;
    }

    /** A valid store can save what it holds, and its memory is what the vault file decrypts to. */
    lemma ValidMeans()
      requires Valid()
      ensures StoreSpec.Good(View())
      ensures !locked ==> params.InRange() && VaultContent(kernel.disk).Some?
      ensures !locked ==>
        LoadFile(kernel.crypto, password, VaultContent(kernel.disk).value) == Some(Loaded(secrets, key, params))
    {
      hide LoadFile, Run;
      VaultInvariant.RunKeepsInv(kernel.crypto, kernel.start, kernel.trace);
      if !locked {
        VaultInvariant.OpenIsSound(kernel.crypto, kernel.sys, pid);
        VaultInvariant.VaultIsCurrent(kernel.crypto, kernel.sys);
      } else {
        EmptySerializes();
      }
    }

    /** A change that passes the checks can begin, with any nonce, if the changed map serializes. */
    lemma ReadyToChange(change: Change)
      requires Valid() && !locked
      requires match change
        case Found => false
        case Create => false
        case Put(id, value) =>
          SecretId.IsValid(id) && |value| <= MAX_SECRET_SIZE && (id in secrets || |secrets| < MAX_SECRET_COUNT)
        case Remove(id) => SecretId.IsValid(id) && id in secrets
      ensures |params.salt| == SALT_SIZE && pid in kernel.sys.procs && kernel.sys.procs[pid].work.Resting?
      ensures Serialized(Mutate(secrets, change)).Ok? ==> forall nonce | |nonce| == NONCE_SIZE ::
        K.CanBegin(kernel.crypto, kernel.sys, pid, change, Loaded(Mutate(secrets, change), key, params), nonce)
    {
      hide LoadFile, Run, Serialized;
      ValidMeans();
    }

    method Put(id: bytes, value: bytes) returns (error: Option<Exception>, ghost fault: StoreSpec.Fault)
      requires Valid()
      modifies this`secrets, kernel
      ensures Valid() && StoreSpec.ValidFault(fault)
      ensures (View(), error) == StoreSpec.Put(old(View()), id, value, fault)
      ensures kernel.failures >= old(kernel.failures) && (fault.None? <==> kernel.failures == old(kernel.failures))
      ensures error.Some? ==> VaultContent(kernel.disk) == old(VaultContent(kernel.disk))
      ensures error.None? ==> |kernel.drawn| == old(|kernel.drawn|) + 1
      ensures error.None? ==>
        kernel.NewestIs(Change.Put(id, value), Loaded(secrets, key, params), kernel.drawn[old(|kernel.drawn|)])
    {
      hide LoadFile, Run, Serialized, SavedFile, VaultContent, K.CanBegin, SecretId.IsValid;
      fault := None;
      if locked { return Some(StoreSpec.LockedError()), fault; }
      if !SecretId.IsValid(id) || |value| > MAX_SECRET_SIZE { return Some(StoreSpec.BadPutError()), fault; }
      if id !in secrets && |secrets| >= MAX_SECRET_COUNT { return Some(StoreSpec.FullError()), fault; }
      ReadyToChange(Change.Put(id, value));
      var candidate := secrets[id := value];
      error, fault := Persist(kernel, pid, Loaded(candidate, key, params), Change.Put(id, value));
      if error.None? {
        kernel.Finished(pid, kernel.drawn[|kernel.drawn| - 1]);
        secrets := candidate;
      }
    }

    method Get(id: bytes) returns (r: Result<bytes, Exception>)
      requires Valid()
      ensures r == StoreSpec.Get(View(), id)
    {
      if locked { return Err(StoreSpec.LockedError()); }
      if !SecretId.IsValid(id) { return Err(StoreSpec.BadIdError()); }
      if id !in secrets { return Err(StoreSpec.MissingError()); }
      return Ok(secrets[id]);
    }

    method Remove(id: bytes) returns (r: Result<bool, Exception>, ghost fault: StoreSpec.Fault)
      requires Valid()
      modifies this`secrets, kernel
      ensures Valid() && StoreSpec.ValidFault(fault)
      ensures (View(), r) == StoreSpec.Remove(old(View()), id, fault)
      ensures kernel.failures >= old(kernel.failures) && (fault.None? <==> kernel.failures == old(kernel.failures))
      ensures r.Err? ==> VaultContent(kernel.disk) == old(VaultContent(kernel.disk))
      ensures r == Ok(true) ==> |kernel.drawn| == old(|kernel.drawn|) + 1
      ensures r == Ok(true) ==>
        kernel.NewestIs(Change.Remove(id), Loaded(secrets, key, params), kernel.drawn[old(|kernel.drawn|)])
    {
      hide LoadFile, Run, Serialized, SavedFile, VaultContent, K.CanBegin, SecretId.IsValid;
      fault := None;
      if locked { return Err(StoreSpec.LockedError()), fault; }
      if !SecretId.IsValid(id) { return Err(StoreSpec.BadIdError()), fault; }
      if id !in secrets { return Ok(false), fault; }
      ReadyToChange(Change.Remove(id));
      var candidate := secrets - {id};
      var error;
      error, fault := Persist(kernel, pid, Loaded(candidate, key, params), Change.Remove(id));
      if error.Some? { return Err(error.value), fault; }
      kernel.Finished(pid, kernel.drawn[|kernel.drawn| - 1]);
      secrets := candidate;
      return Ok(true), fault;
    }

    /** Every identifier, in the order of the hash table, then sorted. */
    method List() returns (r: Result<seq<bytes>, Exception>)
      requires Valid()
      ensures r == StoreSpec.List(View())
    {
      if locked { return Err(StoreSpec.LockedError()); }
      ValidMeans();
      var ids := PlaintextCodec.CollectIds(secrets);
      var sorted := PlaintextCodec.Sort(ids.value);
      StrictlySortedUnique(sorted, SortedIds(secrets.Keys));
      return Ok(sorted);
    }

    method Lock()
      requires Valid()
      modifies this, kernel
      ensures Valid() && View() == StoreSpec.Lock(old(View())) && |key| == old(|key|)
      ensures kernel.failures == old(kernel.failures) && kernel.disk == old(kernel.disk)
      ensures forall i | 0 <= i < |key| :: key[i] == 0
    {
      hide LoadFile, Run;
      secrets := map[];
      key := seq(|key|, _ => 0);
      locked := true;
      kernel.Sealed(pid);
    }

    /** The destructor: the store is locked, then the file lock given up. */
    method Destroy()
      requires Valid()
      modifies this, kernel
      ensures kernel.Valid() && pid !in kernel.sys.procs && kernel.holder.None?
      ensures VaultContent(kernel.disk) == old(VaultContent(kernel.disk)) && kernel.failures == old(kernel.failures)
    {
      Lock();
      kernel.Release(pid);
    }
  }

  /**
   `persist` for a store under construction or open: serialize, encrypt with a newly drawn nonce, lay
   out the file and publish it.  On success the caller still has to take the new state over.
   */
  method Persist(kernel: K.Kernel, pid: nat, after: Loaded, ghost change: Change)
    returns (error: Option<Exception>, ghost fault: StoreSpec.Fault)
    requires kernel.Valid() && pid in kernel.sys.procs && kernel.sys.procs[pid].work.Resting?
    requires |after.params.salt| == SALT_SIZE
    requires Serialized(after.secrets).Ok? ==>
      forall nonce | |nonce| == NONCE_SIZE :: K.CanBegin(kernel.crypto, kernel.sys, pid, change, after, nonce)
    modifies kernel
    ensures kernel.Valid() && pid in kernel.sys.procs && StoreSpec.ValidFault(fault)
    ensures error == match Serialized(after.secrets)
      case Err(e) => Some(e)
      case Ok(_) => if fault.Some? then Some(RuntimeError(OsError(fault.value))) else None
    ensures kernel.failures >= old(kernel.failures) && (fault.None? <==> kernel.failures == old(kernel.failures))
    ensures error.Some? ==> kernel.sys.procs[pid] == old(kernel.sys.procs[pid])
    ensures error.Some? ==> VaultContent(kernel.disk) == old(VaultContent(kernel.disk))
    ensures old(kernel.drawn) <= kernel.drawn
    ensures error.None? ==> Serialized(after.secrets).Ok? && |kernel.drawn| == old(|kernel.drawn|) + 1
    ensures error.None? ==> Published(old(kernel.sys.procs[pid]), kernel.sys.procs[pid], change, after,
      SavedFile(kernel.crypto, after, kernel.drawn[old(|kernel.drawn|)]))
  {
    hide LoadFile, Run, K.CanBegin;
    fault := None;
    var text := PlaintextCodec.SerializePlaintext(after.secrets);
    if text.Err? { return Some(text.error), fault; }
    var nonce := kernel.RandomBytes(NONCE_SIZE);
    var ciphertext := kernel.crypto.encrypt(after.key, nonce, text.value);
    var encoded := EncodeFile(Fields(after.params, nonce, ciphertext));
    var failure := WriteFileAtomically(kernel, pid, encoded.value, change, after, nonce);
    fault := failure;
    error := if failure.Some? then Some(RuntimeError(OsError(failure.value))) else None;
  }

  // ---------------------------------------------------------------- construction

  /**
   The constructor.  It succeeds only with the file lock; then the store holds what the vault file
   decrypts to, or nothing if there was no file.  It fails without holding the lock and without
   having changed the vault file; and it fails only for an empty password, for a lock that is taken, for
   a file that does not load, for a key that cannot be derived, or because a call failed.
   */
  method OpenStore(kernel: K.Kernel, pid: nat, password: bytes) returns (r: Result<VaultStore, Exception>)
    requires kernel.Valid() && pid !in kernel.sys.procs
    modifies kernel
    ensures kernel.Valid()
    ensures r.Ok? ==> fresh(r.value) && r.value.Valid() && r.value.kernel == kernel && r.value.pid == pid
    ensures r.Ok? ==> r.value.password == password && old(kernel.holder).None? && !r.value.locked
    ensures r.Ok? ==> match old(VaultContent(kernel.disk))
      case Some(file) => LoadFile(kernel.crypto, password, file).Some?
        && r.value.View().secrets == LoadFile(kernel.crypto, password, file).value.secrets
      case None => r.value.View().secrets == map[]
    ensures r.Err? ==> pid !in kernel.sys.procs && VaultContent(kernel.disk) == old(VaultContent(kernel.disk))
    ensures r.Err? ==> kernel.holder == old(kernel.holder)
    ensures r.Ok? ==> kernel.failures == old(kernel.failures)
    ensures r.Err? && password != [] && old(kernel.holder).None? && kernel.failures == old(kernel.failures) ==>
      CannotOpen(kernel.crypto, password, old(VaultContent(kernel.disk)))
    ensures kernel.failures >= old(kernel.failures)
    ensures password == [] ==> r == Err(InvalidArgument(EmptyPassword))
    ensures r.Err? && password != [] ==> r.error.RuntimeError?
  {
    hide LoadFile, Run;
    if password == [] { return Err(InvalidArgument(EmptyPassword)); }
    var text := kernel.ErrorText();
    var acquired := kernel.Acquire(pid, password);
    if !acquired { return Err(RuntimeError(OsError(text))); }
    var state := LoadOrCreate(kernel, pid, password);
    if state.None? {
      kernel.Release(pid);
      return Err(RuntimeError(OsError(text)));
    }
    var store := new VaultStore(kernel, pid, password, state.value);
    return Ok(store);
  }

  /** Why opening fails though no call does: the file does not load, or there is none and no key for a new one. */
  ghost predicate CannotOpen(crypto: Crypto, password: bytes, content: Option<bytes>) {
    match content
    case Some(file) => LoadFile(crypto, password, file).None?
    case None => exists salt :: |salt| == SALT_SIZE && crypto.derive(password, NewParams(salt)).None?
  }

  /** The parameters of a new vault. */
  function NewParams(salt: bytes): Params { Params(DEFAULT_OPSLIMIT, DEFAULT_MEMLIMIT, salt) }

  /** The two ways to construct a store that has the lock. */
  method LoadOrCreate(kernel: K.Kernel, pid: nat, password: bytes) returns (state: Option<Loaded>)
    requires kernel.Valid() && kernel.Has(pid, Proc(password, Unbuilt, Resting))
    modifies kernel
    ensures kernel.Valid()
    ensures state.Some? ==> kernel.Has(pid, Proc(password, Open(state.value), Resting))
    ensures state.Some? ==> match old(VaultContent(kernel.disk))
      case Some(file) => LoadFile(kernel.crypto, password, file) == state
      case None => state.value.secrets == map[]
    ensures state.None? ==> kernel.Has(pid, Proc(password, Unbuilt, Resting))
    ensures state.None? ==> VaultContent(kernel.disk) == old(VaultContent(kernel.disk))
    ensures kernel.failures >= old(kernel.failures) && (state.Some? ==> kernel.failures == old(kernel.failures))
    ensures state.None? && kernel.failures == old(kernel.failures) ==>
      CannotOpen(kernel.crypto, password, old(VaultContent(kernel.disk)))
  {
    hide LoadFile, Run;
    VaultInvariant.RunKeepsInv(kernel.crypto, kernel.start, kernel.trace);
    VaultInvariant.VaultIsCurrent(kernel.crypto, kernel.sys);
    var present := kernel.Exists();
    if present {
      state := LoadExisting(kernel, password);
      if state.Some? { kernel.Loaded(pid); }
    } else {
      state := CreateNew(kernel, pid, password);
    }
  }

  /** An empty vault can be saved, with any nonce. */
  lemma CreateIsReady(crypto: Crypto, s: Sys, p: nat, l: Loaded)
    requires p in s.procs && s.procs[p] == Proc(s.procs[p].password, Unbuilt, Resting) && Vault !in Live(s.disk)
    requires l.secrets == map[] && l.params.InRange() && crypto.derive(s.procs[p].password, l.params) == Some(l.key)
    ensures Serialized(l.secrets).Ok?
    ensures forall nonce | |nonce| == NONCE_SIZE :: K.CanBegin(crypto, s, p, Create, l, nonce)
  {
    hide Serialized, Live;
    EmptySerializes();
  }

  /** `create_new`: an empty vault, with a newly drawn salt, is saved before the store exists. */
  method CreateNew(kernel: K.Kernel, pid: nat, password: bytes) returns (state: Option<Loaded>)
    requires kernel.Valid() && kernel.Has(pid, Proc(password, Unbuilt, Resting)) && Vault !in Live(kernel.disk)
    modifies kernel
    ensures kernel.Valid()
    ensures state.Some? ==> kernel.Has(pid, Proc(password, Open(state.value), Resting)) && state.value.secrets == map[]
    ensures state.Some? ==> |kernel.drawn| == old(|kernel.drawn|) + 2
    ensures state.Some? ==> state.value.params == NewParams(kernel.drawn[old(|kernel.drawn|)])
    ensures state.Some? ==> kernel.NewestIs(Create, state.value, kernel.drawn[old(|kernel.drawn|) + 1])
    ensures state.None? ==> kernel.Has(pid, Proc(password, Unbuilt, Resting))
    ensures state.None? ==> VaultContent(kernel.disk) == old(VaultContent(kernel.disk))
    ensures kernel.failures >= old(kernel.failures) && (state.Some? ==> kernel.failures == old(kernel.failures))
    ensures state.None? && kernel.failures == old(kernel.failures) ==> CannotOpen(kernel.crypto, password, None)
  {
    hide LoadFile, Run, SavedFile, Serialized, K.CanBegin, VaultContent, Live;
    var salt := kernel.RandomBytes(SALT_SIZE);
    var params := NewParams(salt);
    var key := kernel.crypto.derive(password, params);
    if key.None? { return None; }
    var l := Loaded(map[], key.value, params);
    CreateIsReady(kernel.crypto, kernel.sys, pid, l);
    var error;
    ghost var fault;
    error, fault := Persist(kernel, pid, l, Create);
    if error.Some? { return None; }
    kernel.Finished(pid, kernel.drawn[|kernel.drawn| - 1]);
    return Some(l);
  }
}
