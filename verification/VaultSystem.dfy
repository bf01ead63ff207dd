/**
 Any number of processes constructing, using, locking and destroying stores on one vault path, one
 system call at a time, any of which may be the last before its process is killed or the machine
 loses power.  `Next` is one such step; a run is a sequence of steps from any machine at rest.
 */
module VaultSystem {
  import opened Bytes
  import opened Plaintext
  import opened VaultFile
  import opened FileSystem
  import SecretId

  /** What one successful operation does to the map of secrets; `Found` is a file that was there before. */
  datatype Change = Found | Create | Put(id: bytes, value: bytes) | Remove(id: bytes)

  function Mutate(m: SecretMap, change: Change): SecretMap {
    match change
    case Found => m
    case Create => map[]
    case Put(id, value) => m[id := value]
    case Remove(id) => m - {id}
  }

  /** A file on its way to the vault path, and the state the store takes over when it gets there. */
  datatype Update = Update(change: Change, after: Loaded, file: bytes, suffix: nat, ino: nat)

  /** The store object: under construction, open, or locked for good. */
  datatype Store = Unbuilt | Open(state: Loaded) | Sealed

  /** Where a process is inside `write_file_atomically`. */
  datatype Work =
    | Resting
    | Writing(u: Update, offset: nat)
    | Flushed(u: Update)
    | Closed(u: Update)
    | Renamed(u: Update)
    | Published(u: Update)

  datatype Proc = Proc(password: bytes, store: Store, work: Work)

  /**
   A file at the vault path, with the password and change it was written for and what it loads to
   under that password.
   */
  datatype Version = Version(ino: nat, file: bytes, password: bytes, change: Change, content: Option<Loaded>)

  /**
   The machine.  Four fields record history and influence nothing: `versions`, the files that have
   been at the vault path, oldest first, but for those a power loss took back; `floor`, the version
   the durable directory names; `acked`, how many versions were there at the start or belong to an
   operation that reported success; and whether every directory sync so far succeeded.
   */
  datatype Sys = Sys(
    disk: Disk, procs: map<nat, Proc>, holder: Option<nat>,
    versions: seq<Version>, floor: nat, acked: nat, allSynced: bool)

  /**
   The machine before any process runs: a disk at rest, where the vault path may hold any file
   whatever - an earlier vault, a restored one, or one that no password opens - and the password
   its owner has for it.  Other files may lie about.
   */
  datatype RawStart = RawStart(disk: Disk, password: bytes)

  predicate AtRest(disk: Disk) {
    && disk.log == []
    && (Vault in disk.durable ==> disk.durable[Vault] < |disk.inodes| && disk.inodes[disk.durable[Vault]].synced)
  }

  const EMPTY_DISK: Disk := Disk([], map[], [])

  type Start = s: RawStart | AtRest(s.disk) witness RawStart(EMPTY_DISK, [])

  function FoundVersions(crypto: Crypto, start: Start): (r: seq<Version>)
    ensures |r| == if Vault in start.disk.durable then 1 else 0
  {
    if Vault !in start.disk.durable then []
    else
      var ino := start.disk.durable[Vault];
      var file := start.disk.inodes[ino].data;
      [Version(ino, file, start.password, Found, LoadFile(crypto, start.password, file))]
  }

  function Booted(crypto: Crypto, start: Start): Sys {
    var found := FoundVersions(crypto, start);
    Sys(start.disk, map[], None, found, 0, |found|, true)
  }

  /** What a process that holds the lock does next. */
  datatype Call =
    | Load
    | BeginCreate(params: Params, nonce: bytes, suffix: nat)
    | BeginChange(change: Change, nonce: bytes, suffix: nat)
    | Write(count: nat)
    | FsyncFile
    | CloseFile
    | Rename
    | SyncDir(ok: bool)
    | Finish
    | Abort(unlinked: bool)
    | Seal
    | Release
    | Die

  datatype Action =
    | Acquire(p: nat, password: bytes)
    | Do(p: nat, call: Call)
    | PowerLoss(kept: set<nat>, junk: map<nat, bytes>)

  // ---------------------------------------------------------------- one step

  /** The checks of `put` and `remove` that come before anything is written. */
  ghost predicate Allowed(m: SecretMap, change: Change) {
    match change
    case Found => false
    case Create => false
    case Put(id, value) =>
      SecretId.IsValid(id) && |value| <= MAX_SECRET_SIZE
      && (id in m || |m| < MAX_SECRET_COUNT) && Serialized(m[id := value]).Ok?
    case Remove(id) => SecretId.IsValid(id) && id in m && Serialized(m - {id}).Ok?
  }

  predicate CanWrite(disk: Disk, proc: Proc, count: nat) {
    && proc.work.Writing? && proc.work.u.ino < |disk.inodes|
    && 0 < count && proc.work.offset + count <= |proc.work.u.file|
  }

  predicate CanFsync(disk: Disk, proc: Proc) {
    && proc.work.Writing? && proc.work.u.ino < |disk.inodes|
    && proc.work.offset == |proc.work.u.file|
  }

  predicate CanAbort(proc: Proc) { proc.work.Writing? || proc.work.Flushed? || proc.work.Closed? }

  ghost predicate CanDo(crypto: Crypto, disk: Disk, proc: Proc, call: Call) {
    match call
    case Load => proc.work.Resting? && proc.store.Unbuilt?
      && VaultContent(disk).Some? && LoadFile(crypto, proc.password, VaultContent(disk).value).Some?
    case BeginCreate(params, nonce, suffix) => proc.work.Resting? && proc.store.Unbuilt?
      && Vault !in Live(disk) && Temp(suffix) !in Live(disk)
      && params.InRange() && |nonce| == NONCE_SIZE && crypto.derive(proc.password, params).Some?
    case BeginChange(change, nonce, suffix) => proc.work.Resting? && proc.store.Open?
      && Temp(suffix) !in Live(disk) && |nonce| == NONCE_SIZE && Allowed(proc.store.state.secrets, change)
    case Write(count) => CanWrite(disk, proc, count)
    case FsyncFile => CanFsync(disk, proc)
    case CloseFile => proc.work.Flushed?
    case Rename => proc.work.Closed?
    case SyncDir(ok) => proc.work.Renamed?
    case Finish => proc.work.Published?
    case Abort(unlinked) => CanAbort(proc)
    case Seal => proc.work.Resting?
    case Release => proc.work.Resting? && !proc.store.Open?
    case Die => true
  }

  ghost predicate Enabled(crypto: Crypto, s: Sys, a: Action) {
    match a
    case Acquire(p, password) => p !in s.procs && s.holder.None? && password != []
    case Do(p, call) => p in s.procs && CanDo(crypto, s.disk, s.procs[p], call)
    case PowerLoss(_, _) => true
  }

  function SetProc(s: Sys, p: nat, proc: Proc): Sys { s.(procs := s.procs[p := proc]) }

  /** A new temporary file, still empty, for the state `after`. */
  ghost function Begin(crypto: Crypto, s: Sys, p: nat, change: Change, after: Loaded, nonce: bytes, suffix: nat): Sys
    requires p in s.procs && Serialized(after.secrets).Ok?
  {
    var u := Update(change, after, SavedFile(crypto, after, nonce), suffix, |s.disk.inodes|);
    SetProc(s, p, s.procs[p].(work := Writing(u, 0))).(disk := CreateTemp(s.disk, suffix))
  }

  /** The versions up to the last one in inode `ino`. */
  function UpTo(versions: seq<Version>, ino: nat): seq<Version> {
    if versions == [] then []
    else
      var last := |versions| - 1;
      if versions[last].ino == ino then versions else UpTo(versions[..last], ino)
  }

  function Restart(s: Sys, kept: set<nat>, junk: map<nat, bytes>): Sys {
    var disk := LosePower(s.disk, kept, junk);
    var versions := if Vault in disk.durable then UpTo(s.versions, disk.durable[Vault]) else [];
    Sys(disk, map[], None, versions, if versions == [] then 0 else |versions| - 1,
        Min(s.acked, |versions|), s.allSynced)
  }

  /** A process is gone, and with it, if it had it, the file lock. */
  function Exit(s: Sys, p: nat): Sys {
    s.(procs := s.procs - {p}, holder := if s.holder == Some(p) then None else s.holder)
  }

  function AfterWrite(s: Sys, p: nat, count: nat): Sys
    requires p in s.procs && CanWrite(s.disk, s.procs[p], count)
  {
    var Writing(u, offset) := s.procs[p].work;
    SetProc(s, p, s.procs[p].(work := Writing(u, offset + count)))
      .(disk := Append(s.disk, u.ino, u.file[offset..offset + count]))
  }

  function AfterFsync(s: Sys, p: nat): Sys
    requires p in s.procs && CanFsync(s.disk, s.procs[p])
  {
    var u := s.procs[p].work.u;
    SetProc(s, p, s.procs[p].(work := Flushed(u))).(disk := SyncInode(s.disk, u.ino))
  }

  function AfterRename(s: Sys, p: nat): Sys
    requires p in s.procs && s.procs[p].work.Closed?
  {
    var u := s.procs[p].work.u;
    SetProc(s, p, s.procs[p].(work := Renamed(u))).(
      disk := RenameToVault(s.disk, u.suffix, u.ino),
      versions := s.versions + [Version(u.ino, u.file, s.procs[p].password, u.change, Some(u.after))])
  }

  function AfterSyncDir(s: Sys, p: nat, ok: bool): Sys
    requires p in s.procs && s.procs[p].work.Renamed?
  {
    var t := SetProc(s, p, s.procs[p].(work := Published(s.procs[p].work.u)));
    if ok then t.(disk := SyncDirectory(s.disk), floor := if s.versions == [] then 0 else |s.versions| - 1)
    else t.(allSynced := false)
  }

  function AfterAbort(s: Sys, p: nat, unlinked: bool): Sys
    requires p in s.procs && CanAbort(s.procs[p])
  {
    SetProc(s, p, s.procs[p].(work := Resting))
      .(disk := if unlinked then UnlinkTemp(s.disk, s.procs[p].work.u.suffix) else s.disk)
  }

  ghost function DoCall(crypto: Crypto, s: Sys, p: nat, call: Call): Sys
    requires p in s.procs && CanDo(crypto, s.disk, s.procs[p], call)
  {
    var proc := s.procs[p];
    match call
    case Load =>
      SetProc(s, p, proc.(store := Open(LoadFile(crypto, proc.password, VaultContent(s.disk).value).value)))
    case BeginCreate(params, nonce, suffix) =>
      EmptySerializes();
      Begin(crypto, s, p, Create, Loaded(map[], crypto.derive(proc.password, params).value, params), nonce, suffix)
    case BeginChange(change, nonce, suffix) =>
      Begin(crypto, s, p, change, proc.store.state.(secrets := Mutate(proc.store.state.secrets, change)), nonce, suffix)
    case Write(count) => AfterWrite(s, p, count)
    case FsyncFile => AfterFsync(s, p)
    case CloseFile => SetProc(s, p, proc.(work := Closed(proc.work.u)))
    case Rename => AfterRename(s, p)
    case SyncDir(ok) => AfterSyncDir(s, p, ok)
    case Finish => SetProc(s, p, proc.(store := Open(proc.work.u.after), work := Resting)).(acked := |s.versions|)
    case Abort(unlinked) => AfterAbort(s, p, unlinked)
    case Seal => SetProc(s, p, proc.(store := Sealed))
    case Release => Exit(s, p)
    case Die => Exit(s, p)
  }

  ghost function Effect(crypto: Crypto, s: Sys, a: Action): Sys
    requires Enabled(crypto, s, a)
  {
    match a
    case Acquire(p, password) => SetProc(s, p, Proc(password, Unbuilt, Resting)).(holder := Some(p))
    case Do(p, call) => DoCall(crypto, s, p, call)
    case PowerLoss(kept, junk) => Restart(s, kept, junk)
  }

  /** A step that is not enabled is one that failed without effect. */
  ghost function Next(crypto: Crypto, s: Sys, a: Action): Sys {
    if Enabled(crypto, s, a) then Effect(crypto, s, a) else s
  }

  ghost function Run(crypto: Crypto, start: Start, actions: seq<Action>): Sys {
    if actions == [] then Booted(crypto, start)
    else Next(crypto, Run(crypto, start, actions[..|actions| - 1]), actions[|actions| - 1])
  }

  // ---------------------------------------------------------------- the invariant

  function Inos(versions: seq<Version>): (r: seq<nat>)
    ensures |r| == |versions| && forall i | 0 <= i < |r| :: r[i] == versions[i].ino
  {
    seq(|versions|, i requires 0 <= i < |versions| => versions[i].ino)
  }

  function Current(s: Sys): Option<bytes> {
    if s.versions == [] then None else Some(s.versions[|s.versions| - 1].file)
  }

  /** Whoever has a store holds the file lock. */
  ghost predicate Owned(s: Sys) { forall p | p in s.procs :: s.holder == Some(p) }

  /** The vault path names, durably and in the log, exactly the versions from `floor` on. */
  ghost predicate Linked(s: Sys) {
    && VaultStays(s.disk.log)
    && s.floor <= |s.versions|
    && VaultLinks(s.disk) == Inos(s.versions[s.floor..])
    && (Vault in s.disk.durable ==> s.floor < |s.versions|)
    && (Vault !in s.disk.durable ==> s.floor == 0)
  }

  /** A version's bytes are durable and load to its content. */
  ghost predicate VersionOk(crypto: Crypto, disk: Disk, v: Version) {
    && v.ino < |disk.inodes| && disk.inodes[v.ino] == Inode(v.file, true)
    && LoadFile(crypto, v.password, v.file) == v.content
  }

  ghost predicate Written(crypto: Crypto, s: Sys) {
    forall i | 0 <= i < |s.versions| :: VersionOk(crypto, s.disk, s.versions[i])
  }

  /** Every save has a file of its own. */
  ghost predicate Separate(versions: seq<Version>) {
    forall i, j :: 0 <= i < j < |versions| ==> versions[i].ino != versions[j].ino
  }

  /** `v` changes the map that its writer had loaded from the version before. */
  ghost predicate Continues(crypto: Crypto, before: Option<bytes>, password: bytes, change: Change, content: Loaded) {
    match before
    case None => change.Create? && content.secrets == map[]
    case Some(file) =>
      && !change.Create? && !change.Found?
      && LoadFile(crypto, password, file).Some?
      && content.secrets == Mutate(LoadFile(crypto, password, file).value.secrets, change)
  }

  ghost predicate ContinuesAt(crypto: Crypto, versions: seq<Version>, i: nat)
    requires i < |versions|
  {
    if versions[i].change.Found? then i == 0
    else
      && versions[i].content.Some?
      && Continues(crypto, if i == 0 then None else Some(versions[i - 1].file),
                   versions[i].password, versions[i].change, versions[i].content.value)
  }

  ghost predicate Chained(crypto: Crypto, versions: seq<Version>) {
    forall i | 0 <= i < |versions| :: ContinuesAt(crypto, versions, i)
  }

  /** An update that has not reached the vault path. */
  ghost predicate Pending(crypto: Crypto, s: Sys, proc: Proc, u: Update) {
    && u.ino < |s.disk.inodes|
    && (forall i | 0 <= i < |s.versions| :: s.versions[i].ino != u.ino)
    && LoadFile(crypto, proc.password, u.file) == Some(u.after)
    && Continues(crypto, Current(s), proc.password, u.change, u.after)
    && (proc.store.Unbuilt? <==> u.change.Create?)
  }

  ghost predicate UpToDate(crypto: Crypto, s: Sys, proc: Proc) {
    proc.store.Open? ==>
      Current(s).Some? && LoadFile(crypto, proc.password, Current(s).value) == Some(proc.store.state)
  }

  ghost predicate ProcOk(crypto: Crypto, s: Sys, proc: Proc) {
    match proc.work
    case Resting => UpToDate(crypto, s, proc)
    case Writing(u, offset) =>
      UpToDate(crypto, s, proc) && !proc.store.Sealed? && Pending(crypto, s, proc, u)
      && offset <= |u.file| && s.disk.inodes[u.ino].data == u.file[..offset]
    case Flushed(u) =>
      UpToDate(crypto, s, proc) && !proc.store.Sealed? && Pending(crypto, s, proc, u)
      && s.disk.inodes[u.ino] == Inode(u.file, true)
    case Closed(u) =>
      UpToDate(crypto, s, proc) && !proc.store.Sealed? && Pending(crypto, s, proc, u)
      && s.disk.inodes[u.ino] == Inode(u.file, true)
    case Renamed(u) => !proc.store.Sealed? && AtVault(s, proc, u) && Durable(s) < |s.versions|
    case Published(u) =>
      !proc.store.Sealed? && AtVault(s, proc, u) && (s.allSynced ==> Durable(s) == |s.versions|)
  }

  ghost predicate AtVault(s: Sys, proc: Proc, u: Update) {
    s.versions != []
    && s.versions[|s.versions| - 1] == Version(u.ino, u.file, proc.password, u.change, Some(u.after))
  }

  /** How many versions no power loss can take back any more. */
  function Durable(s: Sys): nat { if Vault in s.disk.durable then s.floor + 1 else 0 }

  /** With working directory syncs, only versions nobody was told about can still be lost. */
  ghost predicate Acknowledged(s: Sys) {
    s.acked <= |s.versions| && (s.allSynced ==> s.acked <= Durable(s))
  }

  ghost predicate Inv(crypto: Crypto, s: Sys) {
    && Owned(s)
    && Linked(s)
    && Written(crypto, s)
    && Chained(crypto, s.versions)
    && Separate(s.versions)
    && (forall p | p in s.procs :: ProcOk(crypto, s, s.procs[p]))
    && Acknowledged(s)
  }

  lemma EmptySerializes()
    ensures Persistable(map[]) && Serialized(map[]).Ok?
  {
    SerializedRoundTrip(map[]);
  }
}
