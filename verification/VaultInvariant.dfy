/** Every run of the vault system keeps the invariant, and what follows from it. */
module VaultInvariant {
  import opened Bytes
  import opened Plaintext
  import opened VaultFile
  import opened FileSystem
  import opened VaultSystem

  // ---------------------------------------------------------------- consequences of the invariant

  /** Running processes that open the vault path read the newest version. */
  lemma VaultIsCurrent(crypto: Crypto, s: Sys)
    requires Linked(s) && Written(crypto, s)
    ensures VaultContent(s.disk) == Current(s)
    ensures Vault in Live(s.disk) <==> s.versions != []
  {
    hide LoadFile, ApplyOps, Links;
    LiveVault(s.disk);
    if s.versions != [] {
      assert VersionOk(crypto, s.disk, s.versions[|s.versions| - 1]);
    }
  }

  lemma OnlyOne(s: Sys, p: nat)
    requires Owned(s) && p in s.procs
    ensures s.holder == Some(p) && forall q | q in s.procs :: q == p
  {}

  // ---------------------------------------------------------------- what steps leave alone

  predicate SameHistory(s: Sys, t: Sys) {
    t.versions == s.versions && t.floor == s.floor && t.acked == s.acked && t.allSynced == s.allSynced
  }

  /** Directory changes to temporary names do not touch the vault's entry. */
  lemma TempOps(disk: Disk, ops: seq<DirOp>)
    requires VaultStays(disk.log) && |ops| == 1 && ops[0].name != Vault
    ensures var t := disk.(log := disk.log + ops); VaultStays(t.log) && VaultLinks(t) == VaultLinks(disk)
  {
    LinksAppend(disk.log, ops);
    assert Links(ops) == [];
    assert Links(disk.log) + [] == Links(disk.log);
  }

  ghost predicate KeepsVersions(s: Sys, disk: Disk) {
    |disk.inodes| >= |s.disk.inodes|
    && forall i | 0 <= i < |s.versions| ::
      s.versions[i].ino < |s.disk.inodes| ==> disk.inodes[s.versions[i].ino] == s.disk.inodes[s.versions[i].ino]
  }

  /** The parts of the invariant that speak of files only. */
  ghost predicate FilesOk(crypto: Crypto, s: Sys) {
    Linked(s) && Written(crypto, s) && Chained(crypto, s.versions) && Separate(s.versions) && Acknowledged(s)
  }

  lemma FilesKept(crypto: Crypto, s: Sys, t: Sys)
    requires FilesOk(crypto, s) && SameHistory(s, t) && KeepsVersions(s, t.disk)
    requires VaultStays(t.disk.log) && VaultLinks(t.disk) == VaultLinks(s.disk)
    requires t.disk.durable == s.disk.durable
    ensures FilesOk(crypto, t)
  {
    forall i | 0 <= i < |t.versions| ensures VersionOk(crypto, t.disk, t.versions[i]) {
      assert VersionOk(crypto, s.disk, s.versions[i]);
    }
  }

  lemma InvIsFiles(crypto: Crypto, s: Sys)
    requires Inv(crypto, s)
    ensures FilesOk(crypto, s)
  {}

  lemma Parts(crypto: Crypto, s: Sys, p: nat)
    requires Inv(crypto, s) && p in s.procs
    ensures Owned(s) && FilesOk(crypto, s) && ProcOk(crypto, s, s.procs[p])
  {}

  /** One process took a step: the invariant needs checking for it alone. */
  lemma OneProc(crypto: Crypto, s: Sys, t: Sys, p: nat)
    requires Owned(s) && p in s.procs && t.holder == s.holder && t.procs.Keys == s.procs.Keys
    requires FilesOk(crypto, t) && ProcOk(crypto, t, t.procs[p])
    ensures Inv(crypto, t)
  {
    OnlyOne(s, p);
    forall q | q in t.procs ensures t.holder == Some(q) && ProcOk(crypto, t, t.procs[q]) { assert q in s.procs; }
  }

  // ---------------------------------------------------------------- one lemma a call

  lemma StepLoad(crypto: Crypto, s: Sys, p: nat)
    requires Inv(crypto, s) && Enabled(crypto, s, Do(p, Load))
    ensures Inv(crypto, DoCall(crypto, s, p, Load))
  {
    hide LoadFile, Inv, Live, Continues, Serialized, SavedFile, Links;
    Parts(crypto, s, p);
    VaultIsCurrent(crypto, s);
    var t := DoCall(crypto, s, p, Load);
    FilesKept(crypto, s, t);
    OneProc(crypto, s, t, p);
  }

  lemma StepBegin(crypto: Crypto, s: Sys, p: nat, change: Change, after: Loaded, nonce: bytes, suffix: nat)
    requires crypto.Lawful() && Inv(crypto, s) && p in s.procs && s.procs[p].work.Resting?
    requires |nonce| == NONCE_SIZE && Sound(after) && Serialized(after.secrets).Ok?
    requires crypto.derive(s.procs[p].password, after.params) == Some(after.key)
    requires Continues(crypto, Current(s), s.procs[p].password, change, after)
    requires !s.procs[p].store.Sealed? && (s.procs[p].store.Unbuilt? <==> change.Create?)
    ensures Inv(crypto, Begin(crypto, s, p, change, after, nonce, suffix))
  {
    hide LoadFile, Inv, VaultContent, Live, Serialized, SavedFile, Links, Chained, Separate, Continues;
    Parts(crypto, s, p);
    var t := Begin(crypto, s, p, change, after, nonce, suffix);
    SavedFileLoads(crypto, s.procs[p].password, after, nonce);
    TempOps(s.disk, [Link(Temp(suffix), |s.disk.inodes|)]);
    FilesKept(crypto, s, t);
    NewInode(crypto, s);
    OneProc(crypto, s, t, p);
  }

  lemma NewInode(crypto: Crypto, s: Sys)
    requires Written(crypto, s)
    ensures forall i | 0 <= i < |s.versions| :: s.versions[i].ino < |s.disk.inodes|
  {
    hide LoadFile;
    forall i | 0 <= i < |s.versions| ensures s.versions[i].ino < |s.disk.inodes| {
      assert VersionOk(crypto, s.disk, s.versions[i]);
    }
  }

  /** An open store can always save: what it holds came from a file or from an earlier save. */
  lemma OpenIsSound(crypto: Crypto, s: Sys, p: nat)
    requires crypto.Lawful() && Inv(crypto, s) && p in s.procs
    requires s.procs[p].work.Resting? && s.procs[p].store.Open?
    ensures Current(s).Some? && LoadFile(crypto, s.procs[p].password, Current(s).value) == Some(s.procs[p].store.state)
    ensures Sound(s.procs[p].store.state)
    ensures crypto.derive(s.procs[p].password, s.procs[p].store.state.params) == Some(s.procs[p].store.state.key)
  {
    assert ProcOk(crypto, s, s.procs[p]);
    LoadedIsSound(crypto, s.procs[p].password, Current(s).value);
  }

  lemma StepBeginCreate(crypto: Crypto, s: Sys, p: nat, params: Params, nonce: bytes, suffix: nat)
    requires crypto.Lawful() && Inv(crypto, s) && Enabled(crypto, s, Do(p, BeginCreate(params, nonce, suffix)))
    ensures Inv(crypto, DoCall(crypto, s, p, BeginCreate(params, nonce, suffix)))
  {
    hide LoadFile;
    VaultIsCurrent(crypto, s);
    EmptySerializes();
    var key := crypto.derive(s.procs[p].password, params).value;
    StepBegin(crypto, s, p, Create, Loaded(map[], key, params), nonce, suffix);
  }

  lemma StepBeginChange(crypto: Crypto, s: Sys, p: nat, change: Change, nonce: bytes, suffix: nat)
    requires crypto.Lawful() && Inv(crypto, s) && Enabled(crypto, s, Do(p, BeginChange(change, nonce, suffix)))
    ensures Inv(crypto, DoCall(crypto, s, p, BeginChange(change, nonce, suffix)))
  {
    hide LoadFile;
    OpenIsSound(crypto, s, p);
    var l := s.procs[p].store.state;
    match change {
      case Put(id, value) => PutPersistable(l.secrets, id, value);
      case Remove(id) => RemovePersistable(l.secrets, id);
    }
    StepBegin(crypto, s, p, change, l.(secrets := Mutate(l.secrets, change)), nonce, suffix);
  }

  /** Changing an inode that is no version's leaves the files alone. */
  lemma OtherInode(crypto: Crypto, s: Sys, t: Sys, ino: nat, inode: Inode)
    requires FilesOk(crypto, s) && SameHistory(s, t) && ino < |s.disk.inodes|
    requires forall i | 0 <= i < |s.versions| :: s.versions[i].ino != ino
    requires t.disk == s.disk.(inodes := s.disk.inodes[ino := inode])
    ensures FilesOk(crypto, t)
  {
    hide LoadFile, Continues;
    FilesKept(crypto, s, t);
  }

  lemma StepWrite(crypto: Crypto, s: Sys, p: nat, count: nat)
    requires Inv(crypto, s) && p in s.procs && CanWrite(s.disk, s.procs[p], count)
    ensures Inv(crypto, AfterWrite(s, p, count))
  {
    hide LoadFile, Inv, Continues, FilesOk;
    Parts(crypto, s, p);
    var t := AfterWrite(s, p, count);
    var Writing(u, offset) := s.procs[p].work;
    assert u.file[..offset] + u.file[offset..offset + count] == u.file[..offset + count];
    OtherInode(crypto, s, t, u.ino, Inode(u.file[..offset + count], false));
    OneProc(crypto, s, t, p);
  }

  lemma StepFsync(crypto: Crypto, s: Sys, p: nat)
    requires Inv(crypto, s) && p in s.procs && CanFsync(s.disk, s.procs[p])
    ensures Inv(crypto, AfterFsync(s, p))
  {
    hide LoadFile, Inv, Continues, FilesOk;
    Parts(crypto, s, p);
    var t := AfterFsync(s, p);
    var u := s.procs[p].work.u;
    assert u.file[..|u.file|] == u.file;
    OtherInode(crypto, s, t, u.ino, Inode(u.file, true));
    OneProc(crypto, s, t, p);
  }

  lemma StepClose(crypto: Crypto, s: Sys, p: nat)
    requires Inv(crypto, s) && p in s.procs && s.procs[p].work.Flushed?
    ensures Inv(crypto, SetProc(s, p, s.procs[p].(work := Closed(s.procs[p].work.u))))
  {
    hide LoadFile, Inv, Continues;
    Parts(crypto, s, p);
    var t := SetProc(s, p, s.procs[p].(work := Closed(s.procs[p].work.u)));
    FilesKept(crypto, s, t);
    OneProc(crypto, s, t, p);
  }

  lemma RenameFiles(crypto: Crypto, s: Sys, p: nat)
    requires FilesOk(crypto, s) && p in s.procs && s.procs[p].work.Closed? && ProcOk(crypto, s, s.procs[p])
    ensures FilesOk(crypto, AfterRename(s, p))
  {
    hide LoadFile, Continues, Links, Linked;
    var t := AfterRename(s, p);
    var u := s.procs[p].work.u;
    SavedIsNotFound(crypto, Current(s), s.procs[p].password, u.change, u.after);
    RenameLinked(s, p);
    DurableWithin(crypto, s);
    forall i | 0 <= i < |t.versions| ensures VersionOk(crypto, t.disk, t.versions[i]) {
      if i < |s.versions| { assert VersionOk(crypto, s.disk, s.versions[i]); }
    }
    forall i | 0 <= i < |t.versions| ensures ContinuesAt(crypto, t.versions, i) {
      if i < |s.versions| { assert ContinuesAt(crypto, s.versions, i); }
    }
  }

  lemma RenameLinked(s: Sys, p: nat)
    requires Linked(s) && p in s.procs && s.procs[p].work.Closed?
    ensures Linked(AfterRename(s, p))
  {
    hide Links, VaultLinks;
    var t := AfterRename(s, p);
    var u := s.procs[p].work.u;
    RenameLinks(s.disk, u.suffix, u.ino);
    assert t.versions[s.floor..] == s.versions[s.floor..] + [t.versions[|s.versions|]];
  }

  lemma SavedIsNotFound(crypto: Crypto, before: Option<bytes>, password: bytes, change: Change, content: Loaded)
    requires Continues(crypto, before, password, change, content)
    ensures !change.Found?
  {}

  lemma DurableWithin(crypto: Crypto, s: Sys)
    requires FilesOk(crypto, s)
    ensures Durable(s) <= |s.versions|
  {}

  lemma StepRename(crypto: Crypto, s: Sys, p: nat)
    requires Inv(crypto, s) && p in s.procs && s.procs[p].work.Closed?
    ensures Inv(crypto, AfterRename(s, p))
  {
    hide LoadFile, Inv, Continues, FilesOk;
    Parts(crypto, s, p);
    RenameFiles(crypto, s, p);
    DurableWithin(crypto, s);
    OneProc(crypto, s, AfterRename(s, p), p);
  }

  lemma RenameLinks(disk: Disk, suffix: nat, ino: nat)
    requires VaultStays(disk.log)
    ensures var t := RenameToVault(disk, suffix, ino);
      VaultStays(t.log) && VaultLinks(t) == VaultLinks(disk) + [ino]
  {
    var ops := [Link(Vault, ino), Unlink(Temp(suffix))];
    LinksAppend(disk.log, ops);
    assert ops[1..] == [Unlink(Temp(suffix))] && ops[1..][1..] == [];
    assert Links(ops[1..]) == [];
  }

  /** A successful directory sync makes the newest version the only one the vault path may name. */
  lemma SyncedLinks(crypto: Crypto, s: Sys)
    requires FilesOk(crypto, s) && s.versions != []
    ensures var disk := SyncDirectory(s.disk);
      VaultStays(disk.log) && Vault in disk.durable && VaultLinks(disk) == [s.versions[|s.versions| - 1].ino]
  {
    hide LoadFile, Continues;
    LiveVault(s.disk);
  }

  lemma SyncDirFiles(crypto: Crypto, s: Sys, p: nat, ok: bool)
    requires FilesOk(crypto, s) && p in s.procs && s.procs[p].work.Renamed? && s.versions != []
    ensures FilesOk(crypto, AfterSyncDir(s, p, ok))
  {
    hide LoadFile, Continues, ApplyOps;
    var t := AfterSyncDir(s, p, ok);
    var last := |s.versions| - 1;
    SyncedLinks(crypto, s);
    assert s.versions[last..] == [s.versions[last]];
    assert Inos(s.versions[last..]) == [s.versions[last].ino];
    forall i | 0 <= i < |t.versions| ensures VersionOk(crypto, t.disk, t.versions[i]) {
      assert VersionOk(crypto, s.disk, s.versions[i]);
    }
  }

  lemma StepSyncDir(crypto: Crypto, s: Sys, p: nat, ok: bool)
    requires Inv(crypto, s) && p in s.procs && s.procs[p].work.Renamed?
    ensures Inv(crypto, AfterSyncDir(s, p, ok))
  {
    hide LoadFile, Inv, Continues, FilesOk, Links;
    Parts(crypto, s, p);
    SyncDirFiles(crypto, s, p, ok);
    SyncedLinks(crypto, s);
    OneProc(crypto, s, AfterSyncDir(s, p, ok), p);
  }

  lemma StepFinish(crypto: Crypto, s: Sys, p: nat)
    requires Inv(crypto, s) && Enabled(crypto, s, Do(p, Finish))
    ensures Inv(crypto, DoCall(crypto, s, p, Finish))
  {
    hide LoadFile, Inv, VaultContent, Live, Continues, Serialized, SavedFile,
      Links, VaultLinks, Separate, Pending, Chained;
    Parts(crypto, s, p);
    var t := DoCall(crypto, s, p, Finish);
    assert ProcOk(crypto, s, s.procs[p]);
    assert VersionOk(crypto, s.disk, s.versions[|s.versions| - 1]);
    OneProc(crypto, s, t, p);
  }

  lemma StepAbort(crypto: Crypto, s: Sys, p: nat, unlinked: bool)
    requires Inv(crypto, s) && p in s.procs && CanAbort(s.procs[p])
    ensures Inv(crypto, AfterAbort(s, p, unlinked))
  {
    hide LoadFile, Inv, Continues, Links;
    Parts(crypto, s, p);
    var t := AfterAbort(s, p, unlinked);
    if unlinked { TempOps(s.disk, [Unlink(Temp(s.procs[p].work.u.suffix))]); }
    FilesKept(crypto, s, t);
    OneProc(crypto, s, t, p);
  }

  lemma StepSeal(crypto: Crypto, s: Sys, p: nat)
    requires Inv(crypto, s) && Enabled(crypto, s, Do(p, Seal))
    ensures Inv(crypto, DoCall(crypto, s, p, Seal))
  {
    hide LoadFile, Inv, VaultContent, Live, Continues, Serialized, SavedFile, Links;
    Parts(crypto, s, p);
    var t := DoCall(crypto, s, p, Seal);
    FilesKept(crypto, s, t);
    OneProc(crypto, s, t, p);
  }

  lemma StepExit(crypto: Crypto, s: Sys, p: nat)
    requires Inv(crypto, s) && p in s.procs
    ensures Inv(crypto, Exit(s, p))
  {
    hide LoadFile;
    OnlyOne(s, p);
    FilesKept(crypto, s, Exit(s, p));
  }

  lemma StepAcquire(crypto: Crypto, s: Sys, p: nat, password: bytes)
    requires Inv(crypto, s) && Enabled(crypto, s, Acquire(p, password))
    ensures Inv(crypto, Effect(crypto, s, Acquire(p, password)))
  {
    hide LoadFile;
    var t := Effect(crypto, s, Acquire(p, password));
    FilesKept(crypto, s, t);
    assert forall q | q in s.procs :: s.holder == Some(q);
  }

  lemma {:induction false} UpToIsPrefix(versions: seq<Version>, ino: nat, at: nat)
    requires at < |versions| && versions[at].ino == ino
    ensures at < |UpTo(versions, ino)| <= |versions|
    ensures UpTo(versions, ino) == versions[..|UpTo(versions, ino)|]
    ensures versions[|UpTo(versions, ino)| - 1].ino == ino
  {
    var last := |versions| - 1;
    if versions[last].ino != ino { UpToIsPrefix(versions[..last], ino, at); }
  }

  /** After a power loss the vault path is at one of the versions from the durable one on. */
  lemma RestartVersions(crypto: Crypto, s: Sys, kept: set<nat>, junk: map<nat, bytes>)
    requires FilesOk(crypto, s)
    ensures var t := Restart(s, kept, junk);
      && |t.versions| <= |s.versions| && t.versions == s.versions[..|t.versions|]
      && (Vault in t.disk.durable <==> t.versions != [])
      && (t.versions != [] ==> t.disk.durable[Vault] == t.versions[|t.versions| - 1].ino && s.floor < |t.versions|)
      && (t.versions == [] ==> s.floor == 0 && Vault !in s.disk.durable)
  {
    hide LoadFile, UpTo, Keep, ApplyOps, LosePower, Links, Written, Chained, Separate, Acknowledged;
    var disk := LosePower(s.disk, kept, junk);
    VaultAfterPowerLoss(s.disk, kept, junk);
    if Vault in disk.durable { SurvivingLink(s, disk.durable[Vault]); }
  }

  lemma SurvivingLink(s: Sys, ino: nat)
    requires Linked(s) && ino in VaultLinks(s.disk)
    ensures var r := UpTo(s.versions, ino);
      s.floor < |r| <= |s.versions| && r == s.versions[..|r|] && r[|r| - 1].ino == ino
  {
    var i :| 0 <= i < |VaultLinks(s.disk)| && VaultLinks(s.disk)[i] == ino;
    assert s.versions[s.floor..][i].ino == ino;
    UpToIsPrefix(s.versions, ino, s.floor + i);
  }

  lemma RestartLinked(crypto: Crypto, s: Sys, kept: set<nat>, junk: map<nat, bytes>)
    requires FilesOk(crypto, s)
    ensures Linked(Restart(s, kept, junk)) && Acknowledged(Restart(s, kept, junk))
  {
    hide LoadFile, Written, Chained, UpTo, ApplyOps, Keep, Separate;
    var t := Restart(s, kept, junk);
    RestartVersions(crypto, s, kept, junk);
    if t.versions != [] {
      assert t.versions[t.floor..] == [t.versions[t.floor]];
    }
    assert VaultLinks(t.disk) == Inos(t.versions[t.floor..]);
  }

  lemma StepPowerLoss(crypto: Crypto, s: Sys, kept: set<nat>, junk: map<nat, bytes>)
    requires Inv(crypto, s)
    ensures Inv(crypto, Restart(s, kept, junk))
  {
    hide LoadFile, Linked, Acknowledged, UpTo, ApplyOps, Keep;
    var t := Restart(s, kept, junk);
    RestartVersions(crypto, s, kept, junk);
    RestartLinked(crypto, s, kept, junk);
    forall i | 0 <= i < |t.versions| ensures VersionOk(crypto, t.disk, t.versions[i]) {
      assert VersionOk(crypto, s.disk, s.versions[i]);
    }
    ChainPrefix(crypto, s.versions, |t.versions|);
  }

  lemma ChainPrefix(crypto: Crypto, versions: seq<Version>, n: nat)
    requires Chained(crypto, versions) && n <= |versions|
    ensures Chained(crypto, versions[..n])
  {
    hide LoadFile;
    forall i | 0 <= i < n ensures ContinuesAt(crypto, versions[..n], i) {
      assert ContinuesAt(crypto, versions, i);
    }
  }

  // ---------------------------------------------------------------- all runs

  lemma StepCall(crypto: Crypto, s: Sys, p: nat, call: Call)
    requires crypto.Lawful() && Inv(crypto, s) && Enabled(crypto, s, Do(p, call))
    ensures Inv(crypto, DoCall(crypto, s, p, call))
  {
    hide LoadFile;
    match call {
      case Load => StepLoad(crypto, s, p);
      case BeginCreate(params, nonce, suffix) => StepBeginCreate(crypto, s, p, params, nonce, suffix);
      case BeginChange(change, nonce, suffix) => StepBeginChange(crypto, s, p, change, nonce, suffix);
      case Write(count) => StepWrite(crypto, s, p, count);
      case FsyncFile => StepFsync(crypto, s, p);
      case CloseFile => StepClose(crypto, s, p);
      case Rename => StepRename(crypto, s, p);
      case SyncDir(ok) => StepSyncDir(crypto, s, p, ok);
      case Finish => StepFinish(crypto, s, p);
      case Abort(unlinked) => StepAbort(crypto, s, p, unlinked);
      case Seal => StepSeal(crypto, s, p);
      case Release => StepExit(crypto, s, p);
      case Die => StepExit(crypto, s, p);
    }
  }

  /** Every step, by whichever process or by the power supply, keeps the invariant. */
  lemma StepKeepsInv(crypto: Crypto, s: Sys, a: Action)
    requires crypto.Lawful() && Inv(crypto, s)
    ensures Inv(crypto, Next(crypto, s, a))
  {
    hide LoadFile;
    if Enabled(crypto, s, a) {
      match a {
        case Acquire(p, password) => StepAcquire(crypto, s, p, password);
        case Do(p, call) => StepCall(crypto, s, p, call);
        case PowerLoss(kept, junk) => StepPowerLoss(crypto, s, kept, junk);
      }
    }
  }

  /** The invariant holds at every point of every run. */
  lemma {:induction false} RunKeepsInv(crypto: Crypto, start: Start, actions: seq<Action>)
    requires crypto.Lawful()
    ensures Inv(crypto, Run(crypto, start, actions))
  {
    hide Inv, Next, LoadFile;
    if actions == [] {
      BootedInv(crypto, start);
    } else {
      var before := actions[..|actions| - 1];
      RunKeepsInv(crypto, start, before);
      StepKeepsInv(crypto, Run(crypto, start, before), actions[|actions| - 1]);
    }
  }

  /** A machine at rest, with or without a file at the vault path. */
  lemma BootedInv(crypto: Crypto, start: Start)
    ensures Inv(crypto, Booted(crypto, start))
  {
    hide LoadFile, Continues;
    var s := Booted(crypto, start);
    if Vault in start.disk.durable {
      assert VersionOk(crypto, s.disk, s.versions[0]);
      assert ContinuesAt(crypto, s.versions, 0);
      assert s.versions[0..] == s.versions;
    }
    assert VaultLinks(s.disk) == Inos(s.versions[s.floor..]);
  }
}
