/**
 The system calls a store makes.  Each may fail; each that succeeds is one step of the vault system,
 so that every state between two calls is a state of one of its runs.
 */
module Syscalls {
  import opened Bytes
  import opened Plaintext
  import opened VaultFile
  import opened FileSystem
  import opened VaultSystem
  import VaultRecovery
  import VaultInvariant

  /** What a read or write call reports: progress, an interruption by a signal, or an error. */
  datatype Transfer = Moved(count: nat) | Interrupted | Refused

  /** What a save is about to do; exactly the steps a resting process may begin. */
  ghost predicate CanBegin(crypto: Crypto, s: Sys, p: nat, change: Change, after: Loaded, nonce: bytes) {
    && p in s.procs && s.procs[p].work.Resting? && |nonce| == NONCE_SIZE
    && Serialized(after.secrets).Ok?
    && match s.procs[p].store
       case Unbuilt => change.Create? && Vault !in Live(s.disk) && after.params.InRange()
         && after.secrets == map[] && crypto.derive(s.procs[p].password, after.params) == Some(after.key)
       case Open(l) => Allowed(l.secrets, change) && after == l.(secrets := Mutate(l.secrets, change))
       case Sealed => false
  }

  ghost function BeginCall(s: Sys, p: nat, change: Change, after: Loaded, nonce: bytes, suffix: nat): Call
    requires p in s.procs
  {
    if s.procs[p].store.Unbuilt? then BeginCreate(after.params, nonce, suffix) else BeginChange(change, nonce, suffix)
  }

  lemma BeginIsEnabled(crypto: Crypto, s: Sys, p: nat, change: Change, after: Loaded, nonce: bytes, suffix: nat)
    requires CanBegin(crypto, s, p, change, after, nonce) && Temp(suffix) !in Live(s.disk)
    ensures Enabled(crypto, s, Do(p, BeginCall(s, p, change, after, nonce, suffix)))
    ensures Effect(crypto, s, Do(p, BeginCall(s, p, change, after, nonce, suffix)))
         == Begin(crypto, s, p, change, after, nonce, suffix)
  {
    hide LoadFile, Run;
  }

  class Kernel {
    const crypto: Crypto
    var disk: Disk
    var holder: Option<nat>
    var signals: nat  // how many more calls will be interrupted
    /** How many calls have failed and told so: refused, without progress, or on a name that was taken. */
    ghost var failures: nat
    /** The random values handed out so far. */
    ghost var drawn: seq<bytes>
    ghost const start: Start
    ghost var sys: Sys
    ghost var trace: seq<Action>

    ghost predicate Valid()
      reads this
    {
      && crypto.Lawful()
      && sys == Run(crypto, start, trace)
      && sys.disk == disk && sys.holder == holder
    }

    /** Process `p` is in this state. */
    ghost predicate Has(p: nat, proc: Proc)
      reads this
    {
      p in sys.procs && sys.procs[p] == proc
    }

    /** The newest version at the vault path is this change's, encrypted with this nonce, and it is acknowledged. */
    ghost predicate NewestIs(change: Change, content: Loaded, nonce: bytes)
      reads this
    {
      && Serialized(content.secrets).Ok?
      && sys.versions != [] && sys.acked == |sys.versions|
      && sys.versions[|sys.versions| - 1].change == change
      && sys.versions[|sys.versions| - 1].content == Some(content)
      && sys.versions[|sys.versions| - 1].file == SavedFile(crypto, content, nonce)
    }

    /** The vault path may hold any file, for which the owner has the given password. */
    constructor (crypto: Crypto, disk: Disk, ghost password: bytes, signals: nat)
      requires crypto.Lawful() && AtRest(disk)
      ensures Valid() && start == RawStart(disk, password) && trace == [] && this.disk == disk && this.crypto == crypto
    {
      this.crypto, this.disk, holder, this.signals := crypto, disk, None, signals;
      start, failures, drawn := RawStart(disk, password), 0, [];
      sys, trace := Booted(crypto, RawStart(disk, password)), [];
    }

    ghost method Record(a: Action)
      requires crypto.Lawful() && sys == Run(crypto, start, trace) && Enabled(crypto, sys, a)
      modifies this`sys, this`trace
      ensures sys == Effect(crypto, old(sys), a) && sys == Run(crypto, start, trace) && trace == old(trace) + [a]
      ensures !a.PowerLoss? && !(a.Do? && a.call.Rename?) ==> VaultContent(sys.disk) == VaultContent(old(sys.disk))
    {
      hide Run, Enabled, Effect, VaultContent, Inv;
      VaultRecovery.RunOne(crypto, start, trace, a);
      EffectIsNext(crypto, sys, a);
      VaultInvariant.RunKeepsInv(crypto, start, trace);
      if !a.PowerLoss? && !(a.Do? && a.call.Rename?) { VaultRecovery.OnlyRenamePublishes(crypto, sys, a); }
      trace := trace + [a];
      sys := Effect(crypto, sys, a);
    }

    // -------------------------------------------------------------- locking

    /** flock, exclusive and without waiting: refused while any store is held. */
    method Acquire(p: nat, ghost password: bytes) returns (ok: bool)
      requires Valid() && p !in sys.procs && password != []
      modifies this`holder, this`sys, this`trace, this`failures
      ensures Valid()
      ensures ok ==> old(holder).None? && Has(p, Proc(password, Unbuilt, Resting)) && disk == old(disk)
      ensures !ok ==> sys == old(sys)
      ensures VaultContent(disk) == old(VaultContent(disk))
      ensures failures >= old(failures) && (ok <==> old(holder).None? && failures == old(failures))
    {
      hide LoadFile, Run;
      ok := *;
      if !ok { failures := failures + 1; }
      if holder.Some? { ok := false; }
      if ok {
        Record(Action.Acquire(p, password));
        holder := Some(p);
      }
    }

    /** The lock file is unlocked and closed. */
    method Release(p: nat)
      requires Valid() && p in sys.procs && sys.procs[p].work.Resting? && !sys.procs[p].store.Open?
      modifies this`holder, this`sys, this`trace
      ensures Valid() && p !in sys.procs && disk == old(disk) && holder.None? && failures == old(failures)
      ensures VaultContent(disk) == old(VaultContent(disk))
    {
      hide LoadFile, Run;
      VaultInvariant.RunKeepsInv(crypto, start, trace);
      Record(Do(p, Call.Release));
      holder := None;
    }

    // -------------------------------------------------------------- reading

    method Exists() returns (present: bool)
      requires Valid()
      ensures present <==> Vault in Live(disk)
    {
      present := Vault in Live(disk);
    }

    /** open and fstat; None when refused. */
    method OpenVault() returns (size: Option<nat>)
      requires Valid()
      modifies this`failures
      ensures Valid()
      ensures size.Some? ==> VaultContent(disk).Some? && size.value == |VaultContent(disk).value|
      ensures failures >= old(failures) && (size.Some? <==> failures == old(failures))
    {
      var refused: bool := *;
      if !refused && VaultContent(disk).Some? { return Some(|VaultContent(disk).value|); }
      failures := failures + 1;
      return None;
    }

    /** read: any nonempty part of what was asked for, or an interruption, or a refusal. */
    method Read(offset: nat, length: nat) returns (t: Transfer, data: bytes)
      requires Valid() && 0 < length && VaultContent(disk).Some? && offset + length <= |VaultContent(disk).value|
      modifies this`signals, this`failures
      ensures Valid()
      ensures failures >= old(failures) && (t.Interrupted? || (t.Moved? && t.count > 0) <==> failures == old(failures))
      ensures t.Moved? ==> t.count <= length && data == VaultContent(disk).value[offset..offset + t.count]
      ensures t.Interrupted? ==> signals < old(signals)
      ensures signals <= old(signals)
    {
      data := [];
      var interrupted: bool, refused: bool := *, *;
      if interrupted && signals > 0 {
        signals := signals - 1;
        return Interrupted, [];
      }
      var count: nat :| count <= length;
      if refused || count == 0 { failures := failures + 1; }
      if refused { return Refused, []; }
      return Moved(count), VaultContent(disk).value[offset..offset + count];
    }

    // -------------------------------------------------------------- writing

    /** open with O_CREAT and O_EXCL: refused when the temporary name is taken. */
    method OpenTemp(p: nat, suffix: nat, ghost change: Change, ghost after: Loaded, ghost nonce: bytes)
      returns (ok: bool, ino: nat)
      requires Valid() && CanBegin(crypto, sys, p, change, after, nonce)
      modifies this`disk, this`sys, this`trace, this`failures
      ensures Valid()
      ensures ok ==> Has(p, old(sys.procs[p]).(work :=
        Writing(Update(change, after, SavedFile(crypto, after, nonce), suffix, ino), 0))) && ino < |disk.inodes|
      ensures ok ==> Temp(suffix) !in old(Live(disk)) && ino == old(|disk.inodes|)
      ensures ok ==> disk == CreateTemp(old(disk), suffix)
      ensures !ok ==> sys == old(sys)
      ensures VaultContent(disk) == old(VaultContent(disk))
      ensures failures >= old(failures) && (ok <==> failures == old(failures))
    {
      hide LoadFile, Run, Serialized, SavedFile, VaultContent;
      ok, ino := *, |disk.inodes|;
      if Temp(suffix) in Live(disk) { ok := false; }
      if !ok { failures := failures + 1; }
      if ok {
        BeginIsEnabled(crypto, sys, p, change, after, nonce, suffix);
        hide CanBegin, Enabled, Effect;
        Record(Do(p, BeginCall(sys, p, change, after, nonce, suffix)));
        disk := CreateTemp(disk, suffix);
      }
    }

    /** write: any part of the data, or an interruption, or a refusal. */
    method Write(p: nat, ino: nat, data: bytes) returns (t: Transfer)
      requires Valid() && p in sys.procs && sys.procs[p].work.Writing? && data != []
      requires sys.procs[p].work.u.ino == ino < |disk.inodes| && sys.procs[p].work.offset <= |sys.procs[p].work.u.file|
      requires data == sys.procs[p].work.u.file[sys.procs[p].work.offset..]
      modifies this`disk, this`sys, this`trace, this`failures, this`signals
      ensures Valid() && |disk.inodes| == old(|disk.inodes|)
      ensures failures >= old(failures) && (t.Interrupted? || (t.Moved? && t.count > 0) <==> failures == old(failures))
      ensures match t
        case Moved(n) => n <= |data| && disk == (if n == 0 then old(disk) else Append(old(disk), ino, data[..n]))
          && Has(p, old(sys.procs[p]).(work := Writing(old(sys.procs[p].work.u), old(sys.procs[p].work.offset) + n)))
        case _ => sys == old(sys)
      ensures t.Interrupted? ==> signals < old(signals)
      ensures signals <= old(signals)
      ensures VaultContent(disk) == old(VaultContent(disk))
    {
      hide LoadFile, Run;
      var interrupted: bool, refused: bool := *, *;
      if interrupted && signals > 0 {
        signals := signals - 1;
        return Interrupted;
      }
      var count: nat :| count <= |data|;
      if refused || count == 0 { failures := failures + 1; }
      if refused { return Refused; }
      if count > 0 {
        ghost var offset := sys.procs[p].work.offset;
        assert data[..count] == sys.procs[p].work.u.file[offset..offset + count];
        Record(Do(p, Call.Write(count)));
        disk := Append(disk, ino, data[..count]);
      }
      return Moved(count);
    }

    method Fsync(p: nat, ino: nat) returns (ok: bool)
      requires Valid() && p in sys.procs && sys.procs[p].work.Writing?
      requires sys.procs[p].work.u.ino == ino < |disk.inodes| && sys.procs[p].work.offset == |sys.procs[p].work.u.file|
      modifies this`disk, this`sys, this`trace, this`failures
      ensures Valid()
      ensures ok ==> Has(p, old(sys.procs[p]).(work := Flushed(old(sys.procs[p].work.u))))
      ensures ok ==> disk == SyncInode(old(disk), ino)
      ensures !ok ==> sys == old(sys)
      ensures failures >= old(failures) && (ok <==> failures == old(failures))
      ensures VaultContent(disk) == old(VaultContent(disk))
    {
      hide LoadFile, Run;
      ok := *;
      if !ok { failures := failures + 1; }
      if ok {
        Record(Do(p, FsyncFile));
        disk := SyncInode(disk, ino);
      }
    }

    method Close(p: nat) returns (ok: bool)
      requires Valid() && p in sys.procs && sys.procs[p].work.Flushed?
      modifies this`sys, this`trace, this`failures
      ensures Valid()
      ensures ok ==> Has(p, old(sys.procs[p]).(work := Closed(old(sys.procs[p].work.u)))) && disk == old(disk)
      ensures !ok ==> sys == old(sys)
      ensures failures >= old(failures) && (ok <==> failures == old(failures))
      ensures VaultContent(disk) == old(VaultContent(disk))
    {
      hide LoadFile, Run;
      ok := *;
      if !ok { failures := failures + 1; }
      if ok { Record(Do(p, CloseFile)); }
    }

    method Rename(p: nat, suffix: nat, ino: nat) returns (ok: bool)
      requires Valid() && p in sys.procs && sys.procs[p].work.Closed?
      requires sys.procs[p].work.u.suffix == suffix && sys.procs[p].work.u.ino == ino
      modifies this`disk, this`sys, this`trace, this`failures
      ensures Valid()
      ensures ok ==> Has(p, old(sys.procs[p]).(work := Renamed(old(sys.procs[p].work.u))))
      ensures ok ==> disk == RenameToVault(old(disk), suffix, ino)
      ensures !ok ==> sys == old(sys)
      ensures failures >= old(failures) && (ok <==> failures == old(failures))
    {
      hide LoadFile, Run;
      ok := *;
      if !ok { failures := failures + 1; }
      if ok {
        Record(Do(p, Call.Rename));
        disk := RenameToVault(disk, suffix, ino);
      }
    }

    /** Opening and syncing the parent directory; the caller is not told whether it worked. */
    method SyncParent(p: nat)
      requires Valid() && p in sys.procs && sys.procs[p].work.Renamed?
      modifies this`disk, this`sys, this`trace
      ensures Valid() && Has(p, old(sys.procs[p]).(work := Published(old(sys.procs[p].work.u))))
      ensures disk in {old(disk), SyncDirectory(old(disk))} && failures == old(failures)
      ensures VaultContent(disk) == old(VaultContent(disk))
    {
      hide LoadFile, Run;
      var ok: bool := *;
      Record(Do(p, SyncDir(ok)));
      if ok { disk := SyncDirectory(disk); }
    }

    /** The clean-up after a failure: unlink, whose own failure is ignored. */
    method Unlink(p: nat, suffix: nat)
      requires Valid() && p in sys.procs && CanAbort(sys.procs[p])
      requires sys.procs[p].work.u.suffix == suffix
      modifies this`disk, this`sys, this`trace
      ensures Valid() && Has(p, old(sys.procs[p]).(work := Resting))
      ensures disk in {old(disk), UnlinkTemp(old(disk), suffix)} && failures == old(failures)
      ensures VaultContent(disk) == old(VaultContent(disk))
    {
      hide LoadFile, Run;
      var ok: bool := *;
      Record(Do(p, Abort(ok)));
      if ok { disk := UnlinkTemp(disk, suffix); }
    }

    // -------------------------------------------------------------- steps without a system call

    /** The store takes over what it has just saved. */
    ghost method Finished(p: nat, nonce: bytes)
      requires Valid() && p in sys.procs && sys.procs[p].work.Published?
      requires var u := sys.procs[p].work.u;
        Serialized(u.after.secrets).Ok? && u.file == SavedFile(crypto, u.after, nonce)
      modifies this`sys, this`trace
      ensures Valid()
      ensures Has(p, old(sys.procs[p]).(store := Open(old(sys.procs[p].work.u.after)), work := Resting))
      ensures NewestIs(old(sys.procs[p].work.u.change), old(sys.procs[p].work.u.after), nonce)
    {
      hide LoadFile, Run, Inv, VaultInvariant.FilesOk, Live, VaultContent, Serialized, SavedFile;
      VaultInvariant.RunKeepsInv(crypto, start, trace);
      VaultInvariant.Parts(crypto, sys, p);
      Record(Do(p, Finish));
    }

    /** The store takes over what it has just loaded. */
    ghost method Loaded(p: nat)
      requires Valid() && Enabled(crypto, sys, Do(p, Load))
      modifies this`sys, this`trace
      ensures Valid()
      ensures Has(p, old(sys.procs[p]).(store :=
        Open(LoadFile(crypto, old(sys.procs[p].password), VaultContent(disk).value).value)))
    {
      hide LoadFile, Run;
      Record(Do(p, Load));
    }

    ghost method Sealed(p: nat)
      requires Valid() && p in sys.procs && sys.procs[p].work.Resting?
      modifies this`sys, this`trace
      ensures Valid() && Has(p, old(sys.procs[p]).(store := Store.Sealed))
    {
      hide LoadFile, Run;
      Record(Do(p, Seal));
    }

    // -------------------------------------------------------------- randomness and messages

    /** A random value, which is remembered. */
    method RandomBytes(n: nat) returns (b: bytes)
      requires Valid()
      modifies this`drawn
      ensures Valid() && |b| == n && drawn == old(drawn) + [b]
    {
      b := AnyBytes(n);
      drawn := drawn + [b];
    }

    method RandomSuffix() returns (n: nat)
    {
      n :| true;
    }

    /** The text of an operating-system error. */
    method ErrorText() returns (text: bytes)
      ensures |text| <= 0x1_0000
    {
      var n: nat :| n <= 0x1_0000;
      text := AnyBytes(n);
    }

    method AnyBytes(n: nat) returns (b: bytes)
      ensures |b| == n
    {
      b := [];
      for i := 0 to n
        invariant |b| == i
      {
        var x: byte :| true;
        b := b + [x];
      }
    }
  }

  lemma EffectIsNext(crypto: Crypto, s: Sys, a: Action)
    requires Enabled(crypto, s, a)
    ensures Effect(crypto, s, a) == Next(crypto, s, a)
  {
    hide Enabled, Effect;
  }
}
