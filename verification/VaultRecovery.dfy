/** What the invariant of the vault system means: exclusion, agreement, failure and recovery. */
module VaultRecovery {
  import opened Bytes
  import opened Plaintext
  import opened VaultFile
  import opened FileSystem
  import opened VaultSystem
  import opened VaultInvariant
  import SecretId

  // ---------------------------------------------------------------- exclusion

  /**
   At most one process has a store, whatever its state, a locked one included; while it has, no
   step of any other process does anything at all.
   */
  lemma OthersAreShutOut(crypto: Crypto, start: Start, actions: seq<Action>, p: nat, a: Action)
    requires crypto.Lawful() && p in Run(crypto, start, actions).procs
    requires !a.PowerLoss? && a.p != p
    ensures Run(crypto, start, actions).holder == Some(p) && Run(crypto, start, actions).procs.Keys == {p}
    ensures Next(crypto, Run(crypto, start, actions), a) == Run(crypto, start, actions)
  {
    hide LoadFile;
    var s := Run(crypto, start, actions);
    RunKeepsInv(crypto, start, actions);
    OnlyOne(s, p);
    assert a.p !in s.procs;
  }

  /** The lock is never lost: whoever holds it is alive, so once no process is left, the next one gets it. */
  lemma {:induction false} LockIsNeverLost(crypto: Crypto, start: Start, actions: seq<Action>)
    ensures var s := Run(crypto, start, actions);
      && (s.holder.Some? ==> s.holder.value in s.procs)
      && (s.procs == map[] ==> forall p, password | password != [] :: Enabled(crypto, s, Acquire(p, password)))
  {
    hide LoadFile, Next;
    if actions != [] {
      LockIsNeverLost(crypto, start, actions[..|actions| - 1]);
      HolderLives(crypto, Run(crypto, start, actions[..|actions| - 1]), actions[|actions| - 1]);
    }
  }

  lemma HolderLives(crypto: Crypto, s: Sys, a: Action)
    requires s.holder.Some? ==> s.holder.value in s.procs
    ensures var t := Next(crypto, s, a); t.holder.Some? ==> t.holder.value in t.procs
  {
    hide LoadFile, Serialized, SavedFile, Live, VaultContent, Allowed, LosePower, UpTo, CanDo, CreateTemp, Append,
      SyncInode, RenameToVault, SyncDirectory, UnlinkTemp, Mutate;
  }

  // ---------------------------------------------------------------- agreement

  /** Between operations, what an open store has in memory is what the vault file decrypts to. */
  lemma MemoryIsTheFile(crypto: Crypto, start: Start, actions: seq<Action>, p: nat)
    requires crypto.Lawful() && p in Run(crypto, start, actions).procs
    requires var proc := Run(crypto, start, actions).procs[p]; proc.work.Resting? && proc.store.Open?
    ensures var s := Run(crypto, start, actions);
      && VaultContent(s.disk).Some?
      && LoadFile(crypto, s.procs[p].password, VaultContent(s.disk).value) == Some(s.procs[p].store.state)
      && Sound(s.procs[p].store.state)
  {
    hide LoadFile;
    RunKeepsInv(crypto, start, actions);
    OpenIsSound(crypto, Run(crypto, start, actions), p);
    VaultIsCurrent(crypto, Run(crypto, start, actions));
  }

  /** Only a rename changes what the vault path holds, and only a power loss takes it back. */
  lemma OnlyRenamePublishes(crypto: Crypto, s: Sys, a: Action)
    requires crypto.Lawful() && Inv(crypto, s)
    requires !a.PowerLoss? && !(a.Do? && a.call.Rename?)
    ensures VaultContent(Next(crypto, s, a).disk) == VaultContent(s.disk)
  {
    hide LoadFile, Next, VaultContent, Linked, Written, Live;
    VaultIsCurrent(crypto, s);
    StepKeepsInv(crypto, s, a);
    VaultIsCurrent(crypto, Next(crypto, s, a));
    SameVersions(crypto, s, a);
  }

  lemma SameVersions(crypto: Crypto, s: Sys, a: Action)
    requires !a.PowerLoss? && !(a.Do? && a.call.Rename?)
    ensures Next(crypto, s, a).versions == s.versions
  {
    hide LoadFile;
  }

  /** A call of an operation that has not reached its rename, or that gives up before it. */
  predicate BeforeRename(call: Call) {
    call.BeginCreate? || call.BeginChange? || call.Write? || call.FsyncFile? || call.CloseFile? || call.Abort?
  }

  ghost function Calls(crypto: Crypto, s: Sys, p: nat, calls: seq<Call>): Sys
    decreases calls
  {
    if calls == [] then s else Calls(crypto, Next(crypto, s, Do(p, calls[0])), p, calls[1..])
  }

  /** A put or remove that fails, wherever it fails, leaves both the file and the store as they were. */
  lemma {:induction false} FailureChangesNothing(crypto: Crypto, s: Sys, p: nat, calls: seq<Call>)
    requires crypto.Lawful() && Inv(crypto, s) && p in s.procs
    requires forall c | c in calls :: BeforeRename(c)
    ensures var t := Calls(crypto, s, p, calls);
      && Inv(crypto, t)
      && VaultContent(t.disk) == VaultContent(s.disk)
      && p in t.procs && t.procs[p].store == s.procs[p].store
    decreases calls
  {
    hide LoadFile;
    if calls != [] {
      var a := Do(p, calls[0]);
      assert calls[0] in calls;
      OnlyRenamePublishes(crypto, s, a);
      StepKeepsInv(crypto, s, a);
      SameStore(crypto, s, p, calls[0]);
      FailureChangesNothing(crypto, Next(crypto, s, a), p, calls[1..]);
    }
  }

  lemma SameStore(crypto: Crypto, s: Sys, p: nat, call: Call)
    requires p in s.procs && BeforeRename(call)
    ensures var t := Next(crypto, s, Do(p, call)); p in t.procs && t.procs[p].store == s.procs[p].store
  {
    hide LoadFile;
  }

  // ---------------------------------------------------------------- recovery

  /**
   Power may fail at any point of any run and keep any selection of the directory changes since the
   last directory sync.  The vault path is then absent only if it never was durable, and otherwise
   holds one whole version from the durable one on, which - but for a file that was there from the
   start - loads to exactly what was saved; and if every directory sync so far succeeded, no version
   of an operation that reported success is lost.
   */
  lemma PowerLossRecovers(crypto: Crypto, start: Start, actions: seq<Action>, kept: set<nat>, junk: map<nat, bytes>)
    requires crypto.Lawful()
    ensures var s := Run(crypto, start, actions); var after := LosePower(s.disk, kept, junk);
      match VaultContent(after)
      case None => Vault !in s.disk.durable && (s.allSynced ==> s.acked == 0)
      case Some(file) => exists c :: Survives(crypto, s, file, c)
  {
    hide LoadFile;
    var s := Run(crypto, start, actions);
    RunKeepsInv(crypto, start, actions);
    RestartVersions(crypto, s, kept, junk);
    StepPowerLoss(crypto, s, kept, junk);
    var t := Restart(s, kept, junk);
    VaultIsCurrent(crypto, t);
    if t.versions != [] {
      var c := |t.versions| - 1;
      assert VersionOk(crypto, s.disk, s.versions[c]);
      assert ContinuesAt(crypto, s.versions, c);
      assert Survives(crypto, s, t.versions[c].file, c);
    }
  }

  /** `file` is version `c`, complete and loadable, and no acknowledged version is newer. */
  ghost predicate Survives(crypto: Crypto, s: Sys, file: bytes, c: nat) {
    && s.floor <= c < |s.versions|
    && file == s.versions[c].file
    && LoadFile(crypto, s.versions[c].password, file) == s.versions[c].content
    && (s.versions[c].content.Some? || s.versions[c].change.Found?)
    && (s.allSynced ==> s.acked <= c + 1)
  }

  /** The map after the first `n` changes, from an empty one or from what the file found first loads to. */
  function Replay(versions: seq<Version>, n: nat): SecretMap
    requires n <= |versions|
  {
    if n == 0 then map[]
    else
      var v := versions[n - 1];
      if v.change.Found? then (match v.content case Some(l) => l.secrets case None => map[])
      else Mutate(Replay(versions, n - 1), v.change)
  }

  /** With one password throughout, every version holds the map after exactly the changes up to it. */
  lemma {:induction false} VersionIsAPrefix(crypto: Crypto, s: Sys, password: bytes, i: nat)
    requires Inv(crypto, s) && i < |s.versions|
    requires forall j | 0 <= j < |s.versions| :: s.versions[j].password == password
    ensures s.versions[i].content.Some? ==> s.versions[i].content.value.secrets == Replay(s.versions, i + 1)
  {
    hide LoadFile;
    assert ContinuesAt(crypto, s.versions, i);
    if i > 0 {
      VersionIsAPrefix(crypto, s, password, i - 1);
      assert VersionOk(crypto, s.disk, s.versions[i - 1]);
    }
  }

  /**
   The whole story of a crash: whatever runs, fails, is killed or loses power, the next store opened
   with the same password holds the map after some prefix of the changes that were made, temporary
   files left behind or not; and a prefix that includes every acknowledged one if the directory syncs
   succeeded.  It fails to open only on the file found at the start, if that does not load.
   */
  lemma ReopenAfterPowerLoss(
    crypto: Crypto, start: Start, actions: seq<Action>, kept: set<nat>, junk: map<nat, bytes>, p: nat, password: bytes)
    requires crypto.Lawful() && password != []
    requires forall v | v in Run(crypto, start, actions).versions :: v.password == password
    requires VaultContent(LosePower(Run(crypto, start, actions).disk, kept, junk)).Some?
    ensures var s := Run(crypto, start, actions);
      var file := VaultContent(LosePower(s.disk, kept, junk)).value;
      if LoadFile(crypto, password, file).None? then VaultContent(start.disk) == Some(file)
      else
        var t := Run(crypto, start, actions + [PowerLoss(kept, junk), Acquire(p, password), Do(p, Load)]);
        && p in t.procs && t.procs[p].store.Open?
        && exists n :: ReopenedAt(s, t.procs[p].store.state.secrets, n)
  {
    hide LoadFile, Run, Next, Restart, Inv;
    var s := Run(crypto, start, actions);
    RunKeepsInv(crypto, start, actions);
    var c := NewestSurvivor(crypto, s, kept, junk);
    assert s.versions[c] in s.versions;
    if s.versions[c].content.None? {
      FoundIsTheStart(crypto, start, actions, c);
    } else {
      var r := Restart(s, kept, junk);
      RestartIsNext(crypto, s, kept, junk);
      StepPowerLoss(crypto, s, kept, junk);
      OpenNewest(crypto, r, p, password);
      VersionIsAPrefix(crypto, s, password, c);
      RunThree(crypto, start, actions, PowerLoss(kept, junk), Acquire(p, password), Do(p, Load));
      assert ReopenedAt(s, s.versions[c].content.value.secrets, c + 1);
    }
  }

  /** The version a power loss leaves at the vault path. */
  lemma NewestSurvivor(crypto: Crypto, s: Sys, kept: set<nat>, junk: map<nat, bytes>) returns (c: nat)
    requires crypto.Lawful() && Inv(crypto, s) && VaultContent(LosePower(s.disk, kept, junk)).Some?
    ensures c < |s.versions| && Restart(s, kept, junk).versions == s.versions[..c + 1]
    ensures VaultContent(LosePower(s.disk, kept, junk)) == Some(s.versions[c].file)
    ensures LoadFile(crypto, s.versions[c].password, s.versions[c].file) == s.versions[c].content
    ensures Durable(s) <= c + 1 && (s.allSynced ==> s.acked <= c + 1)
    ensures Restart(s, kept, junk).procs == map[] && Restart(s, kept, junk).holder.None?
  {
    hide LoadFile, UpTo, ApplyOps, Keep, Links, Continues, VaultContent, LosePower, Separate, Inv, Chained;
    InvIsFiles(crypto, s);
    RestartVersions(crypto, s, kept, junk);
    StepPowerLoss(crypto, s, kept, junk);
    var r := Restart(s, kept, junk);
    InvIsFiles(crypto, r);
    VaultIsCurrent(crypto, r);
    c := |r.versions| - 1;
    assert VersionOk(crypto, s.disk, s.versions[c]);
  }

  lemma RestartIsNext(crypto: Crypto, s: Sys, kept: set<nat>, junk: map<nat, bytes>)
    ensures Next(crypto, s, PowerLoss(kept, junk)) == Restart(s, kept, junk)
  {}

  /** A store opened with the password of the newest version holds its content. */
  lemma OpenNewest(crypto: Crypto, s: Sys, p: nat, password: bytes)
    requires Inv(crypto, s) && s.procs == map[] && s.holder.None? && s.versions != []
    requires password != [] && s.versions[|s.versions| - 1].password == password
    requires s.versions[|s.versions| - 1].content.Some?
    ensures var t := Next(crypto, Next(crypto, s, Acquire(p, password)), Do(p, Load));
      p in t.procs && t.procs[p].store == Open(s.versions[|s.versions| - 1].content.value)
  {
    hide LoadFile;
    VaultIsCurrent(crypto, s);
    assert VersionOk(crypto, s.disk, s.versions[|s.versions| - 1]);
  }

  /** The map after `n` of the changes, among them at least the durable and the acknowledged ones. */
  ghost predicate ReopenedAt(s: Sys, m: SecretMap, n: nat) {
    Durable(s) <= n <= |s.versions| && m == Replay(s.versions, n) && (s.allSynced ==> s.acked <= n)
  }

  lemma RunThree(crypto: Crypto, start: Start, actions: seq<Action>, a: Action, b: Action, c: Action)
    ensures Run(crypto, start, actions + [a, b, c])
      == Next(crypto, Next(crypto, Next(crypto, Run(crypto, start, actions), a), b), c)
  {
    hide Run, Next;
    RunOne(crypto, start, actions, a);
    RunOne(crypto, start, actions + [a], b);
    RunOne(crypto, start, actions + [a] + [b], c);
    assert actions + [a, b, c] == actions + [a] + [b] + [c];
  }

  lemma RunOne(crypto: Crypto, start: Start, actions: seq<Action>, a: Action)
    ensures Run(crypto, start, actions + [a]) == Next(crypto, Run(crypto, start, actions), a)
  {
    hide Next;
    assert (actions + [a])[..|actions|] == actions;
  }

  // ---------------------------------------------------------------- the file found at the start

  predicate IsSync(a: Action) { a.PowerLoss? || (a.Do? && a.call == SyncDir(true)) }

  /** The versions the durable directory can no longer lose: all of them after a sync, else as before. */
  lemma DurableStep(crypto: Crypto, s: Sys, a: Action)
    requires FilesOk(crypto, s) && (forall p | p in s.procs :: ProcOk(crypto, s, s.procs[p]))
    ensures var t := Next(crypto, s, a);
      Durable(t) == if Enabled(crypto, s, a) && IsSync(a) then |t.versions| else Durable(s)
  {
    hide LoadFile, FilesOk, Next, Restart, Durable;
    match a {
      case PowerLoss(kept, junk) =>
        RestartIsNext(crypto, s, kept, junk);
        RestartDurable(crypto, s, kept, junk);
      case Acquire(_, _) => OtherStep(crypto, s, a);
      case Do(p, call) =>
        if call == SyncDir(true) { SyncDurable(crypto, s, p); }
        else { OtherStep(crypto, s, a); }
    }
  }

  lemma RestartDurable(crypto: Crypto, s: Sys, kept: set<nat>, junk: map<nat, bytes>)
    requires FilesOk(crypto, s)
    ensures Durable(Restart(s, kept, junk)) == |Restart(s, kept, junk).versions|
  {
    hide LoadFile, UpTo, Keep, ApplyOps, FilesOk;
    RestartVersions(crypto, s, kept, junk);
  }

  lemma SyncDurable(crypto: Crypto, s: Sys, p: nat)
    requires FilesOk(crypto, s) && (p in s.procs ==> ProcOk(crypto, s, s.procs[p]))
    ensures var a := Do(p, SyncDir(true)); var t := Next(crypto, s, a);
      Durable(t) == if Enabled(crypto, s, a) then |t.versions| else Durable(s)
  {
    hide LoadFile, FilesOk, Links, SyncDirectory, Continues, Pending, UpToDate;
    if p in s.procs && s.procs[p].work.Renamed? { SyncedLinks(crypto, s); }
  }

  lemma OtherStep(crypto: Crypto, s: Sys, a: Action)
    requires !IsSync(a)
    ensures Durable(Next(crypto, s, a)) == Durable(s)
  {
    hide LoadFile, Serialized, SavedFile, Live, VaultContent, Allowed;
  }

  /** The file found at the start is durable, and stays the first of all versions; the others were saved. */
  lemma {:induction false} FoundStays(crypto: Crypto, start: Start, actions: seq<Action>)
    requires crypto.Lawful()
    ensures var s := Run(crypto, start, actions);
      && |FoundVersions(crypto, start)| <= Durable(s) && FoundVersions(crypto, start) <= s.versions
      && forall i | |FoundVersions(crypto, start)| <= i < |s.versions| :: !s.versions[i].change.Found?
  {
    hide LoadFile, Next, Inv;
    if actions != [] {
      var before, a := actions[..|actions| - 1], actions[|actions| - 1];
      FoundStays(crypto, start, before);
      RunKeepsInv(crypto, start, before);
      RunKeepsInv(crypto, start, actions);
      FoundStep(crypto, Run(crypto, start, before), a);
    }
  }

  /** A step adds a version at the end or, in a power loss, takes back some that are not durable. */
  lemma FoundStep(crypto: Crypto, s: Sys, a: Action)
    requires Inv(crypto, s)
    ensures var t := Next(crypto, s, a);
      && Durable(s) <= Durable(t) <= |t.versions| && Durable(s) <= |s.versions|
      && s.versions[..Durable(s)] <= t.versions
      && (t.versions <= s.versions
          || (t.versions[..|t.versions| - 1] == s.versions && !t.versions[|s.versions|].change.Found?))
  {
    hide LoadFile, Links, UpTo, Keep, ApplyOps, Serialized, SavedFile, Continues, Restart;
    DurableStep(crypto, s, a);
    if a.PowerLoss? { RestartVersions(crypto, s, a.kept, a.junk); }
    else if !(a.Do? && a.call.Rename?) { SameVersions(crypto, s, a); }
    else if a.p in s.procs && s.procs[a.p].work.Closed? {
      var u := s.procs[a.p].work.u;
      SavedIsNotFound(crypto, Current(s), s.procs[a.p].password, u.change, u.after);
    }
  }

  lemma FoundIsTheStart(crypto: Crypto, start: Start, actions: seq<Action>, c: nat)
    requires crypto.Lawful() && c < |Run(crypto, start, actions).versions|
    requires Run(crypto, start, actions).versions[c].content.None?
    ensures c == 0 && VaultContent(start.disk) == Some(Run(crypto, start, actions).versions[0].file)
  {
    hide LoadFile, Run, Continues;
    var s := Run(crypto, start, actions);
    RunKeepsInv(crypto, start, actions);
    FoundStays(crypto, start, actions);
    assert ContinuesAt(crypto, s.versions, c);
    assert Live(start.disk) == start.disk.durable;
  }

  lemma SecondOpensFirst(crypto: Crypto, s: Sys)
    requires Inv(crypto, s) && |s.versions| > 1
    ensures LoadFile(crypto, s.versions[1].password, s.versions[0].file).Some?
  {
    hide LoadFile;
    assert ContinuesAt(crypto, s.versions, 1);
  }

  /** A file that no password opens is neither replaced nor lost, whatever happens. */
  lemma UnreadableIsKept(crypto: Crypto, start: Start, actions: seq<Action>)
    requires crypto.Lawful() && VaultContent(start.disk).Some?
    requires forall password :: LoadFile(crypto, password, VaultContent(start.disk).value).None?
    ensures VaultContent(Run(crypto, start, actions).disk) == VaultContent(start.disk)
  {
    hide LoadFile, Run;
    var s := Run(crypto, start, actions);
    RunKeepsInv(crypto, start, actions);
    FoundStays(crypto, start, actions);
    VaultIsCurrent(crypto, s);
    assert s.versions[0] == FoundVersions(crypto, start)[0];
    if |s.versions| > 1 {
      SecondOpensFirst(crypto, s);
      assert false;
    }
  }

  // ---------------------------------------------------------------- size and count checks

  /** In every reachable state a remove passes every check; a put fails one exactly as stated. */
  lemma ChecksAreExact(crypto: Crypto, start: Start, actions: seq<Action>, p: nat, id: bytes, value: bytes)
    requires crypto.Lawful() && p in Run(crypto, start, actions).procs
    requires var proc := Run(crypto, start, actions).procs[p]; proc.work.Resting? && proc.store.Open?
    ensures var m := Run(crypto, start, actions).procs[p].store.state.secrets;
      && (Allowed(m, Remove(id)) <==> id in m)
      && (Allowed(m, Put(id, value)) <==>
            && SecretId.IsValid(id) && |value| <= MAX_SECRET_SIZE
            && (id in m || |m| < MAX_SECRET_COUNT)
            && 12 + Weight(m - {id}) + |id| + |value| <= MAX_PLAINTEXT_SIZE)
  {
    hide Inv, Serialized, SecretId.IsValid, Run;
    hide LoadFile;
    RunKeepsInv(crypto, start, actions);
    OpenIsSound(crypto, Run(crypto, start, actions), p);
    var m := Run(crypto, start, actions).procs[p].store.state.secrets;
    RemovePersistable(m, id);
    SerializedExact(m - {id});
    if SecretId.IsValid(id) && |value| <= MAX_SECRET_SIZE && (id in m || |m| < MAX_SECRET_COUNT) {
      PutPersistable(m, id, value);
    }
  }
}
