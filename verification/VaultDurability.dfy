/**
 When an acknowledged change survives a power loss.  The directory sync after the rename may fail
 without the caller being told, so the answer is not always; here is exactly when.
 */
module VaultDurability {
  import opened Bytes
  import opened Plaintext
  import opened VaultFile
  import opened FileSystem
  import opened VaultSystem
  import opened VaultInvariant
  import opened VaultRecovery

  lemma {:induction false} UpToExactly(versions: seq<Version>, at: nat)
    requires at < |versions| && Separate(versions)
    ensures UpTo(versions, versions[at].ino) == versions[..at + 1]
  {
    var last := |versions| - 1;
    if at < last {
      UpToExactly(versions[..last], at);
      assert versions[..last][..at + 1] == versions[..at + 1];
    } else {
      assert versions[..at + 1] == versions;
    }
  }

  /** The worst power loss keeps no directory change since the last sync: just the durable versions remain. */
  lemma WorstPowerLoss(crypto: Crypto, s: Sys)
    requires FilesOk(crypto, s)
    ensures Restart(s, {}, map[]).versions == s.versions[..Durable(s)]
  {
    hide LoadFile, Written, Chained;
    KeepNothing(s.disk.log, 0);
    if Vault in s.disk.durable {
      assert VaultLinks(s.disk)[0] == s.disk.durable[Vault];
      assert s.versions[s.floor..][0] == s.versions[s.floor];
      UpToExactly(s.versions, s.floor);
    }
  }

  /** No power loss whatever takes back a change whose operation reported success. */
  ghost predicate KeepsAcknowledged(s: Sys) { forall kept, junk :: |Restart(s, kept, junk).versions| >= s.acked }

  lemma KeptExactly(crypto: Crypto, s: Sys)
    requires FilesOk(crypto, s)
    ensures KeepsAcknowledged(s) <==> s.acked <= Durable(s)
  {
    hide LoadFile, Restart, Written, Chained;
    WorstPowerLoss(crypto, s);
    DurableWithin(crypto, s);
    forall kept, junk ensures |Restart(s, kept, junk).versions| >= Durable(s) {
      RestartVersions(crypto, s, kept, junk);
    }
    if s.acked > Durable(s) { assert |Restart(s, {}, map[]).versions| < s.acked; }
  }

  // ---------------------------------------------------------------- one operation

  /**
   An operation that has renamed its file reports success whatever comes of the directory sync.  Its
   change survives every power loss if and only if that sync succeeded; then the vault path holds
   exactly its file.
   */
  lemma SurvivalExactly(crypto: Crypto, start: Start, actions: seq<Action>, p: nat, ok: bool)
    requires crypto.Lawful() && p in Run(crypto, start, actions).procs
    requires Run(crypto, start, actions).procs[p].work.Renamed?
    ensures var s := Run(crypto, start, actions);
      var t := Next(crypto, Next(crypto, s, Do(p, SyncDir(ok))), Do(p, Finish));
      && t.versions == s.versions && t.acked == |t.versions|
      && (KeepsAcknowledged(t) <==> ok)
      && (ok ==> forall kept, junk ::
            VaultContent(LosePower(t.disk, kept, junk)) == Some(s.procs[p].work.u.file))
  {
    hide LoadFile, Run, KeepsAcknowledged, LosePower, Restart, Inv;
    var s := Run(crypto, start, actions);
    RunKeepsInv(crypto, start, actions);
    FinishedSync(crypto, s, p, ok);
    var t := Next(crypto, Next(crypto, s, Do(p, SyncDir(ok))), Do(p, Finish));
    KeptExactly(crypto, t);
    if ok {
      forall kept, junk ensures VaultContent(LosePower(t.disk, kept, junk)) == Some(s.procs[p].work.u.file) {
        NewestSurvives(crypto, t, kept, junk);
      }
    }
  }

  lemma FinishedSync(crypto: Crypto, s: Sys, p: nat, ok: bool)
    requires crypto.Lawful() && Inv(crypto, s) && p in s.procs && s.procs[p].work.Renamed?
    ensures var t := Next(crypto, Next(crypto, s, Do(p, SyncDir(ok))), Do(p, Finish));
      && Inv(crypto, t) && FilesOk(crypto, t)
      && t.versions == s.versions != [] && t.acked == |t.versions|
      && t.versions[|t.versions| - 1].file == s.procs[p].work.u.file
      && (t.acked <= Durable(t) <==> ok)
  {
    hide LoadFile, Inv, FilesOk, Linked, Written, Chained, Separate, VaultLinks, Serialized, SavedFile;
    Parts(crypto, s, p);
    SyncedLinks(crypto, s);
    var s1 := Next(crypto, s, Do(p, SyncDir(ok)));
    StepKeepsInv(crypto, s, Do(p, SyncDir(ok)));
    StepKeepsInv(crypto, s1, Do(p, Finish));
    Parts(crypto, Next(crypto, s1, Do(p, Finish)), p);
  }

  /** If the newest version is durable, every power loss leaves exactly its file. */
  lemma NewestSurvives(crypto: Crypto, s: Sys, kept: set<nat>, junk: map<nat, bytes>)
    requires crypto.Lawful() && Inv(crypto, s) && FilesOk(crypto, s) && s.versions != [] && |s.versions| <= Durable(s)
    ensures VaultContent(LosePower(s.disk, kept, junk)) == Some(s.versions[|s.versions| - 1].file)
  {
    hide LoadFile, UpTo, ApplyOps, Keep, Links, Inv;
    RestartVersions(crypto, s, kept, junk);
    StepPowerLoss(crypto, s, kept, junk);
    var r := Restart(s, kept, junk);
    assert FilesOk(crypto, r) by { InvIsFiles(crypto, r); }
    VaultIsCurrent(crypto, r);
  }

  // ---------------------------------------------------------------- whole runs

  /** How many versions there were when the directory was last synced, by a call or by a restart. */
  ghost function SyncedCount(crypto: Crypto, start: Start, actions: seq<Action>): nat {
    if actions == [] then |FoundVersions(crypto, start)|
    else
      var before, a := actions[..|actions| - 1], actions[|actions| - 1];
      if Enabled(crypto, Run(crypto, start, before), a) && IsSync(a) then |Run(crypto, start, actions).versions|
      else SyncedCount(crypto, start, before)
  }

  lemma {:induction false} DurableIsSynced(crypto: Crypto, start: Start, actions: seq<Action>)
    requires crypto.Lawful()
    ensures Durable(Run(crypto, start, actions)) == SyncedCount(crypto, start, actions)
  {
    hide LoadFile, Next, Inv, Enabled, IsSync;
    if actions != [] {
      var before, a := actions[..|actions| - 1], actions[|actions| - 1];
      DurableIsSynced(crypto, start, before);
      RunKeepsInv(crypto, start, before);
      DurableAfter(crypto, Run(crypto, start, before), a);
    }
  }

  lemma DurableAfter(crypto: Crypto, s: Sys, a: Action)
    requires Inv(crypto, s)
    ensures var t := Next(crypto, s, a);
      Durable(t) == if Enabled(crypto, s, a) && IsSync(a) then |t.versions| else Durable(s)
  {
    hide LoadFile, Next, Enabled, IsSync;
    DurableStep(crypto, s, a);
  }

  /** At any point of any run: acknowledged changes are safe exactly as far as the last successful sync reached. */
  lemma RunSurvivalExactly(crypto: Crypto, start: Start, actions: seq<Action>)
    requires crypto.Lawful()
    ensures var s := Run(crypto, start, actions);
      KeepsAcknowledged(s) <==> s.acked <= SyncedCount(crypto, start, actions)
  {
    hide LoadFile, Run, KeepsAcknowledged, SyncedCount, Inv;
    RunKeepsInv(crypto, start, actions);
    InvIsFiles(crypto, Run(crypto, start, actions));
    KeptExactly(crypto, Run(crypto, start, actions));
    DurableIsSynced(crypto, start, actions);
  }

  /** So long as the newest version is acknowledged and synced, it is what every power loss leaves. */
  lemma AcknowledgedFileSurvives(
    crypto: Crypto, start: Start, actions: seq<Action>, kept: set<nat>, junk: map<nat, bytes>)
    requires crypto.Lawful()
    requires var s := Run(crypto, start, actions);
      0 < s.acked == |s.versions| <= SyncedCount(crypto, start, actions)
    ensures var s := Run(crypto, start, actions); var newest := s.versions[s.acked - 1];
      && VaultContent(LosePower(s.disk, kept, junk)) == VaultContent(s.disk) == Some(newest.file)
      && LoadFile(crypto, newest.password, newest.file) == newest.content
  {
    hide LoadFile, Run, SyncedCount, LosePower;
    var s := Run(crypto, start, actions);
    RunKeepsInv(crypto, start, actions);
    DurableIsSynced(crypto, start, actions);
    NewestSurvives(crypto, s, kept, junk);
    VaultIsCurrent(crypto, s);
    assert VersionOk(crypto, s.disk, s.versions[s.acked - 1]);
  }

  // ---------------------------------------------------------------- what is uncertain when nothing fails

  /** A step that is neither a failed directory sync nor a kill between the rename and the sync. */
  ghost predicate Calm(crypto: Crypto, s: Sys, a: Action) {
    a.Do? && Enabled(crypto, s, a) ==>
      a.call != SyncDir(false) && (a.call.Die? ==> !s.procs[a.p].work.Renamed?)
  }

  ghost predicate CalmRun(crypto: Crypto, start: Start, actions: seq<Action>) {
    actions == [] ||
    var before := actions[..|actions| - 1];
    CalmRun(crypto, start, before) && Calm(crypto, Run(crypto, start, before), actions[|actions| - 1])
  }

  ghost predicate InFlight(s: Sys) { exists p :: p in s.procs && s.procs[p].work.Renamed? }

  ghost predicate AllButInFlight(s: Sys) { |s.versions| == Durable(s) + if InFlight(s) then 1 else 0 }

  lemma CalmStep(crypto: Crypto, s: Sys, a: Action)
    requires Inv(crypto, s) && AllButInFlight(s) && Calm(crypto, s, a)
    ensures AllButInFlight(Next(crypto, s, a))
  {
    hide LoadFile, Inv, FilesOk, Linked, Links, UpTo, Keep, ApplyOps, Serialized, SavedFile, Continues, ProcOk, Durable;
    DurableAfter(crypto, s, a);
    match a {
      case Do(p, call) =>
        if p in s.procs {
          Parts(crypto, s, p);
          OnlyOne(s, p);
          FlightOf(s, p);
          CalmCall(crypto, s, p, call);
        }
      case Acquire(p, _) =>
        var t := Next(crypto, s, a);
        assert forall q | q in t.procs && t.procs[q].work.Renamed? :: q in s.procs && s.procs[q] == t.procs[q];
        assert p !in s.procs ==> forall q | q in s.procs :: q in t.procs && t.procs[q] == s.procs[q];
      case PowerLoss(_, _) =>
    }
  }

  lemma FlightOf(s: Sys, p: nat)
    requires forall q | q in s.procs :: q == p
    ensures InFlight(s) <==> p in s.procs && s.procs[p].work.Renamed?
  {}

  /** A rename adds a version and is in flight; a sync makes all durable; nothing else matters. */
  lemma CalmCall(crypto: Crypto, s: Sys, p: nat, call: Call)
    requires p in s.procs && (forall q | q in s.procs :: q == p) && Calm(crypto, s, Do(p, call))
    ensures var t := Next(crypto, s, Do(p, call)); var enabled := Enabled(crypto, s, Do(p, call));
      && |t.versions| == |s.versions| + (if enabled && call.Rename? then 1 else 0)
      && (enabled && call.Rename? ==> InFlight(t) && !InFlight(s))
      && (enabled && call == SyncDir(true) ==> !InFlight(t))
      && (!enabled || !(call.Rename? || call == SyncDir(true)) ==> InFlight(t) == InFlight(s))
  {
    hide LoadFile, Serialized, SavedFile, Live, VaultContent, Allowed, InFlight;
    var t := Next(crypto, s, Do(p, call));
    FlightOf(s, p);
    FlightOf(t, p);
  }

  /** In a calm run only the one operation between its rename and its sync is uncertain. */
  lemma {:induction false} OnlyInFlightIsUncertain(crypto: Crypto, start: Start, actions: seq<Action>)
    requires crypto.Lawful() && CalmRun(crypto, start, actions)
    ensures AllButInFlight(Run(crypto, start, actions))
    ensures var s := Run(crypto, start, actions);
      forall kept, junk ::
        |s.versions| <= |Restart(s, kept, junk).versions| + if InFlight(s) then 1 else 0
  {
    hide LoadFile, Next, Inv, Restart, Calm;
    var s := Run(crypto, start, actions);
    if actions == [] {
      assert s.procs == map[];
    } else {
      var before := actions[..|actions| - 1];
      OnlyInFlightIsUncertain(crypto, start, before);
      RunKeepsInv(crypto, start, before);
      CalmStep(crypto, Run(crypto, start, before), actions[|actions| - 1]);
    }
    RunKeepsInv(crypto, start, actions);
    InvIsFiles(crypto, s);
    forall kept, junk ensures |Restart(s, kept, junk).versions| >= Durable(s) {
      hide AllButInFlight;
      RestartVersions(crypto, s, kept, junk);
    }
  }

  // ---------------------------------------------------------------- a run that loses an acknowledged change

  /** A machine without a vault file. */
  const FRESH: Start := RawStart(EMPTY_DISK, [])

  /** A first save in which nothing fails but, if `synced` is false, the directory sync nobody checks. */
  ghost function FirstSave(crypto: Crypto, password: bytes, params: Params, nonce: bytes, synced: bool): seq<Action>
    requires crypto.derive(password, params).Some?
  {
    EmptySerializes();
    var size := |SavedFile(crypto, Loaded(map[], crypto.derive(password, params).value, params), nonce)|;
    [Acquire(0, password), Do(0, BeginCreate(params, nonce, 0)), Do(0, Write(size)), Do(0, FsyncFile),
     Do(0, CloseFile), Do(0, Rename), Do(0, SyncDir(synced)), Do(0, Finish)]
  }

  ghost function From(crypto: Crypto, s: Sys, actions: seq<Action>): Sys
    decreases actions
  {
    if actions == [] then s else From(crypto, Next(crypto, s, actions[0]), actions[1..])
  }

  lemma {:induction false} RunFrom(crypto: Crypto, start: Start, done: seq<Action>, more: seq<Action>)
    ensures Run(crypto, start, done + more) == From(crypto, Run(crypto, start, done), more)
    decreases |more|
  {
    hide Next, Run;
    if more == [] {
      assert done + more == done;
    } else {
      RunOne(crypto, start, done, more[0]);
      RunFrom(crypto, start, done + [more[0]], more[1..]);
      assert done + more == done + [more[0]] + more[1..];
    }
  }

  /** A process about to publish the file of `u`. */
  ghost predicate AboutToRename(s: Sys, password: bytes, u: Update) {
    && s.procs == map[0 := Proc(password, Unbuilt, Closed(u))]
    && s.versions == [] && s.acked == 0 && s.allSynced && s.disk.durable == map[]
    && s.disk.log == [Link(Temp(u.suffix), u.ino)] && s.disk.inodes == [Inode(u.file, true)] && u.ino == 0
  }

  lemma SavedFileIsNotEmpty(crypto: Crypto, l: Loaded, nonce: bytes)
    requires Serialized(l.secrets).Ok? && l.params.InRange() && |nonce| == NONCE_SIZE
    ensures |SavedFile(crypto, l, nonce)| > 0
  {}

  /** A process that has just created its temporary file, the first inode of the disk. */
  ghost predicate JustBegun(s: Sys, password: bytes, u: Update) {
    && s.procs == map[0 := Proc(password, Unbuilt, Writing(u, 0))]
    && s.versions == [] && s.acked == 0 && s.allSynced && s.disk.durable == map[]
    && s.disk.log == [Link(Temp(u.suffix), u.ino)] && s.disk.inodes == [Inode([], false)] && u.ino == 0
  }

  lemma FirstSaveBegins(crypto: Crypto, password: bytes, params: Params, nonce: bytes) returns (u: Update)
    requires password != [] && params.InRange() && |nonce| == NONCE_SIZE && crypto.derive(password, params).Some?
    ensures var s := Next(crypto, Booted(crypto, FRESH), Acquire(0, password));
      JustBegun(Next(crypto, s, Do(0, BeginCreate(params, nonce, 0))), password, u)
    ensures u.after == Loaded(map[], crypto.derive(password, params).value, params)
    ensures Serialized(u.after.secrets).Ok? && u.file == SavedFile(crypto, u.after, nonce) && u.file != []
  {
    hide LoadFile, SavedFile, Serialized;
    EmptySerializes();
    var l := Loaded(map[], crypto.derive(password, params).value, params);
    SavedFileIsNotEmpty(crypto, l, nonce);
    u := Update(Create, l, SavedFile(crypto, l, nonce), 0, 0);
    var s := Next(crypto, Booted(crypto, FRESH), Acquire(0, password));
    assert s == Booted(crypto, FRESH).(procs := map[0 := Proc(password, Unbuilt, Resting)], holder := Some(0));
  }

  lemma FirstSaveWrites(crypto: Crypto, s: Sys, password: bytes, u: Update)
    requires JustBegun(s, password, u) && u.file != []
    ensures var t := Next(crypto, Next(crypto, s, Do(0, Write(|u.file|))), Do(0, FsyncFile));
      AboutToRename(Next(crypto, t, Do(0, CloseFile)), password, u)
  {
    hide LoadFile, SavedFile, Serialized, Live, VaultContent;
    var t := Next(crypto, s, Do(0, Write(|u.file|)));
    assert u.file[0..|u.file|] == u.file && [] + u.file == u.file;
    assert t.procs[0].work == Writing(u, |u.file|) && t.disk.inodes == [Inode(u.file, false)];
    var r := Next(crypto, t, Do(0, FsyncFile));
    assert r.procs[0].work == Flushed(u) && r.disk.inodes == [Inode(u.file, true)];
  }

  lemma FromFive(crypto: Crypto, s: Sys, actions: seq<Action>)
    requires |actions| == 5
    ensures From(crypto, s, actions)
      == (var t := Next(crypto, Next(crypto, s, actions[0]), actions[1]);
          Next(crypto, Next(crypto, Next(crypto, t, actions[2]), actions[3]), actions[4]))
  {
    hide Next;
    var a := actions;
    assert a[1..][1..] == a[2..] && a[2..][1..] == a[3..] && a[3..][1..] == a[4..] && a[4..][1..] == [];
    var s1 := Next(crypto, s, a[0]);
    var s2 := Next(crypto, s1, a[1]);
    var s3 := Next(crypto, s2, a[2]);
    var s4 := Next(crypto, s3, a[3]);
    assert From(crypto, s, a) == From(crypto, s1, a[1..]) == From(crypto, s2, a[2..]);
    assert From(crypto, s2, a[2..]) == From(crypto, s3, a[3..]) == From(crypto, s4, a[4..]);
    assert From(crypto, s4, a[4..]) == From(crypto, Next(crypto, s4, a[4]), []);
  }

  /**
   The condition can fail: in this run creating the vault reports success although the directory sync
   failed, and a power loss right afterwards leaves no vault file at all.
   */
  lemma AcknowledgedCanBeLost(crypto: Crypto, password: bytes, params: Params, nonce: bytes)
    requires password != [] && params.InRange() && |nonce| == NONCE_SIZE && crypto.derive(password, params).Some?
    ensures var s := Run(crypto, FRESH, FirstSave(crypto, password, params, nonce, false));
      && s.acked == 1 && Durable(s) == 0
      && VaultContent(s.disk).Some? && VaultContent(LosePower(s.disk, {}, map[])).None?
  {
    hide LoadFile, SavedFile, Serialized, Run, From, Next, Durable, VaultContent, Booted;
    var actions := FirstSave(crypto, password, params, nonce, false);
    var u := FirstSaveBegins(crypto, password, params, nonce);
    FirstSaveWrites(crypto, Next(crypto, Next(crypto, Booted(crypto, FRESH), actions[0]), actions[1]), password, u);
    FromFive(crypto, Booted(crypto, FRESH), actions[..5]);
    RunFrom(crypto, FRESH, [], actions[..5]);
    assert [] + actions[..5] == actions[..5];
    assert Run(crypto, FRESH, []) == Booted(crypto, FRESH) by { RunNothing(crypto); }
    var s := Run(crypto, FRESH, actions[..5]);
    RunThree(crypto, FRESH, actions[..5], actions[5], actions[6], actions[7]);
    assert actions == actions[..5] + [actions[5], actions[6], actions[7]];
    AfterThree(crypto, s, password, u);
  }

  lemma RunNothing(crypto: Crypto)
    ensures Run(crypto, FRESH, []) == Booted(crypto, FRESH)
  {}

  lemma AfterThree(crypto: Crypto, s: Sys, password: bytes, u: Update)
    requires AboutToRename(s, password, u)
    ensures var t := Next(crypto, Next(crypto, Next(crypto, s, Do(0, Rename)), Do(0, SyncDir(false))), Do(0, Finish));
      && t.acked == 1 && Durable(t) == 0
      && VaultContent(t.disk).Some? && VaultContent(LosePower(t.disk, {}, map[])).None?
  {
    hide LoadFile, Serialized, SavedFile;
    var s1 := Next(crypto, s, Do(0, Rename));
    var s2 := Next(crypto, s1, Do(0, SyncDir(false)));
    var t := Next(crypto, s2, Do(0, Finish));
    assert s1.procs[0].work == Renamed(u) && s2.procs[0].work == Published(u);
    RenameLinks(s.disk, u.suffix, u.ino);
    LiveVault(t.disk);
    KeepNothing(t.disk.log, 0);
    assert VaultLinks(t.disk) == VaultLinks(s.disk) + [u.ino];
  }
}
