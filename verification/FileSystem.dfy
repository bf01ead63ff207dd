/**
 The file system under the vault's directory.  A file's content is durable once it has been
 synced; the directory has a durable part and a log of later changes, of which a power loss may
 keep any selection.
 */
module FileSystem {
  import opened Bytes

  /** The vault path, or a temporary name beside it. */
  datatype Name = Vault | Temp(suffix: nat)

  datatype Inode = Inode(data: bytes, synced: bool)

  datatype DirOp = Link(name: Name, ino: nat) | Unlink(name: Name)

  type Dir = map<Name, nat>

  datatype Disk = Disk(inodes: seq<Inode>, durable: Dir, log: seq<DirOp>)

  function ApplyOp(d: Dir, op: DirOp): Dir {
    match op
    case Link(name, ino) => d[name := ino]
    case Unlink(name) => d - {name}
  }

  function ApplyOps(d: Dir, ops: seq<DirOp>): Dir
    decreases ops
  {
    if ops == [] then d else ApplyOps(ApplyOp(d, ops[0]), ops[1..])
  }

  /** The directory as running processes see it. */
  function Live(disk: Disk): Dir { ApplyOps(disk.durable, disk.log) }

  /** What a reader of the vault path gets. */
  function VaultContent(disk: Disk): Option<bytes> {
    if Vault in Live(disk) && Live(disk)[Vault] < |disk.inodes| then Some(disk.inodes[Live(disk)[Vault]].data)
    else None
  }

  // ---------------------------------------------------------------- system calls

  function CreateTemp(disk: Disk, suffix: nat): Disk {
    disk.(inodes := disk.inodes + [Inode([], false)],
          log := disk.log + [Link(Temp(suffix), |disk.inodes|)])
  }

  function Append(disk: Disk, ino: nat, data: bytes): Disk
    requires ino < |disk.inodes|
  {
    disk.(inodes := disk.inodes[ino := Inode(disk.inodes[ino].data + data, false)])
  }

  function SyncInode(disk: Disk, ino: nat): Disk
    requires ino < |disk.inodes|
  {
    disk.(inodes := disk.inodes[ino := disk.inodes[ino].(synced := true)])
  }

  /** rename: atomic for running processes; its two halves may survive a power loss separately. */
  function RenameToVault(disk: Disk, suffix: nat, ino: nat): Disk {
    disk.(log := disk.log + [Link(Vault, ino), Unlink(Temp(suffix))])
  }

  function UnlinkTemp(disk: Disk, suffix: nat): Disk {
    disk.(log := disk.log + [Unlink(Temp(suffix))])
  }

  function SyncDirectory(disk: Disk): Disk {
    disk.(durable := Live(disk), log := [])
  }

  /** The logged changes whose positions, counted from `from`, are in `kept`. */
  function Keep(ops: seq<DirOp>, kept: set<nat>, from: nat): seq<DirOp> {
    if ops == [] then []
    else (if from in kept then [ops[0]] else []) + Keep(ops[1..], kept, from + 1)
  }

  /** Unsynced contents become junk; any selection of the logged directory changes survives. */
  function LosePower(disk: Disk, kept: set<nat>, junk: map<nat, bytes>): Disk {
    Disk(
      seq(|disk.inodes|, i requires 0 <= i < |disk.inodes| =>
        if disk.inodes[i].synced then disk.inodes[i]
        else Inode(if i in junk then junk[i] else [], true)),
      ApplyOps(disk.durable, Keep(disk.log, kept, 0)),
      [])
  }

  /** The log is applied in order, so its last change is the last to take effect. */
  lemma {:induction false} AppliedLast(d: Dir, ops: seq<DirOp>, op: DirOp)
    ensures ApplyOps(d, ops + [op]) == ApplyOp(ApplyOps(d, ops), op)
    decreases ops
  {
    if ops == [] {
      assert ops + [op] == [op] && [op][1..] == [];
    } else {
      assert (ops + [op])[1..] == ops[1..] + [op];
      AppliedLast(ApplyOp(d, ops[0]), ops[1..], op);
    }
  }

  /** What the calls that change the directory do to it as running processes see it. */
  lemma LiveAfter(disk: Disk, suffix: nat, ino: nat)
    ensures Live(CreateTemp(disk, suffix)) == Live(disk)[Temp(suffix) := |disk.inodes|]
    ensures Live(RenameToVault(disk, suffix, ino)) == Live(disk)[Vault := ino] - {Temp(suffix)}
    ensures Live(UnlinkTemp(disk, suffix)) == Live(disk) - {Temp(suffix)}
    ensures Live(SyncDirectory(disk)) == Live(disk)
  {
    hide ApplyOps;
    AppliedLast(disk.durable, disk.log, Link(Temp(suffix), |disk.inodes|));
    AppliedLast(disk.durable, disk.log, Link(Vault, ino));
    AppliedLast(disk.durable, disk.log + [Link(Vault, ino)], Unlink(Temp(suffix)));
    AppliedLast(disk.durable, disk.log, Unlink(Temp(suffix)));
    assert disk.log + [Link(Vault, ino), Unlink(Temp(suffix))]
      == disk.log + [Link(Vault, ino)] + [Unlink(Temp(suffix))];
    NoChanges(Live(disk));
  }

  lemma NoChanges(d: Dir)
    ensures ApplyOps(d, []) == d
  {}

  /**
   A power loss is as bad as can be: what was written to a file since its last sync may come back as
   anything, and of the directory changes since the last directory sync all or none may be left.
   */
  lemma LossIsArbitrary(disk: Disk, ino: nat, data: bytes)
    requires ino < |disk.inodes|
    ensures !disk.inodes[ino].synced ==> LosePower(disk, {}, map[ino := data]).inodes[ino].data == data
    ensures disk.inodes[ino].synced ==> LosePower(disk, {}, map[ino := data]).inodes[ino] == disk.inodes[ino]
    ensures Live(LosePower(disk, {}, map[])) == disk.durable
    ensures exists kept :: Live(LosePower(disk, kept, map[])) == Live(disk)
  {
    KeepNothing(disk.log, 0);
    var all := Positions(|disk.log|);
    KeepAll(disk.log, all, 0);
    assert Live(LosePower(disk, all, map[])) == Live(disk);
  }

  function Positions(n: nat): (r: set<nat>)
    ensures forall i: nat :: i in r <==> i < n
  {
    if n == 0 then {} else Positions(n - 1) + {n - 1}
  }

  lemma {:induction false} KeepNothing(ops: seq<DirOp>, from: nat)
    ensures Keep(ops, {}, from) == []
  {
    if ops != [] { KeepNothing(ops[1..], from + 1); }
  }

  lemma {:induction false} KeepAll(ops: seq<DirOp>, kept: set<nat>, from: nat)
    requires forall i: nat | from <= i < from + |ops| :: i in kept
    ensures Keep(ops, kept, from) == ops
  {
    if ops != [] {
      KeepAll(ops[1..], kept, from + 1);
      assert ops == [ops[0]] + ops[1..];
    }
  }

  // ---------------------------------------------------------------- the vault's entry

  /** The inodes the vault path was pointed at by these changes, in order. */
  function Links(ops: seq<DirOp>): seq<nat> {
    if ops == [] then []
    else (if ops[0].Link? && ops[0].name == Vault then [ops[0].ino] else []) + Links(ops[1..])
  }

  /** Every inode a power loss could leave the vault path at, the durable one first. */
  function VaultLinks(disk: Disk): seq<nat> {
    (if Vault in disk.durable then [disk.durable[Vault]] else []) + Links(disk.log)
  }

  /** The code never removes the vault path. */
  predicate VaultStays(ops: seq<DirOp>) { Unlink(Vault) !in ops }

  lemma {:induction false} LinksAppend(a: seq<DirOp>, b: seq<DirOp>)
    ensures Links(a + b) == Links(a) + Links(b)
  {
    if a == [] {
      assert a + b == b;
    } else {
      assert (a + b)[1..] == a[1..] + b;
      LinksAppend(a[1..], b);
    }
  }

  lemma {:induction false} AppliedVault(d: Dir, ops: seq<DirOp>)
    requires VaultStays(ops)
    ensures var r, links := ApplyOps(d, ops), Links(ops);
      if links != [] then Vault in r && r[Vault] == links[|links| - 1]
      else (Vault in r <==> Vault in d) && (Vault in d ==> r[Vault] == d[Vault])
    decreases ops
  {
    if ops != [] {
      assert ops[0] != Unlink(Vault);
      AppliedVault(ApplyOp(d, ops[0]), ops[1..]);
    }
  }

  /** Running processes see the last inode the vault path was pointed at. */
  lemma LiveVault(disk: Disk)
    requires VaultStays(disk.log)
    ensures Vault in Live(disk) <==> VaultLinks(disk) != []
    ensures Vault in Live(disk) ==> Live(disk)[Vault] == VaultLinks(disk)[|VaultLinks(disk)| - 1]
  {
    AppliedVault(disk.durable, disk.log);
  }

  lemma {:induction false} KeptIsLogged(ops: seq<DirOp>, kept: set<nat>, from: nat)
    ensures forall op | op in Keep(ops, kept, from) :: op in ops
    ensures forall ino | ino in Links(Keep(ops, kept, from)) :: ino in Links(ops)
  {
    if ops != [] {
      KeptIsLogged(ops[1..], kept, from + 1);
      var head: seq<DirOp> := if from in kept then [ops[0]] else [];
      LinksAppend(head, Keep(ops[1..], kept, from + 1));
      assert ops == [ops[0]] + ops[1..];
      assert Links([ops[0]]) == (if ops[0].Link? && ops[0].name == Vault then [ops[0].ino] else []);
    }
  }

  /** A power loss leaves the vault path at one of the inodes it may have been at, or as absent as it was. */
  lemma VaultAfterPowerLoss(disk: Disk, kept: set<nat>, junk: map<nat, bytes>)
    requires VaultStays(disk.log)
    ensures var after := LosePower(disk, kept, junk);
      && VaultStays(after.log)
      && (Vault in after.durable ==> after.durable[Vault] in VaultLinks(disk))
      && (Vault in disk.durable ==> Vault in after.durable)
  {
    var ops := Keep(disk.log, kept, 0);
    KeptIsLogged(disk.log, kept, 0);
    AppliedVault(disk.durable, ops);
  }
}
