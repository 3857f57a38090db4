/**
  Publication of an offline migration: the legacy vault and the migrated one change places,
  and the legacy vault ends as a private backup, or back where it was.
 */
module Migration {
  import opened Wrappers
  import opened Faults
  import opened Modes

  datatype Kind = Directory | Regular

  /** One entry below a vault root; `mode` are its twelve permission bits. */
  datatype Node = Node(kind: Kind, mode: nat, content: string)

  /** A vault: the mode of its root directory and its entries by relative path. */
  datatype VaultTree = VaultTree(rootMode: nat, items: map<string, Node>)

  const EVIDENCE: string := ".plico-migration-backup-evidence.json"
  const LEGACY_INDEX: string := "memory_index.json"
  const LEDGER: string := "memory-ledger"

  /** The three places a whole vault can be, and whether dropping the target deletes the second. */
  datatype Places = Places(root: VaultTree, staging: Option<VaultTree>, backup: Option<VaultTree>, autoDelete: bool)

  function PrivateMode(k: Kind): nat {
    match k
    case Directory => PRIVATE_DIRECTORY
    case Regular => PRIVATE_FILE
  }

  // ---------------------------------------------------------------------------------------
  // Trees up to permissions
  // ---------------------------------------------------------------------------------------

  /** The same files and directories with the same contents; modes may differ. */
  predicate Alike(a: map<string, Node>, b: map<string, Node>) {
    && a.Keys == b.Keys
    && forall p :: p in a ==> a[p].kind == b[p].kind && a[p].content == b[p].content
  }

  lemma AlikeRefl(a: map<string, Node>)
    ensures Alike(a, a)
  {
  }

  /** The whole legacy vault is in `t`, possibly with the evidence file beside it. */
  predicate HoldsSource(t: VaultTree, source: VaultTree) {
    && source.items.Keys <= t.items.Keys <= source.items.Keys + {EVIDENCE}
    && forall p :: p in source.items ==>
                     t.items[p].kind == source.items[p].kind && t.items[p].content == source.items[p].content
  }

  predicate IsSource(t: Option<VaultTree>, source: VaultTree) {
    t.Some? && HoldsSource(t.value, source)
  }

  /** The entries in `paths` have the modes that `wanted` gives them. */
  predicate ModesFrom(items: map<string, Node>, wanted: map<string, Node>, paths: set<string>) {
    forall p :: p in paths ==> p in items && p in wanted && items[p].mode == wanted[p].mode
  }

  lemma NoModes(items: map<string, Node>, wanted: map<string, Node>, paths: set<string>)
    requires paths == {}
    ensures ModesFrom(items, wanted, paths)
  {
  }

  lemma ModeSet(t: VaultTree, path: string, wanted: map<string, Node>, paths: set<string>)
    requires path in t.items && path in wanted && ModesFrom(t.items, wanted, paths)
    ensures var u := WithMode(t, path, wanted[path].mode);
            u.rootMode == t.rootMode && Alike(u.items, t.items) && ModesFrom(u.items, wanted, paths + {path})
  {
  }

  /** What the private backup of a vault looks like. */
  function Hardened(items: map<string, Node>): map<string, Node> {
    map p | p in items :: items[p].(mode := PrivateMode(items[p].kind))
  }

  /** The check of `private_backup_tree_matches`. */
  predicate PrivateBackup(t: VaultTree, items: map<string, Node>) {
    && t.rootMode % (PERMISSION_BITS + 1) == PRIVATE_DIRECTORY
    && Alike(t.items, items)
    && forall p :: p in t.items ==> t.items[p].mode % (PERMISSION_BITS + 1) == PrivateMode(t.items[p].kind)
  }

  /** Only the owner can get at anything in it: 0700 for directories and 0600 for files. */
  predicate Shielded(t: VaultTree) {
    && t.rootMode == 448
    && forall p :: p in t.items ==> t.items[p].mode == if t.items[p].kind.Directory? then 448 else 384
  }

  /** The tree with nothing but permission bits in its modes. */
  function Masked(t: VaultTree): VaultTree {
    VaultTree(t.rootMode % 512, map p | p in t.items :: t.items[p].(mode := t.items[p].mode % 512))
  }

  /** The check passes exactly on the vault as hardening leaves it, and that is a private tree. */
  lemma PrivateBackupExact(t: VaultTree, items: map<string, Node>)
    ensures PrivateBackup(t, items) <==> Masked(t) == VaultTree(448, Hardened(items))
    ensures PrivateBackup(t, items) ==> Shielded(Masked(t))
  {
    if PrivateBackup(t, items) {
      assert Masked(t).items == Hardened(items);
    }
    if Masked(t) == VaultTree(448, Hardened(items)) {
      forall p | p in t.items || p in items
        ensures p in t.items && p in items && t.items[p].kind == items[p].kind && t.items[p].content == items[p].content
        ensures t.items[p].mode % 512 == PrivateMode(t.items[p].kind)
      {
        assert p in Masked(t).items <==> p in t.items;
        assert p in Hardened(items) <==> p in items;
        assert Masked(t).items[p] == Hardened(items)[p];
      }
    }
  }

  /** Bit `n` of the permission bits, counted from the lowest. */
  function Bit(mode: nat, n: nat): bool
    decreases n
  {
    if n == 0 then mode % 2 == 1 else Bit(mode / 2, n - 1)
  }

  /** The owner reads and writes everything and enters every directory; nobody else has any permission. */
  lemma ShieldedBits(t: VaultTree, path: string)
    requires Shielded(t) && path in t.items
    ensures Bit(t.items[path].mode, 8) && Bit(t.items[path].mode, 7)
    ensures Bit(t.items[path].mode, 6) <==> t.items[path].kind.Directory?
    ensures t.items[path].mode % 64 == 0 && t.items[path].mode < 512
  {
    var mode := t.items[path].mode;
    assert Bit(mode, 8) == (mode / 2 / 2 / 2 / 2 / 2 / 2 / 2 / 2 % 2 == 1);
    assert Bit(mode, 7) == (mode / 2 / 2 / 2 / 2 / 2 / 2 / 2 % 2 == 1);
    assert Bit(mode, 6) == (mode / 2 / 2 / 2 / 2 / 2 / 2 % 2 == 1);
  }

  // ---------------------------------------------------------------------------------------
  // Conservation
  // ---------------------------------------------------------------------------------------

  /** A migration from `source` to `target`: the legacy index is in one and not in the other. */
  datatype Plan = Plan(source: VaultTree, target: VaultTree)

  predicate ValidPlan(m: Plan) {
    LEGACY_INDEX in m.source.items && LEGACY_INDEX !in m.target.items && LEDGER in m.target.items
  }

  /**
    The vault root holds a whole vault; the legacy vault is in exactly one place; that place
    is never one that is about to be deleted; and what is under the public backup name is
    private throughout.
   */
  predicate Conserved(m: Plan, p: Places) {
    && (p.root == m.source || p.root == m.target)
    && (|| (HoldsSource(p.root, m.source) && !IsSource(p.staging, m.source) && !IsSource(p.backup, m.source))
        || (!HoldsSource(p.root, m.source) && IsSource(p.staging, m.source) && !IsSource(p.backup, m.source))
        || (!HoldsSource(p.root, m.source) && !IsSource(p.staging, m.source) && IsSource(p.backup, m.source)))
    && (p.autoDelete ==> !IsSource(p.staging, m.source))
    && (p.backup.Some? ==> Shielded(p.backup.value))
  }

  ghost predicate AllConserved(m: Plan, h: seq<Places>) {
    forall i :: 0 <= i < |h| ==> Conserved(m, h[i])
  }

  /** The end of a publication. */
  datatype Outcome =
    | Refused      // nothing was exchanged
    | Published
    | RolledBack
    | Stuck        // the rollback itself failed

  class MigrationVault {
    const io: Io
    var root: VaultTree
    var staging: Option<VaultTree>
    var backup: Option<VaultTree>
    var autoDelete: bool
    /** Every state of the three places so far. */
    ghost var history: seq<Places>

    ghost function Now(): Places
      reads this
    {
      Places(root, staging, backup, autoDelete)
    }

    ghost predicate Valid()
      reads this
    {
      |history| > 0 && history[|history| - 1] == Now()
    }

    /** A prepared target: the vault in place, its migrated copy staged in a temporary container. */
    constructor (io: Io, source: VaultTree, target: VaultTree)
      ensures Valid() && this.io == io
      ensures Now() == Places(source, Some(target), None, true) && history == [Now()]
    {
      this.io := io;
      root, staging, backup, autoDelete := source, Some(target), None, true;
      history := [Places(source, Some(target), None, true)];
    }

    /** One change of the three places. */
    method Do(p: Places, obstacle: Option<ErrorKind>) returns (e: Option<ErrorKind>)
      requires Valid()
      modifies this, io
      ensures Valid()
      ensures io.count >= old(io.count) && (io.count == old(io.count) ==> e == obstacle)
      ensures e.Some? ==> Now() == old(Now()) && history == old(history)
      ensures e.None? ==> obstacle.None? && io.count == old(io.count) && Now() == p && history == old(history) + [p]
    {
      e := io.Check(obstacle);
      if e.None? {
        root, staging, backup, autoDelete := p.root, p.staging, p.backup, p.autoDelete;
        history := history + [p];
      }
    }

    /** Changes one mode in the staged tree. */
    method SetMode(path: string, kind: Kind, mode: nat) returns (e: Option<ErrorKind>)
      requires Valid() && staging.Some?
      modifies this, io
      ensures Valid()
      ensures io.count >= old(io.count)
      ensures e.Some? ==> Now() == old(Now()) && history == old(history)
      ensures e.None? ==>
                && io.count == old(io.count)
                && path in old(staging).value.items && old(staging).value.items[path].kind == kind
                && Now() == old(Now()).(staging := Some(WithMode(old(staging).value, path, mode)))
                && history == old(history) + [Now()]
      ensures && io.count == old(io.count) && path in old(staging).value.items
              && old(staging).value.items[path].kind == kind
              ==> e.None?
    {
      var t := staging.value;
      if path !in t.items {
        return Some(NotFound);
      }
      if t.items[path].kind != kind {
        return Some(InvalidData);
      }
      e := Do(Places(root, Some(WithMode(t, path, mode)), backup, autoDelete), None);
    }

    /** Changes the mode of the staged root. */
    method SetRootMode(mode: nat) returns (e: Option<ErrorKind>)
      requires Valid() && staging.Some?
      modifies this, io
      ensures Valid()
      ensures io.count >= old(io.count) && (io.count == old(io.count) ==> e.None?)
      ensures e.Some? ==> Now() == old(Now()) && history == old(history)
      ensures e.None? ==>
                && io.count == old(io.count)
                && Now() == old(Now()).(staging := Some(old(staging).value.(rootMode := mode)))
                && history == old(history) + [Now()]
    {
      e := Do(Places(root, Some(staging.value.(rootMode := mode)), backup, autoDelete), None);
    }

    /** Gives one entry its mode. */
    method ApplyMode(
      path: string, wanted: map<string, Node>, ghost base: map<string, Node>, ghost paths: set<string>, ghost m: Plan)
      returns (ok: bool)
      requires Valid() && staging.Some? && path in wanted
      requires Alike(staging.value.items, base) && ModesFrom(staging.value.items, wanted, paths)
      modifies this, io
      ensures Valid() && io.count >= old(io.count)
      ensures Now() == old(Now()).(staging := staging) && staging.Some?
      ensures staging.value.rootMode == old(staging).value.rootMode && Alike(staging.value.items, base)
      ensures ok ==> io.count == old(io.count) && ModesFrom(staging.value.items, wanted, paths + {path})
      ensures io.count == old(io.count) && Alike(base, wanted) ==> ok
      ensures Exposed(m, old(Now())) ==>
                Exposed(m, Now()) && (AllConserved(m, old(history)) ==> AllConserved(m, history))
    {
      hide Conserved, HoldsSource, ModesFrom, WithMode;
      ghost var t := staging.value;
      var e := SetMode(path, wanted[path].kind, wanted[path].mode);
      if e.Some? {
        return false;
      }
      ModeSet(t, path, wanted, paths);
      if Exposed(m, old(Now())) {
        AlikeConserved(m, Now());
      }
      return true;
    }

    /**
      Gives every entry of `wanted` its mode, one by one.  Wherever it stops, every file is
      still there with its content; an entry that is missing stops it.
     */
    method ApplyModes(wanted: map<string, Node>, ghost m: Plan) returns (ok: bool)
      requires Valid() && staging.Some?
      modifies this, io
      ensures Valid() && io.count >= old(io.count)
      ensures Now() == old(Now()).(staging := staging) && staging.Some?
      ensures staging.value.rootMode == old(staging).value.rootMode
      ensures Alike(staging.value.items, old(staging).value.items)
      ensures ok ==> io.count == old(io.count) && ModesFrom(staging.value.items, wanted, wanted.Keys)
      ensures io.count == old(io.count) && Alike(old(staging).value.items, wanted) ==> ok
      ensures Exposed(m, old(Now())) && AllConserved(m, old(history)) ==> AllConserved(m, history)
    {
      hide Conserved, HoldsSource, ModesFrom, Alike, AllConserved, Exposed;
      ghost var base := staging.value.items;
      AlikeRefl(base);
      var todo := wanted.Keys;
      NoModes(base, wanted, wanted.Keys - todo);
      while todo != {}
        invariant Valid() && io.count == old(io.count)
        invariant Now() == old(Now()).(staging := staging) && staging.Some?
        invariant staging.value.rootMode == old(staging).value.rootMode && Alike(staging.value.items, base)
        invariant todo <= wanted.Keys && ModesFrom(staging.value.items, wanted, wanted.Keys - todo)
        invariant Exposed(m, old(Now())) ==>
                    Exposed(m, Now()) && (AllConserved(m, old(history)) ==> AllConserved(m, history))
        decreases |todo|
      {
        var p :| p in todo;
        ok := ApplyMode(p, wanted, base, wanted.Keys - todo, m);
        if !ok {
          return;
        }
        assert wanted.Keys - todo + {p} == wanted.Keys - (todo - {p});
        todo := todo - {p};
      }
      assert wanted.Keys - todo == wanted.Keys;
      return true;
    }

    /** Makes the staged legacy vault private. */
    method Harden(source: VaultTree, ghost m: Plan) returns (ok: bool)
      requires Valid() && source == m.source && staging == Some(source) && Exposed(m, Now())
      modifies this, io
      ensures Valid() && io.count >= old(io.count)
      ensures Exposed(m, Now())
      ensures AllConserved(m, old(history)) ==> AllConserved(m, history)
      ensures ok ==>
                && io.count == old(io.count) && Shielded(staging.value)
                && staging == Some(VaultTree(PRIVATE_DIRECTORY, Hardened(source.items)))
      ensures io.count == old(io.count) ==> ok
    {
      hide Conserved, HoldsSource;
      var e := io.Try();
      if e.Some? {
        return false;
      }
      e := SetRootMode(PRIVATE_DIRECTORY);
      if e.Some? {
        return false;
      }
      AlikeConserved(m, Now());
      ok := ApplyModes(Hardened(source.items), m);
      if !ok {
        return;
      }
      assert staging.value.items == Hardened(source.items);
      e := io.Check(if PrivateBackup(staging.value, source.items) then None else Some(InvalidData));
      return e.None?;
    }

    /** Exchanges the vault back and, once that is durable, lets the container with the target go. */
    method RollbackExchange(ghost m: Plan) returns (out: Outcome)
      requires Valid() && staging == Some(m.source) && Exposed(m, Now())
      modifies this, io
      ensures Valid() && io.count >= old(io.count)
      ensures out == RolledBack || out == Stuck
      ensures AllConserved(m, old(history)) ==> AllConserved(m, history)
      ensures out == RolledBack ==> Now() == Places(m.source, Some(m.target), None, true)
      ensures io.count == old(io.count) ==> out == RolledBack
    {
      hide Conserved, HoldsSource;
      var e := Do(Places(staging.value, Some(root), backup, autoDelete), None);
      if e.Some? {
        return Stuck;
      }
      InPlaceConserved(m, Now());
      e := io.Try();
      if e.Some? {
        return Stuck;
      }
      e := io.Try();
      if e.Some? {
        return Stuck;
      }
      autoDelete := true;
      history := history + [Now()];
      InPlaceConserved(m, Now());
      return RolledBack;
    }

    /**
      Removes the evidence file, restores every mode of the legacy vault and exchanges it back.
      If the legacy vault has an entry of that name of its own, the rollback always fails; and
      if that entry is a file and no call fails, the legacy vault is incomplete afterwards.
     */
    method RollbackAfterEvidence(source: VaultTree, ghost m: Plan) returns (out: Outcome)
      requires Valid() && source == m.source && ValidPlan(m)
      requires root == m.target && backup.None? && !autoDelete && IsSource(staging, source)
      requires EVIDENCE in source.items
               || (EVIDENCE in staging.value.items ==> staging.value.items[EVIDENCE].kind == Regular)
      modifies this, io
      ensures Valid() && io.count >= old(io.count)
      ensures out == RolledBack || out == Stuck
      ensures out == RolledBack ==> Now() == Places(m.source, Some(m.target), None, true)
      ensures EVIDENCE !in source.items ==>
                && (AllConserved(m, old(history)) ==> AllConserved(m, history))
                && (io.count == old(io.count) ==> out == RolledBack)
      ensures EVIDENCE in source.items ==>
                && out == Stuck
                && (source.items[EVIDENCE].kind == Directory && AllConserved(m, old(history)) ==>
                      AllConserved(m, history))
                && (io.count == old(io.count) ==>
                      && root == m.target
                      && (Conserved(m, Now()) <==> source.items[EVIDENCE].kind == Directory))
    {
      hide Conserved;
      var e;
      if EVIDENCE in staging.value.items {
        var t := staging.value;
        SomewhereConserved(m, Now());
        e := Do(Places(root, Some(t.(items := t.items - {EVIDENCE})), backup, autoDelete),
                if t.items[EVIDENCE].kind == Directory then Some(Other) else None);
        if e.Some? {
          return Stuck;
        }
      }
      if EVIDENCE !in source.items {
        AlikeConserved(m, Now());
      }
      e := io.Try();
      if e.Some? {
        return Stuck;
      }
      out := RestoreAndExchange(source, m);
      if EVIDENCE in source.items {
        LostConserved(m, Now());
      }
    }

    /** Restores every mode of the staged legacy vault, verifies it, and exchanges it back. */
    method RestoreAndExchange(source: VaultTree, ghost m: Plan) returns (out: Outcome)
      requires Valid() && source == m.source && ValidPlan(m)
      requires root == m.target && backup.None? && !autoDelete && staging.Some?
      modifies this, io
      ensures Valid() && io.count >= old(io.count)
      ensures out == RolledBack || out == Stuck
      ensures out == RolledBack ==> Now() == Places(m.source, Some(m.target), None, true)
      ensures Exposed(m, old(Now())) ==>
                && (AllConserved(m, old(history)) ==> AllConserved(m, history))
                && (io.count == old(io.count) ==> out == RolledBack)
      ensures !(source.items.Keys <= old(staging).value.items.Keys) ==>
                && out == Stuck && root == m.target && backup.None? && !autoDelete
                && staging.Some? && staging.value.items.Keys == old(staging).value.items.Keys
    {
      hide Conserved, HoldsSource;
      var e := SetRootMode(PRIVATE_DIRECTORY);
      if e.Some? {
        return Stuck;
      }
      if Exposed(m, old(Now())) {
        AlikeConserved(m, Now());
      }
      var ok := ApplyModes(source.items, m);
      if !ok {
        return Stuck;
      }
      e := SetRootMode(source.rootMode);
      if e.Some? {
        return Stuck;
      }
      if Exposed(m, old(Now())) {
        AlikeConserved(m, Now());
        assert staging.value.items == source.items;
      }
      e := io.Check(if staging.value == source then None else Some(InvalidData));
      if e.Some? {
        return Stuck;
      }
      AlikeConserved(m, Now());
      out := RollbackExchange(m);
    }

    /** Takes a finished backup back to where the exchange left it. */
    method RollbackFinalized(source: VaultTree, ghost m: Plan) returns (out: Outcome)
      requires Valid() && source == m.source && ValidPlan(m)
      requires root == m.target && staging.None? && !autoDelete && IsSource(backup, source)
      requires EVIDENCE in source.items
               || (EVIDENCE in backup.value.items ==> backup.value.items[EVIDENCE].kind == Regular)
      modifies this, io
      ensures Valid() && io.count >= old(io.count)
      ensures out == RolledBack || out == Stuck
      ensures out == RolledBack ==> Now() == Places(m.source, Some(m.target), None, true)
      ensures EVIDENCE !in source.items ==>
                && (AllConserved(m, old(history)) ==> AllConserved(m, history))
                && (io.count == old(io.count) ==> out == RolledBack)
      ensures EVIDENCE in source.items ==>
                && out == Stuck
                && (source.items[EVIDENCE].kind == Directory && AllConserved(m, old(history)) ==>
                      AllConserved(m, history))
                && (io.count == old(io.count) ==>
                      && root == m.target
                      && (Conserved(m, Now()) <==> source.items[EVIDENCE].kind == Directory))
    {
      hide Conserved;
      var e := Do(Places(root, backup, None, autoDelete), None);
      if e.Some? {
        return Stuck;
      }
      SomewhereConserved(m, Now());
      out := RollbackAfterEvidence(source, m);
    }

    /** Writes the evidence file into the backup; an existing file of that name is not replaced. */
    method WriteEvidence(evidence: string, ghost m: Plan) returns (ok: bool)
      requires Valid() && ValidPlan(m) && root == m.target && staging.None? && !autoDelete
      requires IsSource(backup, m.source) && Shielded(backup.value)
      modifies this, io
      ensures Valid() && io.count >= old(io.count)
      ensures Now() == old(Now()).(backup := backup) && IsSource(backup, m.source)
      ensures AllConserved(m, old(history)) ==> AllConserved(m, history)
      ensures ok ==>
                && io.count == old(io.count) && EVIDENCE !in old(backup).value.items
                && backup.value == WithEvidence(old(backup).value, evidence)
      ensures EVIDENCE in old(backup).value.items ==> !ok
      ensures EVIDENCE in old(backup).value.items ==> backup == old(backup)
      ensures backup == old(backup) || backup == Some(WithEvidence(old(backup).value, evidence))
      ensures io.count == old(io.count) && EVIDENCE !in old(backup).value.items ==> ok
    {
      hide Conserved;
      var e := io.Try();
      if e.Some? {
        return false;
      }
      e := Do(Places(root, staging, Some(WithEvidence(backup.value, evidence)), autoDelete),
              if EVIDENCE in backup.value.items then Some(Other) else None);
      if e.Some? {
        return false;
      }
      SomewhereConserved(m, Now());
      e := io.Try();
      return e.None?;
    }

    /** From the exchange on: harden, move to the backup name, write the evidence, verify. */
    method FinishPublication(source: VaultTree, evidence: string, ghost m: Plan) returns (out: Outcome)
      requires Valid() && source == m.source && staging == Some(source) && Exposed(m, Now())
      modifies this, io
      ensures Valid() && io.count >= old(io.count)
      ensures out != Refused
      ensures out == RolledBack ==> Now() == Places(m.source, Some(m.target), None, true)
      ensures out == Published ==>
                var t := WithEvidence(VaultTree(PRIVATE_DIRECTORY, Hardened(source.items)), evidence);
                Now() == Places(m.target, None, Some(t), true) && Shielded(t)
      ensures EVIDENCE !in source.items ==>
                && (AllConserved(m, old(history)) ==> AllConserved(m, history))
                && (io.count == old(io.count) ==> out == Published)
      ensures EVIDENCE in source.items ==>
                && out == Stuck
                && (source.items[EVIDENCE].kind == Directory && AllConserved(m, old(history)) ==>
                      AllConserved(m, history))
                && (io.count == old(io.count) ==>
                      && root == m.target
                      && (Conserved(m, Now()) <==> source.items[EVIDENCE].kind == Directory))
    {
      hide Conserved, EvidenceMatches;
      var ok := Harden(source, m);
      if !ok {
        out := RollbackAfterEvidence(source, m);
        return;
      }
      var e := Do(Places(root, None, staging, autoDelete), None);
      if e.Some? {
        out := RollbackAfterEvidence(source, m);
        return;
      }
      SomewhereConserved(m, Now());
      ok := WriteEvidence(evidence, m);
      if !ok {
        out := RollbackFinalized(source, m);
        return;
      }
      if EVIDENCE !in source.items {
        EvidenceVerifies(source, evidence);
      }
      e := io.Check(if EvidenceMatches(backup.value, source, evidence) then None else Some(InvalidData));
      if e.Some? {
        out := RollbackFinalized(source, m);
        return;
      }
      autoDelete := true;
      history := history + [Now()];
      PublishedConserved(m, Now());
      return Published;
    }

    /**
      Publishes the staged target.  In every state on the way the vault root holds a whole
      vault and the legacy vault is whole in exactly one place that is not about to be
      deleted; a rollback that succeeds puts it back with every mode; and a publication that
      succeeds leaves it as the private backup.  All this holds for legacy vaults without a
      top-level entry of the evidence file's name.  With one, nothing is ever published, and a
      publication in which no call fails ends `Stuck` with the target in place.  The legacy
      vault is then whole in every state of every run if that entry is a directory, and
      incomplete at the end of that one run if it is a file.
     */
    method Publish(source: VaultTree, target: VaultTree, evidence: string) returns (out: Outcome)
      requires Valid() && history == [Now()] && Now() == Places(source, Some(target), None, true)
      modifies this, io
      ensures Valid() && io.count >= old(io.count)
      ensures !ValidPlan(Plan(source, target)) ==> out == Refused
      ensures out == Refused || out == RolledBack ==> Now() == old(Now())
      ensures out == Published ==>
                var t := WithEvidence(VaultTree(PRIVATE_DIRECTORY, Hardened(source.items)), evidence);
                Now() == Places(target, None, Some(t), true) && Shielded(t)
      ensures ValidPlan(Plan(source, target)) && EVIDENCE !in source.items ==>
                && AllConserved(Plan(source, target), history)
                && (io.count == old(io.count) ==> out == Published)
      ensures ValidPlan(Plan(source, target)) && EVIDENCE in source.items ==>
                && (out == Refused || out == RolledBack || out == Stuck)
                && (source.items[EVIDENCE].kind == Directory ==> AllConserved(Plan(source, target), history))
                && (io.count == old(io.count) ==>
                      && out == Stuck && root == target
                      && (Conserved(Plan(source, target), Now()) <==> source.items[EVIDENCE].kind == Directory))
    {
      hide Conserved, HoldsSource;
      ghost var m := Plan(source, target);
      var e := io.Check(
        if LEGACY_INDEX in source.items && LEDGER in target.items && LEGACY_INDEX !in target.items
        then None else Some(InvalidData));
      if e.Some? {
        if ValidPlan(m) {
          InPlaceConserved(m, Now());
        }
        return Refused;
      }
      InPlaceConserved(m, Now());
      autoDelete := false;
      history := history + [Now()];
      InPlaceConserved(m, Now());
      e := Do(Places(target, Some(source), None, false), None);
      if e.Some? {
        autoDelete := true;
        history := history + [Now()];
        InPlaceConserved(m, Now());
        return Refused;
      }
      AlikeConserved(m, Now());
      e := io.Try();
      if e.Some? {
        out := RollbackExchange(m);
        return;
      }
      out := FinishPublication(source, evidence, m);
    }
  }

  /** The target is in place and the legacy vault is staged, under any modes. */
  predicate Exposed(m: Plan, p: Places) {
    && ValidPlan(m) && p.root == m.target && p.backup.None? && !p.autoDelete
    && p.staging.Some? && Alike(p.staging.value.items, m.source.items)
  }

  function WithMode(t: VaultTree, path: string, mode: nat): VaultTree
    requires path in t.items
  {
    t.(items := t.items[path := t.items[path].(mode := mode)])
  }

  function WithEvidence(t: VaultTree, evidence: string): VaultTree {
    t.(items := t.items[EVIDENCE := Node(Regular, PRIVATE_FILE, evidence)])
  }

  /** The check of `verify_backup_evidence`. */
  predicate EvidenceMatches(t: VaultTree, source: VaultTree, evidence: string) {
    && EVIDENCE in t.items && t.items[EVIDENCE] == Node(Regular, PRIVATE_FILE, evidence)
    && PrivateBackup(t.(items := t.items - {EVIDENCE}), source.items)
  }

  /** The backup that a publication writes passes its own verification. */
  lemma EvidenceVerifies(source: VaultTree, evidence: string)
    requires EVIDENCE !in source.items
    ensures var t := WithEvidence(VaultTree(PRIVATE_DIRECTORY, Hardened(source.items)), evidence);
            EvidenceMatches(t, source, evidence)
  {
  }

  /** And nothing else does: its own verification tells that backup from every other tree. */
  lemma EvidenceExact(t: VaultTree, source: VaultTree, evidence: string)
    ensures EvidenceMatches(t, source, evidence) <==>
            && EVIDENCE !in source.items && EVIDENCE in t.items && t.items[EVIDENCE].mode == 384
            && Masked(t) == WithEvidence(VaultTree(448, Hardened(source.items)), evidence)
  {
    var rest := t.(items := t.items - {EVIDENCE});
    PrivateBackupExact(rest, source.items);
    var wanted := WithEvidence(VaultTree(448, Hardened(source.items)), evidence);
    if EvidenceMatches(t, source, evidence) {
      assert EVIDENCE !in rest.items;
      forall p
        ensures p in Masked(t).items <==> p in wanted.items
        ensures p in wanted.items ==> Masked(t).items[p] == wanted.items[p]
      {
        assert p != EVIDENCE ==> (p in Masked(t).items <==> p in Masked(rest).items);
      }
      assert Masked(t).items == wanted.items;
    }
    if EVIDENCE !in source.items && EVIDENCE in t.items && t.items[EVIDENCE].mode == 384 && Masked(t) == wanted {
      assert Masked(t).items[EVIDENCE] == wanted.items[EVIDENCE];
      forall p
        ensures p in Masked(rest).items <==> p in source.items
        ensures p in source.items ==> Masked(rest).items[p] == Hardened(source.items)[p]
      {
        assert p in Masked(t).items <==> p in wanted.items;
      }
      assert Masked(rest).items == Hardened(source.items);
    }
  }

  lemma PublishedConserved(m: Plan, p: Places)
    requires ValidPlan(m) && p.root == m.target && p.staging.None?
    requires IsSource(p.backup, m.source) && Shielded(p.backup.value)
    ensures Conserved(m, p)
  {
  }

  /** With the target in place and the legacy vault staged under any modes, nothing is lost. */
  lemma AlikeConserved(m: Plan, p: Places)
    requires Exposed(m, p)
    ensures Conserved(m, p)
  {
  }

  /** The same with the evidence file beside it, or with the legacy vault moved to its backup. */
  lemma SomewhereConserved(m: Plan, p: Places)
    requires ValidPlan(m) && p.root == m.target && !p.autoDelete
    requires || (IsSource(p.staging, m.source) && p.backup.None?)
             || (IsSource(p.backup, m.source) && p.staging.None? && Shielded(p.backup.value))
    ensures Conserved(m, p)
  {
  }

  lemma InPlaceConserved(m: Plan, p: Places)
    requires ValidPlan(m) && p.root == m.source && p.staging == Some(m.target) && p.backup.None?
    ensures Conserved(m, p)
  {
  }

  /** Once the legacy vault's own evidence file is gone from its only place, it is not whole anywhere. */
  lemma LostConserved(m: Plan, p: Places)
    requires ValidPlan(m) && p.root == m.target && p.backup.None? && EVIDENCE in m.source.items
    requires p.staging.Some? && EVIDENCE !in p.staging.value.items
    ensures !Conserved(m, p)
  {
  }
}
