/**
  The code that publishes, recovers and finishes a projection reset, on a vault whose every
  system call may fail.

  Each method says two things.  On any disk at all, tampered with or not: which errors it
  returns and what it has changed by then.  On the disk of a reset `r` that was published and
  interrupted: every change it makes is a step of the protocol of `ResetProtocol`, so that all
  that is proved of runs there holds of this code wherever its process dies; and if no system
  call fails, how far it gets.
 */
module ResetStore {
  import opened Wrappers
  import opened Faults
  import opened FileTree
  import opened Modes
  import opened Quarantine
  import opened Marker
  import opened ResetProtocol
  import opened ResetProgress
  import opened ResetChecks
  import opened ResetHistory

  /** The error of an interrupted removal. */
  function CleanupError(e: ErrorKind, mutated: bool): (r: ResetError)
    ensures r != Indeterminate ==> !mutated
  {
    if mutated then Indeterminate
    else if e == InvalidData || e == NotFound then ManualIntervention
    else Unavailable
  }

  /** Something of the quarantined tree is gone, or restricted. */
  predicate Shrunk(root: Tree, d: Disk) {
    && d.container.Some?
    && (d.container.value.pair.Some? ==> Weight(d.container.value.pair.value) < Weight(root))
  }

  lemma SameTopologyGenuine(d: Disk, e: Disk, m: Marker)
    requires e.live == d.live && e.container == d.container
    ensures TopologyGenuine(d, m) <==> TopologyGenuine(e, m)
  {
  }

  lemma SameLive(d: Disk, e: Disk, m: Marker)
    requires e.live == d.live
    ensures LiveGenuine(d, m) <==> LiveGenuine(e, m)
  {
  }

  /** No directory lists a name twice: true of every file system. */
  predicate Listed(d: Disk) {
    && (d.live.Some? ==> WellNamed(d.live.value))
    && (d.container.Some? && d.container.value.pair.Some? ==> WellNamed(d.container.value.pair.value))
  }

  /** Nothing of the markers is left to tidy up, and the old tree is still there. */
  predicate QuarantineHolds(d: Disk) {
    d.transition.None? && d.container.Some? && d.container.value.pair.Some?
  }

  lemma NotStrict(r: Reset, h0: seq<Store>, h1: seq<Store>)
    requires |h0| > 0 && InMaintenance(r, h0[|h0| - 1]) && h0[|h0| - 1].disk.transition.None?
    requires PreparedMayReturn(r, h0[|h0| - 1]) && Unsynced(h0, h1)
    ensures !Path(r, h0, h1, true)
  {
    FactsCoherent(r);
    hide Facts, Path, PreparedMayReturn, Unsynced, Resumable;
    UnsyncedNotStrict(r, h0, h1);
  }

  /** The clean pair is live, as it was sealed, and the old entry is set aside, as it was fingerprinted. */
  predicate Recovered(d: Disk, b: Binding) {
    && d.live.Some? && SealedPair(d.live.value, b)
    && d.container.Some? && d.container.value.pair.Some?
    && LiveFingerprint(d.container.value.pair.value) == Some(b.liveFingerprint)
  }

  /** The old entry is live, as it was fingerprinted, and the clean pair is staged, as it was sealed. */
  predicate Unexchanged(d: Disk, b: Binding) {
    && d.live.Some? && LiveFingerprint(d.live.value) == Some(b.liveFingerprint)
    && d.container.Some? && d.container.value.pair.Some? && SealedPair(d.container.value.pair.value, b)
  }

  /** The container is the private directory that a marker names. */
  predicate Enclosed(d: Disk, b: Binding) {
    && d.container.Some? && d.container.value.mode == 448
    && b.container == Render(EntryIdentity(d.container.value.id.device, d.container.value.id.inode, 448, 1))
  }

  /** A file holds exactly this marker, and the marker is valid. */
  predicate Names(f: Option<MarkerFile>, m: Marker) {
    f == Some(Readable(m)) && ValidMarker(m)
  }

  /** The vault root is synced in state `n`, and holds what it does in `s`. */
  ghost predicate SyncedAt(h: seq<Store>, n: nat, s: Store) {
    n < |h| && h[n] == VaultSynced(s)
  }

  /**
    Owner of the claims of a reset in maintenance: the Applied marker and the open quarantine
    directory, if there is one.
   */
  datatype Capability = Capability(marker: Marker, container: Option<Identity>)

  /** The staged pair is in its private container beside its seal, and is what was sealed. */
  predicate Sealed(d: Disk, target: Target) {
    && target.seal.Some? && d.container.Some? && d.container.value.pair.Some?
    && var (seal, c, pair) := (target.seal.value, d.container.value, d.container.value.pair.value);
    && seal.hash == SealDigest(seal.payload) && seal.payload.schema == SEAL_SCHEMA && seal.payload.artifactCount == 0
    && c.id == target.container && c.mode == 448 && c.seal == Some(ReadableSeal(seal))
    && pair.Dir? && pair.mode == 448 && pair.id == target.pair
    && PairDigest(pair) == Some(seal.payload.treeDigest)
    && ActivePointerDigest(pair) == Some(seal.payload.activeDigest)
  }

  /** Nothing is live where nothing was expected, or the entry that was fingerprinted. */
  predicate Expected(d: Disk, target: Target) {
    if target.replace then
      && d.live.Some? && target.expectedLive == Some(EntryIdentityOf(d.live.value))
      && target.fingerprint.Some? && target.fingerprint == LiveFingerprint(d.live.value)
      && target.reason.Some? && target.transaction.Some?
    else d.live.None? && target.expectedLive.None?
  }

  /** All that an attempt to finish has found before it changes anything. */
  predicate Examined(d: Disk, cap: Capability) {
    && d.active == Some(Readable(cap.marker)) && LiveGenuine(d, cap.marker)
    && (cap.container.Some? ==> ContainerExamined(d, cap))
  }

  predicate ContainerExamined(d: Disk, cap: Capability)
    requires cap.container.Some?
  {
    && d.container.Some?
    && var c := d.container.value;
    && c.id == cap.container.value && c.mode == 448
    && (c.seal.Some? ==> c.seal.value.ReadableSeal? && SealBound(c.seal.value.seal, cap.marker.payload.phase.binding))
    && (c.pair.Some? ==>
          c.seal.Some? && QuarantineGenuine(cap.marker, c.pair.value) && QuarantineAcceptable(c.pair.value))
  }

  /** A staged projection pair and what it may replace. */
  datatype Target = Target(
    replace: bool, container: Identity, pair: Identity, stagingName: string, seal: Option<Seal>,
    expectedLive: Option<EntryIdentity>, fingerprint: Option<Digest>,
    reason: Option<string>, transaction: Option<string>)

  datatype Publication =
    | ReadyStorage
    | InMaintenanceWith(capability: Capability)
    | FailedIo
    | PublishedButUnsynced

  class Vault {
    const io: Io
    /** What every process sees. */
    var disk: Disk
    /** Whether the projection claims are set in this process. */
    var claimed: bool
    /** Whether dropping the publication target deletes its container. */
    var autoDelete: bool
    /** What is seen and what is durable, now and after every change so far. */
    ghost var store: Store
    ghost var history: seq<Store>

    ghost predicate Valid()
      reads this
    {
      && |history| > 0 && history[|history| - 1] == store && store.disk == disk
      && Listed(disk)
    }

    /** A process opens a vault it finds in some state. */
    constructor (io: Io, d: Disk, ghost s: Store)
      requires s.disk == d
      requires Listed(d)
      ensures Valid() && this.io == io && disk == d && store == s && history == [s] && !claimed && autoDelete
    {
      this.io := io;
      disk, store, history, claimed, autoDelete := d, s, [s], false, true;
    }

    // -------------------------------------------------------------------------------------
    // System calls
    // -------------------------------------------------------------------------------------

    /** One system call that changes the vault to `next`, unless `obstacle` prevents it or it fails. */
    method Do(d: Disk, ghost next: Store, obstacle: Option<ErrorKind>) returns (e: Option<ErrorKind>)
      requires Valid() && next.disk == d
      requires Listed(d)
      modifies `disk, `store, `history, io
      ensures Valid()
      ensures old(io.faulted) ==> io.faulted
      ensures e.Some? ==> disk == old(disk) && store == old(store) && history == old(history)
      ensures e.None? ==>
                && obstacle.None? && io.faulted == old(io.faulted)
                && store == next && history == old(history) + [next]
      ensures !io.faulted ==> e == obstacle
    {
      e := io.Check(obstacle);
      if e.None? {
        disk, store := d, next;
        history := history + [next];
      }
    }

    method SyncVaultDirectory() returns (e: Option<ErrorKind>)
      requires Valid()
      modifies `disk, `store, `history, io
      ensures Valid() && disk == old(disk)
      ensures old(io.faulted) ==> io.faulted
      ensures e.Some? ==> store == old(store) && history == old(history)
      ensures e.None? ==>
                && io.faulted == old(io.faulted)
                && store == VaultSynced(old(store)) && history == old(history) + [store]
      ensures !io.faulted ==> e.None?
    {
      e := Do(disk, VaultSynced(store), None);
    }

    method SyncContainerDirectory() returns (e: Option<ErrorKind>)
      requires Valid()
      modifies `disk, `store, `history, io
      ensures Valid() && disk == old(disk)
      ensures old(io.faulted) ==> io.faulted
      ensures e.Some? ==> store == old(store) && history == old(history)
      ensures e.None? ==>
                && disk.container.Some? && io.faulted == old(io.faulted)
                && store == ContainerSynced(old(store)) && history == old(history) + [store]
      ensures !io.faulted && disk.container.Some? ==> e.None?
    {
      if disk.container.None? {
        return Some(NotFound);
      }
      e := Do(disk, ContainerSynced(store), None);
    }

    /** A read-only check whose failure to read is reported as unavailable storage. */
    method Inspect(verdict: Option<ResetError>) returns (e: Option<ResetError>)
      modifies io
      ensures old(io.faulted) ==> io.faulted
      ensures e.None? ==> verdict.None? && io.faulted == old(io.faulted)
      ensures e == verdict || e == Some(Unavailable)
      ensures !io.faulted ==> e == verdict
    {
      var fault := io.Try();
      if fault.Some? {
        return Some(Unavailable);
      }
      return verdict;
    }

    // -------------------------------------------------------------------------------------
    // Maintenance
    // -------------------------------------------------------------------------------------

    /** Removes the transition file that the exchange of the markers left behind. */
    method ResolveTransition(m: Marker, ghost r: Reset, ghost strict: bool) returns (res: Result<bool, ResetError>)
      requires Valid()
      modifies `disk, `store, `history, io
      ensures Valid()
      ensures old(io.faulted) ==> io.faulted
      ensures res.Success? ==> io.faulted == old(io.faulted)
      ensures res.Success? || disk != old(disk) ==> disk == old(disk).(transition := None)
      ensures res.Success? ==> res.value == old(disk).transition.Some?
      ensures old(disk).transition.None? ==> store == old(store) && history == old(history)
      ensures res == Success(true) ==> |store.vaultLog| == 1
      ensures res.Failure? ==> if res.error == Indeterminate then disk != old(disk) else disk == old(disk)
      ensures res == Failure(ManualIntervention) ==>
                && old(disk).transition.Some? && old(disk).transition != Some(OtherSchema)
                && !Names(old(disk).transition, RebuildPrepared(m))
      ensures disk != old(disk) ==> old(disk).transition == Some(Readable(RebuildPrepared(m)))
      ensures !io.faulted && res.Failure? ==>
                res.error == if old(disk).transition == Some(OtherSchema) then UnsupportedFormat else ManualIntervention
      ensures m == r.applied && InMaintenance(r, old(store)) ==>
                && Path(r, old(history), history, strict) && InMaintenance(r, store)
                && (!io.faulted ==> res.Success?)
    {
      hide Facts, Holds, Maintenance, Path, RebuildPrepared, ValidMarker;
      ghost var known := m == r.applied && InMaintenance(r, store);
      PathRefl(r, history, strict);
      var e := io.Try();
      if e.Some? {
        return Failure(Unavailable);
      }
      if disk.transition.None? {
        return Success(false);
      }
      if known {
        MaintenanceEvidence(r, store);
        DidUnlinkTransition(r, history, history, strict);
        DidSyncVault(r, history, history + [PutTransition(store, None)], strict);
      }
      var prepared := RebuildPrepared(m);
      var v := Inspect(EvidenceVerdict(disk.transition, prepared));
      if v.Some? {
        return Failure(v.value);
      }
      e := Do(disk.(transition := None), PutTransition(store, None), None);
      if e.Some? {
        return Failure(Unavailable);
      }
      e := SyncVaultDirectory();
      if e.Some? {
        return Failure(Indeterminate);
      }
      return Success(true);
    }

    /** Removes what is left of the old tree, entry by entry, and then its name in the container. */
    method CleanupQuarantine(m: Marker, ghost r: Reset, ghost strict: bool) returns (e: Option<ResetError>)
      requires Valid()
      modifies `disk, `store, `history, io
      ensures Valid()
      ensures old(io.faulted) ==> io.faulted
      ensures e.None? ==>
                && io.faulted == old(io.faulted) && old(disk).container.Some?
                && disk == old(disk).(container := Some(old(disk).container.value.(pair := None)))
                && |store.containerLog| == 1
                && old(disk).container.value.pair.Some? && QuarantineAcceptable(old(disk).container.value.pair.value)
      ensures e.Some? ==> if e.value == Indeterminate then disk != old(disk) else disk == old(disk)
      ensures disk.container.Some? ==> disk == old(disk).(container := disk.container)
      ensures disk.container.Some? <==> old(disk).container.Some?
      ensures store.vaultLog == old(store).vaultLog
      ensures !io.faulted ==> e != Some(Unavailable)
      ensures m == r.applied && Removing(r, old(store), strict) ==>
                && Path(r, old(history), history, strict) && InMaintenance(r, store)
                && (strict ==> !PreparedMayReturn(r, store))
                && (!io.faulted && QuarantineAcceptable(r.former) ==> e.None?)
    {
      hide Facts, Holds, Maintenance, Path, QuarantineIdentityVerdict, PreparedMayReturn, Chain;
      ghost var known := m == r.applied && Removing(r, store, strict);
      PathRefl(r, history, strict);
      if known {
        MaintenanceContainer(r, store);
      }
      var verdict := if disk.container.None? || disk.container.value.pair.None? then Some(NotFound)
      else QuarantineIdentityVerdict(m, disk.container.value.pair.value);
      var k := io.Check(verdict);
      if k.Some? {
        if disk.container.Some? && disk.container.value.pair.Some? {
          QuarantineExact(m, disk.container.value.pair.value);
        }
        return Some(CleanupError(k.value, false));
      }
      var c := disk.container.value;
      var root := c.pair.value;
      var mutated := false;
      if root.Dir? {
        if root.mode == 0 {
          return Some(ManualIntervention);
        }
        k, mutated := EmptyQuarantine(root, r, strict);
        if k.Some? {
          return Some(CleanupError(k.value, mutated));
        }
      }
      if known {
        RemovingDirty(r, store, strict);
      }
      ghost var h := history;
      e := RemoveQuarantineName(mutated, r, strict);
      if known {
        PathTrans(r, old(history), h, history, strict);
      }
    }

    /** Removes the name of the emptied tree and syncs the container. */
    method RemoveQuarantineName(mutated: bool, ghost r: Reset, ghost strict: bool) returns (e: Option<ResetError>)
      requires Valid() && disk.container.Some? && disk.container.value.pair.Some?
      requires Removable(disk.container.value.pair.value)
      modifies `disk, `store, `history, io
      ensures Valid()
      ensures old(io.faulted) ==> io.faulted
      ensures e.None? ==>
                io.faulted == old(io.faulted) && |store.containerLog| == 1
      ensures e.None? || disk != old(disk) ==>
                disk == old(disk).(container := Some(old(disk).container.value.(pair := None)))
      ensures e.Some? && e.value != Indeterminate ==> !mutated && disk == old(disk)
      ensures e == Some(Indeterminate) ==> mutated || disk != old(disk)
      ensures !io.faulted ==> e.None?
      ensures store.vaultLog == old(store).vaultLog
      ensures Removing(r, old(store), strict) && old(store).dirty == {} ==>
                && Path(r, old(history), history, strict) && InMaintenance(r, store)
                && (strict ==> !PreparedMayReturn(r, store))
                && (!io.faulted ==> e.None?)
    {
      hide Facts, Holds, Maintenance, Path, PreparedMayReturn;
      PathRefl(r, history, strict);
      if Removing(r, store, strict) && store.dirty == {} {
        DidRemovePair(r, history, history, strict);
        DidSyncContainer(r, history, history + [DropPair(store)], strict);
        KeepsPrepared(r, store, strict);
      }
      var k := Do(disk.(container := Some(disk.container.value.(pair := None))), DropPair(store), None);
      if k.Some? {
        return Some(CleanupError(k.value, mutated));
      }
      k := SyncContainerDirectory();
      if k.Some? {
        return Some(Indeterminate);
      }
      return None;
    }

    /** Restricts and empties the quarantined directory in place. */
    method EmptyQuarantine(root: Tree, ghost r: Reset, ghost strict: bool) returns (k: Option<ErrorKind>, mutated: bool)
      requires Valid() && disk.container.Some? && disk.container.value.pair == Some(root)
      requires root.Dir? && root.mode != 0
      modifies `disk, `store, `history, io
      ensures Valid()
      ensures old(io.faulted) ==> io.faulted
      ensures if mutated then Shrunk(root, disk) else disk == old(disk)
      ensures disk.container.Some?
      ensures disk == old(disk).(container := Some(old(disk).container.value.(pair := disk.container.value.pair)))
      ensures k.None? ==>
                && io.faulted == old(io.faulted)
                && disk.container.value.pair.Some? && Removable(disk.container.value.pair.value)
                && QuarantineAcceptable(root)
      ensures !io.faulted && k.Some? ==> k.value == InvalidData
      ensures store.containerLog == old(store).containerLog && store.vaultLog == old(store).vaultLog
      ensures Removing(r, old(store), strict) ==>
                && Path(r, old(history), history, strict) && Removing(r, store, strict)
                && (k.None? ==> store.dirty == {})
                && (!io.faulted && QuarantineAcceptable(root) ==> k.None?)
    {
      hide Facts, Holds, Maintenance, Path, PreparedMayReturn;
      PathRefl(r, history, strict);
      var rest, visited;
      ghost var dirty, steps;
      ghost var outer := if store.dirty <= DirectoryIds(root) then {} else store.dirty;
      k, rest, visited, mutated, dirty, steps := EmptyChild(io, root, root.id.device, 0, 0, store.dirty, outer);
      if Removing(r, store, strict) {
        RemovingDirty(r, store, strict);
        Removed(r, history, history, steps, strict);
      }
      history := history + Embed(store, steps)[1..];
      store := PutQuarantine(store, Quarantined(rest, dirty));
      disk := disk.(container := Some(disk.container.value.(pair := Some(rest))));
    }

    /** Unlinks the seal and syncs the container. */
    method RemoveSealFile(expected: Seal, ghost r: Reset, ghost strict: bool) returns (e: Option<ResetError>)
      requires Valid() && disk.container.Some? && disk.container.value.seal.Some?
      modifies `disk, `store, `history, io
      ensures Valid()
      ensures old(io.faulted) ==> io.faulted
      ensures e.None? ==>
                io.faulted == old(io.faulted) && |store.containerLog| == 1
      ensures e.None? || disk != old(disk) ==>
                disk == old(disk).(container := Some(old(disk).container.value.(seal := None)))
      ensures e.Some? ==> if e.value == Indeterminate then disk != old(disk) else disk == old(disk)
      ensures e == Some(ManualIntervention) ==> old(disk).container.value.seal != Some(ReadableSeal(expected))
      ensures disk != old(disk) ==> old(disk).container.value.seal == Some(ReadableSeal(expected))
      ensures expected == r.seal && Emptied(r, old(store), strict) ==>
                && Path(r, old(history), history, strict) && InMaintenance(r, store)
                && (strict ==> !PreparedMayReturn(r, store))
                && (!io.faulted ==> e.None?)
    {
      hide Facts, Holds, Maintenance, Path, PreparedMayReturn;
      PathRefl(r, history, strict);
      if expected == r.seal && Emptied(r, store, strict) {
        MaintenanceContainer(r, store);
        DidRemoveSeal(r, history, history, strict);
        DidSyncContainer(r, history, history + [DropSeal(store)], strict);
        KeepsPrepared(r, store, strict);
        KeepsPrepared(r, DropSeal(store), strict);
      }
      e := Inspect(
        if disk.container.value.seal == Some(ReadableSeal(expected)) then None else Some(ManualIntervention));
      if e.Some? {
        return;
      }
      var k := Do(disk.(container := Some(disk.container.value.(seal := None))), DropSeal(store), None);
      if k.Some? {
        return Some(Unavailable);
      }
      k := SyncContainerDirectory();
      if k.Some? {
        return Some(Indeterminate);
      }
    }

    /** Removes the empty container from the vault root and syncs the vault root. */
    method RemoveContainerDirectory(expected: Identity, ghost r: Reset, ghost strict: bool)
      returns (e: Option<ResetError>)
      requires Valid()
      modifies `disk, `store, `history, io
      ensures Valid()
      ensures old(io.faulted) ==> io.faulted
      ensures e.None? ==> io.faulted == old(io.faulted) && old(disk).container.Some? && |store.vaultLog| == 1
      ensures e.None? || disk != old(disk) ==> disk == old(disk).(container := None)
      ensures e.Some? ==> if e.value == Indeterminate then disk != old(disk) else disk == old(disk)
      ensures e == Some(ManualIntervention) ==>
                && old(disk).container.Some?
                && !(old(disk).container.value.id == expected && old(disk).container.value.mode == 448)
      ensures disk != old(disk) ==>
                && old(disk).container.Some?
                && old(disk).container == Some(Container(expected, PRIVATE_DIRECTORY, None, None, false))
      ensures expected == r.container && Emptied(r, old(store), strict) && old(disk).container.value.seal.None? ==>
                && Path(r, old(history), history, strict) && InMaintenance(r, store)
                && (!io.faulted ==> e.None?)
    {
      hide Facts, Holds, Maintenance, Path, PreparedMayReturn;
      PathRefl(r, history, strict);
      if expected == r.container && Emptied(r, store, strict) && disk.container.value.seal.None? {
        MaintenanceContainer(r, store);
        DidRemoveContainer(r, history, history, strict);
        DidSyncVault(r, history, history + [DropContainer(store)], strict);
      }
      e := Inspect(
        if disk.container.None? then Some(Unavailable)
        else if disk.container.value.id != expected || disk.container.value.mode != PRIVATE_DIRECTORY then
          Some(ManualIntervention)
        else None);
      if e.Some? {
        return;
      }
      var c := disk.container.value;
      var k := Do(disk.(container := None), DropContainer(store),
                  if c.pair.Some? || c.seal.Some? || c.others then Some(Other) else None);
      if k.Some? {
        return Some(Unavailable);
      }
      k := SyncVaultDirectory();
      if k.Some? {
        return Some(Indeterminate);
      }
    }

    /** Unlinks the active marker: the last change of a reset. */
    method ClearActiveMarker(m: Marker, ghost r: Reset, ghost strict: bool) returns (e: Option<ResetError>)
      requires Valid()
      modifies `disk, `store, `history, io
      ensures Valid()
      ensures old(io.faulted) ==> io.faulted
      ensures e.None? ==> io.faulted == old(io.faulted) && |store.vaultLog| == 1
      ensures e.None? || disk != old(disk) ==> disk == old(disk).(active := None)
      ensures e.Some? ==> if e.value == Indeterminate then disk != old(disk) else disk == old(disk)
      ensures e == Some(ManualIntervention) ==>
                old(disk).active.Some? && old(disk).active != Some(OtherSchema) && !Names(old(disk).active, m)
      ensures disk != old(disk) ==>
                && old(disk).active == Some(Readable(m))
                && m.payload.schema == "plico.projection.reset-marker/v1" && m.hash == MarkerDigest(m.payload)
      ensures !io.faulted && e.Some? && old(disk).active.Some? ==>
                e.value == if old(disk).active == Some(OtherSchema) then UnsupportedFormat else ManualIntervention
      ensures && m == r.applied && InMaintenance(r, old(store))
              && old(disk).transition.None? && old(disk).container.None? && |old(store).vaultLog| == 1
              ==>
                && Path(r, old(history), history, strict) && Holds(r, store)
                && (InMaintenance(r, store) || Done(r, disk))
                && (e.None? ==> Done(r, disk))
                && (!io.faulted ==> e.None?)
    {
      hide Facts, Resumable, Maintenance, Path, ClearVerdict;
      PathRefl(r, history, strict);
      if && m == r.applied && InMaintenance(r, store)
         && disk.transition.None? && disk.container.None? && |store.vaultLog| == 1 {
        MaintenanceFacts(r, store);
        DidClearMarker(r, history, history, strict);
        DidSyncVault(r, history, history + [PutActive(store, None)], strict);
      }
      ClearExact(disk.active, m);
      e := Inspect(ClearVerdict(disk.active, m));
      if e.Some? {
        return;
      }
      var k := Do(disk.(active := None), PutActive(store, None), None);
      if k.Some? {
        return Some(Unavailable);
      }
      k := SyncVaultDirectory();
      if k.Some? {
        return Some(Indeterminate);
      }
    }

    /** The quarantined entry is the one the marker names, and the traversal accepts it. */
    method CheckQuarantine(m: Marker, root: Tree) returns (k: Option<ErrorKind>)
      modifies io
      ensures old(io.faulted) ==> io.faulted
      ensures k.None? ==> QuarantineVerdict(m, root).None? && io.faulted == old(io.faulted)
      ensures !io.faulted ==> k == QuarantineVerdict(m, root)
    {
      hide QuarantineIdentityVerdict, QuarantineAcceptable;
      k := io.Check(QuarantineIdentityVerdict(m, root));
      if k.None? {
        k := ValidateQuarantine(io, root);
      }
    }

    /** Reads the whole protocol state without changing it. */
    method Preflight(m: Marker) returns (e: Option<OpenError>)
      requires Valid()
      modifies io
      ensures old(io.faulted) ==> io.faulted
      ensures e.None? ==> PreflightVerdict(disk, m).None? && io.faulted == old(io.faulted)
      ensures e.Some? ==> e.value in {IoError, UnsupportedProjectionFormat, ResetManualIntervention}
      ensures !io.faulted ==> e == PreflightVerdict(disk, m)
    {
      hide LayoutVerdict, QuarantineAcceptable;
      var fault := io.Try();
      if fault.Some? {
        return Some(IoError);
      }
      e := LayoutVerdict(disk, m);
      if e.Some? || !Traversed(disk, m) {
        return;
      }
      var root := disk.container.value.pair.value;
      var k := CheckQuarantine(m, root);
      if k.Some? {
        return Some(if PreMutation(k.value) == ManualIntervention then ResetManualIntervention else IoError);
      }
      return None;
    }

    // -------------------------------------------------------------------------------------
    // Finishing
    // -------------------------------------------------------------------------------------

    /** The capability is the one a process holds for reset `r` as it stands. */
    ghost predicate Ready(r: Reset, cap: Capability)
      reads this
    {
      && InMaintenance(r, store) && cap.marker == r.applied
      && cap.container == (if disk.container.Some? then Some(r.container) else None)
    }

    /** The checks before the first change of an attempt; they sync the container but change nothing. */
    method FinishChecks(cap: Capability, ghost r: Reset, ghost strict: bool)
      returns (res: Result<(Option<Seal>, bool), ResetError>)
      requires Valid()
      modifies `disk, `store, `history, io
      ensures Valid() && disk == old(disk) && store.vaultLog == old(store).vaultLog
      ensures old(io.faulted) ==> io.faulted
      ensures res.Failure? ==> res.error != Indeterminate
      ensures !io.faulted && res.Failure? ==>
                res.error == ManualIntervention || (res.error == UnsupportedFormat && Foreign(disk))
      ensures res.Success? && cap.container.None? ==> res.value == (None, false)
      ensures res.Success? && cap.container.Some? ==>
                && |store.containerLog| == 1
                && disk.container.Some? && disk.container.value.id == cap.container.value
                && disk.container.value.seal ==
                   (if res.value.0.Some? then Some(ReadableSeal(res.value.0.value)) else None)
                && res.value.1 == disk.container.value.pair.Some?
      ensures res.Success? ==> io.faulted == old(io.faulted) && Examined(disk, cap)
      ensures IsAltered(r, old(disk)) && cap.marker == r.applied ==>
                res.Failure? && (!io.faulted ==> res.error == ManualIntervention)
      ensures old(Ready(r, cap)) ==>
                && Path(r, old(history), history, strict) && Ready(r, cap)
                && (!io.faulted && QuarantineAcceptable(r.former) ==> res.Success?)
                && (res.Success? && res.value.0.Some? ==> res.value.0.value == r.seal)
    {
      hide Facts, Holds, Maintenance, Path, PreflightVerdict, QuarantineAcceptable, LiveVerdict, IsAltered;
      hide LiveGenuine, ContainerExamined, SealVerdict, LayoutGenuine, Foreign;
      PathRefl(r, history, strict);
      if Ready(r, cap) {
        MaintenanceFacts(r, store);
        if disk.container.Some? {
          MaintenanceContainer(r, store);
        }
        if QuarantineAcceptable(r.former) {
          MaintenancePreflight(r, store);
        }
      }
      if IsAltered(r, disk) {
        AlteredRead(r, disk);
      }
      LiveExact(disk, cap.marker, None);
      PreflightExact(disk, cap.marker);
      var k := io.Check(if disk.active == Some(Readable(cap.marker)) then None
                        else if disk.active.None? then Some(NotFound) else Some(InvalidData));
      if k.Some? {
        return Failure(PreMutation(k.value));
      }
      var p := Preflight(cap.marker);
      if p.Some? {
        return Failure(match p.value
                       case UnsupportedProjectionFormat => UnsupportedFormat
                       case IoError => Unavailable
                       case _ => ManualIntervention);
      }
      if !cap.marker.payload.phase.Applied? {
        return Failure(ManualIntervention);
      }
      if cap.container.Some? {
        res := SurveyContainer(cap, r, strict);
      } else {
        k := io.Check(LiveVerdict(disk, cap.marker, None));
        if k.Some? {
          return Failure(PreMutation(k.value));
        }
        return Success((None, false));
      }
    }

    /** The checks of the open quarantine directory. */
    method SurveyContainer(cap: Capability, ghost r: Reset, ghost strict: bool)
      returns (res: Result<(Option<Seal>, bool), ResetError>)
      requires Valid() && cap.container.Some?
      modifies `disk, `store, `history, io
      ensures Valid() && disk == old(disk) && store.vaultLog == old(store).vaultLog
      ensures old(io.faulted) ==> io.faulted
      ensures res.Failure? ==> res.error != Indeterminate
      ensures !io.faulted && res.Failure? ==>
                res.error == ManualIntervention || (res.error == UnsupportedFormat && Foreign(disk))
      ensures res.Success? ==>
                && io.faulted == old(io.faulted) && |store.containerLog| == 1
                && disk.container.Some? && disk.container.value.id == cap.container.value
                && disk.container.value.seal ==
                   (if res.value.0.Some? then Some(ReadableSeal(res.value.0.value)) else None)
                && res.value.1 == disk.container.value.pair.Some?
                && LiveGenuine(disk, cap.marker) && ContainerExamined(disk, cap)
      ensures IsAltered(r, old(disk)) && cap.marker == r.applied && old(disk).active == AppliedFile(r) ==>
                res.Failure? && (!io.faulted ==> res.error == ManualIntervention)
      ensures old(Ready(r, cap)) ==>
                && Path(r, old(history), history, strict) && Ready(r, cap)
                && (!io.faulted && QuarantineAcceptable(r.former) ==> res.Success?)
                && (res.Success? && res.value.0.Some? ==> res.value.0.value == r.seal)
    {
      hide Facts, Holds, Maintenance, Path, QuarantineAcceptable, LiveVerdict, QuarantineIdentityVerdict, ValidSeal;
      hide IsAltered, LiveGenuine, SealBound, QuarantineGenuine;
      PathRefl(r, history, strict);
      if Ready(r, cap) {
        MaintenanceFacts(r, store);
        MaintenanceContainer(r, store);
        DidSyncContainer(r, history, history, strict);
      }
      if IsAltered(r, disk) && disk.active == AppliedFile(r) {
        AlteredRead(r, disk);
      }
      var k := io.Check(
        if disk.container.None? then Some(NotFound)
        else if disk.container.value.mode != PRIVATE_DIRECTORY then Some(Denied(false))
        else if disk.container.value.id != cap.container.value then Some(InvalidData)
        else None);
      if k.Some? {
        return Failure(PreMutation(k.value));
      }
      k := SyncContainerDirectory();
      if k.Some? {
        return Failure(PreMutation(k.value));
      }
      var c := disk.container.value;
      var v := Inspect(if c.seal.None? then None else SealVerdict(c.seal.value));
      if v.Some? {
        return Failure(v.value);
      }
      var seal := if c.seal.Some? then Some(c.seal.value.seal) else None;
      res := SurveyContents(cap, seal, r);
    }

    /** The checks of the live pair, the seal and the quarantined entry; they change nothing. */
    method SurveyContents(cap: Capability, seal: Option<Seal>, ghost r: Reset)
      returns (res: Result<(Option<Seal>, bool), ResetError>)
      requires Valid() && cap.container.Some? && disk.container.Some?
      requires disk.container.value.id == cap.container.value && disk.container.value.mode == PRIVATE_DIRECTORY
      requires disk.container.value.seal == (if seal.Some? then Some(ReadableSeal(seal.value)) else None)
      modifies io
      ensures old(io.faulted) ==> io.faulted
      ensures res.Failure? ==> res.error != Indeterminate
      ensures !io.faulted && res.Failure? ==> res.error == ManualIntervention
      ensures res.Success? ==>
                && io.faulted == old(io.faulted) && res.value == (seal, disk.container.value.pair.Some?)
                && LiveGenuine(disk, cap.marker) && ContainerExamined(disk, cap)
      ensures LiveVerdict(disk, cap.marker, seal) == Some(InvalidData) ==>
                res.Failure? && (!io.faulted ==> res.error == ManualIntervention)
      ensures && Ready(r, cap) && (seal.Some? ==> seal.value == r.seal)
              && !io.faulted && QuarantineAcceptable(r.former)
              ==> res.Success?
    {
      hide Facts, Holds, Maintenance, QuarantineAcceptable, LiveVerdict, QuarantineIdentityVerdict;
      hide LiveGenuine, SealBound, QuarantineGenuine;
      if Ready(r, cap) {
        MaintenanceFacts(r, store);
        MaintenanceContainer(r, store);
      }
      var c := disk.container.value;
      if c.pair.Some? && seal.None? {
        return Failure(ManualIntervention);
      }
      LiveExact(disk, cap.marker, seal);
      var k := io.Check(LiveVerdict(disk, cap.marker, seal));
      if k.Some? {
        return Failure(PreMutation(k.value));
      }
      if c.pair.Some? {
        QuarantineExact(cap.marker, c.pair.value);
        k := CheckQuarantine(cap.marker, c.pair.value);
        if k.Some? {
          return Failure(PreMutation(k.value));
        }
      }
      return Success((seal, c.pair.Some?));
    }

    /**
      First the tree goes; where it is gone already the container is synced, because the process that
      removed it may not have.
     */
    method FinishPair(cap: Capability, pairExists: bool, mutated: bool, ghost r: Reset, ghost strict: bool)
      returns (e: Option<ResetError>)
      requires Valid() && disk.container.Some? && pairExists == disk.container.value.pair.Some?
      modifies `disk, `store, `history, io
      ensures Valid()
      ensures old(io.faulted) ==> io.faulted
      ensures e.None? ==>
                && io.faulted == old(io.faulted)
                && disk == old(disk).(container := Some(old(disk).container.value.(pair := None)))
                && |store.containerLog| == 1
      ensures e.Some? && e.value != Indeterminate ==> !mutated && disk == old(disk)
      ensures e == Some(Indeterminate) ==> mutated || disk != old(disk)
      ensures disk.container.Some? && disk == old(disk).(container := disk.container)
      ensures store.vaultLog == old(store).vaultLog
      ensures old(Ready(r, cap)) && old(disk).transition.None? && (strict ==> !PreparedMayReturn(r, old(store))) ==>
                && Path(r, old(history), history, strict) && InMaintenance(r, store)
                && (e.None? ==> Emptied(r, store, strict))
                && (!io.faulted && QuarantineAcceptable(r.former) ==> e.None?)
    {
      hide Facts, Holds, Maintenance, Path, PreparedMayReturn, QuarantineAcceptable;
      PathRefl(r, history, strict);
      if pairExists {
        var v := CleanupQuarantine(cap.marker, r, strict);
        if v.Some? {
          return Some(AfterBoundary(v.value, mutated));
        }
      } else {
        if Ready(r, cap) && (strict ==> !PreparedMayReturn(r, store)) {
          DidSyncContainer(r, history, history, strict);
          KeepsPrepared(r, store, strict);
        }
        var k := SyncContainerDirectory();
        if k.Some? {
          return Some(IoAfterBoundary(k.value, mutated));
        }
      }
      return None;
    }

    /** Then the seal. */
    method FinishSeal(cap: Capability, seal: Option<Seal>, mutated: bool, ghost r: Reset, ghost strict: bool)
      returns (e: Option<ResetError>)
      requires Valid() && disk.container.Some?
      requires disk.container.value.seal == (if seal.Some? then Some(ReadableSeal(seal.value)) else None)
      modifies `disk, `store, `history, io
      ensures Valid()
      ensures old(io.faulted) ==> io.faulted
      ensures e.None? ==>
                io.faulted == old(io.faulted) && |store.containerLog| == 1
      ensures e.None? || disk != old(disk) ==>
                disk == old(disk).(container := Some(old(disk).container.value.(seal := None)))
      ensures e.Some? && e.value != Indeterminate ==> !mutated && disk == old(disk)
      ensures e == Some(Indeterminate) ==> mutated || disk != old(disk)
      ensures e.None? || disk != old(disk) ==> LiveGenuine(disk, cap.marker)
      ensures cap.marker == r.applied && Emptied(r, old(store), strict) && (seal.Some? ==> seal.value == r.seal) ==>
                && Path(r, old(history), history, strict) && InMaintenance(r, store)
                && (e.None? ==> Emptied(r, store, strict))
                && (!io.faulted ==> e.None?)
    {
      hide Facts, Holds, Maintenance, Path, PreparedMayReturn, LiveVerdict, LiveGenuine;
      PathRefl(r, history, strict);
      if cap.marker == r.applied && Emptied(r, store, strict) {
        MaintenanceFacts(r, store);
      }
      LiveExact(disk, cap.marker, seal);
      SameLive(disk, disk.(container := Some(disk.container.value.(seal := None))), cap.marker);
      var k := io.Check(LiveVerdict(disk, cap.marker, seal));
      if k.Some? {
        return Some(IoAfterBoundary(k.value, mutated));
      }
      if seal.Some? {
        var v := RemoveSealFile(seal.value, r, strict);
        if v.Some? {
          return Some(AfterBoundary(v.value, mutated));
        }
      } else {
        if Emptied(r, store, strict) {
          DidSyncContainer(r, history, history, strict);
          KeepsPrepared(r, store, strict);
        }
        k := SyncContainerDirectory();
        if k.Some? {
          return Some(IoAfterBoundary(k.value, mutated));
        }
      }
      return None;
    }

    /** The tree and then the seal. */
    method FinishContents(
      cap: Capability, seal: Option<Seal>, pairExists: bool, mutated: bool, ghost r: Reset, ghost strict: bool)
      returns (e: Option<ResetError>)
      requires Valid() && disk.container.Some? && pairExists == disk.container.value.pair.Some?
      requires disk.container.value.seal == (if seal.Some? then Some(ReadableSeal(seal.value)) else None)
      modifies `disk, `store, `history, io
      ensures Valid()
      ensures old(io.faulted) ==> io.faulted
      ensures e.None? ==>
                && io.faulted == old(io.faulted)
                && disk == old(disk).(container := Some(old(disk).container.value.(pair := None, seal := None)))
                && |store.containerLog| == 1
      ensures e.Some? && e.value != Indeterminate ==> !mutated && disk == old(disk)
      ensures e == Some(Indeterminate) ==> mutated || disk != old(disk)
      ensures disk.container.Some? && disk == old(disk).(container := disk.container)
      ensures && old(Ready(r, cap)) && old(disk).transition.None? && (strict ==> !PreparedMayReturn(r, old(store)))
              && (seal.Some? ==> seal.value == r.seal)
              ==>
                && Path(r, old(history), history, strict) && InMaintenance(r, store)
                && (e.None? ==> Emptied(r, store, strict))
                && (!io.faulted && QuarantineAcceptable(r.former) ==> e.None?)
                && (pairExists && disk != old(disk) ==> Unsynced(old(history), history))
    {
      hide Facts, Holds, Maintenance, Path, PreparedMayReturn, QuarantineAcceptable, Unsynced, Emptied, LiveGenuine;
      ghost var known := && Ready(r, cap) && disk.transition.None? && (strict ==> !PreparedMayReturn(r, store))
                         && (seal.Some? ==> seal.value == r.seal);
      e := FinishPair(cap, pairExists, mutated, r, strict);
      if known && disk != old(disk) {
        UnsyncedNow(r, old(history), history, strict);
      }
      if e.Some? {
        return;
      }
      ghost var h := history;
      e := FinishSeal(cap, seal, mutated || pairExists, r, strict);
      if known {
        PathTrans(r, old(history), h, history, strict);
        if pairExists {
          UnsyncedLater(r, old(history), h, history, strict);
        }
      }
    }

    /** Everything of the quarantine: tree, seal, container, each durable before the next. */
    method FinishContainer(
      cap: Capability, seal: Option<Seal>, pairExists: bool, mutated: bool, ghost r: Reset, ghost strict: bool)
      returns (e: Option<ResetError>)
      requires Valid() && cap.container.Some? && disk.container.Some? && pairExists == disk.container.value.pair.Some?
      requires disk.container.value.seal == (if seal.Some? then Some(ReadableSeal(seal.value)) else None)
      modifies `disk, `store, `history, io
      ensures Valid()
      ensures old(io.faulted) ==> io.faulted
      ensures e.None? ==>
                && io.faulted == old(io.faulted)
                && disk == old(disk).(container := None) && |store.vaultLog| == 1
      ensures e.Some? && e.value != Indeterminate ==> !mutated && disk == old(disk)
      ensures e == Some(Indeterminate) ==> mutated || disk != old(disk)
      ensures disk == old(disk).(container := disk.container)
      ensures && old(Ready(r, cap)) && old(disk).transition.None? && (strict ==> !PreparedMayReturn(r, old(store)))
              && (seal.Some? ==> seal.value == r.seal)
              ==>
                && Path(r, old(history), history, strict) && InMaintenance(r, store)
                && (!io.faulted && QuarantineAcceptable(r.former) ==> e.None?)
                && (pairExists && disk != old(disk) ==> Unsynced(old(history), history))
    {
      hide Facts, Holds, Maintenance, Path, PreparedMayReturn, QuarantineAcceptable, Unsynced;
      ghost var known := && Ready(r, cap) && disk.transition.None? && (strict ==> !PreparedMayReturn(r, store))
                         && (seal.Some? ==> seal.value == r.seal);
      e := FinishContents(cap, seal, pairExists, mutated, r, strict);
      if e.Some? {
        return;
      }
      ghost var h := history;
      var v := RemoveContainerDirectory(cap.container.value, r, strict);
      if known {
        PathTrans(r, old(history), h, history, strict);
        if pairExists {
          UnsyncedLater(r, old(history), h, history, strict);
        }
      }
      if v.Some? {
        return Some(AfterBoundary(v.value, mutated || pairExists || seal.Some?));
      }
      return None;
    }

    /** One attempt to finish. */
    method FinishInner(cap: Capability, ghost r: Reset, ghost strict: bool) returns (e: Option<ResetError>)
      requires Valid()
      modifies `disk, `store, `history, io
      ensures Valid()
      ensures old(io.faulted) ==> io.faulted
      ensures e.Some? && e.value != Indeterminate ==> disk == old(disk)
      ensures e == Some(Indeterminate) ==> disk != old(disk)
      ensures e.None? ==>
                && disk == old(disk).(active := None, transition := None, container := disk.container)
                && disk.container == (if cap.container.Some? then None else old(disk).container)
                && LiveGenuine(disk, cap.marker) && |store.vaultLog| == 1
      ensures disk != old(disk) ==> Examined(old(disk), cap)
      ensures IsAltered(r, old(disk)) && cap.marker == r.applied ==>
                e.Some? && e.value != Indeterminate && (!io.faulted ==> e == Some(ManualIntervention))
      ensures && old(Ready(r, cap))
              && (strict ==> old(disk).transition.Some? || !PreparedMayReturn(r, old(store)))
              ==>
                && Path(r, old(history), history, strict) && Holds(r, store)
                && (InMaintenance(r, store) || Done(r, disk))
                && (e.None? ==> Done(r, disk))
                && (!io.faulted && QuarantineAcceptable(r.former) ==> e.None?)
                && (QuarantineHolds(old(disk)) && disk != old(disk) ==> Unsynced(old(history), history))
    {
      hide Facts, Resumable, Maintenance, Path, PreparedMayReturn, QuarantineAcceptable, LiveVerdict, Done;
      hide RebuildPrepared, EvidenceVerdict, ClearVerdict, BindingVerdict, Tidy, Coherent, Holds, Unsynced;
      hide IsAltered, Examined, LiveGenuine;
      ghost var known := Ready(r, cap) && (strict ==> disk.transition.Some? || !PreparedMayReturn(r, store));
      var checks := FinishChecks(cap, r, strict);
      if checks.Failure? {
        return Some(checks.error);
      }
      var (seal, pairExists) := checks.value;
      ghost var h1 := history;
      ghost var s1 := store;
      var resolved := ResolveTransition(cap.marker, r, strict);
      if known {
        PathTrans(r, old(history), h1, history, strict);
      }
      if resolved.Failure? {
        return Some(resolved.error);
      }
      if known {
        MaintenanceFacts(r, store);
        SamePrepared(r, old(store), s1);
        if resolved.value {
          SyncedMaintenance(r, store);
        }
      }
      var k := io.Check(LiveVerdict(disk, cap.marker, seal));
      if k.Some? {
        return Some(IoAfterBoundary(k.value, resolved.value));
      }
      ghost var h2 := history;
      e := FinishRest(cap, seal, pairExists, resolved.value, r, strict, old(history), known);
      if known && QuarantineHolds(old(disk)) && disk != old(disk) {
        UnsyncedSince(r, old(history), h2, history, strict);
      }
    }

    /** What remains once the transition file is out of the way. */
    method FinishRest(
      cap: Capability, seal: Option<Seal>, pairExists: bool, mutated: bool,
      ghost r: Reset, ghost strict: bool, ghost h0: seq<Store>, ghost known: bool)
      returns (e: Option<ResetError>)
      requires Valid()
      requires cap.container.Some? ==>
                 && disk.container.Some? && pairExists == disk.container.value.pair.Some?
                 && disk.container.value.seal == (if seal.Some? then Some(ReadableSeal(seal.value)) else None)
      requires known ==>
                 && Path(r, h0, history, strict) && Ready(r, cap) && disk.transition.None?
                 && (strict ==> !PreparedMayReturn(r, store)) && (seal.Some? ==> seal.value == r.seal)
      modifies `disk, `store, `history, io
      ensures Valid()
      ensures old(io.faulted) ==> io.faulted
      ensures e.Some? && e.value != Indeterminate ==> !mutated && disk == old(disk)
      ensures e == Some(Indeterminate) ==> mutated || disk != old(disk)
      ensures disk == old(disk).(active := disk.active, container := disk.container)
      ensures e.None? ==>
                && disk.active.None? && LiveGenuine(disk, cap.marker) && |store.vaultLog| == 1
                && disk.container == (if cap.container.Some? then None else old(disk).container)
      ensures known ==>
                && Path(r, h0, history, strict) && Holds(r, store)
                && (InMaintenance(r, store) || Done(r, disk))
                && (e.None? ==> Done(r, disk))
                && (!io.faulted && QuarantineAcceptable(r.former) ==> e.None?)
                && (cap.container.Some? && pairExists && disk != old(disk) ==> Unsynced(old(history), history))
    {
      hide Facts, Holds, Maintenance, Path, PreparedMayReturn, QuarantineAcceptable, Done, Unsynced, LiveGenuine;
      ghost var h := history;
      if cap.container.Some? {
        e := FinishContainer(cap, seal, pairExists, mutated, r, strict);
        if known {
          PathTrans(r, h0, h, history, strict);
        }
        if e.Some? {
          return;
        }
      } else {
        if known {
          DidSyncVault(r, h0, history, strict);
        }
        var k := SyncVaultDirectory();
        if k.Some? {
          return Some(IoAfterBoundary(k.value, mutated));
        }
      }
      ghost var h1 := history;
      PathRefl(r, history, strict);
      e := FinishMarker(cap, mutated || cap.container.Some?, r, strict, history, known);
      if known {
        PathTrans(r, h0, h1, history, strict);
        if cap.container.Some? && pairExists {
          UnsyncedLater(r, h, h1, history, strict);
        }
      }
    }

    /** Last the marker. */
    method FinishMarker(
      cap: Capability, mutated: bool, ghost r: Reset, ghost strict: bool, ghost h0: seq<Store>, ghost known: bool)
      returns (e: Option<ResetError>)
      requires Valid()
      requires known ==>
                 && Path(r, h0, history, strict) && cap.marker == r.applied && InMaintenance(r, store)
                 && disk.transition.None? && disk.container.None? && |store.vaultLog| == 1
      modifies `disk, `store, `history, io
      ensures Valid()
      ensures old(io.faulted) ==> io.faulted
      ensures e.Some? && e.value != Indeterminate ==> !mutated && disk == old(disk)
      ensures e == Some(Indeterminate) ==> mutated || disk != old(disk)
      ensures e.None? || disk != old(disk) ==> disk == old(disk).(active := None) && LiveGenuine(disk, cap.marker)
      ensures e.None? ==> |store.vaultLog| == 1
      ensures known ==>
                && Path(r, h0, history, strict) && Holds(r, store)
                && (InMaintenance(r, store) || Done(r, disk))
                && (e.None? ==> Done(r, disk))
                && (!io.faulted ==> e.None?)
    {
      hide Facts, Resumable, Maintenance, Path, LiveVerdict, Done, LiveGenuine;
      if known {
        MaintenanceFacts(r, store);
      }
      LiveExact(disk, cap.marker, None);
      SameLive(disk, disk.(active := None), cap.marker);
      var k := io.Check(LiveVerdict(disk, cap.marker, None));
      if k.Some? {
        return Some(IoAfterBoundary(k.value, mutated));
      }
      ghost var h := history;
      var v := ClearActiveMarker(cap.marker, r, strict);
      if known {
        PathTrans(r, h0, h, history, strict);
      }
      if v.Some? {
        return Some(AfterBoundary(v.value, mutated));
      }
      return None;
    }

    /**
      Finishes a reset in maintenance.  An error other than `Indeterminate` means that this
      attempt changed nothing, and then the claims are released; after `Indeterminate` they
      stay set until the process ends.
     */
    method Finish(cap: Capability, ghost r: Reset, ghost strict: bool) returns (e: Option<ResetError>)
      requires Valid()
      modifies this, io
      ensures Valid()
      ensures old(io.faulted) ==> io.faulted
      ensures e.Some? && e.value != Indeterminate ==> disk == old(disk) && !claimed
      ensures e == Some(Indeterminate) ==> disk != old(disk)
      ensures e.None? ==>
                && disk == old(disk).(active := None, transition := None, container := disk.container)
                && disk.container == (if cap.container.Some? then None else old(disk).container)
                && LiveGenuine(disk, cap.marker) && |store.vaultLog| == 1
      ensures e.None? || e.value == Indeterminate ==> claimed == old(claimed)
      ensures disk != old(disk) ==> Examined(old(disk), cap)
      ensures IsAltered(r, old(disk)) && cap.marker == r.applied ==>
                e.Some? && e.value != Indeterminate && (!io.faulted ==> e == Some(ManualIntervention))
      ensures && old(Ready(r, cap))
              && (strict ==> old(disk).transition.Some? || !PreparedMayReturn(r, old(store)))
              ==>
                && Path(r, old(history), history, strict) && Holds(r, store)
                && (InMaintenance(r, store) || Done(r, disk))
                && (e.None? ==> Done(r, disk))
                && (!io.faulted && QuarantineAcceptable(r.former) ==> e.None?)
      ensures && old(Ready(r, cap)) && !strict && QuarantineHolds(old(disk)) && PreparedMayReturn(r, old(store))
              && disk != old(disk)
              ==> Unsynced(old(history), history) && !Path(r, old(history), history, true)
    {
      hide Facts, Resumable, Maintenance, Path, PreparedMayReturn, QuarantineAcceptable, Done;
      hide IsAltered, Examined, Unsynced, LiveGenuine;
      e := FinishInner(cap, r, strict);
      if && old(Ready(r, cap)) && !strict && QuarantineHolds(old(disk)) && PreparedMayReturn(r, old(store))
         && disk != old(disk) {
        NotStrict(r, old(history), history);
      }
      if e.Some? && e.value != Indeterminate {
        claimed := false;
      }
    }

    // -------------------------------------------------------------------------------------
    // From Prepared to Applied
    // -------------------------------------------------------------------------------------

    /**
      Exchanges the active marker with the transition file and removes what the exchange
      leaves in the transition slot.  If it is not `exchanged` nothing has changed.
     */
    method CompleteMarkerExchange(prepared: Marker, applied: Marker, ghost r: Reset, ghost strict: bool)
      returns (ok: bool, exchanged: bool)
      requires Valid()
      modifies `disk, `store, `history, io
      ensures Valid() && disk.live == old(disk).live && disk.container == old(disk).container
      ensures old(io.faulted) ==> io.faulted
      ensures old(history) <= history && (exchanged ==> old(history) != history)
      ensures ok ==>
                && Names(old(disk).transition, applied) && Names(old(disk).active, prepared)
                && TopologyGenuine(disk, applied) && SyncedAt(history, |old(history)| + 1, SwapMarkers(old(store)))
      ensures !exchanged ==> disk == old(disk) && store == old(store) && history == old(history)
      ensures ok ==>
                && exchanged && io.faulted == old(io.faulted) && |store.vaultLog| == 1
                && disk == old(disk).(active := old(disk).transition, transition := None)
      ensures && prepared == r.prepared && applied == r.applied && Holds(r, old(store))
              && PreparedNew(r, old(disk)) && old(disk).transition.Some?
              ==>
                && Path(r, old(history), history, strict) && Holds(r, store)
                && (exchanged ==> InMaintenance(r, store))
                && (!io.faulted ==> ok)
    {
      hide Facts, Resumable, Maintenance, PreparedNew, PreparedOld, Path, EvidenceVerdict, TopologyVerdict;
      hide TopologyGenuine, BuildApplied, Render, ParseDirectory, ParseEntry, EntryIdentityOf, ValidMarker;
      hide SealVerdict, PostExchangeVerdict;
      ghost var known := && prepared == r.prepared && applied == r.applied && Holds(r, store)
                         && PreparedNew(r, disk) && disk.transition.Some?;
      PathRefl(r, history, strict);
      if known {
        PreparedFacts(r, store);
        NewFacts(r, store);
        DidExchangeMarkers(r, history, history, strict);
      }
      exchanged := false;
      var k := Do(disk.(active := disk.transition, transition := disk.active), SwapMarkers(store),
                  if disk.active.None? || disk.transition.None? then Some(NotFound) else None);
      if k.Some? {
        return false, false;
      }
      exchanged := true;
      ghost var swapped := disk;
      if known {
        SameTopology(old(store).disk, disk, applied);
      }
      ok := AfterMarkerExchange(prepared, applied, r, strict, old(history), known);
      SameTopologyGenuine(swapped, disk, applied);
    }

    /** Verifies and syncs an exchange of the markers, and then removes the transition file. */
    method AfterMarkerExchange(
      prepared: Marker, applied: Marker, ghost r: Reset, ghost strict: bool, ghost h0: seq<Store>, ghost known: bool)
      returns (ok: bool)
      requires Valid() && disk.transition.Some?
      requires known ==>
                 && prepared == r.prepared && applied == r.applied && TopologyVerdict(disk, applied) == None
                 && Path(r, h0, history, strict) && InMaintenance(r, store)
      modifies `disk, `store, `history, io
      ensures Valid() && disk.live == old(disk).live && disk.container == old(disk).container
      ensures old(io.faulted) ==> io.faulted
      ensures old(history) <= history && disk.active == old(disk).active
      ensures disk != old(disk) ==>
                && Names(old(disk).active, applied) && Names(old(disk).transition, prepared)
                && TopologyGenuine(old(disk), applied) && SyncedAt(history, |old(history)|, old(store))
      ensures ok ==> io.faulted == old(io.faulted) && |store.vaultLog| == 1 && disk == old(disk).(transition := None)
      ensures known ==> Path(r, h0, history, strict) && InMaintenance(r, store) && (!io.faulted ==> ok)
    {
      hide Facts, Resumable, Maintenance, Path, EvidenceVerdict, TopologyVerdict, TopologyGenuine, ValidMarker;
      if known {
        MaintenanceEvidence(r, store);
        DidSyncVault(r, h0, history, strict);
      }
      EvidenceExact(disk.active, applied);
      EvidenceExact(disk.transition, prepared);
      TopologyExact(disk, applied);
      var v := Inspect(EvidenceVerdict(disk.active, applied));
      if v.Some? {
        return false;
      }
      v := Inspect(EvidenceVerdict(disk.transition, prepared));
      if v.Some? {
        return false;
      }
      var k := SyncVaultDirectory();
      if k.Some? {
        return false;
      }
      k := io.Check(TopologyVerdict(disk, applied));
      if k.Some? {
        return false;
      }
      ok := UnlinkTransitionFile(r, strict, h0, known);
    }

    /** Unlinks the transition file and syncs the vault. */
    method UnlinkTransitionFile(ghost r: Reset, ghost strict: bool, ghost h0: seq<Store>, ghost known: bool)
      returns (ok: bool)
      requires Valid()
      requires disk.transition.Some?
      requires known ==> Path(r, h0, history, strict) && InMaintenance(r, store)
      modifies `disk, `store, `history, io
      ensures Valid() && disk.live == old(disk).live && disk.container == old(disk).container
      ensures old(io.faulted) ==> io.faulted
      ensures old(history) <= history && disk.active == old(disk).active
      ensures ok ==> io.faulted == old(io.faulted) && |store.vaultLog| == 1 && disk == old(disk).(transition := None)
      ensures known ==> Path(r, h0, history, strict) && InMaintenance(r, store) && (!io.faulted ==> ok)
    {
      hide Facts, Resumable, Maintenance, Path;
      if known {
        DidUnlinkTransition(r, h0, history, strict);
        DidSyncVault(r, h0, history + [PutTransition(store, None)], strict);
      }
      var k := Do(disk.(transition := None), PutTransition(store, None), None);
      if k.Some? {
        return false;
      }
      k := SyncVaultDirectory();
      return k.None?;
    }

    /** Writes the Applied marker to the transition slot and exchanges it with the active marker. */
    method ReplaceMarker(prepared: Marker, applied: Marker, ghost r: Reset, ghost strict: bool) returns (ok: bool)
      requires Valid()
      modifies `disk, `store, `history, io
      ensures Valid() && disk.live == old(disk).live && disk.container == old(disk).container
      ensures old(io.faulted) ==> io.faulted
      ensures disk != old(disk) ==> Names(old(disk).active, prepared) && old(disk).transition.None?
      ensures ok ==>
                && TopologyGenuine(disk, applied)
                && SyncedAt(history, |old(history)| + 1, PutTransition(old(store), Some(Readable(applied))))
      ensures ok ==>
                && io.faulted == old(io.faulted) && |store.vaultLog| == 1
                && disk == old(disk).(active := Some(Readable(applied)), transition := None)
      ensures && prepared == r.prepared && applied == r.applied && Holds(r, old(store))
              && PreparedNew(r, old(disk)) && old(disk).transition.None?
              ==>
                && Path(r, old(history), history, strict) && Holds(r, store)
                && (InPrepared(r, store) || InMaintenance(r, store))
                && (ok ==> InMaintenance(r, store))
                && (!io.faulted ==> ok)
    {
      hide Facts, Resumable, Maintenance, PreparedNew, PreparedOld, Path, EvidenceVerdict;
      hide TopologyGenuine, BuildApplied, Render, ParseDirectory, ParseEntry, EntryIdentityOf, ValidMarker, SealVerdict;
      ghost var known := && prepared == r.prepared && applied == r.applied && Holds(r, store)
                         && PreparedNew(r, disk) && disk.transition.None?;
      PathRefl(r, history, strict);
      if known {
        PreparedFacts(r, store);
        DidWriteTransition(r, history, history, strict);
        DidSyncVault(r, history, history + [PutTransition(store, AppliedFile(r))], strict);
      }
      EvidenceExact(disk.active, prepared);
      var v := Inspect(EvidenceVerdict(disk.active, prepared));
      if v.Some? {
        return false;
      }
      var k := io.Try();
      if k.Some? {
        return false;
      }
      k := Do(disk.(transition := Some(Readable(applied))), PutTransition(store, Some(Readable(applied))),
              if disk.transition.Some? then Some(Other) else None);
      if k.Some? {
        return false;
      }
      k := SyncVaultDirectory();
      if k.Some? {
        return false;
      }
      v := Inspect(EvidenceVerdict(disk.transition, applied));
      if v.Some? {
        return false;
      }
      ghost var h := history;
      var exchanged;
      ok, exchanged := CompleteMarkerExchange(prepared, applied, r, strict);
      if known {
        PathTrans(r, old(history), h, history, strict);
      }
    }

    /** The publisher or an earlier recovery got as far as writing the transition file. */
    method RecoverTransition(
      prepared: Marker, applied: Marker, target: Identity, live: EntryIdentity, seal: Seal,
      ghost r: Reset, ghost strict: bool)
      returns (e: Option<ResetError>)
      requires Valid()
      modifies `disk, `store, `history, io
      ensures Valid()
      ensures old(io.faulted) ==> io.faulted
      ensures e.Some? && e.value != Indeterminate ==> disk == old(disk)
      ensures e.None? ==> io.faulted == old(io.faulted) && LiveGenuine(disk, applied)
      ensures disk != old(disk) ==> Names(old(disk).active, prepared) && Names(old(disk).transition, applied)
      ensures disk.live == old(disk).live && (e == Some(Indeterminate) ==> history != old(history))
      ensures PostExchangeVerdict(old(disk), target, live, prepared.payload.phase.binding, seal) == Some(InvalidData)
              ==>
                && e.Some? && e.value != Indeterminate && store == old(store) && history == old(history)
                && (!io.faulted ==> e == Some(ManualIntervention))
      ensures e.None? ==> Recovered(disk, prepared.payload.phase.binding) && disk.active == Some(Readable(applied))
      ensures && InPrepared(r, old(store)) && old(disk).transition.Some? && prepared == r.prepared
              && applied == r.applied
              && target == r.clean.id && live == EntryIdentityOf(r.former) && seal == r.seal
              ==>
                && Path(r, old(history), history, strict)
                && (InPrepared(r, store) || InMaintenance(r, store))
                && (e.None? ==> InMaintenance(r, store) && disk.transition.None? && |store.vaultLog| == 1)
                && (!io.faulted ==> e.None?)
    {
      hide Facts, Resumable, Maintenance, PreparedNew, PreparedOld, Path, EvidenceVerdict, TopologyVerdict;
      hide BuildApplied, Render, ParseDirectory, ParseEntry, ValidMarker, SealVerdict, PostExchangeVerdict;
      hide LiveVerdict, BindingVerdict, LiveFingerprint, SealMatches, SealedPair, SealBound;
      hide LiveGenuine, TopologyGenuine;
      ghost var known := && InPrepared(r, store) && disk.transition.Some? && prepared == r.prepared
                         && applied == r.applied
                         && target == r.clean.id && live == EntryIdentityOf(r.former) && seal == r.seal;
      PathRefl(r, history, strict);
      if known {
        PreparedFacts(r, store);
        TransitionMeansNew(r, store);
        NewFacts(r, store);
      }
      var k := io.Check(PostExchangeVerdict(disk, target, live, prepared.payload.phase.binding, seal));
      if k.Some? {
        return Some(PreMutation(k.value));
      }
      PostExchangeExact(disk, target, live, prepared.payload.phase.binding, seal);
      EvidenceExact(disk.active, prepared);
      e := Inspect(EvidenceVerdict(disk.active, prepared));
      if e.Some? {
        return;
      }
      EvidenceExact(disk.transition, applied);
      e := Inspect(EvidenceVerdict(disk.transition, applied));
      if e.Some? {
        return;
      }
      var ok, exchanged := CompleteMarkerExchange(prepared, applied, r, strict);
      if !exchanged {
        return Some(ManualIntervention);
      }
      if !ok {
        return Some(Indeterminate);
      }
      if known {
        MaintenanceFacts(r, store);
      }
      LiveExact(disk, applied, Some(seal));
      k := io.Check(LiveVerdict(disk, applied, Some(seal)));
      if k.Some? {
        return Some(Indeterminate);
      }
      return None;
    }

    /** Exchanges the pairs, if they are not exchanged yet, and makes the exchange durable. */
    method RecoverExchange(
      prepared: Marker, target: Identity, live: EntryIdentity, seal: Seal, ghost r: Reset, ghost strict: bool)
      returns (e: Option<ResetError>, mutated: bool)
      requires Valid()
      modifies `disk, `store, `history, io
      ensures Valid() && disk.active == old(disk).active && disk.transition == old(disk).transition
      ensures old(io.faulted) ==> io.faulted
      ensures e.None? ==> io.faulted == old(io.faulted)
      ensures e.Some? && e.value != Indeterminate ==> disk == old(disk)
      ensures !mutated ==> disk == old(disk)
      ensures mutated ==> Unexchanged(old(disk), prepared.payload.phase.binding)
      ensures e.None? && !mutated ==>
                && disk.live.Some? && EntryIdentityOf(disk.live.value) == DirectoryEntryIdentity(target)
                && disk.container.Some? && disk.container.value.pair.Some?
                && EntryIdentityOf(disk.container.value.pair.value) == live
      ensures && old(disk).live.Some? && EntryIdentityOf(old(disk).live.value) != live
              && old(disk).container.Some? && old(disk).container.value.pair.Some?
              ==>
                && !mutated && e != Some(Indeterminate) && store == old(store) && history == old(history)
                && (!io.faulted ==> e.None? || e == Some(ManualIntervention))
      ensures && old(disk).live.Some? && EntryIdentityOf(old(disk).live.value) == live
              && old(disk).container.Some? && old(disk).container.value.pair.Some?
              && EntryIdentityOf(old(disk).container.value.pair.value) == DirectoryEntryIdentity(target)
              && BindingVerdict(old(disk).container.value.pair.value, seal, prepared.payload.phase.binding)
                 == Some(InvalidData)
              ==>
                && e.Some? && e.value != Indeterminate && !mutated && store == old(store) && history == old(history)
                && (!io.faulted ==> e == Some(ManualIntervention))
      ensures && InPrepared(r, old(store)) && old(disk).transition.None? && prepared == r.prepared
              && target == r.clean.id && live == EntryIdentityOf(r.former) && seal == r.seal
              ==>
                && Path(r, old(history), history, strict) && InPrepared(r, store)
                && (e.None? ==> PreparedNew(r, disk))
                && (!io.faulted ==> e.None?)
    {
      hide Facts, Resumable, Maintenance, PreparedNew, PreparedOld, Path, EvidenceVerdict, TopologyVerdict;
      hide BuildApplied, Render, ParseDirectory, ParseEntry, ValidMarker, SealVerdict, PostExchangeVerdict;
      hide LiveVerdict, BindingVerdict, LiveFingerprint, SealMatches, Unexchanged;
      ghost var known := && InPrepared(r, store) && disk.transition.None? && prepared == r.prepared
                         && target == r.clean.id && live == EntryIdentityOf(r.former) && seal == r.seal;
      PathRefl(r, history, strict);
      mutated := false;
      if known {
        if PreparedOld(r, disk) {
          OldFacts(r, store);
        } else {
          NewFacts(r, store);
        }
      }
      var k := io.Check(
        if disk.live.None? || disk.container.None? || disk.container.value.pair.None? then Some(NotFound) else None);
      if k.Some? {
        return Some(PreMutation(k.value)), false;
      }
      var liveIdentity := EntryIdentityOf(disk.live.value);
      var stagedIdentity := EntryIdentityOf(disk.container.value.pair.value);
      if liveIdentity == live && stagedIdentity == DirectoryEntryIdentity(target) {
        e, mutated := ExchangeUnexchanged(prepared, seal, r, strict, known);
      } else if liveIdentity == DirectoryEntryIdentity(target) && stagedIdentity == live {
        e := None;
      } else {
        e := Some(ManualIntervention);
      }
    }

    method ExchangeUnexchanged(prepared: Marker, seal: Seal, ghost r: Reset, ghost strict: bool, ghost known: bool)
      returns (e: Option<ResetError>, mutated: bool)
      requires Valid() && disk.live.Some? && disk.container.Some? && disk.container.value.pair.Some?
      requires known ==> Holds(r, store) && PreparedOld(r, disk) && prepared == r.prepared && seal == r.seal
      modifies `disk, `store, `history, io
      ensures Valid() && disk.active == old(disk).active && disk.transition == old(disk).transition
      ensures old(io.faulted) ==> io.faulted
      ensures e.None? ==>
                && mutated && io.faulted == old(io.faulted) && |store.vaultLog| == 1 && |store.containerLog| == 1
                && disk.live == old(disk).container.value.pair && disk.container.Some?
                && disk.container.value.pair == old(disk).live
      ensures e.Some? && e.value != Indeterminate ==> disk == old(disk)
      ensures !mutated ==> disk == old(disk)
      ensures mutated ==> Unexchanged(old(disk), prepared.payload.phase.binding)
      ensures BindingVerdict(old(disk).container.value.pair.value, seal, prepared.payload.phase.binding) ==
              Some(InvalidData)
              ==>
                && e.Some? && e.value != Indeterminate && !mutated && store == old(store) && history == old(history)
                && (!io.faulted ==> e == Some(ManualIntervention))
      ensures known ==>
                && Path(r, old(history), history, strict) && InPrepared(r, store)
                && (e.None? ==> PreparedNew(r, disk))
                && (!io.faulted ==> e.None?)
    {
      hide Facts, Resumable, Maintenance, PreparedNew, PreparedOld, Path, EvidenceVerdict, TopologyVerdict;
      hide BuildApplied, Render, ParseDirectory, ParseEntry, ValidMarker, SealVerdict, PostExchangeVerdict;
      hide LiveVerdict, BindingVerdict, LiveFingerprint, SealMatches, SealedPair, SealBound;
      PathRefl(r, history, strict);
      if known {
        OldFacts(r, store);
        DidExchangePairs(r, history, history, strict);
      }
      mutated := false;
      var b := prepared.payload.phase.binding;
      BindingExact(disk.container.value.pair.value, seal, b);
      var k := io.Check(BindingVerdict(disk.container.value.pair.value, seal, b));
      if k.Some? {
        return Some(PreMutation(k.value)), false;
      }
      k := io.Check(if LiveFingerprint(disk.live.value) == Some(b.liveFingerprint) then None else Some(InvalidData));
      if k.Some? {
        return Some(PreMutation(k.value)), false;
      }
      var c := disk.container.value;
      k := Do(disk.(live := c.pair, container := Some(c.(pair := disk.live))), SwapPairs(store), None);
      if k.Some? {
        return Some(PreMutation(k.value)), false;
      }
      mutated := true;
      if known {
        DidSyncVault(r, old(history), history, strict);
      }
      var vaultSync := SyncVaultDirectory();
      if known {
        DidSyncContainer(r, old(history), history, strict);
      }
      var containerSync := SyncContainerDirectory();
      if vaultSync.Some? || containerSync.Some? {
        return Some(Indeterminate), true;
      }
      return None, true;
    }

    /** No transition file: exchange the pairs if need be, verify, and advance the marker. */
    method RecoverPairs(
      prepared: Marker, applied: Marker, target: Identity, live: EntryIdentity, seal: Seal,
      ghost r: Reset, ghost strict: bool)
      returns (e: Option<ResetError>)
      requires Valid()
      modifies `disk, `store, `history, io
      ensures Valid()
      ensures old(io.faulted) ==> io.faulted
      ensures e.Some? && e.value != Indeterminate ==> disk == old(disk)
      ensures e.None? ==> io.faulted == old(io.faulted) && TopologyGenuine(disk, applied)
      ensures disk.live != old(disk).live ==> Unexchanged(old(disk), prepared.payload.phase.binding)
      ensures disk.active != old(disk).active ==> Names(old(disk).active, prepared)
      ensures && old(disk).live.Some? && EntryIdentityOf(old(disk).live.value) != live
              && old(disk).container.Some? && old(disk).container.value.pair.Some?
              && PostExchangeVerdict(old(disk), target, live, prepared.payload.phase.binding, seal) == Some(InvalidData)
              ==>
                && e.Some? && e.value != Indeterminate && store == old(store) && history == old(history)
                && (!io.faulted ==> e == Some(ManualIntervention))
      ensures && old(disk).live.Some? && EntryIdentityOf(old(disk).live.value) == live
              && old(disk).container.Some? && old(disk).container.value.pair.Some?
              && EntryIdentityOf(old(disk).container.value.pair.value) == DirectoryEntryIdentity(target)
              && BindingVerdict(old(disk).container.value.pair.value, seal, prepared.payload.phase.binding)
                 == Some(InvalidData)
              ==>
                && e.Some? && e.value != Indeterminate && store == old(store) && history == old(history)
                && (!io.faulted ==> e == Some(ManualIntervention))
      ensures e.None? ==> Recovered(disk, prepared.payload.phase.binding) && disk.active == Some(Readable(applied))
      ensures && InPrepared(r, old(store)) && old(disk).transition.None? && prepared == r.prepared
              && applied == r.applied
              && target == r.clean.id && live == EntryIdentityOf(r.former) && seal == r.seal
              ==>
                && Path(r, old(history), history, strict)
                && (InPrepared(r, store) || InMaintenance(r, store))
                && (e.None? ==> InMaintenance(r, store) && disk.transition.None? && |store.vaultLog| == 1)
                && (!io.faulted ==> e.None?)
    {
      hide Facts, Resumable, Maintenance, PreparedNew, PreparedOld, Path, EvidenceVerdict, TopologyVerdict;
      hide BuildApplied, Render, ParseDirectory, ParseEntry, ValidMarker, SealVerdict, PostExchangeVerdict;
      hide LiveVerdict, BindingVerdict, LiveFingerprint, SealMatches, SealedPair, SealBound;
      hide Unexchanged, TopologyGenuine;
      ghost var known := && InPrepared(r, store) && disk.transition.None? && prepared == r.prepared
                         && applied == r.applied
                         && target == r.clean.id && live == EntryIdentityOf(r.former) && seal == r.seal;
      var mutated;
      e, mutated := RecoverExchange(prepared, target, live, seal, r, strict);
      if e.Some? {
        return;
      }
      ghost var h := history;
      e := AfterExchange(prepared, applied, target, live, seal, mutated, r, strict, known);
      if known {
        PathTrans(r, old(history), h, history, strict);
      }
    }

    /** Verifies exchanged pairs and advances the marker. */
    method AfterExchange(
      prepared: Marker, applied: Marker, target: Identity, live: EntryIdentity, seal: Seal, mutated: bool,
      ghost r: Reset, ghost strict: bool, ghost known: bool)
      returns (e: Option<ResetError>)
      requires Valid()
      requires known ==>
                 && Holds(r, store) && PreparedNew(r, disk) && disk.transition.None?
                 && prepared == r.prepared && applied == r.applied
                 && target == r.clean.id && live == EntryIdentityOf(r.former) && seal == r.seal
      modifies `disk, `store, `history, io
      ensures Valid()
      ensures old(io.faulted) ==> io.faulted
      ensures e.Some? && e.value != Indeterminate ==> !mutated && disk == old(disk)
      ensures e.None? ==> io.faulted == old(io.faulted) && TopologyGenuine(disk, applied)
      ensures disk.live == old(disk).live && (disk != old(disk) ==> Names(old(disk).active, prepared))
      ensures disk != old(disk) ==> TopologyGenuine(old(disk), applied)
      ensures PostExchangeVerdict(old(disk), target, live, prepared.payload.phase.binding, seal) == Some(InvalidData)
              ==>
                && e.Some? && store == old(store) && history == old(history)
                && (!mutated ==> e.value != Indeterminate && (!io.faulted ==> e == Some(ManualIntervention)))
      ensures e.None? ==> Recovered(disk, prepared.payload.phase.binding) && disk.active == Some(Readable(applied))
      ensures known ==>
                && Path(r, old(history), history, strict)
                && (InPrepared(r, store) || InMaintenance(r, store))
                && (e.None? ==> InMaintenance(r, store) && disk.transition.None? && |store.vaultLog| == 1)
                && (!io.faulted ==> e.None?)
    {
      hide Facts, Resumable, Maintenance, PreparedNew, PreparedOld, Path, EvidenceVerdict, TopologyVerdict;
      hide BuildApplied, Render, ParseDirectory, ParseEntry, ValidMarker, SealVerdict, PostExchangeVerdict;
      hide LiveVerdict, BindingVerdict, LiveFingerprint, SealMatches, SealedPair, SealBound, TopologyGenuine;
      PathRefl(r, history, strict);
      if known {
        NewFacts(r, store);
      }
      var v := Inspect(None);
      if v.Some? {
        return Some(AfterBoundary(v.value, mutated));
      }
      var k := io.Check(PostExchangeVerdict(disk, target, live, prepared.payload.phase.binding, seal));
      if k.Some? {
        return Some(IoAfterBoundary(k.value, mutated));
      }
      PostExchangeExact(disk, target, live, prepared.payload.phase.binding, seal);
      TopologyExact(disk, applied);
      k := io.Check(TopologyVerdict(disk, applied));
      if k.Some? {
        return Some(Indeterminate);
      }
      var ok := ReplaceMarker(prepared, applied, r, strict);
      return if ok then None else Some(Indeterminate);
    }

    /**
      Takes a reset from the prepared phase to maintenance.  An error other than
      `Indeterminate` means that this attempt changed nothing.
     */
    method RecoverPrepared(prepared: Marker, ghost r: Reset, ghost strict: bool)
      returns (res: Result<Marker, ResetError>)
      requires Valid() && prepared.payload.phase.Prepared?
      modifies `disk, `store, `history, io
      ensures Valid()
      ensures old(io.faulted) ==> io.faulted
      ensures res.Failure? && res.error != Indeterminate ==> disk == old(disk)
      ensures res.Success? ==> io.faulted == old(io.faulted)
      ensures disk.live != old(disk).live ==> Unexchanged(old(disk), prepared.payload.phase.binding)
      ensures disk.active != old(disk).active ==> Names(old(disk).active, prepared)
      ensures !io.faulted && !Enclosed(old(disk), prepared.payload.phase.binding) ==> res == Failure(ManualIntervention)
      ensures InPrepared(r, old(store)) && prepared == r.prepared ==>
                && Path(r, old(history), history, strict)
                && (InPrepared(r, store) || InMaintenance(r, store))
                && (res.Success? ==>
                      && res.value == r.applied && InMaintenance(r, store)
                      && disk.transition.None? && |store.vaultLog| == 1)
                && (!io.faulted ==> res.Success?)
      ensures && Facts(r) && Damaged(r, old(disk)) && QuarantineAcceptable(r.former) && prepared == r.prepared
              && old(disk).container.value.pair.Some?
              ==>
                && res.Failure? && res.error != Indeterminate && store == old(store) && history == old(history)
                && (!io.faulted ==> res.error == ManualIntervention)
      ensures IsAltered(r, old(disk)) && prepared == r.prepared && old(disk).active == PreparedFile(r) ==>
                && res.Failure? && res.error != Indeterminate && store == old(store) && history == old(history)
                && (!io.faulted ==> res.error == ManualIntervention)
      ensures res.Success? ==>
                && Recovered(disk, prepared.payload.phase.binding) && disk.active == Some(Readable(res.value))
                && res.value.payload.phase.Applied?
    {
      hide Facts, Resumable, Maintenance, PreparedNew, PreparedOld, Path, EvidenceVerdict, TopologyVerdict;
      hide BuildApplied, Render, ParseDirectory, ParseEntry, ValidMarker, SealVerdict, PostExchangeVerdict;
      hide LiveVerdict, BindingVerdict, LiveFingerprint, SealMatches, Recovered, IsAltered, Damaged, Unexchanged;
      hide LiveGenuine, TopologyGenuine, Names;
      ghost var known := InPrepared(r, store) && prepared == r.prepared;
      PathRefl(r, history, strict);
      if known {
        PreparedFacts(r, store);
      }
      if && Facts(r) && Damaged(r, disk) && QuarantineAcceptable(r.former) && prepared == r.prepared
         && disk.container.Some? && disk.container.value.pair.Some? {
        DamagedFacts(r, disk);
      }
      if IsAltered(r, disk) && prepared == r.prepared && disk.active == PreparedFile(r) {
        AlteredFacts(r, disk);
      }
      var b := prepared.payload.phase.binding;
      var k := io.Check(if disk.container.None? then Some(NotFound)
                        else if disk.container.value.mode != PRIVATE_DIRECTORY then Some(Denied(false)) else None);
      if k.Some? {
        return Failure(PreMutation(k.value));
      }
      var c := disk.container.value;
      if Render(DirectoryEntryIdentity(c.id)) != b.container {
        return Failure(ManualIntervention);
      }
      var v := Inspect(if c.seal.None? then Some(Unavailable) else SealVerdict(c.seal.value));
      if v.Some? {
        return Failure(v.value);
      }
      var seal := c.seal.value.seal;
      var target, live := ParseDirectory(b.target), ParseEntry(b.expectedLive);
      if target.None? || live.None? {
        return Failure(ManualIntervention);
      }
      var applied := BuildApplied(prepared, c.id, DirectoryEntryIdentity(target.value), live.value);
      k := io.Try();
      if k.Some? {
        return Failure(PreMutation(k.value));
      }
      var e;
      if disk.transition.Some? {
        e := RecoverTransition(prepared, applied, target.value, live.value, seal, r, strict);
      } else {
        e := RecoverPairs(prepared, applied, target.value, live.value, seal, r, strict);
      }
      return if e.None? then Success(applied) else Failure(e.value);
    }

    /**
      Recovers the reset that the active marker names and returns the capability to finish
      it.  The claims are set while it runs, and stay set if it succeeds or cannot tell what
      the disk holds.
     */
    method Recover(ghost r: Reset, ghost strict: bool) returns (res: Result<Capability, OpenError>)
      requires Valid()
      modifies this, io
      ensures Valid()
      ensures old(io.faulted) ==> io.faulted
      ensures old(claimed) ==>
                res == Failure(AlreadyClaimed) && claimed && store == old(store) && history == old(history)
      ensures disk.live != old(disk).live ==>
                && old(disk).active.Some? && GenuineMarker(old(disk).active.value)
                && Unexchanged(old(disk), old(disk).active.value.marker.payload.phase.binding)
      ensures !io.faulted && !old(claimed) && old(disk).active == Some(OtherSchema) ==>
                res == Failure(UnsupportedProjectionFormat)
      ensures !io.faulted && !old(claimed) && (old(disk).active.None? || old(disk).active == Some(Corrupt)) ==>
                res == Failure(ResetManualIntervention)
      ensures res.Success? ==>
                && old(disk).active.Some? && GenuineMarker(old(disk).active.value)
                && LayoutGenuine(old(disk), old(disk).active.value.marker)
      ensures !old(claimed) ==> (claimed <==> res.Success? || res.error == ResetIndeterminate)
      ensures Holds(r, old(store)) && old(disk).active.Some? && !old(claimed) ==>
                && Path(r, old(history), history, strict)
                && (InPrepared(r, store) || InMaintenance(r, store))
                && (res.Success? ==> Ready(r, res.value))
                && (!io.faulted && QuarantineAcceptable(r.former) ==> res.Success?)
                && (strict && InPrepared(r, old(store)) && res.Success? ==> !PreparedMayReturn(r, store))
                && (InMaintenance(r, old(store)) ==> store == old(store))
      ensures Facts(r) && Damaged(r, old(disk)) && QuarantineAcceptable(r.former) && !old(claimed) ==>
                && res.Failure? && res.error != ResetIndeterminate && store == old(store) && history == old(history)
                && (!io.faulted ==> res.error == ResetManualIntervention)
      ensures IsAltered(r, old(disk)) && !old(claimed) ==>
                && res.Failure? && res.error != ResetIndeterminate && store == old(store) && history == old(history)
                && (!io.faulted ==> res.error == ResetManualIntervention)
      ensures res.Success? ==>
                && disk.active == Some(Readable(res.value.marker)) && LiveGenuine(disk, res.value.marker)
                && res.value.container == (if disk.container.Some? then Some(disk.container.value.id) else None)
    {
      hide Facts, Resumable, Maintenance, PreparedNew, PreparedOld, Path, PreparedMayReturn, QuarantineAcceptable;
      PathRefl(r, history, strict);
      if claimed {
        return Failure(AlreadyClaimed);
      }
      claimed := true;
      res := RecoverClaimed(r, strict);
      if res.Failure? && res.error != ResetIndeterminate {
        claimed := false;
      }
    }

    /** Reads the active marker and, if the reset is still prepared, takes it to maintenance. */
    method RecoverMarker(ghost r: Reset, ghost strict: bool) returns (res: Result<Marker, OpenError>)
      requires Valid()
      modifies `disk, `store, `history, io
      ensures Valid()
      ensures old(io.faulted) ==> io.faulted
      ensures res.Failure? ==> res.error != AlreadyClaimed
      ensures res.Success? ==> io.faulted == old(io.faulted)
      ensures !io.faulted && old(disk).active == Some(OtherSchema) ==> res == Failure(UnsupportedProjectionFormat)
      ensures !io.faulted && (old(disk).active.None? || old(disk).active == Some(Corrupt)) ==>
                res == Failure(ResetManualIntervention)
      ensures res.Success? ==>
                && old(disk).active.Some? && GenuineMarker(old(disk).active.value)
                && LayoutGenuine(old(disk), old(disk).active.value.marker)
      ensures disk.live != old(disk).live ==>
                && old(disk).active.Some? && GenuineMarker(old(disk).active.value)
                && Unexchanged(old(disk), old(disk).active.value.marker.payload.phase.binding)
      ensures Holds(r, old(store)) && old(disk).active.Some? ==>
                && Path(r, old(history), history, strict)
                && (InPrepared(r, store) || InMaintenance(r, store))
                && (res.Success? ==> res.value == r.applied && InMaintenance(r, store))
                && (!io.faulted && QuarantineAcceptable(r.former) ==> res.Success?)
                && (InPrepared(r, old(store)) && res.Success? ==> disk.transition.None? && |store.vaultLog| == 1)
                && (InMaintenance(r, old(store)) ==> store == old(store))
      ensures Facts(r) && Damaged(r, old(disk)) && QuarantineAcceptable(r.former) ==>
                && res.Failure? && res.error != ResetIndeterminate && store == old(store) && history == old(history)
                && (!io.faulted ==> res.error == ResetManualIntervention)
      ensures IsAltered(r, old(disk)) ==>
                && store == old(store) && history == old(history)
                && (if res.Success? then res.value == r.applied
                    else res.error != ResetIndeterminate && (!io.faulted ==> res.error == ResetManualIntervention))
      ensures res.Success? ==> disk.active == Some(Readable(res.value)) && res.value.payload.phase.Applied?
    {
      hide Facts, Resumable, Maintenance, PreparedNew, PreparedOld, Path, PreparedMayReturn, QuarantineAcceptable;
      hide MarkerVerdict, PreflightVerdict, LiveVerdict, Render, RebuildPrepared, ClearVerdict, EvidenceVerdict;
      hide Damaged, IsAltered, Recovered, LayoutGenuine, GenuineMarker, Unexchanged;
      ghost var known := Holds(r, store) && disk.active.Some?;
      ghost var damaged := Facts(r) && Damaged(r, disk) && QuarantineAcceptable(r.former);
      PathRefl(r, history, strict);
      if damaged {
        DamagedRead(r, disk);
      }
      if IsAltered(r, disk) {
        AlteredRead(r, disk);
      }
      if known {
        ActiveMeans(r, store);
        if InPrepared(r, store) {
          PreparedPreflight(r, store);
          PreparedActive(r, store);
        } else {
          MaintenanceRead(r, store);
          if QuarantineAcceptable(r.former) {
            MaintenancePreflight(r, store);
          }
        }
      }
      var fault := io.Try();
      if fault.Some? {
        return Failure(IoError);
      }
      if disk.active.None? {
        return Failure(ResetManualIntervention);
      }
      MarkerFileExact(disk.active.value);
      var p := MarkerVerdict(disk.active.value);
      if p.Some? {
        return Failure(p.value);
      }
      var marker := disk.active.value.marker;
      PreflightExact(disk, marker);
      p := Preflight(marker);
      if p.Some? {
        return Failure(p.value);
      }
      if marker.payload.phase.Applied? {
        return Success(marker);
      }
      var recovered := RecoverPrepared(marker, r, strict);
      return if recovered.Success? then Success(recovered.value) else Failure(ToOpenError(recovered.error));
    }

    method RecoverClaimed(ghost r: Reset, ghost strict: bool) returns (res: Result<Capability, OpenError>)
      requires Valid()
      modifies `disk, `store, `history, io
      ensures Valid()
      ensures old(io.faulted) ==> io.faulted
      ensures res.Failure? ==> res.error != AlreadyClaimed
      ensures !io.faulted && old(disk).active == Some(OtherSchema) ==> res == Failure(UnsupportedProjectionFormat)
      ensures !io.faulted && (old(disk).active.None? || old(disk).active == Some(Corrupt)) ==>
                res == Failure(ResetManualIntervention)
      ensures res.Success? ==>
                && old(disk).active.Some? && GenuineMarker(old(disk).active.value)
                && LayoutGenuine(old(disk), old(disk).active.value.marker)
      ensures disk.live != old(disk).live ==>
                && old(disk).active.Some? && GenuineMarker(old(disk).active.value)
                && Unexchanged(old(disk), old(disk).active.value.marker.payload.phase.binding)
      ensures Holds(r, old(store)) && old(disk).active.Some? ==>
                && Path(r, old(history), history, strict)
                && (InPrepared(r, store) || InMaintenance(r, store))
                && (res.Success? ==> Ready(r, res.value))
                && (!io.faulted && QuarantineAcceptable(r.former) ==> res.Success?)
                && (strict && InPrepared(r, old(store)) && res.Success? ==> !PreparedMayReturn(r, store))
                && (InMaintenance(r, old(store)) ==> store == old(store))
      ensures Facts(r) && Damaged(r, old(disk)) && QuarantineAcceptable(r.former) ==>
                && res.Failure? && res.error != ResetIndeterminate && store == old(store) && history == old(history)
                && (!io.faulted ==> res.error == ResetManualIntervention)
      ensures IsAltered(r, old(disk)) ==>
                && res.Failure? && res.error != ResetIndeterminate && store == old(store) && history == old(history)
                && (!io.faulted ==> res.error == ResetManualIntervention)
      ensures res.Success? ==>
                && disk.active == Some(Readable(res.value.marker)) && LiveGenuine(disk, res.value.marker)
                && res.value.container == (if disk.container.Some? then Some(disk.container.value.id) else None)
                && (disk.container.Some? ==> Enclosed(disk, res.value.marker.payload.phase.binding))
    {
      hide Facts, Resumable, Maintenance, PreparedNew, PreparedOld, Path, PreparedMayReturn, QuarantineAcceptable;
      hide LiveVerdict, Damaged, IsAltered, LiveGenuine, LayoutGenuine, GenuineMarker, Unexchanged, Enclosed;
      ghost var known := Holds(r, store) && disk.active.Some?;
      var recovered := RecoverMarker(r, strict);
      if recovered.Failure? {
        return Failure(recovered.error);
      }
      if IsAltered(r, disk) {
        AlteredRead(r, disk);
      }
      if known && InPrepared(r, old(store)) {
        SyncedMaintenance(r, store);
      }
      res := OpenCapability(recovered.value, r, known);
    }

    /** Verifies the live pair and opens what is left of the container. */
    method OpenCapability(marker: Marker, ghost r: Reset, ghost known: bool)
      returns (res: Result<Capability, OpenError>)
      requires Valid()
      requires known ==> InMaintenance(r, store) && marker == r.applied
      modifies io
      ensures old(io.faulted) ==> io.faulted
      ensures res.Failure? ==> res.error == ResetManualIntervention || res.error == IoError
      ensures res.Success? ==>
                && res.value.marker == marker && LiveGenuine(disk, marker)
                && res.value.container == (if disk.container.Some? then Some(disk.container.value.id) else None)
                && (disk.container.Some? ==> Enclosed(disk, marker.payload.phase.binding))
      ensures !io.faulted && res.Failure? ==>
                && (!LiveGenuine(disk, marker) ==> res.error == ResetManualIntervention)
                && (LiveGenuine(disk, marker) ==>
                      && disk.container.Some?
                      && (disk.container.value.mode == 448 ==> res.error == ResetManualIntervention)
                      && (disk.container.value.mode != 448 ==> res.error == IoError))
      ensures LiveVerdict(disk, marker, None) == Some(InvalidData) ==>
                res.Failure? && (!io.faulted ==> res.error == ResetManualIntervention)
      ensures known ==> (res.Success? ==> Ready(r, res.value)) && (!io.faulted ==> res.Success?)
    {
      hide Facts, Holds, Maintenance, LiveVerdict, Render, ClearVerdict, LiveGenuine;
      if known {
        MaintenanceFacts(r, store);
        if disk.container.Some? {
          MaintenanceContainer(r, store);
        }
      }
      LiveExact(disk, marker, None);
      var k := io.Check(LiveVerdict(disk, marker, None));
      if k.Some? {
        return Failure(ResetManualIntervention);
      }
      var fault := io.Try();
      if fault.Some? {
        return Failure(IoError);
      }
      if disk.container.None? {
        return Success(Capability(marker, None));
      }
      if disk.container.value.mode != PRIVATE_DIRECTORY {
        return Failure(IoError);
      }
      if Render(DirectoryEntryIdentity(disk.container.value.id)) != marker.payload.phase.binding.container {
        return Failure(ResetManualIntervention);
      }
      return Success(Capability(marker, Some(disk.container.value.id)));
    }

    /**
      Recovery and finishing in one go.  Wherever earlier processes left a reset, a process
      in which no call fails ends it: the clean pair is live and nothing of the reset is left.
      Every step is strict if the Applied marker was durable or its transition file was left.
     */
    method Resume(ghost r: Reset, ghost strict: bool) returns (done: bool)
      requires Valid() && !claimed
      modifies this, io
      ensures Valid()
      ensures old(io.faulted) ==> io.faulted
      ensures && Holds(r, old(store)) && old(disk).active.Some?
              && (strict && InMaintenance(r, old(store)) ==>
                    old(disk).transition.Some? || !PreparedMayReturn(r, old(store)))
              ==>
                && Path(r, old(history), history, strict) && Holds(r, store)
                && (done ==> Done(r, disk))
                && (!io.faulted && QuarantineAcceptable(r.former) ==> done)
      ensures && InMaintenance(r, old(store)) && !strict && QuarantineHolds(old(disk))
              && PreparedMayReturn(r, old(store))
              && disk != old(disk)
              ==> !Path(r, old(history), history, true)
      ensures Facts(r) && Damaged(r, old(disk)) && QuarantineAcceptable(r.former) ==>
                !done && store == old(store) && history == old(history)
      ensures done ==> disk.active.None? && disk.transition.None? && |store.vaultLog| == 1
    {
      hide Facts, Resumable, Maintenance, PreparedNew, PreparedOld, Path, PreparedMayReturn, QuarantineAcceptable, Done;
      hide Holds, Unsynced, LiveVerdict, ClearVerdict, IsAltered, Examined, LiveGenuine, Damaged;
      hide LayoutGenuine, GenuineMarker, Foreign, Unexchanged;
      ghost var known := Holds(r, store) && disk.active.Some?;
      if InMaintenance(r, store) {
        MaintenanceFacts(r, store);
      }
      if known {
        ActiveMeans(r, store);
      }
      var recovered := Recover(r, strict);
      if recovered.Failure? {
        return false;
      }
      ghost var h := history;
      var e := Finish(recovered.value, r, strict);
      if && known
         && (strict && InMaintenance(r, old(store)) ==>
               old(disk).transition.Some? || !PreparedMayReturn(r, old(store))) {
        PathTrans(r, old(history), h, history, strict);
      }
      if && InMaintenance(r, old(store)) && !strict && QuarantineHolds(old(disk)) && PreparedMayReturn(r, old(store))
         && disk != old(disk) {
        UnsyncedSince(r, old(history), h, history, strict);
        NotStrict(r, old(history), history);
      }
      return e.None?;
    }

    // -------------------------------------------------------------------------------------
    // Publication
    // -------------------------------------------------------------------------------------

    /** The target is sealed, in place, and matches its seal. */
    predicate TargetSealed(target: Target)
      reads this
    {
      && target.seal.Some? && ValidSeal(target.seal.value)
      && disk.container.Some?
      && var c := disk.container.value;
      && c.mode == PRIVATE_DIRECTORY && c.id == target.container
      && c.pair.Some? && c.pair.value.Dir? && c.pair.value.mode == PRIVATE_DIRECTORY
      && c.pair.value.id == target.pair
      && c.seal == Some(ReadableSeal(target.seal.value))
      && PairDigest(c.pair.value) == Some(target.seal.value.payload.treeDigest)
      && ActivePointerDigest(c.pair.value) == Some(target.seal.value.payload.activeDigest)
    }

    /** The live entry is still the one the target was prepared against. */
    predicate LiveExpected(target: Target)
      reads this
    {
      if target.replace then
        && disk.live.Some? && target.expectedLive == Some(EntryIdentityOf(disk.live.value))
        && target.fingerprint.Some? && LiveFingerprint(disk.live.value) == target.fingerprint
        && target.reason.Some? && target.transaction.Some?
      else disk.live.None? && target.expectedLive.None?
    }

    lemma TargetExact(target: Target)
      ensures TargetSealed(target) && LiveExpected(target) <==> Sealed(disk, target) && Expected(disk, target)
    {
    }

    /** The marker that publishing `target` writes first. */
    function PreparedFor(target: Target): Marker
      requires target.seal.Some? && target.transaction.Some? && target.expectedLive.Some?
      requires target.fingerprint.Some? && target.reason.Some?
    {
      BuildPrepared(target.transaction.value, target.stagingName, target.container, target.pair, target.seal.value,
                    target.expectedLive.value, target.fingerprint.value, target.reason.value)
    }

    lemma PreparedForPhase(target: Target)
      requires target.seal.Some? && target.transaction.Some? && target.expectedLive.Some?
      requires target.fingerprint.Some? && target.reason.Some?
      ensures PreparedFor(target).payload.phase.Prepared?
    {
    }

    /** The reset that publishing `target` on this disk performs. */
    ghost predicate Publishes(r: Reset, target: Target)
      reads this
    {
      && Holds(r, store) && Staged(r, disk) && target.replace && TargetSealed(target) && LiveExpected(target)
      && PreparedFor(target) == r.prepared
    }

    /**
      Every sealed target on a settled vault without a marker publishes some reset, so what is
      said of published resets is said of all of them.
     */
    lemma TargetPublishes(target: Target) returns (r: Reset)
      requires Valid() && store == Settled(disk) && disk.active.None? && disk.transition.None?
      requires target.replace && TargetSealed(target) && LiveExpected(target) && !disk.container.value.others
      requires disk.live.value.id != target.pair && target.reason.value in REASONS
      requires Observable(EntryIdentityOf(disk.live.value)) && Observable(DirectoryEntryIdentity(target.pair))
      requires Observable(DirectoryEntryIdentity(target.container))
      ensures Published(r) && Publishes(r, target)
    {
      hide Facts, Render, PairDigest, ActivePointerDigest, LiveFingerprint, ValidSeal, SealOf, Maintenance;
      var prepared := PreparedFor(target);
      PreparedForPhase(target);
      var live, pair := disk.live.value, disk.container.value.pair.value;
      r := Reset(live, pair, target.container, target.seal.value, prepared,
                 BuildApplied(prepared, target.container, DirectoryEntryIdentity(pair.id), EntryIdentityOf(live)));
      SealsTarget(r);
      assert ValidReset(r, r.seal.payload.genesis, target.transaction.value, target.stagingName, target.reason.value);
      PublishedFacts(r);
    }

    static lemma SealsTarget(r: Reset)
      requires ValidSeal(r.seal) && PairDigest(r.clean) == Some(r.seal.payload.treeDigest)
      requires ActivePointerDigest(r.clean) == Some(r.seal.payload.activeDigest)
      ensures SealOf(r.clean, r.seal.payload.genesis) == Some(r.seal)
    {
    }

    /** Writes the Prepared marker.  `Some(true)` means that the marker may be there, `Some(false)` that it is not. */
    method PersistPrepared(m: Marker, ghost r: Reset, ghost strict: bool) returns (failed: Option<bool>)
      requires Valid()
      modifies `disk, `store, `history, io
      ensures Valid() && disk == old(disk).(active := disk.active)
      ensures old(io.faulted) ==> io.faulted
      ensures failed == Some(false) ==> disk == old(disk) && store == old(store) && history == old(history)
      ensures failed == None ==>
                && io.faulted == old(io.faulted) && |store.vaultLog| == 1
                && disk == old(disk).(active := Some(Readable(m)))
      ensures disk != old(disk) || failed == None ==> old(disk).active.None?
      ensures m == r.prepared && Holds(r, old(store)) && Staged(r, old(disk)) ==>
                && Path(r, old(history), history, strict) && Holds(r, store)
                && (Staged(r, disk) || PreparedOld(r, disk))
                && (failed == None ==> PreparedOld(r, disk))
                && (!io.faulted ==> failed == None)
    {
      hide Facts, Resumable, Path;
      PathRefl(r, history, strict);
      if m == r.prepared && Holds(r, store) && Staged(r, disk) {
        DidWritePrepared(r, history, history, strict);
        DidSyncVault(r, history, history + [PutActive(store, PreparedFile(r))], strict);
      }
      var k := io.Try();
      if k.Some? {
        return Some(false);
      }
      k := Do(disk.(active := Some(Readable(m))), PutActive(store, Some(Readable(m))),
              if disk.active.Some? then Some(Other) else None);
      if k.Some? {
        return Some(disk.active.Some?);
      }
      k := SyncVaultDirectory();
      if k.Some? {
        return Some(true);
      }
      return None;
    }

    /** Exchanges the pairs, syncs both directories and verifies what is live now. */
    method PublishExchange(target: Target, ghost r: Reset, ghost strict: bool) returns (ok: bool)
      requires Valid() && TargetSealed(target) && disk.live.Some?
      modifies `disk, `store, `history, io
      ensures Valid() && disk.active == old(disk).active && disk.transition == old(disk).transition
      ensures old(io.faulted) ==> io.faulted
      ensures disk.container.Some? && disk.container.value.id == old(disk).container.value.id
      ensures ok ==>
                && io.faulted == old(io.faulted)
                && disk.live == old(disk).container.value.pair && disk.container.value.pair == old(disk).live
      ensures Holds(r, old(store)) && PreparedOld(r, old(disk)) ==>
                && Path(r, old(history), history, strict) && InPrepared(r, store)
                && (ok ==> PreparedNew(r, disk))
                && (!io.faulted ==> ok)
    {
      hide Facts, Resumable, PreparedOld, PreparedNew, Path, PairDigest, ActivePointerDigest, ValidSeal;
      PathRefl(r, history, strict);
      ghost var known := Holds(r, store) && PreparedOld(r, disk);
      if known {
        OldFacts(r, store);
        DidExchangePairs(r, history, history, strict);
      }
      var c := disk.container.value;
      var k := Do(disk.(live := c.pair, container := Some(c.(pair := disk.live))), SwapPairs(store), None);
      if k.Some? {
        return false;
      }
      if known {
        DidSyncVault(r, old(history), history, strict);
      }
      var vaultSync := SyncVaultDirectory();
      if known {
        DidSyncContainer(r, old(history), history, strict);
      }
      var containerSync := SyncContainerDirectory();
      var live := disk.live.value;
      k := io.Check(
        if && PairDigest(live) == Some(target.seal.value.payload.treeDigest)
           && ActivePointerDigest(live) == Some(target.seal.value.payload.activeDigest)
           && disk.container.value.mode == PRIVATE_DIRECTORY
           && live.Dir? && live.mode == PRIVATE_DIRECTORY && live.id == target.pair
        then None else Some(InvalidData));
      return vaultSync.None? && containerSync.None? && k.None?;
    }

    /** Advances the marker of an exchanged reset to Applied. */
    method PersistApplied(target: Target, prepared: Marker, ghost r: Reset, ghost strict: bool)
      returns (res: Option<Marker>)
      requires Valid() && prepared.payload.phase.Prepared?
      modifies `disk, `store, `history, io
      ensures Valid() && disk.live == old(disk).live && disk.container == old(disk).container
      ensures old(io.faulted) ==> io.faulted
      ensures res.Some? ==>
                && io.faulted == old(io.faulted) && |store.vaultLog| == 1
                && disk == old(disk).(active := Some(Readable(res.value)), transition := None)
      ensures && Holds(r, old(store)) && PreparedNew(r, old(disk)) && old(disk).transition.None?
              && prepared == r.prepared
              && target.container == r.container && target.pair == r.clean.id
              && target.expectedLive == Some(EntryIdentityOf(r.former))
              ==>
                && Path(r, old(history), history, strict) && Holds(r, store)
                && (InPrepared(r, store) || InMaintenance(r, store))
                && (res.Some? ==> res.value == r.applied && InMaintenance(r, store))
                && (!io.faulted ==> res.Some?)
    {
      hide Facts, Resumable, Maintenance, PreparedOld, PreparedNew, Path, BuildApplied, Render;
      hide EvidenceVerdict, TopologyVerdict, PostExchangeVerdict, SealVerdict, ValidMarker, ParseDirectory, ParseEntry;
      PathRefl(r, history, strict);
      if && Holds(r, store) && PreparedNew(r, disk) && disk.transition.None? && prepared == r.prepared
         && target.container == r.container && target.pair == r.clean.id
         && target.expectedLive == Some(EntryIdentityOf(r.former)) {
        PreparedFacts(r, store);
        NewFacts(r, store);
      }
      var k := io.Check(
        if || disk.live.None? || disk.container.None? || disk.container.value.pair.None?
           || EntryIdentityOf(disk.live.value) != DirectoryEntryIdentity(target.pair)
           || target.expectedLive != Some(EntryIdentityOf(disk.container.value.pair.value))
        then Some(InvalidData) else None);
      if k.Some? {
        return None;
      }
      var applied := BuildApplied(prepared, target.container,
                                  EntryIdentityOf(disk.live.value), EntryIdentityOf(disk.container.value.pair.value));
      var ok := ReplaceMarker(prepared, applied, r, strict);
      return if ok then Some(applied) else None;
    }

    /** Replaces the live pair: marker, exchange, marker. */
    method PublishReplacement(target: Target, ghost r: Reset, ghost strict: bool) returns (out: Publication)
      requires Valid() && !autoDelete && target.replace && TargetSealed(target) && LiveExpected(target)
      modifies `disk, `store, `history, io
      ensures Valid()
      ensures old(io.faulted) ==> io.faulted
      ensures !out.ReadyStorage?
      ensures out.FailedIo? ==> disk == old(disk) && store == old(store)
      ensures disk.container.Some? && disk.container.value.id == old(disk).container.value.id
      ensures out.InMaintenanceWith? ==>
                && disk.active == Some(Readable(out.capability.marker)) && disk.transition.None?
                && disk.live == old(disk).container.value.pair && disk.container.value.pair == old(disk).live
                && out.capability.container == Some(disk.container.value.id)
      ensures old(Publishes(r, target)) ==>
                && Path(r, old(history), history, strict) && Holds(r, store)
                && (Staged(r, disk) || InPrepared(r, store) || InMaintenance(r, store))
                && (out.InMaintenanceWith? ==> Ready(r, out.capability) && !PreparedMayReturn(r, store))
                && (!io.faulted ==> out.InMaintenanceWith?)
    {
      hide Facts, Resumable, Maintenance, PreparedOld, PreparedNew, Path, PreparedMayReturn;
      hide PairDigest, ActivePointerDigest, ValidSeal, LiveFingerprint, BuildPrepared;
      ghost var known := Publishes(r, target);
      var prepared := PreparedFor(target);
      PreparedForPhase(target);
      if known {
        StagedFacts(r, store);
      }
      var failed := PersistPrepared(prepared, r, strict);
      if failed.Some? {
        return if failed.value then PublishedButUnsynced else FailedIo;
      }
      ghost var h1 := history;
      var ok := PublishExchange(target, r, strict);
      if known {
        PathTrans(r, old(history), h1, history, strict);
      }
      if !ok {
        return PublishedButUnsynced;
      }
      var k := io.Try();
      if k.Some? {
        return PublishedButUnsynced;
      }
      if known {
        NewFacts(r, store);
      }
      ghost var h2 := history;
      var applied := PersistApplied(target, prepared, r, strict);
      if known {
        PathTrans(r, old(history), h2, history, strict);
      }
      if applied.None? {
        return PublishedButUnsynced;
      }
      if known {
        SyncedMaintenance(r, store);
      }
      k := io.Try();
      if k.Some? {
        return PublishedButUnsynced;
      }
      return InMaintenanceWith(Capability(applied.value, Some(disk.container.value.id)));
    }

    /** Publishes where nothing is live yet: the pair moves out of its container. */
    method PublishAbsent(target: Target) returns (out: Publication)
      requires Valid() && !autoDelete && !target.replace && TargetSealed(target) && LiveExpected(target)
      modifies `disk, `store, `history, io
      ensures Valid()
      ensures old(io.faulted) ==> io.faulted
      ensures !out.InMaintenanceWith?
      ensures out.FailedIo? ==> disk == old(disk) && store == old(store)
      ensures disk.active == old(disk).active && disk.transition == old(disk).transition
      ensures disk.container.Some? && disk.container.value.id == old(disk).container.value.id
      ensures out.ReadyStorage? ==> disk.live == old(disk).container.value.pair && disk.container.value.pair.None?
      ensures out.ReadyStorage? ==>
                io.faulted == old(io.faulted) && |store.vaultLog| == 1 && |store.containerLog| == 1
      ensures !io.faulted ==> out.ReadyStorage?
    {
      hide PairDigest, ActivePointerDigest, ValidSeal;
      var c := disk.container.value;
      var moved := c.(pair := None);
      var d := disk.(live := c.pair, container := Some(moved));
      ghost var next := store.(disk := d, vaultLog := store.vaultLog + [VaultViewOf(d)],
      containerLog := store.containerLog + [ContainerViewOf(moved)]);
      var k := Do(d, next, None);
      if k.Some? {
        return FailedIo;
      }
      var vaultSync := SyncVaultDirectory();
      var containerSync := SyncContainerDirectory();
      var live := disk.live.value;
      k := io.Check(
        if && PairDigest(live) == Some(target.seal.value.payload.treeDigest)
           && ActivePointerDigest(live) == Some(target.seal.value.payload.activeDigest)
           && live.Dir? && live.mode == PRIVATE_DIRECTORY && live.id == target.pair
        then None else Some(InvalidData));
      if vaultSync.Some? || containerSync.Some? || k.Some? {
        return PublishedButUnsynced;
      }
      k := io.Try();
      return if k.Some? then PublishedButUnsynced else ReadyStorage;
    }

    /**
      Publishes a sealed target and drops what is left of it.  `FailedIo` means that the live
      entry is untouched, no marker was written and the claims are released;
      `PublishedButUnsynced` means that the claims stay set and the container stays in place.
      The container is deleted only if no marker was written.
     */
    method Publish(target: Target, ghost r: Reset, ghost strict: bool) returns (out: Publication)
      requires Valid() && claimed && autoDelete
      modifies this, io
      ensures Valid()
      ensures old(io.faulted) ==> io.faulted
      ensures out.FailedIo? ==>
                && disk.live == old(disk).live && disk.active == old(disk).active
                && disk.transition == old(disk).transition
                && !claimed
      ensures !out.FailedIo? ==> claimed
      ensures autoDelete <==> out.FailedIo? || out.ReadyStorage?
      ensures autoDelete ==> disk.active == old(disk).active
      ensures !autoDelete ==>
                && disk.container.Some? && old(disk).container.Some?
                && disk.container.value.id == old(disk).container.value.id
      ensures out.ReadyStorage? ==>
                !target.replace && old(disk).container.Some? && disk.live == old(disk).container.value.pair
      ensures out.InMaintenanceWith? ==>
                && target.replace && disk.active == Some(Readable(out.capability.marker)) && disk.transition.None?
                && old(disk).container.Some? && disk.live == old(disk).container.value.pair
                && disk.container.value.pair == old(disk).live
      ensures autoDelete && !io.faulted ==> disk.container.None?
      ensures !out.FailedIo? ==> Sealed(old(disk), target) && Expected(old(disk), target)
      ensures out.ReadyStorage? || out.InMaintenanceWith? ==>
                && disk.live.Some? && disk.live.value.Dir?
                && disk.live.value.mode == 448 && disk.live.value.id == target.pair
                && PairDigest(disk.live.value) == Some(target.seal.value.payload.treeDigest)
                && ActivePointerDigest(disk.live.value) == Some(target.seal.value.payload.activeDigest)
      ensures !io.faulted && !(Sealed(old(disk), target) && Expected(old(disk), target)) ==> out.FailedIo?
      ensures old(Publishes(r, target)) && !out.FailedIo? ==>
                && Path(r, old(history), history, strict) && Holds(r, store)
                && (Staged(r, disk) || InPrepared(r, store) || InMaintenance(r, store))
                && (out.InMaintenanceWith? ==> Ready(r, out.capability) && !PreparedMayReturn(r, store))
      ensures old(Publishes(r, target)) && !io.faulted ==> out.InMaintenanceWith?
    {
      hide Facts, Resumable, Maintenance, PreparedOld, PreparedNew, Path, PreparedMayReturn, Staged;
      hide PairDigest, ActivePointerDigest, ValidSeal, LiveFingerprint, BuildPrepared;
      TargetExact(target);
      hide Sealed, Expected;
      out := FailedIo;
      var k := io.Check(if TargetSealed(target) && LiveExpected(target) then None else Some(InvalidData));
      if k.None? {
        autoDelete := false;
        if target.replace {
          out := PublishReplacement(target, r, strict);
        } else {
          out := PublishAbsent(target);
        }
      }
      autoDelete := out.FailedIo? || out.ReadyStorage?;
      if out.FailedIo? {
        claimed := false;
      }
      if autoDelete && disk.container.Some? {
        k := Do(disk.(container := None), DropContainer(store), None);
      }
    }
  }
}
