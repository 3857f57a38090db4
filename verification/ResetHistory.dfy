/**
  Histories of a vault and what one more change adds to them: the link between the code of
  `ResetStore` and the protocol of `ResetProtocol`.
 */
module ResetHistory {
  import opened Wrappers
  import opened Faults
  import opened FileTree
  import opened Modes
  import opened Quarantine
  import opened Marker
  import opened ResetProtocol
  import opened ResetProgress
  import opened ResetChecks

  // ---------------------------------------------------------------------------------------
  // Histories
  // ---------------------------------------------------------------------------------------

  /** `h1` continues `h0` by steps of the protocol. */
  ghost predicate Path(r: Reset, h0: seq<Store>, h1: seq<Store>, strict: bool)
    decreases |h1|
  {
    || h1 == h0
    || (&& |h1| > |h0| && |h1| > 1
        && Step(r, h1[|h1| - 2], h1[|h1| - 1], strict)
        && Path(r, h0, h1[..|h1| - 1], strict))
  }

  lemma {:induction false} PathTrans(r: Reset, h0: seq<Store>, h1: seq<Store>, h2: seq<Store>, strict: bool)
    requires Path(r, h0, h1, strict) && Path(r, h1, h2, strict)
    ensures Path(r, h0, h2, strict)
    decreases |h2|
  {
    if h1 != h2 {
      PathTrans(r, h0, h1, h2[..|h2| - 1], strict);
      PathLonger(r, h0, h1, strict);
    }
  }

  lemma {:induction false} PathLonger(r: Reset, h0: seq<Store>, h1: seq<Store>, strict: bool)
    requires Path(r, h0, h1, strict)
    ensures |h1| >= |h0| && h1[..|h0|] == h0
    decreases |h1|
  {
    if h1 != h0 {
      PathLonger(r, h0, h1[..|h1| - 1], strict);
    }
  }

  lemma PathRefl(r: Reset, h: seq<Store>, strict: bool)
    ensures Path(r, h, h, strict)
  {
  }

  /** A process that stops on the way has made a path, too. */
  lemma {:induction false} PathPrefix(r: Reset, h0: seq<Store>, h1: seq<Store>, n: nat, strict: bool)
    requires Path(r, h0, h1, strict) && |h0| <= n <= |h1|
    ensures Path(r, h0, h1[..n], strict)
    decreases |h1|
  {
    if n == |h1| {
      assert h1[..n] == h1;
    } else {
      PathPrefix(r, h0, h1[..|h1| - 1], n, strict);
      assert h1[..|h1| - 1][..n] == h1[..n];
    }
  }

  /** The vault holds reset `r` in a state from which it can go on. */
  ghost predicate Holds(r: Reset, s: Store) {
    Facts(r) && Resumable(r, s)
  }

  /** Performing an enabled action continues a history. */
  lemma Acted(r: Reset, h0: seq<Store>, h: seq<Store>, a: Action, strict: bool)
    requires |h| > 0 && Path(r, h0, h, strict) && Holds(r, h[|h| - 1]) && Enabled(r, h[|h| - 1], a)
    requires strict && Destructive(a) ==> !PreparedMayReturn(r, h[|h| - 1])
    ensures var s' := Perform(r, h[|h| - 1], a);
            Path(r, h0, h + [s'], strict) && Holds(r, s')
  {
    var s := h[|h| - 1];
    var s' := Perform(r, s, a);
    Advanced(r, s, s', a);
    PathLonger(r, h0, h, strict);
    assert (h + [s'])[..|h|] == h;
    assert Step(r, s, s', strict);
  }

  lemma Advanced(r: Reset, s: Store, s': Store, a: Action)
    requires Holds(r, s) && Enabled(r, s, a) && s' == Perform(r, s, a)
    ensures Holds(r, s')
  {
    hide Enabled, Perform, Recognised, Tidy;
    assert Coherent(r);
    StepRecognised(r, s, s', a);
    StepTidy(r, s, s', a);
  }

  /** The states of a removal in the quarantine as states of the vault. */
  ghost function Embed(s: Store, steps: seq<Quarantined>): (h: seq<Store>)
    requires s.disk.container.Some?
    ensures |h| == |steps| && forall i :: 0 <= i < |h| ==> h[i] == PutQuarantine(s, steps[i])
  {
    seq(|steps|, i requires 0 <= i < |steps| => PutQuarantine(s, steps[i]))
  }

  /** The quarantined tree is there and may be taken apart. */
  ghost predicate Removing(r: Reset, s: Store, strict: bool) {
    && Holds(r, s) && Maintenance(r, s.disk) && s.disk.transition.None?
    && s.disk.container.Some? && s.disk.container.value.pair.Some?
    && (strict ==> !PreparedMayReturn(r, s))
  }

  lemma DidShrink(r: Reset, h0: seq<Store>, h: seq<Store>, q: Quarantined, strict: bool)
    requires |h| > 0 && Path(r, h0, h, strict) && Removing(r, h[|h| - 1], strict)
    requires var s := h[|h| - 1];
             QuarantineStep(Quarantined(s.disk.container.value.pair.value, s.dirty), q, {})
    ensures var s' := PutQuarantine(h[|h| - 1], q);
            Path(r, h0, h + [s'], strict) && Removing(r, s', strict)
  {
    hide Facts, Recognised, Tidy, QuarantineStep, Path, Step;
    var s := h[|h| - 1];
    Acted(r, h0, h, Shrink(q), strict);
    assert Coherent(r) by { FactsCoherent(r); }
    ShrinkFacts(r, s, q);
  }

  lemma FactsCoherent(r: Reset)
    requires Facts(r)
    ensures Coherent(r)
  {
  }

  lemma {:induction false} Removed(r: Reset, h0: seq<Store>, h: seq<Store>, steps: seq<Quarantined>, strict: bool)
    requires |h| > 0 && Path(r, h0, h, strict) && Removing(r, h[|h| - 1], strict) && Chain(steps, {})
    requires var s := h[|h| - 1];
             steps[0] == Quarantined(s.disk.container.value.pair.value, s.dirty)
    ensures var s := h[|h| - 1];
            var h' := h + Embed(s, steps)[1..];
            && Path(r, h0, h', strict)
            && h'[|h'| - 1] == PutQuarantine(s, steps[|steps| - 1])
            && Removing(r, h'[|h'| - 1], strict)
    decreases |steps|
  {
    hide Holds, Maintenance, QuarantineStep, Path, PreparedMayReturn;
    var s := h[|h| - 1];
    if |steps| == 1 {
      assert h + Embed(s, steps)[1..] == h;
    } else {
      var init := steps[..|steps| - 1];
      Removed(r, h0, h, init, strict);
      var h1 := h + Embed(s, init)[1..];
      var q := steps[|steps| - 1];
      DidShrink(r, h0, h1, q, strict);
      assert PutQuarantine(h1[|h1| - 1], q) == PutQuarantine(s, q);
      assert h + Embed(s, steps)[1..] == h1 + [PutQuarantine(s, q)];
    }
  }

  // ---------------------------------------------------------------------------------------
  // Maintenance, as the code meets it
  // ---------------------------------------------------------------------------------------

  /** The reset is in maintenance. */
  ghost predicate InMaintenance(r: Reset, s: Store) {
    Holds(r, s) && Maintenance(r, s.disk)
  }

  /** No check of the maintenance code fails on the disk of a reset in maintenance. */
  lemma MaintenanceFacts(r: Reset, s: Store)
    requires InMaintenance(r, s)
    ensures s.disk.active == Some(Readable(r.applied)) && s.disk.live == Some(r.clean)
    ensures r.applied.payload.phase.Applied?
    ensures LiveVerdict(s.disk, r.applied, None) == None && LiveVerdict(s.disk, r.applied, Some(r.seal)) == None
    ensures ClearVerdict(s.disk.active, r.applied) == None
  {
  }

  /** The markers of a reset in maintenance are the ones that the code expects or rebuilds. */
  lemma MaintenanceEvidence(r: Reset, s: Store)
    requires InMaintenance(r, s)
    ensures EvidenceVerdict(s.disk.active, r.applied) == None
    ensures s.disk.transition.Some? ==>
              && EvidenceVerdict(s.disk.transition, r.prepared) == None
              && EvidenceVerdict(s.disk.transition, RebuildPrepared(r.applied)) == None
  {
  }

  lemma MaintenanceContainer(r: Reset, s: Store)
    requires InMaintenance(r, s) && s.disk.container.Some?
    ensures var c := s.disk.container.value;
            && c.id == r.container && c.mode == PRIVATE_DIRECTORY && !c.others
            && ContainerIdentity(c, r.applied.payload.phase.binding)
            && (c.seal.Some? ==> c.seal == Some(ReadableSeal(r.seal)) && SealVerdict(c.seal.value) == None)
            && (c.pair.Some? ==>
                  && c.seal.Some? && WellNamed(c.pair.value)
                  && QuarantineIdentityVerdict(r.applied, c.pair.value) == None
                  && (QuarantineAcceptable(r.former) ==> QuarantineAcceptable(c.pair.value)))
  {
    hide Tidy, Recognised, TargetVerdict, ValidMarker, QuarantineAcceptable;
    var c := s.disk.container.value;
    if c.pair.Some? {
      RemainderIdentity(r, c.pair.value);
      RemainderNames(r.former, c.pair.value);
      if QuarantineAcceptable(r.former) {
        RemainderAcceptable(r.former, c.pair.value);
      }
    }
  }

  /** Preflight passes in maintenance if the old tree can be traversed. */
  lemma MaintenancePreflight(r: Reset, s: Store)
    requires InMaintenance(r, s) && QuarantineAcceptable(r.former)
    ensures PreflightVerdict(s.disk, r.applied) == None
  {
    hide Tidy, Facts, TargetVerdict, ValidMarker, QuarantineAcceptable, LayoutVerdict, PreflightVerdict;
    MaintenanceFacts(r, s);
    if s.disk.container.Some? {
      MaintenanceContainer(r, s);
    }
    PreflightPasses(r, s.disk, r.applied);
  }

  lemma DidUnlinkTransition(r: Reset, h0: seq<Store>, h: seq<Store>, strict: bool)
    requires |h| > 0 && Path(r, h0, h, strict) && InMaintenance(r, h[|h| - 1]) && h[|h| - 1].disk.transition.Some?
    ensures var s' := PutTransition(h[|h| - 1], None);
            Path(r, h0, h + [s'], strict) && InMaintenance(r, s')
  {
    hide Facts, Recognised, Tidy, Path, Step;
    Acted(r, h0, h, UnlinkTransition, strict);
  }

  lemma DidSyncVault(r: Reset, h0: seq<Store>, h: seq<Store>, strict: bool)
    requires |h| > 0 && Path(r, h0, h, strict) && Holds(r, h[|h| - 1])
    ensures var s' := VaultSynced(h[|h| - 1]);
            Path(r, h0, h + [s'], strict) && Holds(r, s')
  {
    hide Facts, Recognised, Tidy, Path, Step;
    Acted(r, h0, h, SyncVault, strict);
  }

  lemma DidSyncContainer(r: Reset, h0: seq<Store>, h: seq<Store>, strict: bool)
    requires |h| > 0 && Path(r, h0, h, strict) && Holds(r, h[|h| - 1]) && h[|h| - 1].disk.container.Some?
    ensures var s' := ContainerSynced(h[|h| - 1]);
            Path(r, h0, h + [s'], strict) && Holds(r, s')
  {
    hide Facts, Recognised, Tidy, Path, Step;
    Acted(r, h0, h, SyncContainer, strict);
  }

  lemma SamePrepared(r: Reset, s: Store, s': Store)
    requires s.vaultLog == s'.vaultLog
    ensures PreparedMayReturn(r, s) == PreparedMayReturn(r, s')
  {
  }

  /** Once the vault is synced in maintenance no Prepared marker returns. */
  lemma SyncedMaintenance(r: Reset, s: Store)
    requires InMaintenance(r, s) && |s.vaultLog| == 1
    ensures !PreparedMayReturn(r, s)
  {
    hide Recognised, ValidMarker, TargetVerdict;
  }

  lemma RemovingDirty(r: Reset, s: Store, strict: bool)
    requires Removing(r, s, strict)
    ensures s.dirty <= DirectoryIds(s.disk.container.value.pair.value)
  {
  }

  lemma DidRemovePair(r: Reset, h0: seq<Store>, h: seq<Store>, strict: bool)
    requires |h| > 0 && Path(r, h0, h, strict) && Removing(r, h[|h| - 1], strict)
    requires Removable(h[|h| - 1].disk.container.value.pair.value) && h[|h| - 1].dirty == {}
    ensures var s' := DropPair(h[|h| - 1]);
            Path(r, h0, h + [s'], strict) && InMaintenance(r, s')
  {
    hide Facts, Recognised, Tidy, Path, Step;
    Acted(r, h0, h, RemovePair, strict);
  }

  /** Changes in the container do not bring a Prepared marker back. */
  lemma KeepsPrepared(r: Reset, s: Store, strict: bool)
    requires s.disk.container.Some? && (strict ==> !PreparedMayReturn(r, s))
    ensures strict ==> !PreparedMayReturn(r, DropPair(s)) && !PreparedMayReturn(r, DropSeal(s))
    ensures strict ==> !PreparedMayReturn(r, ContainerSynced(DropPair(s))) && !PreparedMayReturn(r, ContainerSynced(s))
  {
  }

  /** The container may lose its seal, and then go. */
  ghost predicate Emptied(r: Reset, s: Store, strict: bool) {
    && InMaintenance(r, s) && s.disk.transition.None?
    && s.disk.container.Some? && s.disk.container.value.pair.None? && |s.containerLog| == 1
    && (strict ==> !PreparedMayReturn(r, s))
  }

  lemma EmptiedClean(r: Reset, s: Store, strict: bool)
    requires Emptied(r, s, strict)
    ensures s.dirty == {}
  {
  }

  lemma DidRemoveSeal(r: Reset, h0: seq<Store>, h: seq<Store>, strict: bool)
    requires |h| > 0 && Path(r, h0, h, strict) && Emptied(r, h[|h| - 1], strict)
    requires h[|h| - 1].disk.container.value.seal.Some?
    ensures var s' := DropSeal(h[|h| - 1]);
            Path(r, h0, h + [s'], strict) && InMaintenance(r, s')
  {
    hide Facts, Recognised, Tidy, Path, Step;
    EmptiedClean(r, h[|h| - 1], strict);
    Acted(r, h0, h, RemoveSeal, strict);
  }

  lemma DidRemoveContainer(r: Reset, h0: seq<Store>, h: seq<Store>, strict: bool)
    requires |h| > 0 && Path(r, h0, h, strict) && Emptied(r, h[|h| - 1], strict)
    requires h[|h| - 1].disk.container.value.seal.None?
    ensures var s' := DropContainer(h[|h| - 1]);
            Path(r, h0, h + [s'], strict) && InMaintenance(r, s')
  {
    hide Facts, Recognised, Tidy, Path, Step;
    EmptiedClean(r, h[|h| - 1], strict);
    Acted(r, h0, h, RemoveContainer, strict);
  }

  lemma DidClearMarker(r: Reset, h0: seq<Store>, h: seq<Store>, strict: bool)
    requires |h| > 0 && Path(r, h0, h, strict) && InMaintenance(r, h[|h| - 1])
    requires h[|h| - 1].disk.transition.None? && h[|h| - 1].disk.container.None? && |h[|h| - 1].vaultLog| == 1
    ensures var s' := PutActive(h[|h| - 1], None);
            Path(r, h0, h + [s'], strict) && Holds(r, s') && Done(r, s'.disk)
  {
    hide Facts, Recognised, Path, Step;
    Acted(r, h0, h, ClearMarker, strict);
  }

  // ---------------------------------------------------------------------------------------
  // The prepared phase, as the code meets it
  // ---------------------------------------------------------------------------------------

  /** The first marker is written and the second is not in place yet. */
  ghost predicate InPrepared(r: Reset, s: Store) {
    Holds(r, s) && (PreparedOld(r, s.disk) || PreparedNew(r, s.disk))
  }

  /** What recovery reads in the prepared phase, and the marker it rebuilds from it. */
  lemma PreparedFacts(r: Reset, s: Store)
    requires InPrepared(r, s)
    ensures s.disk.active == Some(Readable(r.prepared)) && r.prepared.payload.phase.Prepared?
    ensures r.applied.payload.phase.Applied?
    ensures EvidenceVerdict(s.disk.active, r.prepared) == None && ValidMarker(r.prepared)
    ensures EvidenceVerdict(Some(Readable(r.applied)), r.applied) == None
    ensures s.disk.transition.None? || s.disk.transition == Some(Readable(r.applied))
    ensures s.disk.container.Some?
    ensures var c := s.disk.container.value;
            && c.id == r.container && c.mode == PRIVATE_DIRECTORY && !c.others
            && c.seal == Some(ReadableSeal(r.seal)) && SealVerdict(c.seal.value) == None
    ensures var b := r.prepared.payload.phase.binding;
            && Render(DirectoryEntryIdentity(r.container)) == b.container
            && ParseDirectory(b.target) == Some(r.clean.id)
            && ParseEntry(b.expectedLive) == Some(EntryIdentityOf(r.former))
            && r.applied ==
               BuildApplied(r.prepared, r.container, DirectoryEntryIdentity(r.clean.id), EntryIdentityOf(r.former))
  {
    hide Tidy, Recognised, TargetVerdict, LiveFingerprint;
  }

  /** Before the exchange of the pairs both pairs are what the marker binds. */
  lemma OldFacts(r: Reset, s: Store)
    requires Holds(r, s) && PreparedOld(r, s.disk)
    ensures s.disk.live == Some(r.former) && s.disk.transition.None?
    ensures s.disk.container.Some? && s.disk.container.value.pair == Some(r.clean)
    ensures EntryIdentityOf(r.clean) == DirectoryEntryIdentity(r.clean.id)
    ensures EntryIdentityOf(r.former) != EntryIdentityOf(r.clean)
    ensures BindingVerdict(r.clean, r.seal, r.prepared.payload.phase.binding) == None
    ensures LiveFingerprint(r.former) == Some(r.prepared.payload.phase.binding.liveFingerprint)
  {
  }

  lemma TransitionMeansNew(r: Reset, s: Store)
    requires InPrepared(r, s) && s.disk.transition.Some?
    ensures PreparedNew(r, s.disk)
  {
  }

  /** After it they have changed places. */
  lemma NewFacts(r: Reset, s: Store)
    requires Holds(r, s) && PreparedNew(r, s.disk)
    ensures s.disk.live == Some(r.clean)
    ensures s.disk.container.Some? && s.disk.container.value.pair == Some(r.former)
    ensures EntryIdentityOf(r.clean) == DirectoryEntryIdentity(r.clean.id)
    ensures EntryIdentityOf(r.former) != EntryIdentityOf(r.clean)
    ensures var b := r.prepared.payload.phase.binding;
            PostExchangeVerdict(s.disk, r.clean.id, EntryIdentityOf(r.former), b, r.seal) == None
    ensures TopologyVerdict(s.disk, r.applied) == None
  {
    hide Tidy, Recognised, ValidMarker;
  }

  /** The topology check looks at the pairs and the container only. */
  lemma SameTopology(d: Disk, d': Disk, m: Marker)
    requires d.live == d'.live && d.container == d'.container
    ensures TopologyVerdict(d, m) == TopologyVerdict(d', m)
  {
  }

  lemma PreparedPreflight(r: Reset, s: Store)
    requires InPrepared(r, s)
    ensures PreflightVerdict(s.disk, r.prepared) == None && MarkerVerdict(Readable(r.prepared)) == None
  {
    hide Tidy, TargetVerdict, LayoutVerdict, PreflightVerdict;
    PreflightPasses(r, s.disk, r.prepared);
  }

  lemma DidWritePrepared(r: Reset, h0: seq<Store>, h: seq<Store>, strict: bool)
    requires |h| > 0 && Path(r, h0, h, strict) && Holds(r, h[|h| - 1]) && Staged(r, h[|h| - 1].disk)
    ensures var s' := PutActive(h[|h| - 1], PreparedFile(r));
            Path(r, h0, h + [s'], strict) && Holds(r, s') && PreparedOld(r, s'.disk)
  {
    hide Facts, Recognised, Tidy, Path, Step;
    Acted(r, h0, h, WritePrepared, strict);
  }

  lemma DidExchangePairs(r: Reset, h0: seq<Store>, h: seq<Store>, strict: bool)
    requires |h| > 0 && Path(r, h0, h, strict) && Holds(r, h[|h| - 1]) && PreparedOld(r, h[|h| - 1].disk)
    ensures var s' := SwapPairs(h[|h| - 1]);
            Path(r, h0, h + [s'], strict) && Holds(r, s') && PreparedNew(r, s'.disk)
  {
    hide Facts, Recognised, Tidy, Path, Step;
    Acted(r, h0, h, ExchangePairs, strict);
  }

  lemma DidWriteTransition(r: Reset, h0: seq<Store>, h: seq<Store>, strict: bool)
    requires |h| > 0 && Path(r, h0, h, strict) && Holds(r, h[|h| - 1]) && PreparedNew(r, h[|h| - 1].disk)
    requires h[|h| - 1].disk.transition.None?
    ensures var s' := PutTransition(h[|h| - 1], AppliedFile(r));
            Path(r, h0, h + [s'], strict) && Holds(r, s') && PreparedNew(r, s'.disk)
  {
    hide Facts, Recognised, Tidy, Path, Step;
    Acted(r, h0, h, WriteTransition, strict);
  }

  lemma DidExchangeMarkers(r: Reset, h0: seq<Store>, h: seq<Store>, strict: bool)
    requires |h| > 0 && Path(r, h0, h, strict) && Holds(r, h[|h| - 1]) && PreparedNew(r, h[|h| - 1].disk)
    requires h[|h| - 1].disk.transition.Some?
    ensures var s' := SwapMarkers(h[|h| - 1]);
            Path(r, h0, h + [s'], strict) && InMaintenance(r, s')
  {
    hide Facts, Recognised, Tidy, Path, Step;
    RemainderRefl(r.former);
    Acted(r, h0, h, ExchangeMarkers, strict);
  }

  /** A reset with a marker is in one of its two phases. */
  lemma ActiveMeans(r: Reset, s: Store)
    requires Holds(r, s) && s.disk.active.Some?
    ensures InPrepared(r, s) || InMaintenance(r, s)
    ensures !(InPrepared(r, s) && InMaintenance(r, s))
  {
    hide Tidy, TargetVerdict, ValidMarker;
  }

  lemma PreparedActive(r: Reset, s: Store)
    requires InPrepared(r, s)
    ensures s.disk.active == Some(Readable(r.prepared)) && r.prepared.payload.phase.Prepared?
  {
  }

  lemma MaintenanceRead(r: Reset, s: Store)
    requires InMaintenance(r, s)
    ensures s.disk.active == Some(Readable(r.applied)) && r.applied.payload.phase.Applied?
    ensures MarkerVerdict(Readable(r.applied)) == None
  {
  }

  lemma StagedFacts(r: Reset, s: Store)
    requires Holds(r, s) && Staged(r, s.disk)
    ensures s.disk.live == Some(r.former) && s.disk.active.None? && s.disk.transition.None?
    ensures s.disk.container.Some? && s.disk.container.value.pair == Some(r.clean)
    ensures s.disk.container.value.id == r.container
  {
  }

  /** What recovery reads off a damaged disk before it refuses it. */
  lemma DamagedFacts(r: Reset, d: Disk)
    requires Facts(r) && Damaged(r, d) && QuarantineAcceptable(r.former) && d.container.value.pair.Some?
    ensures var b := r.prepared.payload.phase.binding;
            && d.container.value.mode == PRIVATE_DIRECTORY && d.container.value.seal == Some(ReadableSeal(r.seal))
            && Render(DirectoryEntryIdentity(d.container.value.id)) == b.container
            && SealVerdict(ReadableSeal(r.seal)) == None
            && ParseDirectory(b.target) == Some(r.clean.id)
            && ParseEntry(b.expectedLive) == Some(EntryIdentityOf(r.former))
            && d.live.Some? && EntryIdentityOf(d.live.value) != EntryIdentityOf(r.former)
            && PostExchangeVerdict(d, r.clean.id, EntryIdentityOf(r.former), b, r.seal) == Some(InvalidData)
  {
    hide PostExchangeVerdict, PreflightVerdict, Render, ParseDirectory, ParseEntry;
    DamagedRefused(r, d);
  }

  lemma DamagedRead(r: Reset, d: Disk)
    requires Facts(r) && Damaged(r, d)
    ensures d.active == Some(Readable(r.prepared)) && r.prepared.payload.phase.Prepared? && d.container.Some?
    ensures MarkerVerdict(Readable(r.prepared)) == None
    ensures d.container.value.pair.None? ==> PreflightVerdict(d, r.prepared) == Some(ResetManualIntervention)
    ensures d.container.value.pair.Some? ==> PreflightVerdict(d, r.prepared) == None
  {
    hide PreflightVerdict, PostExchangeVerdict, MarkerVerdict;
    DamagedExact(r, d);
  }

  /** Something else sits in the place of the clean pair. */
  ghost predicate IsAltered(r: Reset, d: Disk) {
    exists t :: Altered(r, t, d)
  }

  /** What recovery reads off a prepared reset whose clean pair is not the sealed one. */
  lemma AlteredFacts(r: Reset, d: Disk)
    requires IsAltered(r, d) && d.active == PreparedFile(r)
    ensures var b := r.prepared.payload.phase.binding;
            && d.container.Some? && d.container.value.mode == PRIVATE_DIRECTORY
            && d.container.value.seal == Some(ReadableSeal(r.seal)) && SealVerdict(ReadableSeal(r.seal)) == None
            && Render(DirectoryEntryIdentity(d.container.value.id)) == b.container
            && ParseDirectory(b.target) == Some(r.clean.id)
            && ParseEntry(b.expectedLive) == Some(EntryIdentityOf(r.former))
            && d.live.Some? && d.container.value.pair.Some?
            && (d.transition.None? && EntryIdentityOf(d.live.value) == EntryIdentityOf(r.former) ==>
                  && EntryIdentityOf(d.container.value.pair.value) == DirectoryEntryIdentity(r.clean.id)
                  && BindingVerdict(d.container.value.pair.value, r.seal, b) == Some(InvalidData))
            && (d.transition.Some? || EntryIdentityOf(d.live.value) != EntryIdentityOf(r.former) ==>
                  && EntryIdentityOf(d.live.value) != EntryIdentityOf(r.former)
                  && PostExchangeVerdict(d, r.clean.id, EntryIdentityOf(r.former), b, r.seal) == Some(InvalidData))
  {
    hide PostExchangeVerdict, BindingVerdict, LiveVerdict, Render, ParseDirectory, ParseEntry, SealedPair;
    var t :| Altered(r, t, d);
    AlteredRefused(r, t, d);
  }

  lemma AlteredRead(r: Reset, d: Disk)
    requires IsAltered(r, d)
    ensures d.active == Some(Readable(r.prepared)) || d.active == Some(Readable(r.applied))
    ensures MarkerVerdict(d.active.value) == None
    ensures r.prepared.payload.phase.Prepared? && r.applied.payload.phase.Applied?
    ensures PreflightVerdict(d, d.active.value.marker) in {None, Some(ResetManualIntervention)}
    ensures d.container.Some? && d.container.value.seal.Some? ==>
              d.container.value.seal == Some(ReadableSeal(r.seal)) && SealVerdict(ReadableSeal(r.seal)) == None
    ensures d.active == Some(Readable(r.applied)) ==>
              forall seal :: LiveVerdict(d, r.applied, seal) == Some(InvalidData)
  {
    hide PostExchangeVerdict, BindingVerdict, LiveVerdict, SealedPair, QuarantineVerdict;
    var t :| Altered(r, t, d);
    AlteredRefused(r, t, d);
  }

  // ---------------------------------------------------------------------------------------
  // Paths that are not strict
  // ---------------------------------------------------------------------------------------

  /** Between the two histories the disk changed while the vault root was neither changed nor synced. */
  ghost predicate Unsynced(h0: seq<Store>, h1: seq<Store>) {
    && |h0| > 0
    && exists i :: && |h0| <= i < |h1| && h1[i].disk != h0[|h0| - 1].disk
                   && h1[i].vaultLog == h0[|h0| - 1].vaultLog
  }

  lemma UnsyncedNow(r: Reset, h0: seq<Store>, h1: seq<Store>, strict: bool)
    requires |h0| > 0 && |h1| > 0 && Path(r, h0, h1, strict)
    requires h1[|h1| - 1].disk != h0[|h0| - 1].disk && h1[|h1| - 1].vaultLog == h0[|h0| - 1].vaultLog
    ensures Unsynced(h0, h1)
  {
    PathLonger(r, h0, h1, strict);
    assert h1[..|h0|][|h0| - 1] == h1[|h0| - 1];
  }

  lemma UnsyncedLater(r: Reset, h0: seq<Store>, h1: seq<Store>, h2: seq<Store>, strict: bool)
    requires Unsynced(h0, h1) && Path(r, h1, h2, strict)
    ensures Unsynced(h0, h2)
  {
    PathLonger(r, h1, h2, strict);
    var i :| |h0| <= i < |h1| && h1[i].disk != h0[|h0| - 1].disk && h1[i].vaultLog == h0[|h0| - 1].vaultLog;
    assert h2[..|h1|][i] == h2[i];
  }

  lemma UnsyncedSince(r: Reset, h0: seq<Store>, h1: seq<Store>, h2: seq<Store>, strict: bool)
    requires |h0| > 0 && Path(r, h0, h1, strict) && Unsynced(h1, h2)
    requires h1[|h1| - 1].disk == h0[|h0| - 1].disk && h1[|h1| - 1].vaultLog == h0[|h0| - 1].vaultLog
    ensures Unsynced(h0, h2)
  {
    PathLonger(r, h0, h1, strict);
  }

  /** Where only the quarantine and the marker are left to remove. */
  ghost predicate Resolved(r: Reset, s: Store) {
    Coherent(r) && Resumable(r, s) && (Maintenance(r, s.disk) || Done(r, s.disk)) && s.disk.transition.None?
  }

  /** A strict step that changes the disk, or comes after such a step, leaves no Prepared marker that may return. */
  lemma StrictChange(r: Reset, s: Store, s': Store, a: Action)
    requires Resolved(r, s) && Enabled(r, s, a) && s' == Perform(r, s, a)
    requires Destructive(a) ==> !PreparedMayReturn(r, s)
    ensures Resolved(r, s')
    ensures s'.disk != s.disk || !PreparedMayReturn(r, s) ==> !PreparedMayReturn(r, s')
  {
    StepRecognised(r, s, s', a);
    StepTidy(r, s, s', a);
  }

  lemma {:induction false} StrictChanges(r: Reset, h0: seq<Store>, h1: seq<Store>)
    requires |h0| > 0 && Path(r, h0, h1, true) && Resolved(r, h0[|h0| - 1])
    ensures |h1| > 0 && Resolved(r, h1[|h1| - 1])
    ensures h1[|h1| - 1].disk != h0[|h0| - 1].disk ==> !PreparedMayReturn(r, h1[|h1| - 1])
    decreases |h1|
  {
    hide Resolved, PreparedMayReturn;
    if h1 != h0 {
      var init := h1[..|h1| - 1];
      StrictChanges(r, h0, init);
      StrictStep(r, init[|init| - 1], h1[|h1| - 1]);
    }
  }

  lemma StrictStep(r: Reset, s: Store, s': Store)
    requires Resolved(r, s) && Step(r, s, s', true)
    ensures Resolved(r, s')
    ensures s'.disk != s.disk || !PreparedMayReturn(r, s) ==> !PreparedMayReturn(r, s')
  {
    hide Resolved, PreparedMayReturn, Enabled, Perform;
    var a: Action :| Enabled(r, s, a) && s' == Perform(r, s, a) && (Destructive(a) ==> !PreparedMayReturn(r, s));
    StrictChange(r, s, s', a);
  }

  /** Changing the disk before the vault root is synced is not strict while a Prepared marker may return. */
  lemma UnsyncedNotStrict(r: Reset, h0: seq<Store>, h1: seq<Store>)
    requires |h0| > 0 && Resolved(r, h0[|h0| - 1]) && PreparedMayReturn(r, h0[|h0| - 1]) && Unsynced(h0, h1)
    ensures !Path(r, h0, h1, true)
  {
    hide Resolved, Path;
    if Path(r, h0, h1, true) {
      var i :| |h0| <= i < |h1| && h1[i].disk != h0[|h0| - 1].disk && h1[i].vaultLog == h0[|h0| - 1].vaultLog;
      PathPrefix(r, h0, h1, i + 1, true);
      StrictChanges(r, h0, h1[..i + 1]);
    }
  }
}
