/**
  What a loss of power may undo.

  A directory keeps the order of its changes: after a loss it shows one of the contents it
  had since it was last synced.  Different directories lose different amounts, except that
  the exchange of the two pairs is one record for both.
 */
module PowerLoss {
  import opened Wrappers
  import opened FileTree
  import opened Quarantine
  import opened Marker
  import opened ResetProtocol
  import opened ResetProgress

  /**
    The directory entry `id` with the tree behind it: whole, or for the quarantine anything between
    whole and visible.
   */
  ghost predicate MayReturn(r: Reset, s: Store, id: Identity, t: Tree) {
    if id == r.clean.id then t == r.clean
    else
      && Remainder(r.former, t)
      && (s.disk.container.Some? && s.disk.container.value.pair.Some? && s.disk.container.value.pair.value.id == id
          ==> Remainder(t, s.disk.container.value.pair.value))
  }

  ghost predicate LossOf(r: Reset, s: Store, d: Disk, v: VaultView, c: ContainerView) {
    && (v.live == Some(r.clean.id) <==> c.pair != Some(r.clean.id))
    && d.active == v.active && d.transition == v.transition
    && d.live == Some(if v.live == Some(r.clean.id) then r.clean else r.former)
    && (if v.container then
          && d.container.Some?
          && d.container == Holding(r, d.container.value.pair, c.seal)
          && IdOf(d.container.value.pair) == c.pair
          && (c.pair.Some? ==> MayReturn(r, s, c.pair.value, d.container.value.pair.value))
        else d.container.None?)
  }

  /** `d` is what a process may find after the power failed in `s`. */
  ghost predicate Loss(r: Reset, s: Store, d: Disk) {
    exists i, j ::
      && 0 <= i < |s.vaultLog| && 0 <= j < |s.containerLog|
      && LossOf(r, s, d, s.vaultLog[i], s.containerLog[j])
  }

  // ---------------------------------------------------------------------------------------
  // What the logs of a run contain
  // ---------------------------------------------------------------------------------------

  ghost predicate KnownVault(r: Reset, v: VaultView) {
    || v == VaultView(Some(r.former.id), None, None, true)
    || v == VaultView(Some(r.former.id), PreparedFile(r), None, true)
    || v == VaultView(Some(r.clean.id), PreparedFile(r), None, true)
    || v == VaultView(Some(r.clean.id), PreparedFile(r), AppliedFile(r), true)
    || v == VaultView(Some(r.clean.id), AppliedFile(r), PreparedFile(r), v.container)
    || v == VaultView(Some(r.clean.id), AppliedFile(r), None, v.container)
    || v == VaultView(Some(r.clean.id), None, None, false)
  }

  ghost predicate KnownContainer(r: Reset, c: ContainerView) {
    || c == ContainerView(Some(r.clean.id), SealedFile(r))
    || c == ContainerView(Some(r.former.id), SealedFile(r))
    || c == ContainerView(None, SealedFile(r))
    || c == ContainerView(None, None)
  }

  ghost predicate Logged(r: Reset, s: Store) {
    && (forall i :: 0 <= i < |s.vaultLog| ==> KnownVault(r, s.vaultLog[i]))
    && (forall j :: 0 <= j < |s.containerLog| ==> KnownContainer(r, s.containerLog[j]))
  }

  /** Nothing of the old tree is gone, neither now nor in anything that may come back. */
  ghost predicate Intact(r: Reset, s: Store) {
    && s.disk.container.Some?
    && (s.disk.container.value.pair == Some(r.former) || s.disk.container.value.pair == Some(r.clean))
    && forall j :: 0 <= j < |s.containerLog| ==> s.containerLog[j].pair.Some?
  }

  /** The invariant of runs with losses of power: nothing is destroyed while a Prepared marker may return. */
  ghost predicate Sound(r: Reset, s: Store) {
    && Resumable(r, s) && Logged(r, s)
    && (|| (Intact(r, s) && (PreparedMayReturn(r, s) ==> s.disk.container.value.pair == Some(r.former)))
        || ((Maintenance(r, s.disk) || Done(r, s.disk)) && !PreparedMayReturn(r, s)))
  }

  lemma StepLogged(r: Reset, s: Store, s': Store, a: Action)
    requires Coherent(r) && Resumable(r, s) && Logged(r, s) && Enabled(r, s, a) && s' == Perform(r, s, a)
    ensures Logged(r, s')
  {
  }

  lemma VisibleKnown(r: Reset, d: Disk)
    requires Coherent(r) && Recognised(r, d)
    ensures KnownVault(r, VaultViewOf(d))
    ensures d.container.Some? ==> KnownContainer(r, ContainerViewOf(d.container.value))
  {
  }

  lemma StepSound(r: Reset, s: Store, s': Store, a: Action)
    requires Coherent(r) && Sound(r, s) && Enabled(r, s, a) && s' == Perform(r, s, a)
    requires Destructive(a) ==> !PreparedMayReturn(r, s)
    ensures Sound(r, s')
  {
    StepRecognised(r, s, s', a);
    StepTidy(r, s, s', a);
    StepLogged(r, s, s', a);
    StepIntact(r, s, s', a);
  }

  lemma StepIntact(r: Reset, s: Store, s': Store, a: Action)
    requires Coherent(r) && Sound(r, s) && Enabled(r, s, a) && s' == Perform(r, s, a)
    requires Destructive(a) ==> !PreparedMayReturn(r, s)
    requires Recognised(r, s'.disk)
    ensures || (Intact(r, s') && (PreparedMayReturn(r, s') ==> s'.disk.container.value.pair == Some(r.former)))
            || ((Maintenance(r, s'.disk) || Done(r, s'.disk)) && !PreparedMayReturn(r, s'))
  {
  }

  lemma SettledSound(r: Reset, d: Disk)
    requires Coherent(r) && Recognised(r, d)
    ensures Sound(r, Settled(d))
  {
  }

  /** Whatever a loss of power brings back in a sound state, recovery recognises it. */
  lemma LossRecognised(r: Reset, s: Store, d: Disk)
    requires Coherent(r) && Sound(r, s) && Loss(r, s, d)
    ensures Recognised(r, d)
  {
    var i, j :|
      && 0 <= i < |s.vaultLog| && 0 <= j < |s.containerLog|
      && LossOf(r, s, d, s.vaultLog[i], s.containerLog[j]);
    var v, c := s.vaultLog[i], s.containerLog[j];
    assert KnownVault(r, v) && KnownContainer(r, c);
    if v.live == Some(r.clean.id) && v.active == PreparedFile(r) {
      assert PreparedMayReturn(r, s) && c.pair.Some?;
      PreparedLoss(r, s, d, v, c);
    } else {
      OtherLoss(r, s, d, v, c);
    }
  }

  /** A Prepared marker that comes back finds the old tree whole. */
  lemma PreparedLoss(r: Reset, s: Store, d: Disk, v: VaultView, c: ContainerView)
    requires Coherent(r) && s.disk.container.Some? && s.disk.container.value.pair == Some(r.former)
    requires LossOf(r, s, d, v, c) && KnownVault(r, v) && KnownContainer(r, c) && c.pair.Some?
    requires v.live == Some(r.clean.id) && v.active == PreparedFile(r)
    ensures PreparedNew(r, d)
  {
    hide Remainder;
    assert c == ContainerView(Some(r.former.id), SealedFile(r));
    RemainderAntisym(r.former, d.container.value.pair.value);
  }

  lemma OtherLoss(r: Reset, s: Store, d: Disk, v: VaultView, c: ContainerView)
    requires Coherent(r) && LossOf(r, s, d, v, c) && KnownVault(r, v) && KnownContainer(r, c)
    requires !(v.live == Some(r.clean.id) && v.active == PreparedFile(r))
    ensures Recognised(r, d)
  {
    hide Remainder;
  }

  lemma StrictStepSound(r: Reset, s: Store, s': Store)
    requires Coherent(r) && Sound(r, s) && Step(r, s, s', true)
    ensures Sound(r, s')
  {
    hide Enabled, Perform, Sound, Recognised, PreparedMayReturn;
    var a: Action :| Enabled(r, s, a) && s' == Perform(r, s, a) && (Destructive(a) ==> !PreparedMayReturn(r, s));
    StepSound(r, s, s', a);
  }

  /** A run in which the power may also fail, after any step and any number of times. */
  ghost predicate PowerRun(r: Reset, h: seq<Store>) {
    && |h| > 0
    && Staged(r, h[0].disk) && h[0] == Settled(h[0].disk)
    && forall i :: 0 < i < |h| ==>
         Step(r, h[i - 1], h[i], true) || (Loss(r, h[i - 1], h[i].disk) && h[i] == Settled(h[i].disk))
  }

  /**
    Every state of every run with crashes and losses of power is one that recovery
    recognises and can finish from, provided the steps of the run are strict.
   */
  lemma {:induction false} PowerRunSound(r: Reset, h: seq<Store>, i: nat)
    requires Coherent(r) && PowerRun(r, h) && i < |h|
    ensures Sound(r, h[i])
  {
    if i == 0 {
      SettledSound(r, h[0].disk);
    } else {
      hide Step, Sound, Recognised, Loss, Settled;
      PowerRunSound(r, h, i - 1);
      if Step(r, h[i - 1], h[i], true) {
        StrictStepSound(r, h[i - 1], h[i]);
      } else {
        LossRecognised(r, h[i - 1], h[i].disk);
        SettledSound(r, h[i].disk);
      }
    }
  }

  /**
    The marker goes last and durably: in the state in which a step may unlink it, a loss of
    power changes nothing, whichever process made the changes before it.
   */
  lemma NothingReturnsBeforeClear(r: Reset, s: Store, d: Disk)
    requires Coherent(r) && Resumable(r, s) && Logged(r, s) && Enabled(r, s, ClearMarker)
    ensures Loss(r, s, d) ==> d == s.disk
  {
  }

  // ---------------------------------------------------------------------------------------
  // When a destructive step is safe
  // ---------------------------------------------------------------------------------------

  /**
    A step that takes anything from the quarantine is safe against a loss of power exactly
    when no Prepared marker may return: then every loss leaves a state that recovery
    recognises, and otherwise some loss leaves a Prepared marker beside a damaged quarantine.
   */
  lemma DestructionSafety(r: Reset, s: Store, a: Action)
    requires Coherent(r) && Sound(r, s) && Destructive(a) && Enabled(r, s, a) && Perform(r, s, a).disk != s.disk
    ensures !PreparedMayReturn(r, s) <==> (forall d :: Loss(r, Perform(r, s, a), d) ==> Recognised(r, d))
    ensures PreparedMayReturn(r, s) <==> (exists d :: Loss(r, Perform(r, s, a), d) && Damaged(r, d))
  {
    var s' := Perform(r, s, a);
    if PreparedMayReturn(r, s) {
      var d := UnrecognisedLoss(r, s, a);
    } else {
      StepSound(r, s, s', a);
      forall d | Loss(r, s', d)
        ensures Recognised(r, d) && !Damaged(r, d)
      {
        LossRecognised(r, s', d);
        RecognisedUndamaged(r, d);
      }
    }
  }

  lemma RecognisedUndamaged(r: Reset, d: Disk)
    requires Coherent(r) && Recognised(r, d)
    ensures !Damaged(r, d)
  {
  }

  /** Such a loss. */
  lemma UnrecognisedLoss(r: Reset, s: Store, a: Action) returns (d: Disk)
    requires Coherent(r) && Sound(r, s) && Destructive(a) && Enabled(r, s, a) && Perform(r, s, a).disk != s.disk
    requires PreparedMayReturn(r, s)
    ensures Loss(r, Perform(r, s, a), d) && Damaged(r, d) && !Recognised(r, d)
  {
    assert s.disk.container.value.pair == Some(r.former);
    match a
    case Shrink(q) => d := TreeLoss(r, s, q);
    case RemovePair => d := PairLoss(r, s);
  }

  lemma TreeLoss(r: Reset, s: Store, q: Quarantined) returns (d: Disk)
    requires Coherent(r) && Resumable(r, s) && Logged(r, s) && Enabled(r, s, Shrink(q)) && PreparedMayReturn(r, s)
    requires q.tree != s.disk.container.value.pair.value
    ensures Loss(r, Perform(r, s, Shrink(q)), d) && Damaged(r, d) && !Recognised(r, d)
  {
    var s' := Perform(r, s, Shrink(q));
    ShrinkFacts(r, s, q);
    RemainderWeight(r.former, s.disk.container.value.pair.value);
    RemainderRefl(q.tree);
    hide Remainder, QuarantineStep;
    var i :| 0 <= i < |s.vaultLog| && s.vaultLog[i].active == PreparedFile(r) && s.vaultLog[i].live == Some(r.clean.id);
    var v := s.vaultLog[i];
    assert KnownVault(r, v);
    d := Disk(Some(r.clean), v.active, v.transition, Holding(r, Some(q.tree), s.disk.container.value.seal));
    var j := |s.containerLog| - 1;
    assert s'.containerLog[j] == ContainerView(Some(q.tree.id), s.disk.container.value.seal);
    assert LossOf(r, s', d, s'.vaultLog[i], s'.containerLog[j]);
  }

  lemma PairLoss(r: Reset, s: Store) returns (d: Disk)
    requires Coherent(r) && Logged(r, s) && Enabled(r, s, RemovePair) && PreparedMayReturn(r, s)
    ensures Loss(r, Perform(r, s, RemovePair), d) && Damaged(r, d) && !Recognised(r, d)
  {
    var s' := Perform(r, s, RemovePair);
    var i :| 0 <= i < |s.vaultLog| && s.vaultLog[i].active == PreparedFile(r) && s.vaultLog[i].live == Some(r.clean.id);
    var v := s.vaultLog[i];
    assert KnownVault(r, v);
    d := Disk(Some(r.clean), v.active, v.transition, Holding(r, None, s.disk.container.value.seal));
    var j := |s.containerLog|;
    assert s'.containerLog[j] == ContainerView(None, s.disk.container.value.seal);
    assert LossOf(r, s', d, s'.vaultLog[i], s'.containerLog[j]);
  }

  /**
    The unsafe state is reachable: one process exchanges the markers and dies before it syncs
    the vault, the next one unlinks the transition file and dies before it syncs, and the
    third finds no transition file and goes on to the quarantine.
   */
  lemma GapReachable(r: Reset) returns (h: seq<Store>)
    requires Coherent(r)
    ensures Run(r, h)
    ensures var s := h[|h| - 1];
            && Maintenance(r, s.disk) && s.disk.transition == None
            && s.disk.container == Holding(r, Some(r.former), SealedFile(r))
            && s.dirty == {} && PreparedMayReturn(r, s)
  {
    h := ToTransition(r);
    RemainderRefl(r.former);
    h := RunThen(r, h, ExchangeMarkers);
    h := RunThen(r, h, UnlinkTransition);
    var s := h[|h| - 1];
    assert s.vaultLog[0] == VaultView(Some(r.clean.id), PreparedFile(r), AppliedFile(r), true);
  }

  lemma ToTransition(r: Reset) returns (h: seq<Store>)
    requires Coherent(r)
    ensures Run(r, h)
    ensures h[|h| - 1] == Settled(
              Disk(Some(r.clean), PreparedFile(r), AppliedFile(r), Holding(r, Some(r.former), SealedFile(r))))
  {
    h := [Settled(Disk(Some(r.former), None, None, Holding(r, Some(r.clean), SealedFile(r))))];
    h := RunThen(r, h, WritePrepared);
    h := RunThen(r, h, SyncVault);
    h := RunThen(r, h, ExchangePairs);
    h := RunThen(r, h, SyncVault);
    h := RunThen(r, h, SyncContainer);
    h := RunThen(r, h, WriteTransition);
    h := RunThen(r, h, SyncVault);
  }

  /** With two crashes and one loss of power any reset can end damaged. */
  lemma GapLosesRecovery(r: Reset) returns (h: seq<Store>, d: Disk)
    requires Coherent(r)
    ensures Run(r, h) && Loss(r, h[|h| - 1], d) && Damaged(r, d)
  {
    h := GapReachable(r);
    var s := h[|h| - 1];
    RunResumable(r, h, |h| - 1);
    RunLogged(r, h, |h| - 1);
    if Removable(r.former) {
      d := PairLoss(r, s);
      h := RunThen(r, h, RemovePair);
    } else {
      var u, at := ShrinkExists(r.former);
      StepWeight(r.former, u, at);
      var q := Quarantined(u, {at});
      assert QuarantineStep(Quarantined(r.former, {}), q, {});
      d := TreeLoss(r, s, q);
      h := RunThen(r, h, Shrink(q));
    }
  }

  lemma {:induction false} RunLogged(r: Reset, h: seq<Store>, i: nat)
    requires Coherent(r) && Run(r, h) && i < |h|
    ensures Logged(r, h[i])
  {
    if i == 0 {
      VisibleKnown(r, h[0].disk);
    } else {
      hide Enabled, Perform, Logged, Resumable, Recognised;
      RunLogged(r, h, i - 1);
      RunResumable(r, h, i - 1);
      var a: Action :| Enabled(r, h[i - 1], a) && h[i] == Perform(r, h[i - 1], a);
      StepLogged(r, h[i - 1], h[i], a);
    }
  }
}
