/**
  No state of a reset is a dead end: from wherever the processes before it stopped, a process
  that meets no failure can go on to the end.
 */
module ResetProgress {
  import opened Wrappers
  import opened FileTree
  import opened Modes
  import opened Quarantine
  import opened ResetProtocol

  /** A sequence of steps that are destructive only once the Applied marker is durable. */
  ghost predicate StrictPath(r: Reset, h: seq<Store>) {
    && |h| > 0
    && forall i :: 0 < i < |h| ==> Step(r, h[i - 1], h[i], true)
  }

  /** The invariant of a run, as far as going on from one of its states needs it. */
  ghost predicate Resumable(r: Reset, s: Store) {
    && Recognised(r, s.disk) && Tidy(s)
    && (!Maintenance(r, s.disk) || s.disk.transition.Some? ==> s.dirty == {})
  }

  lemma {:induction false} RunResumable(r: Reset, h: seq<Store>, i: nat)
    requires Coherent(r) && Run(r, h) && i < |h|
    ensures Resumable(r, h[i])
  {
    if i > 0 {
      RunResumable(r, h, i - 1);
      var a: Action :| Enabled(r, h[i - 1], a) && h[i] == Perform(r, h[i - 1], a);
      StepRecognised(r, h[i - 1], h[i], a);
      StepTidy(r, h[i - 1], h[i], a);
    }
  }

  /** A quarantined tree that cannot be removed at once can be made smaller. */
  lemma {:induction false} ShrinkExists(t: Tree) returns (u: Tree, at: Identity)
    requires !Removable(t)
    ensures TreeStep(t, u, at)
  {
    if t.mode != PRIVATE_DIRECTORY {
      u, at := Dir(t.id, PRIVATE_DIRECTORY, t.entries), t.id;
    } else {
      var f := t.entries;
      if Removable(f.head) {
        u, at := Dir(t.id, t.mode, f.tail), t.id;
      } else {
        var v;
        v, at := ShrinkExists(f.head);
        u := Dir(t.id, t.mode, Cons(f.name, v, f.tail));
      }
    }
  }

  lemma Extend(r: Reset, h: seq<Store>, a: Action) returns (h': seq<Store>)
    requires Coherent(r) && StrictPath(r, h) && Resumable(r, h[|h| - 1])
    requires Enabled(r, h[|h| - 1], a) && (Destructive(a) ==> !PreparedMayReturn(r, h[|h| - 1]))
    ensures StrictPath(r, h') && h' == h + [Perform(r, h[|h| - 1], a)]
    ensures Resumable(r, h'[|h'| - 1])
    ensures var d, d' := h[|h| - 1].disk, h'[|h'| - 1].disk;
            if d == d' then Rank(r, d') == Rank(r, d) else Rank(r, d') + 1 == Rank(r, d)
  {
    var s := h[|h| - 1];
    var s' := Perform(r, s, a);
    StepRecognised(r, s, s', a);
    StepTidy(r, s, s', a);
    StepRank(r, s, s', a);
    h' := h + [s'];
    assert Step(r, s, s', true);
  }

  /** From every state but the last, syncs and one change lead one rank down. */
  lemma Advance(r: Reset, s: Store) returns (h: seq<Store>)
    requires Coherent(r) && Resumable(r, s) && !Done(r, s.disk)
    ensures StrictPath(r, h) && h[0] == s && Resumable(r, h[|h| - 1])
    ensures Rank(r, h[|h| - 1].disk) + 1 == Rank(r, s.disk)
  {
    h := [s];
    if Staged(r, s.disk) {
      h := Extend(r, h, WritePrepared);
    } else if PreparedOld(r, s.disk) {
      h := Extend(r, h, ExchangePairs);
    } else if PreparedNew(r, s.disk) {
      h := Extend(r, h, if s.disk.transition.None? then WriteTransition else ExchangeMarkers);
    } else if s.disk.transition.Some? {
      h := Extend(r, h, UnlinkTransition);
    } else {
      h := AdvanceMaintenance(r, s);
    }
  }

  lemma AdvanceMaintenance(r: Reset, s: Store) returns (h: seq<Store>)
    requires Coherent(r) && Resumable(r, s) && Maintenance(r, s.disk) && s.disk.transition.None?
    ensures StrictPath(r, h) && h[0] == s && Resumable(r, h[|h| - 1])
    ensures Rank(r, h[|h| - 1].disk) + 1 == Rank(r, s.disk)
  {
    h := [s];
    h := Extend(r, h, SyncVault);
    if s.disk.container.None? {
      h := Extend(r, h, ClearMarker);
      return;
    }
    var c := s.disk.container.value;
    if c.pair.None? {
      h := Extend(r, h, SyncContainer);
      h := Extend(r, h, if c.seal.Some? then RemoveSeal else RemoveContainer);
      return;
    }
    h := AdvanceQuarantine(r, h);
  }

  /** With the vault synced, the quarantined tree is synced and then loses one entry, or goes. */
  lemma AdvanceQuarantine(r: Reset, h0: seq<Store>) returns (h: seq<Store>)
    requires Coherent(r) && StrictPath(r, h0)
    requires var s := h0[|h0| - 1];
             && Resumable(r, s) && Maintenance(r, s.disk) && s.disk.transition.None? && !PreparedMayReturn(r, s)
             && s.disk.container.Some? && s.disk.container.value.pair.Some?
    ensures StrictPath(r, h) && h[0] == h0[0] && Resumable(r, h[|h| - 1])
    ensures Rank(r, h[|h| - 1].disk) + 1 == Rank(r, h0[|h0| - 1].disk)
  {
    var t := h0[|h0| - 1].disk.container.value.pair.value;
    h := Extend(r, h0, Shrink(Quarantined(t, {})));
    if Removable(t) {
      h := Extend(r, h, RemovePair);
    } else {
      var u, at := ShrinkExists(t);
      StepWeight(t, u, at);
      assert QuarantineStep(Quarantined(t, {}), Quarantined(u, {at}), {});
      h := Extend(r, h, Shrink(Quarantined(u, {at})));
    }
  }

  lemma JoinPaths(r: Reset, a: seq<Store>, b: seq<Store>)
    requires StrictPath(r, a) && StrictPath(r, b) && a[|a| - 1] == b[0]
    ensures StrictPath(r, a + b[1..])
  {
  }

  /** From every state of a reset a failure-free continuation reaches the end. */
  lemma {:induction false} Completes(r: Reset, s: Store) returns (h: seq<Store>)
    requires Coherent(r) && Resumable(r, s)
    ensures StrictPath(r, h) && h[0] == s && Done(r, h[|h| - 1].disk)
    decreases Rank(r, s.disk)
  {
    if Done(r, s.disk) {
      h := [s];
    } else {
      var first := Advance(r, s);
      var rest := Completes(r, first[|first| - 1]);
      JoinPaths(r, first, rest);
      h := first + rest[1..];
    }
  }

  /**
    Crash-anywhere recovery: wherever a run stands, whichever processes have died on the
    way, it can be continued to a run that ends with the clean pair live and no marker,
    transition file, seal or container left, and the whole run then makes exactly
    `Weight(r.former) + 9` changes.
   */
  lemma RunCompletes(r: Reset, h: seq<Store>) returns (more: seq<Store>)
    requires Coherent(r) && Run(r, h)
    ensures Run(r, h + more) && Done(r, (h + more)[|h + more| - 1].disk)
    ensures Changes(h + more) == Weight(r.former) + 9
  {
    hide Enabled, Perform, Resumable, Settled, PreparedMayReturn, Changes, Weight;
    RunResumable(r, h, |h| - 1);
    var tail := Completes(r, h[|h| - 1]);
    more := tail[1..];
    var all := h + more;
    forall i | 0 < i < |all|
      ensures Step(r, all[i - 1], all[i], false)
    {
      if i >= |h| {
        var j := i - |h| + 1;
        assert all[i] == tail[j] && all[i - 1] == tail[j - 1];
        assert Step(r, tail[j - 1], tail[j], true);
      }
    }
    RunChanges(r, all);
  }
}
