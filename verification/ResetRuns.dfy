/**
  Whole lifetimes of a reset: any number of processes, each running the code of `ResetStore`
  on what the one before it left, each stopped wherever it happens to be.

  A process is known by the history its vault would have if nothing stopped it, which the
  contracts of `ResetStore` prove to be a path of the protocol.  Here the paths are joined, so
  that the theorems about runs become theorems about the code.
 */
module ResetRuns {
  import opened Wrappers
  import opened Faults
  import opened FileTree
  import opened Quarantine
  import opened Marker
  import opened ResetProtocol
  import opened ResetProgress
  import opened PowerLoss
  import opened ResetChecks
  import opened ResetHistory
  import opened ResetStore

  // ---------------------------------------------------------------------------------------
  // Joining a path to a run
  // ---------------------------------------------------------------------------------------

  lemma RelaxStep(r: Reset, s: Store, s': Store, strict: bool)
    requires Step(r, s, s', strict)
    ensures Step(r, s, s', false)
  {
    hide Enabled, Perform, PreparedMayReturn;
  }

  /** What a process does after a run continues the run. */
  lemma {:induction false} PathRun(r: Reset, h: seq<Store>, h0: seq<Store>, h1: seq<Store>, strict: bool)
    requires Run(r, h) && |h0| > 0 && h[|h| - 1] == h0[|h0| - 1] && Path(r, h0, h1, strict)
    ensures |h1| >= |h0| && Run(r, h + h1[|h0|..])
    decreases |h1|
  {
    hide Step, Staged, Settled;
    PathLonger(r, h0, h1, strict);
    if h1 == h0 {
      assert h + h1[|h0|..] == h;
    } else {
      var init := h1[..|h1| - 1];
      PathRun(r, h, h0, init, strict);
      PathLonger(r, h0, init, strict);
      RelaxStep(r, h1[|h1| - 2], h1[|h1| - 1], strict);
      assert init[..|h0|][|h0| - 1] == init[|h0| - 1];
      assert h + h1[|h0|..] == (h + init[|h0|..]) + [h1[|h1| - 1]];
    }
  }

  /** And if its steps are strict it continues a run with losses of power. */
  lemma {:induction false} PathPowerRun(r: Reset, h: seq<Store>, h0: seq<Store>, h1: seq<Store>)
    requires PowerRun(r, h) && |h0| > 0 && h[|h| - 1] == h0[|h0| - 1] && Path(r, h0, h1, true)
    ensures |h1| >= |h0| && PowerRun(r, h + h1[|h0|..])
    decreases |h1|
  {
    hide Step, Staged, Settled, Loss;
    PathLonger(r, h0, h1, true);
    if h1 == h0 {
      assert h + h1[|h0|..] == h;
    } else {
      var init := h1[..|h1| - 1];
      PathPowerRun(r, h, h0, init);
      PathLonger(r, h0, init, true);
      assert init[..|h0|][|h0| - 1] == init[|h0| - 1];
      assert h + h1[|h0|..] == (h + init[|h0|..]) + [h1[|h1| - 1]];
    }
  }

  // ---------------------------------------------------------------------------------------
  // Lifetimes
  // ---------------------------------------------------------------------------------------

  /**
    A process that finds the vault as `history[0]` and stops, by its own return or by force,
    after `stop` changes.  `lost` is what a loss of power then leaves, if there is one.
   */
  datatype Process = Process(history: seq<Store>, stop: nat, lost: Option<Disk>)

  /** The states a process adds to the ones before it. */
  ghost function Adds(p: Process): seq<Store>
    requires p.stop < |p.history|
  {
    p.history[1..p.stop + 1] + if p.lost.Some? then [Settled(p.lost.value)] else []
  }

  /** What the next process finds. */
  ghost function Leaves(p: Process): Store
    requires p.stop < |p.history|
  {
    if p.lost.Some? then Settled(p.lost.value) else p.history[p.stop]
  }

  /** Processes one after the other from `s` on.  Where power is lost, all of them are strict. */
  ghost predicate Lives(r: Reset, s: Store, ps: seq<Process>, strict: bool)
    decreases |ps|
  {
    |ps| > 0 ==>
      && ps[0].stop < |ps[0].history| && Path(r, [s], ps[0].history, strict)
      && (ps[0].lost.Some? ==> strict && Loss(r, ps[0].history[ps[0].stop], ps[0].lost.value))
      && Lives(r, Leaves(ps[0]), ps[1..], strict)
  }

  /** All states so far, with those of the processes appended. */
  ghost function Joined(h: seq<Store>, ps: seq<Process>): seq<Store>
    requires forall i :: 0 <= i < |ps| ==> ps[i].stop < |ps[i].history|
    decreases |ps|
  {
    if |ps| == 0 then h else Joined(h + Adds(ps[0]), ps[1..])
  }

  /** A process stopped on the way, without a loss of power, continues the run. */
  lemma StoppedRun(r: Reset, h: seq<Store>, p: Process, strict: bool)
    requires Run(r, h) && p.stop < |p.history| && p.lost.None? && Path(r, [h[|h| - 1]], p.history, strict)
    ensures Run(r, h + Adds(p)) && (h + Adds(p))[|h + Adds(p)| - 1] == Leaves(p)
  {
    assert |h| > 0;
    hide Run, Path;
    var h0 := [h[|h| - 1]];
    PathLonger(r, h0, p.history, strict);
    PathPrefix(r, h0, p.history, p.stop + 1, strict);
    PathRun(r, h, h0, p.history[..p.stop + 1], strict);
    assert p.history[..p.stop + 1][1..] == Adds(p);
    assert p.history[..1][0] == p.history[0];
  }

  lemma StoppedPowerRun(r: Reset, h: seq<Store>, p: Process)
    requires PowerRun(r, h) && p.stop < |p.history| && Path(r, [h[|h| - 1]], p.history, true)
    requires p.lost.Some? ==> Loss(r, p.history[p.stop], p.lost.value)
    ensures PowerRun(r, h + Adds(p)) && (h + Adds(p))[|h + Adds(p)| - 1] == Leaves(p)
  {
    hide Step, Staged, Settled, Loss, Path;
    var h0 := [h[|h| - 1]];
    PathLonger(r, h0, p.history, true);
    PathPrefix(r, h0, p.history, p.stop + 1, true);
    PathPowerRun(r, h, h0, p.history[..p.stop + 1]);
    var made := p.history[1..p.stop + 1];
    assert p.history[..p.stop + 1][1..] == made;
    assert p.history[..1][0] == p.history[0];
    assert (h + made)[|h + made| - 1] == p.history[p.stop];
    if p.lost.Some? {
      assert h + Adds(p) == (h + made) + [Settled(p.lost.value)];
      assert Settled(p.lost.value).disk == p.lost.value by { SettledDisk(p.lost.value); }
    } else {
      assert Adds(p) == made;
    }
  }

  lemma SettledDisk(d: Disk)
    ensures Settled(d).disk == d
  {
  }

  /** The indices that `Joined` asks for, and the first step of it. */
  lemma {:induction false} LivesStop(r: Reset, s: Store, ps: seq<Process>, strict: bool)
    requires Lives(r, s, ps, strict)
    ensures forall i :: 0 <= i < |ps| ==> ps[i].stop < |ps[i].history|
    decreases |ps|
  {
    hide Path, Loss;
    if |ps| > 0 {
      LivesStop(r, Leaves(ps[0]), ps[1..], strict);
      assert forall i :: 0 < i < |ps| ==> ps[i] == ps[1..][i - 1];
    }
  }

  lemma {:induction false} LivesRun(r: Reset, h: seq<Store>, ps: seq<Process>)
    requires Run(r, h) && Lives(r, h[|h| - 1], ps, false)
    ensures (forall i :: 0 <= i < |ps| ==> ps[i].stop < |ps[i].history|) && Run(r, Joined(h, ps))
    decreases |ps|
  {
    assert |h| > 0;
    hide Run, Path, Loss;
    LivesStop(r, h[|h| - 1], ps, false);
    if |ps| > 0 {
      StoppedRun(r, h, ps[0], false);
      LivesRun(r, h + Adds(ps[0]), ps[1..]);
    }
  }

  lemma {:induction false} LivesPowerRun(r: Reset, h: seq<Store>, ps: seq<Process>)
    requires PowerRun(r, h) && Lives(r, h[|h| - 1], ps, true)
    ensures (forall i :: 0 <= i < |ps| ==> ps[i].stop < |ps[i].history|) && PowerRun(r, Joined(h, ps))
    decreases |ps|
  {
    assert |h| > 0;
    hide PowerRun, Path, Loss;
    LivesStop(r, h[|h| - 1], ps, true);
    if |ps| > 0 {
      StoppedPowerRun(r, h, ps[0]);
      LivesPowerRun(r, h + Adds(ps[0]), ps[1..]);
    }
  }

  /** What the last of the processes leaves. */
  ghost function End(s: Store, ps: seq<Process>): Store
    requires forall i :: 0 <= i < |ps| ==> ps[i].stop < |ps[i].history|
  {
    if |ps| == 0 then s else Leaves(ps[|ps| - 1])
  }

  lemma {:induction false} JoinedEnd(r: Reset, h: seq<Store>, ps: seq<Process>, strict: bool)
    requires |h| > 0 && Lives(r, h[|h| - 1], ps, strict)
    ensures forall i :: 0 <= i < |ps| ==> ps[i].stop < |ps[i].history|
    ensures var j := Joined(h, ps);
            |j| > 0 && j[|j| - 1] == End(h[|h| - 1], ps)
    decreases |ps|
  {
    hide Path, Loss;
    LivesStop(r, h[|h| - 1], ps, strict);
    if |ps| > 0 {
      var p := ps[0];
      PathLonger(r, [h[|h| - 1]], p.history, strict);
      assert p.history[..1][0] == p.history[0];
      assert (h + Adds(p))[|h + Adds(p)| - 1] == Leaves(p);
      JoinedEnd(r, h + Adds(p), ps[1..], strict);
      assert |ps| > 1 ==> ps[1..][|ps| - 2] == ps[|ps| - 1];
    }
  }

  lemma {:induction false} LivesThen(r: Reset, s: Store, ps: seq<Process>, p: Process, strict: bool)
    requires Lives(r, s, ps, strict)
    requires forall i :: 0 <= i < |ps| ==> ps[i].stop < |ps[i].history|
    requires p.stop < |p.history| && Path(r, [End(s, ps)], p.history, strict)
    requires p.lost.Some? ==> strict && Loss(r, p.history[p.stop], p.lost.value)
    ensures Lives(r, s, ps + [p], strict)
    decreases |ps|
  {
    hide Path, Loss;
    if |ps| == 0 {
      assert ps + [p] == [p] && [p][1..] == [];
    } else {
      assert (ps + [p])[1..] == ps[1..] + [p];
      assert |ps| > 1 ==> ps[1..][|ps| - 2] == ps[|ps| - 1];
      assert forall i :: 0 <= i < |ps[1..]| ==> ps[1..][i] == ps[i + 1];
      LivesThen(r, Leaves(ps[0]), ps[1..], p, strict);
    }
  }

  // ---------------------------------------------------------------------------------------
  // What holds of every lifetime
  // ---------------------------------------------------------------------------------------

  /** A reset is about to be published on a vault on which everything is durable. */
  ghost predicate Begins(r: Reset, s: Store) {
    Published(r) && Staged(r, s.disk) && s == Settled(s.disk)
  }

  /**
    However many processes there were and wherever each of them stopped: the old tree was
    whole in one of its two places until the reset was in effect; the changes made and those
    left add up to the same number; and the vault holds the reset in a state to go on from.
   */
  lemma AnyProcesses(r: Reset, s: Store, ps: seq<Process>)
    requires Begins(r, s) && Lives(r, s, ps, false)
    ensures forall i :: 0 <= i < |ps| ==> ps[i].stop < |ps[i].history|
    ensures var h := Joined([s], ps);
            && Run(r, h) && h[|h| - 1] == End(s, ps) && Holds(r, End(s, ps))
            && (forall i: nat | i < |h| :: InTurn(r, h, i))
            && Changes(h) + Rank(r, End(s, ps).disk) == Weight(r.former) + 9
  {
    PublishedFacts(r);
    FactsCoherent(r);
    OneRun(r, s);
    hide Run, Facts, Lives, InTurn, Resumable, Changes, Rank;
    LivesRun(r, [s], ps);
    JoinedEnd(r, [s], ps, false);
    var h := Joined([s], ps);
    RunChanges(r, h);
    RunResumable(r, h, |h| - 1);
    forall i: nat | i < |h|
      ensures InTurn(r, h, i)
    {
      NeverEarly(r, h, i);
    }
  }

  lemma OneRun(r: Reset, s: Store)
    requires Begins(r, s)
    ensures Run(r, [s]) && PowerRun(r, [s])
  {
  }

  /** Nothing of the old tree is gone at `i`, or the reset was in effect first. */
  ghost predicate InTurn(r: Reset, h: seq<Store>, i: nat)
    requires i < |h|
  {
    && (OldWholeInOnePlace(r, h[i].disk) || InEffect(r, h[i].disk) || Done(r, h[i].disk))
    && (i > 0 && OldWholeInOnePlace(r, h[i - 1].disk) && !OldWholeInOnePlace(r, h[i].disk)
        ==> InEffect(r, h[i - 1].disk))
  }

  lemma NeverEarly(r: Reset, h: seq<Store>, i: nat)
    requires Coherent(r) && Run(r, h) && i < |h|
    ensures InTurn(r, h, i)
  {
    hide Run, OldWholeInOnePlace, InEffect, Done;
    NoEarlyDestruction(r, h, i);
  }

  /** With losses of power between strict processes, every state is still sound. */
  lemma AnyStrictProcesses(r: Reset, s: Store, ps: seq<Process>)
    requires Begins(r, s) && Lives(r, s, ps, true)
    ensures forall i :: 0 <= i < |ps| ==> ps[i].stop < |ps[i].history|
    ensures var h := Joined([s], ps);
            && PowerRun(r, h) && h[|h| - 1] == End(s, ps) && Holds(r, End(s, ps))
            && (forall i: nat | i < |h| :: Sound(r, h[i]))
  {
    PublishedFacts(r);
    FactsCoherent(r);
    OneRun(r, s);
    hide PowerRun, Facts, Lives, Sound;
    LivesPowerRun(r, [s], ps);
    JoinedEnd(r, [s], ps, true);
    var h := Joined([s], ps);
    forall i: nat | i < |h|
      ensures Sound(r, h[i])
    {
      PowerRunSound(r, h, i);
    }
    SoundResumable(r, h[|h| - 1]);
  }

  lemma SoundResumable(r: Reset, s: Store)
    requires Sound(r, s)
    ensures Resumable(r, s)
  {
  }

  /** After a loss of power no Prepared marker may return to a reset in maintenance. */
  lemma LossReady(r: Reset, d: Disk)
    requires Coherent(r) && Maintenance(r, d)
    ensures !PreparedMayReturn(r, Settled(d))
  {
  }

  /**
    Two crashes and one loss of power end any reset of a tree that may be taken apart on a
    disk that `Vault.Recover` refuses.
   */
  lemma GapRefused(r: Reset) returns (h: seq<Store>, d: Disk)
    requires Published(r) && QuarantineAcceptable(r.former)
    ensures Run(r, h) && Loss(r, h[|h| - 1], d) && Facts(r) && Damaged(r, d)
    ensures var b := r.prepared.payload.phase.binding;
            if d.container.value.pair.None? then PreflightVerdict(d, r.prepared) == Some(ResetManualIntervention)
            else PostExchangeVerdict(d, r.clean.id, EntryIdentityOf(r.former), b, r.seal) == Some(InvalidData)
  {
    PublishedFacts(r);
    FactsCoherent(r);
    hide Facts, Published, Run, Loss, Damaged, QuarantineAcceptable;
    h, d := GapLosesRecovery(r);
    DamagedRefused(r, d);
  }

  // ---------------------------------------------------------------------------------------
  // The code as one of the processes
  // ---------------------------------------------------------------------------------------

  /** Nothing is lost when a process stops in `s`, or what a loss of power may take from a strict one. */
  ghost predicate MayLose(r: Reset, s: Store, lost: Option<Disk>, strict: bool) {
    lost.Some? ==> strict && Loss(r, s, lost.value)
  }

  /** The publisher is the first process: wherever it stops, a lifetime has begun. */
  method PublishFirst(v: Vault, target: Target, ghost r: Reset, ghost strict: bool) returns (out: Publication)
    requires v.Valid() && v.claimed && v.autoDelete && v.history == [v.store]
    requires Begins(r, v.store) && v.Publishes(r, target)
    modifies v, v.io
    ensures v.Valid() && (old(v.io.faulted) ==> v.io.faulted)
    ensures !out.FailedIo? ==>
              forall k: nat, lost | k < |v.history| && MayLose(r, v.history[k], lost, strict) ::
                Lives(r, old(v.store), [Process(v.history, k, lost)], strict)
    ensures !v.io.faulted ==> out.InMaintenanceWith?
  {
    hide Published, Staged, Settled, Path, Holds, Loss;
    ghost var s := v.store;
    out := v.Publish(target, r, strict);
    if !out.FailedIo? {
      forall k: nat, lost | k < |v.history| && MayLose(r, v.history[k], lost, strict)
        ensures Lives(r, s, [Process(v.history, k, lost)], strict)
      {
        LivesThen(r, s, [], Process(v.history, k, lost), strict);
        assert [] + [Process(v.history, k, lost)] == [Process(v.history, k, lost)];
      }
    }
  }

  /**
    A process that resumes what earlier ones left while a marker is there.  Wherever it stops
    it prolongs the lifetime, and if no call fails it ends it, after exactly `Weight + 9`
    changes in all where no power was lost.
   */
  method ResumeNext(
    io: Io, found: Disk, ghost s: Store, ghost ps: seq<Process>, ghost r: Reset, ghost strict: bool)
    returns (done: bool, ghost p: Process)
    requires Begins(r, s) && Lives(r, s, ps, strict)
    requires forall i :: 0 <= i < |ps| ==> ps[i].stop < |ps[i].history|
    requires found == End(s, ps).disk && found.active.Some? && Listed(found)
    requires strict && Maintenance(r, found) ==> found.transition.Some? || !PreparedMayReturn(r, End(s, ps))
    modifies io
    ensures old(io.faulted) ==> io.faulted
    ensures |p.history| == p.stop + 1 && p.lost.None?
    ensures forall k: nat, lost | k < |p.history| && MayLose(r, p.history[k], lost, strict) ::
              Lives(r, s, ps + [Process(p.history, k, lost)], strict)
    ensures Lives(r, s, ps + [p], strict)
    ensures done ==> Done(r, Leaves(p).disk) && (!strict ==> Changes(Joined([s], ps + [p])) == Weight(r.former) + 9)
    ensures !io.faulted && QuarantineAcceptable(r.former) ==> done
  {
    hide Published, Staged, Settled, Path, Loss, Maintenance, PreparedMayReturn, QuarantineAcceptable, Done, Facts;
    hide Changes, Weight, Lives, Resumable;
    if strict {
      AnyStrictProcesses(r, s, ps);
    } else {
      AnyProcesses(r, s, ps);
    }
    var v := new Vault(io, found, End(s, ps));
    done := v.Resume(r, strict);
    p := Process(v.history, |v.history| - 1, None);
    forall k: nat, lost | k < |p.history| && MayLose(r, p.history[k], lost, strict)
      ensures Lives(r, s, ps + [Process(p.history, k, lost)], strict)
    {
      LivesThen(r, s, ps, Process(p.history, k, lost), strict);
    }
    LivesThen(r, s, ps, p, strict);
    if done && !strict {
      AnyProcesses(r, s, ps + [p]);
      FactsCoherent(r);
      DoneRank(r, v.disk);
    }
  }

  lemma DoneRank(r: Reset, d: Disk)
    requires Coherent(r) && Done(r, d)
    ensures Rank(r, d) == 0
  {
  }
}
