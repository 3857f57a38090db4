/**
  The projection claims of one process: two flags under two mutexes, and a lifecycle mutex
  that some operations hold across them and others do not take at all.

  Any number of threads prepare, publish, recover, finish, inspect and drop, interleaved at
  every acquisition of a mutex and every read and write of a flag.
 */
module Claims {
  import opened Wrappers

  /** What a successful operation hands to its caller. */
  datatype Grant = Target | Bundle | Maintenance

  /**
    Where a thread stands.  `Claim*` is the common head of `claim_projection_writer`,
    `prepare_projection_pair_target` and `recover_projection_reset_maintenance`; `Roll*` is
    `rollback_projection_claims`, with `locked` telling whether its caller still holds the
    lifecycle mutex; `Look*` is `with_existing_projection_readonly`.
   */
  datatype Pc =
    | Idle(grant: Option<Grant>)
    | ClaimLocked                      // holds lifecycle
    | ClaimNames                       // and the namespace mutex
    | ClaimBoth                        // and the artifact mutex
    | ClaimManifest                    // has set the manifest claim
    | ClaimArtifacts                   // has set both
    | ClaimHalf                        // has released the artifact mutex
    | Working                          // holds lifecycle only, opening or recovering storage
    | Publishing                       // holds lifecycle, owns a target
    | Finishing                        // holds no mutex, owns a maintenance capability
    | RollStart(locked: bool)
    | RollNames(locked: bool)          // holds the namespace mutex
    | RollManifest(locked: bool)       // has cleared the manifest claim
    | RollBoth(locked: bool)           // and holds the artifact mutex
    | RollDone(locked: bool)           // has cleared both
    | LookLocked                       // holds lifecycle
    | LookNames                        // and the namespace mutex
    | LookRead(manifest: bool)         // has read the manifest claim and released its mutex
    | LookArtifacts(manifest: bool)    // holds the artifact mutex
    | LookBoth(manifest: bool, artifacts: bool)
    | Inspecting                       // holds lifecycle, the closure runs

  /** The two claims, and who holds each of the three mutexes. */
  datatype Shared = Shared(
    manifest: bool, artifacts: bool, lifecycle: Option<nat>, names: Option<nat>, flags: Option<nat>)

  datatype State = State(g: Shared, threads: seq<Pc>)

  // ---------------------------------------------------------------------------------------
  // Which mutexes and claims go with a program point
  // ---------------------------------------------------------------------------------------

  predicate HoldsLifecycle(p: Pc) {
    match p
    case Idle(_) => false
    case Finishing => false
    case RollStart(l) => l
    case RollNames(l) => l
    case RollManifest(l) => l
    case RollBoth(l) => l
    case RollDone(l) => l
    case _ => true
  }

  predicate HoldsNames(p: Pc) {
    p.ClaimNames? || p.ClaimBoth? || p.ClaimManifest? || p.ClaimArtifacts? || p.ClaimHalf?
    || p.RollNames? || p.RollManifest? || p.RollBoth? || p.RollDone? || p.LookNames?
  }

  predicate HoldsFlags(p: Pc) {
    p.ClaimBoth? || p.ClaimManifest? || p.ClaimArtifacts? || p.RollBoth? || p.RollDone? || p.LookArtifacts?
  }

  predicate HasCapability(p: Pc) {
    p.Idle? && p.grant.Some?
  }

  /** The thread is the one for which the claims, or what is left of them, are set. */
  predicate Owns(p: Pc) {
    || HasCapability(p)
    || p.ClaimManifest? || p.ClaimArtifacts? || p.ClaimHalf? || p.Working? || p.Publishing? || p.Finishing?
    || p.RollStart? || p.RollNames? || p.RollManifest? || p.RollBoth?
  }

  predicate ManifestOf(p: Pc) {
    Owns(p) && !p.RollManifest? && !p.RollBoth?
  }

  predicate ArtifactsOf(p: Pc) {
    Owns(p) && !p.ClaimManifest?
  }

  /** The thread has seen no claim and still holds the lifecycle mutex. */
  predicate SawNone(p: Pc) {
    || p.Inspecting?
    || (p.LookRead? && !p.manifest) || (p.LookArtifacts? && !p.manifest)
    || (p.LookBoth? && !p.manifest && !p.artifacts)
  }

  // ---------------------------------------------------------------------------------------
  // Steps
  // ---------------------------------------------------------------------------------------

  /** Thread `t` goes from program point `p` to `p'` and changes the shared state from `g` to `g'`. */
  predicate Moves(g: Shared, p: Pc, g': Shared, p': Pc, t: nat) {
    match p
    case Idle(capability) =>
      // A new claim or inspection takes the lifecycle mutex; so does publishing a target.
      || (&& g.lifecycle.None? && g' == g.(lifecycle := Some(t))
          && (|| (capability.None? && (p'.ClaimLocked? || p'.LookLocked?))
              || (capability == Some(Target) && p'.Publishing?)))
      // Finishing takes no mutex.  An unpublished target rolls its claims back when it is
      // dropped; a bundle or a maintenance capability leaves them set.
      || (&& g' == g
          && (|| (capability == Some(Maintenance) && p'.Finishing?)
              || (capability == Some(Target) && p' == RollStart(false))
              || ((capability == Some(Bundle) || capability == Some(Maintenance)) && p' == Idle(None))))
    case ClaimLocked => g.names.None? && g' == g.(names := Some(t)) && p'.ClaimNames?
    case ClaimNames => g.flags.None? && g' == g.(flags := Some(t)) && p'.ClaimBoth?
    case ClaimBoth =>
      // Refused, because a claim is set or a check of the vault fails; or granted.
      || (g' == g.(lifecycle := None, names := None, flags := None) && p' == Idle(None))
      || (!g.manifest && !g.artifacts && g' == g.(manifest := true) && p'.ClaimManifest?)
    case ClaimManifest => g' == g.(artifacts := true) && p'.ClaimArtifacts?
    case ClaimArtifacts => g' == g.(flags := None) && p'.ClaimHalf?
    case ClaimHalf => g' == g.(names := None) && p'.Working?
    case Working =>
      // A capability or nothing: a recovery that cannot tell what the disk holds keeps the
      // claims without one.  Or a failure.
      || (g' == g.(lifecycle := None) && p'.Idle?)
      || (g' == g && p' == RollStart(true))
    case Publishing =>
      g' == g.(lifecycle := None) && ((p'.Idle? && p' != Idle(Some(Target))) || p' == RollStart(false))
    case Finishing =>
      g' == g && (p' == Idle(Some(Bundle)) || p' == Idle(None) || p' == RollStart(false))
    case RollStart(l) => g.names.None? && g' == g.(names := Some(t)) && p' == RollNames(l)
    case RollNames(l) => g' == g.(manifest := false) && p' == RollManifest(l)
    case RollManifest(l) => g.flags.None? && g' == g.(flags := Some(t)) && p' == RollBoth(l)
    case RollBoth(l) => g' == g.(artifacts := false) && p' == RollDone(l)
    case RollDone(l) =>
      g' == g.(names := None, flags := None, lifecycle := if l then None else g.lifecycle) && p' == Idle(None)
    case LookLocked => g.names.None? && g' == g.(names := Some(t)) && p'.LookNames?
    case LookNames => g' == g.(names := None) && p' == LookRead(g.manifest)
    case LookRead(m) => g.flags.None? && g' == g.(flags := Some(t)) && p' == LookArtifacts(m)
    case LookArtifacts(m) => g' == g.(flags := None) && p' == LookBoth(m, g.artifacts)
    case LookBoth(m, a) =>
      || (!m && !a && g' == g && p'.Inspecting?)
      || (g' == g.(lifecycle := None) && p' == Idle(None))
    case Inspecting => g' == g.(lifecycle := None) && p' == Idle(None)
  }

  /** Thread `t` makes one step. */
  predicate Next(s: State, s': State, t: nat)
    requires t < |s.threads|
  {
    && |s'.threads| == |s.threads|
    && s'.threads == s.threads[t := s'.threads[t]]
    && Moves(s.g, s.threads[t], s'.g, s'.threads[t], t)
  }

  /** Thread `t` gives its capability to thread `u`. */
  predicate Hands(s: State, s': State, t: nat, u: nat)
    requires t < |s.threads| && u < |s.threads|
  {
    && t != u && HasCapability(s.threads[t]) && s.threads[u] == Idle(None)
    && s' == s.(threads := s.threads[t := Idle(None)][u := s.threads[t]])
  }

  predicate Initial(s: State) {
    && !s.g.manifest && !s.g.artifacts && s.g.lifecycle.None? && s.g.names.None? && s.g.flags.None?
    && forall t :: 0 <= t < |s.threads| ==> s.threads[t] == Idle(None)
  }

  // ---------------------------------------------------------------------------------------
  // The invariant
  // ---------------------------------------------------------------------------------------

  predicate Mutexes(s: State) {
    && (forall t :: 0 <= t < |s.threads| ==> (HoldsLifecycle(s.threads[t]) <==> s.g.lifecycle == Some(t)))
    && (forall t :: 0 <= t < |s.threads| ==> (HoldsNames(s.threads[t]) <==> s.g.names == Some(t)))
    && (forall t :: 0 <= t < |s.threads| ==> (HoldsFlags(s.threads[t]) <==> s.g.flags == Some(t)))
  }

  predicate OneOwner(s: State) {
    forall t, u :: 0 <= t < |s.threads| && 0 <= u < |s.threads| && Owns(s.threads[t]) && Owns(s.threads[u]) ==> t == u
  }

  predicate Flags(s: State) {
    && (forall t :: 0 <= t < |s.threads| && Owns(s.threads[t]) ==>
                      s.g.manifest == ManifestOf(s.threads[t]) && s.g.artifacts == ArtifactsOf(s.threads[t]))
    && ((forall t :: 0 <= t < |s.threads| ==> !Owns(s.threads[t])) ==> s.g.manifest == s.g.artifacts)
  }

  predicate Seen(s: State) {
    forall t :: 0 <= t < |s.threads| && SawNone(s.threads[t]) ==>
                  !s.g.manifest && !s.g.artifacts && forall u :: 0 <= u < |s.threads| ==> !Owns(s.threads[u])
  }

  predicate Inv(s: State) {
    Mutexes(s) && OneOwner(s) && Flags(s) && Seen(s)
  }

  /** A mutex changes hands only between nobody and thread `t`. */
  predicate Passed(m: Option<nat>, m': Option<nat>, t: nat, holds: bool) {
    && (holds <==> m' == Some(t))
    && (m' == m || ((m.None? || m == Some(t)) && (m'.None? || m' == Some(t))))
  }

  /** What a step does to each mutex. */
  lemma MoveLifecycle(g: Shared, p: Pc, g': Shared, p': Pc, t: nat)
    requires Moves(g, p, g', p', t)
    requires HoldsLifecycle(p) <==> g.lifecycle == Some(t)
    ensures Passed(g.lifecycle, g'.lifecycle, t, HoldsLifecycle(p'))
  {
  }

  /** The namespace mutex. */
  lemma MoveNames(g: Shared, p: Pc, g': Shared, p': Pc, t: nat)
    requires Moves(g, p, g', p', t)
    requires HoldsNames(p) <==> g.names == Some(t)
    ensures Passed(g.names, g'.names, t, HoldsNames(p'))
  {
  }

  /** The artifact mutex. */
  lemma MoveArtifactMutex(g: Shared, p: Pc, g': Shared, p': Pc, t: nat)
    requires Moves(g, p, g', p', t)
    requires HoldsFlags(p) <==> g.flags == Some(t)
    ensures Passed(g.flags, g'.flags, t, HoldsFlags(p'))
  {
  }

  lemma MoveMutexes(g: Shared, p: Pc, g': Shared, p': Pc, t: nat)
    requires Moves(g, p, g', p', t)
    requires HoldsLifecycle(p) <==> g.lifecycle == Some(t)
    requires HoldsNames(p) <==> g.names == Some(t)
    requires HoldsFlags(p) <==> g.flags == Some(t)
    ensures Passed(g.lifecycle, g'.lifecycle, t, HoldsLifecycle(p'))
    ensures Passed(g.names, g'.names, t, HoldsNames(p'))
    ensures Passed(g.flags, g'.flags, t, HoldsFlags(p'))
  {
    hide Moves, HoldsLifecycle, HoldsNames, HoldsFlags, Passed;
    MoveLifecycle(g, p, g', p', t);
    MoveNames(g, p, g', p', t);
    MoveArtifactMutex(g, p, g', p', t);
  }

  /** What it does to the claims. */
  lemma MoveClaims(g: Shared, p: Pc, g': Shared, p': Pc, t: nat)
    requires Moves(g, p, g', p', t)
    requires Owns(p) ==> g.manifest == ManifestOf(p) && g.artifacts == ArtifactsOf(p)
    ensures Owns(p') && !Owns(p) ==> p.ClaimBoth? && !g.manifest && !g.artifacts
    ensures Owns(p') ==> g'.manifest == ManifestOf(p') && g'.artifacts == ArtifactsOf(p')
    ensures Owns(p) && !Owns(p') ==> g'.manifest == g'.artifacts
    ensures !Owns(p) && !Owns(p') ==> g'.manifest == g.manifest && g'.artifacts == g.artifacts
  {
  }

  lemma NextInv(s: State, s': State, t: nat)
    requires t < |s.threads| && Inv(s) && Next(s, s', t)
    ensures Inv(s')
  {
    hide Moves, HoldsLifecycle, HoldsNames, HoldsFlags, ManifestOf, ArtifactsOf, Owns, SawNone;
    MoveMutexes(s.g, s.threads[t], s'.g, s'.threads[t], t);
    NextFlags(s, s', t);
    NextSeen(s, s', t);
  }

  lemma NextFlags(s: State, s': State, t: nat)
    requires t < |s.threads| && Inv(s) && Next(s, s', t)
    ensures OneOwner(s') && Flags(s')
  {
    hide Moves, HoldsLifecycle, HoldsNames, HoldsFlags, SawNone;
    MoveClaims(s.g, s.threads[t], s'.g, s'.threads[t], t);
    if && (forall u :: 0 <= u < |s'.threads| ==> !Owns(s'.threads[u])) && !Owns(s.threads[t]) {
      forall u | 0 <= u < |s.threads|
        ensures !Owns(s.threads[u])
      {
        assert u != t ==> s'.threads[u] == s.threads[u];
      }
    }
  }

  lemma NextSeen(s: State, s': State, t: nat)
    requires t < |s.threads| && Inv(s) && Next(s, s', t)
    ensures Seen(s')
  {
  }

  /** Handing a capability over touches no mutex and no claim, and there is still one owner. */
  lemma HandsInv(s: State, s': State, t: nat, u: nat)
    requires t < |s.threads| && u < |s.threads| && Inv(s) && Hands(s, s', t, u)
    ensures Inv(s')
  {
    assert forall i :: 0 <= i < |s.threads| && i != t && i != u ==> s'.threads[i] == s.threads[i];
    assert s'.threads[t] == Idle(None) && s'.threads[u] == s.threads[t];
    assert Owns(s.threads[t]) && forall i :: 0 <= i < |s.threads| && i != t ==> !Owns(s.threads[i]);
  }

  predicate Steps(s: State, s': State) {
    || (exists t :: 0 <= t < |s.threads| && Next(s, s', t))
    || (exists t, u :: 0 <= t < |s.threads| && 0 <= u < |s.threads| && Hands(s, s', t, u))
  }

  lemma StepsInv(s: State, s': State)
    requires Inv(s) && Steps(s, s')
    ensures Inv(s')
  {
    hide Inv, Next, Hands;
    if t :| 0 <= t < |s.threads| && Next(s, s', t) {
      NextInv(s, s', t);
    } else {
      var t, u :| 0 <= t < |s.threads| && 0 <= u < |s.threads| && Hands(s, s', t, u);
      HandsInv(s, s', t, u);
    }
  }

  /** One step of any thread, or a capability handed over, from each state to the next. */
  predicate Run(h: seq<State>) {
    && |h| > 0 && Initial(h[0])
    && forall i :: 0 < i < |h| ==> Steps(h[i - 1], h[i])
  }

  lemma {:induction false} RunInv(h: seq<State>, i: nat)
    requires Run(h) && i < |h|
    ensures Inv(h[i])
  {
    if i > 0 {
      RunInv(h, i - 1);
      StepsInv(h[i - 1], h[i]);
    }
  }

  /**
    In every state of every interleaving: at most one thread has a projection capability; the
    two claims agree whenever the namespace mutex is free, and are set while a capability
    exists; and while a read-only inspection runs no claim is set and no capability exists.
   */
  lemma SingleWriter(h: seq<State>, i: nat)
    requires Run(h) && i < |h|
    ensures var s := h[i];
            && (forall t, u | 0 <= t < |s.threads| && 0 <= u < |s.threads| && HasCapability(s.threads[t]) ::
                  HasCapability(s.threads[u]) ==> t == u)
            && (forall t :: 0 <= t < |s.threads| && HasCapability(s.threads[t]) ==> s.g.manifest && s.g.artifacts)
            && (s.g.names.None? ==> s.g.manifest == s.g.artifacts)
            && (forall t :: 0 <= t < |s.threads| && s.threads[t].Inspecting? ==>
                              !s.g.manifest && !s.g.artifacts
                              && forall u :: 0 <= u < |s.threads| ==> !HasCapability(s.threads[u]))
  {
    RunInv(h, i);
  }
}
