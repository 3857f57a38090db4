/**
  The projection reset as a protocol on the file system: what the vault can hold, the system
  calls a reset makes, and what holds in every state of every run, whatever process dies
  where and whatever a loss of power undoes.
 */
module ResetProtocol {
  import opened Wrappers
  import opened FileTree
  import opened Modes
  import opened Quarantine
  import opened Marker

  // ---------------------------------------------------------------------------------------
  // The vault
  // ---------------------------------------------------------------------------------------

  /** What a marker file holds: a canonical marker, a marker of another schema, or anything else. */
  datatype MarkerFile = Readable(marker: Marker) | OtherSchema | Corrupt

  datatype SealFile = ReadableSeal(seal: Seal) | OtherSealSchema | CorruptSeal

  /** The staging container; after the exchange it is the quarantine.  `others` are entries that do not belong there. */
  datatype Container = Container(id: Identity, mode: nat, pair: Option<Tree>, seal: Option<SealFile>, others: bool)

  /** The entries of the vault root that one reset uses, as every process sees them. */
  datatype Disk = Disk(
    live: Option<Tree>,
    active: Option<MarkerFile>,
    transition: Option<MarkerFile>,
    container: Option<Container>)

  /** What one directory lists: the inodes at its names and the small files in it. */
  datatype VaultView = VaultView(
    live: Option<Identity>, active: Option<MarkerFile>, transition: Option<MarkerFile>, container: bool)

  datatype ContainerView = ContainerView(pair: Option<Identity>, seal: Option<SealFile>)

  /**
    The file system.  `vaultLog` lists every content of the vault root since it was last
    synced, oldest first, and `containerLog` the same for the container: a loss of power may
    bring back any of them.  `dirty` are the quarantined directories with unsynced changes.
   */
  datatype Store = Store(disk: Disk, vaultLog: seq<VaultView>, containerLog: seq<ContainerView>, dirty: set<Identity>)

  function IdOf(t: Option<Tree>): Option<Identity> {
    match t
    case None => None
    case Some(t) => Some(t.id)
  }

  function VaultViewOf(d: Disk): VaultView {
    VaultView(IdOf(d.live), d.active, d.transition, d.container.Some?)
  }

  function ContainerViewOf(c: Container): ContainerView {
    ContainerView(IdOf(c.pair), c.seal)
  }

  /** A file system on which everything is durable. */
  function Settled(d: Disk): Store {
    var c := if d.container.Some? then ContainerViewOf(d.container.value) else ContainerView(None, None);
    Store(d, [VaultViewOf(d)], [c], {})
  }

  // System calls.

  function VaultChange(s: Store, d: Disk): Store {
    s.(disk := d, vaultLog := s.vaultLog + [VaultViewOf(d)])
  }

  function ContainerChange(s: Store, c: Container): Store {
    s.(disk := s.disk.(container := Some(c)), containerLog := s.containerLog + [ContainerViewOf(c)])
  }

  function PutActive(s: Store, f: Option<MarkerFile>): Store {
    VaultChange(s, s.disk.(active := f))
  }

  function PutTransition(s: Store, f: Option<MarkerFile>): Store {
    VaultChange(s, s.disk.(transition := f))
  }

  function SwapMarkers(s: Store): Store {
    VaultChange(s, s.disk.(active := s.disk.transition, transition := s.disk.active))
  }

  /** One exchange changes both directories at once. */
  function SwapPairs(s: Store): Store
    requires s.disk.container.Some?
  {
    var c := s.disk.container.value.(pair := s.disk.live);
    var d := s.disk.(live := s.disk.container.value.pair, container := Some(c));
    s.(disk := d, vaultLog := s.vaultLog + [VaultViewOf(d)], containerLog := s.containerLog + [ContainerViewOf(c)])
  }

  /** A change inside the quarantined tree leaves both directories as they are. */
  function PutQuarantine(s: Store, q: Quarantined): Store
    requires s.disk.container.Some?
  {
    s.(disk := s.disk.(container := Some(s.disk.container.value.(pair := Some(q.tree)))), dirty := q.dirty)
  }

  function DropPair(s: Store): Store
    requires s.disk.container.Some?
  {
    ContainerChange(s, s.disk.container.value.(pair := None))
  }

  function DropSeal(s: Store): Store
    requires s.disk.container.Some?
  {
    ContainerChange(s, s.disk.container.value.(seal := None))
  }

  function DropContainer(s: Store): Store {
    VaultChange(s, s.disk.(container := None))
  }

  function VaultSynced(s: Store): Store {
    s.(vaultLog := [VaultViewOf(s.disk)])
  }

  function ContainerSynced(s: Store): Store
    requires s.disk.container.Some?
  {
    s.(containerLog := [ContainerViewOf(s.disk.container.value)])
  }

  // ---------------------------------------------------------------------------------------
  // One reset
  // ---------------------------------------------------------------------------------------

  /**
    A reset replaces `former` by the sealed clean pair `clean`, staged in the directory
    `container` beside its `seal`.  `prepared` and `applied` are the markers it writes.
   */
  datatype Reset = Reset(
    former: Tree, clean: Tree, container: Identity, seal: Seal, prepared: Marker, applied: Marker)

  /** All that the protocol itself relies on. */
  ghost predicate Coherent(r: Reset) {
    r.former.id != r.clean.id && r.prepared != r.applied
  }

  /** What the publisher has checked by the time it writes the first marker. */
  ghost predicate ValidReset(r: Reset, genesis: string, transaction: string, stagingName: string, reason: string) {
    && Coherent(r)
    && SealOf(r.clean, genesis) == Some(r.seal)
    && LiveFingerprint(r.former).Some?
    && WellNamed(r.former)
    && Observable(EntryIdentityOf(r.former)) && Observable(EntryIdentityOf(r.clean))
    && Observable(DirectoryEntryIdentity(r.container))
    && reason in REASONS
    && r.prepared == BuildPrepared(transaction, stagingName, r.container, r.clean.id, r.seal,
                                   EntryIdentityOf(r.former), LiveFingerprint(r.former).value, reason)
    && r.applied == BuildApplied(r.prepared, r.container, DirectoryEntryIdentity(r.clean.id), EntryIdentityOf(r.former))
  }

  ghost function PreparedFile(r: Reset): Option<MarkerFile> {
    Some(Readable(r.prepared))
  }

  ghost function AppliedFile(r: Reset): Option<MarkerFile> {
    Some(Readable(r.applied))
  }

  ghost function SealedFile(r: Reset): Option<SealFile> {
    Some(ReadableSeal(r.seal))
  }

  ghost function Holding(r: Reset, pair: Option<Tree>, seal: Option<SealFile>): Option<Container> {
    Some(Container(r.container, PRIVATE_DIRECTORY, pair, seal, false))
  }

  // The states a reset goes through.

  ghost predicate Staged(r: Reset, d: Disk) {
    d == Disk(Some(r.former), None, None, Holding(r, Some(r.clean), SealedFile(r)))
  }

  ghost predicate PreparedOld(r: Reset, d: Disk) {
    d == Disk(Some(r.former), PreparedFile(r), None, Holding(r, Some(r.clean), SealedFile(r)))
  }

  ghost predicate PreparedNew(r: Reset, d: Disk) {
    && d == Disk(Some(r.clean), PreparedFile(r), d.transition, Holding(r, Some(r.former), SealedFile(r)))
    && (d.transition == None || d.transition == AppliedFile(r))
  }

  ghost predicate Maintenance(r: Reset, d: Disk) {
    && d.live == Some(r.clean) && d.active == AppliedFile(r)
    && (d.transition == None || d.transition == PreparedFile(r))
    && (d.container.Some? ==>
          var c := d.container.value;
          && c.id == r.container && c.mode == PRIVATE_DIRECTORY && !c.others
          && (c.seal == None || c.seal == SealedFile(r))
          && (c.pair.Some? ==> Remainder(r.former, c.pair.value) && c.seal.Some?))
  }

  ghost predicate Done(r: Reset, d: Disk) {
    d == Disk(Some(r.clean), None, None, None)
  }

  /** A state that recovery knows how to continue from, or in which nothing is left to do. */
  ghost predicate Recognised(r: Reset, d: Disk) {
    Staged(r, d) || PreparedOld(r, d) || PreparedNew(r, d) || Maintenance(r, d) || Done(r, d)
  }

  /** The Prepared marker is back although something of the old tree is gone. */
  ghost predicate Damaged(r: Reset, d: Disk) {
    && d.container.Some?
    && var pair := d.container.value.pair;
       && d == Disk(Some(r.clean), PreparedFile(r), d.transition, Holding(r, pair, SealedFile(r)))
       && (d.transition == None || d.transition == AppliedFile(r))
       && pair != Some(r.former) && (pair.Some? ==> Remainder(r.former, pair.value))
  }

  // ---------------------------------------------------------------------------------------
  // The steps of the protocol
  // ---------------------------------------------------------------------------------------

  datatype Action =
    | WritePrepared | ExchangePairs | WriteTransition | ExchangeMarkers | UnlinkTransition
    | Shrink(q: Quarantined) | RemovePair | RemoveSeal | RemoveContainer | ClearMarker
    | SyncVault | SyncContainer

  /** The actions after which part of the old tree, or the evidence of it, is gone. */
  predicate Destructive(a: Action) {
    a.Shrink? || a.RemovePair? || a.RemoveSeal? || a.RemoveContainer?
  }

  /** When a reset may make a system call. */
  ghost predicate Enabled(r: Reset, s: Store, a: Action) {
    var d := s.disk;
    match a
    case WritePrepared => Staged(r, d)
    case ExchangePairs => PreparedOld(r, d)
    case WriteTransition => PreparedNew(r, d) && d.transition == None
    case ExchangeMarkers => PreparedNew(r, d) && d.transition == AppliedFile(r)
    case UnlinkTransition => Maintenance(r, d) && d.transition == PreparedFile(r)
    case Shrink(q) =>
      && Maintenance(r, d) && d.transition == None && d.container.Some? && d.container.value.pair.Some?
      && QuarantineStep(Quarantined(d.container.value.pair.value, s.dirty), q, {})
    case RemovePair =>
      && Maintenance(r, d) && d.transition == None && d.container.Some? && d.container.value.pair.Some?
      && Removable(d.container.value.pair.value) && s.dirty == {}
    case RemoveSeal =>
      && Maintenance(r, d) && d.transition == None && d.container.Some? && d.container.value.pair.None?
      && d.container.value.seal.Some? && s.dirty == {} && |s.containerLog| == 1
    case RemoveContainer =>
      && Maintenance(r, d) && d.transition == None && d.container.Some? && d.container.value.pair.None?
      && d.container.value.seal.None? && s.dirty == {} && |s.containerLog| == 1
    case ClearMarker =>
      && Maintenance(r, d) && d.transition == None && d.container.None?
      && s.dirty == {} && |s.vaultLog| == 1
    case SyncVault => true
    case SyncContainer => d.container.Some?
  }

  ghost function Perform(r: Reset, s: Store, a: Action): Store
    requires Enabled(r, s, a)
  {
    match a
    case WritePrepared => PutActive(s, PreparedFile(r))
    case ExchangePairs => SwapPairs(s)
    case WriteTransition => PutTransition(s, AppliedFile(r))
    case ExchangeMarkers => SwapMarkers(s)
    case UnlinkTransition => PutTransition(s, None)
    case Shrink(q) => PutQuarantine(s, q)
    case RemovePair => DropPair(s)
    case RemoveSeal => DropSeal(s)
    case RemoveContainer => DropContainer(s)
    case ClearMarker => PutActive(s, None)
    case SyncVault => VaultSynced(s)
    case SyncContainer => ContainerSynced(s)
  }

  /** Some content of the vault root that may come back says Prepared although the pairs are exchanged. */
  ghost predicate PreparedMayReturn(r: Reset, s: Store) {
    exists i ::
      && 0 <= i < |s.vaultLog|
      && s.vaultLog[i].active == PreparedFile(r) && s.vaultLog[i].live == Some(r.clean.id)
  }

  /**
    One step of a run.  A strict step is destructive only once the Applied marker is durable;
    which steps of the implementation are strict is part of what is proved of it.
   */
  ghost predicate Step(r: Reset, s: Store, s': Store, strict: bool) {
    exists a: Action ::
      && Enabled(r, s, a) && s' == Perform(r, s, a)
      && (strict && Destructive(a) ==> !PreparedMayReturn(r, s))
  }

  // ---------------------------------------------------------------------------------------
  // Runs: any number of steps, and a process may die after any of them
  // ---------------------------------------------------------------------------------------

  /**
    Every process of a run sees what the one before it left, so the death of a process shows
    on disk as nothing at all; it only means that the next step is made by another process.
   */
  ghost predicate Run(r: Reset, h: seq<Store>) {
    && |h| > 0
    && Staged(r, h[0].disk) && h[0] == Settled(h[0].disk)
    && forall i :: 0 < i < |h| ==> Step(r, h[i - 1], h[i], false)
  }

  lemma StepRecognised(r: Reset, s: Store, s': Store, a: Action)
    requires Coherent(r) && Recognised(r, s.disk) && Enabled(r, s, a) && s' == Perform(r, s, a)
    ensures Recognised(r, s'.disk)
  {
    match a
    case ExchangeMarkers => RemainderRefl(r.former);
    case Shrink(q) => ShrinkFacts(r, s, q);
    case _ =>
  }

  /** A step inside the quarantine leaves a remainder; if it changes the tree it takes one off its weight. */
  lemma ShrinkFacts(r: Reset, s: Store, q: Quarantined)
    requires Coherent(r) && Enabled(r, s, Shrink(q))
    ensures var t := s.disk.container.value.pair.value;
            Remainder(r.former, q.tree) && q.tree.id == t.id
            && (q.tree != t ==> Weight(q.tree) + 1 == Weight(t))
            && Remainder(t, q.tree)
  {
    var t := s.disk.container.value.pair.value;
    RemainderRefl(t);
    if q.tree != t {
      var at :| TreeStep(t, q.tree, at) && q.dirty == s.dirty + {at};
      StepKeepsRemainder(r.former, t, q.tree, at);
      StepKeepsRemainder(t, t, q.tree, at);
      StepWeight(t, q.tree, at);
    }
  }

  /** Every state of every run is one that recovery recognises. */
  lemma {:induction false} RunRecognised(r: Reset, h: seq<Store>, i: nat)
    requires Coherent(r) && Run(r, h) && i < |h|
    ensures Recognised(r, h[i].disk)
  {
    if i > 0 {
      RunRecognised(r, h, i - 1);
      var a: Action :| Enabled(r, h[i - 1], a) && h[i] == Perform(r, h[i - 1], a);
      StepRecognised(r, h[i - 1], h[i], a);
    }
  }

  lemma RunThen(r: Reset, h: seq<Store>, a: Action) returns (h': seq<Store>)
    requires Run(r, h) && Enabled(r, h[|h| - 1], a)
    ensures Run(r, h') && h' == h + [Perform(r, h[|h| - 1], a)]
  {
    h' := h + [Perform(r, h[|h| - 1], a)];
    assert Step(r, h[|h| - 1], h'[|h'| - 1], false);
  }

  // ---------------------------------------------------------------------------------------
  // No early destruction
  // ---------------------------------------------------------------------------------------

  /** The old tree is whole, and it is in exactly one of the two places. */
  ghost predicate OldWholeInOnePlace(r: Reset, d: Disk) {
    var quarantined := if d.container.Some? then d.container.value.pair else None;
    (d.live == Some(r.former)) != (quarantined == Some(r.former))
  }

  /** The reset has taken effect: the marker says so and the new pair is live. */
  ghost predicate InEffect(r: Reset, d: Disk) {
    d.active == AppliedFile(r) && d.live == Some(r.clean)
  }

  lemma RecognisedWhole(r: Reset, d: Disk)
    requires Coherent(r) && Recognised(r, d)
    ensures OldWholeInOnePlace(r, d) || InEffect(r, d) || Done(r, d)
    ensures Maintenance(r, d) ==> InEffect(r, d)
    ensures Done(r, d) ==> !OldWholeInOnePlace(r, d)
    ensures !Maintenance(r, d) && !Done(r, d) ==> OldWholeInOnePlace(r, d)
  {
  }

  /**
    The old tree stays whole in exactly one of the two places until the marker says Applied
    and the new pair is live; the first step that takes anything from it starts from there.
   */
  lemma NoEarlyDestruction(r: Reset, h: seq<Store>, i: nat)
    requires Coherent(r) && Run(r, h) && i < |h|
    ensures OldWholeInOnePlace(r, h[i].disk) || InEffect(r, h[i].disk) || Done(r, h[i].disk)
    ensures i > 0 && OldWholeInOnePlace(r, h[i - 1].disk) && !OldWholeInOnePlace(r, h[i].disk) ==>
              InEffect(r, h[i - 1].disk)
  {
    RunRecognised(r, h, i);
    RecognisedWhole(r, h[i].disk);
    if i > 0 {
      RunRecognised(r, h, i - 1);
      RecognisedWhole(r, h[i - 1].disk);
      var a: Action :| Enabled(r, h[i - 1], a) && h[i] == Perform(r, h[i - 1], a);
      StepFromWhole(r, h[i - 1], h[i], a);
    }
  }

  lemma StepFromWhole(r: Reset, s: Store, s': Store, a: Action)
    requires Coherent(r) && Recognised(r, s.disk) && Enabled(r, s, a) && s' == Perform(r, s, a)
    ensures InEffect(r, s.disk) || Done(r, s.disk) || OldWholeInOnePlace(r, s'.disk)
  {
  }

  // ---------------------------------------------------------------------------------------
  // Progress
  // ---------------------------------------------------------------------------------------

  /** How many changes of the file system are left. */
  ghost function Rank(r: Reset, d: Disk): nat {
    if Staged(r, d) then Weight(r.former) + 9
    else if PreparedOld(r, d) then Weight(r.former) + 8
    else if PreparedNew(r, d) then Weight(r.former) + (if d.transition.None? then 7 else 6)
    else if Maintenance(r, d) then
      1 + (if d.transition.None? then 0 else 1)
      + (if d.container.None? then 0 else 1 + ContainerRank(d.container.value))
    else 0
  }

  ghost function ContainerRank(c: Container): nat {
    (if c.seal.None? then 0 else 1) + (match c.pair case None => 0 case Some(t) => Weight(t) + 1)
  }

  /**
    Every step that changes what a process can see takes exactly one off the rank, so a reset
    makes the same number of changes however often it is interrupted.
   */
  lemma StepRank(r: Reset, s: Store, s': Store, a: Action)
    requires Coherent(r) && Recognised(r, s.disk) && Enabled(r, s, a) && s' == Perform(r, s, a)
    ensures if s'.disk == s.disk then Rank(r, s'.disk) == Rank(r, s.disk) else Rank(r, s'.disk) + 1 == Rank(r, s.disk)
  {
    StepRecognised(r, s, s', a);
    match a
    case Shrink(q) => ShrinkFacts(r, s, q);
    case RemovePair =>
      var t := s.disk.container.value.pair.value;
      assert t.Dir? ==> ForestCount(t.entries) == 0 && ForestLoose(t.entries) == 0;
      assert Weight(t) == 0;
    case _ =>
  }

  ghost function Changes(h: seq<Store>): nat {
    if |h| < 2 then 0
    else Changes(h[..|h| - 1]) + if h[|h| - 1].disk == h[|h| - 2].disk then 0 else 1
  }

  /** The number of changes made so far and the rank always add up to the same number. */
  lemma {:induction false} RunChanges(r: Reset, h: seq<Store>)
    requires Coherent(r) && Run(r, h)
    ensures Changes(h) + Rank(r, h[|h| - 1].disk) == Weight(r.former) + 9
    decreases |h|
  {
    if |h| > 1 {
      var init := h[..|h| - 1];
      RunChanges(r, init);
      RunRecognised(r, h, |h| - 2);
      var a: Action :| Enabled(r, h[|h| - 2], a) && h[|h| - 1] == Perform(r, h[|h| - 2], a);
      StepRank(r, h[|h| - 2], h[|h| - 1], a);
    }
  }

  /**
    Bookkeeping that every step keeps: the logs end in what is visible, and only directories of the
    quarantine are dirty.
   */
  ghost predicate Tidy(s: Store) {
    && |s.vaultLog| > 0 && s.vaultLog[|s.vaultLog| - 1] == VaultViewOf(s.disk)
    && |s.containerLog| > 0
    && s.containerLog[|s.containerLog| - 1] ==
       (if s.disk.container.Some? then ContainerViewOf(s.disk.container.value) else ContainerView(None, None))
    && s.dirty <= (if s.disk.container.Some? && s.disk.container.value.pair.Some?
                   then DirectoryIds(s.disk.container.value.pair.value) else {})
  }

  lemma StepTidy(r: Reset, s: Store, s': Store, a: Action)
    requires Coherent(r) && Recognised(r, s.disk) && Tidy(s) && Enabled(r, s, a) && s' == Perform(r, s, a)
    requires !Maintenance(r, s.disk) || s.disk.transition.Some? ==> s.dirty == {}
    ensures Tidy(s')
    ensures !Maintenance(r, s'.disk) || s'.disk.transition.Some? ==> s'.dirty == {}
  {
    match a
    case Shrink(q) => ShrinkFacts(r, s, q);
    case _ =>
  }
}
