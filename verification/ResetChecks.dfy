/**
  The read-only checks of the reset: what each finds on a disk, which error it turns into,
  and that none of them stands in the way of a reset that was merely interrupted.
 */
module ResetChecks {
  import opened Wrappers
  import opened Faults
  import opened FileTree
  import opened Modes
  import opened Quarantine
  import opened Marker
  import opened ResetProtocol

  /** The errors of one recovery or maintenance attempt. */
  datatype ResetError = ManualIntervention | Indeterminate | UnsupportedFormat | Unavailable

  /** The errors of opening projection storage. */
  datatype OpenError =
    | IoError | AlreadyClaimed | ResetPending | MaintenanceRequired
    | ResetIndeterminate | ResetManualIntervention | UnsupportedProjectionFormat

  function PreMutation(e: ErrorKind): ResetError {
    match e
    case InvalidData => ManualIntervention
    case NotFound => ManualIntervention
    case Denied(raw) => if raw then Unavailable else ManualIntervention
    case Other => Unavailable
  }

  /** After a mutation no error may claim to know what the disk holds. */
  function AfterBoundary(e: ResetError, mutated: bool): (r: ResetError)
    ensures mutated ==> r == Indeterminate
    ensures !mutated ==> r == e
  {
    if mutated || e == Indeterminate then Indeterminate else e
  }

  function IoAfterBoundary(e: ErrorKind, mutated: bool): (r: ResetError)
    ensures mutated ==> r == Indeterminate
    ensures !mutated ==> r == PreMutation(e) && r != Indeterminate
  {
    if mutated then Indeterminate else PreMutation(e)
  }

  // ---------------------------------------------------------------------------------------
  // Checks
  // ---------------------------------------------------------------------------------------

  /** Opening a marker file as the exact marker that is expected there. */
  function EvidenceVerdict(f: Option<MarkerFile>, expected: Marker): (e: Option<ResetError>)
    ensures e != Some(Indeterminate)
  {
    match f
    case None => Some(Unavailable)
    case Some(OtherSchema) => Some(UnsupportedFormat)
    case Some(Corrupt) => Some(ManualIntervention)
    case Some(Readable(m)) => if m == expected && ValidMarker(expected) then None else Some(ManualIntervention)
  }

  /** What clearing the active marker finds there. */
  function ClearVerdict(f: Option<MarkerFile>, expected: Marker): Option<ResetError> {
    match f
    case None => Some(Unavailable)
    case Some(OtherSchema) => Some(UnsupportedFormat)
    case Some(Corrupt) => Some(ManualIntervention)
    case Some(Readable(m)) =>
      if m == expected && m.payload.schema == MARKER_SCHEMA && m.hash == MarkerDigest(m.payload) then None
      else Some(ManualIntervention)
  }

  /** Reading whatever valid marker a file holds. */
  function MarkerVerdict(f: MarkerFile): (e: Option<OpenError>)
    ensures e.None? ==> f.Readable?
    ensures e.Some? ==> e.value == UnsupportedProjectionFormat || e.value == ResetManualIntervention
  {
    match f
    case OtherSchema => Some(UnsupportedProjectionFormat)
    case Corrupt => Some(ResetManualIntervention)
    case Readable(m) => if ValidMarker(m) then None else Some(ResetManualIntervention)
  }

  function SealVerdict(f: SealFile): (e: Option<ResetError>)
    ensures e.None? ==> f.ReadableSeal?
    ensures e != Some(Indeterminate)
  {
    match f
    case OtherSealSchema => Some(UnsupportedFormat)
    case CorruptSeal => Some(ManualIntervention)
    case ReadableSeal(seal) => if ValidSeal(seal) then None else Some(ManualIntervention)
  }

  function ToOpenError(e: ResetError): OpenError {
    match e
    case ManualIntervention => ResetManualIntervention
    case Indeterminate => ResetIndeterminate
    case UnsupportedFormat => UnsupportedProjectionFormat
    case Unavailable => IoError
  }

  predicate SealMatches(seal: Seal, b: Binding) {
    seal.hash == b.sealHash && seal.payload.treeDigest == b.treeDigest && seal.payload.activeDigest == b.activeDigest
  }

  /** `verify_projection_reset_live`. */
  function LiveVerdict(d: Disk, m: Marker, seal: Option<Seal>): Option<ErrorKind> {
    match m.payload.phase
    case Prepared(_) => Some(InvalidData)
    case Applied(b, newLive, _, _) =>
      if d.live.None? then Some(NotFound)
      else if Render(EntryIdentityOf(d.live.value)) != newLive then Some(InvalidData)
      else if seal.Some? && !SealMatches(seal.value, b) then Some(InvalidData)
      else TargetVerdict(d.live.value, b)
  }

  /** The pair at a path is the one the marker binds. */
  function TargetVerdict(t: Tree, b: Binding): Option<ErrorKind> {
    if !(t.Dir? && t.mode == PRIVATE_DIRECTORY) then Some(Denied(false))
    else if PairDigest(t) != Some(b.treeDigest) || ActivePointerDigest(t) != Some(b.activeDigest) then Some(InvalidData)
    else None
  }

  /** The quarantined entry is the one the marker names; a directory may have been restricted since. */
  predicate QuarantineIdentity(m: MarkerIdentity, t: Tree) {
    var e := Render(EntryIdentityOf(t));
    && m.device == e.device && m.inode == e.inode && m.kind == e.kind
    && (m.mode == e.mode || (m.kind == 1 && e.mode == PRIVATE_DIRECTORY))
  }

  function QuarantineIdentityVerdict(m: Marker, t: Tree): Option<ErrorKind> {
    match m.payload.phase
    case Prepared(_) => Some(InvalidData)
    case Applied(_, _, _, entry) => if QuarantineIdentity(entry, t) then None else Some(InvalidData)
  }

  function QuarantineVerdict(m: Marker, t: Tree): Option<ErrorKind> {
    if QuarantineIdentityVerdict(m, t).Some? then QuarantineIdentityVerdict(m, t)
    else if QuarantineAcceptable(t) then None else Some(InvalidData)
  }

  predicate ContainerIdentity(c: Container, b: Binding) {
    c.mode == PRIVATE_DIRECTORY && Render(DirectoryEntryIdentity(c.id)) == b.container
  }

  /** `preflight_projection_reset_protocol` up to the traversal of the quarantine. */
  function LayoutVerdict(d: Disk, m: Marker): (e: Option<OpenError>)
    ensures e.Some? ==> e.value in {IoError, UnsupportedProjectionFormat, ResetManualIntervention}
  {
    var b := m.payload.phase.binding;
    if d.transition.Some? && MarkerVerdict(d.transition.value).Some? then MarkerVerdict(d.transition.value)
    else if d.container.None? then (if m.payload.phase.Applied? then None else Some(ResetManualIntervention))
    else
      var c := d.container.value;
      if !ContainerIdentity(c, b) then Some(ResetManualIntervention)
      else if c.seal.Some? && SealVerdict(c.seal.value).Some? then Some(ToOpenError(SealVerdict(c.seal.value).value))
      else
        match (m.payload.phase, c.pair.Some?, c.seal.Some?)
        case (Prepared(_), true, true) => None
        case (Applied(_, _, _, _), true, true) => None
        case (Applied(_, _, _, _), false, _) => None
        case (_, _, _) => Some(ResetManualIntervention)
  }

  /** The quarantine is traversed only in the Applied phase. */
  predicate Traversed(d: Disk, m: Marker) {
    m.payload.phase.Applied? && d.container.Some? && d.container.value.pair.Some?
  }

  /** The whole preflight. */
  function PreflightVerdict(d: Disk, m: Marker): Option<OpenError> {
    if LayoutVerdict(d, m).Some? then LayoutVerdict(d, m)
    else if Traversed(d, m) && QuarantineVerdict(m, d.container.value.pair.value).Some? then
      Some(ResetManualIntervention)
    else None
  }

  /** The staged or live pair is the sealed one that the marker binds. */
  function BindingVerdict(t: Tree, seal: Seal, b: Binding): Option<ErrorKind> {
    if !SealMatches(seal, b) then Some(InvalidData) else TargetVerdict(t, b)
  }

  /** `validate_prepared_reset_post_exchange`. */
  function PostExchangeVerdict(d: Disk, target: Identity, live: EntryIdentity, b: Binding, seal: Seal)
    : Option<ErrorKind>
  {
    if d.live.None? || d.container.None? || d.container.value.pair.None? then Some(NotFound)
    else
      var pair := d.container.value.pair.value;
      if || EntryIdentityOf(d.live.value) != DirectoryEntryIdentity(target)
         || EntryIdentityOf(pair) != live
         || LiveFingerprint(pair) != Some(b.liveFingerprint)
      then Some(InvalidData)
      else BindingVerdict(d.live.value, seal, b)
  }

  function ContainerEntryIdentity(c: Container): EntryIdentity {
    EntryIdentity(c.id.device, c.id.inode, c.mode, 1)
  }

  /** `validate_applied_projection_topology`. */
  function TopologyVerdict(d: Disk, m: Marker): Option<ErrorKind> {
    match m.payload.phase
    case Prepared(_) => Some(InvalidData)
    case Applied(_, newLive, container, entry) =>
      if d.live.None? || d.container.None? || d.container.value.pair.None? then Some(NotFound)
      else if || Render(EntryIdentityOf(d.live.value)) != newLive
              || Render(ContainerEntryIdentity(d.container.value)) != container
              || Render(EntryIdentityOf(d.container.value.pair.value)) != entry
      then Some(InvalidData)
      else None
  }

  // ---------------------------------------------------------------------------------------
  // What it means to pass a check
  // ---------------------------------------------------------------------------------------

  /** A private directory whose files are the ones that were sealed. */
  predicate SealedPair(t: Tree, b: Binding) {
    && t.Dir? && t.mode == 448
    && PairDigest(t) == Some(b.treeDigest) && ActivePointerDigest(t) == Some(b.activeDigest)
  }

  /** The seal is the one the marker binds. */
  predicate SealBound(seal: Seal, b: Binding) {
    seal.hash == b.sealHash && seal.payload.treeDigest == b.treeDigest && seal.payload.activeDigest == b.activeDigest
  }

  /** The live entry is the sealed pair, at the inode that the Applied marker names. */
  predicate LiveGenuine(d: Disk, m: Marker) {
    && m.payload.phase.Applied? && d.live.Some?
    && Render(EntryIdentityOf(d.live.value)) == m.payload.phase.newLive
    && SealedPair(d.live.value, m.payload.phase.binding)
  }

  /** The clean pair is live and the old entry, unchanged since it was fingerprinted, is in the container. */
  predicate Exchanged(d: Disk, target: Identity, live: EntryIdentity, b: Binding, seal: Seal) {
    && d.live.Some? && d.container.Some? && d.container.value.pair.Some?
    && EntryIdentityOf(d.live.value) == EntryIdentity(target.device, target.inode, 448, 1)
    && EntryIdentityOf(d.container.value.pair.value) == live
    && LiveFingerprint(d.container.value.pair.value) == Some(b.liveFingerprint)
    && SealBound(seal, b) && SealedPair(d.live.value, b)
  }

  /** The quarantined entry is the one that the Applied marker names, if a directory perhaps restricted since. */
  predicate QuarantineGenuine(m: Marker, t: Tree) {
    && m.payload.phase.Applied?
    && var (named, found) := (m.payload.phase.quarantinedEntry, EntryIdentityOf(t));
    && named.device == ToDecimal(found.device) && named.inode == ToDecimal(found.inode) && named.kind == found.kind
    && (named.mode == found.mode || (t.Dir? && found.mode == 448))
  }

  /** Trouble with the machine, and nothing else, is answered by `Unavailable`: it may be gone next time. */
  lemma PreMutationExact(e: ErrorKind)
    ensures PreMutation(e) == Unavailable <==> e == Other || e == Denied(true)
    ensures PreMutation(e) == ManualIntervention <==> e == InvalidData || e == NotFound || e == Denied(false)
  {
  }

  /** A file that some publisher of this version wrote. */
  predicate GenuineMarker(f: MarkerFile) {
    f.Readable? && ValidMarker(f.marker)
  }

  predicate GenuineSeal(f: SealFile) {
    && f.ReadableSeal? && f.seal.hash == SealDigest(f.seal.payload)
    && f.seal.payload.schema == "plico.projection.pair-seal/v1" && f.seal.payload.artifactCount == 0
  }

  /** Everything a marker speaks of is where it can be. */
  predicate LayoutGenuine(d: Disk, m: Marker) {
    && (d.transition.Some? ==> GenuineMarker(d.transition.value))
    && (m.payload.phase.Prepared? ==> d.container.Some? && d.container.value.pair.Some? && d.container.value.seal.Some?)
    && (d.container.Some? ==>
          && d.container.value.mode == 448
          && var id := d.container.value.id;
          && m.payload.phase.binding.container == Render(EntryIdentity(id.device, id.inode, 448, 1))
          && (d.container.value.seal.Some? ==> GenuineSeal(d.container.value.seal.value))
          && (d.container.value.pair.Some? ==> d.container.value.seal.Some?))
  }

  /** A marker or a seal was written by another version. */
  predicate Foreign(d: Disk) {
    || d.active == Some(OtherSchema) || d.transition == Some(OtherSchema)
    || (d.container.Some? && d.container.value.seal == Some(OtherSealSchema))
  }

  lemma MarkerFileExact(f: MarkerFile)
    ensures MarkerVerdict(f) == None <==> GenuineMarker(f)
    ensures MarkerVerdict(f) == Some(UnsupportedProjectionFormat) <==> f.OtherSchema?
  {
  }

  lemma LayoutExact(d: Disk, m: Marker)
    ensures LayoutVerdict(d, m) == None <==> LayoutGenuine(d, m)
    ensures LayoutVerdict(d, m) == Some(UnsupportedProjectionFormat) ==> Foreign(d)
    ensures LayoutVerdict(d, m) != Some(IoError)
    ensures d.transition == Some(OtherSchema) ==> LayoutVerdict(d, m) == Some(UnsupportedProjectionFormat)
    ensures && d.transition.None? && d.container.Some? && ContainerIdentity(d.container.value, m.payload.phase.binding)
            && d.container.value.seal == Some(OtherSealSchema)
            ==> LayoutVerdict(d, m) == Some(UnsupportedProjectionFormat)
  {
  }

  /** The whole preflight: the layout, and in maintenance a quarantine that may be taken apart. */
  lemma PreflightExact(d: Disk, m: Marker)
    ensures PreflightVerdict(d, m) == None <==>
            && LayoutGenuine(d, m)
            && (m.payload.phase.Applied? && d.container.Some? && d.container.value.pair.Some? ==>
                  && QuarantineGenuine(m, d.container.value.pair.value)
                  && QuarantineAcceptable(d.container.value.pair.value))
    ensures PreflightVerdict(d, m) == Some(UnsupportedProjectionFormat) ==> Foreign(d)
    ensures PreflightVerdict(d, m) != Some(IoError)
    ensures d.transition == Some(OtherSchema) ==> PreflightVerdict(d, m) == Some(UnsupportedProjectionFormat)
  {
    hide LayoutVerdict, QuarantineIdentityVerdict;
    LayoutExact(d, m);
    if d.container.Some? && d.container.value.pair.Some? {
      QuarantineExact(m, d.container.value.pair.value);
    }
  }

  lemma EvidenceExact(f: Option<MarkerFile>, expected: Marker)
    ensures EvidenceVerdict(f, expected) == None <==> f == Some(Readable(expected)) && ValidMarker(expected)
    ensures EvidenceVerdict(f, expected) == Some(UnsupportedFormat) <==> f == Some(OtherSchema)
    ensures EvidenceVerdict(f, expected) == Some(Unavailable) <==> f == None
  {
  }

  lemma ClearExact(f: Option<MarkerFile>, expected: Marker)
    ensures ClearVerdict(f, expected) == None <==>
            && f == Some(Readable(expected)) && expected.hash == MarkerDigest(expected.payload)
            && expected.payload.schema == "plico.projection.reset-marker/v1"
    ensures ClearVerdict(f, expected) == Some(UnsupportedFormat) <==> f == Some(OtherSchema)
    ensures ClearVerdict(f, expected) == Some(Unavailable) <==> f == None
    ensures ClearVerdict(f, expected) != Some(Indeterminate)
  {
  }

  lemma LiveExact(d: Disk, m: Marker, seal: Option<Seal>)
    ensures LiveVerdict(d, m, seal) == None <==>
            LiveGenuine(d, m) && (seal.Some? ==> SealBound(seal.value, m.payload.phase.binding))
    ensures && m.payload.phase.Applied? && d.live.Some? && d.live.value.Dir? && d.live.value.mode == 448
            && !SealedPair(d.live.value, m.payload.phase.binding)
            ==> LiveVerdict(d, m, seal) == Some(InvalidData)
    ensures LiveVerdict(d, m, seal).Some? ==> PreMutation(LiveVerdict(d, m, seal).value) == ManualIntervention
  {
  }

  lemma PostExchangeExact(d: Disk, target: Identity, live: EntryIdentity, b: Binding, seal: Seal)
    ensures PostExchangeVerdict(d, target, live, b, seal) == None <==> Exchanged(d, target, live, b, seal)
  {
  }

  lemma BindingExact(t: Tree, seal: Seal, b: Binding)
    ensures BindingVerdict(t, seal, b) == None <==> SealBound(seal, b) && SealedPair(t, b)
    ensures t.Dir? && t.mode == 448 && !SealedPair(t, b) ==> BindingVerdict(t, seal, b) == Some(InvalidData)
  {
  }

  lemma QuarantineExact(m: Marker, t: Tree)
    ensures QuarantineIdentityVerdict(m, t) == if QuarantineGenuine(m, t) then None else Some(InvalidData)
  {
  }

  /** The entries are where an Applied marker says. */
  predicate TopologyGenuine(d: Disk, m: Marker) {
    && m.payload.phase.Applied? && d.live.Some? && d.container.Some? && d.container.value.pair.Some?
    && m.payload.phase.newLive == Render(EntryIdentityOf(d.live.value))
    && m.payload.phase.quarantinedEntry == Render(EntryIdentityOf(d.container.value.pair.value))
    && var (named, c) := (m.payload.phase.quarantineContainer, d.container.value);
    && named.device == ToDecimal(c.id.device) && named.inode == ToDecimal(c.id.inode)
    && named.mode == c.mode && named.kind == 1
  }

  lemma TopologyExact(d: Disk, m: Marker)
    ensures TopologyVerdict(d, m) == None <==> TopologyGenuine(d, m)
  {
  }

  // ---------------------------------------------------------------------------------------
  // What the checks find on the disk of a reset
  // ---------------------------------------------------------------------------------------

  /** A reset as it was published: its markers and seal are what the publisher wrote. */
  ghost predicate Published(r: Reset) {
    exists genesis, transaction, stagingName, reason :: ValidReset(r, genesis, transaction, stagingName, reason)
  }

  /** All that the code can learn about a published reset from its markers and its seal. */
  ghost predicate Facts(r: Reset) {
    && Coherent(r)
    && WellNamed(r.former) && FingerprintAccepts(r.former)
    && ValidMarker(r.prepared) && ValidMarker(r.applied) && ValidSeal(r.seal)
    && r.prepared.payload.phase.Prepared? && r.applied.payload.phase.Applied?
    && RebuildPrepared(r.applied) == r.prepared
    && r.clean.Dir? && r.clean.mode == PRIVATE_DIRECTORY
    && var b := r.prepared.payload.phase.binding;
    && r.applied.payload.phase.binding == b
    && ParseDirectory(b.container) == Some(r.container)
    && ParseDirectory(b.target) == Some(r.clean.id)
    && ParseEntry(b.expectedLive) == Some(EntryIdentityOf(r.former))
    && Render(DirectoryEntryIdentity(r.container)) == b.container
    && Render(EntryIdentityOf(r.clean)) == b.target
    && EntryIdentityOf(r.clean) == DirectoryEntryIdentity(r.clean.id)
    && Render(EntryIdentityOf(r.former)) == b.expectedLive
    && r.applied ==
       BuildApplied(r.prepared, r.container, DirectoryEntryIdentity(r.clean.id), EntryIdentityOf(r.former))
    && SealMatches(r.seal, b)
    && TargetVerdict(r.clean, b) == None
    && LiveFingerprint(r.former) == Some(b.liveFingerprint)
  }

  lemma PublishedFacts(r: Reset)
    requires Published(r)
    ensures Facts(r)
  {
    var genesis, transaction, stagingName, reason :| ValidReset(r, genesis, transaction, stagingName, reason);
    assert PairDigest(r.clean).Some?;
    var rows := Walk(r.clean, [], r.clean.id.device);
    assert PrivateRow(rows[0]);
    assert EntryIdentityOf(r.clean) == DirectoryEntryIdentity(r.clean.id);
    MarkerDeterminism(transaction, stagingName, r.container, r.clean.id, r.seal,
                      EntryIdentityOf(r.former), LiveFingerprint(r.former).value, reason);
  }

  /** A restricted, partly emptied tree still answers to the identity the marker recorded. */
  lemma RemainderIdentity(r: Reset, t: Tree)
    requires Facts(r) && Remainder(r.former, t)
    ensures QuarantineIdentityVerdict(r.applied, t) == None
  {
  }

  /**
    What the tests of recovery say of a damaged disk: without a pair preflight refuses it, and
    with one the post-exchange test accepts it exactly if the fingerprint misses the damage.
   */
  lemma DamagedExact(r: Reset, d: Disk)
    requires Facts(r) && Damaged(r, d)
    ensures MarkerVerdict(d.active.value) == None
    ensures var pair := d.container.value.pair;
            var b := r.prepared.payload.phase.binding;
            var post := PostExchangeVerdict(d, r.clean.id, EntryIdentityOf(r.former), b, r.seal);
            && PreflightVerdict(d, r.prepared) == (if pair.None? then Some(ResetManualIntervention) else None)
            && (pair.Some? ==> post == None || post == Some(InvalidData))
            && (pair.Some? ==>
                  (post == None <==>
                   && EntryIdentityOf(pair.value) == EntryIdentityOf(r.former)
                   && LiveFingerprint(pair.value) == LiveFingerprint(r.former)))
  {
  }

  /** It never misses it in a tree that may be taken apart. */
  lemma DamagedRefused(r: Reset, d: Disk)
    requires Facts(r) && Damaged(r, d) && QuarantineAcceptable(r.former)
    ensures var pair := d.container.value.pair;
            var b := r.prepared.payload.phase.binding;
            if pair.None? then PreflightVerdict(d, r.prepared) == Some(ResetManualIntervention)
            else PostExchangeVerdict(d, r.clean.id, EntryIdentityOf(r.former), b, r.seal) == Some(InvalidData)
  {
    hide PostExchangeVerdict, PreflightVerdict, MarkerVerdict;
    DamagedExact(r, d);
    if d.container.value.pair.Some? {
      RemainderFingerprint(r.former, d.container.value.pair.value);
    }
  }

  /** It does miss it in a tree with a directory on another device, from which no code takes anything. */
  lemma DamageMissed(r: Reset, other: Identity, leaf: Tree, dir: Name, file: Name) returns (d: Disk)
    requires Facts(r) && r.former.id.device != other.device && leaf.Leaf?
    requires r.former ==
             Dir(r.former.id, PRIVATE_DIRECTORY, Cons(dir, Dir(other, PRIVATE_DIRECTORY, Cons(file, leaf, Nil)), Nil))
    ensures Damaged(r, d) && PreflightVerdict(d, r.prepared) == None && !QuarantineAcceptable(r.former)
    ensures var b := r.prepared.payload.phase.binding;
            PostExchangeVerdict(d, r.clean.id, EntryIdentityOf(r.former), b, r.seal) == None
  {
    hide PostExchangeVerdict, PreflightVerdict, MarkerVerdict, Facts;
    RemainderUnseen(r.former.id, other, leaf, dir, file);
    var u := Dir(r.former.id, PRIVATE_DIRECTORY, Cons(dir, Dir(other, PRIVATE_DIRECTORY, Nil), Nil));
    d := Disk(Some(r.clean), PreparedFile(r), None, Holding(r, Some(u), SealedFile(r)));
    DamagedExact(r, d);
    assert !EntryAcceptable(r.former.entries.head, r.former.id.device, 0);
    assert !EntriesAcceptable(r.former.entries, r.former.id.device, 0);
  }

  /** `t` sits in the place of the clean pair and is not what was sealed. */
  ghost predicate Forged(r: Reset, t: Tree) {
    t.Dir? && t.mode == 448 && t.id == r.clean.id && !SealedPair(t, r.prepared.payload.phase.binding)
  }

  /** A reset in any of its phases with `t` in the place of the clean pair. */
  ghost predicate Altered(r: Reset, t: Tree, d: Disk) {
    && Facts(r) && Forged(r, t)
    && var s := r.(clean := t);
    PreparedOld(s, d) || PreparedNew(s, d) || Maintenance(s, d)
  }

  /** What the tests say of a pair that is not the sealed one. */
  lemma AlteredRefused(r: Reset, t: Tree, d: Disk)
    requires Altered(r, t, d)
    ensures var s := r.(clean := t);
            var b := r.prepared.payload.phase.binding;
            && (PreparedOld(s, d) ==> BindingVerdict(t, r.seal, b) == Some(InvalidData))
            && (PreparedNew(s, d) ==>
                  PostExchangeVerdict(d, r.clean.id, EntryIdentityOf(r.former), b, r.seal) == Some(InvalidData))
            && (Maintenance(s, d) ==> forall seal :: LiveVerdict(d, r.applied, seal) == Some(InvalidData))
  {
  }

  /**
    Preflight accepts every state that a run can reach while a marker is there, except for
    one thing that the publisher does not check: once the reset is in maintenance, what is
    left of the old tree must be traversable.
   */
  lemma PreflightPasses(r: Reset, d: Disk, m: Marker)
    requires Facts(r) && Recognised(r, d) && d.active == Some(Readable(m))
    ensures LayoutVerdict(d, m) == None
    ensures PreflightVerdict(d, m) == None <==>
            (Maintenance(r, d) && d.container.Some? && d.container.value.pair.Some?
             ==> QuarantineAcceptable(d.container.value.pair.value))
  {
    if Maintenance(r, d) && d.container.Some? && d.container.value.pair.Some? {
      RemainderIdentity(r, d.container.value.pair.value);
    }
  }

  /**
    A reset interrupted only by crashes is never classed as manual intervention exactly when
    the tree it replaces lies on one device and has no directory of mode 0000: in that case
    every state of every run passes preflight, and otherwise the first state of maintenance
    does not.
   */
  lemma RunsPassPreflight(r: Reset)
    requires Published(r)
    ensures SingleDevice(r.former) && Openable(r.former) <==>
            (forall h: seq<Store>, i: int, m: Marker |
               Run(r, h) && 0 <= i < |h| && h[i].disk.active == Some(Readable(m)) ::
               PreflightVerdict(h[i].disk, m) == None)
  {
    PublishedFacts(r);
    FingerprintImpliesQuarantine(r.former);
    if SingleDevice(r.former) && Openable(r.former) {
      forall h: seq<Store>, i: int, m: Marker | Run(r, h) && 0 <= i < |h| && h[i].disk.active == Some(Readable(m))
        ensures PreflightVerdict(h[i].disk, m) == None
      {
        RunRecognised(r, h, i);
        var d := h[i].disk;
        if Maintenance(r, d) && d.container.Some? && d.container.value.pair.Some? {
          RemainderAcceptable(r.former, d.container.value.pair.value);
        }
        PreflightPasses(r, d, m);
      }
    } else {
      var h := ToMaintenance(r);
      PreflightPasses(r, h[|h| - 1].disk, r.applied);
      assert PreflightVerdict(h[|h| - 1].disk, r.applied) != None;
    }
  }

  lemma ToMaintenance(r: Reset) returns (h: seq<Store>)
    requires Coherent(r)
    ensures Run(r, h)
    ensures h[|h| - 1].disk ==
            Disk(Some(r.clean), AppliedFile(r), PreparedFile(r), Holding(r, Some(r.former), SealedFile(r)))
    ensures Maintenance(r, h[|h| - 1].disk)
  {
    RemainderRefl(r.former);
    h := [Settled(Disk(Some(r.former), None, None, Holding(r, Some(r.clean), SealedFile(r))))];
    h := RunThen(r, h, WritePrepared);
    h := RunThen(r, h, ExchangePairs);
    h := RunThen(r, h, WriteTransition);
    h := RunThen(r, h, ExchangeMarkers);
  }
}
