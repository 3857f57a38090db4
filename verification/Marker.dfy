/**
  The reset marker: the signed record at `.plico-projection-reset-active.json` that says how
  far a projection reset has come, and the builders that write it before a crash and rebuild
  it after one.
 */
module Marker {
  import opened Wrappers
  import opened FileTree
  import opened Modes

  // ---------------------------------------------------------------------------------------
  // Decimal rendering of 64-bit identities
  // ---------------------------------------------------------------------------------------

  const TWO_TO_64: nat := 0x1_0000_0000_0000_0000

  const DIGITS: string := "0123456789"

  function ToDecimal(n: nat): string {
    if n < 10 then [DIGITS[n]] else ToDecimal(n / 10) + [DIGITS[n % 10]]
  }

  predicate IsDigit(c: char) {
    '0' <= c <= '9'
  }

  function DigitValue(c: char): nat
    requires IsDigit(c)
  {
    (c - '0') as nat
  }

  /** The value of a digit string; `None` if a character is not a digit. */
  function DigitsValue(s: string): Option<nat> {
    if s == "" then Some(0)
    else
      var last := s[|s| - 1];
      match DigitsValue(s[..|s| - 1])
      case None => None
      case Some(v) => if IsDigit(last) then Some(10 * v + DigitValue(last)) else None
  }

  /** Parsing of an unsigned 64-bit integer: one leading `+` is accepted, overflow is not. */
  function ParseU64(s: string): Option<nat> {
    var digits := if |s| > 1 && s[0] == '+' then s[1..] else s;
    if digits == "" then None
    else
      match DigitsValue(digits)
      case None => None
      case Some(v) => if v < TWO_TO_64 then Some(v) else None
  }

  lemma {:induction false} DecimalDigits(n: nat)
    ensures |ToDecimal(n)| > 0 && IsDigit(ToDecimal(n)[0])
    ensures DigitsValue(ToDecimal(n)) == Some(n)
  {
    if n < 10 {
      assert ToDecimal(n)[..0] == "";
    } else {
      DecimalDigits(n / 10);
      var s := ToDecimal(n);
      assert s[..|s| - 1] == ToDecimal(n / 10);
    }
  }

  /** Every 64-bit identity survives rendering and parsing. */
  lemma DecimalRoundTrip(n: nat)
    requires n < TWO_TO_64
    ensures ParseU64(ToDecimal(n)) == Some(n)
  {
    DecimalDigits(n);
  }

  predicate CanonicalU64(s: string) {
    match ParseU64(s)
    case None => false
    case Some(v) => ToDecimal(v) == s
  }

  // ---------------------------------------------------------------------------------------
  // Identities
  // ---------------------------------------------------------------------------------------

  datatype EntryIdentity = EntryIdentity(device: nat, inode: nat, mode: nat, kind: nat)

  datatype MarkerIdentity = MarkerIdentity(device: string, inode: string, mode: nat, kind: nat)

  function KindCode(t: Tree): nat {
    match t
    case Dir(_, _, _) => 1
    case Leaf(_, kind, _, _) =>
      match kind
      case Regular => 2
      case Symlink => 3
      case Fifo => 4
      case Socket => 5
      case BlockDevice => 6
      case CharacterDevice => 7
  }

  function EntryIdentityOf(t: Tree): EntryIdentity {
    EntryIdentity(t.id.device, t.id.inode, t.mode, KindCode(t))
  }

  /** The identity of a private directory as an entry. */
  function DirectoryEntryIdentity(id: Identity): EntryIdentity {
    EntryIdentity(id.device, id.inode, PRIVATE_DIRECTORY, 1)
  }

  function Render(e: EntryIdentity): MarkerIdentity {
    MarkerIdentity(ToDecimal(e.device), ToDecimal(e.inode), e.mode, e.kind)
  }

  function ParseEntry(m: MarkerIdentity): Option<EntryIdentity> {
    match (ParseU64(m.device), ParseU64(m.inode))
    case (Some(d), Some(i)) => Some(EntryIdentity(d, i, m.mode, m.kind))
    case (_, _) => None
  }

  function ParseDirectory(m: MarkerIdentity): Option<Identity> {
    if m.mode != PRIVATE_DIRECTORY || m.kind != 1 then None
    else
      match (ParseU64(m.device), ParseU64(m.inode))
      case (Some(d), Some(i)) => Some(Identity(d, i))
      case (_, _) => None
  }

  predicate ValidIdentity(m: MarkerIdentity) {
    m.mode <= PERMISSION_BITS && 1 <= m.kind <= 7 && CanonicalU64(m.device) && CanonicalU64(m.inode)
  }

  /** What an operating system can report for an entry. */
  predicate Observable(e: EntryIdentity) {
    e.device < TWO_TO_64 && e.inode < TWO_TO_64 && e.mode <= PERMISSION_BITS && 1 <= e.kind <= 7
  }

  /** An observed identity survives being written to a marker and read back. */
  lemma IdentityRoundTrip(e: EntryIdentity)
    requires Observable(e)
    ensures ParseEntry(Render(e)) == Some(e)
    ensures ValidIdentity(Render(e))
    ensures e.mode == PRIVATE_DIRECTORY && e.kind == 1 ==>
              ParseDirectory(Render(e)) == Some(Identity(e.device, e.inode))
  {
    DecimalRoundTrip(e.device);
    DecimalRoundTrip(e.inode);
  }

  /** A canonical number is the rendering of a 64-bit number, and of no other. */
  lemma CanonicalExact(s: string)
    ensures CanonicalU64(s) <==> exists n: nat :: n < TWO_TO_64 && s == ToDecimal(n)
    ensures forall n: nat :: CanonicalU64(s) ==> (ParseU64(s) == Some(n) <==> s == ToDecimal(n))
  {
    if CanonicalU64(s) {
      var v := ParseU64(s).value;
      assert v < TWO_TO_64 && s == ToDecimal(v);
    }
    forall n: nat | n < TWO_TO_64 && s == ToDecimal(n)
      ensures CanonicalU64(s)
    {
      DecimalRoundTrip(n);
    }
    forall n: nat | CanonicalU64(s) && s == ToDecimal(n)
      ensures ParseU64(s) == Some(n)
    {
      var v := ParseU64(s).value;
      DecimalDigits(v);
      DecimalDigits(n);
    }
  }

  /** An identity in a marker is valid exactly if it is the rendering of something observable. */
  lemma IdentityExact(m: MarkerIdentity)
    ensures ValidIdentity(m) <==> exists e :: Observable(e) && m == Render(e)
  {
    hide ToDecimal, ParseU64;
    CanonicalExact(m.device);
    CanonicalExact(m.inode);
    if ValidIdentity(m) {
      var d: nat :| d < TWO_TO_64 && m.device == ToDecimal(d);
      var i: nat :| i < TWO_TO_64 && m.inode == ToDecimal(i);
      assert Observable(EntryIdentity(d, i, m.mode, m.kind)) && m == Render(EntryIdentity(d, i, m.mode, m.kind));
    }
    forall e | Observable(e) && m == Render(e)
      ensures ValidIdentity(m)
    {
      IdentityRoundTrip(e);
    }
  }

  /** A valid identity is read as a directory exactly if it is the rendering of a private one. */
  lemma DirectoryExact(m: MarkerIdentity, id: Identity)
    requires ValidIdentity(m)
    ensures ParseDirectory(m) == Some(id) <==> m == Render(EntryIdentity(id.device, id.inode, 448, 1))
  {
    hide ToDecimal, ParseU64;
    CanonicalExact(m.device);
    CanonicalExact(m.inode);
  }

  /** The code of an entry tells its kind. */
  lemma KindExact(t: Tree, u: Tree)
    ensures KindCode(t) == KindCode(u) <==> (t.Dir? <==> u.Dir?) && (t.Leaf? && u.Leaf? ==> t.kind == u.kind)
    ensures 1 <= KindCode(t) <= 7 && (KindCode(t) == 1 <==> t.Dir?)
    ensures t.Leaf? ==>
              t.kind == [Regular, Symlink, Fifo, Socket, BlockDevice, CharacterDevice][KindCode(t) - 2]
  {
  }

  /** Two observed identities rendered alike are the same. */
  lemma RenderInjective(a: EntryIdentity, b: EntryIdentity)
    requires Observable(a) && Observable(b) && Render(a) == Render(b)
    ensures a == b
  {
    IdentityRoundTrip(a);
    IdentityRoundTrip(b);
  }

  // ---------------------------------------------------------------------------------------
  // Digests
  // ---------------------------------------------------------------------------------------

  datatype PairRow = PairRow(path: seq<Name>, kind: EntryKind, mode: nat, size: nat, evidence: Evidence)

  /**
    SHA-256 over the canonical JSON of section 3.2 of RFC 8785, one constructor for each
    hash domain: distinct domains and distinct contents never collide.  A tree's rows are
    sorted by path before they are hashed, so the digest depends on which rows there are
    and not on the order in which the walk met them.
   */
  datatype Digest =
    | LiveDigest(rows: multiset<Row>)
    | PairTreeDigest(pairRows: multiset<PairRow>)
    | ActiveDigest(bytes: string)
    | SealDigest(seal: SealPayload)
    | MarkerDigest(payload: Payload)

  datatype SealPayload = SealPayload(
    schema: string, genesis: string, treeDigest: Digest, activeDigest: Digest, artifactCount: nat)

  datatype Seal = Seal(payload: SealPayload, hash: Digest)

  /** The live fingerprint, where the walk accepts the tree. */
  function LiveFingerprint(t: Tree): Option<Digest> {
    if FingerprintAccepts(t) then Some(LiveDigest(multiset(Walk(t, [], t.id.device)))) else None
  }

  /** The fingerprint of a tree that can be taken apart changes with everything taken from it. */
  lemma RemainderFingerprint(o: Tree, u: Tree)
    requires QuarantineAcceptable(o) && FingerprintAccepts(o) && Remainder(o, u) && u != o
    ensures LiveFingerprint(u) != LiveFingerprint(o)
  {
    RemainderSeen(o, u);
  }

  const MAX_PAIR_ENTRIES: nat := 16
  const MAX_PAIR_DEPTH: nat := 4

  function StripIdentity(rows: seq<Row>): (r: seq<PairRow>)
    ensures |r| == |rows|
  {
    if rows == [] then []
    else [PairRow(rows[0].path, rows[0].kind, rows[0].mode, rows[0].size, rows[0].evidence)] + StripIdentity(rows[1..])
  }

  /** A row the pair digest allows: private directories and private regular files, near the root. */
  predicate PrivateRow(r: Row) {
    && |r.path| <= MAX_PAIR_DEPTH && r.size <= MAX_JCS_SAFE_INTEGER
    && (|| (r.kind == DirectoryEntry && r.mode == PRIVATE_DIRECTORY)
        || (r.kind == LeafEntry(Regular) && r.mode == PRIVATE_FILE))
  }

  function PairDigest(t: Tree): Option<Digest> {
    var rows := Walk(t, [], t.id.device);
    if t.Dir? && |rows| <= MAX_PAIR_ENTRIES && (forall i :: 0 <= i < |rows| ==> PrivateRow(rows[i]))
    then Some(PairTreeDigest(multiset(StripIdentity(rows))))
    else None
  }

  function FileAt(t: Tree, path: seq<Name>): Option<Tree>
    decreases |path|
  {
    if path == [] then Some(t)
    else if t.Dir? && path[0] in NameSet(t.entries) then FileAt(Lookup(t.entries, path[0]), path[1..])
    else None
  }

  /** The digest of `manifest/roots/active`, which must be a private, non-empty regular file. */
  function ActivePointerDigest(t: Tree): Option<Digest> {
    match FileAt(t, ["manifest", "roots", "active"])
    case None => None
    case Some(f) =>
      if f.Leaf? && f.kind == Regular && f.mode == PRIVATE_FILE && 0 < |f.content| <= 4096
      then Some(ActiveDigest(f.content)) else None
  }

  const SEAL_SCHEMA: string := "plico.projection.pair-seal/v1"
  const MARKER_SCHEMA: string := "plico.projection.reset-marker/v1"

  /** The seal that `seal_clean_genesis` writes beside a staged pair. */
  function SealOf(t: Tree, genesis: string): Option<Seal> {
    match (PairDigest(t), ActivePointerDigest(t))
    case (Some(tree), Some(active)) =>
      var payload := SealPayload(SEAL_SCHEMA, genesis, tree, active, 0);
      Some(Seal(payload, SealDigest(payload)))
    case (_, _) => None
  }

  predicate ValidSeal(s: Seal) {
    s.payload.schema == SEAL_SCHEMA && s.payload.artifactCount == 0 && s.hash == SealDigest(s.payload)
  }

  // ---------------------------------------------------------------------------------------
  // Markers
  // ---------------------------------------------------------------------------------------

  datatype Binding = Binding(
    stagingName: string,
    transitionName: string,
    container: MarkerIdentity,
    target: MarkerIdentity,
    sealHash: Digest,
    treeDigest: Digest,
    activeDigest: Digest,
    expectedLive: MarkerIdentity,
    liveFingerprint: Digest,
    reason: string)

  datatype Phase =
    | Prepared(binding: Binding)
    | Applied(
        binding: Binding, newLive: MarkerIdentity,
        quarantineContainer: MarkerIdentity, quarantinedEntry: MarkerIdentity)

  datatype Payload = Payload(schema: string, transaction: string, phase: Phase)

  datatype Marker = Marker(payload: Payload, hash: Digest)

  function BuildMarker(payload: Payload): Marker {
    Marker(payload, MarkerDigest(payload))
  }

  const TRANSITION_PREFIX: string := ".plico-projection-reset-marker-transition."

  /** What the publisher of a reset holds: the staged pair, its container and seal, and the live entry it replaces. */
  function BuildPrepared(
    transaction: string, stagingName: string, container: Identity, target: Identity, seal: Seal,
    live: EntryIdentity, fingerprint: Digest, reason: string): Marker
  {
    BuildMarker(Payload(MARKER_SCHEMA, transaction, Prepared(Binding(
      stagingName, TRANSITION_PREFIX + transaction,
      Render(DirectoryEntryIdentity(container)), Render(DirectoryEntryIdentity(target)),
      seal.hash, seal.payload.treeDigest, seal.payload.activeDigest,
      Render(live), fingerprint, reason))))
  }

  function BuildApplied(prepared: Marker, container: Identity, live: EntryIdentity, quarantine: EntryIdentity)
    : (applied: Marker)
    requires prepared.payload.phase.Prepared?
    ensures applied.payload.phase.Applied? && applied.payload.phase.binding == prepared.payload.phase.binding
  {
    BuildMarker(Payload(MARKER_SCHEMA, prepared.payload.transaction, Applied(
      prepared.payload.phase.binding, Render(live), Render(DirectoryEntryIdentity(container)), Render(quarantine))))
  }

  /** The Prepared marker that maintenance rebuilds from an Applied one. */
  function RebuildPrepared(applied: Marker): Marker {
    BuildMarker(Payload(MARKER_SCHEMA, applied.payload.transaction, Prepared(applied.payload.phase.binding)))
  }

  const REASONS: set<string> :=
    {"manifest_incomplete", "manifest_integrity_invalid", "storage_layout_invalid", "canonical_lineage_invalid"}

  predicate ValidBinding(b: Binding, transaction: string) {
    && b.transitionName == TRANSITION_PREFIX + transaction
    && b.reason in REASONS
    && ValidIdentity(b.container) && ValidIdentity(b.target) && ValidIdentity(b.expectedLive)
    && b.container.mode == PRIVATE_DIRECTORY && b.container.kind == 1
    && b.target.mode == PRIVATE_DIRECTORY && b.target.kind == 1
  }

  predicate ValidMarker(m: Marker) {
    && m.payload.schema == MARKER_SCHEMA
    && m.hash == MarkerDigest(m.payload)
    && ValidBinding(m.payload.phase.binding, m.payload.transaction)
    && (m.payload.phase.Applied? ==>
          && m.payload.phase.newLive == m.payload.phase.binding.target
          && m.payload.phase.quarantineContainer == m.payload.phase.binding.container
          && m.payload.phase.quarantinedEntry == m.payload.phase.binding.expectedLive)
  }

  /**
    The Applied marker that recovery builds from nothing but the Prepared marker is the one
    the publisher built from the identities it observed after the exchange; it is valid, and
    the Prepared marker can be rebuilt from it.
   */
  lemma MarkerDeterminism(
    transaction: string, stagingName: string, container: Identity, target: Identity, seal: Seal,
    live: EntryIdentity, fingerprint: Digest, reason: string)
    requires Observable(DirectoryEntryIdentity(container)) && Observable(DirectoryEntryIdentity(target))
    requires Observable(live)
    requires reason in REASONS
    ensures var prepared := BuildPrepared(transaction, stagingName, container, target, seal, live, fingerprint, reason);
            var binding := prepared.payload.phase.binding;
            var observed := BuildApplied(prepared, container, DirectoryEntryIdentity(target), live);
            && ValidMarker(prepared) && ValidMarker(observed)
            && ParseDirectory(binding.container) == Some(container)
            && ParseDirectory(binding.target) == Some(target)
            && ParseEntry(binding.expectedLive) == Some(live)
            && observed == BuildApplied(prepared, ParseDirectory(binding.container).value,
                                        DirectoryEntryIdentity(ParseDirectory(binding.target).value),
                                        ParseEntry(binding.expectedLive).value)
            && RebuildPrepared(observed) == prepared
  {
    IdentityRoundTrip(DirectoryEntryIdentity(container));
    IdentityRoundTrip(DirectoryEntryIdentity(target));
    IdentityRoundTrip(live);
  }

  /** What a publisher puts into its markers. */
  datatype Parts = Parts(
    transaction: string, stagingName: string, container: Identity, target: Identity, seal: Seal,
    live: EntryIdentity, fingerprint: Digest, reason: string)

  /** The identities are observable and the reason is one of the four. */
  predicate Writable(p: Parts) {
    && Observable(DirectoryEntryIdentity(p.container)) && Observable(DirectoryEntryIdentity(p.target))
    && Observable(p.live)
    && (|| p.reason == "manifest_incomplete" || p.reason == "manifest_integrity_invalid"
        || p.reason == "storage_layout_invalid" || p.reason == "canonical_lineage_invalid")
  }

  function PreparedFrom(p: Parts): Marker {
    BuildPrepared(p.transaction, p.stagingName, p.container, p.target, p.seal, p.live, p.fingerprint, p.reason)
  }

  function AppliedFrom(p: Parts): Marker {
    BuildApplied(PreparedFrom(p), p.container, DirectoryEntryIdentity(p.target), p.live)
  }

  /** The parts that a valid binding was made of. */
  lemma BindingParts(b: Binding, transaction: string) returns (p: Parts)
    requires ValidBinding(b, transaction)
    ensures Writable(p) && PreparedFrom(p).payload == Payload(MARKER_SCHEMA, transaction, Prepared(b))
  {
    IdentityExact(b.container);
    IdentityExact(b.target);
    IdentityExact(b.expectedLive);
    hide ValidIdentity;
    var c :| Observable(c) && b.container == Render(c);
    var t :| Observable(t) && b.target == Render(t);
    var live :| Observable(live) && b.expectedLive == Render(live);
    var seal := Seal(SealPayload("", "", b.treeDigest, b.activeDigest, 0), b.sealHash);
    p := Parts(transaction, b.stagingName, Identity(c.device, c.inode), Identity(t.device, t.inode), seal,
               live, b.liveFingerprint, b.reason);
    assert c == DirectoryEntryIdentity(p.container) && t == DirectoryEntryIdentity(p.target);
  }

  /** A marker is valid exactly if a publisher could have written it. */
  lemma MarkerExact(m: Marker)
    ensures ValidMarker(m) <==> exists p :: Writable(p) && (m == PreparedFrom(p) || m == AppliedFrom(p))
  {
    if ValidMarker(m) {
      var p := BindingParts(m.payload.phase.binding, m.payload.transaction);
      assert m == PreparedFrom(p) || m == AppliedFrom(p);
    }
    forall p | Writable(p) && (m == PreparedFrom(p) || m == AppliedFrom(p))
      ensures ValidMarker(m)
    {
      MarkerDeterminism(p.transaction, p.stagingName, p.container, p.target, p.seal, p.live, p.fingerprint, p.reason);
    }
  }

  /** A valid Applied marker is determined by the Prepared marker behind it, and the other way round. */
  lemma AppliedUnique(a: Marker, b: Marker)
    requires ValidMarker(a) && ValidMarker(b) && a.payload.phase.Applied? && b.payload.phase.Applied?
    ensures RebuildPrepared(a) == RebuildPrepared(b) <==> a == b
  {
  }
}
