/**
  Directory trees as the projection reset sees them: the entry a vault keeps at
  `projection-store`, live or quarantined.
 */
module FileTree {
  import opened Modes

  type Name = string

  const MAX_DEPTH: nat := 8
  const MAX_ENTRIES: nat := 4096
  const MAX_FILE_BYTES: nat := 16 * 1024 * 1024
  const MAX_JCS_SAFE_INTEGER: nat := 9_007_199_254_740_991

  datatype Identity = Identity(device: nat, inode: nat)

  datatype Kind = Regular | Symlink | Fifo | Socket | BlockDevice | CharacterDevice

  /** `entries` lists a directory in the order in which the operating system would return it. */
  datatype Tree =
    | Leaf(id: Identity, kind: Kind, mode: nat, content: string)
    | Dir(id: Identity, mode: nat, entries: Forest)

  datatype Forest = Nil | Cons(name: Name, head: Tree, tail: Forest)

  // ---------------------------------------------------------------------------------------
  // Sizes
  // ---------------------------------------------------------------------------------------

  /** Entries strictly below the root. */
  function Count(t: Tree): nat {
    match t
    case Leaf(_, _, _, _) => 0
    case Dir(_, _, f) => ForestCount(f)
  }

  function ForestCount(f: Forest): nat {
    match f
    case Nil => 0
    case Cons(_, t, g) => 1 + Count(t) + ForestCount(g)
  }

  /** Entries directly in a directory, and entries below those. */
  function Length(f: Forest): nat {
    match f
    case Nil => 0
    case Cons(_, _, g) => 1 + Length(g)
  }

  function Below(f: Forest): nat
    ensures ForestCount(f) == Length(f) + Below(f)
  {
    match f
    case Nil => 0
    case Cons(_, t, g) => Count(t) + Below(g)
  }

  /** Directories, the root included, whose mode is not 0700. */
  function Loose(t: Tree): nat {
    match t
    case Leaf(_, _, _, _) => 0
    case Dir(_, m, f) => (if m == PRIVATE_DIRECTORY then 0 else 1) + ForestLoose(f)
  }

  function ForestLoose(f: Forest): nat {
    match f
    case Nil => 0
    case Cons(_, t, g) => Loose(t) + ForestLoose(g)
  }

  /** What is left to do before the tree can be removed by one `rmdir`. */
  function Weight(t: Tree): nat {
    Count(t) + Loose(t)
  }

  function ForestWeight(f: Forest): nat {
    ForestCount(f) + ForestLoose(f)
  }

  function DirectoryIds(t: Tree): set<Identity> {
    match t
    case Leaf(_, _, _, _) => {}
    case Dir(id, _, f) => {id} + ForestIds(f)
  }

  function ForestIds(f: Forest): set<Identity> {
    match f
    case Nil => {}
    case Cons(_, t, g) => DirectoryIds(t) + ForestIds(g)
  }

  // ---------------------------------------------------------------------------------------
  // A directory as a finite map from names
  // ---------------------------------------------------------------------------------------

  function NameSet(f: Forest): set<Name> {
    match f
    case Nil => {}
    case Cons(n, _, g) => {n} + NameSet(g)
  }

  predicate Distinct(f: Forest) {
    match f
    case Nil => true
    case Cons(n, t, g) => n !in NameSet(g) && Distinct(g) && WellNamed(t)
  }

  /** No directory of the tree lists a name twice. */
  predicate WellNamed(t: Tree) {
    t.Dir? ==> Distinct(t.entries)
  }

  function Lookup(f: Forest, n: Name): Tree
    requires n in NameSet(f)
  {
    if f.name == n then f.head else Lookup(f.tail, n)
  }

  function Delete(f: Forest, n: Name): Forest {
    match f
    case Nil => Nil
    case Cons(m, t, g) => if m == n then g else Cons(m, t, Delete(g, n))
  }

  function Replace(f: Forest, n: Name, u: Tree): Forest {
    match f
    case Nil => Nil
    case Cons(m, t, g) => if m == n then Cons(m, u, g) else Cons(m, t, Replace(g, n, u))
  }

  lemma {:induction false} DeleteNames(f: Forest, n: Name)
    requires n in NameSet(f) && Distinct(f)
    ensures NameSet(Delete(f, n)) == NameSet(f) - {n}
    ensures Distinct(Delete(f, n)) && WellNamed(Lookup(f, n))
    ensures ForestIds(f) == ForestIds(Delete(f, n)) + DirectoryIds(Lookup(f, n))
  {
    if f.name != n {
      DeleteNames(f.tail, n);
    }
  }

  lemma {:induction false} DeleteCounts(f: Forest, n: Name)
    requires n in NameSet(f)
    ensures ForestCount(Delete(f, n)) + 1 + Count(Lookup(f, n)) == ForestCount(f)
    ensures Length(Delete(f, n)) + 1 == Length(f)
    ensures Below(Delete(f, n)) + Count(Lookup(f, n)) == Below(f)
  {
    if f.name != n {
      DeleteCounts(f.tail, n);
    }
  }

  lemma DeleteFacts(f: Forest, n: Name)
    requires n in NameSet(f) && Distinct(f)
    ensures NameSet(Delete(f, n)) == NameSet(f) - {n}
    ensures Distinct(Delete(f, n)) && WellNamed(Lookup(f, n))
    ensures ForestIds(f) == ForestIds(Delete(f, n)) + DirectoryIds(Lookup(f, n))
    ensures ForestCount(Delete(f, n)) + 1 + Count(Lookup(f, n)) == ForestCount(f)
    ensures Length(Delete(f, n)) + 1 == Length(f)
    ensures Below(Delete(f, n)) + Count(Lookup(f, n)) == Below(f)
  {
    DeleteNames(f, n);
    DeleteCounts(f, n);
  }

  lemma {:induction false} ReplaceWeight(f: Forest, n: Name, u: Tree)
    requires n in NameSet(f)
    ensures ForestWeight(Replace(f, n, u)) + Weight(Lookup(f, n)) == ForestWeight(f) + Weight(u)
  {
    if f.name != n {
      ReplaceWeight(f.tail, n, u);
    }
  }

  lemma {:induction false} ReplaceFacts(f: Forest, n: Name, u: Tree)
    requires n in NameSet(f) && Distinct(f)
    ensures NameSet(Replace(f, n, u)) == NameSet(f)
    ensures WellNamed(u) ==> Distinct(Replace(f, n, u))
    ensures Lookup(Replace(f, n, u), n) == u
    ensures Delete(Replace(f, n, u), n) == Delete(f, n)
    ensures ForestIds(Replace(f, n, u)) == ForestIds(Delete(f, n)) + DirectoryIds(u)
    ensures u == Lookup(f, n) ==> Replace(f, n, u) == f
  {
    if f.name != n {
      ReplaceFacts(f.tail, n, u);
      DeleteFacts(f.tail, n);
    }
  }

  // ---------------------------------------------------------------------------------------
  // One mutation of the cleanup
  // ---------------------------------------------------------------------------------------

  /** An entry that one `unlink` or `rmdir` can remove. */
  predicate Removable(t: Tree) {
    t.Leaf? || (t.mode == PRIVATE_DIRECTORY && t.entries.Nil?)
  }

  /**
    The cleanup changes a tree by one system call: it restricts one directory to 0700, or
    removes one leaf or one empty directory.  Every directory on the way to the change has
    been restricted already.  `at` is the directory whose contents or mode changed.
   */
  ghost predicate TreeStep(t: Tree, u: Tree, at: Identity) {
    && t.Dir? && u.Dir? && t.id == u.id
    && u.mode == PRIVATE_DIRECTORY
    && (if t.mode != PRIVATE_DIRECTORY then u.entries == t.entries && at == t.id
        else ForestStep(t.entries, u.entries, t.id, at))
  }

  ghost predicate ForestStep(f: Forest, g: Forest, parent: Identity, at: Identity) {
    && f.Cons?
    && (|| (g == f.tail && Removable(f.head) && at == parent)
        || (g.Cons? && g.name == f.name && g.tail == f.tail && TreeStep(f.head, g.head, at))
        || (g.Cons? && g.name == f.name && g.head == f.head && ForestStep(f.tail, g.tail, parent, at)))
  }

  /** Every mutation takes exactly one unit off the weight. */
  lemma {:induction false} StepWeight(t: Tree, u: Tree, at: Identity)
    requires TreeStep(t, u, at)
    ensures Weight(u) + 1 == Weight(t)
    ensures at in DirectoryIds(t) && at in DirectoryIds(u)
    ensures DirectoryIds(u) <= DirectoryIds(t)
  {
    if t.mode == PRIVATE_DIRECTORY {
      ForestStepWeight(t.entries, u.entries, t.id, at);
    }
  }

  lemma {:induction false} ForestStepWeight(f: Forest, g: Forest, parent: Identity, at: Identity)
    requires ForestStep(f, g, parent, at)
    ensures ForestWeight(g) + 1 == ForestWeight(f)
    ensures at == parent || (at in ForestIds(f) && at in ForestIds(g))
    ensures ForestIds(g) <= ForestIds(f)
  {
    if g == f.tail && Removable(f.head) && at == parent {
      assert f.head.Dir? ==> ForestCount(f.head.entries) == 0 && ForestLoose(f.head.entries) == 0;
      assert Count(f.head) == 0 && Loose(f.head) == 0;
    } else if g.tail == f.tail && TreeStep(f.head, g.head, at) {
      StepWeight(f.head, g.head, at);
    } else {
      ForestStepWeight(f.tail, g.tail, parent, at);
    }
  }

  lemma {:induction false} StepKeepsNames(t: Tree, u: Tree, at: Identity)
    requires TreeStep(t, u, at) && WellNamed(t)
    ensures WellNamed(u)
  {
    if t.mode == PRIVATE_DIRECTORY {
      ForestStepKeepsNames(t.entries, u.entries, t.id, at);
    }
  }

  lemma {:induction false} ForestStepKeepsNames(f: Forest, g: Forest, parent: Identity, at: Identity)
    requires ForestStep(f, g, parent, at) && Distinct(f)
    ensures Distinct(g) && NameSet(g) <= NameSet(f)
  {
    if g == f.tail && Removable(f.head) && at == parent {
    } else if g.tail == f.tail && TreeStep(f.head, g.head, at) {
      StepKeepsNames(f.head, g.head, at);
    } else {
      ForestStepKeepsNames(f.tail, g.tail, parent, at);
    }
  }

  /** A mutation inside one entry is a mutation of the directory that lists it. */
  lemma {:induction false} StepInEntry(f: Forest, n: Name, t: Tree, u: Tree, parent: Identity, at: Identity)
    requires n in NameSet(f) && TreeStep(t, u, at)
    ensures ForestStep(Replace(f, n, t), Replace(f, n, u), parent, at)
  {
    if f.name != n {
      StepInEntry(f.tail, n, t, u, parent, at);
    }
  }

  /** Removing one entry is a mutation of the directory that lists it. */
  lemma {:induction false} StepRemoveEntry(f: Forest, n: Name, parent: Identity)
    requires n in NameSet(f) && Removable(Lookup(f, n))
    ensures ForestStep(f, Delete(f, n), parent, parent)
  {
    if f.name != n {
      StepRemoveEntry(f.tail, n, parent);
    }
  }

  // ---------------------------------------------------------------------------------------
  // What an interrupted cleanup may have left
  // ---------------------------------------------------------------------------------------

  /** `u` is `o` with some directories restricted to 0700 and some entries removed. */
  ghost predicate Remainder(o: Tree, u: Tree) {
    match o
    case Leaf(_, _, _, _) => u == o
    case Dir(id, mode, f) =>
      && u.Dir? && u.id == id && (u.mode == mode || u.mode == PRIVATE_DIRECTORY)
      && ForestRemainder(f, u.entries)
  }

  ghost predicate ForestRemainder(f: Forest, g: Forest) {
    match f
    case Nil => g.Nil?
    case Cons(n, t, h) =>
      || (g.Cons? && g.name == n && Remainder(t, g.head) && ForestRemainder(h, g.tail))
      || ForestRemainder(h, g)
  }

  lemma {:induction false} RemainderRefl(t: Tree)
    ensures Remainder(t, t)
  {
    if t.Dir? {
      ForestRemainderRefl(t.entries);
    }
  }

  lemma {:induction false} ForestRemainderRefl(f: Forest)
    ensures ForestRemainder(f, f)
  {
    if f.Cons? {
      RemainderRefl(f.head);
      ForestRemainderRefl(f.tail);
    }
  }

  /** Whatever the cleanup does next to a remainder of `o` leaves a remainder of `o`. */
  lemma {:induction false} StepKeepsRemainder(o: Tree, t: Tree, u: Tree, at: Identity)
    requires Remainder(o, t) && TreeStep(t, u, at)
    ensures Remainder(o, u)
  {
    if t.mode == PRIVATE_DIRECTORY {
      ForestStepKeepsRemainder(o.entries, t.entries, u.entries, t.id, at);
    }
  }

  lemma {:induction false} ForestStepKeepsRemainder(o: Forest, f: Forest, g: Forest, parent: Identity, at: Identity)
    requires ForestRemainder(o, f) && ForestStep(f, g, parent, at)
    ensures ForestRemainder(o, g)
  {
    if f.name == o.name && Remainder(o.head, f.head) && ForestRemainder(o.tail, f.tail) {
      if g == f.tail && Removable(f.head) && at == parent {
      } else if g.tail == f.tail && TreeStep(f.head, g.head, at) {
        StepKeepsRemainder(o.head, f.head, g.head, at);
      } else {
        ForestStepKeepsRemainder(o.tail, f.tail, g.tail, parent, at);
      }
    } else {
      ForestStepKeepsRemainder(o.tail, f, g, parent, at);
    }
  }

  /** A remainder of a remainder is a remainder. */
  lemma {:induction false} RemainderTrans(o: Tree, t: Tree, u: Tree)
    requires Remainder(o, t) && Remainder(t, u)
    ensures Remainder(o, u)
  {
    if o.Dir? {
      ForestRemainderTrans(o.entries, t.entries, u.entries);
    }
  }

  lemma {:induction false} ForestRemainderTrans(o: Forest, f: Forest, g: Forest)
    requires ForestRemainder(o, f) && ForestRemainder(f, g)
    ensures ForestRemainder(o, g)
  {
    if o.Nil? {
    } else if f.Cons? && f.name == o.name && Remainder(o.head, f.head) && ForestRemainder(o.tail, f.tail) {
      if g.Cons? && g.name == f.name && Remainder(f.head, g.head) && ForestRemainder(f.tail, g.tail) {
        RemainderTrans(o.head, f.head, g.head);
        ForestRemainderTrans(o.tail, f.tail, g.tail);
      } else {
        ForestRemainderTrans(o.tail, f.tail, g);
      }
    } else {
      ForestRemainderTrans(o.tail, f, g);
    }
  }

  /** A remainder is never heavier, and one of the same weight is the whole tree. */
  lemma {:induction false} RemainderWeight(o: Tree, u: Tree)
    requires Remainder(o, u)
    ensures Count(u) <= Count(o) && Weight(u) <= Weight(o)
    ensures Weight(u) == Weight(o) ==> u == o
  {
    if o.Dir? {
      ForestRemainderWeight(o.entries, u.entries);
    }
  }

  lemma {:induction false} ForestRemainderWeight(f: Forest, g: Forest)
    requires ForestRemainder(f, g)
    ensures ForestCount(g) <= ForestCount(f) && ForestWeight(g) <= ForestWeight(f)
    ensures ForestWeight(g) == ForestWeight(f) ==> g == f
  {
    if f.Nil? {
    } else if g.Cons? && g.name == f.name && Remainder(f.head, g.head) && ForestRemainder(f.tail, g.tail) {
      RemainderWeight(f.head, g.head);
      ForestRemainderWeight(f.tail, g.tail);
    } else {
      ForestRemainderWeight(f.tail, g);
    }
  }

  /** Two trees that are remainders of each other are equal. */
  lemma RemainderAntisym(t: Tree, u: Tree)
    requires Remainder(t, u) && Remainder(u, t)
    ensures t == u
  {
    RemainderWeight(t, u);
    RemainderWeight(u, t);
  }

  // ---------------------------------------------------------------------------------------
  // The conditions of the quarantine traversals
  // ---------------------------------------------------------------------------------------

  /** The listing of a directory at `depth` passes the per-entry checks of the traversal. */
  predicate DirectoryAcceptable(f: Forest, device: nat, depth: nat)
    decreases f, 1
  {
    depth <= MAX_DEPTH && EntriesAcceptable(f, device, depth)
  }

  predicate EntriesAcceptable(f: Forest, device: nat, depth: nat)
    decreases f, 0
  {
    match f
    case Nil => true
    case Cons(_, t, g) => EntryAcceptable(t, device, depth) && EntriesAcceptable(g, device, depth)
  }

  predicate EntryAcceptable(t: Tree, device: nat, depth: nat)
    decreases t, 0
  {
    t.id.device == device && (t.Dir? ==> t.mode != 0 && DirectoryAcceptable(t.entries, device, depth + 1))
  }

  lemma {:induction false} DeleteAcceptable(f: Forest, n: Name, device: nat, depth: nat)
    requires n in NameSet(f) && Distinct(f)
    ensures EntriesAcceptable(f, device, depth) <==>
            EntryAcceptable(Lookup(f, n), device, depth) && EntriesAcceptable(Delete(f, n), device, depth)
  {
    if f.name != n {
      DeleteAcceptable(f.tail, n, device, depth);
    }
  }

  /** What `validate_projection_reset_quarantine_cleanup` requires of the quarantined entry's shape. */
  predicate QuarantineAcceptable(t: Tree) {
    t.Dir? ==>
      && t.mode != 0
      && Count(t) <= MAX_ENTRIES
      && DirectoryAcceptable(t.entries, t.id.device, 0)
  }

  /** Nothing below the root is on another device. */
  predicate OneDevice(f: Forest, device: nat) {
    match f
    case Nil => true
    case Cons(_, t, g) =>
      t.id.device == device && (t.Dir? ==> OneDevice(t.entries, device)) && OneDevice(g, device)
  }

  predicate SingleDevice(t: Tree) {
    t.Dir? ==> OneDevice(t.entries, t.id.device)
  }

  /** No directory has mode 0000. */
  predicate Openable(t: Tree) {
    t.Dir? ==> t.mode != 0 && ForestOpenable(t.entries)
  }

  predicate ForestOpenable(f: Forest) {
    match f
    case Nil => true
    case Cons(_, t, g) => Openable(t) && ForestOpenable(g)
  }

  // ---------------------------------------------------------------------------------------
  // The live fingerprint
  // ---------------------------------------------------------------------------------------

  datatype Evidence =
    | Hashed(content: string) | Oversize | NonPrivateMode | Target(content: string) | Special | NoEvidence

  datatype EntryKind = DirectoryEntry | LeafEntry(kind: Kind)

  datatype Row = Row(path: seq<Name>, kind: EntryKind, mode: nat, size: nat, id: Identity, evidence: Evidence)

  function LeafEvidence(t: Tree): Evidence
    requires t.Leaf?
  {
    match t.kind
    case Regular =>
      if t.mode != PRIVATE_FILE then NonPrivateMode
      else if |t.content| > MAX_FILE_BYTES then Oversize
      else Hashed(t.content)
    case Symlink => Target(t.content)
    case _ => Special
  }

  function RowOf(t: Tree, path: seq<Name>): Row {
    match t
    case Leaf(id, kind, mode, content) => Row(path, LeafEntry(kind), mode, |content|, id, LeafEvidence(t))
    case Dir(id, mode, _) => Row(path, DirectoryEntry, mode, 0, id, NoEvidence)
  }

  /** The walk yields every entry but enters only directories on the root's device. */
  function Walk(t: Tree, path: seq<Name>, device: nat): seq<Row>
    decreases t
  {
    [RowOf(t, path)] + if t.Dir? && t.id.device == device then WalkForest(t.entries, path, device) else []
  }

  function WalkForest(f: Forest, path: seq<Name>, device: nat): seq<Row>
    decreases f
  {
    match f
    case Nil => []
    case Cons(n, t, g) => Walk(t, path + [n], device) + WalkForest(g, path, device)
  }

  /** The bounds that `projection_reset_live_fingerprint` enforces row by row. */
  predicate RowsWithinBounds(rows: seq<Row>) {
    && |rows| <= MAX_ENTRIES
    && forall i :: 0 <= i < |rows| ==> |rows[i].path| <= MAX_DEPTH && rows[i].size <= MAX_JCS_SAFE_INTEGER
  }

  predicate FingerprintAccepts(t: Tree) {
    RowsWithinBounds(Walk(t, [], t.id.device))
  }

  predicate PathsWithin(rows: seq<Row>, limit: nat) {
    forall i :: 0 <= i < |rows| ==> |rows[i].path| <= limit
  }

  lemma {:induction false} WalkForestBounds(f: Forest, path: seq<Name>, device: nat)
    requires OneDevice(f, device) && ForestOpenable(f)
    ensures |WalkForest(f, path, device)| == ForestCount(f)
    ensures PathsWithin(WalkForest(f, path, device), MAX_DEPTH) ==> EntriesAcceptable(f, device, |path|)
    decreases f
  {
    if f.Cons? {
      var head := Walk(f.head, path + [f.name], device);
      var tail := WalkForest(f.tail, path, device);
      WalkForestBounds(f.tail, path, device);
      var rows := WalkForest(f, path, device);
      assert rows == head + tail;
      if f.head.Dir? {
        var inner := WalkForest(f.head.entries, path + [f.name], device);
        WalkForestBounds(f.head.entries, path + [f.name], device);
        assert head == [RowOf(f.head, path + [f.name])] + inner;
        if PathsWithin(rows, MAX_DEPTH) {
          assert rows[0] == RowOf(f.head, path + [f.name]);
          SplitPaths(head, tail, MAX_DEPTH);
          SplitPaths([RowOf(f.head, path + [f.name])], inner, MAX_DEPTH);
        }
      } else if PathsWithin(rows, MAX_DEPTH) {
        SplitPaths(head, tail, MAX_DEPTH);
      }
    }
  }

  lemma SplitPaths(a: seq<Row>, b: seq<Row>, limit: nat)
    requires PathsWithin(a + b, limit)
    ensures PathsWithin(a, limit) && PathsWithin(b, limit)
  {
    assert forall i :: 0 <= i < |a| ==> a[i] == (a + b)[i];
    assert forall i :: 0 <= i < |b| ==> b[i] == (a + b)[|a| + i];
  }

  /**
    A tree that the live fingerprint accepts passes the quarantine traversal exactly when
    it lies on one device and every directory of it can be opened.
   */
  lemma FingerprintImpliesQuarantine(t: Tree)
    requires FingerprintAccepts(t)
    ensures QuarantineAcceptable(t) <==> SingleDevice(t) && Openable(t)
  {
    if t.Dir? {
      if SingleDevice(t) && Openable(t) {
        var rows := Walk(t, [], t.id.device);
        var inner := WalkForest(t.entries, [], t.id.device);
        assert rows == [RowOf(t, [])] + inner;
        WalkForestBounds(t.entries, [], t.id.device);
        assert PathsWithin(rows, MAX_DEPTH);
        SplitPaths([RowOf(t, [])], inner, MAX_DEPTH);
      }
      if QuarantineAcceptable(t) {
        AcceptableImpliesOpenable(t.entries, t.id.device, 0);
      }
    }
  }

  lemma {:induction false} AcceptableImpliesOpenable(f: Forest, device: nat, depth: nat)
    requires EntriesAcceptable(f, device, depth)
    ensures OneDevice(f, device) && ForestOpenable(f)
    decreases f
  {
    if f.Cons? {
      assert EntryAcceptable(f.head, device, depth);
      if f.head.Dir? {
        assert DirectoryAcceptable(f.head.entries, device, depth + 1);
        AcceptableImpliesOpenable(f.head.entries, device, depth + 1);
      }
      AcceptableImpliesOpenable(f.tail, device, depth);
    }
  }

  /** Every partly deleted remainder of an acceptable quarantine is acceptable. */
  lemma RemainderAcceptable(o: Tree, u: Tree)
    requires QuarantineAcceptable(o) && Remainder(o, u)
    ensures QuarantineAcceptable(u)
  {
    RemainderWeight(o, u);
    if o.Dir? {
      ForestRemainderAcceptable(o.entries, u.entries, o.id.device, 0);
    }
  }

  lemma {:induction false} ForestRemainderAcceptable(f: Forest, g: Forest, device: nat, depth: nat)
    requires ForestRemainder(f, g) && EntriesAcceptable(f, device, depth)
    ensures EntriesAcceptable(g, device, depth)
    decreases f
  {
    if f.Nil? {
    } else if g.Cons? && g.name == f.name && Remainder(f.head, g.head) && ForestRemainder(f.tail, g.tail) {
      assert EntryAcceptable(f.head, device, depth);
      if f.head.Dir? {
        assert DirectoryAcceptable(f.head.entries, device, depth + 1);
        ForestRemainderAcceptable(f.head.entries, g.head.entries, device, depth + 1);
        assert DirectoryAcceptable(g.head.entries, device, depth + 1);
      }
      assert EntryAcceptable(g.head, device, depth);
      ForestRemainderAcceptable(f.tail, g.tail, device, depth);
    } else {
      ForestRemainderAcceptable(f.tail, g, device, depth);
    }
  }

  // ---------------------------------------------------------------------------------------
  // What the walk sees of a removal
  // ---------------------------------------------------------------------------------------

  predicate LooseRow(row: Row) {
    row.kind == DirectoryEntry && row.mode != PRIVATE_DIRECTORY
  }

  function LooseRows(rows: seq<Row>): nat {
    if |rows| == 0 then 0 else (if LooseRow(rows[0]) then 1 else 0) + LooseRows(rows[1..])
  }

  lemma {:induction false} LooseRowsAppend(a: seq<Row>, b: seq<Row>)
    ensures LooseRows(a + b) == LooseRows(a) + LooseRows(b)
  {
    if |a| == 0 {
      assert a + b == b;
    } else {
      assert (a + b)[1..] == a[1..] + b;
      LooseRowsAppend(a[1..], b);
    }
  }

  lemma TakeRow(rows: seq<Row>, j: nat)
    requires j < |rows|
    ensures var rest := rows[..j] + rows[j + 1..];
            && multiset(rest) == multiset(rows) - multiset{rows[j]}
            && LooseRows(rows) == (if LooseRow(rows[j]) then 1 else 0) + LooseRows(rest)
  {
    var tail := rows[j..];
    assert rows == rows[..j] + tail && tail == [rows[j]] + rows[j + 1..];
    assert tail[1..] == rows[j + 1..];
    LooseRowsAppend(rows[..j], tail);
    LooseRowsAppend(rows[..j], rows[j + 1..]);
  }

  /** The order of the rows does not matter. */
  lemma {:induction false} LooseRowsPermuted(a: seq<Row>, b: seq<Row>)
    requires multiset(a) == multiset(b)
    ensures |a| == |b| && LooseRows(a) == LooseRows(b)
  {
    hide LooseRow;
    assert |multiset(a)| == |a| && |multiset(b)| == |b|;
    if |a| > 0 {
      assert a[0] in multiset(a);
      var j :| 0 <= j < |b| && b[j] == a[0];
      TakeRow(a, 0);
      TakeRow(b, j);
      LooseRowsPermuted(a[..0] + a[1..], b[..j] + b[j + 1..]);
    }
  }

  /** On one device the weight of a tree can be read off its rows. */
  lemma {:induction false} WalkWeight(t: Tree, path: seq<Name>, device: nat)
    requires t.Dir? ==> t.id.device == device && OneDevice(t.entries, device)
    ensures |Walk(t, path, device)| == Count(t) + 1 && LooseRows(Walk(t, path, device)) == Loose(t)
    decreases t
  {
    var inner := if t.Dir? then WalkForest(t.entries, path, device) else [];
    LooseRowsAppend([RowOf(t, path)], inner);
    if t.Dir? {
      WalkForestWeight(t.entries, path, device);
    }
  }

  lemma {:induction false} WalkForestWeight(f: Forest, path: seq<Name>, device: nat)
    requires OneDevice(f, device)
    ensures |WalkForest(f, path, device)| == ForestCount(f)
    ensures LooseRows(WalkForest(f, path, device)) == ForestLoose(f)
    decreases f
  {
    if f.Cons? {
      WalkWeight(f.head, path + [f.name], device);
      WalkForestWeight(f.tail, path, device);
      LooseRowsAppend(Walk(f.head, path + [f.name], device), WalkForest(f.tail, path, device));
    }
  }

  /** The walk of an acceptable tree notices whatever a removal has taken from it. */
  lemma RemainderSeen(o: Tree, u: Tree)
    requires QuarantineAcceptable(o) && Remainder(o, u) && u != o
    ensures multiset(Walk(u, [], u.id.device)) != multiset(Walk(o, [], o.id.device))
  {
    RemainderWeight(o, u);
    RemainderAcceptable(o, u);
    AcceptableImpliesOpenable(o.entries, o.id.device, 0);
    AcceptableImpliesOpenable(u.entries, o.id.device, 0);
    WalkWeight(o, [], o.id.device);
    WalkWeight(u, [], o.id.device);
    if multiset(Walk(u, [], o.id.device)) == multiset(Walk(o, [], o.id.device)) {
      LooseRowsPermuted(Walk(u, [], o.id.device), Walk(o, [], o.id.device));
    }
  }

  /**
    Of a tree on two devices it does not: the walk lists a directory on another device and
    does not enter it.
   */
  lemma RemainderUnseen(root: Identity, other: Identity, leaf: Tree, dir: Name, file: Name)
    requires root.device != other.device && leaf.Leaf?
    ensures var o := Dir(root, PRIVATE_DIRECTORY, Cons(dir, Dir(other, PRIVATE_DIRECTORY, Cons(file, leaf, Nil)), Nil));
            var u := Dir(root, PRIVATE_DIRECTORY, Cons(dir, Dir(other, PRIVATE_DIRECTORY, Nil), Nil));
            Remainder(o, u) && u != o && Walk(u, [], root.device) == Walk(o, [], root.device)
  {
    var before, after := Dir(other, PRIVATE_DIRECTORY, Cons(file, leaf, Nil)), Dir(other, PRIVATE_DIRECTORY, Nil);
    assert ForestRemainder(before.entries.tail, Nil) && Remainder(before, after);
    assert ForestRemainder(Cons(dir, before, Nil), Cons(dir, after, Nil));
    assert Walk(before, [] + [dir], root.device) == Walk(after, [] + [dir], root.device);
    assert WalkForest(Cons(dir, before, Nil), [], root.device) == WalkForest(Cons(dir, after, Nil), [], root.device);
  }

  lemma {:induction false} RemainderNames(o: Tree, u: Tree)
    requires Remainder(o, u) && WellNamed(o)
    ensures WellNamed(u)
  {
    if o.Dir? {
      ForestRemainderNames(o.entries, u.entries);
    }
  }

  lemma {:induction false} ForestRemainderNames(f: Forest, g: Forest)
    requires ForestRemainder(f, g) && Distinct(f)
    ensures Distinct(g) && NameSet(g) <= NameSet(f)
  {
    if f.Nil? {
    } else if g.Cons? && g.name == f.name && Remainder(f.head, g.head) && ForestRemainder(f.tail, g.tail) {
      RemainderNames(f.head, g.head);
      ForestRemainderNames(f.tail, g.tail);
    } else {
      ForestRemainderNames(f.tail, g);
    }
  }
}
