/**
  What the digests of a tree determine: equal fingerprints mean equal trees, as far as the
  fingerprint looks.
 */
module Digests {
  import opened Wrappers
  import opened FileTree
  import opened Marker

  // ---------------------------------------------------------------------------------------
  // Rows and paths
  // ---------------------------------------------------------------------------------------

  /** The walk enters every directory of the tree. */
  predicate Entered(t: Tree, device: nat) {
    t.Dir? ==> t.id.device == device && OneDevice(t.entries, device)
  }

  lemma {:induction false} LookupFacts(f: Forest, n: Name, device: nat)
    requires n in NameSet(f)
    ensures OneDevice(f, device) ==> Entered(Lookup(f, n), device)
    ensures Distinct(f) ==> WellNamed(Lookup(f, n))
  {
    if f.name != n {
      LookupFacts(f.tail, n, device);
    }
  }

  lemma {:induction false} EntryRows(f: Forest, base: seq<Name>, device: nat, n: Name, row: Row)
    requires n in NameSet(f) && row in Walk(Lookup(f, n), base + [n], device)
    ensures row in WalkForest(f, base, device)
  {
    if f.name != n {
      EntryRows(f.tail, base, device, n, row);
    }
  }

  /** Every entry of the tree has its row. */
  lemma {:induction false} RowOfPath(t: Tree, base: seq<Name>, device: nat, path: seq<Name>)
    requires Entered(t, device) && FileAt(t, path).Some?
    ensures RowOf(FileAt(t, path).value, base + path) in Walk(t, base, device)
    decreases |path|
  {
    if path == [] {
      assert base + path == base;
    } else {
      var n := path[0];
      LookupFacts(t.entries, n, device);
      RowOfPath(Lookup(t.entries, n), base + [n], device, path[1..]);
      assert base + [n] + path[1..] == base + path;
      EntryRows(t.entries, base, device, n, RowOf(FileAt(t, path).value, base + path));
    }
  }

  /** Every row is the row of an entry. */
  lemma {:induction false} PathOfRow(t: Tree, base: seq<Name>, device: nat, row: Row) returns (path: seq<Name>)
    requires WellNamed(t) && row in Walk(t, base, device)
    ensures FileAt(t, path).Some? && row == RowOf(FileAt(t, path).value, base + path)
    decreases t
  {
    if row == RowOf(t, base) {
      path := [];
      assert base + path == base;
    } else {
      path := PathOfForestRow(t.entries, base, device, row);
    }
  }

  lemma {:induction false} PathOfForestRow(f: Forest, base: seq<Name>, device: nat, row: Row)
    returns (path: seq<Name>)
    requires Distinct(f) && row in WalkForest(f, base, device)
    ensures path != [] && path[0] in NameSet(f) && FileAt(Lookup(f, path[0]), path[1..]).Some?
    ensures row == RowOf(FileAt(Lookup(f, path[0]), path[1..]).value, base + path)
    decreases f
  {
    if row in Walk(f.head, base + [f.name], device) {
      var rest := PathOfRow(f.head, base + [f.name], device, row);
      path := [f.name] + rest;
      assert base + [f.name] + rest == base + path && path[1..] == rest;
    } else {
      path := PathOfForestRow(f.tail, base, device, row);
    }
  }

  // ---------------------------------------------------------------------------------------
  // Trees that are alike
  // ---------------------------------------------------------------------------------------

  /** Files whose content goes into a digest: symbolic links, and files of mode 0600 up to 16 MiB. */
  predicate Recorded(t: Tree) {
    t.Leaf? && (t.kind == Symlink || (t.kind == Regular && t.mode == 384 && |t.content| <= 16_777_216))
  }

  /** The same kind, mode and size, and the same content where it is recorded. */
  predicate SameEntry(t: Tree, u: Tree) {
    && t.mode == u.mode && (t.Dir? <==> u.Dir?)
    && (t.Leaf? ==> t.kind == u.kind && |t.content| == |u.content| && (Recorded(t) ==> t.content == u.content))
  }

  /** The same paths with the same entries, and the same inodes if `exact`. */
  ghost predicate SameTree(t: Tree, u: Tree, exact: bool) {
    forall path ::
      && (FileAt(t, path).Some? <==> FileAt(u, path).Some?)
      && (FileAt(t, path).Some? ==>
            && SameEntry(FileAt(t, path).value, FileAt(u, path).value)
            && (exact ==> FileAt(t, path).value.id == FileAt(u, path).value.id))
  }

  lemma RowSame(t: Tree, u: Tree, path: seq<Name>)
    requires RowOf(t, path) == RowOf(u, path)
    ensures SameEntry(t, u) && t.id == u.id
  {
  }

  lemma PathSeen(t: Tree, u: Tree, device: nat, path: seq<Name>)
    requires Entered(t, device) && WellNamed(u) && FileAt(t, path).Some?
    requires multiset(Walk(t, [], device)) == multiset(Walk(u, [], device))
    ensures FileAt(u, path).Some?
    ensures SameEntry(FileAt(t, path).value, FileAt(u, path).value)
    ensures FileAt(t, path).value.id == FileAt(u, path).value.id
  {
    hide RowOf, SameEntry, FileAt;
    var row := RowOf(FileAt(t, path).value, path);
    RowOfPath(t, [], device, path);
    assert [] + path == path;
    assert row in multiset(Walk(t, [], device));
    var q := PathOfRow(u, [], device, row);
    assert [] + q == q;
    RowPath(FileAt(t, path).value, path);
    RowPath(FileAt(u, q).value, q);
    RowSame(FileAt(t, path).value, FileAt(u, q).value, path);
  }

  lemma RowPath(t: Tree, path: seq<Name>)
    ensures RowOf(t, path).path == path
  {
  }

  /** A live fingerprint determines the tree. */
  lemma FingerprintDetermines(t: Tree, u: Tree)
    requires WellNamed(t) && WellNamed(u) && SingleDevice(t) && SingleDevice(u)
    requires LiveFingerprint(t).Some? && LiveFingerprint(t) == LiveFingerprint(u)
    ensures SameTree(t, u, true)
  {
    var device := t.id.device;
    RootRow(t, u);
    forall path
      ensures FileAt(t, path).Some? ==>
                && FileAt(u, path).Some? && SameEntry(FileAt(t, path).value, FileAt(u, path).value)
                && FileAt(t, path).value.id == FileAt(u, path).value.id
      ensures FileAt(u, path).Some? ==> FileAt(t, path).Some?
    {
      if FileAt(t, path).Some? {
        PathSeen(t, u, device, path);
      }
      if FileAt(u, path).Some? {
        PathSeen(u, t, device, path);
      }
    }
  }

  /** The root is the one row without a path. */
  lemma RootRow(t: Tree, u: Tree)
    requires WellNamed(u) && multiset(Walk(t, [], t.id.device)) == multiset(Walk(u, [], u.id.device))
    ensures t.id == u.id
  {
    var row := RowOf(t, []);
    assert row == Walk(t, [], t.id.device)[0];
    assert row in multiset(Walk(t, [], t.id.device));
    var q := PathOfRow(u, [], u.id.device, row);
    assert [] + q == q;
  }

  // ---------------------------------------------------------------------------------------
  // And nothing more
  // ---------------------------------------------------------------------------------------

  /** The rows of a tree lie at or below its path. */
  lemma {:induction false} WalkPaths(t: Tree, base: seq<Name>, device: nat, row: Row)
    requires row in Walk(t, base, device)
    ensures base <= row.path
    decreases t
  {
    if row != RowOf(t, base) {
      ForestPaths(t.entries, base, device, row);
    }
  }

  lemma {:induction false} ForestPaths(f: Forest, base: seq<Name>, device: nat, row: Row)
    requires row in WalkForest(f, base, device)
    ensures base < row.path && row.path[|base|] in NameSet(f)
    decreases f
  {
    if row in Walk(f.head, base + [f.name], device) {
      WalkPaths(f.head, base + [f.name], device, row);
      assert (base + [f.name])[|base|] == f.name;
    } else {
      ForestPaths(f.tail, base, device, row);
    }
  }

  /** No row is listed twice. */
  lemma {:induction false} WalkOnce(t: Tree, base: seq<Name>, device: nat, row: Row)
    requires WellNamed(t)
    ensures multiset(Walk(t, base, device))[row] <= 1
    decreases t
  {
    if t.Dir? && t.id.device == device {
      var inner := WalkForest(t.entries, base, device);
      ForestOnce(t.entries, base, device, row);
      assert multiset(Walk(t, base, device)) == multiset{RowOf(t, base)} + multiset(inner);
      if row == RowOf(t, base) && row in inner {
        ForestPaths(t.entries, base, device, row);
      }
    }
  }

  lemma {:induction false} ForestOnce(f: Forest, base: seq<Name>, device: nat, row: Row)
    requires Distinct(f)
    ensures multiset(WalkForest(f, base, device))[row] <= 1
    decreases f
  {
    if f.Cons? {
      var head, tail := Walk(f.head, base + [f.name], device), WalkForest(f.tail, base, device);
      WalkOnce(f.head, base + [f.name], device, row);
      ForestOnce(f.tail, base, device, row);
      assert multiset(WalkForest(f, base, device)) == multiset(head) + multiset(tail);
      assert (base + [f.name])[|base|] == f.name;
      if row in head && row in tail {
        WalkPaths(f.head, base + [f.name], device, row);
        ForestPaths(f.tail, base, device, row);
      }
    }
  }

  lemma SameRow(t: Tree, u: Tree, path: seq<Name>)
    requires SameEntry(t, u) && t.id == u.id
    ensures RowOf(t, path) == RowOf(u, path)
  {
  }

  lemma RowSeen(t: Tree, u: Tree, device: nat, row: Row)
    requires SameTree(t, u, true) && WellNamed(t) && Entered(u, device) && row in Walk(t, [], device)
    ensures row in Walk(u, [], device)
  {
    hide RowOf, SameEntry, FileAt;
    var path := PathOfRow(t, [], device, row);
    assert FileAt(u, path).Some?;
    SameRow(FileAt(t, path).value, FileAt(u, path).value, [] + path);
    RowOfPath(u, [], device, path);
  }

  lemma SameRows(t: Tree, u: Tree, device: nat)
    requires SameTree(t, u, true) && WellNamed(t) && WellNamed(u) && Entered(t, device) && Entered(u, device)
    ensures multiset(Walk(t, [], device)) == multiset(Walk(u, [], device))
  {
    hide SameTree, Entered;
    var a, b := Walk(t, [], device), Walk(u, [], device);
    SameTreeSym(t, u, true);
    forall row
      ensures multiset(a)[row] == multiset(b)[row]
    {
      WalkOnce(t, [], device, row);
      WalkOnce(u, [], device, row);
      if row in a {
        RowSeen(t, u, device, row);
      }
      if row in b {
        RowSeen(u, t, device, row);
      }
      assert (row in a <==> row in multiset(a)) && (row in b <==> row in multiset(b));
    }
  }

  lemma SameTreeSym(t: Tree, u: Tree, exact: bool)
    requires SameTree(t, u, exact)
    ensures SameTree(u, t, exact)
  {
    hide FileAt;
  }

  /**
    Two trees have the same fingerprint exactly if they are the same, path by path: inode, kind,
    mode, size, and content where it is recorded; the order of a listing does not matter.
   */
  lemma FingerprintExact(t: Tree, u: Tree)
    requires WellNamed(t) && WellNamed(u) && SingleDevice(t) && SingleDevice(u) && LiveFingerprint(t).Some?
    ensures LiveFingerprint(u) == LiveFingerprint(t) <==> SameTree(t, u, true)
  {
    if SameTree(t, u, true) {
      assert FileAt(t, []).Some? && FileAt(u, []).Some? && t.id == u.id;
      SameRows(t, u, t.id.device);
      SameBounds(Walk(t, [], t.id.device), Walk(u, [], t.id.device));
    }
    if LiveFingerprint(u) == LiveFingerprint(t) {
      FingerprintDetermines(t, u);
    }
  }

  lemma SameBounds(a: seq<Row>, b: seq<Row>)
    requires multiset(a) == multiset(b) && RowsWithinBounds(a)
    ensures RowsWithinBounds(b)
  {
    assert |multiset(a)| == |a| && |multiset(b)| == |b|;
    forall i | 0 <= i < |b|
      ensures |b[i].path| <= MAX_DEPTH && b[i].size <= MAX_JCS_SAFE_INTEGER
    {
      assert b[i] in multiset(b);
      assert b[i] in a;
    }
  }

  // ---------------------------------------------------------------------------------------
  // The digest of a projection pair
  // ---------------------------------------------------------------------------------------

  function Strip(row: Row): PairRow {
    PairRow(row.path, row.kind, row.mode, row.size, row.evidence)
  }

  lemma {:induction false} Stripped(rows: seq<Row>, row: Row)
    requires row in rows
    ensures Strip(row) in StripIdentity(rows)
  {
    if row != rows[0] {
      Stripped(rows[1..], row);
    }
  }

  lemma {:induction false} Unstripped(rows: seq<Row>, pr: PairRow) returns (row: Row)
    requires pr in StripIdentity(rows)
    ensures row in rows && Strip(row) == pr
  {
    if pr == Strip(rows[0]) {
      row := rows[0];
    } else {
      row := Unstripped(rows[1..], pr);
    }
  }

  lemma StrippedSame(t: Tree, u: Tree, path: seq<Name>)
    requires Strip(RowOf(t, path)) == Strip(RowOf(u, path))
    ensures SameEntry(t, u)
  {
  }

  lemma PairPathSeen(t: Tree, u: Tree, path: seq<Name>)
    requires WellNamed(u) && SingleDevice(t) && FileAt(t, path).Some?
    requires PairDigest(t).Some? && PairDigest(t) == PairDigest(u)
    ensures FileAt(u, path).Some? && SameEntry(FileAt(t, path).value, FileAt(u, path).value)
  {
    var a, b := Walk(t, [], t.id.device), Walk(u, [], u.id.device);
    assert multiset(StripIdentity(a)) == multiset(StripIdentity(b));
    hide RowOf, SameEntry, FileAt, PairDigest, Walk, StripIdentity;
    var row := RowOf(FileAt(t, path).value, path);
    RowOfPath(t, [], t.id.device, path);
    assert [] + path == path;
    Stripped(a, row);
    assert Strip(row) in multiset(StripIdentity(a));
    assert Strip(row) in StripIdentity(b);
    var other := Unstripped(b, Strip(row));
    var q := PathOfRow(u, [], u.id.device, other);
    assert [] + q == q;
    RowPath(FileAt(t, path).value, path);
    RowPath(FileAt(u, q).value, q);
    StrippedSame(FileAt(t, path).value, FileAt(u, q).value, path);
  }

  /** The digest that a seal records determines the pair, up to its inodes. */
  lemma PairDetermines(t: Tree, u: Tree)
    requires WellNamed(t) && WellNamed(u) && SingleDevice(t) && SingleDevice(u)
    requires PairDigest(t).Some? && PairDigest(t) == PairDigest(u)
    ensures SameTree(t, u, false)
  {
    hide PairDigest;
    forall path
      ensures FileAt(t, path).Some? ==>
                FileAt(u, path).Some? && SameEntry(FileAt(t, path).value, FileAt(u, path).value)
      ensures FileAt(u, path).Some? ==> FileAt(t, path).Some?
    {
      if FileAt(t, path).Some? {
        PairPathSeen(t, u, path);
      }
      if FileAt(u, path).Some? {
        PairPathSeen(u, t, path);
      }
    }
  }

  /** A path has one row. */
  ghost predicate OnePerPath(rows: seq<Row>) {
    && (forall a, b :: a in rows && b in rows && a.path == b.path ==> a == b)
    && (forall a :: multiset(rows)[a] <= 1)
  }

  lemma WalkOnePerPath(t: Tree, device: nat)
    requires WellNamed(t)
    ensures OnePerPath(Walk(t, [], device))
  {
    hide RowOf, FileAt, Walk;
    var rows := Walk(t, [], device);
    forall a, b | a in rows && b in rows && a.path == b.path
      ensures a == b
    {
      var p := PathOfRow(t, [], device, a);
      var q := PathOfRow(t, [], device, b);
      assert [] + p == p && [] + q == q;
      RowPath(FileAt(t, p).value, p);
      RowPath(FileAt(t, q).value, q);
    }
    forall row
      ensures multiset(rows)[row] <= 1
    {
      WalkOnce(t, [], device, row);
    }
  }

  lemma RestOnePerPath(rows: seq<Row>)
    requires OnePerPath(rows) && rows != []
    ensures OnePerPath(rows[1..]) && rows[0] !in rows[1..]
  {
    var rest := rows[1..];
    assert rows == [rows[0]] + rest;
    forall a
      ensures multiset(rest)[a] <= 1 && (a == rows[0] ==> multiset(rest)[a] == 0)
    {
      assert multiset(rows)[a] == multiset{rows[0]}[a] + multiset(rest)[a];
    }
    assert multiset(rest)[rows[0]] == 0;
  }

  lemma {:induction false} StrippedOnce(rows: seq<Row>, pr: PairRow)
    requires OnePerPath(rows)
    ensures multiset(StripIdentity(rows))[pr] <= 1
  {
    if rows != [] {
      var rest := rows[1..];
      RestOnePerPath(rows);
      StrippedOnce(rest, pr);
      assert multiset(StripIdentity(rows)) == multiset{Strip(rows[0])} + multiset(StripIdentity(rest));
      if pr in StripIdentity(rest) {
        var other := Unstripped(rest, pr);
        assert other in rows && other.path == pr.path;
        assert pr != Strip(rows[0]);
      }
      assert pr !in StripIdentity(rest) ==> multiset(StripIdentity(rest))[pr] == 0;
    }
  }

  lemma SameStripped(t: Tree, u: Tree, path: seq<Name>)
    requires SameEntry(t, u)
    ensures Strip(RowOf(t, path)) == Strip(RowOf(u, path))
  {
  }

  lemma StrippedSeen(t: Tree, u: Tree, pr: PairRow)
    requires SameTree(t, u, false) && WellNamed(t) && SingleDevice(u)
    requires pr in StripIdentity(Walk(t, [], t.id.device))
    ensures pr in StripIdentity(Walk(u, [], u.id.device))
  {
    hide RowOf, SameEntry, FileAt, Walk, StripIdentity, Strip;
    var row := Unstripped(Walk(t, [], t.id.device), pr);
    var path := PathOfRow(t, [], t.id.device, row);
    assert [] + path == path;
    assert FileAt(u, path).Some?;
    SameStripped(FileAt(t, path).value, FileAt(u, path).value, path);
    RowOfPath(u, [], u.id.device, path);
    Stripped(Walk(u, [], u.id.device), RowOf(FileAt(u, path).value, path));
  }

  lemma SameStrippedRows(t: Tree, u: Tree)
    requires SameTree(t, u, false) && WellNamed(t) && WellNamed(u) && SingleDevice(t) && SingleDevice(u)
    ensures multiset(StripIdentity(Walk(t, [], t.id.device))) == multiset(StripIdentity(Walk(u, [], u.id.device)))
    ensures |Walk(t, [], t.id.device)| == |Walk(u, [], u.id.device)|
  {
    hide Walk, StripIdentity, OnePerPath, SingleDevice;
    var a, b := Walk(t, [], t.id.device), Walk(u, [], u.id.device);
    var p, q := StripIdentity(a), StripIdentity(b);
    WalkOnePerPath(t, t.id.device);
    WalkOnePerPath(u, u.id.device);
    SameTreeSym(t, u, false);
    forall pr
      ensures multiset(p)[pr] == multiset(q)[pr]
    {
      StrippedOnce(a, pr);
      StrippedOnce(b, pr);
      if pr in p {
        StrippedSeen(t, u, pr);
      }
      if pr in q {
        StrippedSeen(u, t, pr);
      }
      assert (pr in p <==> pr in multiset(p)) && (pr in q <==> pr in multiset(q));
    }
    assert |multiset(p)| == |p| && |multiset(q)| == |q|;
  }

  /** Two pairs have the same digest exactly if they are the same up to their inodes. */
  lemma PairExact(t: Tree, u: Tree)
    requires WellNamed(t) && WellNamed(u) && SingleDevice(t) && SingleDevice(u) && PairDigest(t).Some?
    ensures PairDigest(u) == PairDigest(t) <==> SameTree(t, u, false)
  {
    hide SingleDevice, SameTree;
    if PairDigest(u) == PairDigest(t) {
      PairDetermines(t, u);
    }
    if SameTree(t, u, false) {
      SameStrippedRows(t, u);
      SamePrivate(Walk(t, [], t.id.device), Walk(u, [], u.id.device));
      SameRoot(t, u);
    }
  }

  lemma SameRoot(t: Tree, u: Tree)
    requires SameTree(t, u, false)
    ensures SameEntry(t, u)
  {
    assert FileAt(t, []) == Some(t) && FileAt(u, []) == Some(u);
  }

  lemma SamePrivate(a: seq<Row>, b: seq<Row>)
    requires multiset(StripIdentity(a)) == multiset(StripIdentity(b))
    requires forall i :: 0 <= i < |a| ==> PrivateRow(a[i])
    ensures forall i :: 0 <= i < |b| ==> PrivateRow(b[i])
  {
    forall i | 0 <= i < |b|
      ensures PrivateRow(b[i])
    {
      Stripped(b, b[i]);
      assert Strip(b[i]) in multiset(StripIdentity(b));
      var row := Unstripped(a, Strip(b[i]));
    }
  }

  // ---------------------------------------------------------------------------------------
  // Which trees have a digest
  // ---------------------------------------------------------------------------------------

  /** Few enough entries, none of them deep or large beyond the limits. */
  ghost predicate Bounded(t: Tree) {
    && Count(t) < 4096
    && forall path :: FileAt(t, path).Some? ==>
                        && |path| <= 8
                        && (FileAt(t, path).value.Leaf? ==>
                              |FileAt(t, path).value.content| < 0x20_0000_0000_0000)
  }

  /** The fingerprint accepts exactly the trees within its bounds. */
  lemma FingerprintAcceptsExact(t: Tree)
    requires WellNamed(t) && SingleDevice(t)
    ensures LiveFingerprint(t).Some? <==> Bounded(t)
  {
    hide FileAt;
    var rows := Walk(t, [], t.id.device);
    WalkWeight(t, [], t.id.device);
    if LiveFingerprint(t).Some? {
      forall path | FileAt(t, path).Some?
        ensures |path| <= 8
        ensures FileAt(t, path).value.Leaf? ==> |FileAt(t, path).value.content| < 0x20_0000_0000_0000
      {
        RowOfPath(t, [], t.id.device, path);
        assert [] + path == path;
      }
    }
    if Bounded(t) {
      forall i | 0 <= i < |rows|
        ensures |rows[i].path| <= MAX_DEPTH && rows[i].size <= MAX_JCS_SAFE_INTEGER
      {
        var path := PathOfRow(t, [], t.id.device, rows[i]);
        assert [] + path == path;
      }
    }
  }

  /** What the quarantine traversal asks of an entry `depth` names below the root. */
  predicate Traversable(t: Tree, device: nat, depth: nat) {
    t.id.device == device && (t.Dir? ==> t.mode != 0 && depth <= 8)
  }

  ghost predicate AllTraversable(t: Tree, device: nat, depth: nat) {
    forall path :: FileAt(t, path).Some? ==> Traversable(FileAt(t, path).value, device, depth + |path|)
  }

  ghost predicate EachAcceptable(f: Forest, device: nat, depth: nat) {
    forall n :: n in NameSet(f) ==> EntryAcceptable(Lookup(f, n), device, depth)
  }

  lemma {:induction false} EntriesByName(f: Forest, device: nat, depth: nat)
    requires Distinct(f)
    ensures EntriesAcceptable(f, device, depth) <==> EachAcceptable(f, device, depth)
  {
    if f.Cons? {
      EntriesByName(f.tail, device, depth);
      if EntriesAcceptable(f, device, depth) {
        assert EntryAcceptable(f.head, device, depth) && EntriesAcceptable(f.tail, device, depth);
        forall n | n in NameSet(f)
          ensures EntryAcceptable(Lookup(f, n), device, depth)
        {
          if n != f.name {
            assert EntryAcceptable(Lookup(f.tail, n), device, depth);
          }
        }
      }
      if EachAcceptable(f, device, depth) {
        assert f.name in NameSet(f) && EntryAcceptable(f.head, device, depth);
        forall n | n in NameSet(f.tail)
          ensures EntryAcceptable(Lookup(f.tail, n), device, depth)
        {
          assert n in NameSet(f) && Lookup(f, n) == Lookup(f.tail, n);
        }
        assert EntriesAcceptable(f.tail, device, depth);
      }
    }
  }

  lemma LookupSmaller(f: Forest, n: Name)
    requires n in NameSet(f)
    ensures Lookup(f, n) < f
  {
    if f.name != n {
      LookupSmaller(f.tail, n);
    }
  }

  ghost predicate EachTraversable(f: Forest, device: nat, depth: nat) {
    forall n :: n in NameSet(f) ==> AllTraversable(Lookup(f, n), device, depth)
  }

  lemma {:induction false} EntryPaths(t: Tree, device: nat, depth: nat)
    requires WellNamed(t)
    ensures EntryAcceptable(t, device, depth) <==> AllTraversable(t, device, depth + 1)
    decreases t
  {
    if t.Dir? {
      DirectoryPaths(t, device, depth + 1);
      ByEntry(t, device, depth + 1);
    } else {
      assert FileAt(t, []) == Some(t);
    }
  }

  lemma {:induction false} DirectoryPaths(t: Tree, device: nat, depth: nat)
    requires t.Dir? && WellNamed(t)
    ensures EntriesAcceptable(t.entries, device, depth) <==> EachTraversable(t.entries, device, depth + 1)
    ensures DirectoryAcceptable(t.entries, device, depth) <==>
            depth <= 8 && EachTraversable(t.entries, device, depth + 1)
    decreases t, 0
  {
    EntriesByName(t.entries, device, depth);
    forall n | n in NameSet(t.entries)
      ensures EntryAcceptable(Lookup(t.entries, n), device, depth) <==>
              AllTraversable(Lookup(t.entries, n), device, depth + 1)
    {
      LookupSmaller(t.entries, n);
      LookupFacts(t.entries, n, device);
      EntryPaths(Lookup(t.entries, n), device, depth);
    }
    hide AllTraversable, EntryAcceptable;
    assert EachAcceptable(t.entries, device, depth) <==> EachTraversable(t.entries, device, depth + 1);
  }

  lemma ByEntry(t: Tree, device: nat, depth: nat)
    requires t.Dir?
    ensures AllTraversable(t, device, depth) <==>
            Traversable(t, device, depth) && EachTraversable(t.entries, device, depth + 1)
  {
    assert FileAt(t, []) == Some(t);
    if AllTraversable(t, device, depth) {
      forall n, path | n in NameSet(t.entries) && FileAt(Lookup(t.entries, n), path).Some?
        ensures Traversable(FileAt(Lookup(t.entries, n), path).value, device, depth + 1 + |path|)
      {
        assert ([n] + path)[1..] == path;
        assert FileAt(t, [n] + path) == FileAt(Lookup(t.entries, n), path);
      }
    }
    if Traversable(t, device, depth) && EachTraversable(t.entries, device, depth + 1) {
      forall path | FileAt(t, path).Some?
        ensures Traversable(FileAt(t, path).value, device, depth + |path|)
      {
        if path != [] {
          assert FileAt(t, path) == FileAt(Lookup(t.entries, path[0]), path[1..]);
          assert AllTraversable(Lookup(t.entries, path[0]), device, depth + 1);
        }
      }
    }
  }

  /** The quarantine traversal accepts exactly these trees. */
  lemma QuarantineAcceptsExact(t: Tree)
    requires WellNamed(t)
    ensures QuarantineAcceptable(t) <==> t.Leaf? || (Count(t) <= 4096 && AllTraversable(t, t.id.device, 0))
  {
    if t.Dir? {
      DirectoryPaths(t, t.id.device, 0);
      ByEntry(t, t.id.device, 0);
    }
  }

  /** Nothing but private directories and private regular files, few and near the root. */
  ghost predicate PrivatePair(t: Tree) {
    && t.Dir? && Count(t) < 16
    && forall path :: FileAt(t, path).Some? ==> |path| <= 4 && PrivateEntry(FileAt(t, path).value)
  }

  predicate PrivateEntry(t: Tree) {
    if t.Dir? then t.mode == 448
    else t.kind == Regular && t.mode == 384 && |t.content| < 0x20_0000_0000_0000
  }

  /** A pair has a digest exactly if it is private throughout and small. */
  lemma PairAcceptsExact(t: Tree)
    requires WellNamed(t) && SingleDevice(t)
    ensures PairDigest(t).Some? <==> PrivatePair(t)
  {
    hide FileAt;
    var rows := Walk(t, [], t.id.device);
    WalkWeight(t, [], t.id.device);
    if PairDigest(t).Some? {
      forall path | FileAt(t, path).Some?
        ensures |path| <= 4 && PrivateEntry(FileAt(t, path).value)
      {
        RowOfPath(t, [], t.id.device, path);
        assert [] + path == path;
      }
    }
    if PrivatePair(t) {
      forall i | 0 <= i < |rows|
        ensures PrivateRow(rows[i])
      {
        var path := PathOfRow(t, [], t.id.device, rows[i]);
        assert [] + path == path;
      }
    }
  }

  /** The pointer digest is there exactly for a private pointer that is not empty, and determines its bytes. */
  lemma PointerExact(t: Tree, u: Tree)
    ensures ActivePointerDigest(t).Some? <==>
            && FileAt(t, ["manifest", "roots", "active"]).Some?
            && var f := FileAt(t, ["manifest", "roots", "active"]).value;
            PrivateEntry(f) && f.Leaf? && 1 <= |f.content| <= 4096
    ensures ActivePointerDigest(t).Some? && ActivePointerDigest(t) == ActivePointerDigest(u) ==>
              && FileAt(u, ["manifest", "roots", "active"]).Some?
              && FileAt(u, ["manifest", "roots", "active"]).value.Leaf?
              && FileAt(u, ["manifest", "roots", "active"]).value.content
                 == FileAt(t, ["manifest", "roots", "active"]).value.content
  {
    hide FileAt;
  }

  /** A private file changed in place changes both digests. */
  lemma ChangeSeen(t: Tree, u: Tree, path: seq<Name>)
    requires WellNamed(t) && WellNamed(u) && SingleDevice(t) && SingleDevice(u)
    requires FileAt(t, path).Some? && FileAt(u, path).Some? && Recorded(FileAt(t, path).value)
    requires FileAt(u, path).value.Leaf? && FileAt(t, path).value.content != FileAt(u, path).value.content
    ensures LiveFingerprint(t).Some? ==> LiveFingerprint(u) != LiveFingerprint(t)
    ensures PairDigest(t).Some? ==> PairDigest(u) != PairDigest(t)
  {
    hide PairDigest, LiveFingerprint, FileAt;
    if LiveFingerprint(t).Some? && LiveFingerprint(u) == LiveFingerprint(t) {
      FingerprintDetermines(t, u);
    }
    if PairDigest(t).Some? && PairDigest(u) == PairDigest(t) {
      PairDetermines(t, u);
    }
  }
}
