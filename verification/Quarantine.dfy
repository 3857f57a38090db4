/**
  The two bounded traversals of a quarantined projection pair: the read-only validation and
  the recursive removal.
 */
module Quarantine {
  import opened Wrappers
  import opened Faults
  import opened FileTree
  import opened Modes

  // ---------------------------------------------------------------------------------------
  // Validation
  // ---------------------------------------------------------------------------------------

  /**
    Walks one directory in listing order, counting an entry before it looks at it and
    entering a subdirectory before it reads the next name.
   */
  method ValidateDirectory(io: Io, f: Forest, device: nat, depth: nat, visited0: nat)
    returns (e: Option<ErrorKind>, visited: nat)
    modifies io
    ensures old(io.faulted) ==> io.faulted
    ensures e.None? ==> io.faulted == old(io.faulted)
    ensures e.None? ==> DirectoryAcceptable(f, device, depth) && visited == visited0 + ForestCount(f)
    ensures e.None? && f.Cons? ==> visited <= MAX_ENTRIES
    ensures !io.faulted && DirectoryAcceptable(f, device, depth) && visited0 + ForestCount(f) <= MAX_ENTRIES ==> e.None?
    ensures !io.faulted && e.Some? ==> e.value == InvalidData
    decreases f
  {
    visited := visited0;
    if depth > MAX_DEPTH {
      return Some(InvalidData), visited;
    }
    e := io.Try();
    if e.Some? {
      return;
    }
    var rest := f;
    while rest.Cons?
      invariant rest == f || rest < f
      invariant old(io.faulted) ==> io.faulted
      invariant io.faulted == old(io.faulted)
      invariant visited + ForestCount(rest) == visited0 + ForestCount(f)
      invariant rest != f ==> visited <= MAX_ENTRIES
      invariant EntriesAcceptable(rest, device, depth) <==> EntriesAcceptable(f, device, depth)
      decreases rest
    {
      e := io.Try();
      if e.Some? {
        return;
      }
      visited := visited + 1;
      if visited > MAX_ENTRIES {
        return Some(InvalidData), visited;
      }
      var observed := rest.head;
      e := io.Try();
      if e.Some? {
        return;
      }
      if observed.id.device != device {
        return Some(InvalidData), visited;
      }
      if observed.Dir? {
        if observed.mode == 0 {
          return Some(InvalidData), visited;
        }
        e := io.Try();
        if e.Some? {
          return;
        }
        e, visited := ValidateDirectory(io, observed.entries, device, depth + 1, visited);
        if e.Some? {
          return;
        }
      }
      rest := rest.tail;
    }
    return None, visited;
  }

  /** Validates the whole entry: a leaf needs no traversal. */
  method ValidateQuarantine(io: Io, root: Tree) returns (e: Option<ErrorKind>)
    modifies io
    ensures old(io.faulted) ==> io.faulted
    ensures e.None? ==> io.faulted == old(io.faulted)
    ensures e.None? ==> QuarantineAcceptable(root)
    ensures !io.faulted && QuarantineAcceptable(root) ==> e.None?
    ensures !io.faulted && e.Some? ==> e.value == InvalidData
  {
    if root.Leaf? {
      return None;
    }
    if root.mode == 0 {
      return Some(InvalidData);
    }
    e := io.Try();
    if e.Some? {
      return;
    }
    var visited;
    e, visited := ValidateDirectory(io, root.entries, root.id.device, 0, 0);
    if e.None? && root.entries.Nil? {
      assert Count(root) == 0;
    }
  }

  // ---------------------------------------------------------------------------------------
  // Removal
  // ---------------------------------------------------------------------------------------

  /** A quarantined tree and the directories of it whose last change has not been synced. */
  datatype Quarantined = Quarantined(tree: Tree, dirty: set<Identity>)

  /**
    One system call of the removal: a mutation dirties the directory it changes, a sync
    cleans directories.  Dirty directories are always still in the tree, or in `outer`: no
    directory is removed before it is synced.
   */
  ghost predicate QuarantineStep(a: Quarantined, b: Quarantined, outer: set<Identity>) {
    && b.dirty <= DirectoryIds(b.tree) + outer
    && (|| (a.tree == b.tree && b.dirty <= a.dirty)
        || (exists at :: TreeStep(a.tree, b.tree, at) && b.dirty == a.dirty + {at}))
  }

  /** `steps` is a non-empty sequence of states, each one system call after the one before. */
  ghost predicate Chain(steps: seq<Quarantined>, outer: set<Identity>)
    decreases |steps|
  {
    && |steps| > 0
    && (|steps| > 1 ==>
          QuarantineStep(steps[|steps| - 2], steps[|steps| - 1], outer) && Chain(steps[..|steps| - 1], outer))
  }

  ghost predicate ChainFromTo(steps: seq<Quarantined>, outer: set<Identity>, a: Quarantined, b: Quarantined) {
    Chain(steps, outer) && steps[0] == a && steps[|steps| - 1] == b
  }

  lemma ChainAppend(steps: seq<Quarantined>, outer: set<Identity>, q: Quarantined)
    requires Chain(steps, outer) && QuarantineStep(steps[|steps| - 1], q, outer)
    ensures ChainFromTo(steps + [q], outer, steps[0], q)
  {
  }

  /** Removing a clean, removable entry of a restricted directory is one step of its chain. */
  lemma ChainRemove(steps: seq<Quarantined>, outer: set<Identity>, n: Name)
    requires Chain(steps, outer)
    requires var q := steps[|steps| - 1];
             && q.tree.Dir? && q.tree.mode == PRIVATE_DIRECTORY && WellNamed(q.tree)
             && n in NameSet(q.tree.entries) && Removable(Lookup(q.tree.entries, n))
             && (Lookup(q.tree.entries, n).Dir? ==> Lookup(q.tree.entries, n).id !in q.dirty)
             && q.dirty <= DirectoryIds(q.tree) + outer
    ensures var q := steps[|steps| - 1];
            var r := Quarantined(Dir(q.tree.id, q.tree.mode, Delete(q.tree.entries, n)), q.dirty + {q.tree.id});
            && ChainFromTo(steps + [r], outer, steps[0], r) && r.dirty <= DirectoryIds(r.tree) + outer
            && Weight(r.tree) < Weight(q.tree)
  {
    var q := steps[|steps| - 1];
    var r := Quarantined(Dir(q.tree.id, q.tree.mode, Delete(q.tree.entries, n)), q.dirty + {q.tree.id});
    DeleteFacts(q.tree.entries, n);
    StepRemoveEntry(q.tree.entries, n, q.tree.id);
    assert TreeStep(q.tree, r.tree, q.tree.id);
    StepWeight(q.tree, r.tree, q.tree.id);
    ChainAppend(steps, outer, r);
  }

  lemma {:induction false} ChainJoin(steps: seq<Quarantined>, more: seq<Quarantined>, outer: set<Identity>)
    requires Chain(steps, outer) && Chain(more, outer) && more[0] == steps[|steps| - 1]
    ensures ChainFromTo(steps + more[1..], outer, steps[0], more[|more| - 1])
    decreases |more|
  {
    if |more| == 1 {
      assert steps + more[1..] == steps;
    } else {
      var init := more[..|more| - 1];
      ChainJoin(steps, init, outer);
      ChainAppend(steps + init[1..], outer, more[|more| - 1]);
      assert steps + more[1..] == steps + init[1..] + [more[|more| - 1]];
    }
  }

  /** The states of one entry's removal as states of the directory that lists it. */
  ghost function InDirectory(steps: seq<Quarantined>, id: Identity, f: Forest, n: Name): (r: seq<Quarantined>)
    ensures |r| == |steps|
    ensures forall i :: 0 <= i < |r| ==> r[i] == Wrap(steps[i], id, f, n)
  {
    seq(|steps|, i requires 0 <= i < |steps| => Wrap(steps[i], id, f, n))
  }

  ghost function Wrap(q: Quarantined, id: Identity, f: Forest, n: Name): Quarantined {
    Quarantined(Dir(id, PRIVATE_DIRECTORY, Replace(f, n, q.tree)), q.dirty)
  }

  lemma WrapStep(a: Quarantined, b: Quarantined, id: Identity, f: Forest, n: Name, outer: set<Identity>)
    requires n in NameSet(f) && Distinct(f)
    requires QuarantineStep(a, b, outer + {id} + ForestIds(Delete(f, n)))
    ensures QuarantineStep(Wrap(a, id, f, n), Wrap(b, id, f, n), outer)
  {
    ReplaceFacts(f, n, b.tree);
    if !(a.tree == b.tree && b.dirty <= a.dirty) {
      var at :| TreeStep(a.tree, b.tree, at) && b.dirty == a.dirty + {at};
      StepInEntry(f, n, a.tree, b.tree, id, at);
      assert TreeStep(Wrap(a, id, f, n).tree, Wrap(b, id, f, n).tree, at);
    }
  }

  lemma {:induction false} WrapChain(
    steps: seq<Quarantined>, inner: seq<Quarantined>, id: Identity, f: Forest, n: Name, outer: set<Identity>)
    requires n in NameSet(f) && Distinct(f)
    requires Chain(inner, outer + {id} + ForestIds(Delete(f, n)))
    requires Chain(steps, outer) && steps[|steps| - 1] == Wrap(inner[0], id, f, n)
    ensures ChainFromTo(steps + InDirectory(inner, id, f, n)[1..], outer, steps[0], Wrap(inner[|inner| - 1], id, f, n))
    decreases |inner|
  {
    if |inner| == 1 {
      assert steps + InDirectory(inner, id, f, n)[1..] == steps;
    } else {
      var init := inner[..|inner| - 1];
      var last := Wrap(inner[|inner| - 1], id, f, n);
      WrapChain(steps, init, id, f, n, outer);
      WrapStep(inner[|inner| - 2], inner[|inner| - 1], id, f, n, outer);
      ChainAppend(steps + InDirectory(init, id, f, n)[1..], outer, last);
      assert steps + InDirectory(inner, id, f, n)[1..] == steps + InDirectory(init, id, f, n)[1..] + [last];
    }
  }

  /**
    Removes every entry of a directory that is already restricted to 0700.

    `steps` lists every state the tree goes through, so whatever holds of all of them holds
    wherever the process stops.  On failure `rest` is what is left; if nothing was changed
    `mutated` is false and `rest` is the directory itself.

    The source visits the names in sorted order; here any order may be chosen.
   */
  method CleanupDirectory(
    io: Io, d: Tree, device: nat, depth: nat, visited0: nat,
    ghost dirty0: set<Identity>, ghost outer: set<Identity>)
    returns (e: Option<ErrorKind>, rest: Tree, visited: nat, mutated: bool,
             ghost dirty: set<Identity>, ghost steps: seq<Quarantined>)
    requires d.Dir? && d.mode == PRIVATE_DIRECTORY && WellNamed(d)
    requires dirty0 <= DirectoryIds(d) + outer
    modifies io
    ensures old(io.faulted) ==> io.faulted
    ensures e.None? ==> io.faulted == old(io.faulted)
    ensures ChainFromTo(steps, outer, Quarantined(d, dirty0), Quarantined(rest, dirty))
    ensures dirty <= DirectoryIds(rest) + outer
    ensures if mutated then Weight(rest) < Weight(d) else rest == d
    ensures rest.Dir? && rest.id == d.id && rest.mode == d.mode && WellNamed(rest)
    ensures e.None? ==> rest.entries == Nil && DirectoryAcceptable(d.entries, device, depth)
    ensures e.None? ==> visited == visited0 + Count(d)
    ensures !io.faulted && DirectoryAcceptable(d.entries, device, depth) && visited0 + Count(d) <= MAX_ENTRIES ==>
              e.None?
    ensures e.None? && (d.entries.Cons? || visited0 <= MAX_ENTRIES) ==> visited <= MAX_ENTRIES
    ensures !io.faulted && e.Some? ==> e.value == InvalidData
    decreases Count(d), 0, 2
  {
    hide Weight, QuarantineStep, TreeStep;
    visited, mutated, rest, dirty := visited0, false, d, dirty0;
    steps := [Quarantined(d, dirty0)];
    if depth > MAX_DEPTH {
      e := Some(InvalidData);
      return;
    }
    assert Count(d) == Length(d.entries) + Below(d.entries);
    e, visited := CountNames(io, d.entries, visited0);
    if e.Some? {
      return;
    }
    while rest.entries.Cons?
      invariant rest.Dir? && rest.id == d.id && rest.mode == d.mode && WellNamed(rest)
      invariant ForestCount(rest.entries) <= Count(d)
      invariant io.faulted == old(io.faulted)
      invariant visited0 <= MAX_ENTRIES || d.entries.Cons? ==> visited <= MAX_ENTRIES
      invariant ChainFromTo(steps, outer, Quarantined(d, dirty0), Quarantined(rest, dirty))
      invariant dirty <= DirectoryIds(rest) + outer
      invariant if mutated then Weight(rest) < Weight(d) else rest == d
      invariant visited + Below(rest.entries) == visited0 + Count(d)
      invariant EntriesAcceptable(rest.entries, device, depth) <==> EntriesAcceptable(d.entries, device, depth)
      decreases ForestCount(rest.entries)
    {
      assert rest.entries.name in NameSet(rest.entries);
      var name :| name in NameSet(rest.entries);
      DeleteFacts(rest.entries, name);
      DeleteAcceptable(rest.entries, name, device, depth);
      var changed;
      ghost var more;
      e, rest, visited, changed, dirty, more := RemoveEntry(io, rest, name, device, depth, visited, dirty, outer);
      ChainJoin(steps, more, outer);
      steps := steps + more[1..];
      mutated := mutated || changed;
      if e.Some? {
        return;
      }
    }
    e := None;
  }

  /** Removes one name of a restricted directory, with everything below it, and syncs the directory. */
  method RemoveEntry(
    io: Io, d: Tree, name: Name, device: nat, depth: nat, visited0: nat,
    ghost dirty0: set<Identity>, ghost outer: set<Identity>)
    returns (e: Option<ErrorKind>, rest: Tree, visited: nat, mutated: bool,
             ghost dirty: set<Identity>, ghost steps: seq<Quarantined>)
    requires d.Dir? && d.mode == PRIVATE_DIRECTORY && WellNamed(d) && name in NameSet(d.entries)
    requires dirty0 <= DirectoryIds(d) + outer
    modifies io
    ensures old(io.faulted) ==> io.faulted
    ensures e.None? ==> io.faulted == old(io.faulted)
    ensures ChainFromTo(steps, outer, Quarantined(d, dirty0), Quarantined(rest, dirty))
    ensures dirty <= DirectoryIds(rest) + outer
    ensures if mutated then Weight(rest) < Weight(d) else rest == d
    ensures rest.Dir? && rest.id == d.id && rest.mode == d.mode && WellNamed(rest)
    ensures e.None? ==> rest.entries == Delete(d.entries, name)
    ensures e.None? ==> EntryAcceptable(Lookup(d.entries, name), device, depth)
    ensures e.None? ==> visited == visited0 + Count(Lookup(d.entries, name))
    ensures && !io.faulted && EntryAcceptable(Lookup(d.entries, name), device, depth)
            && visited0 + Count(Lookup(d.entries, name)) <= MAX_ENTRIES
            ==> e.None?
    ensures e.None? && visited0 <= MAX_ENTRIES ==> visited <= MAX_ENTRIES
    ensures !io.faulted && e.Some? ==> e.value == InvalidData
    decreases Count(d), 0, 1
  {
    e, rest, visited, mutated, dirty, steps := EmptyEntry(io, d, name, device, depth, visited0, dirty0, outer);
    if e.Some? {
      return;
    }
    e := io.Try();
    if e.Some? {
      return;
    }
    DeleteFacts(rest.entries, name);
    ChainRemove(steps, outer, name);
    rest, mutated := Dir(rest.id, rest.mode, Delete(rest.entries, name)), true;
    ghost var removed := Quarantined(rest, dirty + {d.id});
    steps, dirty := steps + [removed], removed.dirty;
    e := io.Try();
    if e.Some? {
      return;
    }
    ghost var synced := Quarantined(rest, dirty - {d.id});
    ChainAppend(steps, outer, synced);
    steps, dirty := steps + [synced], synced.dirty;
  }

  /** Checks one entry and, if it is a directory, empties it: after this one call can remove it. */
  method EmptyEntry(
    io: Io, d: Tree, name: Name, device: nat, depth: nat, visited0: nat,
    ghost dirty0: set<Identity>, ghost outer: set<Identity>)
    returns (e: Option<ErrorKind>, rest: Tree, visited: nat, mutated: bool,
             ghost dirty: set<Identity>, ghost steps: seq<Quarantined>)
    requires d.Dir? && d.mode == PRIVATE_DIRECTORY && WellNamed(d) && name in NameSet(d.entries)
    requires dirty0 <= DirectoryIds(d) + outer
    modifies io
    ensures old(io.faulted) ==> io.faulted
    ensures e.None? ==> io.faulted == old(io.faulted)
    ensures ChainFromTo(steps, outer, Quarantined(d, dirty0), Quarantined(rest, dirty))
    ensures dirty <= DirectoryIds(rest) + outer
    ensures if mutated then Weight(rest) < Weight(d) else rest == d
    ensures rest.Dir? && rest.id == d.id && rest.mode == d.mode && WellNamed(rest)
    ensures e.None? ==>
              && name in NameSet(rest.entries) && Delete(rest.entries, name) == Delete(d.entries, name)
              && Removable(Lookup(rest.entries, name))
              && (Lookup(rest.entries, name).Dir? ==> Lookup(rest.entries, name).id !in dirty)
    ensures e.None? ==> EntryAcceptable(Lookup(d.entries, name), device, depth)
    ensures e.None? ==> visited == visited0 + Count(Lookup(d.entries, name))
    ensures && !io.faulted && EntryAcceptable(Lookup(d.entries, name), device, depth)
            && visited0 + Count(Lookup(d.entries, name)) <= MAX_ENTRIES
            ==> e.None?
    ensures e.None? && visited0 <= MAX_ENTRIES ==> visited <= MAX_ENTRIES
    ensures !io.faulted && e.Some? ==> e.value == InvalidData
    decreases Count(d), 0, 0
  {
    visited, mutated, rest, dirty := visited0, false, d, dirty0;
    steps := [Quarantined(d, dirty0)];
    DeleteFacts(d.entries, name);
    var observed := Lookup(d.entries, name);
    e := io.Try();
    if e.Some? {
      return;
    }
    if observed.id.device != device {
      e := Some(InvalidData);
      return;
    }
    if observed.Leaf? {
      return;
    }
    if observed.mode == 0 {
      e := Some(InvalidData);
      return;
    }
    var child;
    ghost var inner;
    e, child, visited, mutated, dirty, inner := EmptyChild(
      io, observed, device, depth + 1, visited, dirty, outer + {d.id} + ForestIds(Delete(d.entries, name)));
    ReplaceFacts(d.entries, name, observed);
    WrapChain(steps, inner, d.id, d.entries, name, outer);
    ReplaceFacts(d.entries, name, child);
    ReplaceWeight(d.entries, name, child);
    steps := steps + InDirectory(inner, d.id, d.entries, name)[1..];
    rest := Dir(d.id, d.mode, Replace(d.entries, name, child));
  }

  /** Restricts one subdirectory, empties it and syncs it, so that it is ready for `rmdir`. */
  method EmptyChild(
    io: Io, d: Tree, device: nat, depth: nat, visited0: nat,
    ghost dirty0: set<Identity>, ghost outer: set<Identity>)
    returns (e: Option<ErrorKind>, rest: Tree, visited: nat, mutated: bool,
             ghost dirty: set<Identity>, ghost steps: seq<Quarantined>)
    requires d.Dir? && d.mode != 0 && WellNamed(d)
    requires dirty0 <= DirectoryIds(d) + outer
    modifies io
    ensures old(io.faulted) ==> io.faulted
    ensures e.None? ==> io.faulted == old(io.faulted)
    ensures ChainFromTo(steps, outer, Quarantined(d, dirty0), Quarantined(rest, dirty))
    ensures dirty <= DirectoryIds(rest) + outer
    ensures if mutated then Weight(rest) < Weight(d) else rest == d
    ensures rest.Dir? && rest.id == d.id && WellNamed(rest)
    ensures e.None? ==> Removable(rest) && rest.id !in dirty && DirectoryAcceptable(d.entries, device, depth)
    ensures e.None? ==> visited == visited0 + Count(d)
    ensures !io.faulted && DirectoryAcceptable(d.entries, device, depth) && visited0 + Count(d) <= MAX_ENTRIES ==>
              e.None?
    ensures e.None? && visited0 <= MAX_ENTRIES ==> visited <= MAX_ENTRIES
    ensures !io.faulted && e.Some? ==> e.value == InvalidData
    decreases Count(d), 1
  {
    visited, mutated, rest, dirty := visited0, false, d, dirty0;
    steps := [Quarantined(d, dirty0)];
    e := io.Try();
    if e.Some? {
      return;
    }
    if d.mode != PRIVATE_DIRECTORY {
      e := io.Try();
      if e.Some? {
        return;
      }
      rest := Dir(d.id, PRIVATE_DIRECTORY, d.entries);
      mutated := true;
      ghost var restricted := Quarantined(rest, dirty + {d.id});
      assert TreeStep(d, rest, d.id);
      StepWeight(d, rest, d.id);
      ChainAppend(steps, outer, restricted);
      steps, dirty := steps + [restricted], restricted.dirty;
      e := io.Try();
      if e.Some? {
        return;
      }
      ghost var synced := Quarantined(rest, dirty - {d.id});
      ChainAppend(steps, outer, synced);
      steps, dirty := steps + [synced], synced.dirty;
      e := io.Try();
      if e.Some? {
        return;
      }
    }
    var changed;
    ghost var inner;
    e, rest, visited, changed, dirty, inner := CleanupDirectory(io, rest, device, depth, visited, dirty, outer);
    ChainJoin(steps, inner, outer);
    steps := steps + inner[1..];
    mutated := mutated || changed;
    if e.Some? {
      return;
    }
    e := io.Try();
    if e.Some? {
      return;
    }
    ghost var synced := Quarantined(rest, dirty - {d.id});
    ChainAppend(steps, outer, synced);
    steps, dirty := steps + [synced], synced.dirty;
  }

  /** Reads the names of one directory, counting each against the inventory limit. */
  method CountNames(io: Io, f: Forest, visited0: nat) returns (e: Option<ErrorKind>, visited: nat)
    modifies io
    ensures old(io.faulted) ==> io.faulted
    ensures e.None? ==> io.faulted == old(io.faulted)
    ensures e.None? ==> visited == visited0 + Length(f)
    ensures e.None? && f.Cons? ==> visited <= MAX_ENTRIES
    ensures !io.faulted && visited0 + Length(f) <= MAX_ENTRIES ==> e.None?
    ensures !io.faulted && e.Some? ==> e.value == InvalidData
  {
    visited := visited0;
    e := io.Try();
    if e.Some? {
      return;
    }
    var rest := f;
    while rest.Cons?
      invariant io.faulted == old(io.faulted)
      invariant visited + Length(rest) == visited0 + Length(f)
      invariant rest == f || visited <= MAX_ENTRIES
      decreases rest
    {
      e := io.Try();
      if e.Some? {
        return;
      }
      visited := visited + 1;
      if visited > MAX_ENTRIES {
        return Some(InvalidData), visited;
      }
      rest := rest.tail;
    }
    return None, visited;
  }
}
