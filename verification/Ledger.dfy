/**
  Immutable ledger storage: the two-slot active pointer, the write-once objects and the
  collection of unreferenced ones.
 */
module Ledger {
  import opened Wrappers
  import opened Faults

  type Bytes = string
  type Hash = string

  const MAX_INVENTORY: nat := 4096

  predicate ValidHash(h: Hash) {
    |h| == 64 && forall i :: 0 <= i < |h| ==> '0' <= h[i] <= '9' || 'a' <= h[i] <= 'f'
  }

  lemma HashExact(h: Hash)
    ensures ValidHash(h) <==> |h| == 64 && forall i :: 0 <= i < |h| ==> h[i] in "0123456789abcdef"
  {
    forall i | 0 <= i < |h|
      ensures h[i] in "0123456789abcdef" <==> '0' <= h[i] <= '9' || 'a' <= h[i] <= 'f'
    {
      HexDigits(h[i]);
    }
  }

  lemma HexDigits(c: char)
    ensures c in "0123456789abcdef" <==> '0' <= c <= '9' || 'a' <= c <= 'f'
  {
    var s := "0123456789abcdef";
    if '0' <= c <= '9' {
      assert s[c as int - '0' as int] == c;
    } else if 'a' <= c <= 'f' {
      assert s[10 + c as int - 'a' as int] == c;
    }
  }

  datatype PublishError = NotPublished | PublishedButUnsynced

  /** What is present under a hash stays what it was. */
  predicate WriteOnce(a: map<Hash, Bytes>, b: map<Hash, Bytes>) {
    forall h :: h in a && h in b ==> a[h] == b[h]
  }

  /** The listed hashes that a collection removes. */
  ghost function Gone(hashes: seq<Hash>, referenced: set<Hash>): set<Hash> {
    set h | h in hashes && h !in referenced
  }

  /** Nothing is new or changed, and nothing referenced is missing. */
  predicate Spared(before: map<Hash, Bytes>, after: map<Hash, Bytes>, referenced: set<Hash>) {
    WriteOnce(before, after) && after.Keys <= before.Keys && before.Keys * referenced <= after.Keys
  }

  lemma Sparing(before: map<Hash, Bytes>, hashes: seq<Hash>, referenced: set<Hash>)
    ensures Spared(before, before - Gone(hashes, referenced), referenced)
  {
  }

  lemma EmptyGone(referenced: set<Hash>)
    ensures forall hashes: seq<Hash> :: |hashes| == 0 ==> Gone(hashes, referenced) == {}
  {
  }

  lemma WholeGone(before: map<Hash, Bytes>, hashes: seq<Hash>, referenced: set<Hash>)
    requires forall h :: h in hashes <==> h in before
    ensures Gone(hashes, referenced) == before.Keys - referenced
    ensures (before - Gone(hashes, referenced)).Keys == before.Keys * referenced
  {
  }

  lemma GoneGrows(hashes: seq<Hash>, i: nat, referenced: set<Hash>)
    requires i < |hashes| && hashes[i] !in hashes[..i]
    ensures hashes[i] in referenced ==> Gone(hashes[..i + 1], referenced) == Gone(hashes[..i], referenced)
    ensures hashes[i] !in referenced ==>
              && Gone(hashes[..i + 1], referenced) == Gone(hashes[..i], referenced) + {hashes[i]}
              && |Gone(hashes[..i + 1], referenced)| == |Gone(hashes[..i], referenced)| + 1
  {
  }

  // The order of a listing

  /** Byte-wise order of names. */
  predicate Leq(a: string, b: string) {
    a == "" || (b != "" && (a[0] < b[0] || (a[0] == b[0] && Leq(a[1..], b[1..]))))
  }

  predicate Sorted(hashes: seq<Hash>) {
    forall i, j :: 0 <= i < j < |hashes| ==> Leq(hashes[i], hashes[j])
  }

  predicate Distinct(hashes: seq<Hash>) {
    forall i, j :: 0 <= i < j < |hashes| ==> hashes[i] != hashes[j]
  }

  /** Up to `i` the texts agree, and there the first has the smaller byte. */
  predicate SmallerAt(a: string, b: string, i: int) {
    0 <= i < |a| && i < |b| && a[i] < b[i] && a[..i] == b[..i]
  }

  /** Byte order: the first difference decides, and a prefix comes first. */
  lemma {:induction false} LeqExact(a: string, b: string)
    ensures Leq(a, b) <==> a <= b || exists i :: SmallerAt(a, b, i)
  {
    if a != "" && b != "" && a[0] == b[0] {
      assert a == [a[0]] + a[1..] && b == [b[0]] + b[1..];
      LeqExact(a[1..], b[1..]);
      if i :| SmallerAt(a, b, i) {
        SmallerNext(a, b, i - 1);
      }
      if i :| SmallerAt(a[1..], b[1..], i) {
        SmallerNext(a, b, i);
      }
    } else if a != "" && b != "" {
      assert SmallerAt(a, b, 0) <==> a[0] < b[0];
      if i :| SmallerAt(a, b, i) {
        SmallerFirst(a, b, i);
      }
    }
  }

  lemma SmallerFirst(a: string, b: string, i: int)
    requires SmallerAt(a, b, i)
    ensures if i == 0 then a[0] < b[0] else a[0] == b[0]
  {
    if i > 0 {
      assert a[..i][0] == a[0] && b[..i][0] == b[0];
    }
  }

  lemma SmallerNext(a: string, b: string, i: int)
    requires a != "" && b != "" && a[0] == b[0]
    ensures SmallerAt(a[1..], b[1..], i) <==> i + 1 > 0 && SmallerAt(a, b, i + 1)
  {
    if 0 <= i < |a[1..]| && i < |b[1..]| {
      assert a[..i + 1] == [a[0]] + a[1..][..i] && b[..i + 1] == [b[0]] + b[1..][..i];
      assert a[1..][..i] == a[..i + 1][1..] && b[1..][..i] == b[..i + 1][1..];
    }
  }

  lemma {:induction false} LeqTotal(a: string, b: string)
    ensures Leq(a, b) || Leq(b, a)
  {
    if a != "" && b != "" && a[0] == b[0] {
      LeqTotal(a[1..], b[1..]);
    }
  }

  lemma {:induction false} LeqTrans(a: string, b: string, c: string)
    requires Leq(a, b) && Leq(b, c)
    ensures Leq(a, c)
  {
    if a != "" && a[0] == b[0] == c[0] {
      LeqTrans(a[1..], b[1..], c[1..]);
    }
  }

  lemma SortedInsert(hashes: seq<Hash>, at: nat, h: Hash)
    requires Sorted(hashes) && at <= |hashes|
    requires at > 0 ==> Leq(hashes[at - 1], h)
    requires forall j :: at <= j < |hashes| ==> Leq(h, hashes[j])
    ensures Sorted(hashes[..at] + [h] + hashes[at..])
  {
    forall i | 0 <= i < at
      ensures Leq(hashes[i], h)
    {
      if i < at - 1 {
        LeqTrans(hashes[i], hashes[at - 1], h);
      }
    }
  }

  /** The same hashes in order. */
  method Sort(hashes: seq<Hash>) returns (sorted: seq<Hash>)
    ensures Sorted(sorted) && multiset(sorted) == multiset(hashes)
  {
    sorted := [];
    for i := 0 to |hashes|
      invariant Sorted(sorted) && multiset(sorted) == multiset(hashes[..i])
    {
      var at := |sorted|;
      while at > 0 && !Leq(sorted[at - 1], hashes[i])
        invariant 0 <= at <= |sorted|
        invariant forall j :: at <= j < |sorted| ==> Leq(hashes[i], sorted[j])
      {
        LeqTotal(sorted[at - 1], hashes[i]);
        at := at - 1;
      }
      SortedInsert(sorted, at, hashes[i]);
      Inserted(sorted, at, hashes[i]);
      assert hashes[..i + 1] == hashes[..i] + [hashes[i]];
      sorted := sorted[..at] + [hashes[i]] + sorted[at..];
    }
    assert hashes[..|hashes|] == hashes;
  }

  lemma Inserted(hashes: seq<Hash>, at: nat, h: Hash)
    requires at <= |hashes|
    ensures multiset(hashes[..at] + [h] + hashes[at..]) == multiset(hashes) + multiset{h}
  {
    assert hashes == hashes[..at] + hashes[at..];
  }

  lemma {:induction false} DistinctCounts(hashes: seq<Hash>, h: Hash)
    requires Distinct(hashes)
    ensures multiset(hashes)[h] <= 1
  {
    if |hashes| > 0 {
      var init := hashes[..|hashes| - 1];
      assert hashes == init + [hashes[|hashes| - 1]];
      DistinctCounts(init, h);
    }
  }

  /** Sorting neither adds a hash nor repeats one. */
  lemma SameHashes(a: seq<Hash>, b: seq<Hash>)
    requires multiset(a) == multiset(b) && Distinct(a)
    ensures |a| == |b| && Distinct(b) && forall h :: h in a <==> h in b
  {
    assert |multiset(a)| == |a| && |multiset(b)| == |b|;
    forall h
      ensures h in a <==> h in b
    {
      assert h in a <==> h in multiset(a);
      assert h in b <==> h in multiset(b);
    }
    forall i, j | 0 <= i < j < |b|
      ensures b[i] != b[j]
    {
      DistinctCounts(a, b[i]);
      assert b == b[..j] + b[j..] && b[..j][i] == b[i] && b[j..][0] == b[j];
      assert multiset(b)[b[i]] == multiset(b[..j])[b[i]] + multiset(b[j..])[b[i]];
    }
  }

  /** The two pointer files in the roots directory. */
  datatype Slots = Slots(active: Bytes, candidate: Bytes)

  predicate Complete(slots: Slots, offered: set<Bytes>, exchanged: set<Bytes>) {
    && (slots.active == "" || slots.active in exchanged)
    && (slots.candidate == "" || slots.candidate in offered)
  }

  class LedgerStorage {
    const io: Io
    var slots: Slots
    var objects: map<Hash, Bytes>
    /** Every value ever handed to `PublishActive`. */
    ghost var offered: set<Bytes>
    /** Those among them that were exchanged into the active slot. */
    ghost var exchanged: set<Bytes>
    /** The states of the roots directory in the order they came about, and how far they are durable. */
    ghost var history: seq<Slots>
    ghost var synced: nat

    /**
      However many publications succeeded, failed or were cut short: the active slot has never
      held anything but the initial empty value or a complete value whose exchange was made,
      and the candidate slot nothing but the empty value or a complete value that was offered.
     */
    ghost predicate Valid()
      reads this
    {
      && synced < |history| && history[|history| - 1] == slots
      && exchanged <= offered
      && forall i :: 0 <= i < |history| ==> Complete(history[i], offered, exchanged)
    }

    constructor (io: Io)
      ensures Valid() && this.io == io && slots == Slots("", "") && objects == map[] && offered == exchanged == {}
    {
      this.io := io;
      slots, objects := Slots("", ""), map[];
      offered, exchanged, history, synced := {}, {}, [Slots("", "")], 0;
    }

    method Change(next: Slots)
      requires Valid() && Complete(next, offered, exchanged)
      modifies `slots, `history
      ensures Valid() && slots == next && history == old(history) + [next]
    {
      slots := next;
      history := history + [next];
    }

    /** A directory sync that succeeds makes the present state durable. */
    method SyncRoots() returns (e: Option<ErrorKind>)
      requires Valid()
      modifies `synced, io
      ensures Valid() && (old(io.faulted) || e.Some? ==> io.faulted) && (e.None? ==> io.faulted == old(io.faulted))
      ensures synced == if e.None? then |history| - 1 else old(synced)
    {
      e := io.Try();
      if e.None? {
        synced := |history| - 1;
      }
    }

    /** A power loss leaves some state that is not older than the last durable one. */
    method LosePower(found: Slots, ghost kept: nat)
      requires Valid() && synced <= kept < |history| && found == history[kept]
      modifies `slots, `history
      ensures Valid() && slots == found && history == old(history)[..kept + 1]
    {
      history := history[..kept + 1];
      slots := found;
    }

    /** Fills the candidate slot and exchanges the two slots. */
    method PublishActive(bytes: Bytes) returns (res: Result<(), PublishError>)
      requires Valid()
      modifies `slots, `offered, `exchanged, `history, `synced, io
      ensures Valid() && offered == old(offered) + {bytes}
      ensures exchanged == old(exchanged) + if res == Failure(NotPublished) then {} else {bytes}
      ensures old(history) <= history && old(synced) <= synced
      ensures forall i :: |old(history)| <= i < |history| ==>
                            history[i].active == old(slots.active) || (history[i] == Slots(bytes, old(slots.active)))
      ensures res.Success? ==> slots == Slots(bytes, old(slots.active)) && synced == |history| - 1
      ensures res == Failure(NotPublished) ==> slots.active == old(slots.active)
      ensures res == Failure(PublishedButUnsynced) ==>
                && slots == Slots(bytes, old(slots.active))
                && forall i :: synced <= i < |history| ==> history[i].active in {bytes, old(slots.active)}
      ensures old(io.faulted) ==> io.faulted
      ensures !io.faulted ==> res.Success?
    {
      offered := offered + {bytes};
      var e := io.Try();
      if e.Some? {
        return Failure(NotPublished);
      }
      Change(Slots(slots.active, bytes));
      e := io.Try();
      if e.Some? {
        return Failure(NotPublished);
      }
      e := SyncRoots();
      if e.Some? {
        return Failure(NotPublished);
      }
      e := io.Try();
      if e.Some? {
        return Failure(NotPublished);
      }
      exchanged := exchanged + {bytes};
      Change(Slots(slots.candidate, slots.active));
      e := SyncRoots();
      if e.Some? {
        return Failure(PublishedButUnsynced);
      }
      return Success(());
    }

    /** Stores bytes under a hash that is free; equal bytes under a taken one are no error. */
    method PutImmutable(hash: Hash, bytes: Bytes) returns (ok: bool)
      modifies `objects, io
      ensures WriteOnce(old(objects), objects) && old(objects).Keys <= objects.Keys <= old(objects).Keys + {hash}
      ensures ok ==> ValidHash(hash) && hash in objects && objects[hash] == bytes
      ensures hash in objects && hash !in old(objects) ==> ValidHash(hash) && objects[hash] == bytes
      ensures hash in old(objects) && old(objects)[hash] != bytes ==> !ok && objects == old(objects)
      ensures hash in old(objects) ==> objects == old(objects)
      ensures old(io.faulted) ==> io.faulted
      ensures !io.faulted ==> (ok <==> ValidHash(hash) && (hash in old(objects) ==> old(objects)[hash] == bytes))
    {
      if !ValidHash(hash) {
        return false;
      }
      var e := io.Try();
      if e.Some? {
        return false;
      }
      if hash in objects {
        return objects[hash] == bytes;
      }
      e := io.Try();
      if e.Some? {
        return false;
      }
      objects := objects[hash := bytes];
      e := io.Try();
      return e.None?;
    }

    /** Lists the hashes in order, refusing to list more than `limit`. */
    method ListHashes(limit: nat) returns (res: Option<seq<Hash>>)
      modifies io
      ensures old(io.faulted) ==> io.faulted
      ensures res.Some? ==>
                && io.faulted == old(io.faulted) && (forall h :: h in objects ==> ValidHash(h))
                && (forall h :: h in res.value <==> h in objects)
                && |res.value| == |objects| && |objects| <= limit
                && Sorted(res.value) && Distinct(res.value)
      ensures |objects| > limit ==> res.None?
      ensures !io.faulted && |objects| <= limit && (forall h :: h in objects ==> ValidHash(h)) ==> res.Some?
    {
      var hashes: seq<Hash> := [];
      var rest := objects.Keys;
      while rest != {}
        invariant io.faulted == old(io.faulted)
        invariant forall h :: h in hashes ==> ValidHash(h)
        invariant rest <= objects.Keys
        invariant forall h :: h in hashes <==> h in objects.Keys - rest
        invariant |hashes| + |rest| == |objects.Keys| && |hashes| <= limit
        invariant Distinct(hashes)
        decreases |rest|
      {
        var h :| h in rest;
        assert |rest| >= 1;
        if |hashes| >= limit {
          return None;
        }
        var e := io.Try();
        if e.Some? || !ValidHash(h) {
          return None;
        }
        hashes := hashes + [h];
        rest := rest - {h};
      }
      assert objects.Keys - rest == objects.Keys;
      var sorted := Sort(hashes);
      SameHashes(hashes, sorted);
      return Some(sorted);
    }

    /** Removes the listed objects that are not referenced, until one removal fails. */
    method RemoveListed(hashes: seq<Hash>, referenced: set<Hash>) returns (res: Option<nat>)
      requires Distinct(hashes)
      modifies `objects, io
      ensures old(io.faulted) ==> io.faulted
      ensures !io.faulted ==> res.Some?
      ensures Spared(old(objects), objects, referenced)
      ensures res.Some? ==>
                && io.faulted == old(io.faulted) && objects == old(objects) - Gone(hashes, referenced)
                && res.value == |Gone(hashes, referenced)|
    {
      hide Gone, ValidHash, Complete, Spared;
      assert Gone(hashes[..0], referenced) == {} by { EmptyGone(referenced); }
      var removed := 0;
      for i := 0 to |hashes|
        invariant io.faulted == old(io.faulted)
        invariant objects == old(objects) - Gone(hashes[..i], referenced)
        invariant removed == |Gone(hashes[..i], referenced)|
      {
        GoneGrows(hashes, i, referenced);
        Sparing(old(objects), hashes[..i], referenced);
        if hashes[i] !in referenced {
          var e := io.Try();
          if e.Some? {
            return None;
          }
          objects := objects - {hashes[i]};
          removed := removed + 1;
        }
      }
      assert hashes[..|hashes|] == hashes;
      Sparing(old(objects), hashes, referenced);
      return Some(removed);
    }

    /**
      Removes every object that is not referenced.  A success leaves exactly the referenced
      ones and counts the rest; an inventory over the limit is refused before anything goes;
      and no failure removes a referenced object.
     */
    method RemoveUnreferenced(referenced: set<Hash>) returns (res: Option<nat>)
      modifies `objects, io
      ensures old(io.faulted) ==> io.faulted
      ensures Spared(old(objects), objects, referenced)
      ensures res.Some? ==>
                && io.faulted == old(io.faulted) && (forall h :: h in old(objects) ==> ValidHash(h))
                && objects.Keys == old(objects).Keys * referenced
                && res.value == |old(objects).Keys - referenced|
      ensures |old(objects)| > MAX_INVENTORY ==> res.None? && objects == old(objects)
      ensures !io.faulted && |old(objects)| <= MAX_INVENTORY && (forall h :: h in old(objects) ==> ValidHash(h)) ==>
                res.Some?
    {
      hide Gone, ValidHash, Complete;
      var listed := ListHashes(MAX_INVENTORY);
      if listed.None? {
        return None;
      }
      var removed := RemoveListed(listed.value, referenced);
      WholeGone(old(objects), listed.value, referenced);
      if removed.None? {
        return None;
      }
      var e := io.Try();
      return if e.Some? then None else removed;
    }
  }
}
