/** The bounded access log of the content-addressed store. */
module AccessLog {
  type Cid = string
  datatype Entry = Entry(first: nat, last: nat, count: nat)
  type Entries = map<Cid, Entry>

  const MAX_ENTRIES: nat := 100_000

  /** All accesses that a log accounts for. */
  ghost function Sum(log: Entries): nat {
    if log == map[] then 0
    else
      var cid :| cid in log;
      log[cid].count + Sum(log - {cid})
  }

  lemma {:induction false} SumRemove(log: Entries, cid: Cid)
    requires cid in log
    ensures Sum(log) == log[cid].count + Sum(log - {cid})
    decreases |log|
  {
    var other :| other in log && Sum(log) == log[other].count + Sum(log - {other});
    if other != cid {
      assert |log - {other}| < |log| && |log - {cid}| < |log| by { Smaller(log, other); Smaller(log, cid); }
      SumRemove(log - {other}, cid);
      SumRemove(log - {cid}, other);
      assert log - {other} - {cid} == log - {cid} - {other};
    }
  }

  lemma Smaller(log: Entries, cid: Cid)
    requires cid in log
    ensures |log - {cid}| == |log| - 1
  {
  }

  /** One more access is accounted for by one more in the sum. */
  lemma SumTouch(log: Entries, cid: Cid, entry: Entry)
    requires entry.count == (if cid in log then log[cid].count else 0) + 1
    ensures Sum(log[cid := entry]) == Sum(log) + 1
  {
    SumRemove(log[cid := entry], cid);
    assert log[cid := entry] - {cid} == log - {cid};
    if cid in log {
      SumRemove(log, cid);
    } else {
      assert log - {cid} == log;
    }
  }

  predicate Part(after: Entries, before: Entries) {
    after.Keys <= before.Keys && forall cid :: cid in after ==> after[cid] == before[cid]
  }

  lemma {:induction false} SumShrinks(before: Entries, after: Entries)
    requires Part(after, before)
    ensures Sum(after) <= Sum(before)
    decreases |before|
  {
    if before.Keys == after.Keys {
      assert before == after;
    } else {
      var cid :| cid in before && cid !in after;
      SumRemove(before, cid);
      Smaller(before, cid);
      SumShrinks(before - {cid}, after);
    }
  }

  // Order of last use

  datatype Stamp = Stamp(cid: Cid, last: nat)

  predicate ByAge(order: seq<Stamp>) {
    forall i, j :: 0 <= i < j < |order| ==> order[i].last <= order[j].last
  }

  predicate Distinct(order: seq<Stamp>) {
    forall i, j :: 0 <= i < j < |order| ==> order[i].cid != order[j].cid
  }

  predicate Timed(order: seq<Stamp>, cids: set<Cid>, log: Entries) {
    forall i :: 0 <= i < |order| ==>
                  order[i].cid in cids && order[i].cid in log && order[i].last == log[order[i].cid].last
  }

  ghost predicate Covers(order: seq<Stamp>, cids: set<Cid>) {
    forall cid :: cid in cids ==> exists i :: 0 <= i < |order| && order[i].cid == cid
  }

  /** The order lists exactly these cids, once each, with the times the log has for them. */
  ghost predicate Lists(order: seq<Stamp>, cids: set<Cid>, log: Entries) {
    |order| == |cids| && Timed(order, cids, log) && Covers(order, cids) && Distinct(order)
  }

  method Insert(order: seq<Stamp>, stamp: Stamp) returns (at: nat)
    requires ByAge(order)
    ensures at <= |order| && ByAge(Inserted(order, at, stamp))
  {
    at := |order|;
    while at > 0 && order[at - 1].last > stamp.last
      invariant at <= |order|
      invariant forall j :: at <= j < |order| ==> stamp.last < order[j].last
    {
      at := at - 1;
    }
  }

  function Inserted(order: seq<Stamp>, at: nat, stamp: Stamp): (next: seq<Stamp>)
    requires at <= |order|
    ensures |next| == |order| + 1 && next[at] == stamp
    ensures forall i :: 0 <= i < at ==> next[i] == order[i]
    ensures forall i :: at < i < |next| ==> next[i] == order[i - 1]
  {
    order[..at] + [stamp] + order[at..]
  }

  lemma InsertedListed(order: seq<Stamp>, cids: set<Cid>, log: Entries, cid: Cid, at: nat, c: Cid)
    requires Lists(order, cids, log) && cid in log && at <= |order| && c in cids + {cid}
    ensures var next := Inserted(order, at, Stamp(cid, log[cid].last));
            exists i :: 0 <= i < |next| && next[i].cid == c
  {
    hide Inserted;
    var next := Inserted(order, at, Stamp(cid, log[cid].last));
    if c == cid {
      assert next[at].cid == c;
    } else {
      var i :| 0 <= i < |order| && order[i].cid == c;
      if i < at {
        assert next[i].cid == c;
      } else {
        assert next[i + 1] == order[i + 1 - 1];
      }
    }
  }

  lemma ListsInsert(order: seq<Stamp>, cids: set<Cid>, log: Entries, cid: Cid, at: nat)
    requires Lists(order, cids, log) && cid in log && cid !in cids && at <= |order|
    ensures Lists(Inserted(order, at, Stamp(cid, log[cid].last)), cids + {cid}, log)
  {
    hide Inserted, Covers;
    var next := Inserted(order, at, Stamp(cid, log[cid].last));
    assert Covers(next, cids + {cid}) by { CoversInsert(order, cids, log, cid, at); }
    assert forall i :: 0 <= i < |order| ==> order[i].cid != cid;
    DistinctInsert(order, Stamp(cid, log[cid].last), at);
    hide Distinct;
    assert Timed(next, cids + {cid}, log);
  }

  lemma CoversInsert(order: seq<Stamp>, cids: set<Cid>, log: Entries, cid: Cid, at: nat)
    requires Lists(order, cids, log) && cid in log && at <= |order|
    ensures Covers(Inserted(order, at, Stamp(cid, log[cid].last)), cids + {cid})
  {
    hide Inserted;
    var next := Inserted(order, at, Stamp(cid, log[cid].last));
    forall c | c in cids + {cid}
      ensures exists i :: 0 <= i < |next| && next[i].cid == c
    {
      InsertedListed(order, cids, log, cid, at, c);
    }
  }

  lemma DistinctInsert(order: seq<Stamp>, stamp: Stamp, at: nat)
    requires Distinct(order) && at <= |order|
    requires forall i :: 0 <= i < |order| ==> order[i].cid != stamp.cid
    ensures Distinct(Inserted(order, at, stamp))
  {
  }

  /** The entries in the order of their last use. */
  method Order(log: Entries) returns (order: seq<Stamp>)
    ensures ByAge(order) && Lists(order, log.Keys, log)
  {
    hide ByAge, Lists;
    order := [];
    var rest := log.Keys;
    assert ByAge(order) && Lists(order, {}, log) by { Empty(log); }
    assert log.Keys - rest == {};
    while rest != {}
      invariant rest <= log.Keys && ByAge(order) && Lists(order, log.Keys - rest, log)
      decreases |rest|
    {
      var cid :| cid in rest;
      var at := Insert(order, Stamp(cid, log[cid].last));
      ListsInsert(order, log.Keys - rest, log, cid, at);
      assert log.Keys - rest + {cid} == log.Keys - (rest - {cid});
      order := Inserted(order, at, Stamp(cid, log[cid].last));
      rest := rest - {cid};
    }
    assert log.Keys - rest == log.Keys;
  }

  lemma Empty(log: Entries)
    ensures ByAge([]) && Lists([], {}, log)
  {
  }

  /** Some of the log is gone, and nothing that is gone was used later than anything that is left. */
  ghost predicate Aged(before: Entries, after: Entries) {
    && Part(after, before)
    && (forall gone, kept :: gone in before.Keys - after.Keys && kept in after.Keys ==>
                               before[gone].last <= before[kept].last)
  }

  /** Removing the front of the order removes the oldest entries. */
  lemma OldestGone(before: Entries, after: Entries, order: seq<Stamp>, n: nat)
    requires ByAge(order) && Lists(order, before.Keys, before) && n <= |order|
    requires after == before - Front(order, n)
    ensures Aged(before, after)
  {
  }

  /** Evicts the oldest tenth. */
  method Evict(log: Entries) returns (kept: Entries)
    ensures Aged(log, kept) && |kept| == |log| - |log| / 10
  {
    hide Front, ByAge, Aged;
    assert forall order: seq<Stamp> :: Front(order, 0) == {} by { NoFront(); }
    var order := Order(log);
    var evicted := |order| / 10;
    kept := log;
    for i := 0 to evicted
      invariant kept == log - Front(order, i) && |kept| == |log| - i
    {
      Unlisted(log, order, i);
      Smaller(kept, order[i].cid);
      kept := kept - {order[i].cid};
    }
    OldestGone(log, kept, order, evicted);
  }

  ghost function Front(order: seq<Stamp>, n: nat): set<Cid>
    requires n <= |order|
  {
    set i | 0 <= i < n :: order[i].cid
  }

  lemma NoFront()
    ensures forall order: seq<Stamp> :: Front(order, 0) == {}
  {
  }

  lemma Unlisted(log: Entries, order: seq<Stamp>, i: nat)
    requires Lists(order, log.Keys, log) && i < |order|
    ensures order[i].cid in log - Front(order, i)
    ensures log - Front(order, i) - {order[i].cid} == log - Front(order, i + 1)
  {
  }

  /**
    `after` records an access to `cid` at `now`: its entry, if it is kept, has one access more
    and the new time of last use, and every other entry that is kept is as it was.
   */
  predicate Records(before: Entries, after: Entries, cid: Cid, now: nat) {
    && (cid in after ==>
          && after[cid].last == now
          && (if cid in before then
                after[cid].first == before[cid].first && after[cid].count == before[cid].count + 1
              else after[cid].first == now && after[cid].count == 1))
    && forall other :: other in after && other != cid ==> other in before && after[other] == before[other]
  }

  predicate UpToDate(log: Entries, latest: map<Cid, nat>) {
    forall cid :: cid in log ==> cid in latest && log[cid].last == latest[cid]
  }

  function Touched(log: Entries, cid: Cid, now: nat): Entries {
    if cid in log then log[cid := Entry(log[cid].first, now, log[cid].count + 1)]
    else log[cid := Entry(now, now, 1)]
  }

  lemma TouchedFacts(log: Entries, cid: Cid, now: nat)
    ensures Sum(Touched(log, cid, now)) == Sum(log) + 1
    ensures |Touched(log, cid, now)| == |log| + if cid in log then 0 else 1
  {
    SumTouch(log, cid, Touched(log, cid, now)[cid]);
    assert Touched(log, cid, now).Keys == log.Keys + {cid};
    assert |Touched(log, cid, now).Keys| == |Touched(log, cid, now)| && |log.Keys| == |log|;
  }

  lemma AgedPart(before: Entries, after: Entries)
    requires Aged(before, after)
    ensures Part(after, before)
  {
  }

  lemma AgedRefl(log: Entries)
    ensures Aged(log, log)
  {
  }

  lemma KeptRecords(before: Entries, kept: Entries, cid: Cid, now: nat, latest: map<Cid, nat>)
    requires Aged(Touched(before, cid, now), kept) && UpToDate(before, latest)
    ensures Records(before, kept, cid, now) && UpToDate(kept, latest[cid := now])
  {
  }

  class Log {
    var entries: Entries
    /** The running count of accesses. */
    var total: nat
    /** Accesses that the evicted entries accounted for. */
    ghost var evicted: nat
    /** The time of the latest access to each object, evicted or not. */
    ghost var latest: map<Cid, nat>

    /** No access is lost from the books, and every entry knows its latest access. */
    ghost predicate Valid()
      reads this
    {
      && Sum(entries) + evicted == total
      && UpToDate(entries, latest)
    }

    constructor (loaded: Entries)
      ensures Valid() && entries == loaded && evicted == 0
    {
      var sum := Total(loaded);
      entries, total, evicted := loaded, sum, 0;
      latest := map cid | cid in loaded :: loaded[cid].last;
    }

    method RecordAccess(cid: Cid, now: nat)
      requires Valid()
      modifies this
      ensures Valid() && total == old(total) + 1 && latest == old(latest)[cid := now]
      ensures Records(old(entries), entries, cid, now)
      ensures |entries| <= |old(entries)| + 1
      ensures |old(entries)| <= MAX_ENTRIES ==> |entries| <= MAX_ENTRIES
      ensures |old(entries)| > MAX_ENTRIES ==> |entries| + 9_999 <= |old(entries)|
      ensures var n := |Touched(old(entries), cid, now)|;
              |entries| == if n > MAX_ENTRIES then n - n / 10 else n
      ensures Aged(Touched(old(entries), cid, now), entries)
      ensures |Touched(old(entries), cid, now)| <= MAX_ENTRIES ==>
                entries == Touched(old(entries), cid, now) && evicted == old(evicted)
    {
      hide Aged, Records, UpToDate, Touched;
      TouchedFacts(entries, cid, now);
      entries := Touched(entries, cid, now);
      if |entries| > MAX_ENTRIES {
        var kept := Evict(entries);
        AgedPart(entries, kept);
        SumShrinks(entries, kept);
        evicted := evicted + Sum(entries) - Sum(kept);
        entries := kept;
      }
      AgedRefl(entries);
      KeptRecords(old(entries), entries, cid, now, latest);
      total := total + 1;
      latest := latest[cid := now];
    }
  }

  method Total(log: Entries) returns (sum: nat)
    ensures sum == Sum(log)
  {
    sum := 0;
    var rest := log;
    while rest != map[]
      invariant sum + Sum(rest) == Sum(log)
      decreases |rest|
    {
      var cid :| cid in rest;
      SumRemove(rest, cid);
      Smaller(rest, cid);
      sum := sum + rest[cid].count;
      rest := rest - {cid};
    }
  }
}
