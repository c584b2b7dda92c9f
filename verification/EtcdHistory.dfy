/** Revision history in etcd: snapshots written with every version, listed newest first, and
    trimmed by cleanups that run concurrently with everything else. */
module EtcdHistory {
  import opened Ordering
  import opened ZoneModel
  import opened ZoneNames
  import opened MemoryStore
  import opened EtcdServer
  import opened EtcdProtocol

  // ----- listing and trimming one zone's versions -----

  lemma VersionsMeaning(s: Store, n: string, v: string, vs: set<string>, w: string)
    ensures v in Versions(s, n) <==> (n, v) in s.history
    ensures w in Newer(vs, v) <==> w in vs && StringLess(v, w)
  {
    if (n, v) in s.history {
      assert (n, v).1 in Versions(s, n);
    }
  }

  predicate NewerFirst(a: string, b: string) {
    StringLess(b, a)
  }

  lemma NewerFirstIsStrictTotalOrder()
    ensures StrictTotalOrder(NewerFirst)
  {
    StringLessIsStrictTotalOrder();
  }

  /** In a descending listing the entry at index i has exactly i versions above it. */
  lemma NewerCount(vs: set<string>, sorted: seq<string>, i: nat)
    requires StrictlySorted(NewerFirst, sorted) && Elements(sorted) == vs && i < |sorted|
    ensures |Newer(vs, sorted[i])| == i
  {
    NewerFirstIsStrictTotalOrder();
    var top := sorted[..i];
    forall w | w in Newer(vs, sorted[i]) ensures w in Elements(top) {
      assert w in Elements(sorted);
      var j :| 0 <= j < |sorted| && sorted[j] == w;
      assert NewerFirst(w, sorted[i]);
      assert top[j] == w;
    }
    forall w | w in Elements(top) ensures w in Newer(vs, sorted[i]) {
      var j :| 0 <= j < |top| && top[j] == w;
      assert sorted[j] == w && w in Elements(sorted) && NewerFirst(w, sorted[i]);
    }
    assert Newer(vs, sorted[i]) == Elements(top);
    SortedIsDistinct(NewerFirst, top);
    DistinctCardinality(top);
  }

  lemma PlaceOf(vs: set<string>, sorted: seq<string>, v: string) returns (i: nat)
    requires StrictlySorted(NewerFirst, sorted) && Elements(sorted) == vs && v in vs
    ensures i < |sorted| && sorted[i] == v && |Newer(vs, v)| == i
  {
    assert v in Elements(sorted);
    i :| 0 <= i < |sorted| && sorted[i] == v;
    NewerCount(vs, sorted, i);
  }

  /** A slice of the descending listing, said without the listing. */
  lemma SliceMeaning(vs: set<string>, sorted: seq<string>, lo: nat, hi: nat, v: string)
    requires StrictlySorted(NewerFirst, sorted) && Elements(sorted) == vs && lo <= hi <= |sorted|
    ensures v in sorted[lo..hi] <==> v in vs && lo <= |Newer(vs, v)| < hi
  {
    var slice := sorted[lo..hi];
    if v in slice {
      var j :| 0 <= j < |slice| && slice[j] == v;
      assert sorted[lo + j] == v && sorted[lo + j] in Elements(sorted);
      NewerCount(vs, sorted, lo + j);
    }
    if v in vs {
      var i := PlaceOf(vs, sorted, v);
      assert lo <= i < hi ==> slice[i - lo] == v;
    }
  }

  /** The versions one cleanup deletes: the listing beyond the first RETENTION entries, which are
      exactly the versions with at least RETENTION newer ones. */
  method ListDoomed(vs: set<string>) returns (doomed: seq<string>)
    ensures forall v :: v in doomed <==> v in Doomed(vs)
    ensures forall v :: v in doomed ==> v in vs && |Newer(vs, v)| >= 100
    ensures |vs| <= RETENTION ==> doomed == []
  {
    NewerFirstIsStrictTotalOrder();
    var sorted := SortKeys(NewerFirst, vs);
    SortedIsDistinct(NewerFirst, sorted);
    DistinctCardinality(sorted);
    doomed := [];
    var from := if |sorted| > RETENTION then RETENTION else |sorted|;
    for i := from to |sorted|
      invariant doomed == sorted[from..i]
    {
      doomed := doomed + [sorted[i]];
    }
    forall v ensures v in doomed <==> v in Doomed(vs) {
      assert doomed == sorted[from..|sorted|];
      SliceMeaning(vs, sorted, from, |sorted|, v);
      SliceMeaning(vs, sorted, 0, |sorted|, v);
      assert sorted[0..|sorted|] == sorted;
      assert v in vs <==> v in Elements(sorted);
    }
  }

  predicate OnPage(rank: nat, offset: int, limit: int) {
    offset <= rank && (limit > 0 ==> rank < (if offset < 0 then 0 else offset) + limit)
  }

  /** A page of versions: newest first, and exactly those whose rank from the newest lies in the
      requested window. A limit of 0 or less means no limit. */
  method PageOfVersions(vs: set<string>, offset: int, limit: int) returns (page: seq<string>)
    ensures StrictlySorted(NewerFirst, page)
    ensures forall v :: v in page <==> v in vs && OnPage(|Newer(vs, v)|, offset, limit)
  {
    NewerFirstIsStrictTotalOrder();
    var versions := SortKeys(NewerFirst, vs);
    var start := if offset < 0 then 0 else offset;
    if start > |versions| {
      start := |versions|;
    }
    var end := |versions|;
    if limit > 0 && start + limit < |versions| {
      end := start + limit;
    }
    page := versions[start..end];
    forall v ensures v in page <==> v in vs && OnPage(|Newer(vs, v)|, offset, limit) {
      SliceMeaning(vs, versions, start, end, v);
      SliceMeaning(vs, versions, 0, |versions|, v);
      assert versions[0..|versions|] == versions;
      assert v in vs <==> v in Elements(versions);
    }
  }

  /** What a listing tells about one stored snapshot. */
  datatype Revision = Revision(version: string, serial: int, timestamp: int)

  function RevisionOf(z: Zone): Revision {
    Revision(z.version, z.soa.serial, z.updatedAt)
  }

  /** A page of revisions: newest first, each describing its own snapshot, and exactly the stored versions
      whose rank from the newest lies in the requested window. */
  method ListRevisions(s: Store, n: string, offset: int, limit: int) returns (page: seq<Revision>)
    requires StoreInv(s)
    ensures forall i, j :: 0 <= i < j < |page| ==> StringLess(page[j].version, page[i].version)
    ensures forall i :: 0 <= i < |page| ==>
              && (n, page[i].version) in s.history
              && var snapshot := s.history[(n, page[i].version)].value;
              && page[i].version == snapshot.version && page[i].serial == snapshot.soa.serial
              && page[i].timestamp == snapshot.updatedAt
    ensures forall v :: (exists i :: 0 <= i < |page| && page[i].version == v)
                        <==> && v in Versions(s, n)
                             && |Newer(Versions(s, n), v)| >= offset
                             && (limit > 0 ==> |Newer(Versions(s, n), v)| - (if offset < 0 then 0 else offset) < limit)
  {
    var versions := PageOfVersions(Versions(s, n), offset, limit);
    page := [];
    for i := 0 to |versions|
      invariant |page| == i
      invariant forall j :: 0 <= j < i ==> page[j].version == versions[j]
      invariant forall j :: 0 <= j < i ==>
                  (n, versions[j]) in s.history && page[j] == RevisionOf(s.history[(n, versions[j])].value)
    {
      assert versions[i] in versions && versions[i] in Versions(s, n);
      assert (n, versions[i]) in s.history;
      page := page + [RevisionOf(s.history[(n, versions[i])].value)];
    }
    assert forall i, j :: 0 <= i < j < |page| ==> NewerFirst(versions[i], versions[j]);
    assert forall v :: (exists i :: 0 <= i < |page| && page[i].version == v) <==> v in versions;
  }

  // ----- history under every interleaving -----

  /** Equal in everything a metadata update leaves alone. */
  ghost predicate SameRevision(a: Zone, b: Zone) {
    a.(dnssec := b.dnssec, updatedAt := b.updatedAt) == b
  }

  /** The zone a commit would store, if it stores one with a new version. */
  ghost predicate Stores(valid: Zone -> bool, p: Phase, z: Zone) {
    Committable(valid, p)
    && if p.PendingCreate? then z == p.zone
       else p.op.Update? && z == PrepareForUpdate(valid, p.op.zone, p.seen, p.op.env).zone
  }

  /** Versions commit in the order they sort: a stored version is above the zone's whole history. */
  ghost predicate InOrder(valid: Zone -> bool, s: System, step: Step)
    requires Enabled(valid, s, step)
  {
    Effect(valid, s, step) != [] ==>
      var p := s.clients[step.id];
      forall z, k :: Stores(valid, p, z) && k in s.store.history && k.0 == p.op.Target()
                     ==> StringLess(k.1, z.version)
  }

  ghost predicate CurrentIsNewest(s: Store, n: string) {
    n in s.zones ==>
      var z := s.zones[n].value;
      && (n, z.version) in s.history
      && SameRevision(s.history[(n, z.version)].value, z)
      && (forall k :: k in s.history && k.0 == n ==> k.1 == z.version || StringLess(k.1, z.version))
  }

  /** A doomed version always has a newer one in the history. */
  ghost predicate Superseded(s: Store, n: string, v: string) {
    exists k :: k in s.history && k.0 == n && StringLess(v, k.1)
  }

  ghost predicate CommitOrder(s: Store) {
    forall k, l :: k in s.history && l in s.history && k.0 == l.0 && StringLess(k.1, l.1)
                   ==> s.history[k].modRev < s.history[l].modRev
  }

  ghost predicate HistoryInv(s: System) {
    && (forall n :: CurrentIsNewest(s.store, n))
    && (forall id, v :: id in s.cleaners && v in s.cleaners[id].doomed ==>
                          Superseded(s.store, s.cleaners[id].name, v))
    && CommitOrder(s.store)
  }

  lemma DoomedIsSuperseded(s: Store, n: string, v: string)
    requires v in Doomed(Versions(s, n))
    ensures Superseded(s, n, v)
  {
    var w :| w in Newer(Versions(s, n), v);
    assert w in Versions(s, n);
    var k :| k in s.history && k.0 == n && k.1 == w;
  }

  /** Deleting a superseded snapshot leaves every superseded version superseded. */
  lemma DeleteKeepsSuperseded(s: Store, n: string, v: string, m: string, u: string)
    requires Superseded(s, n, v) && Superseded(s, m, u)
    ensures Superseded(s.(history := s.history - {(n, v)}, rev := s.rev + 1), m, u)
  {
    var s' := s.(history := s.history - {(n, v)}, rev := s.rev + 1);
    var k :| k in s.history && k.0 == m && StringLess(u, k.1);
    if k == (n, v) {
      var l :| l in s.history && l.0 == n && StringLess(v, l.1);
      StringLessIrreflexive(v);
      StringLessTransitive(u, v, l.1);
      assert l in s'.history;
    } else {
      assert k in s'.history;
    }
  }

  lemma CleanupKeepsHistoryInv(valid: Zone -> bool, s: System, id: nat, v: string)
    requires HistoryInv(s) && Enabled(valid, s, CleanupDelete(id, v))
    ensures HistoryInv(Next(valid, s, CleanupDelete(id, v)))
  {
    var n := s.cleaners[id].name;
    var s' := Next(valid, s, CleanupDelete(id, v));
    if (n, v) in s.store.history {
      assert s'.store == s.store.(history := s.store.history - {(n, v)}, rev := s.store.rev + 1);
      forall m ensures CurrentIsNewest(s'.store, m) {
        assert CurrentIsNewest(s.store, m);
        if m == n && n in s.store.zones {
          var k :| k in s.store.history && k.0 == n && StringLess(v, k.1);
          StringLessIrreflexive(v);
          if k.1 != s.store.zones[n].value.version {
            StringLessTransitive(v, k.1, s.store.zones[n].value.version);
          }
        }
      }
      forall c, u | c in s'.cleaners && u in s'.cleaners[c].doomed
        ensures Superseded(s'.store, s'.cleaners[c].name, u)
      {
        DeleteKeepsSuperseded(s.store, n, v, s.cleaners[c].name, u);
      }
    }
  }

  lemma ZoneWriteKeepsHistory(s: Store, n: string, z: Zone)
    requires StoreInv(s) && (forall m :: CurrentIsNewest(s, m)) && CommitOrder(s)
    requires forall k :: k in s.history && k.0 == n ==> StringLess(k.1, z.version)
    ensures (forall m :: CurrentIsNewest(WithZone(s, n, z), m)) && CommitOrder(WithZone(s, n, z))
  {
    var s' := WithZone(s, n, z);
    StringLessIrreflexive(z.version);
    forall m ensures CurrentIsNewest(s', m) {
      assert CurrentIsNewest(s, m);
    }
    forall k, l | k in s'.history && l in s'.history && k.0 == l.0 && StringLess(k.1, l.1)
      ensures s'.history[k].modRev < s'.history[l].modRev
    {
      if k == (n, z.version) {
        if l != k {
          StringLessTransitive(z.version, l.1, z.version);
        }
      }
    }
  }

  lemma HistoryGrows(s: Store, s': Store, n: string, v: string)
    requires s.history.Keys <= s'.history.Keys && Superseded(s, n, v)
    ensures Superseded(s', n, v)
  {
    var k :| k in s.history && k.0 == n && StringLess(v, k.1);
    assert k in s'.history;
  }

  lemma CommittingKeepsNewest(valid: Zone -> bool, s: Store, p: Phase)
    requires StoreInv(s) && ClientInv(valid, s, p) && Committable(valid, p) && AllHold(s, TxnOf(valid, p).0)
    requires (forall m :: CurrentIsNewest(s, m)) && CommitOrder(s)
    requires forall z, k :: Stores(valid, p, z) && k in s.history && k.0 == p.op.Target() ==> StringLess(k.1, z.version)
    ensures var t := Committing(valid, s, p);
            (forall m :: CurrentIsNewest(t, m)) && CommitOrder(t) && s.history.Keys <= t.history.Keys
  {
    var n, t := p.op.Target(), Committing(valid, s, p);
    GuardMeaning(valid, s, p);
    if p.PendingCreate? {
      assert Stores(valid, p, p.zone);
      ZoneWriteKeepsHistory(s, n, p.zone);
    } else if p.op.Update? {
      var z := PrepareForUpdate(valid, p.op.zone, p.seen, p.op.env).zone;
      assert Stores(valid, p, z);
      ZoneWriteKeepsHistory(s, n, z);
    } else {
      forall m ensures CurrentIsNewest(t, m) {
        assert CurrentIsNewest(s, m);
      }
    }
  }

  lemma CommitKeepsHistoryInv(valid: Zone -> bool, s: System, id: nat, delivery: Delivery)
    requires Inv(valid, s) && HistoryInv(s) && Enabled(valid, s, Commit(id, delivery))
    requires Effect(valid, s, Commit(id, delivery)) != []
    requires InOrder(valid, s, Commit(id, delivery))
    ensures HistoryInv(Next(valid, s, Commit(id, delivery)))
  {
    var s' := Next(valid, s, Commit(id, delivery));
    CommitStepShape(valid, s, id, delivery);
    assert ClientInv(valid, s.store, s.clients[id]);
    CommittingKeepsNewest(valid, s.store, s.clients[id]);
    forall c, v | c in s'.cleaners && v in s'.cleaners[c].doomed
      ensures Superseded(s'.store, s'.cleaners[c].name, v)
    {
      HistoryGrows(s.store, s'.store, s.cleaners[c].name, v);
    }
  }

  lemma StepKeepsHistoryInv(valid: Zone -> bool, s: System, step: Step)
    requires Inv(valid, s) && HistoryInv(s) && Enabled(valid, s, step) && InOrder(valid, s, step)
    ensures HistoryInv(Next(valid, s, step))
  {
    var s' := Next(valid, s, step);
    match step
    case Commit(id, delivery) =>
      if Effect(valid, s, step) != [] {
        CommitKeepsHistoryInv(valid, s, id, delivery);
      } else {
        CommitStepShape(valid, s, id, delivery);
      }
    case CleanupDelete(id, v) => CleanupKeepsHistoryInv(valid, s, id, v);
    case BeginCleanup(id, n) =>
      forall c, v | c in s'.cleaners && v in s'.cleaners[c].doomed
        ensures Superseded(s'.store, s'.cleaners[c].name, v)
      {
        if c == id {
          DoomedIsSuperseded(s.store, n, v);
        }
      }
    case _ =>
  }

  /** A committed metadata update stores the DNSSEC part it was given, touches neither the version key nor
      the history, and leaves version, serial and records of the zone as they are. */
  lemma MetadataKeepsRevision(valid: Zone -> bool, s: System, id: nat, delivery: Delivery)
    requires Inv(valid, s) && Enabled(valid, s, Commit(id, delivery))
    requires s.clients[id].op.SetDnssec? && Effect(valid, s, Commit(id, delivery)) != []
    ensures var n := s.clients[id].op.Target();
            var t := Next(valid, s, Commit(id, delivery)).store;
            && t.versions == s.store.versions && t.history == s.store.history
            && n in s.store.zones && n in t.zones
            && var before, after := s.store.zones[n].value, t.zones[n].value;
            && SameRevision(before, after)
            && after.version == before.version && after.soa == before.soa && after.records == before.records
            && after.dnssec == s.clients[id].op.dnssec && after.updatedAt == s.clients[id].op.now
  {
    CommitStepShape(valid, s, id, delivery);
    assert ClientInv(valid, s.store, s.clients[id]);
    GuardMeaning(valid, s.store, s.clients[id]);
  }

  ghost predicate RunInOrder(valid: Zone -> bool, steps: seq<Step>)
    requires Legal(valid, INIT, steps)
  {
    steps == [] ||
    (RunInOrder(valid, steps[..|steps| - 1])
     && InOrder(valid, Run(valid, INIT, steps[..|steps| - 1]), steps[|steps| - 1]))
  }

  /** In every reachable state: the current version's snapshot is in the history and agrees with the
      zone up to metadata, it is the newest entry, and version order is commit order, so the
      descending listing is newest first. No interleaved cleanup ever drops the current snapshot. */
  lemma {:induction false} HistoryIsSound(valid: Zone -> bool, steps: seq<Step>)
    requires Legal(valid, INIT, steps) && RunInOrder(valid, steps)
    ensures HistoryInv(Run(valid, INIT, steps))
  {
    if steps != [] {
      var before := steps[..|steps| - 1];
      HistoryIsSound(valid, before);
      Refinement(valid, before);
      StepKeepsHistoryInv(valid, Run(valid, INIT, before), steps[|steps| - 1]);
    }
  }

  // ----- without that order -----

  /** A cleanup keeps what its listing doomed until it deletes it, each version once. */
  lemma {:induction false} CleanerPersists(valid: Zone -> bool, s0: System, steps: seq<Step>, id: nat, v: string)
    requires Legal(valid, s0, steps) && id in s0.cleaners
    ensures var t := Run(valid, s0, steps);
            && id in t.cleaners && t.cleaners[id].name == s0.cleaners[id].name
            && (v in t.cleaners[id].doomed <==> v in s0.cleaners[id].doomed && CleanupDelete(id, v) !in steps)
  {
    if steps != [] {
      var before := steps[..|steps| - 1];
      CleanerPersists(valid, s0, before, id, v);
      assert steps == before + [steps[|steps| - 1]];
    }
  }

  /** Exactly when a cleanup that listed the versions in s0 can drop the current snapshot later on,
      whatever happened in between: the version current by then was in that listing with RETENTION
      newer ones above it, and this cleanup has not deleted it yet. */
  lemma CleanupDropsCurrentIff(valid: Zone -> bool, s0: System, n: string, id: nat, steps: seq<Step>)
    requires id !in s0.cleaners && Legal(valid, Next(valid, s0, BeginCleanup(id, n)), steps)
    requires n in Run(valid, Next(valid, s0, BeginCleanup(id, n)), steps).store.zones
    ensures var t := Run(valid, Next(valid, s0, BeginCleanup(id, n)), steps);
            var v := t.store.zones[n].value.version;
            && (Enabled(valid, t, CleanupDelete(id, v))
                <==> && v in Versions(s0.store, n) && |Newer(Versions(s0.store, n), v)| >= RETENTION
                     && CleanupDelete(id, v) !in steps)
            && (Enabled(valid, t, CleanupDelete(id, v)) ==>
                 var u := Next(valid, t, CleanupDelete(id, v)).store;
                 n in u.zones && u.zones[n].value.version == v && (n, v) !in u.history)
  {
    var s1 := Next(valid, s0, BeginCleanup(id, n));
    CleanerPersists(valid, s1, steps, id, Run(valid, s1, steps).store.zones[n].value.version);
  }

  lemma Extend(valid: Zone -> bool, s0: System, steps: seq<Step>, step: Step)
    requires Legal(valid, s0, steps) && Enabled(valid, Run(valid, s0, steps), step)
    ensures Legal(valid, s0, steps + [step])
    ensures Run(valid, s0, steps + [step]) == Next(valid, Run(valid, s0, steps), step)
  {
    assert (steps + [step])[..|steps|] == steps;
  }

  /** Version names that sort by length. */
  function Mark(k: nat): (s: string)
    ensures |s| == k
  {
    if k == 0 then "" else ['a'] + Mark(k - 1)
  }

  lemma {:induction false} MarksAscend(i: nat, j: nat)
    requires i < j
    ensures StringLess(Mark(i), Mark(j))
  {
    if i > 0 {
      MarksAscend(i - 1, j - 1);
      assert Mark(i)[1..] == Mark(i - 1) && Mark(j)[1..] == Mark(j - 1);
    }
  }

  ghost function Marks(lo: nat, hi: nat): set<string> {
    set k | lo <= k < hi :: Mark(k)
  }

  lemma {:induction false} MarksCount(lo: nat, hi: nat)
    requires lo <= hi
    ensures |Marks(lo, hi)| == hi - lo
    decreases hi - lo
  {
    if lo < hi {
      MarksCount(lo, hi - 1);
      assert Marks(lo, hi) == Marks(lo, hi - 1) + {Mark(hi - 1)};
      assert Mark(hi - 1) !in Marks(lo, hi - 1);
    } else {
      assert Marks(lo, hi) == {};
    }
  }

  /** w is zone under its normalized name, with any version, serial and times. */
  ghost predicate Variant(zone: Zone, w: Zone) {
    w == zone.(name := NormalizeZoneName(zone.name), version := w.version, soa := zone.soa.(serial := w.soa.serial),
    createdAt := w.createdAt, updatedAt := w.updatedAt)
  }

  /** Zone n exists, client 0 is idle, no cleanup has started, the current version is Mark(lo), and the
      history holds all of Mark(lo), ..., Mark(hi - 1). */
  ghost predicate Descended(valid: Zone -> bool, s: System, n: string, lo: nat, hi: nat) {
    && Inv(valid, s) && s.cleaners == map[]
    && (0 in s.clients ==> s.clients[0].Finished?)
    && n in s.store.zones && s.store.zones[n].value.version == Mark(lo)
    && (forall k :: lo <= k < hi ==> (n, Mark(k)) in s.store.history)
  }

  /** The update has read zone n and is about to commit. */
  ghost predicate AboutToCommit(valid: Zone -> bool, s: System, op: Op, lo: nat, hi: nat) {
    && op.Update? && Inv(valid, s) && s.cleaners == map[]
    && op.Target() in s.store.zones && 0 in s.clients
    && s.clients[0] == Pending(op, s.store.zones[op.Target()].value, s.store.zones[op.Target()].modRev)
    && Committable(valid, s.clients[0])
    && PrepareForUpdate(valid, op.zone, s.clients[0].seen, op.env).zone.version == Mark(lo)
    && (forall k :: lo < k < hi ==> (op.Target(), Mark(k)) in s.store.history)
  }

  lemma BeginUpdate(valid: Zone -> bool, s: System, zone: Zone, env: Env, lo: nat, hi: nat)
    requires lo > 0 && zone.version == Mark(lo)
    requires Descended(valid, s, NormalizeZoneName(zone.name), lo + 1, hi)
    requires forall w: Zone :: Variant(zone, w) ==> valid(w)
    ensures var begin := Begin(0, Update(zone, "", env), true);
            Enabled(valid, s, begin) && AboutToCommit(valid, Next(valid, s, begin), Update(zone, "", env), lo, hi)
  {
    var op := Update(zone, "", env);
    OtherStepKeepsInv(valid, s, Begin(0, op, true));
    assert zone.version != s.store.zones[op.Target()].value.version;
    assert PrepareForUpdate(valid, zone, s.store.zones[op.Target()].value, env).Ready?;
  }

  lemma CommitUpdate(valid: Zone -> bool, s: System, op: Op, lo: nat, hi: nat)
    requires AboutToCommit(valid, s, op, lo, hi)
    ensures Enabled(valid, s, Commit(0, Answered))
    ensures Descended(valid, Next(valid, s, Commit(0, Answered)), op.Target(), lo, hi)
  {
    GuardMeaning(valid, s.store, s.clients[0]);
    CommitStepShape(valid, s, 0, Answered);
    CommitStepKeepsInv(valid, s, 0, Answered);
  }

  /** One uncontended update with a version chosen by the caller. */
  lemma UpdateRound(valid: Zone -> bool, s: System, zone: Zone, env: Env, lo: nat, hi: nat)
    requires lo > 0 && zone.version == Mark(lo)
    requires Descended(valid, s, NormalizeZoneName(zone.name), lo + 1, hi)
    requires forall w: Zone :: Variant(zone, w) ==> valid(w)
    ensures var begin := Begin(0, Update(zone, "", env), true);
            && Enabled(valid, s, begin)
            && Enabled(valid, Next(valid, s, begin), Commit(0, Answered))
            && Descended(valid, Next(valid, Next(valid, s, begin), Commit(0, Answered)), NormalizeZoneName(zone.name), lo, hi)
  {
    var op := Update(zone, "", env);
    BeginUpdate(valid, s, zone, env, lo, hi);
    CommitUpdate(valid, Next(valid, s, Begin(0, op, true)), op, lo, hi);
  }

  lemma CreateRound(valid: Zone -> bool, zone: Zone, env: Env, lo: nat)
    requires lo > 0 && zone.version == Mark(lo)
    requires forall w: Zone :: Variant(zone, w) ==> valid(w)
    ensures var begin := Begin(0, Create(zone, env), true);
            && Enabled(valid, INIT, begin)
            && Enabled(valid, Next(valid, INIT, begin), Commit(0, Answered))
            && Descended(valid, Next(valid, Next(valid, INIT, begin), Commit(0, Answered)),
                         NormalizeZoneName(zone.name), lo, lo + 1)
  {
    var op := Create(zone, env);
    var s1 := Next(valid, INIT, Begin(0, op, true));
    OtherStepKeepsInv(valid, INIT, Begin(0, op, true));
    assert PrepareForCreate(valid, zone, env).Ready?;
    GuardMeaning(valid, s1.store, s1.clients[0]);
    CommitStepShape(valid, s1, 0, Answered);
    CommitStepKeepsInv(valid, s1, 0, Answered);
  }

  /** A client that creates the zone with version Mark(hi - 1) and then updates it with ever smaller ones. */
  lemma {:induction false} DescendingRun(valid: Zone -> bool, zone: Zone, env: Env, lo: nat, hi: nat)
    returns (steps: seq<Step>)
    requires 0 < lo < hi
    requires forall w: Zone :: Variant(zone, w) ==> valid(w)
    ensures Legal(valid, INIT, steps)
    ensures Descended(valid, Run(valid, INIT, steps), NormalizeZoneName(zone.name), lo, hi)
    decreases hi - lo
  {
    var z := zone.(version := Mark(lo));
    var begin: Step;
    if lo == hi - 1 {
      steps, begin := [], Begin(0, Create(z, env), true);
      CreateRound(valid, z, env, lo);
    } else {
      steps := DescendingRun(valid, zone, env, lo + 1, hi);
      begin := Begin(0, Update(z, "", env), true);
      UpdateRound(valid, Run(valid, INIT, steps), z, env, lo, hi);
    }
    Extend(valid, INIT, steps, begin);
    Extend(valid, INIT, steps + [begin], Commit(0, Answered));
    steps := steps + [begin] + [Commit(0, Answered)];
  }

  /** The promise does fail: for every zone there is a run from the empty store, of one client whose
      versions come in descending order, after which a cleanup drops the current snapshot. */
  lemma CurrentSnapshotCanBeLost(valid: Zone -> bool, zone: Zone, env: Env) returns (steps: seq<Step>)
    requires forall w: Zone :: Variant(zone, w) ==> valid(w)
    ensures Legal(valid, INIT, steps)
    ensures var t, n := Run(valid, INIT, steps).store, NormalizeZoneName(zone.name);
            n in t.zones && (n, t.zones[n].value.version) !in t.history
  {
    var n := NormalizeZoneName(zone.name);
    steps := DescendingRun(valid, zone, env, 1, RETENTION + 2);
    var s0 := Run(valid, INIT, steps);
    ManyNewer(s0.store, n);
    var begin, delete := BeginCleanup(0, n), CleanupDelete(0, Mark(1));
    assert Next(valid, s0, begin).store == s0.store;
    assert (n, Mark(1)) in s0.store.history && Mark(1) in Versions(s0.store, n);
    Extend(valid, INIT, steps, begin);
    Extend(valid, INIT, steps + [begin], delete);
    steps := steps + [begin] + [delete];
  }

  lemma ManyNewer(s: Store, n: string)
    requires forall k :: 1 <= k < RETENTION + 2 ==> (n, Mark(k)) in s.history
    ensures |Newer(Versions(s, n), Mark(1))| >= RETENTION
  {
    forall v | v in Marks(2, RETENTION + 2) ensures v in Newer(Versions(s, n), Mark(1)) {
      var k :| 2 <= k < RETENTION + 2 && v == Mark(k);
      MarksAscend(1, k);
      assert (n, v) in s.history;
    }
    MarksCount(2, RETENTION + 2);
    SubsetSize(Marks(2, RETENTION + 2), Newer(Versions(s, n), Mark(1)));
  }
}
