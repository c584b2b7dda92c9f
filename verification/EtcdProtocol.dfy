/** Any number of controllers sharing one etcd: every operation is a read step and a commit step,
    and the steps of different clients interleave freely. The in-process zone mutex is not used. */
module EtcdProtocol {
  import opened Ordering
  import opened ZoneModel
  import opened MemoryStore
  import opened EtcdServer

  // ----- one client -----

  datatype Phase =
    | PendingCreate(op: Op, zone: Zone)
    | Pending(op: Op, seen: Zone, modRev: nat)
    | Rechecking(op: Op, seen: Zone, modRev: nat)
    | Finished(op: Op, outcome: Outcome)

  /** What the client does with the answer to its first Get (a create does not read). */
  function AfterGet(valid: Zone -> bool, op: Op, found: Option<Entry<Zone>>): Phase {
    match op
    case Create(zone, env) => (
      match PrepareForCreate(valid, zone, env)
      case Failed(why) => Finished(op, why)
      case Ready(w) => PendingCreate(op, w))
    case Update(zone, expected, env) =>
      if found.None? then Finished(op, NotFound)
      else if expected != "" && found.value.value.version != expected then Finished(op, Conflict)
      else (
        match PrepareForUpdate(valid, zone, found.value.value, env)
        case Failed(why) => Finished(op, why)
        case Ready(_) => Pending(op, found.value.value, found.value.modRev))
    case _ =>
      if found.None? then Finished(op, NotFound)
      else Pending(op, found.value.value, found.value.modRev)
  }

  function ZoneWrites(n: string, z: Zone): seq<Write> {
    [PutZone(n, z), PutVersion(n, z.version), PutHistory(n, z.version, z)]
  }

  function VersionCheck(n: string, expected: string): seq<Cmp> {
    if expected != "" then [VersionIs(n, expected)] else []
  }

  predicate Committable(valid: Zone -> bool, p: Phase) {
    match p
    case PendingCreate(op, _) => op.Create?
    case Pending(op, seen, _) =>
      !op.Create? && (op.Update? ==> PrepareForUpdate(valid, op.zone, seen, op.env).Ready?)
    case _ => false
  }

  /** The transaction a pending client submits. */
  function TxnOf(valid: Zone -> bool, p: Phase): (seq<Cmp>, seq<Write>)
    requires Committable(valid, p)
  {
    var n := p.op.Target();
    match p
    case PendingCreate(_, w) => ([ZoneAbsent(n)], ZoneWrites(n, w))
    case Pending(op, seen, rev) => (
      match op
      case Update(zone, expected, env) =>
        ([ZoneModRev(n, rev)] + VersionCheck(n, expected),
         ZoneWrites(n, PrepareForUpdate(valid, zone, seen, env).zone))
      case SetDnssec(_, dnssec, now) =>
        ([ZoneModRev(n, rev)], [PutZone(n, WithDnssec(seen, dnssec, now))])
      case Delete(_) => ([ZoneModRev(n, rev)], [DropZone(n), DropVersion(n)])
      case DeleteIf(_, expected) =>
        ([ZoneModRev(n, rev)] + VersionCheck(n, expected), [DropZone(n), DropVersion(n)]))
  }

  /** A refused create or update is reported at once; a metadata update or delete looks again. */
  function AfterCommit(p: Phase, succeeded: bool): Phase
    requires p.PendingCreate? || p.Pending?
  {
    if succeeded then Finished(p.op, Done)
    else if p.PendingCreate? then Finished(p.op, AlreadyExists)
    else if p.op.Update? then Finished(p.op, Conflict)
    else Rechecking(p.op, p.seen, p.modRev)
  }

  // ----- the whole system -----

  /** A history cleanup in flight: the versions its listing told it to delete and it has not yet deleted. */
  datatype Cleaner = Cleaner(name: string, doomed: set<string>)

  datatype System = System(store: Store, clients: map<nat, Phase>, cleaners: map<nat, Cleaner>)

  const INIT := System(EMPTY, map[], map[])

  /** What the client hears about its request: the answer, or an error that hides whether the
      server acted. */
  datatype Delivery = Answered | LostAfterApply | LostBeforeApply

  datatype Step =
    | Begin(id: nat, op: Op, answered: bool)
    | Commit(id: nat, delivery: Delivery)
    | Recheck(id: nat, answered: bool)
    | BeginCleanup(id: nat, name: string)
    | CleanupDelete(id: nat, version: string)

  const RETENTION := 100

  function Versions(s: Store, n: string): set<string> {
    set k | k in s.history && k.0 == n :: k.1
  }

  /** The versions of a zone that sort above v. */
  function Newer(vs: set<string>, v: string): set<string> {
    set w | w in vs && StringLess(v, w)
  }

  /** Listing by key in descending order and dropping the first RETENTION entries keeps exactly
      the versions with fewer than RETENTION above them (see EtcdHistory.ListDoomed). */
  function Doomed(vs: set<string>): set<string> {
    set v | v in vs && |Newer(vs, v)| >= RETENTION
  }

  function Lookup(s: Store, n: string): Option<Entry<Zone>> {
    if n in s.zones then Some(s.zones[n]) else None
  }

  predicate Enabled(valid: Zone -> bool, s: System, step: Step) {
    match step
    case Begin(id, _, _) => id !in s.clients || s.clients[id].Finished?
    case Commit(id, _) => id in s.clients && Committable(valid, s.clients[id])
    case Recheck(id, _) => id in s.clients && s.clients[id].Rechecking?
    case BeginCleanup(id, _) => id !in s.cleaners
    case CleanupDelete(id, v) => id in s.cleaners && v in s.cleaners[id].doomed
  }

  function Next(valid: Zone -> bool, s: System, step: Step): System
    requires Enabled(valid, s, step)
  {
    match step
    case Begin(id, op, answered) =>
      s.(clients := s.clients[id :=
        if answered || op.Create? then AfterGet(valid, op, Lookup(s.store, op.Target()))
        else Finished(op, Unavailable)])
    case Commit(id, delivery) =>
      var op := s.clients[id].op;
      var (cs, ws) := TxnOf(valid, s.clients[id]);
      var (store, succeeded) := Txn(s.store, cs, ws);
      if delivery == LostBeforeApply then s.(clients := s.clients[id := Finished(op, Unavailable)])
      else if delivery == LostAfterApply then
        s.(store := store, clients := s.clients[id := Finished(op, Unavailable)])
      else s.(store := store, clients := s.clients[id := AfterCommit(s.clients[id], succeeded)])
    case Recheck(id, answered) =>
      var op := s.clients[id].op;
      var outcome := if !answered then Unavailable
                     else if op.Target() in s.store.zones then Conflict else NotFound;
      s.(clients := s.clients[id := Finished(op, outcome)])
    case BeginCleanup(id, n) =>
      s.(cleaners := s.cleaners[id := Cleaner(n, Doomed(Versions(s.store, n)))])
    case CleanupDelete(id, v) =>
      var n := s.cleaners[id].name;
      s.(store := if (n, v) in s.store.history
                  then s.store.(history := s.store.history - {(n, v)}, rev := s.store.rev + 1)
                  else s.store,
         cleaners := s.cleaners[id := Cleaner(n, s.cleaners[id].doomed - {v})])
  }

  /** The operation a step makes take effect, if any. */
  function Effect(valid: Zone -> bool, s: System, step: Step): seq<Op>
    requires Enabled(valid, s, step)
  {
    if step.Commit? && step.delivery != LostBeforeApply
       && AllHold(s.store, TxnOf(valid, s.clients[step.id]).0)
    then [s.clients[step.id].op] else []
  }

  /** A run from s0: every step enabled where it happens. */
  ghost predicate Legal(valid: Zone -> bool, s0: System, steps: seq<Step>)
    decreases steps, 0
  {
    steps == [] ||
    (var before := steps[..|steps| - 1];
     Legal(valid, s0, before) && Enabled(valid, Run(valid, s0, before), steps[|steps| - 1]))
  }

  ghost function Run(valid: Zone -> bool, s0: System, steps: seq<Step>): System
    requires Legal(valid, s0, steps)
    decreases steps, 1
  {
    if steps == [] then s0
    else Next(valid, Run(valid, s0, steps[..|steps| - 1]), steps[|steps| - 1])
  }

  /** The operations that took effect, in commit order. */
  ghost function Committed(valid: Zone -> bool, s0: System, steps: seq<Step>): seq<Op>
    requires Legal(valid, s0, steps)
  {
    if steps == [] then []
    else Committed(valid, s0, steps[..|steps| - 1])
         + Effect(valid, Run(valid, s0, steps[..|steps| - 1]), steps[|steps| - 1])
  }

  // ----- invariant -----

  ghost predicate StoreInv(s: Store) {
    && s.versions.Keys == s.zones.Keys
    && (forall n :: n in s.zones ==>
         && s.zones[n].value.name == n
         && s.versions[n].value == s.zones[n].value.version
         && 1 <= s.zones[n].createRev <= s.zones[n].modRev <= s.rev)
    && (forall k :: k in s.history ==>
         && s.history[k].value.name == k.0
         && s.history[k].value.version == k.1
         && 1 <= s.history[k].modRev <= s.rev)
  }

  /** The zone was changed or removed since revision rev was read. */
  ghost predicate Overtaken(s: Store, op: Op, rev: nat) {
    op.Target() !in s.zones || s.zones[op.Target()].modRev != rev
  }

  /** The version that was read is not the expected one. */
  ghost predicate Mismatched(op: Op, seen: Zone) {
    op.DeleteIf? && op.expected != "" && seen.version != op.expected
  }

  /** A revision read once names one value forever, and a refused transaction had a reason that stays. */
  ghost predicate ClientInv(valid: Zone -> bool, s: Store, p: Phase) {
    match p
    case PendingCreate(op, w) => op.Create? && PrepareForCreate(valid, op.zone, op.env) == Ready(w)
    case Pending(op, seen, rev) =>
      && Committable(valid, p)
      && seen.name == op.Target()
      && 1 <= rev <= s.rev
      && (op.Target() in s.zones && s.zones[op.Target()].modRev == rev ==> s.zones[op.Target()].value == seen)
      && (op.Update? && op.expected != "" ==> seen.version == op.expected)
    case Rechecking(op, seen, rev) =>
      && !op.Create? && !op.Update?
      && rev <= s.rev
      && (Overtaken(s, op, rev) || Mismatched(op, seen))
    case Finished(_, _) => true
  }

  ghost predicate Inv(valid: Zone -> bool, s: System) {
    && StoreInv(s.store)
    && (forall id :: id in s.clients ==> ClientInv(valid, s.store, s.clients[id]))
  }

  /** The zones a reader sees. */
  ghost function Abs(s: Store): map<string, Zone> {
    map n | n in s.zones :: s.zones[n].value
  }

  // ----- what one committed transaction does -----

  ghost function WithZone(s: Store, n: string, z: Zone): Store {
    s.(zones := Put(s.zones, n, z, s.rev + 1),
       versions := Put(s.versions, n, z.version, s.rev + 1),
       history := Put(s.history, (n, z.version), z, s.rev + 1),
       rev := s.rev + 1)
  }

  ghost function WithMetadata(s: Store, n: string, z: Zone): Store {
    s.(zones := Put(s.zones, n, z, s.rev + 1), rev := s.rev + 1)
  }

  ghost function WithoutZone(s: Store, n: string): Store {
    s.(zones := s.zones - {n}, versions := s.versions - {n}, rev := s.rev + 1)
  }

  /** The server state after the transaction of a pending client whose comparisons hold. */
  ghost function Committing(valid: Zone -> bool, s: Store, p: Phase): Store
    requires Committable(valid, p)
  {
    var n := p.op.Target();
    if p.PendingCreate? then WithZone(s, n, p.zone)
    else
      match p.op
      case Update(zone, _, env) => WithZone(s, n, PrepareForUpdate(valid, zone, p.seen, env).zone)
      case SetDnssec(_, dnssec, now) => WithMetadata(s, n, WithDnssec(p.seen, dnssec, now))
      case _ => WithoutZone(s, n)
  }

  lemma OneWrite(s: Store, ws: seq<Write>, rev: nat)
    requires |ws| == 1
    ensures AllWritten(s, ws, rev) == Written(s, ws[0], rev)
  {
    assert ws[1..] == [];
  }

  lemma TwoWrites(s: Store, ws: seq<Write>, rev: nat)
    requires |ws| == 2
    ensures AllWritten(s, ws, rev) == Written(Written(s, ws[0], rev), ws[1], rev)
  {
    OneWrite(Written(s, ws[0], rev), ws[1..], rev);
  }

  lemma ThreeWrites(s: Store, ws: seq<Write>, rev: nat)
    requires |ws| == 3
    ensures AllWritten(s, ws, rev) == Written(Written(Written(s, ws[0], rev), ws[1], rev), ws[2], rev)
  {
    TwoWrites(Written(s, ws[0], rev), ws[1..], rev);
  }

  lemma CompareList(s: Store, cs: seq<Cmp>)
    ensures |cs| == 1 ==> (AllHold(s, cs) <==> Holds(s, cs[0]))
    ensures |cs| == 2 ==> (AllHold(s, cs) <==> Holds(s, cs[0]) && Holds(s, cs[1]))
  {
    if |cs| == 2 {
      CompareList(s, cs[1..]);
    }
  }

  lemma ZoneWritesMeaning(s: Store, n: string, z: Zone, ws: seq<Write>)
    requires |ws| == 3 && ws[0] == PutZone(n, z) && ws[1] == PutVersion(n, z.version) && ws[2] == PutHistory(n, z.version, z)
    ensures AllWritten(s, ws, s.rev + 1).(rev := s.rev + 1) == WithZone(s, n, z)
  {
    ThreeWrites(s, ws, s.rev + 1);
  }

  lemma MetadataWriteMeaning(s: Store, n: string, z: Zone, ws: seq<Write>)
    requires |ws| == 1 && ws[0] == PutZone(n, z)
    ensures AllWritten(s, ws, s.rev + 1).(rev := s.rev + 1) == WithMetadata(s, n, z)
  {
    OneWrite(s, ws, s.rev + 1);
  }

  lemma DropWritesMeaning(s: Store, n: string, ws: seq<Write>)
    requires |ws| == 2 && ws[0] == DropZone(n) && ws[1] == DropVersion(n)
    ensures AllWritten(s, ws, s.rev + 1).(rev := s.rev + 1) == WithoutZone(s, n)
  {
    TwoWrites(s, ws, s.rev + 1);
  }

  lemma TxnMeaning(valid: Zone -> bool, s: Store, p: Phase)
    requires Committable(valid, p)
    ensures AllWritten(s, TxnOf(valid, p).1, s.rev + 1).(rev := s.rev + 1) == Committing(valid, s, p)
  {
    var n, ws := p.op.Target(), TxnOf(valid, p).1;
    if p.PendingCreate? {
      ZoneWritesMeaning(s, n, p.zone, ws);
    } else if p.op.Update? {
      ZoneWritesMeaning(s, n, PrepareForUpdate(valid, p.op.zone, p.seen, p.op.env).zone, ws);
    } else if p.op.SetDnssec? {
      MetadataWriteMeaning(s, n, WithDnssec(p.seen, p.op.dnssec, p.op.now), ws);
    } else {
      DropWritesMeaning(s, n, ws);
    }
  }

  /** When the comparisons of a pending client hold. */
  lemma GuardMeaning(valid: Zone -> bool, s: Store, p: Phase)
    requires StoreInv(s) && ClientInv(valid, s, p) && Committable(valid, p)
    ensures var n := p.op.Target();
            AllHold(s, TxnOf(valid, p).0)
            <==> if p.PendingCreate? then n !in s.zones
                 else
                   && n in s.zones && s.zones[n].modRev == p.modRev
                   && (p.op.DeleteIf? && p.op.expected != "" ==> p.seen.version == p.op.expected)
  {
    CompareList(s, TxnOf(valid, p).0);
  }

  lemma ZoneWriteKeepsInv(s: Store, n: string, z: Zone)
    requires StoreInv(s) && z.name == n
    ensures StoreInv(WithZone(s, n, z)) && Abs(WithZone(s, n, z)) == Abs(s)[n := z]
  {
  }

  lemma MetadataWriteKeepsInv(s: Store, n: string, z: Zone)
    requires StoreInv(s) && n in s.zones && z.name == n && z.version == s.zones[n].value.version
    ensures StoreInv(WithMetadata(s, n, z)) && Abs(WithMetadata(s, n, z)) == Abs(s)[n := z]
  {
  }

  lemma DropKeepsInv(s: Store, n: string)
    requires StoreInv(s)
    ensures StoreInv(WithoutZone(s, n)) && Abs(WithoutZone(s, n)) == Abs(s) - {n}
  {
  }

  /** A successful commit acts as the atomic operation on exactly the zone value the client read. */
  lemma CommitIsAtomic(valid: Zone -> bool, s: Store, p: Phase)
    requires StoreInv(s) && ClientInv(valid, s, p) && Committable(valid, p)
    requires AllHold(s, TxnOf(valid, p).0)
    ensures p.Pending? ==> p.op.Target() in s.zones && s.zones[p.op.Target()].value == p.seen
    ensures Apply(valid, p.op, Abs(s)) == (Abs(Committing(valid, s, p)), Done)
    ensures StoreInv(Committing(valid, s, p))
  {
    var n := p.op.Target();
    GuardMeaning(valid, s, p);
    if p.PendingCreate? {
      ZoneWriteKeepsInv(s, n, p.zone);
    } else if p.op.Update? {
      ZoneWriteKeepsInv(s, n, PrepareForUpdate(valid, p.op.zone, p.seen, p.op.env).zone);
    } else if p.op.SetDnssec? {
      MetadataWriteKeepsInv(s, n, WithDnssec(p.seen, p.op.dnssec, p.op.now));
    } else {
      DropKeepsInv(s, n);
    }
  }

  /** A zone key that changes gets a revision never seen before. */
  lemma CommitUsesNewRevision(valid: Zone -> bool, s: Store, p: Phase, m: string)
    requires Committable(valid, p)
    ensures var after := Committing(valid, s, p);
            && after.rev == s.rev + 1
            && (m in after.zones ==> after.zones[m].modRev == s.rev + 1 || Lookup(after, m) == Lookup(s, m))
  {
  }

  lemma ClientSurvives(valid: Zone -> bool, s: Store, p: Phase, other: Phase)
    requires StoreInv(s) && ClientInv(valid, s, p) && Committable(valid, p)
    requires ClientInv(valid, s, other)
    ensures ClientInv(valid, Committing(valid, s, p), other)
  {
    if other.Pending? || other.Rechecking? {
      CommitUsesNewRevision(valid, s, p, other.op.Target());
    }
  }

  // ----- every step -----

  /** The state after a commit step: the client is done or rechecks, and the store is as before or,
      if the step takes effect, as the transaction leaves it. */
  lemma CommitStepShape(valid: Zone -> bool, s: System, id: nat, delivery: Delivery)
    requires Enabled(valid, s, Commit(id, delivery))
    ensures var p := s.clients[id];
            var s' := Next(valid, s, Commit(id, delivery));
            if Effect(valid, s, Commit(id, delivery)) == [] then
              s' == s.(clients := s'.clients) && s'.clients == s.clients[id := s'.clients[id]]
              && (s'.clients[id].Finished?
                  || (p.Pending? && !p.op.Update? && s'.clients[id] == Rechecking(p.op, p.seen, p.modRev)
                      && !AllHold(s.store, TxnOf(valid, p).0)))
            else
              Effect(valid, s, Commit(id, delivery)) == [p.op]
              && AllHold(s.store, TxnOf(valid, p).0)
              && s'.clients[id].Finished?
              && s' == s.(store := Committing(valid, s.store, p), clients := s.clients[id := s'.clients[id]])
  {
    TxnMeaning(valid, s.store, s.clients[id]);
  }

  /** Losing the reply changes what the client learns and nothing else; a request lost on its way changes
      nothing in the store. */
  lemma LostReplies(valid: Zone -> bool, s: System, id: nat)
    requires Enabled(valid, s, Commit(id, Answered))
    ensures Next(valid, s, Commit(id, LostAfterApply)).store == Next(valid, s, Commit(id, Answered)).store
    ensures Next(valid, s, Commit(id, LostBeforeApply)).store == s.store
    ensures forall d :: d != Answered ==>
              Next(valid, s, Commit(id, d)).clients[id] == Finished(s.clients[id].op, Unavailable)
  {
  }

  lemma EffectKeepsInv(valid: Zone -> bool, s: System, id: nat, done: Phase)
    requires Inv(valid, s) && id in s.clients && Committable(valid, s.clients[id]) && done.Finished?
    requires AllHold(s.store, TxnOf(valid, s.clients[id]).0)
    ensures Inv(valid, s.(store := Committing(valid, s.store, s.clients[id]), clients := s.clients[id := done]))
    ensures Apply(valid, s.clients[id].op, Abs(s.store)) == (Abs(Committing(valid, s.store, s.clients[id])), Done)
  {
    var p := s.clients[id];
    assert ClientInv(valid, s.store, p);
    CommitIsAtomic(valid, s.store, p);
    forall other | other in s.clients && other != id
      ensures ClientInv(valid, Committing(valid, s.store, p), s.clients[other])
    {
      ClientSurvives(valid, s.store, p, s.clients[other]);
    }
  }

  lemma CommitStepKeepsInv(valid: Zone -> bool, s: System, id: nat, delivery: Delivery)
    requires Inv(valid, s) && Enabled(valid, s, Commit(id, delivery))
    ensures Inv(valid, Next(valid, s, Commit(id, delivery)))
    ensures var s' := Next(valid, s, Commit(id, delivery));
            var effect := Effect(valid, s, Commit(id, delivery));
            if effect == [] then s'.store == s.store
            else Apply(valid, effect[0], Abs(s.store)) == (Abs(s'.store), Done)
  {
    CommitStepShape(valid, s, id, delivery);
    if Effect(valid, s, Commit(id, delivery)) != [] {
      EffectKeepsInv(valid, s, id, Next(valid, s, Commit(id, delivery)).clients[id]);
    } else {
      assert ClientInv(valid, s.store, s.clients[id]);
      GuardMeaning(valid, s.store, s.clients[id]);
    }
  }

  lemma OtherStepKeepsInv(valid: Zone -> bool, s: System, step: Step)
    requires Inv(valid, s) && Enabled(valid, s, step) && !step.Commit?
    ensures Inv(valid, Next(valid, s, step))
    ensures Abs(Next(valid, s, step).store) == Abs(s.store)
  {
    var s' := Next(valid, s, step);
    assert s'.store.zones == s.store.zones && s'.store.rev >= s.store.rev;
    forall other | other in s'.clients ensures ClientInv(valid, s'.store, s'.clients[other]) {
      if other in s.clients {
        assert ClientInv(valid, s.store, s.clients[other]);
      }
    }
  }

  /** What every step keeps, and what it does to the zones a reader sees. */
  lemma StepKeepsInv(valid: Zone -> bool, s: System, step: Step)
    requires Inv(valid, s) && Enabled(valid, s, step)
    ensures Inv(valid, Next(valid, s, step))
    ensures var effect := Effect(valid, s, step);
            if effect == [] then Abs(Next(valid, s, step).store) == Abs(s.store)
            else Apply(valid, effect[0], Abs(s.store)) == (Abs(Next(valid, s, step).store), Done)
  {
    if step.Commit? {
      CommitStepKeepsInv(valid, s, step.id, step.delivery);
    } else {
      OtherStepKeepsInv(valid, s, step);
    }
  }

  /** Replayed alone, one after the other, each of these operations succeeds. */
  ghost predicate AllSucceed(valid: Zone -> bool, ops: seq<Op>) {
    ops == [] ||
    (var before := ops[..|ops| - 1];
     AllSucceed(valid, before) && Apply(valid, ops[|ops| - 1], ApplyAll(valid, before, map[])).1 == Done)
  }

  /** Refinement: whatever the interleaving and whatever replies get lost, the zones in etcd are
      those the atomic store holds after the committed operations, one by one, in commit order;
      and each of them was a successful operation there. */
  lemma {:induction false} Refinement(valid: Zone -> bool, steps: seq<Step>)
    requires Legal(valid, INIT, steps)
    ensures Inv(valid, Run(valid, INIT, steps))
    ensures Abs(Run(valid, INIT, steps).store) == ApplyAll(valid, Committed(valid, INIT, steps), map[])
    ensures AllSucceed(valid, Committed(valid, INIT, steps))
  {
    if steps != [] {
      var before := steps[..|steps| - 1];
      var step := steps[|steps| - 1];
      Refinement(valid, before);
      var s := Run(valid, INIT, before);
      StepKeepsInv(valid, s, step);
      var ops := Committed(valid, INIT, before);
      var effect := Effect(valid, s, step);
      if effect == [] {
        assert ops + effect == ops;
      } else {
        assert (ops + effect)[..|ops|] == ops;
      }
    }
  }

  lemma {:induction false} EachSucceeds(valid: Zone -> bool, ops: seq<Op>, k: nat)
    requires AllSucceed(valid, ops) && k < |ops|
    ensures Succeeds(valid, ops, map[], k)
  {
    var before := ops[..|ops| - 1];
    if k < |ops| - 1 {
      EachSucceeds(valid, before, k);
      assert before[..k] == ops[..k];
    }
  }

  /** So in every interleaving, between two committed operations that expected the same version of a
      zone, some commit issued that version again: with versions never reused, one writer wins. */
  lemma OneWriterWins(valid: Zone -> bool, steps: seq<Step>, i: nat, j: nat) returns (k: nat)
    requires Legal(valid, INIT, steps)
    requires var ops := Committed(valid, INIT, steps);
             i < j < |ops| && ops[i].Target() == ops[j].Target() && Expected(ops[i]) == Expected(ops[j]) != ""
    ensures var ops := Committed(valid, INIT, steps);
            i <= k < j && IssuesVersion(valid, ops, map[], k, ops[i].Target(), Expected(ops[i]))
  {
    var ops := Committed(valid, INIT, steps);
    Refinement(valid, steps);
    EachSucceeds(valid, ops, i);
    EachSucceeds(valid, ops, j);
    if forall k | i <= k < j :: !IssuesVersion(valid, ops, map[], k, ops[i].Target(), Expected(ops[i])) {
      OneWinnerPerVersion(valid, ops, map[], i, j);
    }
    k :| i <= k < j && IssuesVersion(valid, ops, map[], k, ops[i].Target(), Expected(ops[i]));
  }

  /** The reply a step gives to client id, if it gives one. */
  ghost function Reply(valid: Zone -> bool, s: System, step: Step): Option<Outcome>
    requires Enabled(valid, s, step)
  {
    if step.BeginCleanup? || step.CleanupDelete? then None
    else
      var p := Next(valid, s, step).clients[step.id];
      if p.Finished? then Some(p.outcome) else None
  }

  ghost function OpOf(s: System, step: Step): Op
    requires step.Begin? || ((step.Commit? || step.Recheck?) && step.id in s.clients)
  {
    if step.Begin? then step.op else s.clients[step.id].op
  }

  /** Every reply but a lost one is the truth about the moment it was decided. Success means the
      operation took effect in this very step; any other reply means it did not, and is what the
      atomic store would have said, except that a conflict may also report that somebody else
      changed the zone since it was read. */
  lemma RepliesAreTrue(valid: Zone -> bool, s: System, step: Step)
    requires Inv(valid, s) && Enabled(valid, s, step)
    requires Reply(valid, s, step).Some?
    ensures var r := Reply(valid, s, step).value;
            var op := OpOf(s, step);
            && (r == Done <==> Effect(valid, s, step) == [op] && step.delivery == Answered)
            && (r !in {Done, Unavailable} ==> Effect(valid, s, step) == [])
            && (r !in {Done, Unavailable, Conflict} ==> Apply(valid, op, Abs(s.store)).1 == r)
            && (r == Conflict && step.Begin? ==> Apply(valid, op, Abs(s.store)).1 == Conflict)
            && (r == Conflict && step.Commit? ==>
                 var p := s.clients[step.id];
                 Lookup(s.store, op.Target()) == None
                 || s.store.zones[op.Target()].modRev != p.modRev)
            && (r == Conflict && step.Recheck? ==>
                 var p := s.clients[step.id];
                 op.Target() in s.store.zones && (Overtaken(s.store, op, p.modRev) || Mismatched(op, p.seen)))
  {
    var op := OpOf(s, step);
    match step
    case Begin(id, _, answered) =>
    case Commit(id, delivery) =>
      GuardMeaning(valid, s.store, s.clients[id]);
    case Recheck(id, answered) =>
      assert ClientInv(valid, s.store, s.clients[id]);
  }

  /** The operation a step reports as done, and the one it makes take effect without a report. */
  ghost function ReportAt(valid: Zone -> bool, s: System, step: Step): seq<Op>
    requires Enabled(valid, s, step)
  {
    if Reply(valid, s, step) == Some(Done) then [OpOf(s, step)] else []
  }

  ghost function LostAt(valid: Zone -> bool, s: System, step: Step): seq<Op>
    requires Enabled(valid, s, step)
  {
    if step.Commit? && step.delivery == LostAfterApply then Effect(valid, s, step) else []
  }

  ghost function Reported(valid: Zone -> bool, s0: System, steps: seq<Step>): seq<Op>
    requires Legal(valid, s0, steps)
  {
    if steps == [] then []
    else Reported(valid, s0, steps[..|steps| - 1])
         + ReportAt(valid, Run(valid, s0, steps[..|steps| - 1]), steps[|steps| - 1])
  }

  ghost function Unreported(valid: Zone -> bool, s0: System, steps: seq<Step>): seq<Op>
    requires Legal(valid, s0, steps)
  {
    if steps == [] then []
    else Unreported(valid, s0, steps[..|steps| - 1])
         + LostAt(valid, Run(valid, s0, steps[..|steps| - 1]), steps[|steps| - 1])
  }

  /** A step reports success exactly when it takes effect and its reply arrives. */
  lemma ReportOfStep(valid: Zone -> bool, s: System, step: Step)
    requires Inv(valid, s) && Enabled(valid, s, step)
    ensures Effect(valid, s, step) == ReportAt(valid, s, step) + LostAt(valid, s, step)
  {
    if Reply(valid, s, step).Some? {
      RepliesAreTrue(valid, s, step);
    }
    if step.Commit? && Effect(valid, s, step) != [] {
      CommitStepShape(valid, s, step.id, step.delivery);
    }
  }

  lemma MultisetStep(c: seq<Op>, r: seq<Op>, u: seq<Op>, e: seq<Op>, a: seq<Op>, b: seq<Op>)
    requires multiset(c) == multiset(r) + multiset(u) && e == a + b
    ensures multiset(c + e) == multiset(r + a) + multiset(u + b)
  {
  }

  /** Over every run from the empty store, what took effect is exactly what was reported as done plus
      what committed while its reply was lost. */
  lemma {:induction false} ReportsMatchCommits(valid: Zone -> bool, steps: seq<Step>)
    requires Legal(valid, INIT, steps)
    ensures multiset(Committed(valid, INIT, steps))
            == multiset(Reported(valid, INIT, steps)) + multiset(Unreported(valid, INIT, steps))
    ensures Unreported(valid, INIT, steps) == [] ==> Reported(valid, INIT, steps) == Committed(valid, INIT, steps)
  {
    if steps != [] {
      var before, step := steps[..|steps| - 1], steps[|steps| - 1];
      var s := Run(valid, INIT, before);
      ReportsMatchCommits(valid, before);
      Refinement(valid, before);
      ReportOfStep(valid, s, step);
      MultisetStep(Committed(valid, INIT, before), Reported(valid, INIT, before), Unreported(valid, INIT, before),
                   Effect(valid, s, step), ReportAt(valid, s, step), LostAt(valid, s, step));
    }
  }

  // ----- no stale writer -----

  /** No step of the run, by anyone, changed this zone's key. */
  ghost predicate Untouched(valid: Zone -> bool, s0: System, steps: seq<Step>, n: string)
    requires Legal(valid, s0, steps)
  {
    steps == [] ||
    (Untouched(valid, s0, steps[..|steps| - 1], n)
     && Lookup(Run(valid, s0, steps).store, n) == Lookup(s0.store, n))
  }

  lemma StepUsesNewRevision(valid: Zone -> bool, s: System, step: Step, n: string)
    requires Inv(valid, s) && Enabled(valid, s, step)
    ensures var t := Next(valid, s, step).store;
            && t.rev >= s.store.rev
            && (n in t.zones ==> Lookup(t, n) == Lookup(s.store, n) || t.zones[n].modRev > s.store.rev)
  {
    if step.Commit? {
      CommitStepShape(valid, s, step.id, step.delivery);
      CommitUsesNewRevision(valid, s.store, s.clients[step.id], n);
    }
  }

  /** Deleting and recreating a zone never brings an old key state back: a key that ends a run as it
      began was not touched in between. */
  lemma {:induction false} ZoneKeyNeverReverts(valid: Zone -> bool, s0: System, steps: seq<Step>, n: string)
    requires Inv(valid, s0) && Legal(valid, s0, steps) && n in s0.store.zones
    ensures var t := Run(valid, s0, steps);
            && Inv(valid, t) && t.store.rev >= s0.store.rev
            && (n in t.store.zones ==>
                 Lookup(t.store, n) == Lookup(s0.store, n) || t.store.zones[n].modRev > s0.store.rev)
            && (Untouched(valid, s0, steps, n) <==> Lookup(t.store, n) == Lookup(s0.store, n))
  {
    if steps != [] {
      var before := steps[..|steps| - 1];
      ZoneKeyNeverReverts(valid, s0, before, n);
      var s := Run(valid, s0, before);
      StepKeepsInv(valid, s, steps[|steps| - 1]);
      StepUsesNewRevision(valid, s, steps[|steps| - 1], n);
    }
  }

  /** No lost update: a client that read the zone in s0 commits later exactly when nobody has touched
      the zone since (for a versioned delete: and the version it read is the expected one). */
  lemma CommitsIffUntouched(valid: Zone -> bool, s0: System, steps: seq<Step>, id: nat)
    requires Inv(valid, s0) && Legal(valid, s0, steps)
    requires id in s0.clients && s0.clients[id].Pending?
    requires var p := s0.clients[id];
             Lookup(s0.store, p.op.Target()).Some? && s0.store.zones[p.op.Target()].modRev == p.modRev
    requires var t := Run(valid, s0, steps); id in t.clients && t.clients[id] == s0.clients[id]
    ensures var p := s0.clients[id];
            AllHold(Run(valid, s0, steps).store, TxnOf(valid, p).0)
            <==> && Untouched(valid, s0, steps, p.op.Target())
                 && (p.op.DeleteIf? && p.op.expected != "" ==> p.seen.version == p.op.expected)
  {
    var p := s0.clients[id];
    ZoneKeyNeverReverts(valid, s0, steps, p.op.Target());
    var t := Run(valid, s0, steps);
    assert ClientInv(valid, t.store, p);
    GuardMeaning(valid, t.store, p);
  }

  // ----- the client code -----

  /** One call of the etcd backend, as its separate requests to the shared server. */
  class Client {
    const valid: Zone -> bool
    const server: Server
    var phase: Phase

    constructor (valid: Zone -> bool, server: Server, op: Op)
      ensures this.valid == valid && this.server == server && phase == Finished(op, Unavailable)
    {
      this.valid := valid;
      this.server := server;
      phase := Finished(op, Unavailable);
    }

    /** This client alone, as client 0 of a system. */
    ghost function View(): System
      reads this, server
    {
      System(server.store, map[0 := phase], map[])
    }

    method Begin(op: Op, answered: bool)
      requires phase.Finished?
      modifies this
      ensures View() == Next(valid, old(View()), Step.Begin(0, op, answered))
    {
      if op.Create? {
        var prepared := PrepareForCreate(valid, op.zone, op.env);
        phase := if prepared.Failed? then Finished(op, prepared.why) else PendingCreate(op, prepared.zone);
        return;
      }
      if !answered {
        phase := Finished(op, Unavailable);
        return;
      }
      var found := server.GetZone(op.Target());
      if found.None? {
        phase := Finished(op, NotFound);
        return;
      }
      var current := found.value.value;
      if op.Update? {
        if op.expected != "" && current.version != op.expected {
          phase := Finished(op, Conflict);
          return;
        }
        var prepared := PrepareForUpdate(valid, op.zone, current, op.env);
        if prepared.Failed? {
          phase := Finished(op, prepared.why);
          return;
        }
      }
      phase := Pending(op, current, found.value.modRev);
    }

    method Commit(delivery: Delivery)
      requires Committable(valid, phase)
      modifies this, server
      ensures View() == Next(valid, old(View()), Step.Commit(0, delivery))
    {
      var op := phase.op;
      if delivery == LostBeforeApply {
        phase := Finished(op, Unavailable);
        return;
      }
      var (cs, ws) := TxnOf(valid, phase);
      var succeeded := server.Commit(cs, ws);
      phase := if delivery == LostAfterApply then Finished(op, Unavailable) else AfterCommit(phase, succeeded);
    }

    method Recheck(answered: bool)
      requires phase.Rechecking?
      modifies this
      ensures View() == Next(valid, old(View()), Step.Recheck(0, answered))
    {
      var op := phase.op;
      if !answered {
        phase := Finished(op, Unavailable);
        return;
      }
      var found := server.GetZone(op.Target());
      phase := Finished(op, if found.None? then NotFound else Conflict);
    }
  }
}
