/** The atomic zone store: what one create, update, metadata change or delete does. */
module MemoryStore {
  import opened Serials
  import opened ZoneModel
  import opened ZoneNames

  /** What the outside world supplies to one call: clock, calendar date, and the version
      generator's answer (None when it fails). */
  datatype Env = Env(now: int, date: Date, newVersion: Option<string>)

  datatype Op =
    | Create(zone: Zone, env: Env)
    | Update(zone: Zone, expected: string, env: Env)
    | SetDnssec(name: string, dnssec: Option<Dnssec>, now: int)
    | Delete(name: string)
    | DeleteIf(name: string, expected: string)
  {
    function Target(): string {
      match this
      case Create(z, _) => NormalizeZoneName(z.name)
      case Update(z, _, _) => NormalizeZoneName(z.name)
      case SetDnssec(n, _, _) => NormalizeZoneName(n)
      case Delete(n) => NormalizeZoneName(n)
      case DeleteIf(n, _) => NormalizeZoneName(n)
    }
  }

  datatype Outcome = Done | NotFound | Conflict | AlreadyExists | Invalid | NoVersion | Unavailable

  datatype Prepared = Ready(zone: Zone) | Failed(why: Outcome)

  /** Serial, version, name and time defaults of a new zone, then validation. */
  function PrepareForCreate(valid: Zone -> bool, zone: Zone, env: Env): Prepared {
    var serial := if zone.soa.serial == 0 then GenerateSerial(env.date, 0) else zone.soa.serial;
    if zone.version == "" && env.newVersion.None? then Failed(NoVersion)
    else
      var version := if zone.version == "" then env.newVersion.value else zone.version;
      var w := zone.(name := NormalizeZoneName(zone.name), soa := zone.soa.(serial := serial),
      version := version, createdAt := env.now, updatedAt := env.now);
      if valid(w) then Ready(w) else Failed(Invalid)
  }

  /** The zone an update stores over `current`. */
  function PrepareForUpdate(valid: Zone -> bool, zone: Zone, current: Zone, env: Env): Prepared {
    var serial := UpdateSoaSerial(env.date, current.soa.serial, zone.soa.serial);
    var stale := zone.version == "" || zone.version == current.version;
    if stale && env.newVersion.None? then Failed(NoVersion)
    else
      var version := if stale then env.newVersion.value else zone.version;
      var w := zone.(name := NormalizeZoneName(zone.name), soa := zone.soa.(serial := serial),
      version := version, createdAt := current.createdAt, updatedAt := env.now);
      if valid(w) then Ready(w) else Failed(Invalid)
  }

  function WithDnssec(zone: Zone, dnssec: Option<Dnssec>, now: int): Zone {
    zone.(dnssec := dnssec, updatedAt := now)
  }

  /** One atomic operation. */
  function Apply(valid: Zone -> bool, op: Op, zones: map<string, Zone>): (map<string, Zone>, Outcome) {
    var n := op.Target();
    match op
    case Create(zone, env) => (
      match PrepareForCreate(valid, zone, env)
      case Failed(why) => (zones, why)
      case Ready(w) => if n in zones then (zones, AlreadyExists) else (zones[n := w], Done))
    case Update(zone, expected, env) =>
      if n !in zones then (zones, NotFound)
      else if expected != "" && zones[n].version != expected then (zones, Conflict)
      else (
        match PrepareForUpdate(valid, zone, zones[n], env)
        case Failed(why) => (zones, why)
        case Ready(w) => (zones[n := w], Done))
    case SetDnssec(_, dnssec, now) =>
      if n !in zones then (zones, NotFound)
      else (zones[n := WithDnssec(zones[n], dnssec, now)], Done)
    case Delete(_) =>
      if n !in zones then (zones, NotFound) else (zones - {n}, Done)
    case DeleteIf(_, expected) =>
      if n !in zones then (zones, NotFound)
      else if expected != "" && zones[n].version != expected then (zones, Conflict)
      else (zones - {n}, Done)
  }

  /** The stored zones after a sequence of atomic operations. */
  function ApplyAll(valid: Zone -> bool, ops: seq<Op>, zones: map<string, Zone>): map<string, Zone> {
    if ops == [] then zones
    else Apply(valid, ops[|ops| - 1], ApplyAll(valid, ops[..|ops| - 1], zones)).0
  }

  /** A failed operation changes nothing, and a successful one touches only its own zone. */
  lemma ApplyIsLocal(valid: Zone -> bool, op: Op, zones: map<string, Zone>)
    ensures var (after, outcome) := Apply(valid, op, zones);
            && (outcome != Done ==> after == zones)
            && (forall m :: m != op.Target() ==> (m in after <==> m in zones))
            && (forall m :: m != op.Target() && m in zones ==> after[m] == zones[m])
  {
  }

  // ----- what is stored -----

  /** SOA fields other than the serial. */
  ghost predicate SameSoaButSerial(a: Soa, b: Soa) {
    && a.mname == b.mname && a.rname == b.rname && a.refresh == b.refresh
    && a.retry == b.retry && a.expire == b.expire && a.minimum == b.minimum
  }

  /** A successful update stores the caller's records, DNSSEC part and SOA, under the normalized name, with
      the old creation time, the clock as update time and a serial beyond the old one; its version is the
      caller's if that is non-empty and new, and a generated one otherwise. */
  lemma UpdateStores(valid: Zone -> bool, zone: Zone, expected: string, env: Env, zones: map<string, Zone>)
    requires Apply(valid, Update(zone, expected, env), zones).1 == Done
    ensures var n := NormalizeZoneName(zone.name);
            var after := Apply(valid, Update(zone, expected, env), zones).0;
            && n in zones && n in after && (expected != "" ==> zones[n].version == expected)
            && var current, stored := zones[n], after[n];
            && stored.name == n
            && stored.records == zone.records && stored.dnssec == zone.dnssec && SameSoaButSerial(stored.soa, zone.soa)
            && stored.createdAt == current.createdAt && stored.updatedAt == env.now
            && (zone.soa.serial > current.soa.serial ==> stored.soa.serial == zone.soa.serial)
            && (zone.soa.serial <= current.soa.serial ==> stored.soa.serial == GenerateSerial(env.date, current.soa.serial))
            && (zone.version != "" && zone.version != current.version ==> stored.version == zone.version)
            && (zone.version == "" || zone.version == current.version ==> Some(stored.version) == env.newVersion)
            && (env.newVersion != Some(current.version) ==> stored.version != current.version)
            && valid(stored)
  {
  }

  /** A successful create stores the caller's zone with defaults for what is missing. */
  lemma CreateStores(valid: Zone -> bool, zone: Zone, env: Env, zones: map<string, Zone>)
    requires Apply(valid, Create(zone, env), zones).1 == Done
    ensures var n := NormalizeZoneName(zone.name);
            var after := Apply(valid, Create(zone, env), zones).0;
            && n !in zones && n in after
            && var stored := after[n];
            && stored.name == n
            && stored.records == zone.records && stored.dnssec == zone.dnssec && SameSoaButSerial(stored.soa, zone.soa)
            && stored.createdAt == env.now && stored.updatedAt == env.now
            && stored.soa.serial == (if zone.soa.serial == 0 then GenerateSerial(env.date, 0) else zone.soa.serial)
            && (zone.version != "" ==> stored.version == zone.version)
            && (zone.version == "" ==> Some(stored.version) == env.newVersion)
            && valid(stored)
  {
  }

  /** A metadata update stores the DNSSEC part passed in and the clock, and keeps everything else; a delete
      removes the zone. */
  lemma OtherOperationsStore(valid: Zone -> bool, op: Op, zones: map<string, Zone>)
    requires Apply(valid, op, zones).1 == Done && !op.Create? && !op.Update?
    ensures var n, after := op.Target(), Apply(valid, op, zones).0;
            && n in zones
            && (op.SetDnssec? ==>
                  && n in after && after[n].dnssec == op.dnssec && after[n].updatedAt == op.now
                  && after[n].name == zones[n].name && after[n].version == zones[n].version
                  && after[n].soa == zones[n].soa && after[n].records == zones[n].records
                  && after[n].createdAt == zones[n].createdAt)
            && (!op.SetDnssec? ==> n !in after)
            && (op.DeleteIf? && op.expected != "" ==> zones[n].version == op.expected)
  {
  }

  /** When each operation fails, and how: a missing zone first, then a version mismatch; a create prepares
      the zone before it looks. */
  lemma FailuresMeaning(valid: Zone -> bool, op: Op, zones: map<string, Zone>)
    ensures var n, outcome := op.Target(), Apply(valid, op, zones).1;
            && (!op.Create? ==> (outcome == NotFound <==> n !in zones))
            && (!op.Create? ==> (outcome == Conflict <==> n in zones && Expected(op) != "" && zones[n].version != Expected(op)))
            && (op.Create? && outcome == Done ==> n !in zones)
            && (op.Create? && op.zone.version == "" && op.env.newVersion.None? ==> outcome == NoVersion)
            && (op.Create? && n in zones ==> outcome in {NoVersion, Invalid, AlreadyExists})
            && (outcome in {NoVersion, Invalid} ==> op.Create? || op.Update?)
            && (outcome == NoVersion ==> op.env.newVersion.None?)
            && outcome != Unavailable
  {
  }

  // ----- optimistic locking -----

  /** Zone n is absent or has another version than v. */
  ghost predicate Lacks(zones: map<string, Zone>, n: string, v: string) {
    n in zones ==> zones[n].version != v
  }

  /** Operation k of the run, a create or an update of zone n, left version v there. */
  ghost predicate IssuesVersion(valid: Zone -> bool, ops: seq<Op>, zones: map<string, Zone>, k: nat, n: string, v: string)
    requires k < |ops|
  {
    (ops[k].Create? || ops[k].Update?) && ops[k].Target() == n && !Lacks(ApplyAll(valid, ops[..k + 1], zones), n, v)
  }

  ghost predicate Succeeds(valid: Zone -> bool, ops: seq<Op>, zones: map<string, Zone>, k: nat)
    requires k < |ops|
  {
    Apply(valid, ops[k], ApplyAll(valid, ops[..k], zones)).1 == Done
  }

  function Expected(op: Op): string {
    match op
    case Update(_, expected, _) => expected
    case DeleteIf(_, expected) => expected
    case _ => ""
  }

  lemma ApplyAllStep(valid: Zone -> bool, ops: seq<Op>, zones: map<string, Zone>, k: nat)
    requires k < |ops|
    ensures ApplyAll(valid, ops[..k + 1], zones) == Apply(valid, ops[k], ApplyAll(valid, ops[..k], zones)).0
  {
    assert ops[..k + 1][..k] == ops[..k];
  }

  /** An operation other than a create or update of zone n never brings version v there ... */
  lemma OtherStepLacks(valid: Zone -> bool, op: Op, zones: map<string, Zone>, n: string, v: string)
    requires Lacks(zones, n, v) && !((op.Create? || op.Update?) && op.Target() == n)
    ensures Lacks(Apply(valid, op, zones).0, n, v)
  {
    ApplyIsLocal(valid, op, zones);
  }

  lemma StepLacks(valid: Zone -> bool, ops: seq<Op>, zones: map<string, Zone>, k: nat, n: string, v: string)
    requires k < |ops| && Lacks(ApplyAll(valid, ops[..k], zones), n, v)
    requires !IssuesVersion(valid, ops, zones, k, n, v)
    ensures Lacks(ApplyAll(valid, ops[..k + 1], zones), n, v)
  {
    if !((ops[k].Create? || ops[k].Update?) && ops[k].Target() == n) {
      ApplyAllStep(valid, ops, zones, k);
      OtherStepLacks(valid, ops[k], ApplyAll(valid, ops[..k], zones), n, v);
    }
  }

  /** ... and a versioned operation that succeeds removes the version it expected, or stores it again. */
  lemma WinnerLacks(valid: Zone -> bool, ops: seq<Op>, zones: map<string, Zone>, i: nat)
    requires i < |ops| && Expected(ops[i]) != "" && Succeeds(valid, ops, zones, i)
    requires !IssuesVersion(valid, ops, zones, i, ops[i].Target(), Expected(ops[i]))
    ensures Lacks(ApplyAll(valid, ops[..i + 1], zones), ops[i].Target(), Expected(ops[i]))
  {
    if ops[i].DeleteIf? {
      ApplyAllStep(valid, ops, zones, i);
    }
  }

  /** Of two operations that expect the same version of a zone at most one succeeds, as long as nobody
      issues that version again in between. */
  lemma OneWinnerPerVersion(valid: Zone -> bool, ops: seq<Op>, zones: map<string, Zone>, i: nat, j: nat)
    requires i < j < |ops| && ops[i].Target() == ops[j].Target()
    requires Expected(ops[i]) == Expected(ops[j]) != ""
    requires forall k | i <= k < j :: !IssuesVersion(valid, ops, zones, k, ops[i].Target(), Expected(ops[i]))
    ensures !(Succeeds(valid, ops, zones, i) && Succeeds(valid, ops, zones, j))
  {
    if Succeeds(valid, ops, zones, i) {
      WinnerLacks(valid, ops, zones, i);
      StaysGone(valid, ops, zones, i + 1, j, ops[i].Target(), Expected(ops[i]));
    }
  }

  lemma {:induction false} StaysGone(valid: Zone -> bool, ops: seq<Op>, zones: map<string, Zone>,
                                     i: nat, j: nat, n: string, v: string)
    requires i <= j <= |ops| && Lacks(ApplyAll(valid, ops[..i], zones), n, v)
    requires forall k | i <= k < j :: !IssuesVersion(valid, ops, zones, k, n, v)
    ensures Lacks(ApplyAll(valid, ops[..j], zones), n, v)
    decreases j - i
  {
    if i < j {
      StepLacks(valid, ops, zones, i, n, v);
      StaysGone(valid, ops, zones, i + 1, j, n, v);
    }
  }

  /** Every stored zone sits under its own normalized name. */
  ghost predicate WellNamed(zones: map<string, Zone>) {
    forall n :: n in zones ==> zones[n].name == n
  }

  /** What one operation other than a delete of zone n does to it. */
  lemma StoreStep(valid: Zone -> bool, op: Op, zones: map<string, Zone>, n: string)
    requires WellNamed(zones) && n in zones
    requires op.Update? ==> op.env.date.Valid()
    requires (op.Delete? || op.DeleteIf?) ==> op.Target() != n
    ensures var after := Apply(valid, op, zones).0;
            && WellNamed(after)
            && n in after
            && after[n].createdAt == zones[n].createdAt
            && after[n].soa.serial >= zones[n].soa.serial
  {
    ApplyIsLocal(valid, op, zones);
    if op.Update? && op.Target() == n {
      UpdateIncreasesSerial(op.env.date, zones[n].soa.serial, op.zone.soa.serial);
    }
  }

  /** Over any run: names stay normalized, a surviving zone keeps its creation time, and its
      serial never goes back. */
  lemma {:induction false} StoreRun(valid: Zone -> bool, ops: seq<Op>, zones: map<string, Zone>, n: string)
    requires WellNamed(zones)
    requires forall op <- ops :: op.Update? ==> op.env.date.Valid()
    requires forall op <- ops :: (op.Delete? || op.DeleteIf?) ==> op.Target() != n
    requires n in zones
    ensures var after := ApplyAll(valid, ops, zones);
            && WellNamed(after)
            && n in after
            && after[n].createdAt == zones[n].createdAt
            && after[n].soa.serial >= zones[n].soa.serial
  {
    if ops != [] {
      var before := ops[..|ops| - 1];
      StoreRun(valid, before, zones, n);
      StoreStep(valid, ops[|ops| - 1], ApplyAll(valid, before, zones), n);
    }
  }

  /** The in-memory backend; its mutex makes every method one atomic operation. */
  class MemoryBackend {
    const valid: Zone -> bool
    var zones: map<string, Zone>

    constructor (valid: Zone -> bool)
      ensures this.valid == valid && zones == map[]
    {
      this.valid := valid;
      zones := map[];
    }

    method GetZone(name: string) returns (found: Option<Zone>)
      ensures found == if NormalizeZoneName(name) in zones then Some(zones[NormalizeZoneName(name)]) else None
    {
      var normalized := NormalizeZoneName(name);
      if normalized in zones {
        return Some(zones[normalized]);
      }
      return None;
    }

    method CreateZone(zone: Zone, env: Env) returns (r: Outcome)
      modifies this
      ensures (zones, r) == Apply(valid, Create(zone, env), old(zones))
    {
      var prepared := PrepareForCreate(valid, zone, env);
      if prepared.Failed? {
        return prepared.why;
      }
      var writeZone := prepared.zone;
      if writeZone.name in zones {
        return AlreadyExists;
      }
      zones := zones[writeZone.name := writeZone];
      return Done;
    }

    method UpdateZone(zone: Zone, expected: string, env: Env) returns (r: Outcome)
      modifies this
      ensures (zones, r) == Apply(valid, Update(zone, expected, env), old(zones))
    {
      var normalized := NormalizeZoneName(zone.name);
      if normalized !in zones {
        return NotFound;
      }
      var existing := zones[normalized];
      if expected != "" && existing.version != expected {
        return Conflict;
      }
      var prepared := PrepareForUpdate(valid, zone, existing, env);
      if prepared.Failed? {
        return prepared.why;
      }
      zones := zones[normalized := prepared.zone];
      return Done;
    }

    method UpdateDnssecMetadata(name: string, dnssec: Option<Dnssec>, now: int) returns (r: Outcome)
      modifies this
      ensures (zones, r) == Apply(valid, SetDnssec(name, dnssec, now), old(zones))
    {
      var normalized := NormalizeZoneName(name);
      if normalized !in zones {
        return NotFound;
      }
      zones := zones[normalized := zones[normalized].(dnssec := dnssec, updatedAt := now)];
      return Done;
    }

    method DeleteZone(name: string) returns (r: Outcome)
      modifies this
      ensures (zones, r) == Apply(valid, Delete(name), old(zones))
    {
      var normalized := NormalizeZoneName(name);
      if normalized !in zones {
        return NotFound;
      }
      zones := zones - {normalized};
      return Done;
    }

    method DeleteZoneWithVersion(name: string, expected: string) returns (r: Outcome)
      modifies this
      ensures (zones, r) == Apply(valid, DeleteIf(name, expected), old(zones))
    {
      var normalized := NormalizeZoneName(name);
      if normalized !in zones {
        return NotFound;
      }
      if expected != "" && zones[normalized].version != expected {
        return Conflict;
      }
      zones := zones - {normalized};
      return Done;
    }
  }
}
