/** The one-pass record-set validator against the rules it stands for. */
module ZoneRules {
  import opened Ordering
  import opened Serials
  import opened ZoneModel
  import opened ZoneNames
  import opened Keys

  /** canonicalRecordValue, which parses addresses and targets; any function will do here. */
  type Canon = (string, string, string) -> string

  function Owner(zone: string, r: Record): string {
    NormalizeRecordOwnerName(r.name, zone)
  }

  function DuplicateKey(canon: Canon, zone: string, r: Record): string {
    Owner(zone, r) + "\0" + (r.rtype + "\0" + (Decimal(r.ttl) + "\0" + canon(r.rtype, r.value, zone)))
  }

  // ----- the rules -----

  /** No two records agree in owner, type, TTL and canonical value. */
  ghost predicate NoDuplicateKeys(canon: Canon, zone: string, rs: seq<Record>) {
    forall i, j :: 0 <= i < j < |rs| ==> DuplicateKey(canon, zone, rs[i]) != DuplicateKey(canon, zone, rs[j])
  }

  ghost predicate NoApexCname(zone: string, rs: seq<Record>) {
    forall r <- rs :: r.rtype == "CNAME" ==> Owner(zone, r) != zone
  }

  /** Section 10.1 of RFC 2181: at most one CNAME at a name ... */
  ghost predicate SingleCname(zone: string, rs: seq<Record>) {
    forall i, j :: 0 <= i < j < |rs| && rs[i].rtype == "CNAME" && rs[j].rtype == "CNAME" ==>
                     Owner(zone, rs[i]) != Owner(zone, rs[j])
  }

  /** ... and nothing beside it. */
  ghost predicate CnameAlone(zone: string, rs: seq<Record>) {
    forall r <- rs, q <- rs :: r.rtype == "CNAME" && Owner(zone, r) == Owner(zone, q) ==> q.rtype == "CNAME"
  }

  /** Section 5.2 of RFC 2181. */
  ghost predicate OneTtlPerRRset(zone: string, rs: seq<Record>) {
    forall r <- rs, q <- rs :: Owner(zone, r) == Owner(zone, q) && r.rtype == q.rtype ==> r.ttl == q.ttl
  }

  ghost predicate HasApexNs(zone: string, rs: seq<Record>) {
    exists r :: r in rs && r.rtype == "NS" && Owner(zone, r) == zone
  }

  /** The rules that the first loop can find broken. */
  ghost predicate LoopRules(canon: Canon, zone: string, rs: seq<Record>) {
    && NoDuplicateKeys(canon, zone, rs) && NoApexCname(zone, rs)
    && SingleCname(zone, rs) && OneTtlPerRRset(zone, rs)
  }

  ghost predicate Acceptable(canon: Canon, zone: string, rs: seq<Record>) {
    LoopRules(canon, zone, rs) && CnameAlone(zone, rs) && HasApexNs(zone, rs)
  }

  /** An NS record written at "@", or at the full name, is an apex NS. */
  lemma ApexNsSpellings(zoneName: string, rs: seq<Record>, r: Record)
    requires r in rs && r.rtype == "NS" && zoneName != "" && zoneName != "@"
    requires r.name == "@" || r.name == NormalizeZoneName(zoneName)
    ensures HasApexNs(NormalizeZoneName(zoneName), rs)
  {
    NormalizeIsIdempotent(zoneName);
    NormalizedForm(zoneName);
    if r.name != "@" {
      FixedOwner(r.name, NormalizeZoneName(zoneName));
    }
  }

  // ----- the pass -----

  datatype OwnerState = OwnerState(cnameIndex: int, types: map<string, nat>, ttls: map<string, uint32>)

  const FRESH := OwnerState(-1, map[], map[])

  /** What the maps know about the records seen so far. */
  ghost predicate Knows(zone: string, rs: seq<Record>, owners: map<string, OwnerState>) {
    && (forall r <- rs :: Owner(zone, r) in owners && Noted(owners[Owner(zone, r)], r))
    && (forall o :: o in owners ==> Grounded(zone, rs, o, owners[o]))
  }

  ghost predicate Noted(st: OwnerState, r: Record) {
    r.rtype in st.types && r.rtype in st.ttls && st.ttls[r.rtype] == r.ttl
  }

  ghost predicate Grounded(zone: string, rs: seq<Record>, o: string, st: OwnerState) {
    && st.types.Keys == st.ttls.Keys
    && (st.cnameIndex >= 0 <==> "CNAME" in st.types)
    && (forall t :: t in st.types ==> exists r :: r in rs && Owner(zone, r) == o && r.rtype == t)
  }

  ghost predicate SeenKeys(canon: Canon, zone: string, rs: seq<Record>, seen: set<string>) {
    && (forall r <- rs :: DuplicateKey(canon, zone, r) in seen)
    && (forall k <- seen :: exists r :: r in rs && DuplicateKey(canon, zone, r) == k)
  }

  /** One record: what the owner's entry becomes, or None if a rule is broken. */
  function Absorb(st: OwnerState, r: Record, atApex: bool, i: nat): Option<OwnerState> {
    if r.rtype == "CNAME" && (atApex || st.cnameIndex >= 0) then None
    else if r.rtype in st.ttls && st.ttls[r.rtype] != r.ttl then None
    else
      Some(OwnerState(if r.rtype == "CNAME" then i else st.cnameIndex,
                      st.types[r.rtype := (if r.rtype in st.types then st.types[r.rtype] else 0) + 1],
                      if r.rtype in st.ttls then st.ttls else st.ttls[r.rtype := r.ttl]))
  }

  lemma AbsorbKeepsKnowledge(zone: string, rs: seq<Record>, owners: map<string, OwnerState>, r: Record, i: nat)
    requires Knows(zone, rs, owners)
    requires var o := Owner(zone, r);
             Absorb(if o in owners then owners[o] else FRESH, r, o == zone, i).Some?
    ensures var o := Owner(zone, r);
            var st := Absorb(if o in owners then owners[o] else FRESH, r, o == zone, i).value;
            Knows(zone, rs + [r], owners[o := st])
  {
    var o := Owner(zone, r);
    var before := if o in owners then owners[o] else FRESH;
    var st := Absorb(before, r, o == zone, i).value;
    var rs' := rs + [r];
    var owners' := owners[o := st];
    forall q | q in rs' ensures Owner(zone, q) in owners' && Noted(owners'[Owner(zone, q)], q) {
      if q in rs {
        assert Noted(owners[Owner(zone, q)], q);
      }
    }
    forall p | p in owners' ensures Grounded(zone, rs', p, owners'[p]) {
      assert p in owners ==> Grounded(zone, rs, p, owners[p]);
      forall t | t in owners'[p].types ensures exists q :: q in rs' && Owner(zone, q) == p && q.rtype == t {
        if p == o && t == r.rtype {
          assert r in rs';
        } else {
          var q :| q in rs && Owner(zone, q) == p && q.rtype == t;
          assert q in rs';
        }
      }
    }
  }

  /** What an accepted record has to do with one seen before it. */
  ghost predicate Agree(zone: string, q: Record, r: Record) {
    && (q.rtype == "CNAME" && r.rtype == "CNAME" ==> Owner(zone, q) != Owner(zone, r))
    && (Owner(zone, q) == Owner(zone, r) && q.rtype == r.rtype ==> q.ttl == r.ttl)
  }

  lemma AbsorbedAgrees(zone: string, rs: seq<Record>, owners: map<string, OwnerState>, r: Record, i: nat, q: Record)
    requires Knows(zone, rs, owners) && q in rs
    requires var o := Owner(zone, r);
             Absorb(if o in owners then owners[o] else FRESH, r, o == zone, i).Some?
    ensures Agree(zone, q, r)
  {
    assert Noted(owners[Owner(zone, q)], q);
    assert Grounded(zone, rs, Owner(zone, q), owners[Owner(zone, q)]);
  }

  lemma AgreeKeepsSingleCname(zone: string, rs: seq<Record>, r: Record)
    requires SingleCname(zone, rs) && forall q <- rs :: Agree(zone, q, r)
    ensures SingleCname(zone, rs + [r])
  {
    assert forall j :: 0 <= j < |rs| ==> rs[j] in rs;
  }

  lemma AgreeKeepsTtls(zone: string, rs: seq<Record>, r: Record)
    requires OneTtlPerRRset(zone, rs) && forall q <- rs :: Agree(zone, q, r)
    ensures OneTtlPerRRset(zone, rs + [r])
  {
  }

  lemma AbsorbKeepsKeys(canon: Canon, zone: string, rs: seq<Record>, seen: set<string>, r: Record)
    requires SeenKeys(canon, zone, rs, seen) && NoDuplicateKeys(canon, zone, rs)
    requires DuplicateKey(canon, zone, r) !in seen
    ensures NoDuplicateKeys(canon, zone, rs + [r])
  {
    forall j | 0 <= j < |rs| ensures DuplicateKey(canon, zone, rs[j]) != DuplicateKey(canon, zone, r) {
      assert rs[j] in rs;
    }
  }

  lemma AbsorbKeepsRules(canon: Canon, zone: string, rs: seq<Record>, owners: map<string, OwnerState>,
                         seen: set<string>, r: Record, i: nat)
    requires Knows(zone, rs, owners) && SeenKeys(canon, zone, rs, seen) && LoopRules(canon, zone, rs)
    requires DuplicateKey(canon, zone, r) !in seen
    requires var o := Owner(zone, r);
             Absorb(if o in owners then owners[o] else FRESH, r, o == zone, i).Some?
    ensures LoopRules(canon, zone, rs + [r])
  {
    AbsorbKeepsKeys(canon, zone, rs, seen, r);
    forall q | q in rs ensures Agree(zone, q, r) {
      AbsorbedAgrees(zone, rs, owners, r, i, q);
    }
    AgreeKeepsSingleCname(zone, rs, r);
    AgreeKeepsTtls(zone, rs, r);
    assert NoApexCname(zone, rs + [r]);
  }

  lemma DuplicateBreaksRule(canon: Canon, zone: string, rs: seq<Record>, seen: set<string>, i: nat)
    requires i < |rs| && SeenKeys(canon, zone, rs[..i], seen) && DuplicateKey(canon, zone, rs[i]) in seen
    ensures !NoDuplicateKeys(canon, zone, rs)
  {
    var q :| q in rs[..i] && DuplicateKey(canon, zone, q) == DuplicateKey(canon, zone, rs[i]);
    var j :| 0 <= j < i && rs[..i][j] == q;
    assert rs[j] == q;
  }

  lemma SecondCnameBreaksRule(zone: string, rs: seq<Record>, owners: map<string, OwnerState>, i: nat)
    requires i < |rs| && Knows(zone, rs[..i], owners) && rs[i].rtype == "CNAME"
    requires Owner(zone, rs[i]) in owners && owners[Owner(zone, rs[i])].cnameIndex >= 0
    ensures !SingleCname(zone, rs)
  {
    var o := Owner(zone, rs[i]);
    assert Grounded(zone, rs[..i], o, owners[o]);
    var q :| q in rs[..i] && Owner(zone, q) == o && q.rtype == "CNAME";
    var j :| 0 <= j < i && rs[..i][j] == q;
    assert rs[j] == q;
  }

  lemma TtlBreaksRule(zone: string, rs: seq<Record>, owners: map<string, OwnerState>, i: nat)
    requires i < |rs| && Knows(zone, rs[..i], owners)
    requires var o := Owner(zone, rs[i]);
             o in owners && rs[i].rtype in owners[o].ttls && owners[o].ttls[rs[i].rtype] != rs[i].ttl
    ensures !OneTtlPerRRset(zone, rs)
  {
    var o := Owner(zone, rs[i]);
    assert Grounded(zone, rs[..i], o, owners[o]);
    var q :| q in rs[..i] && Owner(zone, q) == o && q.rtype == rs[i].rtype;
    assert Noted(owners[o], q) && q in rs && rs[i] in rs;
  }

  lemma RejectIsRight(canon: Canon, zone: string, rs: seq<Record>, owners: map<string, OwnerState>,
                      seen: set<string>, i: nat)
    requires i < |rs| && Knows(zone, rs[..i], owners) && SeenKeys(canon, zone, rs[..i], seen)
    requires var o := Owner(zone, rs[i]);
             DuplicateKey(canon, zone, rs[i]) in seen
             || Absorb(if o in owners then owners[o] else FRESH, rs[i], o == zone, i).None?
    ensures !LoopRules(canon, zone, rs)
  {
    var o := Owner(zone, rs[i]);
    if DuplicateKey(canon, zone, rs[i]) in seen {
      DuplicateBreaksRule(canon, zone, rs, seen, i);
    } else if rs[i].rtype == "CNAME" && o == zone {
      assert rs[i] in rs;
    } else if rs[i].rtype == "CNAME" && o in owners && owners[o].cnameIndex >= 0 {
      SecondCnameBreaksRule(zone, rs, owners, i);
    } else {
      TtlBreaksRule(zone, rs, owners, i);
    }
  }

  lemma TypeCountMeaning(types: map<string, nat>)
    requires "CNAME" in types
    ensures |types| > 1 <==> exists t :: t in types && t != "CNAME"
  {
    if t :| t in types && t != "CNAME" {
      assert {t, "CNAME"} <= types.Keys;
      SubsetSize({t, "CNAME"}, types.Keys);
    } else {
      assert types.Keys == {"CNAME"};
    }
  }

  /** The owner has a CNAME and another type. */
  predicate Crowded(st: OwnerState) {
    st.cnameIndex >= 0 && |st.types| > 1
  }

  lemma CnameAloneMeaning(zone: string, rs: seq<Record>, owners: map<string, OwnerState>)
    requires Knows(zone, rs, owners)
    ensures CnameAlone(zone, rs) <==> forall o :: o in owners ==> !Crowded(owners[o])
  {
    forall r, q | r in rs && q in rs && r.rtype == "CNAME" && Owner(zone, r) == Owner(zone, q) && q.rtype != "CNAME"
      ensures Crowded(owners[Owner(zone, r)])
    {
      var st := owners[Owner(zone, r)];
      assert Noted(st, r) && Noted(st, q) && Grounded(zone, rs, Owner(zone, r), st);
      TypeCountMeaning(st.types);
    }
    forall o | o in owners && Crowded(owners[o]) ensures !CnameAlone(zone, rs) {
      assert Grounded(zone, rs, o, owners[o]);
      TypeCountMeaning(owners[o].types);
      var t :| t in owners[o].types && t != "CNAME";
      var q :| q in rs && Owner(zone, q) == o && q.rtype == t;
      var r :| r in rs && Owner(zone, r) == o && r.rtype == "CNAME";
    }
  }

  /** First pass: one look at each record; None when it stops at a broken rule. */
  method ScanRecords(canon: Canon, zone: string, rs: seq<Record>)
    returns (owners: Option<map<string, OwnerState>>, hasApexNs: bool)
    ensures owners.Some? <==> LoopRules(canon, zone, rs)
    ensures owners.Some? ==> Knows(zone, rs, owners.value) && (hasApexNs <==> HasApexNs(zone, rs))
  {
    var table: map<string, OwnerState> := map[];
    var seen: set<string> := {};
    hasApexNs := false;
    for i := 0 to |rs|
      invariant Knows(zone, rs[..i], table) && SeenKeys(canon, zone, rs[..i], seen)
      invariant LoopRules(canon, zone, rs[..i])
      invariant hasApexNs <==> HasApexNs(zone, rs[..i])
    {
      var r := rs[i];
      assert rs[..i + 1] == rs[..i] + [r];
      var owner := Owner(zone, r);
      if owner == zone && r.rtype == "NS" {
        hasApexNs := true;
        assert r in rs[..i + 1];
      }
      var key := DuplicateKey(canon, zone, r);
      var state := if owner in table then table[owner] else FRESH;
      var next := Absorb(state, r, owner == zone, i);
      if key in seen || next.None? {
        RejectIsRight(canon, zone, rs, table, seen, i);
        return None, hasApexNs;
      }
      AbsorbKeepsKnowledge(zone, rs[..i], table, r, i);
      AbsorbKeepsRules(canon, zone, rs[..i], table, seen, r, i);
      KeySeen(canon, zone, rs[..i], seen, r);
      ApexNsStep(zone, rs[..i], r);
      seen := seen + {key};
      table := table[owner := next.value];
    }
    assert rs[..|rs|] == rs;
    owners := Some(table);
  }

  lemma KeySeen(canon: Canon, zone: string, rs: seq<Record>, seen: set<string>, r: Record)
    requires SeenKeys(canon, zone, rs, seen)
    ensures SeenKeys(canon, zone, rs + [r], seen + {DuplicateKey(canon, zone, r)})
  {
    var rs' := rs + [r];
    forall k | k in seen + {DuplicateKey(canon, zone, r)}
      ensures exists q :: q in rs' && DuplicateKey(canon, zone, q) == k
    {
      if k in seen {
        var q :| q in rs && DuplicateKey(canon, zone, q) == k;
        assert q in rs';
      } else {
        assert r in rs';
      }
    }
  }

  lemma ApexNsStep(zone: string, rs: seq<Record>, r: Record)
    ensures HasApexNs(zone, rs + [r]) <==> HasApexNs(zone, rs) || (r.rtype == "NS" && Owner(zone, r) == zone)
  {
    if HasApexNs(zone, rs) {
      var q :| q in rs && q.rtype == "NS" && Owner(zone, q) == zone;
      assert q in rs + [r];
    }
    if r.rtype == "NS" && Owner(zone, r) == zone {
      assert r in rs + [r];
    }
  }

  /** The validator accepts exactly the zones that meet the rules. */
  method ValidateRecordSetConstraints(canon: Canon, zone: Zone) returns (ok: bool)
    ensures ok <==> Acceptable(canon, NormalizeZoneName(zone.name), zone.records)
  {
    var zoneName := NormalizeZoneName(zone.name);
    var owners, hasApexNs := ScanRecords(canon, zoneName, zone.records);
    if owners.None? {
      return false;
    }
    CnameAloneMeaning(zoneName, zone.records, owners.value);
    var alone := CnamesAlone(owners.value);
    return alone && hasApexNs;
  }

  /** Second pass: no owner has a CNAME and another type. */
  method CnamesAlone(owners: map<string, OwnerState>) returns (ok: bool)
    ensures ok <==> forall o :: o in owners ==> !Crowded(owners[o])
  {
    var rest := owners.Keys;
    while rest != {}
      invariant rest <= owners.Keys
      invariant forall o :: o in owners && o !in rest ==> !Crowded(owners[o])
      decreases rest
    {
      var o :| o in rest;
      rest := rest - {o};
      if owners[o].cnameIndex >= 0 && |owners[o].types| > 1 {
        assert Crowded(owners[o]);
        return false;
      }
    }
    return true;
  }

  /** The joined key tells records apart: equal keys mean equal owner, type, TTL and value, as long as
      owners and types carry no NUL, which record validation guarantees. */
  lemma DuplicateKeyMeaning(canon: Canon, zone: string, r: Record, q: Record)
    requires '\0' !in Owner(zone, r) && '\0' !in Owner(zone, q)
    requires '\0' !in r.rtype && '\0' !in q.rtype
    ensures DuplicateKey(canon, zone, r) == DuplicateKey(canon, zone, q)
            <==> && Owner(zone, r) == Owner(zone, q) && r.rtype == q.rtype && r.ttl == q.ttl
                 && canon(r.rtype, r.value, zone) == canon(q.rtype, q.value, zone)
  {
    if DuplicateKey(canon, zone, r) == DuplicateKey(canon, zone, q) {
      var v, w := canon(r.rtype, r.value, zone), canon(q.rtype, q.value, zone);
      var tr, tq := Decimal(r.ttl) + "\0" + v, Decimal(q.ttl) + "\0" + w;
      SplitAtFirst('\0', Owner(zone, r), r.rtype + "\0" + tr, Owner(zone, q), q.rtype + "\0" + tq);
      SplitAtFirst('\0', r.rtype, tr, q.rtype, tq);
      DecimalRoundTrip(r.ttl);
      DecimalRoundTrip(q.ttl);
      SplitAtFirst('\0', Decimal(r.ttl), v, Decimal(q.ttl), w);
    }
  }
}
