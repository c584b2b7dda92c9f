/** Turning an accepted zone into RRsets for the signer. */
module RRsets {
  import opened Ordering
  import opened Serials
  import opened ZoneModel
  import opened ZoneNames
  import opened Keys
  import opened ZoneRules

  const CLASS_IN := 1
  const SOA := 6
  const DNSKEY := 48

  datatype Header = Header(name: string, rrtype: nat, class_: nat, ttl: uint32)

  /** The wire type of each supported record type; None for a type the signer refuses. */
  function TypeNumber(t: string): Option<nat> {
    if t == "A" then Some(1)
    else if t == "NS" then Some(2)
    else if t == "CNAME" then Some(5)
    else if t == "PTR" then Some(12)
    else if t == "MX" then Some(15)
    else if t == "TXT" then Some(16)
    else if t == "AAAA" then Some(28)
    else if t == "SRV" then Some(33)
    else if t == "CAA" then Some(257)
    else None
  }

  /** The numbers of the types in the registry of DNS parameters; no other type is signed. */
  lemma TypeNumberTable(t: string)
    ensures TypeNumber("A") == Some(1) && TypeNumber("NS") == Some(2) && TypeNumber("CNAME") == Some(5)
    ensures TypeNumber("PTR") == Some(12) && TypeNumber("MX") == Some(15) && TypeNumber("TXT") == Some(16)
    ensures TypeNumber("AAAA") == Some(28) && TypeNumber("SRV") == Some(33) && TypeNumber("CAA") == Some(257)
    ensures TypeNumber(t).Some? ==> t in {"A", "NS", "CNAME", "PTR", "MX", "TXT", "AAAA", "SRV", "CAA"}
  {
  }

  lemma TypeNumbersDiffer(t: string, u: string)
    requires TypeNumber(t).Some? && TypeNumber(u).Some?
    ensures TypeNumber(t) == TypeNumber(u) <==> t == u
    ensures TypeNumber(t).value != SOA && TypeNumber(t).value != DNSKEY
  {
  }

  /** The headers of a zone's records: the SOA first, then every record at its expanded owner. */
  function ModelToRRs(zone: Zone): Option<seq<Header>> {
    var apex := NormalizeZoneName(zone.name);
    var rest := RecordHeaders(apex, zone.records);
    if rest.None? then None
    else Some([Header(apex, SOA, CLASS_IN, zone.soa.minimum)] + rest.value)
  }

  function RecordHeaders(apex: string, rs: seq<Record>): Option<seq<Header>> {
    if rs == [] then Some([])
    else
      var t := TypeNumber(rs[|rs| - 1].rtype);
      var before := RecordHeaders(apex, rs[..|rs| - 1]);
      if t.None? || before.None? then None
      else Some(before.value + [Header(Owner(apex, rs[|rs| - 1]), t.value, CLASS_IN, rs[|rs| - 1].ttl)])
  }

  lemma {:induction false} RecordHeadersMeaning(apex: string, rs: seq<Record>)
    ensures RecordHeaders(apex, rs).Some? <==> forall r <- rs :: TypeNumber(r.rtype).Some?
    ensures RecordHeaders(apex, rs).Some? ==>
              var hs := RecordHeaders(apex, rs).value;
              |hs| == |rs| && forall i :: 0 <= i < |rs| ==>
                TypeNumber(rs[i].rtype).Some?
                && hs[i] == Header(Owner(apex, rs[i]), TypeNumber(rs[i].rtype).value, CLASS_IN, rs[i].ttl)
  {
    if rs != [] {
      RecordHeadersMeaning(apex, rs[..|rs| - 1]);
      assert rs == rs[..|rs| - 1] + [rs[|rs| - 1]];
    }
  }

  lemma RecordHeadersAppend(apex: string, rs: seq<Record>, r: Record)
    ensures var before, t := RecordHeaders(apex, rs), TypeNumber(r.rtype);
            RecordHeaders(apex, rs + [r])
            == if t.None? || before.None? then None
               else Some(before.value + [Header(Owner(apex, r), t.value, CLASS_IN, r.ttl)])
  {
    assert (rs + [r])[..|rs|] == rs;
  }

  /** Builds the headers record by record; one unsupported type refuses the zone. */
  method BuildRRs(zone: Zone) returns (rrs: Option<seq<Header>>)
    ensures rrs == ModelToRRs(zone)
    ensures rrs.Some? <==> forall r <- zone.records :: TypeNumber(r.rtype).Some?
    ensures rrs.Some? ==>
              && |rrs.value| == 1 + |zone.records|
              && rrs.value[0] == Header(NormalizeZoneName(zone.name), 6, 1, zone.soa.minimum)
              && forall i :: 0 <= i < |zone.records| ==>
                   && Some(rrs.value[i + 1].rrtype) == TypeNumber(zone.records[i].rtype)
                   && rrs.value[i + 1].name == NormalizeRecordOwnerName(zone.records[i].name, NormalizeZoneName(zone.name))
                   && rrs.value[i + 1].class_ == 1 && rrs.value[i + 1].ttl == zone.records[i].ttl
  {
    var apex, rs := NormalizeZoneName(zone.name), zone.records;
    RecordHeadersMeaning(apex, rs);
    var hs: seq<Header> := [];
    for i := 0 to |rs|
      invariant RecordHeaders(apex, rs[..i]) == Some(hs)
    {
      var t := TypeNumber(rs[i].rtype);
      assert rs[i] in rs;
      if t.None? {
        return None;
      }
      RecordHeadersAppend(apex, rs[..i], rs[i]);
      assert rs[..i + 1] == rs[..i] + [rs[i]];
      hs := hs + [Header(Owner(apex, rs[i]), t.value, CLASS_IN, rs[i].ttl)];
    }
    assert rs[..|rs|] == rs;
    return Some([Header(apex, SOA, CLASS_IN, zone.soa.minimum)] + hs);
  }

  // ----- grouping -----

  function GroupKey(h: Header): string {
    h.name + "/" + Decimal(h.rrtype)
  }

  /** Groups are by owner and type, although the key is one string. */
  lemma GroupKeyMeaning(h: Header, g: Header)
    ensures GroupKey(h) == GroupKey(g) <==> h.name == g.name && h.rrtype == g.rrtype
  {
    DecimalRoundTrip(h.rrtype);
    DecimalRoundTrip(g.rrtype);
    if GroupKey(h) == GroupKey(g) {
      SplitAtLast('/', h.name, Decimal(h.rrtype), g.name, Decimal(g.rrtype));
    }
  }

  /** The members of one group, in the order they came. */
  function Members(hs: seq<Header>, key: string): seq<Header> {
    if hs == [] then []
    else
      var before := Members(hs[..|hs| - 1], key);
      if GroupKey(hs[|hs| - 1]) == key then before + [hs[|hs| - 1]] else before
  }

  lemma {:induction false} MembersMeaning(hs: seq<Header>, key: string, h: Header)
    ensures h in Members(hs, key) <==> h in hs && GroupKey(h) == key
  {
    if hs != [] {
      MembersMeaning(hs[..|hs| - 1], key, h);
      assert hs == hs[..|hs| - 1] + [hs[|hs| - 1]];
    }
  }

  ghost predicate Uniform(g: seq<Header>) {
    forall h <- g, k <- g :: h.ttl == k.ttl && h.class_ == k.class_
  }

  ghost predicate Consistent(hs: seq<Header>) {
    forall h <- hs, k <- hs :: h.name == k.name && h.rrtype == k.rrtype ==> h.ttl == k.ttl && h.class_ == k.class_
  }

  lemma ConsistentMeaning(hs: seq<Header>)
    ensures Consistent(hs) <==> forall h <- hs :: Uniform(Members(hs, GroupKey(h)))
  {
    if Consistent(hs) {
      forall h | h in hs ensures Uniform(Members(hs, GroupKey(h))) {
        forall a, b | a in Members(hs, GroupKey(h)) && b in Members(hs, GroupKey(h))
          ensures a.ttl == b.ttl && a.class_ == b.class_
        {
          MembersMeaning(hs, GroupKey(h), a);
          MembersMeaning(hs, GroupKey(h), b);
          GroupKeyMeaning(a, b);
        }
      }
    }
    if forall h <- hs :: Uniform(Members(hs, GroupKey(h))) {
      forall a, b | a in hs && b in hs && a.name == b.name && a.rrtype == b.rrtype
        ensures a.ttl == b.ttl && a.class_ == b.class_
      {
        MembersMeaning(hs, GroupKey(a), a);
        MembersMeaning(hs, GroupKey(a), b);
        GroupKeyMeaning(a, b);
        assert Uniform(Members(hs, GroupKey(a)));
      }
    }
  }

  method IsUniform(g: seq<Header>) returns (ok: bool)
    requires g != []
    ensures ok <==> Uniform(g)
  {
    var ttl, class_ := g[0].ttl, g[0].class_;
    for i := 1 to |g|
      invariant forall j :: 0 <= j < i ==> g[j].ttl == ttl && g[j].class_ == class_
    {
      if g[i].ttl != ttl || g[i].class_ != class_ {
        assert g[i] in g && g[0] in g;
        return false;
      }
    }
    forall h | h in g ensures h.ttl == ttl && h.class_ == class_ {
      var j :| 0 <= j < |g| && g[j] == h;
    }
    return true;
  }

  /** Each group is the whole of one RRset in order, every record is in one, and no two share a key. */
  ghost predicate Partition(hs: seq<Header>, groups: seq<seq<Header>>) {
    && (forall g <- groups :: g != [] && g == Members(hs, GroupKey(g[0])))
    && (forall h <- hs :: exists g :: g in groups && g != [] && GroupKey(g[0]) == GroupKey(h))
    && (forall i, j :: 0 <= i < j < |groups| && groups[i] != [] && groups[j] != [] ==>
                         GroupKey(groups[i][0]) != GroupKey(groups[j][0]))
  }

  lemma MembersAppend(hs: seq<Header>, h: Header, key: string)
    ensures Members(hs + [h], key) == Members(hs, key) + (if GroupKey(h) == key then [h] else [])
  {
    assert (hs + [h])[..|hs|] == hs;
  }

  /** The table holds exactly the non-empty groups. */
  ghost predicate Collected(hs: seq<Header>, table: map<string, seq<Header>>) {
    forall k :: if k in table then table[k] == Members(hs, k) && table[k] != [] else Members(hs, k) == []
  }

  lemma CollectOne(hs: seq<Header>, h: Header, table: map<string, seq<Header>>)
    requires Collected(hs, table)
    ensures var key := GroupKey(h);
            Collected(hs + [h], table[key := (if key in table then table[key] else []) + [h]])
  {
    forall k ensures Members(hs + [h], k) == Members(hs, k) + (if GroupKey(h) == k then [h] else []) {
      MembersAppend(hs, h, k);
    }
  }

  method CollectGroups(hs: seq<Header>) returns (table: map<string, seq<Header>>)
    ensures forall h <- hs :: GroupKey(h) in table
    ensures forall k :: k in table ==> table[k] == Members(hs, k) && table[k] != []
  {
    table := map[];
    for i := 0 to |hs|
      invariant Collected(hs[..i], table)
    {
      var key := GroupKey(hs[i]);
      CollectOne(hs[..i], hs[i], table);
      assert hs[..i + 1] == hs[..i] + [hs[i]];
      table := table[key := (if key in table then table[key] else []) + [hs[i]]];
    }
    assert hs[..|hs|] == hs;
    forall h | h in hs ensures GroupKey(h) in table {
      MembersMeaning(hs, GroupKey(h), h);
    }
  }

  lemma GroupHasItsKey(hs: seq<Header>, k: string)
    requires Members(hs, k) != []
    ensures GroupKey(Members(hs, k)[0]) == k && Members(hs, k)[0] in hs
  {
    MembersMeaning(hs, k, Members(hs, k)[0]);
  }

  /** Fails exactly when two records of one owner and type differ in TTL or class. */
  method GroupRRsets(hs: seq<Header>) returns (groups: Option<seq<seq<Header>>>)
    ensures groups.Some? <==> Consistent(hs)
    ensures groups.Some? ==> Partition(hs, groups.value)
  {
    ConsistentMeaning(hs);
    var table := CollectGroups(hs);
    ghost var keys;
    groups, keys := CheckGroups(table);
    if groups.Some? {
      GroupsPartition(hs, table, keys, groups.value);
    } else {
      ghost var k :| k in table && !Uniform(table[k]);
      GroupHasItsKey(hs, k);
    }
  }

  /** Ranges over the table in any order; None at the first group that is not uniform. */
  method CheckGroups(table: map<string, seq<Header>>) returns (groups: Option<seq<seq<Header>>>, ghost keys: seq<string>)
    requires forall k :: k in table ==> table[k] != []
    ensures groups.None? ==> exists k :: k in table && !Uniform(table[k])
    ensures groups.Some? ==>
              && |groups.value| == |keys| && NoDuplicates(keys) && Elements(keys) == table.Keys
              && forall i :: 0 <= i < |keys| ==> keys[i] in table && groups.value[i] == table[keys[i]] && Uniform(groups.value[i])
  {
    var out: seq<seq<Header>> := [];
    keys := [];
    var rest := table.Keys;
    while rest != {}
      invariant rest <= table.Keys && |out| == |keys| && NoDuplicates(keys)
      invariant Elements(keys) == table.Keys - rest
      invariant forall i :: 0 <= i < |keys| ==> keys[i] in table && out[i] == table[keys[i]] && Uniform(out[i])
      decreases rest
    {
      var k :| k in rest;
      rest := rest - {k};
      var ok := IsUniform(table[k]);
      if !ok {
        return None, keys;
      }
      assert k !in Elements(keys);
      assert forall j :: 0 <= j < |keys| ==> keys[j] in Elements(keys);
      assert Elements(keys + [k]) == Elements(keys) + {k};
      out := out + [table[k]];
      keys := keys + [k];
    }
    groups := Some(out);
  }

  lemma GroupsPartition(hs: seq<Header>, table: map<string, seq<Header>>, keys: seq<string>, out: seq<seq<Header>>)
    requires forall h <- hs :: GroupKey(h) in table
    requires forall k :: k in table ==> table[k] == Members(hs, k) && table[k] != []
    requires |out| == |keys| && NoDuplicates(keys) && Elements(keys) == table.Keys
    requires forall i :: 0 <= i < |keys| ==> keys[i] in table && out[i] == table[keys[i]] && Uniform(out[i])
    ensures Partition(hs, out)
    ensures forall h <- hs :: Uniform(Members(hs, GroupKey(h)))
  {
    forall i | 0 <= i < |out| ensures out[i] != [] && GroupKey(out[i][0]) == keys[i] {
      GroupHasItsKey(hs, keys[i]);
    }
    forall g | g in out ensures g != [] && g == Members(hs, GroupKey(g[0])) {
      var i :| 0 <= i < |out| && out[i] == g;
    }
    forall h | h in hs
      ensures exists g :: g in out && g != [] && GroupKey(g[0]) == GroupKey(h)
      ensures Uniform(Members(hs, GroupKey(h)))
    {
      assert GroupKey(h) in Elements(keys);
      var i :| 0 <= i < |keys| && keys[i] == GroupKey(h);
      assert out[i] in out;
    }
  }

  // ----- accepted zones -----

  /** Two records of an accepted zone that share owner and type share the TTL. */
  lemma RecordsConsistent(apex: string, rs: seq<Record>)
    requires OneTtlPerRRset(apex, rs) && RecordHeaders(apex, rs).Some?
    ensures Consistent(RecordHeaders(apex, rs).value)
  {
    RecordHeadersMeaning(apex, rs);
    var hs := RecordHeaders(apex, rs).value;
    forall h, k | h in hs && k in hs && h.name == k.name && h.rrtype == k.rrtype
      ensures h.ttl == k.ttl && h.class_ == k.class_
    {
      var i :| 0 <= i < |hs| && hs[i] == h;
      var j :| 0 <= j < |hs| && hs[j] == k;
      TypeNumbersDiffer(rs[i].rtype, rs[j].rtype);
      assert rs[i] in rs && rs[j] in rs;
    }
  }

  lemma ConsistentJoin(soa: Header, hs: seq<Header>, keys: seq<Header>)
    requires soa.rrtype == SOA && Consistent(hs)
    requires forall h <- hs :: h.rrtype != SOA && h.rrtype != DNSKEY
    requires forall k <- keys :: k.rrtype == DNSKEY
    requires forall k <- keys, l <- keys :: k.ttl == l.ttl && k.class_ == l.class_
    ensures Consistent([soa] + hs + keys)
  {
    forall h, k | h in [soa] + hs + keys && k in [soa] + hs + keys && h.name == k.name && h.rrtype == k.rrtype
      ensures h.ttl == k.ttl && h.class_ == k.class_
    {
      assert h == soa || h in hs || h in keys;
      assert k == soa || k in hs || k in keys;
    }
  }

  lemma RecordTypesPlain(apex: string, rs: seq<Record>, h: Header)
    requires RecordHeaders(apex, rs).Some? && h in RecordHeaders(apex, rs).value
    ensures h.rrtype != SOA && h.rrtype != DNSKEY
  {
    RecordHeadersMeaning(apex, rs);
    var i :| 0 <= i < |rs| && RecordHeaders(apex, rs).value[i] == h;
    TypeNumbersDiffer(rs[i].rtype, rs[i].rtype);
  }

  /** A zone the validator accepts, with the zone's own DNSKEYs of one TTL, never trips the grouping. */
  lemma AcceptedZonesGroup(canon: Canon, zone: Zone, keys: seq<Header>)
    requires Acceptable(canon, NormalizeZoneName(zone.name), zone.records)
    requires forall r <- zone.records :: TypeNumber(r.rtype).Some?
    requires forall k <- keys :: k.rrtype == DNSKEY
    requires forall k <- keys, l <- keys :: k.ttl == l.ttl && k.class_ == l.class_
    ensures ModelToRRs(zone).Some? && Consistent(ModelToRRs(zone).value + keys)
  {
    var apex := NormalizeZoneName(zone.name);
    RecordHeadersMeaning(apex, zone.records);
    RecordsConsistent(apex, zone.records);
    var hs := RecordHeaders(apex, zone.records).value;
    forall h | h in hs ensures h.rrtype != SOA && h.rrtype != DNSKEY {
      RecordTypesPlain(apex, zone.records, h);
    }
    ConsistentJoin(Header(apex, SOA, CLASS_IN, zone.soa.minimum), hs, keys);
  }
}
