/** NSEC and NSEC3 chains: owner names closed under empty non-terminals, sorted into one cycle. */
module Denial {
  import opened Ordering
  import opened CanonicalOrder
  import opened Chains
  import opened ZoneModel

  const RRSIG := 46
  const NSEC := 47
  const NSEC3 := 50
  const NSEC3PARAM := 51
  const CAA := 257

  datatype RR = RR(name: Name, rrtype: nat)

  /** Records that take part: in the zone and not NSEC3 themselves. */
  predicate Counted(apex: Name, rr: RR) {
    rr.rrtype != NSEC3 && InZone(apex, rr.name)
  }

  ghost function Owners(apex: Name, rrs: seq<RR>): set<Name> {
    set rr | rr in rrs && Counted(apex, rr) :: rr.name
  }

  ghost function TypesAt(apex: Name, rrs: seq<RR>, name: Name): set<nat> {
    set rr | rr in rrs && Counted(apex, rr) && rr.name == name :: rr.rrtype
  }

  /** x is n or one of n's ancestors strictly below the apex. */
  ghost predicate AncestorOrSelf(apex: Name, n: Name, x: Name) {
    x == n || (|apex| < |x| < |n| && n[|n| - |x|..] == x)
  }

  /** The owner names and all their ancestors strictly below the apex. */
  ghost function Closure(apex: Name, owners: set<Name>): set<Name> {
    set n, k: nat | n in owners && k <= |n| && AncestorOrSelf(apex, n, n[k..]) :: n[k..]
  }

  lemma ClosureMember(apex: Name, owners: set<Name>, n: Name, x: Name)
    requires n in owners && AncestorOrSelf(apex, n, x)
    ensures x in Closure(apex, owners)
  {
    var k := |n| - |x|;
    assert n[k..] == x;
  }

  /** The closure, said by membership. */
  lemma ClosureMeaning(apex: Name, owners: set<Name>, x: Name)
    ensures x in Closure(apex, owners) <==> exists n :: n in owners && AncestorOrSelf(apex, n, x)
  {
    if n :| n in owners && AncestorOrSelf(apex, n, x) {
      ClosureMember(apex, owners, n, x);
    }
  }

  /** The chain is free of empty non-terminals, as section 2.3 of RFC 4035 asks, exactly when every
      ancestor of an owner strictly below the apex owns a record itself. */
  lemma ChainListsOwnersOnlyIff(apex: Name, owners: set<Name>)
    ensures Closure(apex, owners) == owners
            <==> forall n, x :: n in owners && AncestorOrSelf(apex, n, x) ==> x in owners
  {
    forall x ensures x in Closure(apex, owners) <==> exists n :: n in owners && AncestorOrSelf(apex, n, x) {
      ClosureMeaning(apex, owners, x);
    }
    forall n | n in owners ensures AncestorOrSelf(apex, n, n) {
    }
  }

  lemma AncestorInZone(apex: Name, n: Name, x: Name)
    requires InZone(apex, n) && AncestorOrSelf(apex, n, x)
    ensures InZone(apex, x)
  {
    if x != n {
      var k := |n| - |x|;
      assert x[|x| - |apex|..] == n[k..][|x| - |apex|..] == n[|n| - |apex|..];
    }
  }

  // ----- collecting names -----

  method ParentDomain(name: Name) returns (parent: Option<Name>)
    ensures parent == if |name| <= 1 then None else Some(name[1..])
  {
    if |name| <= 1 {
      return None;
    }
    return Some(name[1..]);
  }

  /** Adds every missing ancestor of name strictly below the apex. */
  method WalkUp(apex: Name, name: Name, ghost owners: set<Name>, names: set<Name>, ents: set<Name>)
    returns (names': set<Name>, ents': set<Name>)
    requires InZone(apex, name) && name in names
    requires owners <= names && ents == names - owners
    ensures owners <= names' && ents' == names' - owners
    ensures forall x :: x in names' <==> x in names || AncestorOrSelf(apex, name, x)
  {
    names', ents' := names, ents;
    var parent := name;
    while true
      invariant |parent| <= |name| && parent == name[|name| - |parent|..] && InZone(apex, parent)
      invariant owners <= names' && ents' == names' - owners
      invariant forall x :: x in names' <==> x in names || (AncestorOrSelf(apex, name, x) && |x| >= |parent|)
      decreases |parent|
    {
      var up := ParentDomain(parent);
      if up.None? || up.value == apex || !InZone(apex, up.value) {
        WalkEnds(apex, name, parent);
        break;
      }
      WalkContinues(apex, name, parent);
      parent := up.value;
      if parent !in names' {
        ents' := ents' + {parent};
        names' := names' + {parent};
      }
    }
  }

  lemma WalkEnds(apex: Name, name: Name, parent: Name)
    requires |parent| <= |name| && parent == name[|name| - |parent|..] && InZone(apex, parent)
    requires |parent| <= 1 || parent[1..] == apex || !InZone(apex, parent[1..])
    ensures forall x :: AncestorOrSelf(apex, name, x) ==> |x| >= |parent|
  {
  }

  lemma WalkContinues(apex: Name, name: Name, parent: Name)
    requires |parent| <= |name| && parent == name[|name| - |parent|..] && InZone(apex, parent)
    requires |parent| > 1 && parent[1..] != apex && InZone(apex, parent[1..])
    ensures var up := parent[1..];
            && up == name[|name| - |up|..] && AncestorOrSelf(apex, name, up)
            && forall x :: AncestorOrSelf(apex, name, x) && |x| >= |up| ==> |x| >= |parent| || x == up
  {
    var up := parent[1..];
    assert up == name[|name| - |up|..];
    assert |up| > |apex|;
  }

  method CollectOwners(apex: Name, rrs: seq<RR>) returns (names: set<Name>)
    ensures names == Owners(apex, rrs)
  {
    names := {};
    for i := 0 to |rrs|
      invariant names == Owners(apex, rrs[..i])
    {
      OwnersStep(apex, rrs, i);
      if rrs[i].rrtype == NSEC3 {
        continue;
      }
      if !InZone(apex, rrs[i].name) {
        continue;
      }
      names := names + {rrs[i].name};
    }
    assert rrs[..|rrs|] == rrs;
  }

  ghost predicate Walked(apex: Name, visited: set<Name>, names: set<Name>) {
    forall n, x :: n in visited && AncestorOrSelf(apex, n, x) ==> x in names
  }

  /** Closed under taking ancestors, and inside the zone. */
  ghost predicate UpClosed(apex: Name, names: set<Name>) {
    forall n :: n in names ==> InZone(apex, n) && forall x :: AncestorOrSelf(apex, n, x) ==> x in names
  }

  /** Ranging over the name map, in any order, while it grows: the entries present at the start are
      all visited, those added on the way may or may not be. */
  method DeriveEmptyNonTerminals(apex: Name, start: set<Name>, ghost bound: set<Name>)
    returns (names: set<Name>, ents: set<Name>)
    requires start <= bound && UpClosed(apex, bound)
    ensures start <= names <= bound && ents == names - start
    ensures Walked(apex, start, names)
  {
    names, ents := start, {};
    var visited: set<Name> := {};
    var more := true;
    while !(start <= visited) || (more && names - visited != {})
      invariant start <= names <= bound && visited <= names
      invariant ents == names - start && Walked(apex, visited, names)
      decreases bound - visited
    {
      assert names - visited != {} by {
        if !(start <= visited) {
          var w :| w in start && w !in visited;
          assert w in names - visited;
        }
      }
      var name :| name in names - visited;
      names, ents := WalkUp(apex, name, start, names, ents);
      visited := visited + {name};
      more := *;
    }
  }

  /** The names that get a denial record, and which of them own no record. */
  method CollectAuthoritativeNames(apex: Name, rrs: seq<RR>) returns (names: set<Name>, ents: set<Name>)
    ensures names == Closure(apex, Owners(apex, rrs))
    ensures ents == names - Owners(apex, rrs)
  {
    var start := CollectOwners(apex, rrs);
    OwnersInClosure(apex, rrs);
    ClosureIsUpClosed(apex, rrs);
    names, ents := DeriveEmptyNonTerminals(apex, start, Closure(apex, start));
    ClosureWalked(apex, start, start, names);
  }

  lemma ClosureIsUpClosed(apex: Name, rrs: seq<RR>)
    ensures UpClosed(apex, Closure(apex, Owners(apex, rrs)))
  {
    var owners := Owners(apex, rrs);
    forall n | n in Closure(apex, owners)
      ensures InZone(apex, n) && forall x :: AncestorOrSelf(apex, n, x) ==> x in Closure(apex, owners)
    {
      ClosureStaysInZone(apex, rrs, n);
      forall x | AncestorOrSelf(apex, n, x) ensures x in Closure(apex, owners) {
        AncestorClosed(apex, owners, n, x);
      }
    }
  }

  lemma ClosureWalked(apex: Name, owners: set<Name>, visited: set<Name>, names: set<Name>)
    requires owners <= visited && Walked(apex, visited, names)
    ensures Closure(apex, owners) <= names
  {
    forall x | x in Closure(apex, owners) ensures x in names {
      ClosureMeaning(apex, owners, x);
    }
  }

  lemma OwnersStep(apex: Name, rrs: seq<RR>, i: nat)
    requires i < |rrs|
    ensures Owners(apex, rrs[..i + 1])
            == Owners(apex, rrs[..i]) + (if Counted(apex, rrs[i]) then {rrs[i].name} else {})
  {
    assert rrs[..i + 1] == rrs[..i] + [rrs[i]];
  }

  lemma OwnersInClosure(apex: Name, rrs: seq<RR>)
    ensures Owners(apex, rrs) <= Closure(apex, Owners(apex, rrs))
  {
    forall n | n in Owners(apex, rrs) ensures n in Closure(apex, Owners(apex, rrs)) {
      ClosureMember(apex, Owners(apex, rrs), n, n);
    }
  }

  lemma ClosureStaysInZone(apex: Name, rrs: seq<RR>, x: Name)
    requires x in Closure(apex, Owners(apex, rrs))
    ensures InZone(apex, x)
  {
    ClosureMeaning(apex, Owners(apex, rrs), x);
    var n :| n in Owners(apex, rrs) && AncestorOrSelf(apex, n, x);
    AncestorInZone(apex, n, x);
  }

  lemma AncestorClosed(apex: Name, owners: set<Name>, y: Name, x: Name)
    requires y in Closure(apex, owners)
    ensures AncestorOrSelf(apex, y, x) ==> x in Closure(apex, owners)
  {
    if AncestorOrSelf(apex, y, x) {
      ClosureMeaning(apex, owners, y);
      var n :| n in owners && AncestorOrSelf(apex, n, y);
      if x != y && y != n {
        assert n[|n| - |x|..] == n[|n| - |y|..][|y| - |x|..];
      }
      ClosureMember(apex, owners, n, x);
    }
  }

  // ----- type bitmaps -----

  predicate TypeLess(a: nat, b: nat) {
    a < b
  }

  lemma TypeLessIsStrictTotalOrder()
    ensures StrictTotalOrder(TypeLess)
  {
  }

  ghost predicate Ascending(bitmap: seq<nat>) {
    StrictlySorted(TypeLess, bitmap)
  }

  function AppendUnique(bitmap: seq<nat>, t: nat): seq<nat> {
    if t in bitmap then bitmap else bitmap + [t]
  }

  lemma TypesStep(apex: Name, rrs: seq<RR>, i: nat, n: Name)
    requires i < |rrs|
    ensures TypesAt(apex, rrs[..i + 1], n)
            == TypesAt(apex, rrs[..i], n)
               + (if Counted(apex, rrs[i]) && rrs[i].name == n then {rrs[i].rrtype} else {})
  {
    assert rrs[..i + 1] == rrs[..i] + [rrs[i]];
  }

  /** The sorted types at each owner name, and nothing for other names. */
  ghost predicate BitmapsOf(apex: Name, rrs: seq<RR>, bitmaps: map<Name, seq<nat>>) {
    && bitmaps.Keys == Owners(apex, rrs)
    && forall n :: n in bitmaps ==> Ascending(bitmaps[n]) && Elements(bitmaps[n]) == TypesAt(apex, rrs, n)
  }

  method CollectTypes(apex: Name, rrs: seq<RR>) returns (types: map<Name, set<nat>>)
    ensures types.Keys == Owners(apex, rrs)
    ensures forall n :: n in types ==> types[n] == TypesAt(apex, rrs, n)
  {
    types := map[];
    for i := 0 to |rrs|
      invariant types.Keys == Owners(apex, rrs[..i])
      invariant forall n :: n in types ==> types[n] == TypesAt(apex, rrs[..i], n)
    {
      var n := rrs[i].name;
      OwnersStep(apex, rrs, i);
      forall m ensures TypesAt(apex, rrs[..i + 1], m)
                       == TypesAt(apex, rrs[..i], m)
                          + (if Counted(apex, rrs[i]) && n == m then {rrs[i].rrtype} else {})
      {
        TypesStep(apex, rrs, i, m);
      }
      if rrs[i].rrtype == NSEC3 {
        continue;
      }
      if !InZone(apex, n) {
        continue;
      }
      assert n !in types ==> TypesAt(apex, rrs[..i], n) == {};
      types := types[n := (if n in types then types[n] else {}) + {rrs[i].rrtype}];
    }
    assert rrs[..|rrs|] == rrs;
  }

  method TypeBitmapByName(apex: Name, rrs: seq<RR>) returns (bitmaps: map<Name, seq<nat>>)
    ensures BitmapsOf(apex, rrs, bitmaps)
  {
    TypeLessIsStrictTotalOrder();
    var types := CollectTypes(apex, rrs);
    bitmaps := map[];
    var rest := types.Keys;
    while rest != {}
      invariant rest <= types.Keys && bitmaps.Keys == types.Keys - rest
      invariant forall n :: n in bitmaps ==> Ascending(bitmaps[n]) && Elements(bitmaps[n]) == types[n]
      decreases rest
    {
      var n :| n in rest;
      rest := rest - {n};
      var sorted := SortKeys(TypeLess, types[n]);
      bitmaps := bitmaps[n := sorted];
    }
  }

  // ----- NSEC -----

  datatype NsecRecord = NsecRecord(link: Link<Name>, bitmap: seq<nat>)

  ghost function Links(chain: seq<NsecRecord>): (r: seq<Link<Name>>)
    ensures |r| == |chain| && forall i :: 0 <= i < |r| ==> r[i] == chain[i].link
  {
    seq(|chain|, i requires 0 <= i < |chain| => chain[i].link)
  }

  /** The types an NSEC record must show: those at the name, plus NSEC and RRSIG. */
  ghost function NsecTypes(apex: Name, rrs: seq<RR>, n: Name): set<nat> {
    TypesAt(apex, rrs, n) + {NSEC, RRSIG}
  }

  /** One record per listed name: its successor, and its types in ascending order. */
  ghost predicate NsecChain(apex: Name, rrs: seq<RR>, names: seq<Name>, chain: seq<NsecRecord>) {
    && |chain| == |names|
    && (forall i {:trigger chain[i]} :: 0 <= i < |names| ==> NsecEntry(apex, rrs, names[i], chain[i].bitmap))
    && (forall i {:trigger chain[i]} :: 0 <= i < |names| ==> chain[i].link == Link(names[i], names[Wrap(i + 1, |names|)]))
  }

  /** The bitmap lists the types at name n in ascending order. */
  ghost predicate NsecEntry(apex: Name, rrs: seq<RR>, n: Name, bitmap: seq<nat>) {
    Ascending(bitmap) && Elements(bitmap) == NsecTypes(apex, rrs, n)
  }

  /** entry stands for NsecEntry, of which the loop needs no details. */
  method BuildNsecRecords(ghost apex: Name, ghost rrs: seq<RR>, names: seq<Name>,
                          bitmaps: map<Name, seq<nat>>, ents: set<Name>, ghost entry: (Name, seq<nat>) -> bool)
    returns (chain: seq<NsecRecord>)
    requires BitmapsOf(apex, rrs, bitmaps)
    requires forall n <- names :: n in ents <==> n !in Owners(apex, rrs)
    requires forall n, b {:trigger NsecEntry(apex, rrs, n, b)} :: NsecEntry(apex, rrs, n, b) ==> entry(n, b)
    ensures |chain| == |names|
    ensures forall i {:trigger chain[i]} :: 0 <= i < |names| ==> entry(names[i], chain[i].bitmap)
    ensures forall i {:trigger chain[i]} :: 0 <= i < |names| ==> chain[i].link == Link(names[i], names[Wrap(i + 1, |names|)])
  {
    chain := [];
    for i := 0 to |names|
      invariant |chain| == i
      invariant forall j {:trigger chain[j]} :: 0 <= j < i ==> entry(names[j], chain[j].bitmap)
      invariant forall j {:trigger chain[j]} :: 0 <= j < i ==> chain[j].link == Link(names[j], names[Wrap(j + 1, |names|)])
    {
      var record := NsecRecordAt(apex, rrs, names, bitmaps, ents, entry, i);
      chain := chain + [record];
    }
  }

  method NsecRecordAt(ghost apex: Name, ghost rrs: seq<RR>, names: seq<Name>,
                      bitmaps: map<Name, seq<nat>>, ents: set<Name>, ghost entry: (Name, seq<nat>) -> bool, i: nat)
    returns (record: NsecRecord)
    requires BitmapsOf(apex, rrs, bitmaps) && i < |names|
    requires names[i] in ents <==> names[i] !in Owners(apex, rrs)
    requires forall n, b {:trigger NsecEntry(apex, rrs, n, b)} :: NsecEntry(apex, rrs, n, b) ==> entry(n, b)
    ensures entry(names[i], record.bitmap)
    ensures record.link == Link(names[i], names[Wrap(i + 1, |names|)])
  {
    var next := NextOf(names, i);
    var bitmap := NsecBitmap(apex, rrs, bitmaps, ents, names[i]);
    assert NsecEntry(apex, rrs, names[i], bitmap);
    return NsecRecord(Link(names[i], next), bitmap);
  }

  /** Fails only when the zone owns no name at all. */
  method GenerateNsecChain(apex: Name, rrs: seq<RR>)
    returns (chain: Option<seq<NsecRecord>>, ghost names: seq<Name>)
    ensures chain.None? <==> Owners(apex, rrs) == {}
    ensures chain.Some? ==>
              && StrictlySorted(NameLess, names)
              && Elements(names) == Closure(apex, Owners(apex, rrs))
              && NsecChain(apex, rrs, names, chain.value)
  {
    var nameSet, ents := CollectAuthoritativeNames(apex, rrs);
    EmptyClosure(apex, rrs);
    if nameSet == {} {
      return None, [];
    }
    var bitmaps := TypeBitmapByName(apex, rrs);
    NameLessIsStrictTotalOrder();
    var sorted := SortKeys(NameLess, nameSet);
    assert forall n <- sorted :: n in Elements(sorted);
    var records := BuildNsecRecords(apex, rrs, sorted, bitmaps, ents, (n, b) => NsecEntry(apex, rrs, n, b));
    return Some(records), sorted;
  }

  /** rr is a record of the zone, said without the model's own notions: not NSEC3, at the apex with any
      labels in front. */
  ghost predicate ZoneRecord(apex: Name, rr: RR) {
    rr.rrtype != 50 && exists labels: Name :: rr.name == labels + apex
  }

  lemma ZoneRecordMeaning(apex: Name, rr: RR)
    ensures ZoneRecord(apex, rr) <==> Counted(apex, rr)
  {
    InZoneMeaning(apex, rr.name);
  }

  lemma OwnerMeaning(apex: Name, rrs: seq<RR>, n: Name)
    ensures n in Owners(apex, rrs) <==> exists rr :: rr in rrs && ZoneRecord(apex, rr) && rr.name == n
    ensures forall t :: t in TypesAt(apex, rrs, n) <==> exists rr :: rr in rrs && ZoneRecord(apex, rr) && rr == RR(n, t)
  {
    forall rr ensures ZoneRecord(apex, rr) <==> Counted(apex, rr) {
      ZoneRecordMeaning(apex, rr);
    }
    forall t ensures t in TypesAt(apex, rrs, n) <==> exists rr :: rr in rrs && ZoneRecord(apex, rr) && rr == RR(n, t) {
      if t in TypesAt(apex, rrs, n) {
        var rr :| rr in rrs && Counted(apex, rr) && rr.name == n && rr.rrtype == t;
        assert rr == RR(n, t);
      }
    }
  }

  /** The chain against the records: every record's name is listed and shows the record's type; every type
      shown, NSEC (47) and RRSIG (46) aside, is that of a record at the name; and the names listed are exactly
      the records' names and what is left of them, strictly below the apex, without some labels in front. */
  lemma NsecChainMatchesRecords(apex: Name, rrs: seq<RR>, names: seq<Name>, chain: seq<NsecRecord>)
    requires NsecChain(apex, rrs, names, chain) && Elements(names) == Closure(apex, Owners(apex, rrs))
    ensures forall rr :: rr in rrs && ZoneRecord(apex, rr) ==>
              exists i :: 0 <= i < |chain| && chain[i].link.owner == rr.name && rr.rrtype in chain[i].bitmap
    ensures forall i, t :: 0 <= i < |chain| ==>
              (t in chain[i].bitmap <==> NsecShows(apex, rrs, chain[i].link.owner, t))
    ensures forall x :: (exists i :: 0 <= i < |chain| && chain[i].link.owner == x) <==> ComesFromRecord(apex, rrs, x)
    ensures forall i, j, k :: 0 <= i < |chain| && 0 <= j < k < |chain[i].bitmap| ==> chain[i].bitmap[j] < chain[i].bitmap[k]
  {
    forall i, j, k | 0 <= i < |chain| && 0 <= j < k < |chain[i].bitmap| ensures chain[i].bitmap[j] < chain[i].bitmap[k] {
      assert NsecEntry(apex, rrs, names[i], chain[i].bitmap);
      assert TypeLess(chain[i].bitmap[j], chain[i].bitmap[k]);
    }
    forall i, t | 0 <= i < |chain|
      ensures t in chain[i].bitmap <==> NsecShows(apex, rrs, chain[i].link.owner, t)
    {
      assert chain[i].link.owner == names[i];
      NsecTypesShown(apex, rrs, names[i], chain[i].bitmap, t);
    }
    forall rr | rr in rrs && ZoneRecord(apex, rr)
      ensures exists i :: 0 <= i < |chain| && chain[i].link.owner == rr.name && rr.rrtype in chain[i].bitmap
    {
      OwnerMeaning(apex, rrs, rr.name);
      ClosureMember(apex, Owners(apex, rrs), rr.name, rr.name);
      assert rr.name in Elements(names);
      var i :| 0 <= i < |names| && names[i] == rr.name;
      assert chain[i].link.owner == rr.name && rr == RR(rr.name, rr.rrtype);
      assert NsecShows(apex, rrs, chain[i].link.owner, rr.rrtype);
    }
    forall x ensures (exists i :: 0 <= i < |chain| && chain[i].link.owner == x) <==> ComesFromRecord(apex, rrs, x) {
      ListedIffFromRecord(apex, rrs, x);
      if i :| 0 <= i < |chain| && chain[i].link.owner == x {
        assert names[i] in Elements(names) && chain[i].link.owner == names[i];
      }
      if ComesFromRecord(apex, rrs, x) {
        assert x in Elements(names);
        var i :| 0 <= i < |names| && names[i] == x;
        assert chain[i].link.owner == x;
      }
    }
  }

  ghost predicate NsecShows(apex: Name, rrs: seq<RR>, n: Name, t: nat) {
    t == 46 || t == 47 || exists rr :: rr in rrs && ZoneRecord(apex, rr) && rr == RR(n, t)
  }

  lemma NsecTypesShown(apex: Name, rrs: seq<RR>, n: Name, bitmap: seq<nat>, t: nat)
    requires NsecEntry(apex, rrs, n, bitmap)
    ensures t in bitmap <==> NsecShows(apex, rrs, n, t)
  {
    OwnerMeaning(apex, rrs, n);
    assert t in bitmap <==> t in Elements(bitmap);
  }

  ghost predicate ComesFromRecord(apex: Name, rrs: seq<RR>, x: Name) {
    exists rr, labels: Name ::
      rr in rrs && ZoneRecord(apex, rr) && rr.name == labels + x && (labels != [] ==> |x| > |apex|)
  }

  lemma AncestorMeaning(apex: Name, n: Name, x: Name)
    ensures AncestorOrSelf(apex, n, x) <==> exists labels: Name :: n == labels + x && (labels != [] ==> |x| > |apex|)
  {
    if AncestorOrSelf(apex, n, x) {
      assert n == n[..|n| - |x|] + x;
    }
    if labels: Name :| n == labels + x && (labels != [] ==> |x| > |apex|) {
      assert labels == [] ==> n == x;
      assert n[|n| - |x|..] == x;
    }
  }

  lemma ListedComesFromRecord(apex: Name, rrs: seq<RR>, x: Name)
    requires x in Closure(apex, Owners(apex, rrs))
    ensures ComesFromRecord(apex, rrs, x)
  {
    ClosureMeaning(apex, Owners(apex, rrs), x);
    var n :| n in Owners(apex, rrs) && AncestorOrSelf(apex, n, x);
    OwnerMeaning(apex, rrs, n);
    var rr :| rr in rrs && ZoneRecord(apex, rr) && rr.name == n;
    AncestorMeaning(apex, n, x);
    var labels: Name :| n == labels + x && (labels != [] ==> |x| > |apex|);
    assert rr.name == labels + x;
  }

  lemma RecordIsListed(apex: Name, rrs: seq<RR>, x: Name)
    requires ComesFromRecord(apex, rrs, x)
    ensures x in Closure(apex, Owners(apex, rrs))
  {
    var rr, labels: Name :| rr in rrs && ZoneRecord(apex, rr) && rr.name == labels + x && (labels != [] ==> |x| > |apex|);
    OwnerMeaning(apex, rrs, rr.name);
    AncestorMeaning(apex, rr.name, x);
    ClosureMember(apex, Owners(apex, rrs), rr.name, x);
  }

  lemma ListedIffFromRecord(apex: Name, rrs: seq<RR>, x: Name)
    ensures x in Closure(apex, Owners(apex, rrs)) <==> ComesFromRecord(apex, rrs, x)
  {
    if x in Closure(apex, Owners(apex, rrs)) {
      ListedComesFromRecord(apex, rrs, x);
    }
    if ComesFromRecord(apex, rrs, x) {
      RecordIsListed(apex, rrs, x);
    }
  }

  lemma EmptyClosure(apex: Name, rrs: seq<RR>)
    ensures Closure(apex, Owners(apex, rrs)) == {} <==> Owners(apex, rrs) == {}
  {
    OwnersInClosure(apex, rrs);
  }

  /** Following the records from any owner visits every owner once before coming home. */
  lemma NsecChainIsOneCycle(apex: Name, rrs: seq<RR>, names: seq<Name>, chain: seq<NsecRecord>, i: nat, k: nat)
    requires NsecChain(apex, rrs, names, chain) && StrictlySorted(NameLess, names)
    requires i < |names| && 0 < k <= |names|
    ensures Chained(Links(chain), names)
    ensures Follow(Links(chain), names[i], k) == names[i] <==> k == |names|
  {
    NameLessIsStrictTotalOrder();
    SortedIsDistinct(NameLess, names);
    forall j | 0 <= j < |names|
      ensures Links(chain)[j].owner == names[j] && Links(chain)[j].next == names[Wrap(j + 1, |names|)]
    {
      assert chain[j].link == Link(names[j], names[Wrap(j + 1, |names|)]);
    }
    FullTurn(Links(chain), names, i, k);
  }

  method NsecBitmap(ghost apex: Name, ghost rrs: seq<RR>, bitmaps: map<Name, seq<nat>>, ents: set<Name>, n: Name)
    returns (bitmap: seq<nat>)
    requires BitmapsOf(apex, rrs, bitmaps)
    requires n in ents <==> n !in Owners(apex, rrs)
    ensures Ascending(bitmap) && Elements(bitmap) == NsecTypes(apex, rrs, n)
  {
    bitmap := if n in bitmaps then bitmaps[n] else [];
    if n in ents {
      bitmap := [];
    }
    assert Elements(bitmap) == TypesAt(apex, rrs, n);
    bitmap := AppendUnique(bitmap, NSEC);
    bitmap := AppendUnique(bitmap, RRSIG);
    assert Elements(bitmap) == NsecTypes(apex, rrs, n);
    TypeLessIsStrictTotalOrder();
    bitmap := SortKeys(TypeLess, set t | t in bitmap);
  }

  /** The apex, which owns the SOA record, comes first, and the last record points back to it. */
  lemma ApexLeadsTheChain(apex: Name, rrs: seq<RR>, names: seq<Name>)
    requires StrictlySorted(NameLess, names) && Elements(names) == Closure(apex, Owners(apex, rrs))
    requires apex in Owners(apex, rrs)
    ensures names != [] && names[0] == apex
  {
    OwnersInClosure(apex, rrs);
    assert apex in Elements(names);
    NameLessIsStrictTotalOrder();
    forall n | n in names ensures n == apex || NameLess(apex, n) {
      assert n in Elements(names);
      ClosureStaysInZone(apex, rrs, n);
      if n != apex {
        ApexIsFirst(apex, n);
      }
    }
    LeastComesFirst(NameLess, names, apex);
  }

  /** Section 5.4 of RFC 4035 in one sentence: a name of the zone that the chain does not list lies
      strictly between one owner and its successor, or after the last owner, and in no other gap. */
  lemma AbsentNameIsCoveredOnce(apex: Name, rrs: seq<RR>, names: seq<Name>, x: Name) returns (i: nat)
    requires StrictlySorted(NameLess, names) && Elements(names) == Closure(apex, Owners(apex, rrs))
    requires apex in Owners(apex, rrs)
    requires InZone(apex, x) && x !in names
    ensures i < |names| && NameLess(names[i], x) && (i + 1 < |names| ==> NameLess(x, names[i + 1]))
    ensures forall j: nat :: j < |names| && InGap(NameLess, names, j, x) ==> j == i
  {
    ApexLeadsTheChain(apex, rrs, names);
    NameLessIsStrictTotalOrder();
    ApexIsFirst(apex, x);
    i := ExactlyOneGap(NameLess, names, x);
  }

  // ----- NSEC3 -----

  datatype Nsec3Record = Nsec3Record(link: Link<string>, bitmap: seq<nat>)

  ghost function Links3(chain: seq<Nsec3Record>): (r: seq<Link<string>>)
    ensures |r| == |chain| && forall i :: 0 <= i < |r| ==> r[i] == chain[i].link
  {
    seq(|chain|, i requires 0 <= i < |chain| => chain[i].link)
  }

  ghost predicate InjectiveOn(hash: Name -> string, names: set<Name>) {
    forall n, m :: n in names && m in names && hash(n) == hash(m) ==> n == m
  }

  /** The types an NSEC3 record shows: those at the name, plus NSEC3PARAM at the apex. */
  ghost function Nsec3Types(apex: Name, rrs: seq<RR>, n: Name): set<nat> {
    if n == apex && n in Owners(apex, rrs) then TypesAt(apex, rrs, n) + {NSEC3PARAM}
    else TypesAt(apex, rrs, n)
  }

  /** hashToName holds exactly the hashes of names, each with its own name. */
  ghost predicate HashTable(hash: Name -> string, names: set<Name>, table: map<string, Name>) {
    && (forall h :: h in table ==> table[h] in names && hash(table[h]) == h)
    && (forall n :: n in names ==> hash(n) in table && table[hash(n)] == n)
  }

  /** Fails at the first collision, whatever the order the names come in. */
  method HashNames(hash: Name -> string, names: set<Name>) returns (table: Option<map<string, Name>>)
    ensures table.Some? <==> InjectiveOn(hash, names)
    ensures table.Some? ==> HashTable(hash, names, table.value)
  {
    var seen: map<string, Name> := map[];
    var rest := names;
    while rest != {}
      invariant rest <= names && HashTable(hash, names - rest, seen)
      decreases rest
    {
      var n :| n in rest;
      rest := rest - {n};
      if hash(n) in seen {
        assert seen[hash(n)] in names && seen[hash(n)] != n;
        return None;
      }
      seen := seen[hash(n) := n];
    }
    return Some(seen);
  }

  /** The apex holds a type above NSEC3PARAM, which is appended behind it. */
  ghost predicate ParamOutOfPlace(apex: Name, rrs: seq<RR>, n: Name) {
    && n == apex && NSEC3PARAM !in TypesAt(apex, rrs, n)
    && exists t :: t in TypesAt(apex, rrs, n) && t > NSEC3PARAM
  }

  method Nsec3Bitmap(ghost apex: Name, ghost rrs: seq<RR>, bitmaps: map<Name, seq<nat>>, ents: set<Name>,
                     atApex: bool, n: Name) returns (bitmap: seq<nat>)
    requires BitmapsOf(apex, rrs, bitmaps)
    requires n in ents <==> n !in Owners(apex, rrs)
    requires atApex <==> n == apex
    ensures Nsec3Entry(apex, rrs, n, bitmap)
  {
    if n in ents {
      assert TypesAt(apex, rrs, n) == {};
      return [];
    }
    bitmap := bitmaps[n];
    if atApex {
      var types := bitmap;
      bitmap := AppendUnique(bitmap, NSEC3PARAM);
      ApexBitmapOrder(types);
      assert Elements(bitmap) == Elements(types) + {NSEC3PARAM};
      assert forall t :: t in types <==> t in TypesAt(apex, rrs, n) by {
        assert forall t :: t in types <==> t in Elements(types);
      }
    }
  }

  /** NSEC3PARAM is appended, not inserted: the bitmap stays ascending exactly when no larger type
      is present (or NSEC3PARAM already is). */
  lemma ApexBitmapOrder(types: seq<nat>)
    requires Ascending(types)
    ensures Ascending(AppendUnique(types, NSEC3PARAM))
            <==> NSEC3PARAM in types || forall t <- types :: t < NSEC3PARAM
  {
    var r := AppendUnique(types, NSEC3PARAM);
    if NSEC3PARAM !in types {
      if Ascending(r) {
        forall t | t in types ensures t < NSEC3PARAM {
          var i :| 0 <= i < |types| && types[i] == t;
          assert TypeLess(r[i], r[|types|]);
        }
      } else if forall t <- types :: t < NSEC3PARAM {
        forall i, j | 0 <= i < j < |r| ensures TypeLess(r[i], r[j]) {
          assert r[i] == types[i] && types[i] in types;
        }
      }
    }
  }

  /** A CAA record at the apex breaks the ascending order that section 3.2.1 of RFC 5155 asks for. */
  lemma CaaAtApexBreaksOrder()
    ensures Ascending([2, 6, CAA]) && !Ascending(AppendUnique([2, 6, CAA], NSEC3PARAM))
  {
    ApexBitmapOrder([2, 6, CAA]);
    assert CAA in [2, 6, CAA];
  }

  /** One record per listed hash: its successor, and the types at the name behind it. */
  ghost predicate Nsec3Chain(apex: Name, rrs: seq<RR>, table: map<string, Name>, hashes: seq<string>,
                             chain: seq<Nsec3Record>)
  {
    && |chain| == |hashes|
    && (forall i {:trigger chain[i]} :: 0 <= i < |hashes| ==> hashes[i] in table && Nsec3Entry(apex, rrs, table[hashes[i]], chain[i].bitmap))
    && (forall i {:trigger chain[i]} :: 0 <= i < |hashes| ==> chain[i].link == Link(hashes[i], hashes[Wrap(i + 1, |hashes|)]))
  }

  /** The bitmap holds the types at name n, in order exactly when NSEC3PARAM is not out of place. */
  ghost predicate Nsec3Entry(apex: Name, rrs: seq<RR>, n: Name, bitmap: seq<nat>) {
    && Elements(bitmap) == Nsec3Types(apex, rrs, n)
    && (Ascending(bitmap) <==> !ParamOutOfPlace(apex, rrs, n))
    && (n !in Owners(apex, rrs) ==> bitmap == [])
  }

  /** entry stands for Nsec3Entry, of which the loop needs no details. */
  method BuildNsec3Records(apex: Name, ghost rrs: seq<RR>, table: map<string, Name>, hashes: seq<string>,
                           bitmaps: map<Name, seq<nat>>, ents: set<Name>, ghost entry: (Name, seq<nat>) -> bool)
    returns (chain: seq<Nsec3Record>)
    requires BitmapsOf(apex, rrs, bitmaps)
    requires forall h <- hashes :: h in table && (table[h] in ents <==> table[h] !in Owners(apex, rrs))
    requires forall n, b {:trigger Nsec3Entry(apex, rrs, n, b)} :: Nsec3Entry(apex, rrs, n, b) ==> entry(n, b)
    ensures |chain| == |hashes|
    ensures forall i {:trigger chain[i]} :: 0 <= i < |hashes| ==> entry(table[hashes[i]], chain[i].bitmap)
    ensures forall i {:trigger chain[i]} :: 0 <= i < |hashes| ==> chain[i].link == Link(hashes[i], hashes[Wrap(i + 1, |hashes|)])
  {
    chain := [];
    for i := 0 to |hashes|
      invariant |chain| == i
      invariant forall j {:trigger chain[j]} :: 0 <= j < i ==> entry(table[hashes[j]], chain[j].bitmap)
      invariant forall j {:trigger chain[j]} :: 0 <= j < i ==> chain[j].link == Link(hashes[j], hashes[Wrap(j + 1, |hashes|)])
    {
      var record := Nsec3RecordAt(apex, rrs, table, hashes, bitmaps, ents, entry, i);
      chain := chain + [record];
    }
  }

  method Nsec3RecordAt(apex: Name, ghost rrs: seq<RR>, table: map<string, Name>, hashes: seq<string>,
                       bitmaps: map<Name, seq<nat>>, ents: set<Name>, ghost entry: (Name, seq<nat>) -> bool, i: nat)
    returns (record: Nsec3Record)
    requires BitmapsOf(apex, rrs, bitmaps) && i < |hashes| && hashes[i] in table
    requires table[hashes[i]] in ents <==> table[hashes[i]] !in Owners(apex, rrs)
    requires forall n, b {:trigger Nsec3Entry(apex, rrs, n, b)} :: Nsec3Entry(apex, rrs, n, b) ==> entry(n, b)
    ensures entry(table[hashes[i]], record.bitmap)
    ensures record.link == Link(hashes[i], hashes[Wrap(i + 1, |hashes|)])
  {
    var name := table[hashes[i]];
    var next := NextOf(hashes, i);
    var bitmap := Nsec3Bitmap(apex, rrs, bitmaps, ents, name == apex, name);
    return Nsec3Record(Link(hashes[i], next), bitmap);
  }

  /** Succeeds exactly when the hash keeps the closed name set apart; the records then form one
      sorted cycle over the hashes. */
  method GenerateNsec3Chain(apex: Name, rrs: seq<RR>, hash: Name -> string)
    returns (chain: Option<seq<Nsec3Record>>, ghost hashes: seq<string>, ghost table: map<string, Name>)
    ensures chain.Some? <==> InjectiveOn(hash, Closure(apex, Owners(apex, rrs)))
    ensures chain.Some? ==>
              && HashTable(hash, Closure(apex, Owners(apex, rrs)), table)
              && StrictlySorted(StringLess, hashes) && Elements(hashes) == table.Keys
              && Nsec3Chain(apex, rrs, table, hashes, chain.value)
  {
    var names, ents := CollectAuthoritativeNames(apex, rrs);
    var bitmaps := TypeBitmapByName(apex, rrs);
    var hashed := HashNames(hash, names);
    if hashed.None? {
      return None, [], map[];
    }
    var hashToName := hashed.value;
    StringLessIsStrictTotalOrder();
    var sorted := SortKeys(StringLess, hashToName.Keys);
    assert forall h <- sorted :: h in Elements(sorted);
    var records := BuildNsec3Records(apex, rrs, hashToName, sorted, bitmaps, ents, (n, b) => Nsec3Entry(apex, rrs, n, b));
    return Some(records), sorted, hashToName;
  }

  lemma Nsec3ChainIsOneCycle(apex: Name, rrs: seq<RR>, table: map<string, Name>, hashes: seq<string>,
                             chain: seq<Nsec3Record>, i: nat, k: nat)
    requires Nsec3Chain(apex, rrs, table, hashes, chain) && StrictlySorted(StringLess, hashes)
    requires i < |hashes| && 0 < k <= |hashes|
    ensures Chained(Links3(chain), hashes)
    ensures Follow(Links3(chain), hashes[i], k) == hashes[i] <==> k == |hashes|
  {
    StringLessIsStrictTotalOrder();
    SortedIsDistinct(StringLess, hashes);
    forall j | 0 <= j < |hashes|
      ensures Links3(chain)[j].owner == hashes[j] && Links3(chain)[j].next == hashes[Wrap(j + 1, |hashes|)]
    {
      assert chain[j].link == Link(hashes[j], hashes[Wrap(j + 1, |hashes|)]);
    }
    FullTurn(Links3(chain), hashes, i, k);
  }

  /** The same for NSEC3: every record's name has an entry under its hash that shows the record's type; and a
      type shown is that of a record at the name behind the hash, or NSEC3PARAM (51) at the apex. */
  lemma Nsec3ChainMatchesRecords(apex: Name, rrs: seq<RR>, hash: Name -> string, table: map<string, Name>,
                                 hashes: seq<string>, chain: seq<Nsec3Record>)
    requires Nsec3Chain(apex, rrs, table, hashes, chain) && Elements(hashes) == table.Keys
    requires HashTable(hash, Closure(apex, Owners(apex, rrs)), table)
    ensures forall rr :: rr in rrs && ZoneRecord(apex, rr) ==>
              exists i :: 0 <= i < |chain| && chain[i].link.owner == hash(rr.name) && rr.rrtype in chain[i].bitmap
    ensures forall i, t :: 0 <= i < |chain| ==>
              && chain[i].link.owner in table && hash(table[chain[i].link.owner]) == chain[i].link.owner
              && (t in chain[i].bitmap <==> Nsec3Shows(apex, rrs, table[chain[i].link.owner], t))
    ensures forall x :: ComesFromRecord(apex, rrs, x) <==> hash(x) in table && table[hash(x)] == x
  {
    forall x ensures ComesFromRecord(apex, rrs, x) <==> hash(x) in table && table[hash(x)] == x {
      ListedIffFromRecord(apex, rrs, x);
    }
    forall i, t | 0 <= i < |chain|
      ensures chain[i].link.owner in table && hash(table[chain[i].link.owner]) == chain[i].link.owner
      ensures t in chain[i].bitmap <==> Nsec3Shows(apex, rrs, table[chain[i].link.owner], t)
    {
      assert chain[i].link.owner == hashes[i];
      Nsec3TypesShown(apex, rrs, table[hashes[i]], chain[i].bitmap, t);
    }
    forall rr | rr in rrs && ZoneRecord(apex, rr)
      ensures exists i :: 0 <= i < |chain| && chain[i].link.owner == hash(rr.name) && rr.rrtype in chain[i].bitmap
    {
      OwnerMeaning(apex, rrs, rr.name);
      ClosureMember(apex, Owners(apex, rrs), rr.name, rr.name);
      assert hash(rr.name) in Elements(hashes);
      var i :| 0 <= i < |hashes| && hashes[i] == hash(rr.name);
      assert chain[i].link.owner == hash(rr.name) && table[hashes[i]] == rr.name;
      assert rr == RR(rr.name, rr.rrtype);
      assert Nsec3Shows(apex, rrs, table[chain[i].link.owner], rr.rrtype);
    }
  }

  ghost predicate Nsec3Shows(apex: Name, rrs: seq<RR>, n: Name, t: nat) {
    || (exists rr :: rr in rrs && ZoneRecord(apex, rr) && rr == RR(n, t))
    || (t == 51 && n == apex && exists rr :: rr in rrs && ZoneRecord(apex, rr) && rr.name == apex)
  }

  lemma Nsec3TypesShown(apex: Name, rrs: seq<RR>, n: Name, bitmap: seq<nat>, t: nat)
    requires Nsec3Entry(apex, rrs, n, bitmap)
    ensures t in bitmap <==> Nsec3Shows(apex, rrs, n, t)
  {
    OwnerMeaning(apex, rrs, n);
    assert t in bitmap <==> t in Elements(bitmap);
  }

  /** Every hash that no name of the zone has is covered by exactly one NSEC3 record. */
  lemma AbsentHashIsCoveredOnce(hashes: seq<string>, h: string) returns (i: nat)
    requires StrictlySorted(StringLess, hashes) && hashes != [] && h !in hashes
    ensures i < |hashes| && InGap(StringLess, hashes, i, h)
    ensures forall j: nat :: j < |hashes| && InGap(StringLess, hashes, j, h) ==> j == i
  {
    StringLessIsStrictTotalOrder();
    i := ExactlyOneGap(StringLess, hashes, h);
  }
}
