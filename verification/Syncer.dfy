/** The agent's reconciliation cycle over zone files, the managed-zone index and the service references. */
module Syncer {
  import opened Ordering
  import opened Serials
  import opened ZoneModel
  import opened Text
  import opened AgentFiles

  datatype ZoneState = ZoneState(version: string, failCount: nat)

  /** What the controller answers when a zone is fetched. */
  datatype Response = Failed | NotModified | Full(content: string, etag: string)

  /** What file operations and service commands answer while one zone is synced: reading the local file for
      the ETag and for the serial, the write, the apply, and the rollback after a failed apply. */
  datatype SyncScript = SyncScript(etagReadable: bool, serialReadable: bool, write: WriteScript, apply: PutScript,
                                   undo: UndoScript, restore: PutScript, drop: DropScript) {
    predicate Ok() {
      write.Ok() && apply.Ok()
    }
  }

  /** Everything outside the agent during one cycle, by the zone name at hand. */
  datatype World = World(response: string -> Response, sync: string -> SyncScript,
                         removal: string -> RemovalScript, listable: bool) {
    ghost predicate LosesNoFile() {
      forall z :: !removal(z).LosesFile()
    }

    ghost predicate RemovesWell() {
      listable && forall z :: removal(z).Ok()
    }
  }

  function TrimQuotes(s: string): string
    decreases |s|
  {
    if s != "" && s[0] == '"' then TrimQuotes(s[1..])
    else if s != "" && s[|s| - 1] == '"' then TrimQuotes(s[..|s| - 1])
    else s
  }

  /** An ETag without its weakness mark, blanks and quotes. */
  function EtagValue(etag: string): string {
    var t := TrimSpace(etag);
    TrimQuotes(TrimSpace(if "W/" <= t then t[2..] else t))
  }

  predicate HexDigit(c: char) {
    '0' <= c <= '9' || 'a' <= c <= 'f' || 'A' <= c <= 'F'
  }

  /** The ETag is a SHA-256 of the content. */
  predicate IsContentHash(etag: string) {
    |EtagValue(etag)| == 64 && forall i :: 0 <= i < 64 ==> HexDigit(EtagValue(etag)[i])
  }

  /** A SHA-256 in hexadecimal. */
  ghost predicate Sha256Hex(h: string) {
    |h| == 64 && forall c <- h :: '0' <= c <= '9' || 'a' <= c <= 'f' || 'A' <= c <= 'F'
  }

  /** The ways an ETag header spells h: bare or in double quotes, weak or not, with blanks around. */
  ghost predicate Spells(etag: string, h: string) {
    exists pre, post, weak: bool, quoted: bool :: Spaces(pre) && Spaces(post) && etag == pre + Spelling(h, weak, quoted) + post
  }

  function Spelling(h: string, weak: bool, quoted: bool): string {
    (if weak then "W/" else "") + (if quoted then "\"" + h + "\"" else h)
  }

  lemma HexEnds(h: string)
    requires Sha256Hex(h)
    ensures h[0] != '"' && h[63] != '"' && h[0] != 'W' && !White(h[0]) && !White(h[63])
  {
    assert h[0] in h && h[63] in h;
  }

  lemma QuotesComeOff(h: string, quoted: bool)
    requires Sha256Hex(h)
    ensures TrimQuotes(Spelling(h, false, quoted)) == h
  {
    HexEnds(h);
    assert TrimQuotes(h) == h;
    var s := Spelling(h, false, quoted);
    if quoted {
      var t := h + "\"";
      assert t[0] == h[0] && t[64] == '"' && t[..64] == h;
      assert TrimQuotes(t) == TrimQuotes(h);
      assert s[0] == '"' && s[1..] == t;
    } else {
      assert s == h;
    }
  }

  lemma SpellingIsTight(h: string, weak: bool, quoted: bool)
    requires Sha256Hex(h)
    ensures Tight(Spelling(h, weak, quoted)) && ("W/" <= Spelling(h, weak, quoted) <==> weak)
    ensures weak ==> Spelling(h, weak, quoted)[2..] == Spelling(h, false, quoted)
  {
    HexEnds(h);
    var s, bare := Spelling(h, weak, quoted), Spelling(h, false, quoted);
    assert bare == if quoted then "\"" + h + "\"" else h;
    assert bare[0] == (if quoted then '"' else h[0]) && bare[|bare| - 1] == (if quoted then '"' else h[63]);
    if weak {
      assert s == "W/" + bare && s[|s| - 1] == bare[|bare| - 1];
    } else {
      assert s == bare && s[0] != 'W';
    }
  }

  lemma EtagOfSpelling(h: string, pre: string, post: string, weak: bool, quoted: bool)
    requires Sha256Hex(h) && Spaces(pre) && Spaces(post)
    ensures EtagValue(pre + Spelling(h, weak, quoted) + post) == h
  {
    var t, u := Spelling(h, weak, quoted), Spelling(h, false, quoted);
    SpellingIsTight(h, weak, quoted);
    SpellingIsTight(h, false, quoted);
    TrimOfPadded(pre, t, post);
    TrimOfPadded("", u, "");
    assert "" + u + "" == u;
    QuotesComeOff(h, quoted);
  }

  /** Every spelling of h stands for h and is taken for a content hash. */
  lemma EtagMeaning(etag: string, h: string)
    requires Sha256Hex(h) && Spells(etag, h)
    ensures EtagValue(etag) == h && IsContentHash(etag)
  {
    var pre, post, weak: bool, quoted: bool :|
      Spaces(pre) && Spaces(post) && etag == pre + Spelling(h, weak, quoted) + post;
    EtagOfSpelling(h, pre, post, weak, quoted);
    assert forall i :: 0 <= i < 64 ==> h[i] in h;
  }

  /** Every listed name is valid, and no two are spellings of one zone. */
  ghost predicate ListAccepted(naming: Naming, zones: seq<string>) {
    && (forall i :: 0 <= i < |zones| ==> naming.valid(zones[i]))
    && (forall i, j :: 0 <= i < j < |zones| ==> naming.norm(zones[i]) != naming.norm(zones[j]))
  }

  method ValidateControllerZoneList(naming: Naming, zones: seq<string>) returns (ok: bool)
    ensures ok <==> ListAccepted(naming, zones)
  {
    var seen: set<string> := {};
    for i := 0 to |zones|
      invariant ListAccepted(naming, zones[..i])
      invariant forall n :: n in seen <==> exists j :: 0 <= j < i && naming.norm(zones[j]) == n
    {
      assert zones[..i + 1] == zones[..i] + [zones[i]];
      if !naming.valid(zones[i]) || naming.norm(zones[i]) in seen {
        return false;
      }
      seen := seen + {naming.norm(zones[i])};
    }
    assert zones[..|zones|] == zones;
    return true;
  }

  function FilesOf(naming: Naming, zones: set<string>): set<string> {
    set z | z in zones :: naming.fileOf(z)
  }

  function FailCount(states: map<string, ZoneState>, z: string): nat {
    if z in states then states[z].failCount else 0
  }

  function Version(states: map<string, ZoneState>, z: string): string {
    if z in states then states[z].version else ""
  }

  /** A zone without a state counts as never failed and without a version. */
  lemma StateMeaning(states: map<string, ZoneState>, z: string)
    ensures z in states ==> ZoneState(Version(states, z), FailCount(states, z)) == states[z]
    ensures z !in states ==> Version(states, z) == "" && FailCount(states, z) == 0
  {
  }

  /** Which promises about the services hold at the start and have to be kept: that only the given zones,
      which have files of their own, are known; that no reference dangles; that every reference is tracked. */
  datatype Goals = Goals(zones: set<string>, named: bool, served: bool, tracked: bool)

  /** A zone that a step touches, and the zones that are known. */
  datatype Touch = Touch(zone: string, known: set<string>)

  class Agent {
    const fm: ZoneFiles
    const svc: Services
    const serialOf: (string, string) -> Option<uint32>
    const hashOf: string -> string
    var states: map<string, ZoneState>
    var lastSuccess: Option<int>

    constructor (fm: ZoneFiles, svc: Services, serialOf: (string, string) -> Option<uint32>, hashOf: string -> string)
      requires fm.naming.Agrees() && fm.IndexSound()
      ensures this.fm == fm && this.svc == svc && this.serialOf == serialOf && this.hashOf == hashOf
      ensures states == map[] && lastSuccess == None && Ready()
    {
      this.fm, this.svc, this.serialOf, this.hashOf := fm, svc, serialOf, hashOf;
      states := map[];
      lastSuccess := None;
    }

    function FileOf(z: string): string {
      fm.naming.fileOf(z)
    }

    /** Holds in every reachable state. */
    ghost predicate Ready()
      reads this, fm
    {
      && fm.naming.Agrees()
      && fm.IndexSound()
      && (forall z :: z in states ==> fm.naming.valid(z))
    }

    /** The services, the states and the index know zones of this set only, and those have files of
        their own. */
    ghost predicate Named(zones: set<string>)
      reads this, svc, fm
    {
      && fm.naming.Apart(zones)
      && (forall n {:trigger svc.References(n)} :: svc.References(n) ==> n in zones)
      && (forall z :: z in states ==> fm.naming.norm(z) in zones)
      && (forall f :: f in fm.index ==> fm.naming.norm(fm.index[f]) in zones)
    }

    /** No service points at a missing zone file. */
    ghost predicate NoDangling()
      reads this, svc, fm
    {
      forall n :: svc.References(n) ==> FileOf(n) in fm.files
    }

    /** The agent still knows of a zone with file f, so that a later cycle can remove it. */
    ghost predicate Knows(f: string)
      reads this, fm
    {
      f in fm.index || exists z :: z in states && FileOf(z) == f
    }

    /** The agent knows every zone that a service references. */
    ghost predicate Tracked()
      reads this, svc, fm
    {
      forall n :: svc.References(n) ==> Knows(FileOf(n))
    }

    ghost predicate Keeps(g: Goals)
      reads this, svc, fm
    {
      && (g.named ==> Named(g.zones))
      && (g.named && g.served ==> NoDangling())
      && (g.named && g.tracked ==> Tracked())
    }

    /** The zone is tracked without failures and its file is there. */
    ghost predicate InSync(z: string)
      reads this, fm
    {
      z in states && states[z].failCount == 0 && FileOf(z) in fm.files
    }

    /** Both services reference the zone. */
    ghost predicate Served(z: string)
      reads this, svc
    {
      svc.RefsOf(fm.naming.norm(z)) == Refs(true, true)
    }

    /** A successful sync serves the zone exactly if it was fetched in full or served before. */
    twostate predicate ServedAfter(z: string, full: bool)
      reads this, svc
    {
      Served(z) <==> full || old(Served(z))
    }

    /** References of zones with other files are as before. */
    twostate predicate KeepsRefs(files: set<string>)
      reads this, svc
    {
      forall n :: FileOf(n) !in files ==> svc.RefsOf(n) == old(svc.RefsOf(n))
    }

    // ----- one zone -----

    /** A fetch can be conditional: there is a version, the local file is there, and if the version is a
        content hash the file can be read and has that hash. */
    ghost predicate HasEtag(z: string, readable: bool)
      reads this, fm
    {
      && z in states && states[z].version != "" && FileOf(z) in fm.files
      && (IsContentHash(states[z].version) ==>
            readable && hashOf(fm.files[FileOf(z)].data) == EtagValue(states[z].version))
    }

    /** The content parses and is not older than the local file, if that can be read. */
    ghost predicate Fresh(z: string, content: string, readable: bool)
      reads fm
    {
      && serialOf(z, content).Some?
      && (readable && FileOf(z) in fm.files && serialOf(z, fm.files[FileOf(z)].data).Some? ==>
            !ZoneSerialBefore(serialOf(z, content).value, serialOf(z, fm.files[FileOf(z)].data).value))
    }

    /** Exactly when syncing a zone succeeds. */
    ghost predicate WillSync(z: string, response: Response, s: SyncScript)
      reads this, fm
    {
      fm.naming.valid(z) &&
      match response
      case Failed => false
      case NotModified => HasEtag(z, s.etagReadable)
      case Full(content, _) => Fresh(z, content, s.serialReadable) && s.Ok()
    }

    /** A zone whose known version spells a content hash passes as unmodified exactly if its file is there,
        can be read and has that hash; with any other version, exactly if its file is there. */
    lemma UnmodifiedMeansIntact(z: string, s: SyncScript)
      requires fm.naming.valid(z) && z in states && states[z].version != ""
      ensures forall h :: Sha256Hex(h) && Spells(states[z].version, h) ==>
                (WillSync(z, NotModified, s) <==>
                   FileOf(z) in fm.files && s.etagReadable && hashOf(fm.files[FileOf(z)].data) == h)
      ensures !IsContentHash(states[z].version) ==> (WillSync(z, NotModified, s) <==> FileOf(z) in fm.files)
    {
      forall h | Sha256Hex(h) && Spells(states[z].version, h)
        ensures EtagValue(states[z].version) == h && IsContentHash(states[z].version)
      {
        EtagMeaning(states[z].version, h);
      }
    }

    /** A full answer is installed exactly if it parses, is not behind a readable local serial by less than
        half the circle or ahead of it by more, and write and apply work. */
    lemma FullAnswerMeaning(z: string, content: string, etag: string, s: SyncScript)
      requires fm.naming.valid(z)
      ensures serialOf(z, content).None? ==> !WillSync(z, Full(content, etag), s)
      ensures serialOf(z, content).Some? && (FileOf(z) !in fm.files || !s.serialReadable) ==>
                (WillSync(z, Full(content, etag), s) <==> s.write.Ok() && s.apply.Ok())
      ensures serialOf(z, content).Some? && FileOf(z) in fm.files && s.serialReadable
              && serialOf(z, fm.files[FileOf(z)].data).Some? ==>
                var new_, local := serialOf(z, content).value, serialOf(z, fm.files[FileOf(z)].data).value;
                (WillSync(z, Full(content, etag), s) <==>
                   && s.write.Ok() && s.apply.Ok()
                   && !(new_ < local && local - new_ < 0x8000_0000)
                   && !(new_ > local && new_ - local > 0x8000_0000))
    {
      if serialOf(z, content).Some? && FileOf(z) in fm.files && serialOf(z, fm.files[FileOf(z)].data).Some? {
        SerialBeforeMeaning(serialOf(z, content).value, serialOf(z, fm.files[FileOf(z)].data).value);
      }
    }

    /** The ETag of a conditional fetch: dropped when the local file is missing or does not match. */
    method CurrentEtag(z: string, readable: bool) returns (etag: string)
      ensures etag != "" <==> HasEtag(z, readable)
    {
      etag := if z in states then states[z].version else "";
      if etag != "" {
        var exists_ := fm.ZoneExists(z);
        if !exists_ {
          etag := "";
        } else if IsContentHash(etag) {
          if !readable || hashOf(fm.files[FileOf(z)].data) != EtagValue(etag) {
            etag := "";
          }
        }
      }
    }

    method LocalSerial(z: string, readable: bool) returns (serial: Option<uint32>)
      ensures serial == if FileOf(z) in fm.files && readable then serialOf(z, fm.files[FileOf(z)].data) else None
    {
      var exists_ := fm.ZoneExists(z);
      if !exists_ || !readable {
        return None;
      }
      return serialOf(z, fm.files[FileOf(z)].data);
    }

    /** What the agent makes of a response: content to write, exactly if it is fresh; or nothing, without an
        error exactly if a conditional fetch found the zone unchanged. */
    method Judge(z: string, response: Response, s: SyncScript) returns (content: Option<string>, ok: bool)
      ensures content.Some? <==> fm.naming.valid(z) && response.Full? && Fresh(z, response.content, s.serialReadable)
      ensures content.Some? ==> content.value == response.content
      ensures content.None? ==> (ok <==> fm.naming.valid(z) && response.NotModified? && HasEtag(z, s.etagReadable))
    {
      if !fm.naming.valid(z) {
        return None, false;
      }
      var etag := CurrentEtag(z, s.etagReadable);
      var serial := LocalSerial(z, s.serialReadable);
      if response.Failed? || (response.NotModified? && etag == "") {
        return None, false;
      }
      if response.NotModified? {
        return None, true;
      }
      var fetched := serialOf(z, response.content);
      if fetched.None? {
        return None, false;
      }
      if serial.Some? && ZoneSerialBefore(fetched.value, serial.value) {
        return None, false;
      }
      return Some(response.content), true;
    }

    /** After a failed apply. A zone new to the agent loses its file only once every reference is gone. */
    method RollbackFailedApply(z: string, hadPrevious: bool, r: Rollback, s: SyncScript)
      requires r.file == FileOf(z) && r.file in fm.files && hadPrevious == r.snapshot.Some?
      modifies fm, svc
      ensures svc.OnlyTouches(fm.naming.norm(z))
      ensures fm.files == if s.undo.file.Applied() && (hadPrevious || s.drop.Ok())
                          then Restored(old(fm.files), r.file, r.snapshot) else old(fm.files)
      ensures fm.index == old(fm.index) || fm.index == Restored(old(fm.index), r.file, r.previousName)
      ensures svc.References(fm.naming.norm(z)) ==> FileOf(z) in fm.files
    {
      if hadPrevious {
        var _ := fm.RunRollback(r, s.undo);
        var _ := svc.RollbackApplied(fm.naming.norm(z), true, s.restore, s.drop);
      } else {
        var gone := svc.RollbackApplied(fm.naming.norm(z), false, s.restore, s.drop);
        if gone {
          var _ := fm.RunRollback(r, s.undo);
        }
      }
    }

    /** Only zone z's file, index entry and references may have changed; the entry stays sound. */
    twostate predicate OnlyZone(z: string)
      reads this, fm, svc
    {
      && svc.OnlyTouches(fm.naming.norm(z))
      && (forall f | f != FileOf(z) :: Lookup(fm.files, f) == Lookup(old(fm.files), f))
      && (forall f | f != FileOf(z) :: Lookup(fm.index, f) == Lookup(old(fm.index), f))
      && (FileOf(z) in fm.index ==>
            || fm.index[FileOf(z)] == fm.naming.norm(z)
            || Some(fm.index[FileOf(z)]) == Lookup(old(fm.index), FileOf(z)))
    }

    /** Zone z's file did not disappear, and z is not newly referenced without a file. */
    twostate predicate KeepsFile(z: string)
      reads this, fm, svc
    {
      && (FileOf(z) in old(fm.files) ==> FileOf(z) in fm.files)
      && (svc.References(fm.naming.norm(z)) ==> FileOf(z) in fm.files || old(svc.References(fm.naming.norm(z))))
    }

    twostate lemma OnlyZoneKeepsIndexSound(z: string)
      requires fm.naming.Agrees() && fm.naming.valid(z) && old(fm.IndexSound()) && OnlyZone(z)
      ensures fm.IndexSound()
    {
      forall f | f in fm.index ensures FileOf(fm.index[f]) == f && fm.naming.valid(fm.index[f]) {
        if f != FileOf(z) {
          assert Lookup(fm.index, f) == Lookup(old(fm.index), f);
        }
      }
    }

    twostate lemma OnlyZoneKeepsNamed(t: Touch)
      requires fm.naming.Agrees() && fm.naming.norm(t.zone) in t.known && old(Named(t.known)) && OnlyZone(t.zone)
      requires forall y :: y in states ==> y == t.zone || y in old(states)
      ensures Named(t.known)
    {
      forall n | svc.References(n) ensures n in t.known {
        if n != fm.naming.norm(t.zone) {
          assert old(svc.References(n));
        }
      }
      forall f | f in fm.index ensures fm.naming.norm(fm.index[f]) in t.known {
        if f != FileOf(t.zone) {
          assert Lookup(fm.index, f) == Lookup(old(fm.index), f);
        }
      }
    }

    twostate lemma KeepsNoDangling(t: Touch)
      requires fm.naming.Agrees() && fm.naming.norm(t.zone) in t.known && old(Named(t.known) && NoDangling()) && OnlyZone(t.zone)
      requires svc.References(fm.naming.norm(t.zone)) ==> FileOf(t.zone) in fm.files
      ensures NoDangling()
    {
      forall n | svc.References(n) ensures FileOf(n) in fm.files {
        if n != fm.naming.norm(t.zone) {
          assert old(svc.References(n));
          assert FileOf(fm.naming.norm(t.zone)) == FileOf(t.zone);
          assert FileOf(n) != FileOf(t.zone);
          assert Lookup(fm.files, FileOf(n)) == Lookup(old(fm.files), FileOf(n));
        }
      }
    }

    twostate lemma FilesStay(z: string)
      requires OnlyZone(z) && KeepsFile(z)
      ensures forall f :: f in old(fm.files) ==> f in fm.files
    {
      forall f | f in old(fm.files) ensures f in fm.files {
        assert f != FileOf(z) ==> Lookup(fm.files, f) == Lookup(old(fm.files), f);
      }
    }

    /** The agent knows zone z, or no service does, and it forgot no other zone. */
    twostate lemma OnlyZoneKeepsTracked(t: Touch)
      requires fm.naming.Agrees() && fm.naming.norm(t.zone) in t.known && old(Named(t.known) && Tracked()) && OnlyZone(t.zone)
      requires forall y :: y in old(states) && y != t.zone ==> y in states
      requires t.zone in states || !svc.References(fm.naming.norm(t.zone))
      ensures Tracked()
    {
      forall n | svc.References(n) ensures Knows(FileOf(n)) {
        if n != fm.naming.norm(t.zone) {
          assert old(svc.References(n)) && old(Knows(FileOf(n)));
          assert FileOf(fm.naming.norm(t.zone)) == FileOf(t.zone);
          assert FileOf(n) != FileOf(t.zone);
          assert Lookup(fm.index, FileOf(n)) == Lookup(old(fm.index), FileOf(n));
        } else {
          assert FileOf(n) == FileOf(t.zone);
        }
      }
    }

    /** Write and apply; a failed apply is rolled back. */
    method Install(z: string, content: string, s: SyncScript) returns (ok: bool)
      modifies fm, svc
      ensures OnlyZone(z) && KeepsFile(z)
      ensures FileOf(z) in fm.files ==> fm.files[FileOf(z)] == File(content, 0x1A4)
                                        || Some(fm.files[FileOf(z)]) == Lookup(old(fm.files), FileOf(z))
      ensures ok <==> s.Ok()
      ensures ok ==> && svc.RefsOf(fm.naming.norm(z)) == Refs(true, true)
                     && FileOf(z) in fm.files && fm.files[FileOf(z)].data == content
    {
      var hadPrevious := fm.ZoneExists(z);
      var rollback := fm.WriteZoneFile(z, content, s.write);
      if rollback.None? {
        return false;
      }
      ok := svc.Apply(fm.naming.norm(z), s.apply);
      if !ok {
        RollbackFailedApply(z, hadPrevious, rollback.value, s);
      }
    }

    /** The local serial after a sync is not older than the one before it. */
    twostate predicate SerialKept(z: string)
      reads this, fm
    {
      FileOf(z) in old(fm.files) && FileOf(z) in fm.files
      && fm.files[FileOf(z)] != old(fm.files)[FileOf(z)] ==>
        var before, after := serialOf(z, old(fm.files)[FileOf(z)].data), serialOf(z, fm.files[FileOf(z)].data);
        after.Some? && (before.Some? ==> !ZoneSerialBefore(after.value, before.value))
    }

    /** Conditional fetch, stale check, install. Whatever fails, no other zone is touched, the file does not
        vanish, no new reference lacks a file, and a readable local serial never goes back. */
    method SyncZone(z: string, response: Response, s: SyncScript) returns (ok: bool)
      modifies this`states, fm, svc
      ensures OnlyZone(z) && KeepsFile(z)
      ensures s.serialReadable ==> SerialKept(z)
      ensures ok <==> old(WillSync(z, response, s))
      ensures ok ==> FileOf(z) in fm.files
      ensures states == if ok && response.Full? then old(states)[z := ZoneState(response.etag, FailCount(old(states), z))] else old(states)
      ensures ok && response.Full? ==>
                fm.files[FileOf(z)].data == response.content && svc.RefsOf(fm.naming.norm(z)) == Refs(true, true)
      ensures ok ==> ServedAfter(z, response.Full?)
      ensures !response.Full? ==> fm.files == old(fm.files) && fm.index == old(fm.index)
                                  && svc.auth == old(svc.auth) && svc.stubs == old(svc.stubs)
    {
      var content, judged := Judge(z, response, s);
      if content.None? {
        return judged;
      }
      ok := Install(z, content.value, s);
      if ok {
        states := states[z := ZoneState(response.etag, FailCount(states, z))];
      }
    }

    method RecordZoneSyncFailure(z: string)
      modifies this`states
      ensures states == old(states)[z := ZoneState(Version(old(states), z), FailCount(old(states), z) + 1)]
    {
      states := states[z := ZoneState(Version(states, z), FailCount(states, z) + 1)];
    }

    method RecordZoneSyncSuccess(z: string)
      modifies this`states
      ensures states == old(states)[z := ZoneState(Version(old(states), z), 0)]
    {
      states := states[z := ZoneState(Version(states, z), 0)];
    }

    /** One zone of a cycle: sync it and record the outcome. */
    method SyncAndRecord(z: string, response: Response, s: SyncScript) returns (ok: bool)
      modifies this`states, fm, svc
      ensures OnlyZone(z) && KeepsFile(z)
      ensures z in states && states == old(states)[z := states[z]]
      ensures states[z].failCount == if ok then 0 else FailCount(old(states), z) + 1
      ensures ok <==> old(WillSync(z, response, s))
      ensures ok ==> FileOf(z) in fm.files && ServedAfter(z, response.Full?)
    {
      ok := SyncZone(z, response, s);
      if ok {
        RecordZoneSyncSuccess(z);
      } else {
        RecordZoneSyncFailure(z);
      }
    }

    /** Every invariant holds again after it, whatever failed. */
    method SyncStep(z: string, response: Response, s: SyncScript, ghost g: Goals) returns (ok: bool)
      requires Ready() && fm.naming.valid(z)
      requires Keeps(g) && (g.named ==> fm.naming.norm(z) in g.zones)
      modifies this`states, fm, svc
      ensures Ready() && Keeps(g)
      ensures OnlyZone(z)
      ensures forall f :: f in old(fm.files) ==> f in fm.files
      ensures z in states && states == old(states)[z := states[z]]
      ensures states[z].failCount == if ok then 0 else FailCount(old(states), z) + 1
      ensures ok <==> old(WillSync(z, response, s))
      ensures ok ==> FileOf(z) in fm.files && ServedAfter(z, response.Full?)
    {
      ok := SyncAndRecord(z, response, s);
      OnlyZoneKeepsIndexSound(z);
      FilesStay(z);
      if g.named {
        OnlyZoneKeepsNamed(Touch(z, g.zones));
        if g.served {
          assert FileOf(fm.naming.norm(z)) == FileOf(z);
          KeepsNoDangling(Touch(z, g.zones));
        }
        if g.tracked {
          OnlyZoneKeepsTracked(Touch(z, g.zones));
        }
      }
    }

    // ----- zones the controller no longer lists -----

    /** Deletes a zone: references, then file, then index entry, then state. A failure up to the file
        restores the references; a reference to a missing file is left exactly when Dangles says so. */
    method DeleteRemovedZone(z: string, s: RemovalScript) returns (ok: bool)
      modifies this`states, fm, svc
      ensures svc.OnlyTouches(fm.naming.norm(z))
      ensures ok <==> s.Ok()
      ensures svc.RefsOf(fm.naming.norm(z)) == RemovalRefs(old(svc.RefsOf(fm.naming.norm(z))), s)
      ensures fm.files == if s.drop.Ok() && s.remove.Applied() then old(fm.files) - {FileOf(z)} else old(fm.files)
      ensures fm.index == if s.drop.Ok() && s.remove.Confirmed? && s.index.Applied()
                          then old(fm.index) - {FileOf(z)} else old(fm.index)
      ensures states == if ok then old(states) - {z} else old(states)
      ensures svc.References(fm.naming.norm(z)) && FileOf(z) !in fm.files
              <==> Dangles(FileOf(z) in old(fm.files), old(svc.RefsOf(fm.naming.norm(z))), s)
    {
      ok := svc.Delete(fm.naming.norm(z), s.drop);
      if !ok {
        return;
      }
      ok := fm.DeleteZoneFiles(z, s.remove);
      if !ok {
        var _ := svc.Restore(fm.naming.norm(z), true, true, s.restore);
        return;
      }
      ok := fm.RemoveManagedZone(z, s.index);
      if !ok {
        return;
      }
      states := states - {z};
    }

    /** Deleting keeps every invariant; a failure is recorded against the zone. That no reference dangles
        needs the file to be there and its removal not to be lost. */
    method DeleteAndRecord(z: string, s: RemovalScript, ghost g: Goals) returns (ok: bool)
      requires Ready() && fm.naming.valid(z)
      requires Keeps(g) && (g.named ==> fm.naming.norm(z) in g.zones)
      requires g.served ==> FileOf(z) in fm.files && !s.LosesFile()
      modifies this`states, fm, svc
      ensures Ready() && Keeps(g)
      ensures OnlyZone(z)
      ensures ok <==> s.Ok()
      ensures forall f :: f in fm.index ==> f in old(fm.index) && fm.index[f] == old(fm.index)[f]
      ensures ok ==> states == old(states) - {z} && FileOf(z) !in fm.index
      ensures !ok ==> states == old(states)[z := ZoneState(Version(old(states), z), FailCount(old(states), z) + 1)]
    {
      ok := DeleteRemovedZone(z, s);
      if !ok {
        RecordZoneSyncFailure(z);
      }
      OnlyZoneKeepsIndexSound(z);
      if g.named {
        OnlyZoneKeepsNamed(Touch(z, g.zones));
        if g.served {
          KeepsNoDangling(Touch(z, g.zones));
        }
        if g.tracked {
          OnlyZoneKeepsTracked(Touch(z, g.zones));
        }
      }
    }

    /** What one deletion or failed deletion of z may do to the rest. */
    twostate predicate DeletesOnly(z: string)
      reads this, fm
    {
      && (forall y :: y != z ==> Lookup(states, y) == Lookup(old(states), y))
      && (forall f :: f != FileOf(z) ==> Lookup(fm.files, f) == Lookup(old(fm.files), f))
      && (forall f :: f in fm.index ==> f in old(fm.index) && fm.index[f] == old(fm.index)[f])
    }

    /** Either nothing but its reference is left of z, or it has one more failure on record. */
    twostate predicate Handled(z: string, ok: bool)
      reads this, fm
    {
      if ok then Removed(z) else z in states && states[z].failCount == FailCount(old(states), z) + 1
    }

    method DeleteOne(z: string, s: RemovalScript, ghost g: Goals) returns (ok: bool)
      requires Ready() && fm.naming.valid(z)
      requires Keeps(g) && (g.named ==> fm.naming.norm(z) in g.zones)
      requires g.served ==> FileOf(z) in fm.files && !s.LosesFile()
      modifies this`states, fm, svc
      ensures Ready() && Keeps(g)
      ensures DeletesOnly(z) && Handled(z, ok) && KeepsRefs({FileOf(z)})
      ensures ok <==> s.Ok()
    {
      ok := DeleteAndRecord(z, s, g);
      assert FileOf(fm.naming.norm(z)) == FileOf(z);
    }

    /** States outside names and files outside files are as before, and the index has only lost entries. */
    twostate predicate Outside(names: set<string>, files: set<string>)
      reads this, fm
    {
      && (forall y :: y !in names ==> Lookup(states, y) == Lookup(old(states), y))
      && (forall f :: f !in files ==> Lookup(fm.files, f) == Lookup(old(fm.files), f))
      && (forall f :: f in fm.index ==> f in old(fm.index) && fm.index[f] == old(fm.index)[f])
    }

    /** Entry i of a list to delete; the other entries keep what they have. */
    method DeleteNext(list: seq<string>, i: nat, world: World, ghost names: set<string>, ghost files: set<string>, ghost g: Goals)
      returns (ok: bool)
      requires Ready() && Keeps(g) && NoDuplicates(list) && i < |list|
      requires fm.naming.valid(list[i]) && list[i] in names && FileOf(list[i]) in files
      requires g.named ==> fm.naming.norm(list[i]) in g.zones
      requires g.served ==> world.LosesNoFile() && OwnFiles(list[i..])
      modifies this`states, fm, svc
      ensures Ready() && Keeps(g) && Outside(names, files) && KeepsRefs(files)
      ensures Handled(list[i], ok) && (ok <==> world.removal(list[i]).Ok())
      ensures forall j :: 0 <= j < |list| && j != i ==> FailCount(states, list[j]) == FailCount(old(states), list[j])
      ensures forall j :: 0 <= j < |list| && j != i && old(Removed(list[j])) ==> Removed(list[j])
      ensures g.served ==> OwnFiles(list[i + 1..])
    {
      ok := DeleteOne(list[i], world.removal(list[i]), g);
      forall j | 0 <= j < |list| && j != i ensures Lookup(states, list[j]) == Lookup(old(states), list[j]) {
        assert list[j] != list[i];
      }
      if g.served {
        ghost var tail, rest := list[i..], list[i + 1..];
        assert tail == [list[i]] + rest;
        forall j | 0 <= j < |rest| ensures FileOf(rest[j]) in fm.files {
          assert rest[j] == tail[j + 1] && tail[0] == list[i];
          assert Lookup(fm.files, FileOf(rest[j])) == Lookup(old(fm.files), FileOf(rest[j]));
        }
      }
    }

    /** Deletes the listed zones one by one: each is removed, or has one more failure on record. */
    method DeleteEach(list: seq<string>, world: World, ghost names: set<string>, ghost files: set<string>, ghost g: Goals)
      returns (deleted: nat, errors: nat)
      requires Ready() && Keeps(g) && NoDuplicates(list)
      requires forall i :: 0 <= i < |list| ==> fm.naming.valid(list[i]) && list[i] in names && FileOf(list[i]) in files
      requires g.named ==> forall i :: 0 <= i < |list| ==> fm.naming.norm(list[i]) in g.zones
      requires g.served ==> world.LosesNoFile() && OwnFiles(list)
      modifies this`states, fm, svc
      ensures Ready() && Keeps(g) && Outside(names, files) && KeepsRefs(files)
      ensures forall i :: 0 <= i < |list| ==> Removed(list[i]) || FailCount(states, list[i]) == FailCount(old(states), list[i]) + 1
      ensures errors == 0 ==> forall i :: 0 <= i < |list| ==> Removed(list[i])
      ensures world.RemovesWell() ==> errors == 0
    {
      deleted, errors := 0, 0;
      assert list[0..] == list;
      for i := 0 to |list|
        invariant Ready() && Keeps(g) && Outside(names, files) && KeepsRefs(files)
        invariant forall j :: i <= j < |list| ==> FailCount(states, list[j]) == FailCount(old(states), list[j])
        invariant g.served ==> OwnFiles(list[i..])
        invariant forall j :: 0 <= j < i ==> Removed(list[j]) || FailCount(states, list[j]) == FailCount(old(states), list[j]) + 1
        invariant errors == 0 ==> forall j :: 0 <= j < i ==> Removed(list[j])
        invariant world.RemovesWell() ==> errors == 0
      {
        var ok := DeleteNext(list, i, world, names, files, g);
        if ok {
          deleted := deleted + 1;
        } else {
          errors := errors + 1;
        }
      }
    }

    ghost predicate Removed(z: string)
      reads this, fm
    {
      z !in states && FileOf(z) !in fm.index
    }

    /** Each of these zones has a file, and no two share one. */
    ghost predicate OwnFiles(zones: seq<string>)
      reads this, fm
    {
      && (forall i :: 0 <= i < |zones| ==> FileOf(zones[i]) in fm.files)
      && (forall i, j :: 0 <= i < j < |zones| ==> FileOf(zones[i]) != FileOf(zones[j]))
    }

    /** Zones that have a state but are gone from the controller's list, in name order. */
    method DeleteStaleZones(stale: set<string>, world: World, ghost g: Goals) returns (deleted: nat, errors: nat)
      requires Ready() && Keeps(g)
      requires forall z :: z in stale ==> z in states
      requires g.served ==> world.LosesNoFile() && OwnFilesIn(stale)
      modifies this`states, fm, svc
      ensures Ready() && Keeps(g) && Outside(stale, FilesOf(fm.naming, stale)) && KeepsRefs(FilesOf(fm.naming, stale))
      ensures forall z :: z in stale ==> Removed(z) || FailCount(states, z) == FailCount(old(states), z) + 1
      ensures errors == 0 ==> forall z :: z in stale ==> Removed(z)
      ensures world.RemovesWell() ==> errors == 0
    {
      StringLessIsStrictTotalOrder();
      var order := SortKeys(StringLess, stale);
      SortedIsDistinct(StringLess, order);
      assert forall z :: z in order <==> z in Elements(order);
      deleted, errors := DeleteEach(order, world, stale, FilesOf(fm.naming, stale), g);
      assert forall z :: z in stale ==> exists i :: 0 <= i < |order| && order[i] == z;
    }

    ghost predicate OwnFilesIn(zones: set<string>)
      reads this, fm
    {
      && (forall z :: z in zones ==> FileOf(z) in fm.files)
      && (forall y, z :: y in zones && z in zones && FileOf(y) == FileOf(z) ==> y == z)
    }

    /** The zones of these index entries, in file order. */
    method ZonesOf(entries: map<string, string>, chosen: set<string>) returns (zones: seq<string>)
      requires forall f :: f in entries ==> FileOf(entries[f]) == f
      requires chosen <= entries.Keys
      ensures NoDuplicates(zones)
      ensures forall i :: 0 <= i < |zones| ==> FileOf(zones[i]) in chosen && entries[FileOf(zones[i])] == zones[i]
      ensures forall f :: f in chosen ==> entries[f] in zones
    {
      StringLessIsStrictTotalOrder();
      var order := SortKeys(StringLess, chosen);
      SortedIsDistinct(StringLess, order);
      assert forall f :: f in order <==> f in Elements(order);
      zones := [];
      for i := 0 to |order|
        invariant |zones| == i && forall j :: 0 <= j < i ==> order[j] in entries && zones[j] == entries[order[j]]
      {
        zones := zones + [entries[order[i]]];
      }
      forall i, j | 0 <= i < j < |zones| ensures zones[i] != zones[j] {
        assert FileOf(zones[i]) == order[i] && FileOf(zones[j]) == order[j];
      }
      forall f | f in chosen ensures entries[f] in zones {
        var i :| 0 <= i < |order| && order[i] == f;
        assert zones[i] == entries[f];
      }
    }

    /** Deletes the zones of these index entries. */
    method DeleteEntries(chosen: set<string>, world: World, ghost g: Goals) returns (deleted: nat, errors: nat, ghost names: set<string>)
      requires Ready() && Keeps(g) && chosen <= fm.index.Keys
      requires g.served ==> world.LosesNoFile() && chosen <= fm.files.Keys
      modifies this`states, fm, svc
      ensures Ready() && Keeps(g) && Outside(names, chosen) && KeepsRefs(chosen)
      ensures forall z :: z in names ==> FileOf(z) in chosen
      ensures forall f :: f in chosen ==> old(fm.index)[f] in names
      ensures forall z :: z in names ==> Removed(z) || FailCount(states, z) == FailCount(old(states), z) + 1
      ensures errors == 0 ==> forall z :: z in names ==> Removed(z)
      ensures errors == 0 ==> chosen !! fm.index.Keys
      ensures world.RemovesWell() ==> errors == 0
    {
      var orphans := ZonesOf(fm.index, chosen);
      names := set z | z in orphans;
      assert forall i :: 0 <= i < |orphans| ==> orphans[i] in names;
      assert forall z :: z in names ==> exists i :: 0 <= i < |orphans| && orphans[i] == z;
      assert forall f :: f in chosen ==> fm.index[f] in names && FileOf(fm.index[f]) == f;
      deleted, errors := DeleteEach(orphans, world, names, chosen, g);
    }

    /** Lists the managed zones, which may fail, and deletes those that are neither kept nor attempted: each
        is removed, or has one more failure on record. */
    method DeleteOrphanedZones(keepFiles: set<string>, attempted: set<string>, world: World, ghost g: Goals)
      returns (deleted: nat, errors: nat, ghost names: set<string>)
      requires Ready() && Keeps(g)
      requires g.served ==> world.LosesNoFile()
                            && forall f :: f in fm.index && f !in keepFiles && f !in attempted ==> f in fm.files
      modifies this`states, fm, svc
      ensures Ready() && Keeps(g) && Outside(names, FilesOf(fm.naming, names)) && KeepsRefs(FilesOf(fm.naming, names))
      ensures forall z :: z in names ==> FileOf(z) !in keepFiles && FileOf(z) !in attempted
      ensures forall z :: z in names ==> Removed(z) || FailCount(states, z) == FailCount(old(states), z) + 1
      ensures world.listable ==>
                forall f :: f in old(fm.index) && f !in keepFiles && f !in attempted ==> old(fm.index)[f] in names
      ensures errors == 0 ==> forall z :: z in names ==> Removed(z)
      ensures errors == 0 ==> forall f :: f in fm.index ==> f in keepFiles || f in attempted
      ensures world.RemovesWell() ==> errors == 0
    {
      var entries := fm.ReadIndex(world.listable);
      if entries.None? {
        return 0, 1, {};
      }
      var chosen := entries.value.Keys - keepFiles - attempted;
      assert forall f :: f in chosen ==> FileOf(fm.index[f]) == f;
      deleted, errors, names := DeleteEntries(chosen, world, g);
      assert chosen == FilesOf(fm.naming, names);
    }

    /** States of old spellings of zones that are still listed. */
    function Aliases(keep: set<string>, keepFiles: set<string>): set<string>
      reads this
    {
      set z | z in states && z !in keep && FileOf(z) in keepFiles
    }

    function Stale(keep: set<string>, keepFiles: set<string>): set<string>
      reads this
    {
      set z | z in states && z !in keep && FileOf(z) !in keepFiles
    }

    /** Every zone to be removed still has its file, and no two of them are spellings that share it. */
    ghost predicate Removable(keep: set<string>, keepFiles: set<string>)
      reads this, fm
    {
      && OwnFilesIn(Stale(keep, keepFiles))
      && (forall f :: f in fm.index && f !in keepFiles ==> f in fm.files)
    }

    /** Forgets the aliases; every zone stays known through the spelling that is listed. */
    method DropAliases(keep: set<string>, keepFiles: set<string>, ghost g: Goals)
      requires Keeps(g)
      requires forall z :: z in keep ==> z in states
      requires keepFiles == FilesOf(fm.naming, keep)
      modifies this`states
      ensures states == old(states) - old(Aliases(keep, keepFiles))
      ensures Stale(keep, keepFiles) == old(Stale(keep, keepFiles)) && states.Keys == keep + Stale(keep, keepFiles)
      ensures forall y :: y in keep ==> Lookup(states, y) == Lookup(old(states), y)
      ensures Keeps(g)
    {
      states := states - Aliases(keep, keepFiles);
      forall f | old(Knows(f)) ensures Knows(f) {
        if f !in fm.index {
          var z :| z in old(states) && FileOf(z) == f;
          if z !in states {
            var y :| y in keep && FileOf(y) == f;
            assert y in states;
          }
        }
      }
    }

    /** The zones in keep have kept their state and their file. */
    twostate predicate Spares(keep: set<string>)
      reads this, fm
    {
      && (forall y :: y in keep ==> Lookup(states, y) == Lookup(old(states), y))
      && (forall y :: y in keep ==> Lookup(fm.files, FileOf(y)) == Lookup(old(fm.files), FileOf(y)))
    }

    /** The states' half: aliases and zones with a state. */
    method DeleteTracked(keep: set<string>, keepFiles: set<string>, world: World, ghost g: Goals)
      returns (deleted: nat, errors: nat, attempted: set<string>)
      requires Ready() && Keeps(g)
      requires forall z :: z in keep ==> z in states
      requires keepFiles == FilesOf(fm.naming, keep)
      requires g.served ==> world.LosesNoFile() && Removable(keep, keepFiles)
      modifies this`states, fm, svc
      ensures Ready() && Keeps(g) && Spares(keep) && attempted !! keepFiles && KeepsRefs(attempted)
      ensures errors == 0 ==> states.Keys == keep && attempted !! fm.index.Keys
      ensures g.served ==> forall f :: f in fm.index && f !in keepFiles && f !in attempted ==> f in fm.files
      ensures world.RemovesWell() ==> errors == 0
    {
      DropAliases(keep, keepFiles, g);
      var stale := Stale(keep, keepFiles);
      ghost var mid := states;
      attempted := FilesOf(fm.naming, stale);
      deleted, errors := DeleteStaleZones(stale, world, g);
      forall y | y in keep ensures FileOf(y) in keepFiles && FileOf(y) !in attempted && Lookup(states, y) == Lookup(mid, y) {
      }
      if errors == 0 {
        forall y ensures y in states <==> y in keep {
          assert y !in stale ==> Lookup(states, y) == Lookup(mid, y);
        }
      }
      forall f | f in old(fm.files) && f !in attempted ensures f in fm.files {
        assert Lookup(fm.files, f) == Lookup(old(fm.files), f);
      }
    }

    /** Removes everything the controller no longer lists. With no error, exactly the zones in keep are
        left in the states, and the index names only their files. */
    method DeleteRemovedZones(keep: set<string>, keepFiles: set<string>, world: World, ghost g: Goals)
      returns (deleted: nat, errors: nat)
      requires Ready() && Keeps(g)
      requires forall z :: z in keep ==> z in states
      requires keepFiles == FilesOf(fm.naming, keep)
      requires g.served ==> world.LosesNoFile() && Removable(keep, keepFiles)
      modifies this`states, fm, svc
      ensures Ready() && Keeps(g) && Spares(keep)
      ensures forall n :: FileOf(n) in keepFiles ==> svc.RefsOf(n) == old(svc.RefsOf(n))
      ensures errors == 0 ==> states.Keys == keep && fm.index.Keys <= keepFiles
      ensures world.RemovesWell() ==> errors == 0
    {
      var deleted1, errors1, attempted := DeleteTracked(keep, keepFiles, world, g);
      ghost var mid := states;
      var deleted2, errors2, names := DeleteOrphanedZones(keepFiles, attempted, world, g);
      deleted, errors := deleted1 + deleted2, errors1 + errors2;
      forall y | y in keep ensures FileOf(y) in keepFiles && y !in names && FileOf(y) !in FilesOf(fm.naming, names) {
      }
      if errors == 0 {
        forall y ensures y in states <==> y in keep {
          assert y in names ==> Removed(y);
          assert y !in names ==> Lookup(states, y) == Lookup(mid, y);
        }
      }
    }

    // ----- the whole cycle -----

    /** Every listed zone will sync, and no two share a file. */
    ghost predicate AllWillSync(zones: seq<string>, world: World)
      reads this, fm
    {
      && (forall i :: 0 <= i < |zones| ==> Will(zones[i], world))
      && (forall i, j :: 0 <= i < j < |zones| ==> FileOf(zones[i]) != FileOf(zones[j]))
    }

    /** Only these states, and only these files and index entries, may have changed. */
    twostate predicate ChangesOnly(names: set<string>, files: set<string>)
      reads this, fm
    {
      && (forall y :: y !in names ==> Lookup(states, y) == Lookup(old(states), y))
      && (forall f :: f !in files ==> Lookup(fm.files, f) == Lookup(old(fm.files), f))
      && (forall f :: f !in files ==> Lookup(fm.index, f) == Lookup(old(fm.index), f))
    }

    /** Zone i of the list; the others that were in sync stay in sync, those that will sync still will, and
        all are served as before. */
    method SyncNext(zones: seq<string>, i: nat, world: World, ghost names: set<string>, ghost files: set<string>, ghost g: Goals)
      returns (ok: bool)
      requires Ready() && Keeps(g) && ListAccepted(fm.naming, zones) && i < |zones|
      requires zones[i] in names && FileOf(zones[i]) in files
      requires g.named ==> fm.naming.norm(zones[i]) in g.zones
      modifies this`states, fm, svc
      ensures Ready() && Keeps(g) && ChangesOnly(names, files)
      ensures zones[i] in states && (ok ==> InSync(zones[i]) && ServedAfter(zones[i], world.response(zones[i]).Full?))
      ensures ok <==> old(Will(zones[i], world))
      ensures forall j :: 0 <= j < |zones| && zones[j] in old(states) ==> zones[j] in states
      ensures forall j :: 0 <= j < |zones| && j != i && old(InSync(zones[j])) ==> InSync(zones[j])
      ensures forall j :: 0 <= j < |zones| && j != i ==> (Served(zones[j]) <==> old(Served(zones[j])))
      ensures forall j :: 0 <= j < |zones| && j != i && FileOf(zones[j]) != FileOf(zones[i]) && old(Will(zones[j], world))
                          ==> Will(zones[j], world)
    {
      var z := zones[i];
      ok := SyncStep(z, world.response(z), world.sync(z), g);
      forall j | 0 <= j < |zones| && j != i
        ensures zones[j] != z && (Served(zones[j]) <==> old(Served(zones[j])))
        ensures FileOf(zones[j]) != FileOf(z) && old(Will(zones[j], world)) ==> Will(zones[j], world)
      {
        assert fm.naming.norm(zones[j]) != fm.naming.norm(z);
        assert FileOf(zones[j]) != FileOf(z) ==> Lookup(fm.files, FileOf(zones[j])) == Lookup(old(fm.files), FileOf(zones[j]));
      }
    }

    ghost predicate Will(z: string, world: World)
      reads this, fm
    {
      WillSync(z, world.response(z), world.sync(z))
    }

    /** Syncs every listed zone, counting outcomes. */
    method SyncListed(zones: seq<string>, world: World, ghost names: set<string>, ghost files: set<string>, ghost g: Goals)
      returns (successes: nat, errors: nat)
      requires Ready() && Keeps(g) && ListAccepted(fm.naming, zones)
      requires forall i :: 0 <= i < |zones| ==> zones[i] in names && FileOf(zones[i]) in files
      requires g.named ==> forall i :: 0 <= i < |zones| ==> fm.naming.norm(zones[i]) in g.zones
      modifies this`states, fm, svc
      ensures Ready() && Keeps(g) && ChangesOnly(names, files)
      ensures successes + errors == |zones|
      ensures forall i :: 0 <= i < |zones| ==> zones[i] in states
      ensures errors == 0 ==> forall i :: 0 <= i < |zones| ==> InSync(zones[i])
      ensures errors == 0 ==> forall i :: 0 <= i < |zones| ==> ServedAfter(zones[i], world.response(zones[i]).Full?)
      ensures old(AllWillSync(zones, world)) ==> errors == 0
    {
      successes, errors := 0, 0;
      ghost var will := AllWillSync(zones, world);
      for i := 0 to |zones|
        invariant Ready() && Keeps(g) && ChangesOnly(names, files)
        invariant successes + errors == i
        invariant forall j :: 0 <= j < i ==> zones[j] in states
        invariant errors == 0 ==> forall j :: 0 <= j < i ==> InSync(zones[j])
        invariant errors == 0 ==> forall j :: 0 <= j < i ==> ServedAfter(zones[j], world.response(zones[j]).Full?)
        invariant forall j :: i <= j < |zones| ==> (Served(zones[j]) <==> old(Served(zones[j])))
        invariant will ==> errors == 0
        invariant will ==> forall j :: i <= j < |zones| ==> Will(zones[j], world)
      {
        assert will ==> forall j :: i < j < |zones| ==> FileOf(zones[j]) != FileOf(zones[i]);
        var ok := SyncNext(zones, i, world, names, files, g);
        if ok {
          successes := successes + 1;
        } else {
          errors := errors + 1;
        }
      }
    }

    twostate lemma RemovableStays(keep: set<string>)
      requires ChangesOnly(keep, FilesOf(fm.naming, keep)) && old(Removable(keep, FilesOf(fm.naming, keep)))
      ensures Removable(keep, FilesOf(fm.naming, keep))
    {
      var keepFiles := FilesOf(fm.naming, keep);
      forall z | z in Stale(keep, keepFiles) ensures z in old(Stale(keep, keepFiles)) && FileOf(z) in fm.files {
        assert Lookup(states, z) == Lookup(old(states), z);
        assert Lookup(fm.files, FileOf(z)) == Lookup(old(fm.files), FileOf(z));
      }
      forall f | f in fm.index && f !in keepFiles ensures f in fm.files {
        assert Lookup(fm.index, f) == Lookup(old(fm.index), f);
        assert Lookup(fm.files, f) == Lookup(old(fm.files), f);
      }
    }

    /** What a clean cycle leaves behind. */
    ghost predicate Clean(zones: seq<string>)
      reads this, fm
    {
      && states.Keys == Elements(zones)
      && (forall z :: z in zones ==> InSync(z))
      && (forall f :: f in fm.index ==> exists z :: z in zones && FileOf(z) == f)
    }

    lemma CleanCycle(zones: seq<string>)
      requires states.Keys == Elements(zones)
      requires fm.index.Keys <= FilesOf(fm.naming, Elements(zones))
      requires forall z :: z in zones ==> InSync(z)
      ensures Clean(zones)
    {
    }

    /** After a clean cycle, services reference listed zones only. */
    lemma OnlyListedReferences(zones: seq<string>, known: set<string>)
      requires Ready() && Clean(zones) && Named(known) && Tracked()
      requires forall z :: z in zones ==> fm.naming.norm(z) in known
      ensures forall n :: svc.References(n) ==> exists z :: z in zones && fm.naming.norm(z) == n
    {
      forall n | svc.References(n) ensures exists z :: z in zones && fm.naming.norm(z) == n {
        assert Knows(FileOf(n));
        var z :| z in zones && FileOf(z) == FileOf(n);
        assert FileOf(fm.naming.norm(z)) == FileOf(n);
      }
    }

    /** The zone is in sync, and served as a successful sync leaves it. */
    twostate predicate Synced(z: string, full: bool)
      reads this, fm, svc
    {
      InSync(z) && ServedAfter(z, full)
    }

    /** Syncs what is listed; what is not listed stays as removable as it was. */
    method SyncKept(zones: seq<string>, keep: set<string>, keepFiles: set<string>, world: World, ghost g: Goals)
      returns (successes: nat, errors: nat)
      requires Ready() && Keeps(g) && ListAccepted(fm.naming, zones)
      requires keep == (set z | z in zones) && keepFiles == FilesOf(fm.naming, keep)
      requires g.named ==> forall i :: 0 <= i < |zones| ==> fm.naming.norm(zones[i]) in g.zones
      requires g.served ==> Removable(keep, keepFiles)
      modifies this`states, fm, svc
      ensures Ready() && Keeps(g) && (g.served ==> Removable(keep, keepFiles))
      ensures successes + errors == |zones|
      ensures forall z :: z in keep ==> z in states
      ensures errors == 0 ==> forall z :: z in keep ==> Synced(z, world.response(z).Full?)
      ensures old(AllWillSync(zones, world)) ==> errors == 0
    {
      assert forall i :: 0 <= i < |zones| ==> zones[i] in keep && FileOf(zones[i]) in keepFiles;
      successes, errors := SyncListed(zones, world, keep, keepFiles, g);
      if g.served {
        RemovableStays(keep);
      }
      forall z | z in keep ensures z in states && (errors == 0 ==> Synced(z, world.response(z).Full?)) {
        var i :| 0 <= i < |zones| && zones[i] == z;
      }
    }

    /** Sync what is listed, delete what is not. */
    method SyncThenDelete(zones: seq<string>, keep: set<string>, keepFiles: set<string>, world: World, ghost g: Goals)
      returns (successes: nat, zoneErrors: nat, deleteErrors: nat)
      requires Ready() && Keeps(g) && ListAccepted(fm.naming, zones)
      requires keep == (set z | z in zones) && keepFiles == FilesOf(fm.naming, keep)
      requires g.named ==> forall i :: 0 <= i < |zones| ==> fm.naming.norm(zones[i]) in g.zones
      requires g.served ==> world.LosesNoFile() && Removable(keep, keepFiles)
      modifies this`states, fm, svc
      ensures Ready() && Keeps(g)
      ensures zoneErrors == 0 && zones != [] ==> successes > 0
      ensures zoneErrors == 0 && deleteErrors == 0 ==>
                && states.Keys == keep && fm.index.Keys <= keepFiles
                && forall z :: z in keep ==> Synced(z, world.response(z).Full?)
      ensures old(AllWillSync(zones, world)) && world.RemovesWell() ==> zoneErrors == 0 && deleteErrors == 0
    {
      successes, zoneErrors := SyncKept(zones, keep, keepFiles, world, g);
      assert forall z :: z in keep ==> FileOf(z) in keepFiles && FileOf(fm.naming.norm(z)) in keepFiles;
      var deleted: nat;
      deleted, deleteErrors := DeleteRemovedZones(keep, keepFiles, world, g);
      successes := successes + deleted;
    }

    /** The cycle over an accepted list. */
    method Reconcile(zones: seq<string>, keep: set<string>, keepFiles: set<string>, world: World, now: int, ghost g: Goals)
      returns (ok: bool)
      requires Ready() && Keeps(g) && ListAccepted(fm.naming, zones)
      requires keep == (set z | z in zones) && keepFiles == FilesOf(fm.naming, keep)
      requires g.named ==> forall i :: 0 <= i < |zones| ==> fm.naming.norm(zones[i]) in g.zones
      requires g.served ==> world.LosesNoFile() && Removable(keep, keepFiles)
      modifies this, fm, svc
      ensures Ready() && Keeps(g)
      ensures lastSuccess == if ok then Some(now) else old(lastSuccess)
      ensures ok ==> Clean(zones) && forall z :: z in zones ==> ServedAfter(z, world.response(z).Full?)
      ensures old(AllWillSync(zones, world)) && world.RemovesWell() ==> ok
    {
      var successes, zoneErrors, deleteErrors := SyncThenDelete(zones, keep, keepFiles, world, g);
      if zoneErrors + deleteErrors == 0 && (successes > 0 || |zones| == 0) {
        lastSuccess := Some(now);
      }
      ok := zoneErrors == 0 && deleteErrors == 0;
      if ok {
        assert forall z :: z in zones ==> Synced(z, world.response(z).Full?);
        CleanCycle(zones);
      }
    }

    /** One reconciliation cycle. listing is None when the controller cannot be asked. It returns no error
        exactly when it advances lastSuccess, and then the agent agrees with the controller: the tracked
        zones are the listed ones, without failures and with their files, and the index knows no other; and
        a listed zone is served exactly if it was fetched in full or served before. If every listed zone
        will sync and every removal works, it returns no error.
        For any set of zones with files of their own that covers the listing and all the agent and the
        services know: references stay tracked; after a clean cycle they go to listed zones only; and
        none dangles, provided every zone to be removed still has its file and no removal loses one. */
    method SyncAll(listing: Option<seq<string>>, world: World, now: int, ghost zones: set<string>) returns (ok: bool)
      requires Ready()
      modifies this, fm, svc
      ensures Ready()
      ensures listing.None? || !ListAccepted(fm.naming, listing.value) ==>
                && !ok && states == old(states)
                && fm.files == old(fm.files) && fm.index == old(fm.index)
                && svc.auth == old(svc.auth) && svc.stubs == old(svc.stubs)
      ensures lastSuccess == if ok then Some(now) else old(lastSuccess)
      ensures ok ==> listing.Some? && ListAccepted(fm.naming, listing.value) && Clean(listing.value)
      ensures ok ==> forall z :: z in listing.value ==> (Served(z) <==> world.response(z).Full? || old(Served(z)))
      ensures listing.Some? && ListAccepted(fm.naming, listing.value) && old(AllWillSync(listing.value, world)) && world.RemovesWell()
              ==> ok
      ensures Covers(zones, listing) && old(Named(zones)) ==> Named(zones)
      ensures Covers(zones, listing) && old(Named(zones) && Tracked()) ==>
                && Tracked()
                && (ok ==> forall n :: svc.References(n) ==> exists z :: z in listing.value && fm.naming.norm(z) == n)
      ensures Covers(zones, listing) && old(Named(zones) && NoDangling()) && world.LosesNoFile()
              && (listing.Some? ==> old(RemovableBut(listing.value)))
              ==> NoDangling()
    {
      if listing.None? {
        return false;
      }
      var list := listing.value;
      var accepted := ValidateControllerZoneList(fm.naming, list);
      if !accepted {
        return false;
      }
      ghost var covered := Covers(zones, listing) && Named(zones);
      var keep := set z | z in list;
      var keepFiles := FilesOf(fm.naming, keep);
      ghost var removable := world.LosesNoFile() && RemovableBut(list);
      ghost var g := Goals(zones, covered, NoDangling() && removable, Tracked());
      ok := Reconcile(list, keep, keepFiles, world, now, g);
      if ok && covered && g.tracked {
        OnlyListedReferences(list, zones);
      }
    }

    /** Every zone outside the list still has its file. */
    ghost predicate RemovableBut(list: seq<string>)
      reads this, fm
    {
      var keep := set z | z in list;
      Removable(keep, FilesOf(fm.naming, keep))
    }

    ghost predicate Covers(zones: set<string>, listing: Option<seq<string>>) {
      listing.Some? ==> forall z :: z in listing.value ==> fm.naming.norm(z) in zones
    }

    /** On-demand sync of one zone. A zone the controller does not list is recorded as failed, so the next
        cycle removes what is left of it. Unlike SyncAll it advances lastSuccess for this zone alone. */
    method SyncOne(z: string, listing: Option<seq<string>>, response: Response, s: SyncScript, now: int, ghost zones: set<string>)
      returns (ok: bool)
      requires Ready()
      modifies this, fm, svc
      ensures Ready()
      ensures lastSuccess == if ok then Some(now) else old(lastSuccess)
      ensures ok <==> listing.Some? && z in listing.value && ListAccepted(fm.naming, listing.value) && old(WillSync(z, response, s))
      ensures ok ==> InSync(z) && (Served(z) <==> response.Full? || old(Served(z)))
      ensures !ok && fm.naming.valid(z) ==> z in states && states[z].failCount == FailCount(old(states), z) + 1
      ensures forall y :: y != z ==> Lookup(states, y) == Lookup(old(states), y)
      ensures fm.naming.norm(z) in zones && old(Named(zones)) ==> Named(zones)
      ensures fm.naming.norm(z) in zones && old(Named(zones) && NoDangling()) ==> NoDangling()
      ensures fm.naming.norm(z) in zones && old(Named(zones) && Tracked()) ==> Tracked()
    {
      if !fm.naming.valid(z) {
        return false;
      }
      var accepted := false;
      if listing.Some? {
        accepted := ValidateControllerZoneList(fm.naming, listing.value);
      }
      if !accepted || z !in listing.value {
        RecordZoneSyncFailure(z);
        assert forall f :: old(Knows(f)) ==> Knows(f);
        return false;
      }
      ghost var covered := fm.naming.norm(z) in zones && Named(zones);
      ok := SyncStep(z, response, s, Goals(zones, covered, NoDangling(), Tracked()));
      if ok {
        lastSuccess := Some(now);
      }
    }
  }

  // ----- a zone that is synced but not served -----

  /** A removal that drops the references but can neither remove the file nor restore the references, after
      which the controller lists the zone again, unchanged: the sync succeeds without applying it, and no
      service references the zone. */
  method UnchangedZoneStaysUnserved(agent: Agent, z: string, s: SyncScript) returns (ok: bool)
    requires agent.Ready() && agent.fm.naming.valid(z)
    requires s.etagReadable && agent.HasEtag(z, true)
    modifies agent`states, agent.fm, agent.svc
    ensures ok && !agent.svc.References(agent.fm.naming.norm(z))
  {
    var down := PutScript(FailedBefore, false, FailedBefore, false, false, false);
    var _ := agent.DeleteRemovedZone(z, RemovalScript(DROPPED, FailedBefore, down, IndexScript(true, Confirmed)));
    ok := agent.SyncZone(z, NotModified, s);
  }

  // ----- deletions that leave a reference to a missing file -----

  /** From any state: the index update of a removal fails, and when the removal is repeated its first
      command fails. The restore then references a zone whose file is gone. */
  method RepeatedRemovalDangles(agent: Agent, z: string)
    requires agent.Ready()
    modifies agent`states, agent.fm, agent.svc
    ensures agent.svc.References(agent.fm.naming.norm(z)) && agent.FileOf(z) !in agent.fm.files
    ensures !agent.NoDangling()
  {
    var first := agent.DeleteRemovedZone(z, INDEX_FAILS);
    var second := agent.DeleteRemovedZone(z, DROP_FAILS);
    assert agent.FileOf(agent.fm.naming.norm(z)) == agent.FileOf(z);
  }

  /** From any state: the directory sync fails after the file is gone. */
  method LostRemovalDangles(agent: Agent, z: string)
    requires agent.Ready()
    modifies agent`states, agent.fm, agent.svc
    ensures agent.svc.References(agent.fm.naming.norm(z)) && agent.FileOf(z) !in agent.fm.files
    ensures !agent.NoDangling()
  {
    var _ := agent.DeleteRemovedZone(z, SYNC_FAILS);
    assert agent.FileOf(agent.fm.naming.norm(z)) == agent.FileOf(z);
  }
}
