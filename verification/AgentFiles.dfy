/** Zone files, the managed-zone index, and the service references. What every file operation and every
    service command answers is an input. */
module AgentFiles {
  import opened ZoneModel
  import opened ZoneNames
  import opened NsdConfig
  import opened FileNames

  /** File name, normalized spelling and validity of a zone name. */
  datatype Naming = Naming(fileOf: string -> string, norm: string -> string, valid: string -> bool) {
    ghost predicate Agrees() {
      && (forall z {:trigger fileOf(norm(z))} :: fileOf(norm(z)) == fileOf(z))
      && (forall z {:trigger norm(norm(z))} :: norm(norm(z)) == norm(z))
      && (forall z {:trigger valid(norm(z))} :: valid(norm(z)) == valid(z))
    }

    /** These zones, by normalized name, have files of their own. */
    ghost predicate Apart(zones: set<string>) {
      && (forall y :: y in zones ==> norm(y) == y)
      && (forall y, z :: y in zones && z in zones && fileOf(y) == fileOf(z) ==> y == z)
    }
  }

  /** The agent's naming, for a hash and a validator of normalized names. */
  ghost predicate IsReal(hash: string -> string, check: string -> bool, naming: Naming) {
    && HexHash(hash)
    && (forall z :: naming.fileOf(z) == SafeZoneFilename(hash, z))
    && (forall z :: naming.norm(z) == NormalizeZoneName(z))
    && (forall z :: naming.valid(z) == check(NormalizeZoneName(z)))
  }

  lemma RealNamingAgrees(hash: string -> string, check: string -> bool, naming: Naming)
    requires IsReal(hash, check, naming)
    ensures naming.Agrees()
  {
    forall z ensures naming.fileOf(naming.norm(z)) == naming.fileOf(z)
                     && naming.norm(naming.norm(z)) == naming.norm(z)
                     && naming.valid(naming.norm(z)) == naming.valid(z)
    {
      FilenameAgreesWithNormalization(hash, z);
      NormalizeIsIdempotent(z);
    }
  }

  lemma ApartIff(naming: Naming, zones: set<string>, clash: (string, string) -> bool)
    requires forall y :: y in zones ==> naming.norm(y) == y
    requires forall y, z :: y in zones && z in zones && y != z ==> (naming.fileOf(y) == naming.fileOf(z) <==> clash(y, z))
    ensures naming.Apart(zones) <==> forall y, z :: y in zones && z in zones && y != z ==> !clash(y, z)
  {
  }

  /** Exactly which zones the agent keeps apart. */
  lemma RealNamingApartIff(hash: string -> string, check: string -> bool, naming: Naming, zones: set<string>)
    requires IsReal(hash, check, naming) && forall z <- zones :: Managed(z)
    ensures naming.Apart(zones) <==> forall y, z :: y in zones && z in zones && y != z ==> !Clash(hash, y, z)
  {
    var clash := (y, z) => Clash(hash, y, z);
    forall y, z | y in zones && z in zones && y != z
      ensures naming.fileOf(y) == naming.fileOf(z) <==> clash(y, z)
    {
      ShareFileIff(hash, y, z);
    }
    ApartIff(naming, zones, clash);
    assert forall y, z :: clash(y, z) == Clash(hash, y, z);
  }

  /** What one operation answers, and whether it took effect: a failure can come before or after that. */
  datatype Answer = Confirmed | FailedAfter | FailedBefore {
    predicate Applied() {
      this != FailedBefore
    }
  }

  datatype File = File(data: string, mode: nat)

  function Lookup<K, V>(m: map<K, V>, k: K): Option<V> {
    if k in m then Some(m[k]) else None
  }

  /** m with the entry at k put back to v. */
  function Restored<K, V>(m: map<K, V>, k: K, v: Option<V>): map<K, V> {
    if v.Some? then m[k := v.value] else m - {k}
  }

  /** Looking up, and putting one entry back without touching another. */
  lemma RestoredMeaning<K, V>(m: map<K, V>, k: K, v: Option<V>, other: K)
    ensures k in m ==> Lookup(m, k) == Some(m[k])
    ensures k !in m ==> Lookup(m, k) == None
    ensures k in Restored(m, k, v) <==> v.Some?
    ensures v.Some? ==> Restored(m, k, v)[k] == v.value
    ensures other != k ==> (other in Restored(m, k, v) <==> other in m)
    ensures other != k && other in m ==> Restored(m, k, v)[other] == m[other]
  {
  }

  /** What the closure returned by a write remembers. */
  datatype Rollback = Rollback(file: string, snapshot: Option<File>, previousName: Option<string>)

  /** One read, edit and write of the index; the write fails after taking effect when only the
      directory sync behind the rename fails. */
  datatype IndexScript = IndexScript(readable: bool, write: Answer) {
    predicate Ok() {
      readable && write.Confirmed?
    }

    predicate Applied() {
      readable && write.Applied()
    }
  }

  /** One zone write: the steps up to the rename, the rename with its directory sync, the index, and
      the undoing of the rename when a later step fails. */
  datatype WriteScript = WriteScript(prepared: bool, rename: Answer, record: IndexScript, undo: Answer) {
    predicate Ok() {
      prepared && rename.Confirmed? && record.Ok()
    }
  }

  datatype UndoScript = UndoScript(file: Answer, index: IndexScript)

  class ZoneFiles {
    const naming: Naming
    var files: map<string, File>
    var index: map<string, string>

    constructor (naming: Naming)
      ensures this.naming == naming && files == map[] && index == map[]
    {
      this.naming := naming;
      files := map[];
      index := map[];
    }

    /** Every index entry is filed under its own zone's file name. */
    ghost predicate IndexSound()
      reads this
    {
      forall f :: f in index ==> naming.fileOf(index[f]) == f && naming.valid(index[f])
    }

    method ZoneExists(zone: string) returns (exists_: bool)
      ensures exists_ <==> naming.fileOf(zone) in files
    {
      exists_ := naming.fileOf(zone) in files;
    }

    /** Temporary file, rename, directory sync. */
    method ReplaceFile(name: string, file: File, a: Answer) returns (ok: bool)
      modifies this`files
      ensures ok == a.Confirmed?
      ensures files == if a.Applied() then old(files)[name := file] else old(files)
    {
      if a.Applied() {
        files := files[name := file];
      }
      return a.Confirmed?;
    }

    method RemoveFile(name: string, a: Answer) returns (ok: bool)
      modifies this`files
      ensures ok == a.Confirmed?
      ensures files == if a.Applied() then old(files) - {name} else old(files)
    {
      if a.Applied() {
        files := files - {name};
      }
      return a.Confirmed?;
    }

    method ReadIndex(readable: bool) returns (entries: Option<map<string, string>>)
      ensures entries == if readable then Some(index) else None
    {
      return if readable then Some(index) else None;
    }

    method WriteIndex(entries: map<string, string>, a: Answer) returns (ok: bool)
      modifies this`index
      ensures ok == a.Confirmed?
      ensures index == if a.Applied() then entries else old(index)
    {
      if a.Applied() {
        index := entries;
      }
      return a.Confirmed?;
    }

    /** Puts one zone's file back, or removes it if there was none. */
    method RestoreSnapshot(name: string, snapshot: Option<File>, a: Answer) returns (ok: bool)
      modifies this`files
      ensures ok == a.Confirmed?
      ensures files == if a.Applied() then Restored(old(files), name, snapshot) else old(files)
    {
      if snapshot.None? {
        ok := RemoveFile(name, a);
        return;
      }
      ok := ReplaceFile(name, snapshot.value, a);
    }

    /** Records the zone in the index and returns the entry it replaced. */
    method RecordManagedZone(zone: string, s: IndexScript) returns (ok: bool, previous: Option<string>)
      modifies this`index
      ensures ok == s.Ok()
      ensures index == if s.Applied() then old(index)[naming.fileOf(zone) := naming.norm(zone)] else old(index)
      ensures ok ==> previous == Lookup(old(index), naming.fileOf(zone))
    {
      var entries := ReadIndex(s.readable);
      if entries.None? {
        return false, None;
      }
      var safeName := naming.fileOf(zone);
      previous := Lookup(entries.value, safeName);
      ok := WriteIndex(entries.value[safeName := naming.norm(zone)], s.write);
    }

    method RemoveManagedZone(zone: string, s: IndexScript) returns (ok: bool)
      modifies this`index
      ensures ok == s.Ok()
      ensures index == if s.Applied() then old(index) - {naming.fileOf(zone)} else old(index)
    {
      var entries := ReadIndex(s.readable);
      if entries.None? {
        return false;
      }
      ok := WriteIndex(entries.value - {naming.fileOf(zone)}, s.write);
    }

    /** Validated, atomic write with a rollback record. A failure before the rename changes nothing; a
        later one puts the file back, unless that fails too. An index that was written before its
        directory sync failed stays written. */
    method WriteZoneFile(zone: string, content: string, s: WriteScript) returns (rollback: Option<Rollback>)
      modifies this
      ensures rollback.Some? <==> s.Ok()
      ensures rollback.Some? ==>
                && files == old(files)[naming.fileOf(zone) := File(content, 0x1A4)]
                && index == old(index)[naming.fileOf(zone) := naming.norm(zone)]
                && rollback.value == Rollback(naming.fileOf(zone), Lookup(old(files), naming.fileOf(zone)),
                                              Lookup(old(index), naming.fileOf(zone)))
      ensures rollback.None? ==>
                && files == (if s.prepared && s.rename.Applied() && !s.undo.Applied()
                             then old(files)[naming.fileOf(zone) := File(content, 0x1A4)] else old(files))
                && index == (if s.prepared && s.rename.Confirmed? && s.record.Applied()
                             then old(index)[naming.fileOf(zone) := naming.norm(zone)] else old(index))
    {
      if !s.prepared {
        return None;
      }
      var target := naming.fileOf(zone);
      var snapshot := Lookup(files, target);
      var renamed := ReplaceFile(target, File(content, 0x1A4), s.rename);
      if !renamed {
        if s.rename.Applied() {
          var _ := RestoreSnapshot(target, snapshot, s.undo);
        }
        assert s.undo.Applied() ==> files == old(files);
        return None;
      }
      var recorded, previous := RecordManagedZone(zone, s.record);
      if !recorded {
        var _ := RestoreSnapshot(target, snapshot, s.undo);
        assert s.undo.Applied() ==> files == old(files);
        return None;
      }
      return Some(Rollback(target, snapshot, previous));
    }

    /** The closure: puts back this zone's file and this zone's index entry in the index as it is now,
        and leaves every other file and entry alone. */
    method RunRollback(r: Rollback, s: UndoScript) returns (ok: bool)
      modifies this
      ensures ok == (s.file.Confirmed? && s.index.Ok())
      ensures files == if s.file.Applied() then Restored(old(files), r.file, r.snapshot) else old(files)
      ensures index == if s.index.Applied() then Restored(old(index), r.file, r.previousName) else old(index)
    {
      var fileOk := RestoreSnapshot(r.file, r.snapshot, s.file);
      var entries := ReadIndex(s.index.readable);
      if entries.None? {
        return false;
      }
      var indexOk := WriteIndex(Restored(entries.value, r.file, r.previousName), s.index.write);
      return fileOk && indexOk;
    }

    /** Removes the zone file. A missing file is no error; the directory sync can fail after the removal. */
    method DeleteZoneFiles(zone: string, a: Answer) returns (ok: bool)
      modifies this`files
      ensures ok == a.Confirmed?
      ensures files == if a.Applied() then old(files) - {naming.fileOf(zone)} else old(files)
    {
      ok := RemoveFile(naming.fileOf(zone), a);
    }
  }

  /** m with every entry but the one at k replaced by those of other. */
  function Others<K, V>(m: map<K, V>, k: K, other: map<K, V>): map<K, V> {
    Restored(other, k, Lookup(m, k))
  }

  /** Writing a zone, letting the rest of the agent change every other file and index entry at will, and
      running the closure: the zone's file and index entry are exactly as before the write, all others
      as they were left. */
  method WriteThenUndo(fm: ZoneFiles, zone: string, content: string, w: WriteScript, u: UndoScript,
                       files: map<string, File>, index: map<string, string>)
    returns (undone: bool)
    modifies fm
    ensures undone <==> w.Ok() && u.file.Confirmed? && u.index.Ok()
    ensures undone ==>
              && Lookup(fm.files, fm.naming.fileOf(zone)) == Lookup(old(fm.files), fm.naming.fileOf(zone))
              && Lookup(fm.index, fm.naming.fileOf(zone)) == Lookup(old(fm.index), fm.naming.fileOf(zone))
              && (forall f :: f != fm.naming.fileOf(zone) ==> Lookup(fm.files, f) == Lookup(files, f))
              && (forall f :: f != fm.naming.fileOf(zone) ==> Lookup(fm.index, f) == Lookup(index, f))
  {
    var r := fm.WriteZoneFile(zone, content, w);
    if r.None? {
      return false;
    }
    fm.files := Others(fm.files, fm.naming.fileOf(zone), files);
    fm.index := Others(fm.index, fm.naming.fileOf(zone), index);
    undone := fm.RunRollback(r.value, u);
  }

  // ----- service references -----

  /** Which of the two services reference one zone. */
  datatype Refs = Refs(auth: bool, stub: bool) {
    predicate Any() {
      auth || stub
    }
  }

  const NO_REFS := Refs(false, false)

  function Added(before: bool, a: Answer): bool {
    before || a.Applied()
  }

  function Dropped(before: bool, a: Answer): bool {
    before && !a.Applied()
  }

  /** What the commands that add both references answer: the two edits, and the reloads, config check and
      cache flush around them, which reference nothing. */
  datatype PutScript = PutScript(ensure: Answer, reload: bool, stub: Answer, check: bool, reloadResolver: bool, flush: bool) {
    predicate Ok() {
      ensure.Confirmed? && reload && stub.Confirmed? && check && reloadResolver && flush
    }
  }

  /** Applying stops at the first failure. */
  function ApplyRefs(r: Refs, s: PutScript): Refs {
    Refs(Added(r.auth, s.ensure), if s.ensure.Confirmed? && s.reload then Added(r.stub, s.stub) else r.stub)
  }

  lemma ApplyRefsMeaning(r: Refs, s: PutScript)
    ensures s.ensure.FailedBefore? ==> ApplyRefs(r, s) == r
    ensures s.ensure.FailedAfter? || (s.ensure.Confirmed? && !s.reload) ==> ApplyRefs(r, s) == Refs(true, r.stub)
    ensures s.ensure.Confirmed? && s.reload ==> ApplyRefs(r, s) == Refs(true, r.stub || !s.stub.FailedBefore?)
  {
  }

  /** Restoring carries on after a failure. */
  function RestoreRefs(r: Refs, s: PutScript, auth: bool, resolver: bool): Refs {
    Refs(if auth then Added(r.auth, s.ensure) else r.auth, if resolver then Added(r.stub, s.stub) else r.stub)
  }

  predicate RestoreOk(s: PutScript, auth: bool, resolver: bool) {
    && (auth ==> s.ensure.Confirmed? && s.reload)
    && (resolver ==> s.stub.Confirmed? && s.check && s.reloadResolver && s.flush)
  }

  /** What the commands that drop both references answer, and the restore that follows a failure. */
  datatype DropScript = DropScript(auth: Answer, stub: Answer, check: bool, reload: bool, flush: bool, restore: PutScript) {
    predicate Ok() {
      auth.Confirmed? && stub.Confirmed? && check && reload && flush
    }
  }

  function DropRefs(r: Refs, s: DropScript): Refs {
    if !s.auth.Confirmed? then RestoreRefs(Refs(Dropped(r.auth, s.auth), r.stub), s.restore, true, false)
    else if !s.stub.Confirmed? then RestoreRefs(Refs(false, Dropped(r.stub, s.stub)), s.restore, true, false)
    else if !s.Ok() then RestoreRefs(NO_REFS, s.restore, true, true)
    else NO_REFS
  }

  /** Dropping leaves a reference exactly when a command failed and either an old reference outlived it or
      the restore added one, be it to a zone that had none. */
  lemma DropLeavesReferenceIff(r: Refs, s: DropScript)
    ensures DropRefs(r, s).Any()
            <==> || (!s.auth.Confirmed? && (s.restore.ensure.Applied() || r.stub || (r.auth && s.auth.FailedBefore?)))
                 || (s.auth.Confirmed? && !s.stub.Confirmed?
                     && (s.restore.ensure.Applied() || (r.stub && s.stub.FailedBefore?)))
                 || (s.auth.Confirmed? && s.stub.Confirmed? && !s.Ok()
                     && (s.restore.ensure.Applied() || s.restore.stub.Applied()))
  {
  }

  /** Scripts in which every answer is a success are fine, and one failure spoils each of them. */
  lemma ScriptsMeaning(w: WriteScript, p: PutScript, d: DropScript, i: IndexScript)
    ensures i.Ok() <==> i == IndexScript(true, Confirmed)
    ensures w.Ok() <==> w == WriteScript(true, Confirmed, IndexScript(true, Confirmed), w.undo)
    ensures p.Ok() <==> p == PutScript(Confirmed, true, Confirmed, true, true, true)
    ensures d.Ok() <==> d == DropScript(Confirmed, Confirmed, true, true, true, d.restore)
  {
  }

  /** The authoritative server's zone list and the resolver's stub zones, by normalized zone name. */
  class Services {
    var auth: set<string>
    var stubs: set<string>

    ghost function RefsOf(n: string): Refs
      reads this
    {
      Refs(n in auth, n in stubs)
    }

    ghost predicate References(n: string)
      reads this
    {
      n in auth || n in stubs
    }

    /** Only zone n may have changed. */
    twostate predicate OnlyTouches(n: string)
      reads this
    {
      forall m :: m != n ==> (m in auth <==> m in old(auth)) && (m in stubs <==> m in old(stubs))
    }

    method EnsureZone(n: string, a: Answer) returns (ok: bool)
      modifies this`auth
      ensures ok == a.Confirmed? && auth == if a.Applied() then old(auth) + {n} else old(auth)
    {
      if a.Applied() {
        auth := auth + {n};
      }
      return a.Confirmed?;
    }

    method DeleteZone(n: string, a: Answer) returns (ok: bool)
      modifies this`auth
      ensures ok == a.Confirmed? && auth == if a.Applied() then old(auth) - {n} else old(auth)
    {
      if a.Applied() {
        auth := auth - {n};
      }
      return a.Confirmed?;
    }

    method UpdateStubZone(n: string, a: Answer) returns (ok: bool)
      modifies this`stubs
      ensures ok == a.Confirmed? && stubs == if a.Applied() then old(stubs) + {n} else old(stubs)
    {
      if a.Applied() {
        stubs := stubs + {n};
      }
      return a.Confirmed?;
    }

    method DeleteStubZone(n: string, a: Answer) returns (ok: bool)
      modifies this`stubs
      ensures ok == a.Confirmed? && stubs == if a.Applied() then old(stubs) - {n} else old(stubs)
    {
      if a.Applied() {
        stubs := stubs - {n};
      }
      return a.Confirmed?;
    }

    /** Ensure, reload, stub, check, reload, flush; stops at the first failure. */
    method Apply(n: string, s: PutScript) returns (ok: bool)
      modifies this
      ensures OnlyTouches(n) && RefsOf(n) == ApplyRefs(old(RefsOf(n)), s)
      ensures ok == s.Ok()
      ensures ok ==> RefsOf(n) == Refs(true, true)
    {
      ok := EnsureZone(n, s.ensure);
      if !ok || !s.reload {
        return false;
      }
      ok := UpdateStubZone(n, s.stub);
      if !ok || !s.check || !s.reloadResolver || !s.flush {
        return false;
      }
      return true;
    }

    /** Restores what the flags ask for; carries on after a failure and reports it at the end. */
    method Restore(n: string, restoreAuth: bool, restoreResolver: bool, s: PutScript) returns (ok: bool)
      modifies this
      ensures OnlyTouches(n) && RefsOf(n) == RestoreRefs(old(RefsOf(n)), s, restoreAuth, restoreResolver)
      ensures ok == RestoreOk(s, restoreAuth, restoreResolver)
      ensures ok && restoreAuth ==> n in auth
      ensures ok && restoreResolver ==> n in stubs
    {
      ok := true;
      if restoreAuth {
        var done := EnsureZone(n, s.ensure);
        ok := done && s.reload;
      }
      if restoreResolver {
        var done := UpdateStubZone(n, s.stub);
        if !done {
          ok := false;
        } else {
          var flushed := s.reloadResolver && s.flush;
          ok := ok && s.check && flushed;
        }
      }
    }

    /** Removes both references. A failure part-way restores what had been removed, and stays a failure. */
    method Delete(n: string, s: DropScript) returns (ok: bool)
      modifies this
      ensures OnlyTouches(n) && RefsOf(n) == DropRefs(old(RefsOf(n)), s)
      ensures ok == s.Ok()
      ensures ok ==> !References(n)
    {
      var authDeleted, resolverDeleted := false, false;
      authDeleted := DeleteZone(n, s.auth);
      if !authDeleted {
        var _ := Restore(n, true, resolverDeleted, s.restore);
        return false;
      }
      resolverDeleted := DeleteStubZone(n, s.stub);
      if !resolverDeleted {
        var _ := Restore(n, authDeleted, resolverDeleted, s.restore);
        return false;
      }
      if !s.check || !s.reload || !s.flush {
        var _ := Restore(n, authDeleted, resolverDeleted, s.restore);
        return false;
      }
      return true;
    }

    /** After a failed apply: a zone that existed before keeps its references, a new one loses them. */
    method RollbackApplied(n: string, hadPrevious: bool, put: PutScript, drop: DropScript) returns (ok: bool)
      modifies this
      ensures OnlyTouches(n)
      ensures ok == if hadPrevious then RestoreOk(put, true, true) else drop.Ok()
      ensures RefsOf(n) == if hadPrevious then RestoreRefs(old(RefsOf(n)), put, true, true) else DropRefs(old(RefsOf(n)), drop)
      ensures ok ==> RefsOf(n) == Refs(hadPrevious, hadPrevious)
    {
      if hadPrevious {
        ok := Restore(n, true, true, put);
      } else {
        ok := Delete(n, drop);
      }
    }
  }

  // ----- removing a zone -----

  /** Dropping the references, removing the file, restoring the references when that fails, and the index. */
  datatype RemovalScript = RemovalScript(drop: DropScript, remove: Answer, restore: PutScript, index: IndexScript) {
    predicate Ok() {
      drop.Ok() && remove.Confirmed? && index.Ok()
    }

    /** The file is gone although its removal is reported as failed: only the directory sync failed. */
    predicate LosesFile() {
      drop.Ok() && remove.FailedAfter?
    }
  }

  function RemovalRefs(r: Refs, s: RemovalScript): Refs {
    if !s.drop.Ok() then DropRefs(r, s.drop)
    else if !s.remove.Confirmed? then RestoreRefs(NO_REFS, s.restore, true, true)
    else NO_REFS
  }

  /** Exactly when removing a zone leaves a reference to a missing file: the file was missing before the
      call or is lost by it, and a restore added a reference or an old one was never dropped. */
  ghost predicate Dangles(hadFile: bool, r: Refs, s: RemovalScript) {
    (!hadFile || s.LosesFile()) && RemovalRefs(r, s).Any()
  }

  /** The same in terms of single answers, once the references could be dropped. */
  lemma RemovalLeavesReferenceIff(r: Refs, s: RemovalScript)
    requires s.drop.Ok()
    ensures RemovalRefs(r, s).Any() <==> !s.remove.Confirmed? && (s.restore.ensure.Applied() || s.restore.stub.Applied())
  {
  }

  const FINE := PutScript(Confirmed, true, Confirmed, true, true, true)
  const DROPPED := DropScript(Confirmed, Confirmed, true, true, true, FINE)

  /** A removal whose index update fails after everything else worked ... */
  const INDEX_FAILS := RemovalScript(DROPPED, Confirmed, FINE, IndexScript(true, FailedBefore))

  /** ... one whose first command fails, so that the reference is restored ... */
  const DROP_FAILS := RemovalScript(DROPPED.(auth := FailedBefore), Confirmed, FINE, IndexScript(true, Confirmed))

  /** ... and one whose directory sync fails after the file is gone. */
  const SYNC_FAILS := RemovalScript(DROPPED, FailedAfter, FINE, IndexScript(true, Confirmed))
}
