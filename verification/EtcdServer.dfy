/** The part of etcd the zone store relies on: revisioned keys and compare-then-write transactions.
    The three key prefixes (zones, versions, history) are disjoint, so each has its own map. */
module EtcdServer {
  import opened ZoneModel

  datatype Entry<T> = Entry(value: T, createRev: nat, modRev: nat)

  datatype Store = Store(zones: map<string, Entry<Zone>>,
                         versions: map<string, Entry<string>>,
                         history: map<(string, string), Entry<Zone>>,
                         rev: nat)

  const EMPTY := Store(map[], map[], map[], 0)

  datatype Cmp =
    | ZoneAbsent(name: string)
    | ZoneModRev(name: string, rev: nat)
    | VersionIs(name: string, text: string)

  datatype Write =
    | PutZone(name: string, zone: Zone)
    | PutVersion(name: string, version: string)
    | PutHistory(name: string, version: string, zone: Zone)
    | DropZone(name: string)
    | DropVersion(name: string)
    | DropHistory(name: string, version: string)

  /** A missing key has create and mod revision 0 and no value. */
  predicate Holds(s: Store, c: Cmp) {
    match c
    case ZoneAbsent(n) => n !in s.zones
    case ZoneModRev(n, r) => (if n in s.zones then s.zones[n].modRev else 0) == r
    case VersionIs(n, t) => n in s.versions && s.versions[n].value == t
  }

  predicate AllHold(s: Store, cs: seq<Cmp>) {
    cs == [] || (Holds(s, cs[0]) && AllHold(s, cs[1..]))
  }

  function Put<K, T>(m: map<K, Entry<T>>, k: K, v: T, rev: nat): map<K, Entry<T>> {
    m[k := Entry(v, if k in m then m[k].createRev else rev, rev)]
  }

  function Written(s: Store, w: Write, rev: nat): Store {
    match w
    case PutZone(n, z) => s.(zones := Put(s.zones, n, z, rev))
    case PutVersion(n, v) => s.(versions := Put(s.versions, n, v, rev))
    case PutHistory(n, v, z) => s.(history := Put(s.history, (n, v), z, rev))
    case DropZone(n) => s.(zones := s.zones - {n})
    case DropVersion(n) => s.(versions := s.versions - {n})
    case DropHistory(n, v) => s.(history := s.history - {(n, v)})
  }

  function AllWritten(s: Store, ws: seq<Write>, rev: nat): Store
    decreases ws
  {
    if ws == [] then s else AllWritten(Written(s, ws[0], rev), ws[1..], rev)
  }

  /** All comparisons and writes of a transaction happen at one new revision, or not at all. */
  function Txn(s: Store, cs: seq<Cmp>, ws: seq<Write>): (Store, bool) {
    if AllHold(s, cs) then (AllWritten(s, ws, s.rev + 1).(rev := s.rev + 1), true) else (s, false)
  }

  /** The shared server object: clients only see it through Get and Commit. */
  class Server {
    var store: Store

    constructor ()
      ensures store == EMPTY
    {
      store := EMPTY;
    }

    method GetZone(name: string) returns (found: Option<Entry<Zone>>)
      ensures found == if name in store.zones then Some(store.zones[name]) else None
    {
      if name in store.zones {
        return Some(store.zones[name]);
      }
      return None;
    }

    method Commit(cs: seq<Cmp>, ws: seq<Write>) returns (succeeded: bool)
      modifies this
      ensures (store, succeeded) == Txn(old(store), cs, ws)
    {
      succeeded := true;
      for i := 0 to |cs|
        invariant succeeded && AllHold(store, cs[i..]) == AllHold(store, cs)
      {
        if !Holds(store, cs[i]) {
          return false;
        }
      }
      var rev := store.rev + 1;
      ghost var start := store;
      for i := 0 to |ws|
        invariant AllWritten(store, ws[i..], rev) == AllWritten(start, ws, rev)
      {
        store := Written(store, ws[i], rev);
      }
      store := store.(rev := rev);
    }
  }
}
