/** The zone record shared by the stores, the validator and the signer. */
module ZoneModel {
  import opened Serials

  datatype Option<+T> = None | Some(value: T)

  datatype Record = Record(name: string, rtype: string, ttl: uint32, value: string)

  datatype Soa = Soa(mname: string, rname: string, serial: uint32,
                     refresh: uint32, retry: uint32, expire: uint32, minimum: uint32)

  datatype Dnssec = Dnssec(enabled: bool, algorithm: nat, kskKeyTag: nat, zskKeyTag: nat,
                           nsec3Enabled: bool, nsec3Iterations: nat, nsec3Salt: string,
                           signatureExpiration: Option<int>)

  datatype Zone = Zone(name: string, version: string, soa: Soa, records: seq<Record>,
                       dnssec: Option<Dnssec>, createdAt: int, updatedAt: int)
}
