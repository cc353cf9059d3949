/** The fragment value that every component stores, moves or indexes. */
module Fragments {

  datatype Option<+T> = None | Some(value: T)

  /** Content hashes enter the code only through equality and a total order.  A
      fixed-width hexadecimal digest compares as the number it writes, so a hash
      is modelled by that number. */
  type Hash = nat

  /** One fragment: the identity fields that lookups read, and the lifecycle
      fields that residency and replication read. */
  datatype FragmentRecord = FragmentRecord(
    hash: Hash,
    model: string,
    start: int,
    end: int,
    tenant: string,
    payloadRef: Option<Hash>,
    size: int,
    ttl: real,
    reuse: real,
    version: int)

  /** What the constructors of an identity and of a fragment insist on. */
  predicate WellFormed(f: FragmentRecord) {
    && 0 <= f.start <= f.end
    && 0 <= f.size
    && 0.0 <= f.ttl
    && 0.0 <= f.reuse <= 1.0
    && 1 <= f.version
  }

  type Fragment = f: FragmentRecord | WellFormed(f)
    witness FragmentRecord(0, "", 0, 0, "public", None, 0, 0.0, 0.0, 1)

  /** The tree order on fragments: by start, ties broken by content hash. */
  predicate Before(a: Fragment, b: Fragment) {
    a.start < b.start || (a.start == b.start && a.hash < b.hash)
  }
}
