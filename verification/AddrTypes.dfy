/**
  Values handled by the address manager: addresses, the statistics kept per
  address, and the keyed hashing that assigns every address its buckets.
  Hashing itself is an arbitrary function carried in an `Env`.
 */
module AddrTypes {

  const TRIED_BUCKET_COUNT: nat := 256
  const NEW_BUCKET_COUNT: nat := 1024
  const BUCKET_SIZE: nat := 64
  const TRIED_BUCKETS_PER_GROUP: nat := 8
  const NEW_BUCKETS_PER_SOURCE_GROUP: nat := 64
  const NEW_BUCKETS_PER_ADDRESS: nat := 8
  const HORIZON_DAYS: nat := 30
  const RETRIES: nat := 3
  const MAX_FAILURES: nat := 10
  const MIN_FAIL_DAYS: nat := 7
  const GETADDR_MAX_PCT: nat := 23
  const GETADDR_MAX: nat := 2500

  /** A network address without a port (`CNetAddr`). */
  datatype NetAddr = NetAddr(ip: nat)

  /** An address with a port (`CService`). */
  datatype Service = Service(addr: NetAddr, port: nat)

  /** A set of service bits (`ServiceFlags`), by bit number. */
  type ServiceFlags = set<nat>

  /** An advertised address (`CAddress`): service bits and a 32-bit timestamp. */
  datatype Address = Address(addr: NetAddr, port: nat, services: ServiceFlags, time: nat)

  /** What a bucket hash is computed from, in the order it is fed to the hash. */
  datatype HashField =
    | KeyField(key: nat)
    | ServiceField(addr: NetAddr, port: nat)
    | GroupField(group: nat)
    | NumberField(n: nat)
    | TagField(tag: char)

  /** The world outside the address manager: hashing, address groups, routability. */
  datatype Env = Env(hash: seq<HashField> -> nat, group: NetAddr -> nat, routable: NetAddr -> bool)

  /** Statistics of one known address that do not depend on where it is stored. */
  datatype Meta = Meta(
    port: nat,
    services: ServiceFlags,
    time: nat,
    source: NetAddr,
    lastSuccess: int,
    attempts: int,
    lastTry: int,
    lastCountAttempt: int)

  function FreshMeta(a: Address, source: NetAddr): Meta {
    Meta(a.port, a.services, a.time, source, 0, 0, 0, 0)
  }

  /** Storing a 64-bit time in the 32-bit timestamp field. */
  function ToTimestamp(t: int): nat {
    t % 0x1_0000_0000
  }

  predicate IsTerrible(m: Meta, now: int) {
    if m.lastTry != 0 && m.lastTry >= now - 60 then false
    else if m.time > now + 10 * 60 then true
    else if m.time == 0 || now - m.time > HORIZON_DAYS * 24 * 60 * 60 then true
    else if m.lastSuccess == 0 && m.attempts >= RETRIES then true
    else now - m.lastSuccess > MIN_FAIL_DAYS * 24 * 60 * 60 && m.attempts >= MAX_FAILURES
  }

  /** A bucket number and a position in that bucket. */
  type Slot = (int, int)

  /** Bucket assignment under a secret key. */
  datatype Hasher = Hasher(env: Env, key: nat) {

    function TriedBucket(a: NetAddr, port: nat): (b: nat)
      ensures b < TRIED_BUCKET_COUNT
    {
      var hash1 := env.hash([KeyField(key), ServiceField(a, port)]);
      var hash2 := env.hash([KeyField(key), GroupField(env.group(a)), NumberField(hash1 % TRIED_BUCKETS_PER_GROUP)]);
      hash2 % TRIED_BUCKET_COUNT
    }

    function NewBucket(a: NetAddr, source: NetAddr): (b: nat)
      ensures b < NEW_BUCKET_COUNT
    {
      var hash1 := env.hash([KeyField(key), GroupField(env.group(a)), GroupField(env.group(source))]);
      var hash2 := env.hash([KeyField(key), GroupField(env.group(source)),
                             NumberField(hash1 % NEW_BUCKETS_PER_SOURCE_GROUP)]);
      hash2 % NEW_BUCKET_COUNT
    }

    function Position(a: NetAddr, port: nat, inNew: bool, bucket: nat): (p: nat)
      ensures p < BUCKET_SIZE
    {
      env.hash([KeyField(key), TagField(if inNew then 'N' else 'K'), NumberField(bucket), ServiceField(a, port)])
        % BUCKET_SIZE
    }

    function NewSlot(a: NetAddr, port: nat, bucket: nat): (slot: Slot)
      ensures slot.0 == bucket && 0 <= slot.1 < BUCKET_SIZE
    {
      (bucket, Position(a, port, true, bucket))
    }

    function TriedSlot(a: NetAddr, port: nat): (slot: Slot)
      ensures 0 <= slot.0 < TRIED_BUCKET_COUNT && 0 <= slot.1 < BUCKET_SIZE
    {
      var b := TriedBucket(a, port);
      (b, Position(a, port, false, b))
    }
  }
}
