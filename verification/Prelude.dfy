/** Vocabulary shared by every module: wrappers, bytes, machine words, the crate's constants. */
module Prelude {

  datatype Option<+T> = None | Some(value: T)

  datatype Result<+T, +E> = Ok(value: T) | Err(error: E)

  type Byte = b: int | 0 <= b < 256
  type Bytes = seq<Byte>

  const U32: nat := 0x1_0000_0000
  const U64: nat := 0x1_0000_0000_0000_0000
  const I64_MAX: nat := 0x7FFF_FFFF_FFFF_FFFF

  /** A 64-bit word seen as a number. */
  type Word64 = w: int | 0 <= w < 0x1_0000_0000_0000_0000

  /** An `i64`. */
  type Int64 = n: int | -0x8000_0000_0000_0000 <= n <= 0x7FFF_FFFF_FFFF_FFFF

  /** What 64-bit unsigned arithmetic leaves of the mathematical result x. */
  function Wrap(x: int): Word64 {
    if 0 <= x < 0x1_0000_0000_0000_0000 then x else x % 0x1_0000_0000_0000_0000
  }

  lemma WrapAdd(x: int, y: int)
    ensures Wrap(Wrap(x) + y) == Wrap(x + y)
  {
    WrapQuotient(x);
    WrapQuotient(x + y);
    var q :| x == 0x1_0000_0000_0000_0000 * q + Wrap(x);
    var p :| x + y == 0x1_0000_0000_0000_0000 * p + Wrap(x + y);
    WrapUnique(Wrap(x) + y, p - q, Wrap(x + y));
  }

  lemma WrapQuotient(x: int)
    ensures exists q :: x == 0x1_0000_0000_0000_0000 * q + Wrap(x)
  {
    var q := if 0 <= x < 0x1_0000_0000_0000_0000 then 0 else x / 0x1_0000_0000_0000_0000;
    assert x == 0x1_0000_0000_0000_0000 * q + Wrap(x);
  }

  lemma WrapUnique(x: int, q: int, r: Word64)
    requires x == 0x1_0000_0000_0000_0000 * q + r
    ensures Wrap(x) == r
  {
    WrapQuotient(x);
    var p :| x == 0x1_0000_0000_0000_0000 * p + Wrap(x);
    assert p == q;
  }

  lemma WrapOfWord(w: Word64)
    ensures Wrap(w) == w
  {
  }

  function Min(a: int, b: int): int {
    if a <= b then a else b
  }

  // common/constants.rs
  const SHARD_COUNT: nat := 64
  const TTL_KEYS_PER_CHECK: nat := 20
  const MAX_KEY_SIZE: nat := 512
  const MAX_VALUE_SIZE: nat := 512 * 1024 * 1024
  const MAX_KEYS_PER_SHARD: nat := 100_000_000
  const MAX_MEMORY_PER_SHARD: nat := 20 * 1024 * 1024 * 1024
  const SNAPSHOT_CHANNEL_CAPACITY: nat := 1
  // protocol/channels.rs
  const COMMAND_CHANNEL_CAPACITY: nat := 1024

  /** Monotonic time and durations, in nanoseconds. */
  type Instant = nat
  const NANOS_PER_SEC: nat := 1_000_000_000

  type Key = Bytes
}

/** What travels between a connection and a shard: protocol/command.rs and protocol/response.rs. */
module Messages {
  import opened Prelude

  function KeySet(keys: seq<Key>): set<Key> {
    set k | k in keys
  }

  datatype Command =
    | Ping(message: Option<Bytes>)
    | Set(key: Key, value: Bytes, ttl: Option<nat>)
    | Get(key: Key)
    | Del(keys: seq<Key>)
    | Expire(key: Key, seconds: nat)
    | Ttl(key: Key)
    | Info(section: Option<Bytes>)
  {
    /** Every key the command mentions. */
    function Keys(): set<Key> {
      match this
      case Set(key, _, _) => {key}
      case Get(key) => {key}
      case Del(keys) => KeySet(keys)
      case Expire(key, _) => {key}
      case Ttl(key) => {key}
      case _ => {}
    }
  }

  datatype Response =
    | Value(value: Option<Bytes>)
    | Integer(n: int)
    | Done                       // Response::Ok
    | Error(message: string)
}
