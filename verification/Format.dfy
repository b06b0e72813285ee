/** Little-endian integers, as the byteorder crate writes and reads them. */
module LittleEndian {
  import opened Prelude

  /** The low w bytes of n: wider numbers are truncated, as an `as` cast does. */
  function Le(n: nat, w: nat): (b: Bytes)
    ensures |b| == w
  {
    if w == 0 then [] else [n % 256] + Le(n / 256, w - 1)
  }

  function UnLe(b: Bytes): nat {
    if b == [] then 0 else b[0] + 256 * UnLe(b[1..])
  }

  function Pow256(w: nat): (p: nat)
    ensures p > 0
  {
    if w == 0 then 1 else 256 * Pow256(w - 1)
  }

  /** Little-endian: byte i is the i-th from the low end. */
  lemma {:induction false} LeAt(n: nat, w: nat, i: nat)
    requires i < w
    ensures Le(n, w)[i] == n / Pow256(i) % 256
  {
    if i > 0 {
      LeAt(n / 256, w - 1, i - 1);
      DivTwice(n, Pow256(i - 1));
    }
  }

  lemma DivTwice(n: nat, p: nat)
    requires p > 0
    ensures n / 256 / p == n / (256 * p)
  {
    var q, r := n / 256 / p, n / 256 % p;
    var low := 256 * r + n % 256;
    assert n / 256 == q * p + r;
    assert 256 * (q * p) == q * (256 * p);
    assert n == q * (256 * p) + low && 0 <= low < 256 * p;
    QuotientIs(n, 256 * p, q, low);
  }

  lemma QuotientIs(n: nat, d: nat, q: nat, r: nat)
    requires d > 0 && n == q * d + r && r < d
    ensures n / d == q
  {
    var p := n / d;
    if p > q {
      Grows(q + 1, p, d);
    } else if p < q {
      Grows(p + 1, q, d);
    }
  }

  lemma Grows(x: nat, y: nat, d: nat)
    requires x <= y
    ensures x * d <= y * d
  {
  }

  lemma Widths()
    ensures Pow256(2) == 0x1_0000 && Pow256(4) == 0x1_0000_0000 && Pow256(8) == 0x1_0000_0000_0000_0000
  {
    assert Pow256(2) == 0x1_0000;
    assert Pow256(4) == 0x1_0000_0000;
    assert Pow256(6) == 0x1_0000_0000_0000;
  }

  lemma {:induction false} LeRoundTrip(n: nat, w: nat)
    requires n < Pow256(w)
    ensures UnLe(Le(n, w)) == n
  {
    if w > 0 {
      LeRoundTrip(n / 256, w - 1);
      assert Le(n, w)[1..] == Le(n / 256, w - 1);
    }
  }

  lemma {:induction false} UnLeRoundTrip(b: Bytes)
    ensures UnLe(b) < Pow256(|b|) && Le(UnLe(b), |b|) == b
  {
    if b != [] {
      UnLeRoundTrip(b[1..]);
      assert UnLe(b) % 256 == b[0] && UnLe(b) / 256 == UnLe(b[1..]);
      assert [b[0]] + b[1..] == b;
    }
  }

  lemma {:induction false} UnLeConcat(a: Bytes, b: Bytes)
    ensures UnLe(a + b) == UnLe(a) + Pow256(|a|) * UnLe(b)
  {
    if a == [] {
      assert a + b == b;
    } else {
      UnLeConcat(a[1..], b);
      assert (a + b)[1..] == a[1..] + b;
      assert 256 * (Pow256(|a| - 1) * UnLe(b)) == Pow256(|a|) * UnLe(b);
    }
  }
}

/** common/time.rs: deadlines and wall-clock seconds. */
module WallClock {
  import opened Prelude

  /** One simultaneous reading of the two clocks; the system clock in nanoseconds since the epoch. */
  datatype Clock = Clock(instant: Instant, system: int)

  /** duration_since(UNIX_EPOCH), or zero before the epoch, in whole seconds. */
  function UnixSeconds(system: int): nat {
    if system < 0 then 0 else system / 1_000_000_000
  }

  function InstantToUnix(instant: Instant, clock: Clock): nat {
    var ahead := if instant > clock.instant then instant - clock.instant else 0;
    UnixSeconds(clock.system + ahead)
  }

  function UnixToInstant(timestamp: nat, clock: Clock): Instant {
    var now := UnixSeconds(clock.system);
    if timestamp > now then clock.instant + (timestamp - now) * 1_000_000_000 else clock.instant
  }

  /** The wall-clock time of a deadline, by the reading it is seen from. */
  function WallTime(deadline: Instant, clock: Clock): int {
    clock.system + (deadline - clock.instant)
  }

  /** What becomes of a deadline written at one reading and loaded at another, the wall clock not having gone
      back. It is kept exactly when its whole second is later than the load's; what is kept moves by less
      than a second of wall time and is still ahead; and nothing that has expired is kept. */
  lemma DeadlineSurvives(deadline: Instant, save: Clock, load: Clock)
    requires 0 <= save.system <= load.system
    ensures var stamp := InstantToUnix(deadline, save);
            var kept := stamp > UnixSeconds(load.system);
            var wall := WallTime(deadline, save);
            && (kept ==> load.instant < UnixToInstant(stamp, load))
            && (kept ==> -1_000_000_000 < WallTime(UnixToInstant(stamp, load), load) - wall < 1_000_000_000)
            && (kept ==> wall > load.system)
            && (wall <= load.system ==> !kept)
            && (kept <==> UnixSeconds(wall) > UnixSeconds(load.system))
  {
    var wall := WallTime(deadline, save);
    if deadline > save.instant {
      WholeSeconds(wall);
      WholeSeconds(load.system);
    } else {
      assert UnixSeconds(wall) <= UnixSeconds(save.system) <= UnixSeconds(load.system);
    }
  }

  /** Timestamps are whole seconds since the epoch, 0 before it; a deadline that has passed is saved as the save's
      own second, and a second that has come is loaded as the load's own instant. */
  lemma ClockEdges(deadline: Instant, timestamp: nat, clock: Clock)
    requires clock.system >= 0
    ensures var ahead := if deadline <= clock.instant then 0 else deadline - clock.instant;
            var stamp := InstantToUnix(deadline, clock);
            stamp * 1_000_000_000 <= clock.system + ahead < (stamp + 1) * 1_000_000_000
    ensures timestamp * 1_000_000_000 <= clock.system ==> UnixToInstant(timestamp, clock) == clock.instant
    ensures timestamp * 1_000_000_000 > clock.system ==>
              var seconds := (UnixToInstant(timestamp, clock) - clock.instant) / 1_000_000_000;
              && UnixToInstant(timestamp, clock) == clock.instant + seconds * 1_000_000_000
              && (timestamp - seconds) * 1_000_000_000 <= clock.system < (timestamp - seconds + 1) * 1_000_000_000
  {
  }

  lemma BeforeTheEpoch(system: int)
    requires system < 0
    ensures UnixSeconds(system) == 0
  {
  }

  lemma WholeSeconds(system: int)
    requires system >= 0
    ensures system - 1_000_000_000 < UnixSeconds(system) * 1_000_000_000 <= system
  {
  }

  /** The price of whole seconds: a key with half a second to live is dropped by a save and an immediate load. */
  lemma LastSecondIsLost()
    ensures var clock := Clock(0, 1_000_000_000);
            var stamp := InstantToUnix(500_000_000, clock);
            500_000_000 > clock.instant && stamp <= UnixSeconds(clock.system)
  {
  }
}

/** shard/persistence/format.rs: the 64-byte header. */
module Format {
  import opened Prelude
  import opened ByteStreams
  import opened LittleEndian

  // "RSDF"
  const MAGIC: Bytes := [82, 83, 68, 70]
  const VERSION: nat := 1
  const HEADER_SIZE: nat := 64

  datatype SnapshotHeader = SnapshotHeader(
    magic: Bytes,
    version: nat,
    shardId: nat,
    reserved1: nat,
    keyCount: nat,
    timestamp: nat,
    dataChecksum: nat,
    headerChecksum: nat,
    reserved2: Bytes)
  {
    /** Every field fits its width. */
    predicate Fits() {
      && |magic| == 4 && |reserved2| == 20
      && version < 0x1_0000_0000 && shardId < 0x1_0000 && reserved1 < 0x1_0000
      && keyCount < 0x1_0000_0000_0000_0000 && timestamp < 0x1_0000_0000_0000_0000
      && dataChecksum < 0x1_0000_0000_0000_0000 && headerChecksum < 0x1_0000_0000_0000_0000
    }
  }

  function Write(h: SnapshotHeader): Bytes {
    h.magic + Le(h.version, 4) + Le(h.shardId, 2) + Le(h.reserved1, 2) + Le(h.keyCount, 8)
    + Le(h.timestamp, 8) + Le(h.dataChecksum, 8) + Le(h.headerChecksum, 8) + h.reserved2
  }

  function Read(b: Bytes): SnapshotHeader
    requires |b| >= HEADER_SIZE
  {
    SnapshotHeader(b[0..4], UnLe(b[4..8]), UnLe(b[8..10]), UnLe(b[10..12]), UnLe(b[12..20]),
                   UnLe(b[20..28]), UnLe(b[28..36]), UnLe(b[36..44]), b[44..64])
  }

  /** One write_all: the part goes behind what was written since `before`. */
  method Append(buf: ByteBuffer, ghost before: Bytes, ghost head: Bytes, part: Bytes)
    requires buf.bytes == before + head
    modifies buf
    ensures buf.bytes == before + (head + part)
  {
    assert before + head + part == before + (head + part);
    buf.Extend(part);
  }

  method WriteHeader(h: SnapshotHeader, buf: ByteBuffer)
    modifies buf
    ensures buf.bytes == old(buf.bytes) + Write(h)
  {
    hide Le;
    ghost var before := buf.bytes;
    buf.Extend(h.magic);
    ghost var head := h.magic;
    Append(buf, before, head, Le(h.version, 4));
    head := head + Le(h.version, 4);
    Append(buf, before, head, Le(h.shardId, 2));
    head := head + Le(h.shardId, 2);
    Append(buf, before, head, Le(h.reserved1, 2));
    head := head + Le(h.reserved1, 2);
    Append(buf, before, head, Le(h.keyCount, 8));
    head := head + Le(h.keyCount, 8);
    Append(buf, before, head, Le(h.timestamp, 8));
    head := head + Le(h.timestamp, 8);
    Append(buf, before, head, Le(h.dataChecksum, 8));
    head := head + Le(h.dataChecksum, 8);
    Append(buf, before, head, Le(h.headerChecksum, 8));
    head := head + Le(h.headerChecksum, 8);
    Append(buf, before, head, h.reserved2);
  }

  method ReadHeader(reader: ByteCursor) returns (h: Option<SnapshotHeader>)
    requires reader.Valid() && reader.position == 0
    modifies reader
    ensures reader.Valid()
    ensures h == if |reader.data| < HEADER_SIZE then None else Some(Read(reader.data))
    ensures h.Some? ==> reader.position == HEADER_SIZE
  {
    hide UnLe;
    var magic := reader.ReadExact(4);
    if magic.None? { return None; }
    var version := reader.ReadExact(4);
    if version.None? { return None; }
    var shardId := reader.ReadExact(2);
    if shardId.None? { return None; }
    var reserved1 := reader.ReadExact(2);
    if reserved1.None? { return None; }
    var keyCount := reader.ReadExact(8);
    if keyCount.None? { return None; }
    var timestamp := reader.ReadExact(8);
    if timestamp.None? { return None; }
    var dataChecksum := reader.ReadExact(8);
    if dataChecksum.None? { return None; }
    var headerChecksum := reader.ReadExact(8);
    if headerChecksum.None? { return None; }
    var reserved2 := reader.ReadExact(20);
    if reserved2.None? { return None; }
    return Some(SnapshotHeader(magic.value, UnLe(version.value), UnLe(shardId.value), UnLe(reserved1.value),
                               UnLe(keyCount.value), UnLe(timestamp.value), UnLe(dataChecksum.value),
                               UnLe(headerChecksum.value), reserved2.value));
  }

  // ---------- inverse to each other ----------

  /** Where each field is, in any bytes that start with the header. */
  lemma Layout(h: SnapshotHeader, b: Bytes)
    requires |h.magic| == 4 && |h.reserved2| == 20 && Holds(b, 0, Write(h))
    ensures |Write(h)| == HEADER_SIZE
    ensures Holds(b, 0, h.magic) && Holds(b, 4, Le(h.version, 4)) && Holds(b, 8, Le(h.shardId, 2))
    ensures Holds(b, 10, Le(h.reserved1, 2)) && Holds(b, 12, Le(h.keyCount, 8)) && Holds(b, 20, Le(h.timestamp, 8))
    ensures Holds(b, 28, Le(h.dataChecksum, 8)) && Holds(b, 36, Le(h.headerChecksum, 8)) && Holds(b, 44, h.reserved2)
  {
    hide Le, Holds;
    var to8 := h.magic + Le(h.version, 4);
    var to10 := to8 + Le(h.shardId, 2);
    var to12 := to10 + Le(h.reserved1, 2);
    var to20 := to12 + Le(h.keyCount, 8);
    var to28 := to20 + Le(h.timestamp, 8);
    var to36 := to28 + Le(h.dataChecksum, 8);
    var to44 := to36 + Le(h.headerChecksum, 8);
    HoldsSplit(b, 0, to44, h.reserved2);
    HoldsSplit(b, 0, to36, Le(h.headerChecksum, 8));
    HoldsSplit(b, 0, to28, Le(h.dataChecksum, 8));
    HoldsSplit(b, 0, to20, Le(h.timestamp, 8));
    HoldsSplit(b, 0, to12, Le(h.keyCount, 8));
    HoldsSplit(b, 0, to10, Le(h.reserved1, 2));
    HoldsSplit(b, 0, to8, Le(h.shardId, 2));
    HoldsSplit(b, 0, h.magic, Le(h.version, 4));
  }

  lemma NumberHeld(b: Bytes, pos: nat, n: nat, w: nat)
    requires Holds(b, pos, Le(n, w)) && n < Pow256(w)
    ensures pos + w <= |b| && UnLe(b[pos..pos + w]) == n
  {
    LeRoundTrip(n, w);
  }

  /** Reading gives back every header that fits, whatever follows it. */
  lemma ReadAfterWrite(h: SnapshotHeader, rest: Bytes)
    requires h.Fits()
    ensures |Write(h)| == HEADER_SIZE && Read(Write(h) + rest) == h
  {
    hide Le, UnLe, Pow256, Write;
    var b := Write(h) + rest;
    assert Holds(b, 0, Write(h));
    Layout(h, b);
    Widths();
    NumberHeld(b, 4, h.version, 4);
    NumberHeld(b, 8, h.shardId, 2);
    NumberHeld(b, 10, h.reserved1, 2);
    NumberHeld(b, 12, h.keyCount, 8);
    NumberHeld(b, 20, h.timestamp, 8);
    NumberHeld(b, 28, h.dataChecksum, 8);
    NumberHeld(b, 36, h.headerChecksum, 8);
  }

  /** Writing gives back the 64 bytes any header was read from. */
  lemma WriteAfterRead(b: Bytes)
    requires |b| >= HEADER_SIZE
    ensures Read(b).Fits() && Write(Read(b)) == b[..HEADER_SIZE]
  {
    Widths();
    UnLeRoundTrip(b[4..8]);
    UnLeRoundTrip(b[8..10]);
    UnLeRoundTrip(b[10..12]);
    UnLeRoundTrip(b[12..20]);
    UnLeRoundTrip(b[20..28]);
    UnLeRoundTrip(b[28..36]);
    UnLeRoundTrip(b[36..44]);
    hide Le, UnLe, Pow256;
    assert b[..64] == b[0..4] + b[4..8] + b[8..10] + b[10..12] + b[12..20]
                      + b[20..28] + b[28..36] + b[36..44] + b[44..64];
  }
}
