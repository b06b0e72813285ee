/** shard/snapshot: a shard as a file, written and read back. CRC-64 is a parameter of both. */
module Snapshot {
  import opened Prelude
  import opened ByteStreams
  import opened LittleEndian
  import opened WallClock
  import opened Format
  import opened ShardSpec
  import opened ShardStore

  type Checksum = Bytes -> Word64

  datatype SnapshotError =
    | TooSmall
    | InvalidMagic
    | UnsupportedVersion(version: nat)
    | HeaderChecksumMismatch
    | DataChecksumMismatch
    | UnexpectedEof

  // ---------- writing ----------

  /** Each entry's deadline is converted with a clock reading of its own. */
  type SaveClock = Key -> Clock

  function Stamp(entry: Entry, clock: Clock): Option<nat> {
    if entry.expiry.Some? then Some(InstantToUnix(entry.expiry.value, clock)) else None
  }

  function EncodeStamp(stamp: Option<nat>): Bytes {
    if stamp.Some? then [1] + Le(stamp.value, 8) else [0]
  }

  function EncodeEntry(key: Key, value: Bytes, stamp: Option<nat>): Bytes {
    Le(|key|, 4) + key + (Le(|value|, 4) + value) + EncodeStamp(stamp)
  }

  function EncodeEntries(data: map<Key, Entry>, order: seq<Key>, clock: SaveClock): Bytes
    requires forall k :: k in order ==> k in data
  {
    if order == [] then []
    else
      var k := order[0];
      EncodeEntry(k, data[k].value, Stamp(data[k], clock(k))) + EncodeEntries(data, order[1..], clock)
  }

  /** An order in which a hash map may be walked. */
  ghost predicate IsWalk(order: seq<Key>, keys: set<Key>) {
    && (forall i, j :: 0 <= i < j < |order| ==> order[i] != order[j])
    && (forall k :: k in order <==> k in keys)
  }

  /** SnapshotHeader::new: the header before its checksums are known. */
  function NewHeader(shardId: nat, keyCount: nat, timestamp: nat): SnapshotHeader {
    SnapshotHeader(MAGIC, VERSION, shardId, 0, keyCount, timestamp, 0, 0,
                   [0, 0, 0, 0, 0, 0, 0, 0, 0, 0, 0, 0, 0, 0, 0, 0, 0, 0, 0, 0])
  }

  function Placeholder(shardId: nat, keyCount: nat, timestamp: nat): (head: Bytes)
    ensures |head| == HEADER_SIZE
  {
    Format.Write(NewHeader(shardId, keyCount, timestamp))
  }

  /** The two checksums are written from byte 32 on, over what the placeholder has there. */
  function Patch(file: Bytes, dataChecksum: Word64, headerChecksum: Word64): Bytes
    requires |file| >= HEADER_SIZE
  {
    file[..32] + Le(dataChecksum, 8) + Le(headerChecksum, 8) + file[48..]
  }

  function SaveFile(shardId: nat, data: map<Key, Entry>, order: seq<Key>, clock: SaveClock, timestamp: nat,
                    crc: Checksum): Bytes
    requires forall k :: k in order ==> k in data
  {
    var head := Placeholder(shardId, |data|, timestamp);
    var entries := EncodeEntries(data, order, clock);
    Patch(head + entries, crc(entries), crc(head[..56]))
  }

  /** The entry-writing loop over whatever order the map is walked in. */
  method WriteEntries(data: map<Key, Entry>, clock: SaveClock, buf: ByteBuffer) returns (ghost order: seq<Key>)
    modifies buf
    ensures IsWalk(order, data.Keys)
    ensures buf.bytes == old(buf.bytes) + EncodeEntries(data, order, clock)
  {
    hide EncodeEntry, Stamp;
    order := [];
    var left := data.Keys;
    EntriesOfNothing(data, clock);
    while left != {}
      invariant left <= data.Keys && IsWalk(order, data.Keys - left)
      invariant buf.bytes == old(buf.bytes) + EncodeEntries(data, order, clock)
      decreases |left|
    {
      var key :| key in left;
      var entry := EncodeEntry(key, data[key].value, Stamp(data[key], clock(key)));
      OneMoreEntry(data, order, clock, key);
      Assoc3(old(buf.bytes), EncodeEntries(data, order, clock), entry);
      buf.Extend(entry);
      order := order + [key];
      left := left - {key};
    }
  }

  /** serialize_shard: placeholder header, entries, then the checksums patched in. */
  method SerializeShard(shard: Shard, clock: SaveClock, timestamp: nat, crc: Checksum)
    returns (file: Bytes)
    ensures exists order :: IsWalk(order, shard.data.Keys)
                         && file == SaveFile(shard.id, shard.data, order, clock, timestamp, crc)
  {
    hide Le, EncodeEntries, Format.Write, Patch;
    var buf := new ByteBuffer();
    WriteHeader(NewHeader(shard.id, |shard.data|, timestamp), buf);
    assert buf.bytes == Placeholder(shard.id, |shard.data|, timestamp);
    ghost var head := buf.bytes;
    ghost var order := WriteEntries(shard.data, clock, buf);
    assert buf.bytes[HEADER_SIZE..] == EncodeEntries(shard.data, order, clock);
    assert buf.bytes[..56] == head[..56];
    var dataChecksum := crc(buf.bytes[HEADER_SIZE..]);
    var headerChecksum := crc(buf.bytes[..56]);
    buf.bytes := Patch(buf.bytes, dataChecksum, headerChecksum);
    file := buf.bytes;
  }

  lemma Assoc3(a: Bytes, b: Bytes, c: Bytes)
    ensures a + b + c == a + (b + c)
  {
  }

  lemma EntriesOfNothing(data: map<Key, Entry>, clock: SaveClock)
    ensures EncodeEntries(data, [], clock) == []
  {
  }

  lemma {:induction false} OneMoreEntry(data: map<Key, Entry>, order: seq<Key>, clock: SaveClock, key: Key)
    requires (forall k :: k in order ==> k in data) && key in data
    ensures (forall k :: k in order + [key] ==> k in data)
    ensures EncodeEntries(data, order + [key], clock) ==
            EncodeEntries(data, order, clock) + EncodeEntry(key, data[key].value, Stamp(data[key], clock(key)))
  {
    hide EncodeEntry, Stamp;
    if order == [] {
      assert (order + [key])[1..] == [];
    } else {
      OneMoreEntry(data, order[1..], clock, key);
      assert (order + [key])[1..] == order[1..] + [key];
      Assoc3(EncodeEntry(order[0], data[order[0]].value, Stamp(data[order[0]], clock(order[0]))),
             EncodeEntries(data, order[1..], clock),
             EncodeEntry(key, data[key].value, Stamp(data[key], clock(key))));
    }
  }

  // ---------- reading ----------

  /** The load's clock: the seconds read once, and the reading behind each deadline's conversion. */
  datatype LoadClock = LoadClock(nowUnix: nat, reading: nat -> Clock)

  /** A length and that many bytes. */
  function ReadBlock(b: Bytes, pos: nat): (r: Option<(Bytes, nat)>)
    requires pos <= |b|
    ensures r.Some? ==> pos + 4 <= r.value.1 <= |b|
  {
    if pos + 4 > |b| then None
    else
      var n := UnLe(b[pos..pos + 4]);
      if pos + 4 + n > |b| then None else Some((b[pos + 4..pos + 4 + n], pos + 4 + n))
  }

  /** The flag byte is 1 for a timestamp; any other value means there is none. */
  function ReadStamp(b: Bytes, pos: nat): (r: Option<(Option<nat>, nat)>)
    requires pos <= |b|
    ensures r.Some? ==> pos < r.value.1 <= |b|
  {
    if pos + 1 > |b| then None
    else if b[pos] != 1 then Some((None, pos + 1))
    else if pos + 9 > |b| then None
    else Some((Some(UnLe(b[pos + 1..pos + 9])), pos + 9))
  }

  datatype RawEntry = RawEntry(key: Key, value: Bytes, stamp: Option<nat>)

  function ReadEntry(b: Bytes, pos: nat): (r: Option<(RawEntry, nat)>)
    requires pos <= |b|
    ensures r.Some? ==> pos < r.value.1 <= |b|
  {
    match ReadBlock(b, pos)
    case None => None
    case Some((key, p)) =>
      match ReadBlock(b, p)
      case None => None
      case Some((value, q)) =>
        match ReadStamp(b, q)
        case None => None
        case Some((stamp, end)) => Some((RawEntry(key, value, stamp), end))
  }

  datatype Loading = Loading(data: map<Key, Entry>, ttlQueue: multiset<Expiry>)

  /** The i-th entry goes in unless its second has come. */
  function Insert(l: Loading, raw: RawEntry, i: nat, load: LoadClock): Loading {
    if raw.stamp.None? then Loading(l.data[raw.key := Entry(raw.value, None)], l.ttlQueue)
    else if raw.stamp.value <= load.nowUnix then l
    else
      var at := UnixToInstant(raw.stamp.value, load.reading(i));
      Loading(l.data[raw.key := Entry(raw.value, Some(at))], l.ttlQueue + multiset{Expiry(at, raw.key)})
  }

  /** The entries from the i-th to the n-th; None is a file that ends too early. */
  function LoadEntries(b: Bytes, pos: nat, i: nat, n: nat, load: LoadClock, l: Loading): (r: Option<(Loading, nat)>)
    requires pos <= |b|
    ensures r.Some? ==> pos <= r.value.1 <= |b|
    decreases n - i
  {
    if i >= n then Some((l, pos))
    else match ReadEntry(b, pos)
      case None => None
      case Some((raw, end)) => LoadEntries(b, end, i + 1, n, load, Insert(l, raw, i, load))
  }

  function CheckHeader(b: Bytes, crc: Checksum): Result<SnapshotHeader, SnapshotError> {
    if |b| < HEADER_SIZE then Err(TooSmall)
    else
      var h := Format.Read(b);
      if h.magic != MAGIC then Err(InvalidMagic)
      else if h.version != VERSION then Err(UnsupportedVersion(h.version))
      else if h.headerChecksum != crc(b[0..56]) then Err(HeaderChecksumMismatch)
      else if h.dataChecksum != crc(b[HEADER_SIZE..]) then Err(DataChecksumMismatch)
      else Ok(h)
  }

  function LoadFile(b: Bytes, load: LoadClock, crc: Checksum): Result<(nat, State), SnapshotError> {
    match CheckHeader(b, crc)
    case Err(e) => Err(e)
    case Ok(h) =>
      match LoadEntries(b, HEADER_SIZE, 0, h.keyCount, load, Loading(map[], multiset{}))
      case None => Err(UnexpectedEof)
      case Some((l, _)) => Ok((h.shardId, New().(data := l.data, ttlQueue := l.ttlQueue, keyCount := |l.data|)))
  }

  // ---------- what any loaded shard satisfies ----------

  /** The heap covers what has been loaded, and nothing loaded is due. */
  ghost predicate Loaded(l: Loading) {
    Covered(l.data, l.ttlQueue)
  }

  ghost predicate AllAhead(data: map<Key, Entry>, now: Instant) {
    forall k :: k in data && data[k].expiry.Some? ==> data[k].expiry.value > now
  }

  lemma InsertKeepsCover(l: Loading, raw: RawEntry, i: nat, load: LoadClock)
    requires Loaded(l)
    ensures Loaded(Insert(l, raw, i, load))
  {
    hide UnixToInstant;
  }

  lemma InsertIsAhead(l: Loading, raw: RawEntry, i: nat, load: LoadClock, clock: Clock)
    requires load.nowUnix == UnixSeconds(clock.system) && load.reading(i) == clock
    requires AllAhead(l.data, clock.instant)
    ensures AllAhead(Insert(l, raw, i, load).data, clock.instant)
  {
  }

  lemma {:induction false} LoadKeepsCover(b: Bytes, pos: nat, i: nat, n: nat, load: LoadClock, l: Loading)
    requires pos <= |b| && Loaded(l) && LoadEntries(b, pos, i, n, load, l).Some?
    ensures Loaded(LoadEntries(b, pos, i, n, load, l).value.0)
    decreases n - i
  {
    hide Loaded, Insert, ReadEntry;
    if i < n {
      var (raw, end) := ReadEntry(b, pos).value;
      InsertKeepsCover(l, raw, i, load);
      LoadKeepsCover(b, end, i + 1, n, load, Insert(l, raw, i, load));
    }
  }

  lemma {:induction false} LoadIsAhead(b: Bytes, pos: nat, i: nat, n: nat, load: LoadClock, l: Loading, clock: Clock)
    requires pos <= |b| && LoadEntries(b, pos, i, n, load, l).Some?
    requires load.nowUnix == UnixSeconds(clock.system) && forall j: nat :: load.reading(j) == clock
    requires AllAhead(l.data, clock.instant)
    ensures AllAhead(LoadEntries(b, pos, i, n, load, l).value.0.data, clock.instant)
    decreases n - i
  {
    hide AllAhead, Insert, ReadEntry;
    if i < n {
      var (raw, end) := ReadEntry(b, pos).value;
      InsertIsAhead(l, raw, i, load, clock);
      LoadIsAhead(b, end, i + 1, n, load, Insert(l, raw, i, load), clock);
    }
  }

  /** Whatever the bytes, a shard that loads is healthy: the heap covers it, duplicate keys included, and
      key_count is right. Its id and its checksums are those of the header, and by one reading of the clocks
      every deadline lies ahead. Its memory counter starts at 0 whatever it holds. */
  lemma LoadedShardIsHealthy(b: Bytes, load: LoadClock, crc: Checksum, clock: Clock)
    requires LoadFile(b, load, crc).Ok?
    ensures var (id, s) := LoadFile(b, load, crc).value;
            && |b| >= HEADER_SIZE
            && Healthy(s) && s.memoryBytes == 0
            && var h := Format.Read(b);
               && h.Fits() && Format.Write(h) == b[..HEADER_SIZE] && id == h.shardId
               && h.magic == MAGIC && h.version == VERSION
               && h.headerChecksum == crc(b[0..56]) && h.dataChecksum == crc(b[HEADER_SIZE..])
    ensures (load.nowUnix == UnixSeconds(clock.system) && forall j: nat :: load.reading(j) == clock) ==>
              AllAhead(LoadFile(b, load, crc).value.1.data, clock.instant)
  {
    var h := Format.Read(b);
    WriteAfterRead(b);
    hide LoadEntries, Format.Read, Format.Write;
    var empty := Loading(map[], multiset{});
    LoadKeepsCover(b, HEADER_SIZE, 0, h.keyCount, load, empty);
    if load.nowUnix == UnixSeconds(clock.system) && forall j: nat :: load.reading(j) == clock {
      LoadIsAhead(b, HEADER_SIZE, 0, h.keyCount, load, empty, clock);
    }
  }

  // ---------- reading, step by step ----------

  method ReadBlockFrom(reader: ByteCursor) returns (r: Option<Bytes>)
    requires reader.Valid()
    modifies reader
    ensures reader.Valid()
    ensures match ReadBlock(reader.data, old(reader.position))
            case None => r == None
            case Some((block, end)) => r == Some(block) && reader.position == end
  {
    hide UnLe;
    var length := reader.ReadExact(4);
    if length.None? {
      return None;
    }
    r := reader.ReadExact(UnLe(length.value));
  }

  method ReadStampFrom(reader: ByteCursor) returns (r: Option<Option<nat>>)
    requires reader.Valid()
    modifies reader
    ensures reader.Valid()
    ensures match ReadStamp(reader.data, old(reader.position))
            case None => r == None
            case Some((stamp, end)) => r == Some(stamp) && reader.position == end
  {
    hide UnLe;
    var flag := reader.ReadExact(1);
    if flag.None? {
      return None;
    }
    if flag.value[0] != 1 {
      return Some(None);
    }
    var stamp := reader.ReadExact(8);
    if stamp.None? {
      return None;
    }
    return Some(Some(UnLe(stamp.value)));
  }

  method ReadEntryFrom(reader: ByteCursor) returns (r: Option<RawEntry>)
    requires reader.Valid()
    modifies reader
    ensures reader.Valid()
    ensures match ReadEntry(reader.data, old(reader.position))
            case None => r == None
            case Some((raw, end)) => r == Some(raw) && reader.position == end
  {
    hide ReadBlock, ReadStamp;
    var key := ReadBlockFrom(reader);
    if key.None? {
      return None;
    }
    var value := ReadBlockFrom(reader);
    if value.None? {
      return None;
    }
    var stamp := ReadStampFrom(reader);
    if stamp.None? {
      return None;
    }
    return Some(RawEntry(key.value, value.value, stamp.value));
  }

  /** The body of the loop once an entry is read: skip it, or put it into the map and the heap. */
  method InsertInto(shard: Shard, raw: RawEntry, i: nat, load: LoadClock)
    modifies shard`data, shard`ttlQueue
    ensures Loading(shard.data, shard.ttlQueue) == Insert(Loading(old(shard.data), old(shard.ttlQueue)), raw, i, load)
  {
    hide UnixToInstant;
    if raw.stamp.Some? && raw.stamp.value <= load.nowUnix {
      return;
    }
    var expiry := if raw.stamp.Some? then Some(UnixToInstant(raw.stamp.value, load.reading(i))) else None;
    shard.data := shard.data[raw.key := Entry(raw.value, expiry)];
    if expiry.Some? {
      shard.ttlQueue := shard.ttlQueue + multiset{Expiry(expiry.value, raw.key)};
    }
  }

  /** deserialize_snapshot. */
  method DeserializeSnapshot(b: Bytes, load: LoadClock, crc: Checksum) returns (r: Result<Shard, SnapshotError>)
    ensures r.Ok? ==> fresh(r.value) && r.value.Valid()
    ensures match LoadFile(b, load, crc)
            case Err(e) => r == Err(e)
            case Ok((id, s)) => r.Ok? && r.value.id == id && r.value.Contents() == s
  {
    hide ReadEntry, Insert, Format.Read;
    if |b| < HEADER_SIZE {
      return Err(TooSmall);
    }
    var reader := new ByteCursor(b);
    var h := ReadHeader(reader);
    var header := h.value;
    if header.magic != MAGIC {
      return Err(InvalidMagic);
    }
    if header.version != VERSION {
      return Err(UnsupportedVersion(header.version));
    }
    if header.headerChecksum != crc(b[0..56]) {
      return Err(HeaderChecksumMismatch);
    }
    if header.dataChecksum != crc(b[HEADER_SIZE..]) {
      return Err(DataChecksumMismatch);
    }
    var shard := new Shard(header.shardId);
    ghost var spec := LoadEntries(b, HEADER_SIZE, 0, header.keyCount, load, Loading(map[], multiset{}));
    for i := 0 to header.keyCount
      invariant reader.Valid() && reader.data == b
      invariant shard.id == header.shardId
      invariant shard.Contents() == New().(data := shard.data, ttlQueue := shard.ttlQueue)
      invariant spec == LoadEntries(b, reader.position, i, header.keyCount, load, Loading(shard.data, shard.ttlQueue))
    {
      var raw := ReadEntryFrom(reader);
      if raw.None? {
        return Err(UnexpectedEof);
      }
      InsertInto(shard, raw.value, i, load);
    }
    shard.keyCount := |shard.data|;
    LoadedIsCovered(b, header.keyCount, load);
    return Ok(shard);
  }

  lemma LoadedIsCovered(b: Bytes, n: nat, load: LoadClock)
    requires |b| >= HEADER_SIZE
    requires LoadEntries(b, HEADER_SIZE, 0, n, load, Loading(map[], multiset{})).Some?
    ensures var l := LoadEntries(b, HEADER_SIZE, 0, n, load, Loading(map[], multiset{})).value.0;
            Covered(l.data, l.ttlQueue)
  {
    LoadKeepsCover(b, HEADER_SIZE, 0, n, load, Loading(map[], multiset{}));
  }

  // ---------- an entry on disk, and files that are refused ----------

  /** What stands on disk for an entry: both lengths in four bytes, and 0, or 1 and eight bytes of seconds. */
  lemma EntryOnDisk(key: Key, value: Bytes, stamp: Option<nat>)
    ensures EncodeEntry(key, value, stamp) ==
            Le(|key|, 4) + key + Le(|value|, 4) + value + (if stamp.Some? then [1] + Le(stamp.value, 8) else [0])
  {
    hide Le;
  }

  lemma BlockWasThere(b: Bytes, pos: nat, block: Bytes, end: nat)
    requires pos <= |b| && ReadBlock(b, pos) == Some((block, end))
    ensures pos + 4 + |block| == end <= |b| && |block| < 0x1_0000_0000
    ensures b[pos..pos + 4] == Le(|block|, 4) && b[pos + 4..end] == block
  {
    hide Le, UnLe;
    UnLeRoundTrip(b[pos..pos + 4]);
    Widths();
  }

  /** What the reader takes for an entry: the two blocks with their lengths, then a 1 and eight bytes of seconds
      or any other byte, and nothing more. */
  lemma EntryWasThere(b: Bytes, pos: nat, raw: RawEntry, end: nat)
    requires pos <= |b| && ReadEntry(b, pos) == Some((raw, end))
    ensures var at := pos + 4 + |raw.key|;
            var flag := at + 4 + |raw.value|;
            && flag < end <= |b|
            && b[pos..pos + 4] == Le(|raw.key|, 4) && b[pos + 4..at] == raw.key
            && b[at..at + 4] == Le(|raw.value|, 4) && b[at + 4..flag] == raw.value
            && (if raw.stamp.Some? then b[flag] == 1 && end == flag + 9 && b[flag + 1..end] == Le(raw.stamp.value, 8)
                else b[flag] != 1 && end == flag + 1)
  {
    hide Le, UnLe, ReadBlock;
    var (key, at) := ReadBlock(b, pos).value;
    BlockWasThere(b, pos, key, at);
    var (value, flag) := ReadBlock(b, at).value;
    BlockWasThere(b, at, value, flag);
    if raw.stamp.Some? {
      UnLeRoundTrip(b[flag + 1..flag + 9]);
    }
  }

  /** A flag other than 1 is no timestamp. */
  lemma AnyOtherFlag(b: Bytes, pos: nat)
    requires pos < |b| && b[pos] != 1
    ensures ReadStamp(b, pos) == Some((None, pos + 1))
  {
  }

  /** Why a file is refused, in the order of the checks: too short, not "RSDF", not version 1, the number at
      byte 36 not the checksum of the first 56 bytes, the number at byte 28 not that of what follows the header. */
  lemma LoadRefusals(b: Bytes, load: LoadClock, crc: Checksum)
    ensures |b| < 64 ==> LoadFile(b, load, crc) == Err(TooSmall)
    ensures |b| >= 64 && b[0..4] != [82, 83, 68, 70] ==> LoadFile(b, load, crc) == Err(InvalidMagic)
    ensures |b| >= 64 && b[0..4] == [82, 83, 68, 70] && UnLe(b[4..8]) != 1 ==>
              LoadFile(b, load, crc) == Err(UnsupportedVersion(UnLe(b[4..8])))
    ensures |b| >= 64 && b[0..4] == [82, 83, 68, 70] && UnLe(b[4..8]) == 1 && UnLe(b[36..44]) != crc(b[0..56]) ==>
              LoadFile(b, load, crc) == Err(HeaderChecksumMismatch)
    ensures |b| >= 64 && b[0..4] == [82, 83, 68, 70] && UnLe(b[4..8]) == 1 && UnLe(b[36..44]) == crc(b[0..56])
            && UnLe(b[28..36]) != crc(b[64..]) ==>
              LoadFile(b, load, crc) == Err(DataChecksumMismatch)
  {
    hide UnLe, LoadEntries;
  }

  // ---------- the entry section, written and read back ----------

  /** Lengths and timestamps fit the fields they are written to. */
  ghost predicate Storable(data: map<Key, Entry>, clock: SaveClock) {
    forall k :: k in data ==>
      && |k| < 0x1_0000_0000 && |data[k].value| < 0x1_0000_0000
      && (data[k].expiry.Some? ==> InstantToUnix(data[k].expiry.value, clock(k)) < 0x1_0000_0000_0000_0000)
  }

  function Raw(data: map<Key, Entry>, k: Key, clock: SaveClock): RawEntry
    requires k in data
  {
    RawEntry(k, data[k].value, Stamp(data[k], clock(k)))
  }

  lemma LengthReadsBack(n: nat)
    requires n < 0x1_0000_0000
    ensures UnLe(Le(n, 4)) == n
  {
    Widths();
    LeRoundTrip(n, 4);
  }

  lemma BlockHeld(b: Bytes, pos: nat, block: Bytes)
    requires |block| < 0x1_0000_0000 && Holds(b, pos, Le(|block|, 4) + block)
    ensures pos <= |b| && ReadBlock(b, pos) == Some((block, pos + 4 + |block|))
  {
    hide Le, UnLe, ReadBlock;
    LengthReadsBack(|block|);
    HoldsSplit(b, pos, Le(|block|, 4), block);
    BlockAt(b, pos, Le(|block|, 4), block);
  }

  lemma BlockAt(b: Bytes, pos: nat, length: Bytes, block: Bytes)
    requires |length| == 4 && UnLe(length) == |block|
    requires Holds(b, pos, length) && Holds(b, pos + 4, block)
    ensures ReadBlock(b, pos) == Some((block, pos + 4 + |block|))
  {
    hide UnLe;
  }

  lemma StampHeld(b: Bytes, pos: nat, stamp: Option<nat>)
    requires (stamp.Some? ==> stamp.value < 0x1_0000_0000_0000_0000) && Holds(b, pos, EncodeStamp(stamp))
    ensures pos <= |b| && ReadStamp(b, pos) == Some((stamp, pos + |EncodeStamp(stamp)|))
  {
    if stamp.Some? {
      Widths();
      LeRoundTrip(stamp.value, 8);
      HoldsSplit(b, pos, [1], Le(stamp.value, 8));
      assert b[pos..pos + 1][0] == 1;
      hide Le, UnLe;
    } else {
      assert b[pos..pos + 1][0] == 0;
    }
  }

  lemma EntryHeld(b: Bytes, pos: nat, key: Key, value: Bytes, stamp: Option<nat>)
    requires |key| < 0x1_0000_0000 && |value| < 0x1_0000_0000
    requires stamp.Some? ==> stamp.value < 0x1_0000_0000_0000_0000
    requires Holds(b, pos, EncodeEntry(key, value, stamp))
    ensures pos <= |b|
    ensures ReadEntry(b, pos) == Some((RawEntry(key, value, stamp), pos + |EncodeEntry(key, value, stamp)|))
  {
    hide Le, UnLe, Holds, ReadBlock, ReadStamp, EncodeStamp;
    var first, second := Le(|key|, 4) + key, Le(|value|, 4) + value;
    HoldsSplit(b, pos, first + second, EncodeStamp(stamp));
    HoldsSplit(b, pos, first, second);
    BlockHeld(b, pos, key);
    BlockHeld(b, pos + |first|, value);
    StampHeld(b, pos + |first| + |second|, stamp);
  }

  /** What inserting the entries of a walk, from the i-th on, makes of a loading. */
  function InsertWalk(data: map<Key, Entry>, walk: seq<Key>, save: SaveClock, i: nat, load: LoadClock,
                      l: Loading): Loading
    requires forall k :: k in walk ==> k in data
  {
    if walk == [] then l
    else InsertWalk(data, walk[1..], save, i + 1, load, Insert(l, Raw(data, walk[0], save), i, load))
  }

  /** The reader takes exactly the bytes the writer wrote and inserts exactly its entries. */
  lemma {:induction false} EntriesReadBack(data: map<Key, Entry>, walk: seq<Key>, save: SaveClock,
                                           b: Bytes, pos: nat, i: nat, load: LoadClock, l: Loading)
    requires (forall k :: k in walk ==> k in data) && Storable(data, save)
    requires Holds(b, pos, EncodeEntries(data, walk, save))
    ensures pos <= |b|
    ensures LoadEntries(b, pos, i, i + |walk|, load, l) ==
            Some((InsertWalk(data, walk, save, i, load, l), pos + |EncodeEntries(data, walk, save)|))
  {
    hide Insert, ReadEntry, EncodeEntry, InstantToUnix;
    if walk != [] {
      var k := walk[0];
      var first := EncodeEntry(k, data[k].value, Stamp(data[k], save(k)));
      HoldsSplit(b, pos, first, EncodeEntries(data, walk[1..], save));
      EntryHeld(b, pos, k, data[k].value, Stamp(data[k], save(k)));
      EntriesReadBack(data, walk[1..], save, b, pos + |first|, i + 1, load,
                      Insert(l, Raw(data, k, save), i, load));
    }
  }

  predicate Survives(entry: Entry, save: Clock, load: LoadClock) {
    entry.expiry.Some? ==> InstantToUnix(entry.expiry.value, save) > load.nowUnix
  }

  /** The entry as it comes back: its value as it was, its deadline through whole seconds. */
  function Reloaded(entry: Entry, save: Clock, load: Clock): Entry {
    Entry(entry.value, if entry.expiry.Some? then Some(UnixToInstant(InstantToUnix(entry.expiry.value, save), load))
                       else None)
  }

  /** l is what was there before, with the survivors of the walk over it. */
  ghost predicate Rebuilt(data: map<Key, Entry>, walk: seq<Key>, save: SaveClock, i: nat, load: LoadClock,
                          before: map<Key, Entry>, after: map<Key, Entry>)
    requires forall k :: k in walk ==> k in data
  {
    && (forall j :: 0 <= j < |walk| && Survives(data[walk[j]], save(walk[j]), load) ==>
          walk[j] in after && after[walk[j]] == Reloaded(data[walk[j]], save(walk[j]), load.reading(i + j)))
    && (forall k :: k in after ==>
          (k in before && after[k] == before[k]) || (k in walk && Survives(data[k], save(k), load)))
    && (forall k :: k in before && k !in walk ==> k in after && after[k] == before[k])
  }

  lemma {:induction false} WalkRebuilds(data: map<Key, Entry>, walk: seq<Key>, save: SaveClock,
                                        i: nat, load: LoadClock, l: Loading)
    requires (forall k :: k in walk ==> k in data)
    requires forall j, j' :: 0 <= j < j' < |walk| ==> walk[j] != walk[j']
    ensures Rebuilt(data, walk, save, i, load, l.data, InsertWalk(data, walk, save, i, load, l).data)
  {
    hide InstantToUnix, UnixToInstant;
    if walk != [] {
      var next := Insert(l, Raw(data, walk[0], save), i, load);
      var rest := walk[1..];
      WalkRebuilds(data, rest, save, i + 1, load, next);
      RebuiltOneMore(data, walk, save, i, load, l.data, next.data,
                     InsertWalk(data, rest, save, i + 1, load, next).data);
    }
  }

  lemma RebuiltOneMore(data: map<Key, Entry>, walk: seq<Key>, save: SaveClock, i: nat, load: LoadClock,
                       before: map<Key, Entry>, next: map<Key, Entry>, after: map<Key, Entry>)
    requires walk != [] && (forall k :: k in walk ==> k in data)
    requires forall j, j' :: 0 <= j < j' < |walk| ==> walk[j] != walk[j']
    requires var k := walk[0];
             next == if Survives(data[k], save(k), load)
                     then before[k := Reloaded(data[k], save(k), load.reading(i))] else before
    requires Rebuilt(data, walk[1..], save, i + 1, load, next, after)
    ensures Rebuilt(data, walk, save, i, load, before, after)
  {
    hide Survives, Reloaded;
    var rest := walk[1..];
    assert walk[0] !in rest;
    forall j | 0 <= j < |walk| && Survives(data[walk[j]], save(walk[j]), load)
      ensures walk[j] in after && after[walk[j]] == Reloaded(data[walk[j]], save(walk[j]), load.reading(i + j))
    {
      if j > 0 {
        assert rest[j - 1] == walk[j];
      }
    }
    forall k | k in before && k !in walk ensures k in after && after[k] == before[k] {
      assert k !in rest;
    }
  }

  /** What a walk over the whole map rebuilds from nothing. */
  lemma WalkOfAll(data: map<Key, Entry>, walk: seq<Key>, save: SaveClock, load: LoadClock, after: map<Key, Entry>)
    requires IsWalk(walk, data.Keys) && (forall k :: k in walk ==> k in data)
    requires Rebuilt(data, walk, save, 0, load, map[], after)
    ensures forall k :: k in after <==> k in data && Survives(data[k], save(k), load)
    ensures forall j :: 0 <= j < |walk| && walk[j] in after ==>
              after[walk[j]] == Reloaded(data[walk[j]], save(walk[j]), load.reading(j))
  {
    hide Survives, Reloaded;
    forall k | k in data && Survives(data[k], save(k), load) ensures k in after {
      var j :| 0 <= j < |walk| && walk[j] == k;
    }
  }

  /** For every shard whose sizes fit, every order of its map and every clock reading: the reader's loop
      consumes the whole entry section and rebuilds the values of exactly the keys whose timestamp is absent
      or later than the load clock. */
  lemma EntrySectionRoundTrip(data: map<Key, Entry>, walk: seq<Key>, save: SaveClock, head: Bytes, load: LoadClock)
    requires IsWalk(walk, data.Keys) && Storable(data, save)
    ensures forall k :: k in walk ==> k in data
    ensures var b := head + EncodeEntries(data, walk, save);
            var r := LoadEntries(b, |head|, 0, |walk|, load, Loading(map[], multiset{}));
            && r.Some? && r.value.1 == |b|
            && (forall k :: k in r.value.0.data <==> k in data && Survives(data[k], save(k), load))
            && (forall j :: 0 <= j < |walk| && walk[j] in r.value.0.data ==>
                  r.value.0.data[walk[j]] == Reloaded(data[walk[j]], save(walk[j]), load.reading(j)))
  {
    hide LoadEntries, EncodeEntries, InsertWalk, Survives, Reloaded, Storable, Rebuilt;
    assert forall k :: k in walk ==> k in data;
    var entries := EncodeEntries(data, walk, save);
    var b := head + entries;
    assert Holds(b, |head|, entries);
    var empty := Loading(map[], multiset{});
    EntriesReadBack(data, walk, save, b, |head|, 0, load, empty);
    WalkRebuilds(data, walk, save, 0, load, empty);
    WalkOfAll(data, walk, save, load, InsertWalk(data, walk, save, 0, load, empty).data);
  }

  /** So it works for every state a shard can reach, whose keys and values SET has bounded. */
  lemma ReachableShardsAreStorable(s: State, save: SaveClock)
    requires WithinLimits(s)
    requires forall k :: k in s.data && s.data[k].expiry.Some? ==>
               InstantToUnix(s.data[k].expiry.value, save(k)) < 0x1_0000_0000_0000_0000
    ensures Storable(s.data, save)
  {
    hide InstantToUnix;
  }
}
