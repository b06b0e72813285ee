/** Whole snapshot files: when the reader takes what the writer wrote, and what a loaded shard's counters are worth. */
module SnapshotFiles {
  import opened Prelude
  import opened Messages
  import opened LittleEndian
  import opened WallClock
  import opened Format
  import opened ShardSpec
  import opened ShardRuns
  import opened Snapshot
  import Crc64

  // ---------- the checksum fields ----------

  /** The halves of a word, and the number its low half is when read four bytes too early. */
  lemma WordHalves(n: Word64)
    ensures UnLe(Le(n, 8)[..4]) == n % 0x1_0000_0000
    ensures UnLe(Le(n, 8)[4..]) == n / 0x1_0000_0000
    ensures UnLe([0, 0, 0, 0] + Le(n, 8)[..4]) == n % 0x1_0000_0000 * 0x1_0000_0000
  {
    hide Le, UnLe, Pow256;
    var low, high := Le(n, 8)[..4], Le(n, 8)[4..];
    Widths();
    LeRoundTrip(n, 8);
    assert Le(n, 8) == low + high;
    UnLeConcat(low, high);
    UnLeRoundTrip(low);
    FourZeros();
    UnLeConcat([0, 0, 0, 0], low);
  }

  lemma FourZeros()
    ensures Le(0, 4) == [0, 0, 0, 0] && UnLe([0, 0, 0, 0]) == 0
  {
    LengthReadsBack(0);
  }

  /** What the reader finds where it looks for the two checksums. */
  lemma ChecksumsAsRead(head: Bytes, rest: Bytes, dataChecksum: Word64, headerChecksum: Word64)
    requires |head| == HEADER_SIZE && head[28..32] == [0, 0, 0, 0]
    ensures var b := Patch(head + rest, dataChecksum, headerChecksum);
            && |b| == HEADER_SIZE + |rest| && b[..28] == head[..28] && b[HEADER_SIZE..] == rest
            && UnLe(b[28..36]) == dataChecksum % 0x1_0000_0000 * 0x1_0000_0000
            && UnLe(b[36..44]) == dataChecksum / 0x1_0000_0000 + headerChecksum % 0x1_0000_0000 * 0x1_0000_0000
  {
    hide Le, UnLe, Pow256;
    var d, h := Le(dataChecksum, 8), Le(headerChecksum, 8);
    var b := Patch(head + rest, dataChecksum, headerChecksum);
    WordHalves(dataChecksum);
    WordHalves(headerChecksum);
    Widths();
    UnLeConcat(d[4..], h[..4]);
    assert b[28..36] == [0, 0, 0, 0] + d[..4];
    assert b[36..44] == d[4..] + h[..4];
    assert b[HEADER_SIZE..] == rest;
    assert b[..28] == head[..28];
  }

  lemma HalvesAgree(d: Word64)
    ensures d % 0x1_0000_0000 * 0x1_0000_0000 == d <==> d == 0
  {
  }

  /** The saved file starts as its placeholder does, and its entries follow the header. */
  lemma PlaceholderFields(h: SnapshotHeader)
    requires h.Fits() && h.dataChecksum == 0
    ensures |Format.Write(h)| == HEADER_SIZE && Format.Write(h)[28..32] == [0, 0, 0, 0]
    ensures Format.Write(h)[..28] ==
            h.magic + Le(h.version, 4) + Le(h.shardId, 2) + Le(h.reserved1, 2) + Le(h.keyCount, 8) + Le(h.timestamp, 8)
  {
    assert Le(0, 8)[..4] == [0, 0, 0, 0];
    hide Le;
    var b := Format.Write(h);
    assert b[28..36] == Le(0, 8);
    assert b[28..32] == b[28..36][..4];
  }

  lemma SameFields(b: Bytes, c: Bytes)
    requires |b| >= HEADER_SIZE && |c| >= HEADER_SIZE && b[..28] == c[..28]
    ensures var g, h := Format.Read(b), Format.Read(c);
            g.magic == h.magic && g.version == h.version && g.shardId == h.shardId && g.keyCount == h.keyCount
  {
    hide UnLe;
    assert b[0..4] == b[..28][0..4] && c[0..4] == c[..28][0..4];
    assert b[4..8] == b[..28][4..8] && c[4..8] == c[..28][4..8];
    assert b[8..10] == b[..28][8..10] && c[8..10] == c[..28][8..10];
    assert b[12..20] == b[..28][12..20] && c[12..20] == c[..28][12..20];
  }

  /** What a save fits into the header's fields. */
  predicate SaveFits(shardId: nat, count: nat, timestamp: nat) {
    shardId < 0x1_0000 && count < 0x1_0000_0000_0000_0000 && timestamp < 0x1_0000_0000_0000_0000
  }

  /** The header as the reader sees it: every field but the checksums, which it looks for four bytes early. */
  lemma SavedHeader(shardId: nat, data: map<Key, Entry>, walk: seq<Key>, clock: SaveClock, timestamp: nat,
                    crc: Checksum)
    requires (forall k :: k in walk ==> k in data) && SaveFits(shardId, |data|, timestamp)
    ensures var b := SaveFile(shardId, data, walk, clock, timestamp, crc);
            var entries := EncodeEntries(data, walk, clock);
            var dataSum, headSum := crc(entries), crc(Placeholder(shardId, |data|, timestamp)[..56]);
            && |b| == HEADER_SIZE + |entries| && b[HEADER_SIZE..] == entries
            && var h := Format.Read(b);
            && h.magic == MAGIC && h.version == VERSION && h.shardId == shardId && h.keyCount == |data|
            && h.dataChecksum == dataSum % 0x1_0000_0000 * 0x1_0000_0000
            && h.headerChecksum == dataSum / 0x1_0000_0000 + headSum % 0x1_0000_0000 * 0x1_0000_0000
  {
    hide Le, UnLe, Format.Write, EncodeEntries, Patch;
    var blank := NewHeader(shardId, |data|, timestamp);
    var head := Format.Write(blank);
    var entries := EncodeEntries(data, walk, clock);
    PlaceholderFields(blank);
    ReadAfterWrite(blank, []);
    assert head + [] == head;
    ChecksumsAsRead(head, entries, crc(entries), crc(head[..56]));
    SameFields(SaveFile(shardId, data, walk, clock, timestamp, crc), head);
  }

  /** The header before its checksums are known, field by field. */
  lemma PlaceholderBytes(shardId: nat, count: nat, timestamp: nat)
    ensures var head := Placeholder(shardId, count, timestamp);
            && head[0..4] == [82, 83, 68, 70] && head[4..8] == [1, 0, 0, 0]
            && head[8..10] == Le(shardId, 2) && head[10..12] == [0, 0]
            && head[12..20] == Le(count, 8) && head[20..28] == Le(timestamp, 8)
            && head[28..36] == Le(0, 8) && head[36..44] == Le(0, 8)
            && head[44..64] == [0, 0, 0, 0, 0, 0, 0, 0, 0, 0, 0, 0, 0, 0, 0, 0, 0, 0, 0, 0]
  {
    SmallNumbers();
    hide Le, Format.Write;
    var head := Placeholder(shardId, count, timestamp);
    assert head[0..64] == head;
    Layout(NewHeader(shardId, count, timestamp), head);
  }

  lemma SmallNumbers()
    ensures Le(1, 4) == [1, 0, 0, 0] && Le(0, 2) == [0, 0]
    ensures Le(0, 8) == [0, 0, 0, 0, 0, 0, 0, 0]
  {
    assert Le(0, 3) == [0, 0, 0];
    assert Le(0, 4) == [0, 0, 0, 0];
  }

  /** A saved file, byte by byte. */
  lemma SavedBytes(shardId: nat, data: map<Key, Entry>, walk: seq<Key>, clock: SaveClock, timestamp: nat, crc: Checksum)
    requires forall k :: k in walk ==> k in data
    ensures var b := SaveFile(shardId, data, walk, clock, timestamp, crc);
            var entries := EncodeEntries(data, walk, clock);
            && |b| == 64 + |entries|
            && b[0..4] == [82, 83, 68, 70] && b[4..8] == [1, 0, 0, 0]
            && b[8..10] == Le(shardId, 2) && b[10..12] == [0, 0]
            && b[12..20] == Le(|data|, 8) && b[20..28] == Le(timestamp, 8) && b[28..32] == [0, 0, 0, 0]
            && b[32..40] == Le(crc(entries), 8)
            && b[40..48] == Le(crc(Placeholder(shardId, |data|, timestamp)[..56]), 8)
            && b[48..64] == [0, 0, 0, 0, 0, 0, 0, 0, 0, 0, 0, 0, 0, 0, 0, 0]
            && b[64..] == entries
  {
    SmallNumbers();
    hide Le, EncodeEntries, Placeholder;
    PlaceholderBytes(shardId, |data|, timestamp);
    var head, entries := Placeholder(shardId, |data|, timestamp), EncodeEntries(data, walk, clock);
    Patched(head, entries, crc(entries), crc(head[..56]));
    hide Patch;
    var b := SaveFile(shardId, data, walk, clock, timestamp, crc);
    assert b[0..4] == b[..32][0..4] == head[0..4];
    assert b[4..8] == b[..32][4..8] == head[4..8];
    assert b[8..10] == b[..32][8..10] == head[8..10];
    assert b[10..12] == b[..32][10..12] == head[10..12];
    assert b[12..20] == b[..32][12..20] == head[12..20];
    assert b[20..28] == b[..32][20..28] == head[20..28];
    assert b[28..32] == b[..32][28..32] == head[28..36][..4];
    assert b[48..64] == head[44..64][4..];
  }

  /** What patching leaves as it was, and where it puts the checksums. */
  lemma Patched(head: Bytes, entries: Bytes, dataChecksum: Word64, headerChecksum: Word64)
    requires |head| == 64
    ensures var b := Patch(head + entries, dataChecksum, headerChecksum);
            && |b| == 64 + |entries|
            && b[..32] == head[..32] && b[32..40] == Le(dataChecksum, 8) && b[40..48] == Le(headerChecksum, 8)
            && b[48..64] == head[48..64] && b[64..] == entries
  {
    hide Le;
    assert (head + entries)[48..] == head[48..64] + entries;
  }

  lemma WalkLength(walk: seq<Key>, keys: set<Key>)
    requires IsWalk(walk, keys)
    ensures |walk| == |keys|
    decreases |walk|
  {
    if walk == [] {
      assert keys == {};
    } else {
      var k, rest := walk[0], walk[1..];
      assert k !in rest;
      assert forall key :: key in rest <==> key in keys - {k};
      WalkLength(rest, keys - {k});
    }
  }

  /** Is a saved file accepted? Exactly when the checksum of its entries is 0 and that of its first 56 bytes
      is the low half of the placeholder's checksum, moved up: each written checksum is read back four bytes
      out of place. A saved file is never refused for anything else, and what is accepted is the same shard
      number with exactly the surviving keys. */
  lemma SavedFileLoadsIff(shardId: nat, data: map<Key, Entry>, walk: seq<Key>, clock: SaveClock, timestamp: nat,
                          crc: Checksum, load: LoadClock)
    requires IsWalk(walk, data.Keys) && Storable(data, clock) && SaveFits(shardId, |data|, timestamp)
    ensures forall k :: k in walk ==> k in data
    ensures var b := SaveFile(shardId, data, walk, clock, timestamp, crc);
            var r := LoadFile(b, load, crc);
            var headSum := crc(Placeholder(shardId, |data|, timestamp)[..56]);
            && (r.Ok? <==> && |b| >= HEADER_SIZE
                           && crc(EncodeEntries(data, walk, clock)) == 0
                           && crc(b[0..56]) == headSum % 0x1_0000_0000 * 0x1_0000_0000)
            && (r.Err? ==> r.error == HeaderChecksumMismatch || r.error == DataChecksumMismatch)
            && (r.Ok? ==> && r.value.0 == shardId
                          && (forall k :: k in r.value.1.data <==> k in data && Survives(data[k], clock(k), load))
                          && (forall j :: 0 <= j < |walk| && walk[j] in r.value.1.data ==>
                                r.value.1.data[walk[j]] == Reloaded(data[walk[j]], clock(walk[j]), load.reading(j))))
  {
    hide Format.Read, Format.Write, EncodeEntries, LoadEntries, Survives, SaveFile, Storable, Placeholder;
    var b := SaveFile(shardId, data, walk, clock, timestamp, crc);
    var entries := EncodeEntries(data, walk, clock);
    SavedHeader(shardId, data, walk, clock, timestamp, crc);
    WalkLength(walk, data.Keys);
    assert b == b[..HEADER_SIZE] + entries;
    EntrySectionRoundTrip(data, walk, clock, b[..HEADER_SIZE], load);
    HalvesAgree(crc(entries));
  }

  /** So every file whose entries have a checksum other than 0 is refused by the reader it was written for. */
  lemma NonzeroChecksumIsRefused(shardId: nat, data: map<Key, Entry>, walk: seq<Key>, clock: SaveClock,
                                 timestamp: nat, crc: Checksum, load: LoadClock)
    requires IsWalk(walk, data.Keys) && Storable(data, clock) && SaveFits(shardId, |data|, timestamp)
    requires (forall k :: k in walk ==> k in data) && crc(EncodeEntries(data, walk, clock)) != 0
    ensures var r := LoadFile(SaveFile(shardId, data, walk, clock, timestamp, crc), load, crc);
            r.Err? && (r.error == HeaderChecksumMismatch || r.error == DataChecksumMismatch)
  {
    hide LoadFile, SaveFile, Placeholder;
    SavedFileLoadsIff(shardId, data, walk, clock, timestamp, crc, load);
  }

  /** With the crate's own checksum: a new shard that has run SET "" v, for any byte v, is saved to a file that
      does not load, whatever its number, its clocks and the load's. */
  lemma SavedFileIsRefused(shardId: nat, v: Byte, now: Instant, clock: SaveClock, timestamp: nat, load: LoadClock)
    requires SaveFits(shardId, 1, timestamp)
    ensures var data := CmdSet(New(), [], [v], None, now).0.data;
            && data.Keys == {[]}
            && LoadFile(SaveFile(shardId, data, [[]], clock, timestamp, Crc64.Crc), load, Crc64.Crc).Err?
  {
    var data := CmdSet(New(), [], [v], None, now).0.data;
    assert IsWalk([[]], data.Keys) && Storable(data, clock) && |data| == 1;
    OneByteEntry(data, v, clock);
    hide LoadFile, SaveFile, EncodeEntries, Storable, Crc64.Crc, CmdSet;
    assert [1, 0, 0, 0, v, 0][0] != 0;
    Crc64.ShortMessagesAreSeen([0, 0, 0, 0], [1, 0, 0, 0, v, 0]);
    NonzeroChecksumIsRefused(shardId, data, [[]], clock, timestamp, Crc64.Crc, load);
  }

  lemma OneByteEntry(data: map<Key, Entry>, v: Byte, clock: SaveClock)
    requires data == map[[] := Entry([v], None)]
    ensures EncodeEntries(data, [[]], clock) == [0, 0, 0, 0] + [1, 0, 0, 0, v, 0]
  {
    FourZeros();
    assert Le(1, 4) == [1, 0, 0, 0] by {
      assert Le(0, 3) == [0, 0, 0];
    }
    hide Le;
    var none: Bytes := [];
    assert EncodeEntry(none, [v], None) == [0, 0, 0, 0] + [1, 0, 0, 0, v, 0];
    assert EncodeEntries(data, [none][1..], clock) == [];
  }

  // ---------- deadlines through a file ----------

  /** One simultaneous reading of both clocks at the save and one at the load, the wall clock not having gone
      back between them. */
  ghost predicate OneReadingEach(saved: Clock, loaded: Clock, save: SaveClock, load: LoadClock) {
    && 0 <= saved.system <= loaded.system
    && (forall k :: save(k) == saved)
    && load.nowUnix == UnixSeconds(loaded.system) && (forall j: nat :: load.reading(j) == loaded)
  }

  /** A key still ahead of its deadline, by one reading of the clocks. */
  predicate Alive(entry: Entry, clock: Clock) {
    entry.expiry.Some? ==> WallTime(entry.expiry.value, clock) > clock.system
  }

  /** The same value, and the same deadline to within a second of wall time, if it has one. */
  predicate SameWithinASecond(before: Entry, saved: Clock, after: Entry, loaded: Clock) {
    && after.value == before.value && (after.expiry.Some? <==> before.expiry.Some?)
    && (before.expiry.Some? ==>
          -1_000_000_000 < WallTime(after.expiry.value, loaded) - WallTime(before.expiry.value, saved) < 1_000_000_000)
  }

  lemma EntrySurvives(entry: Entry, saved: Clock, loaded: Clock, load: LoadClock)
    requires 0 <= saved.system <= loaded.system && load.nowUnix == UnixSeconds(loaded.system)
    ensures Survives(entry, saved, load) ==>
              && Alive(Reloaded(entry, saved, loaded), loaded)
              && SameWithinASecond(entry, saved, Reloaded(entry, saved, loaded), loaded)
    ensures Survives(entry, saved, load) <==>
              (entry.expiry.Some? ==> UnixSeconds(WallTime(entry.expiry.value, saved)) > UnixSeconds(loaded.system))
    ensures entry.expiry.Some? && WallTime(entry.expiry.value, saved) <= loaded.system ==> !Survives(entry, saved, load)
  {
    hide UnixSeconds, InstantToUnix, UnixToInstant;
    if entry.expiry.Some? {
      DeadlineSurvives(entry.expiry.value, saved, loaded);
    }
  }

  /** Through a save and a later load, an entry keeps its value, its deadline moves by less than a second of
      wall time, and no key that has expired by the load's wall clock comes back, even one that was still
      resident when the file was written. */
  lemma DeadlinesSurviveFiles(data: map<Key, Entry>, walk: seq<Key>, save: SaveClock, head: Bytes, load: LoadClock,
                              saved: Clock, loaded: Clock)
    requires IsWalk(walk, data.Keys) && Storable(data, save) && OneReadingEach(saved, loaded, save, load)
    ensures forall k :: k in walk ==> k in data
    ensures var b := head + EncodeEntries(data, walk, save);
            var r := LoadEntries(b, |head|, 0, |walk|, load, Loading(map[], multiset{}));
            && r.Some?
            && var after := r.value.0.data;
            && (forall k :: k in after ==> k in data && Alive(after[k], loaded)
                                           && SameWithinASecond(data[k], saved, after[k], loaded))
            && (forall k :: k in data ==>
                  (k in after <==> data[k].expiry.None?
                                   || UnixSeconds(WallTime(data[k].expiry.value, saved)) > UnixSeconds(loaded.system)))
            && (forall k :: k in data && data[k].expiry.Some? ==>
                  WallTime(data[k].expiry.value, saved) <= loaded.system ==> k !in after)
  {
    hide EncodeEntries, LoadEntries, Survives, Storable, Reloaded, Alive, SameWithinASecond, UnixSeconds, WallTime;
    EntrySectionRoundTrip(data, walk, save, head, load);
    var b := head + EncodeEntries(data, walk, save);
    var after := LoadEntries(b, |head|, 0, |walk|, load, Loading(map[], multiset{})).value.0.data;
    forall k | k in data ensures Survives(data[k], save(k), load) <==> k in after {}
    forall k | k in after
      ensures Alive(after[k], loaded) && SameWithinASecond(data[k], saved, after[k], loaded)
    {
      var j :| 0 <= j < |walk| && walk[j] == k;
      EntrySurvives(data[k], saved, loaded, load);
    }
    forall k | k in data
      ensures k in after <==> data[k].expiry.None?
                              || UnixSeconds(WallTime(data[k].expiry.value, saved)) > UnixSeconds(loaded.system)
      ensures data[k].expiry.Some? && WallTime(data[k].expiry.value, saved) <= loaded.system ==> k !in after
    {
      EntrySurvives(data[k], saved, loaded, load);
    }
  }

  // ---------- the memory counter of a loaded shard ----------

  /** On every run of a loaded shard, SET is accepted exactly when the sizes are small enough, there is room,
      and the bytes resident after it, with the leaked ones, are no fewer than the shard was loaded with, and
      no more than that and the limit. */
  lemma LoadedShardAcceptsIff(b: Bytes, load: LoadClock, crc: Checksum, start: Instant, run: seq<Transition>,
                              key: Key, value: Bytes, ttl: Option<nat>, now: Instant)
    requires LoadFile(b, load, crc).Ok?
    requires var loaded := LoadFile(b, load, crc).value.1;
             IsRun(loaded, start, run) && Total(loaded.data) < 0x8000_0000_0000_0000
    ensures var loaded := LoadFile(b, load, crc).value.1;
            var s := Last(loaded, run);
            var wanted := Total(s.data[key := Entry(value, DeadlineOf(now, ttl))]) + Leaked(loaded, run);
            CmdSet(s, key, value, ttl, now).1 == Done <==>
              && |key| <= 512 && |value| <= 536_870_912 && (key in s.data || |s.data| < s.maxKeys)
              && Total(loaded.data) <= wanted <= Total(loaded.data) + 21_474_836_480
  {
    var loaded := LoadFile(b, load, crc).value.1;
    LoadedCounters(b, load, crc);
    hide LoadFile, IsRun, Last, Leaked, Total, CmdSet;
    SetIsAcceptedFromIff(loaded, start, run, key, value, ttl, now);
  }

  lemma LoadedCounters(b: Bytes, load: LoadClock, crc: Checksum)
    requires LoadFile(b, load, crc).Ok?
    ensures var s := LoadFile(b, load, crc).value.1;
            s.memoryBytes == 0 && s.maxMemory == MAX_MEMORY_PER_SHARD && s.maxKeys == MAX_KEYS_PER_SHARD
  {
    hide LoadEntries, CheckHeader;
  }

  /** So after one DEL of a resident key the counter is just below 2^64, and SET of any key, the deleted one
      included, is accepted exactly when it makes up for what was deleted. */
  lemma LoadedShardRefusesSmallSets(b: Bytes, load: LoadClock, crc: Checksum, gone: Key,
                                    key: Key, value: Bytes, ttl: Option<nat>, now: Instant)
    requires LoadFile(b, load, crc).Ok?
    requires var s := LoadFile(b, load, crc).value.1;
             gone in s.data && Total(s.data) < 0x8000_0000_0000_0000 && |s.data| <= MAX_KEYS_PER_SHARD
    requires |key| <= MAX_KEY_SIZE && |value| <= MAX_VALUE_SIZE
    ensures var s := LoadFile(b, load, crc).value.1;
            var size := EntrySize(gone, s.data[gone].value);
            var t := CmdDel(s, [gone]).0;
            && t.memoryBytes == 0x1_0000_0000_0000_0000 - size
            && (CmdSet(t, key, value, ttl, now).1 == Done <==> EntrySize(key, value) >= size + OldSize(t, key))
  {
    var s := LoadFile(b, load, crc).value.1;
    LoadedCounters(b, load, crc);
    hide LoadFile, CmdSet, CmdDel, RemoveKey, Total, Wrap;
    DelOfOne(s, gone);
    DeletedIsOwed(s, gone, key, value, ttl, now);
  }

  lemma DelOfOne(s: State, key: Key)
    ensures CmdDel(s, [key]).0 == RemoveKey(s, key)
  {
    hide RemoveKey;
    assert [key][..0] == [];
    assert CmdDel(s, []).0 == s;
  }

  /** What a DEL takes from a counter that stands at 0. */
  lemma DeletedIsOwed(s: State, gone: Key, key: Key, value: Bytes, ttl: Option<nat>, now: Instant)
    requires s.memoryBytes == 0 && s.maxMemory == MAX_MEMORY_PER_SHARD && gone in s.data
    requires Total(s.data) < 0x8000_0000_0000_0000 && |s.data| <= s.maxKeys
    requires |key| <= MAX_KEY_SIZE && |value| <= MAX_VALUE_SIZE
    ensures var size := EntrySize(gone, s.data[gone].value);
            var t := RemoveKey(s, gone);
            && t.memoryBytes == 0x1_0000_0000_0000_0000 - size
            && (CmdSet(t, key, value, ttl, now).1 == Done <==> EntrySize(key, value) >= size + OldSize(t, key))
  {
    hide CmdSet, Total, Wrap;
    var size: int := EntrySize(gone, s.data[gone].value);
    var t := RemoveKey(s, gone);
    TotalWithout(s.data, gone);
    SmallWraps(0 - size);
    assert s.data.Keys == t.data.Keys + {gone};
    SetAcceptance(t, 0 - size, key, value, ttl, now);
    TotalUpdate(t.data, key, Entry(value, DeadlineOf(now, ttl)));
  }
}
