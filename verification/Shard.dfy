/** shard/shard.rs: the store of one shard, as a state and as functions on it. */
module ShardSpec {
  import opened Prelude
  import opened Messages

  datatype Entry = Entry(value: Bytes, expiry: Option<Instant>) {
    predicate IsExpired(now: Instant) {
      expiry.Some? && now >= expiry.value
    }
  }

  /** An element of the deadline heap; it may be stale. */
  datatype Expiry = Expiry(time: Instant, key: Key)

  /** The fields of a shard that commands and sweeps read or write. */
  datatype State = State(
    data: map<Key, Entry>,
    ttlQueue: multiset<Expiry>,
    memoryBytes: Word64,
    keyCount: nat,
    keysExpired: nat,
    maxMemory: nat,
    maxKeys: nat)

  /** The size of the entry record itself on the 64-bit targets the crate builds for. */
  const ENTRY_RECORD_SIZE: nat := 80

  function EntrySize(key: Key, value: Bytes): nat {
    |key| + |value| + ENTRY_RECORD_SIZE
  }

  function Deadline(now: Instant, seconds: nat): Instant {
    now + seconds * 1_000_000_000
  }

  function DeadlineOf(now: Instant, ttl: Option<nat>): Option<Instant> {
    if ttl.Some? then Some(Deadline(now, ttl.value)) else None
  }

  function New(): State {
    State(map[], multiset{}, 0, 0, 0, MAX_MEMORY_PER_SHARD, MAX_KEYS_PER_SHARD)
  }

  function RemoveKey(s: State, key: Key): State {
    if key in s.data then
      var rest := s.data - {key};
      s.(data := rest,
         memoryBytes := Wrap(s.memoryBytes - EntrySize(key, s.data[key].value)),
         keyCount := |rest|)
    else s
  }

  /** A key found past its deadline by a reader: it goes, and it is counted as expired. */
  function RemoveExpired(s: State, key: Key): State {
    RemoveKey(s, key).(keysExpired := s.keysExpired + 1)
  }

  function OldSize(s: State, key: Key): nat {
    if key in s.data then EntrySize(key, s.data[key].value) else 0
  }

  function CmdSet(s: State, key: Key, value: Bytes, ttl: Option<nat>, now: Instant): (State, Response) {
    if |key| > MAX_KEY_SIZE then (s, Error("ERR key too large"))
    else if |value| > MAX_VALUE_SIZE then (s, Error("ERR value too large"))
    else if key !in s.data && |s.data| >= s.maxKeys then (s, Error("ERR shard full"))
    else
      var projected := Wrap(s.memoryBytes + EntrySize(key, value) - OldSize(s, key));
      if projected > s.maxMemory then
        (s, Error("ERR OOM command not allowed when used memory > 'maxmemory'"))
      else
        var expiry := DeadlineOf(now, ttl);
        var data := s.data[key := Entry(value, expiry)];
        (s.(data := data,
            ttlQueue := if expiry.Some? then s.ttlQueue + multiset{Expiry(expiry.value, key)} else s.ttlQueue,
            memoryBytes := projected,
            keyCount := |data|),
         Done)
  }

  function CmdGet(s: State, key: Key, now: Instant): (State, Response) {
    if key !in s.data then (s, Value(None))
    else if s.data[key].IsExpired(now) then (RemoveExpired(s, key), Value(None))
    else (s, Value(Some(s.data[key].value)))
  }

  /** How many of the first keys are removed, and what is left. */
  function CmdDel(s: State, keys: seq<Key>): (State, nat) {
    if keys == [] then (s, 0)
    else
      var n := |keys| - 1;
      var (t, deleted) := CmdDel(s, keys[..n]);
      (RemoveKey(t, keys[n]), deleted + if keys[n] in t.data then 1 else 0)
  }

  function CmdExpire(s: State, key: Key, seconds: nat, now: Instant): (State, Response) {
    if key in s.data then
      var at := Deadline(now, seconds);
      (s.(data := s.data[key := s.data[key].(expiry := Some(at))],
          ttlQueue := s.ttlQueue + multiset{Expiry(at, key)}),
       Integer(1))
    else (s, Integer(0))
  }

  function CmdTtl(s: State, key: Key, now: Instant): (State, Response) {
    if key !in s.data then (s, Integer(-2))
    else match s.data[key].expiry
      case None => (s, Integer(-1))
      case Some(at) =>
        if now >= at then (RemoveExpired(s, key), Integer(-2))
        else (s, Integer((at - now) / 1_000_000_000))
  }

  /** INFO's sections; the report itself is formatted text and comes in as a parameter. */
  function InfoReply(section: Option<Bytes>, report: Bytes): Response {
    if section.None? || section.value in INFO_SECTIONS then Value(Some(report))
    else Error("ERR unknown section")
  }

  // "server", "stats", "memory"
  const INFO_SECTIONS: set<Bytes> :=
    {[115, 101, 114, 118, 101, 114], [115, 116, 97, 116, 115], [109, 101, 109, 111, 114, 121]}

  // "PONG"
  const PONG: Bytes := [80, 79, 78, 71]

  function Execute(s: State, command: Command, now: Instant, report: Bytes): (State, Response) {
    match command
    case Ping(message) => (s, Value(Some(if message.Some? then message.value else PONG)))
    case Set(key, value, ttl) => CmdSet(s, key, value, ttl, now)
    case Get(key) => CmdGet(s, key, now)
    case Del(keys) => var (t, deleted) := CmdDel(s, keys); (t, Integer(deleted))
    case Expire(key, seconds) => CmdExpire(s, key, seconds, now)
    case Ttl(key) => CmdTtl(s, key, now)
    case Info(section) => (s, InfoReply(section, report))
  }

  /** The keys whose deadline has been reached. */
  function Due(data: map<Key, Entry>, now: Instant): set<Key> {
    set k | k in data && data[k].IsExpired(now)
  }

  /** Both keys have deadlines, and the first one's is no later. */
  predicate NoLater(data: map<Key, Entry>, k: Key, other: Key) {
    && k in data && data[k].expiry.Some?
    && other in data && data[other].expiry.Some?
    && data[k].expiry.value <= data[other].expiry.value
  }

  /** The heap covers the map: a resident deadline is always in the heap, whatever else is. */
  ghost predicate Covered(data: map<Key, Entry>, ttlQueue: multiset<Expiry>) {
    forall k :: k in data && data[k].expiry.Some? ==> Expiry(data[k].expiry.value, k) in ttlQueue
  }

  /** What every operation keeps. */
  ghost predicate Healthy(s: State) {
    && Covered(s.data, s.ttlQueue)
    && s.keyCount == |s.data|
  }

  /** The sizes SET enforces. */
  ghost predicate WithinLimits(s: State) {
    && |s.data| <= s.maxKeys
    && (forall k :: k in s.data ==> |k| <= MAX_KEY_SIZE && |s.data[k].value| <= MAX_VALUE_SIZE)
  }

  lemma SetKeepsInvariant(s: State, key: Key, value: Bytes, ttl: Option<nat>, now: Instant)
    ensures Healthy(s) ==> Healthy(CmdSet(s, key, value, ttl, now).0)
    ensures WithinLimits(s) ==> WithinLimits(CmdSet(s, key, value, ttl, now).0)
  {
    hide Wrap;
    if CmdSet(s, key, value, ttl, now).1 == Done {
      var data := CmdSet(s, key, value, ttl, now).0.data;
      assert data.Keys == s.data.Keys + {key};
    }
  }

  lemma RemoveKeepsInvariant(s: State, key: Key)
    ensures Healthy(s) ==> Healthy(RemoveKey(s, key))
    ensures WithinLimits(s) ==> WithinLimits(RemoveKey(s, key))
  {
    hide Wrap;
    if key in s.data {
      assert s.data.Keys == (s.data - {key}).Keys + {key};
    }
  }

  lemma {:induction false} DelKeepsInvariant(s: State, keys: seq<Key>)
    ensures Healthy(s) ==> Healthy(CmdDel(s, keys).0)
    ensures WithinLimits(s) ==> WithinLimits(CmdDel(s, keys).0)
  {
    hide Healthy, WithinLimits, RemoveKey;
    if keys != [] {
      var n := |keys| - 1;
      DelKeepsInvariant(s, keys[..n]);
      RemoveKeepsInvariant(CmdDel(s, keys[..n]).0, keys[n]);
    }
  }

  lemma ExpireKeepsInvariant(s: State, key: Key, seconds: nat, now: Instant)
    ensures Healthy(s) ==> Healthy(CmdExpire(s, key, seconds, now).0)
    ensures WithinLimits(s) ==> WithinLimits(CmdExpire(s, key, seconds, now).0)
  {
    if key in s.data {
      assert CmdExpire(s, key, seconds, now).0.data.Keys == s.data.Keys;
    }
  }

  lemma ExecuteKeepsInvariant(s: State, command: Command, now: Instant, report: Bytes)
    ensures Healthy(s) ==> Healthy(Execute(s, command, now, report).0)
    ensures WithinLimits(s) ==> WithinLimits(Execute(s, command, now, report).0)
  {
    hide CmdSet, CmdDel, CmdExpire, RemoveKey;
    match command
    case Set(key, value, ttl) => SetKeepsInvariant(s, key, value, ttl, now);
    case Del(keys) => DelKeepsInvariant(s, keys);
    case Expire(key, seconds) => ExpireKeepsInvariant(s, key, seconds, now);
    case Get(key) => RemoveKeepsInvariant(s, key);
    case Ttl(key) => RemoveKeepsInvariant(s, key);
    case _ =>
  }

  lemma SweepKeepsLimits(s: State, now: Instant, t: State)
    requires WithinLimits(s) && Swept(s, now, t)
    ensures WithinLimits(t)
  {
    assert t.data.Keys <= s.data.Keys;
    assert s.data.Keys == t.data.Keys + (s.data.Keys - t.data.Keys);
  }

  /** One sweep: which keys may go, which must, and in what order, whatever the heap's ties. */
  ghost predicate Swept(s: State, now: Instant, t: State) {
    var removed := s.data.Keys - t.data.Keys;
    var due := Due(s.data, now);
    && t.data == s.data - removed
    && removed <= due
    && |removed| == Min(TTL_KEYS_PER_CHECK, |due|)
    && (forall r, k :: r in removed && k in due - removed ==> NoLater(s.data, r, k))
    && t.ttlQueue <= s.ttlQueue
    && (forall e :: e in s.ttlQueue - t.ttlQueue ==> e.time <= now)
    && Healthy(t)
    && t.keysExpired == s.keysExpired + |removed|
    && t.memoryBytes == s.memoryBytes
    && t.maxMemory == s.maxMemory && t.maxKeys == s.maxKeys
  }
}

/** shard/shard.rs and shard/expiration.rs: the shard whose fields commands update in place. */
module ShardStore {
  import opened Prelude
  import opened Messages
  import opened Spec = ShardSpec

  class Shard {
    const id: nat
    var data: map<Key, Entry>
    var ttlQueue: multiset<Expiry>
    var memoryBytes: Word64
    var keyCount: nat
    var keysExpired: nat
    const maxMemory: nat
    const maxKeys: nat

    ghost function Contents(): State
      reads this
    {
      State(data, ttlQueue, memoryBytes, keyCount, keysExpired, maxMemory, maxKeys)
    }

    ghost predicate Valid()
      reads this
    {
      Healthy(Contents())
    }

    constructor (id: nat)
      ensures this.id == id && Contents() == New() && Valid()
    {
      this.id := id;
      data, ttlQueue := map[], multiset{};
      memoryBytes, keyCount, keysExpired := 0, 0, 0;
      maxMemory, maxKeys := MAX_MEMORY_PER_SHARD, MAX_KEYS_PER_SHARD;
    }

    method Execute(command: Command, now: Instant, report: Bytes) returns (response: Response)
      requires Valid()
      modifies this
      ensures Valid()
      ensures (Contents(), response) == Spec.Execute(old(Contents()), command, now, report)
    {
      match command
      case Ping(message) => response := Value(Some(if message.Some? then message.value else PONG));
      case Set(key, value, ttl) => response := CmdSet(key, value, ttl, now);
      case Get(key) => response := CmdGet(key, now);
      case Del(keys) => response := CmdDel(keys);
      case Expire(key, seconds) => response := CmdExpire(key, seconds, now);
      case Ttl(key) => response := CmdTtl(key, now);
      case Info(section) => response := InfoReply(section, report);
    }

    method CmdSet(key: Key, value: Bytes, ttl: Option<nat>, now: Instant) returns (response: Response)
      requires Valid()
      modifies this
      ensures Valid()
      ensures (Contents(), response) == Spec.CmdSet(old(Contents()), key, value, ttl, now)
    {
      hide Healthy, Wrap;
      SetKeepsInvariant(Contents(), key, value, ttl, now);
      if |key| > MAX_KEY_SIZE {
        return Error("ERR key too large");
      }
      if |value| > MAX_VALUE_SIZE {
        return Error("ERR value too large");
      }
      if key !in data && |data| >= maxKeys {
        return Error("ERR shard full");
      }
      var expiry := DeadlineOf(now, ttl);
      var newSize := EntrySize(key, value);
      var oldSize := if key in data then EntrySize(key, data[key].value) else 0;
      var projected := Wrap(memoryBytes + newSize - oldSize);
      if projected > maxMemory {
        return Error("ERR OOM command not allowed when used memory > 'maxmemory'");
      }
      data := data[key := Entry(value, expiry)];
      if expiry.Some? {
        ttlQueue := ttlQueue + multiset{Expiry(expiry.value, key)};
      }
      WrapTwice(memoryBytes, oldSize, newSize);
      if oldSize > 0 {
        memoryBytes := Wrap(memoryBytes - oldSize);
      }
      memoryBytes := Wrap(memoryBytes + newSize);
      keyCount := |data|;
      return Done;
    }

    method CmdGet(key: Key, now: Instant) returns (response: Response)
      requires Valid()
      modifies this
      ensures Valid()
      ensures (Contents(), response) == Spec.CmdGet(old(Contents()), key, now)
    {
      if key !in data {
        return Value(None);
      }
      if data[key].IsExpired(now) {
        var _ := RemoveKeyUpdateMetrics(key);
        keysExpired := keysExpired + 1;
        return Value(None);
      }
      return Value(Some(data[key].value));
    }

    method CmdDel(keys: seq<Key>) returns (response: Response)
      requires Valid()
      modifies this
      ensures Valid()
      ensures var (t, deleted) := Spec.CmdDel(old(Contents()), keys);
              Contents() == t && response == Integer(deleted)
    {
      var deleted := 0;
      for i := 0 to |keys|
        invariant Valid()
        invariant (Contents(), deleted) == Spec.CmdDel(old(Contents()), keys[..i])
      {
        assert keys[..i + 1][..i] == keys[..i];
        var removed := RemoveKeyUpdateMetrics(keys[i]);
        if removed {
          deleted := deleted + 1;
        }
      }
      assert keys[..|keys|] == keys;
      return Integer(deleted);
    }

    method CmdExpire(key: Key, seconds: nat, now: Instant) returns (response: Response)
      requires Valid()
      modifies this
      ensures Valid()
      ensures (Contents(), response) == Spec.CmdExpire(old(Contents()), key, seconds, now)
    {
      if key !in data {
        return Integer(0);
      }
      var expiryTime := Deadline(now, seconds);
      assert data[key := data[key].(expiry := Some(expiryTime))].Keys == data.Keys;
      data := data[key := data[key].(expiry := Some(expiryTime))];
      ttlQueue := ttlQueue + multiset{Expiry(expiryTime, key)};
      return Integer(1);
    }

    method CmdTtl(key: Key, now: Instant) returns (response: Response)
      requires Valid()
      modifies this
      ensures Valid()
      ensures (Contents(), response) == Spec.CmdTtl(old(Contents()), key, now)
    {
      if key !in data {
        return Integer(-2);
      }
      match data[key].expiry
      case None => return Integer(-1);
      case Some(at) =>
        if now >= at {
          var _ := RemoveKeyUpdateMetrics(key);
          keysExpired := keysExpired + 1;
          return Integer(-2);
        }
        return Integer((at - now) / 1_000_000_000);
    }

    method RemoveKeyUpdateMetrics(key: Key) returns (removed: bool)
      requires Valid()
      modifies this
      ensures Valid()
      ensures Contents() == RemoveKey(old(Contents()), key)
      ensures removed == (key in old(data))
    {
      if key !in data {
        return false;
      }
      var oldSize := EntrySize(key, data[key].value);
      data := data - {key};
      memoryBytes := Wrap(memoryBytes - oldSize);
      keyCount := |data|;
      return true;
    }

    method ExpireKeys(now: Instant)
      requires Valid()
      modifies this
      ensures Valid()
      ensures Swept(old(Contents()), now, Contents())
    {
      hide Swept, Healthy;
      var entries, queue, expiredCount := PopExpired(Contents(), data, ttlQueue, now);
      data, ttlQueue := entries, queue;
      if expiredCount > 0 {
        keysExpired := keysExpired + expiredCount;
        keyCount := |data|;
      }
    }
  }

  /** The loop of ExpireKeys, on the two collections it works in. */
  method PopExpired(ghost before: State, data: map<Key, Entry>, ttlQueue: multiset<Expiry>, now: Instant)
    returns (entries: map<Key, Entry>, queue: multiset<Expiry>, expiredCount: nat)
    requires Healthy(before) && before.data == data && before.ttlQueue == ttlQueue
    ensures expiredCount == 0 ==> |entries| == before.keyCount
    ensures var after := before.(data := entries, ttlQueue := queue, keyCount := |entries|,
                                 keysExpired := before.keysExpired + expiredCount);
            Healthy(after) && Swept(before, now, after)
  {
    hide Swept, SweepSoFar, Healthy;
    entries, queue, expiredCount := data, ttlQueue, 0;
    ghost var removed: set<Key>, latest := {}, 0;
    SweepStart(before, now);
    while queue != multiset{}
      invariant SweepSoFar(before, now, removed, latest, entries, queue)
      invariant |removed| == expiredCount < TTL_KEYS_PER_CHECK
      decreases |queue|
    {
      // BinaryHeap::peek under the reversed order of shard/expiry.rs: ties are broken anyhow.
      EarliestExists(queue);
      var expiry :| expiry in queue && forall e :: e in queue ==> expiry.time <= e.time;
      if expiry.time > now {
        break;
      }
      SweepStep(before, now, removed, latest, entries, queue, expiry);
      queue := queue - multiset{expiry};
      if expiry.key in entries && entries[expiry.key].expiry == Some(expiry.time) {
        entries := entries - {expiry.key};
        removed, latest := removed + {expiry.key}, expiry.time;
        expiredCount := expiredCount + 1;
        if expiredCount >= TTL_KEYS_PER_CHECK {
          break;
        }
      }
    }
    SweepIsComplete(before, now, removed, latest, entries, queue);
  }

  /** The two atomic updates of SET amount to the one difference it checked. */
  lemma WrapTwice(memory: Word64, oldSize: nat, newSize: nat)
    ensures Wrap(Wrap(memory - oldSize) + newSize) == Wrap(memory + newSize - oldSize)
    ensures Wrap(memory + newSize - 0) == Wrap(memory + newSize)
  {
    hide Wrap;
    WrapAdd(memory - oldSize, newSize);
  }

  lemma EarliestExists(queue: multiset<Expiry>)
    requires queue != multiset{}
    ensures exists first :: first in queue && forall e :: e in queue ==> first.time <= e.time
    decreases |queue|
  {
    var x :| x in queue;
    var rest := queue - multiset{x};
    if rest != multiset{} {
      EarliestExists(rest);
      var y :| y in rest && forall e :: e in rest ==> y.time <= e.time;
      var first := if x.time <= y.time then x else y;
      assert forall e :: e in queue ==> e == x || e in rest;
      assert first in queue && forall e :: e in queue ==> first.time <= e.time;
    } else {
      assert queue == multiset{x} + rest;
      assert forall e :: e in queue ==> e == x;
    }
  }

  /** The sweep's loop invariant: `removed` went from the shard, earliest deadlines first. */
  ghost predicate SweepSoFar(before: State, now: Instant, removed: set<Key>, latest: Instant,
                             data: map<Key, Entry>, queue: multiset<Expiry>) {
    && data == before.data - removed
    && removed <= Due(before.data, now)
    && Covered(data, queue)
    && queue <= before.ttlQueue
    && (forall e :: e in before.ttlQueue - queue ==> e.time <= now)
    && (forall r :: r in removed ==> before.data[r].expiry.value <= latest)
    && (forall e :: e in queue ==> latest <= e.time)
  }

  lemma SweepStart(before: State, now: Instant)
    requires Healthy(before)
    ensures SweepSoFar(before, now, {}, 0, before.data, before.ttlQueue)
  {
  }

  /** Popping the earliest element: a match takes its key along, a stale element only itself. */
  lemma SweepStep(before: State, now: Instant, removed: set<Key>, latest: Instant,
                  data: map<Key, Entry>, queue: multiset<Expiry>, first: Expiry)
    requires SweepSoFar(before, now, removed, latest, data, queue)
    requires first in queue && first.time <= now && forall e :: e in queue ==> first.time <= e.time
    ensures var k := first.key;
            var rest := queue - multiset{first};
            if k in data && data[k].expiry == Some(first.time) then
              k !in removed && SweepSoFar(before, now, removed + {k}, first.time, data - {k}, rest)
            else
              SweepSoFar(before, now, removed, latest, data, rest)
  {
    var k := first.key;
    var rest := queue - multiset{first};
    forall e | e in before.ttlQueue - rest ensures e.time <= now {
      assert e == first || e in before.ttlQueue - queue;
    }
    assert forall e :: e in rest ==> e in queue;
    if k in data && data[k].expiry == Some(first.time) {
      assert data - {k} == before.data - (removed + {k});
      forall j | j in data - {k} && data[j].expiry.Some?
        ensures Expiry(data[j].expiry.value, j) in rest
      {
        assert Expiry(data[j].expiry.value, j) in queue;
      }
    }
  }

  /** Why the loop may stop: a due key left behind still sits in the heap, no earlier than what went. */
  lemma SweepCounts(before: State, now: Instant, removed: set<Key>, latest: Instant,
                    data: map<Key, Entry>, queue: multiset<Expiry>)
    requires SweepSoFar(before, now, removed, latest, data, queue)
    requires |removed| <= TTL_KEYS_PER_CHECK
    requires |removed| < TTL_KEYS_PER_CHECK ==> forall e :: e in queue ==> e.time > now
    ensures removed == before.data.Keys - data.Keys
    ensures |removed| == Min(TTL_KEYS_PER_CHECK, |Due(before.data, now)|)
    ensures forall r, k :: r in removed && k in Due(before.data, now) - removed ==> NoLater(before.data, r, k)
  {
    var due := Due(before.data, now);
    forall k | k in due - removed
      ensures Expiry(before.data[k].expiry.value, k) in queue && latest <= before.data[k].expiry.value
    {
      assert data[k] == before.data[k];
    }
    assert |due - removed| == |due| - |removed|;
    if |removed| < TTL_KEYS_PER_CHECK {
      assert due - removed == {};
    }
  }

  lemma SweepIsComplete(before: State, now: Instant, removed: set<Key>, latest: Instant,
                        data: map<Key, Entry>, queue: multiset<Expiry>)
    requires Healthy(before) && SweepSoFar(before, now, removed, latest, data, queue)
    requires |removed| <= TTL_KEYS_PER_CHECK
    requires |removed| < TTL_KEYS_PER_CHECK ==> forall e :: e in queue ==> e.time > now
    ensures var after := before.(data := data, ttlQueue := queue, keyCount := |data|,
                                 keysExpired := before.keysExpired + |removed|);
            Healthy(after) && Swept(before, now, after)
    ensures removed == {} ==> |data| == before.keyCount
  {
    hide Due;
    SweepCounts(before, now, removed, latest, data, queue);
    if removed == {} {
      assert data == before.data;
    }
  }
}
