/** A plain map with deadlines, and why a shard is one: the abstract store every run refines. */
module TtlMap {
  import opened Prelude
  import opened Messages
  import opened ShardSpec
  import opened ShardRuns

  /** Every key set and not deleted since, expired or not. No heap, no counters, no removal by time. */
  type Plain = map<Key, Entry>

  predicate Live(m: Plain, k: Key, now: Instant) {
    k in m && !m[k].IsExpired(now)
  }

  /** What an event does to the plain map: only accepted SETs, DELs and EXPIREs that answered 1 count. */
  function Next(m: Plain, event: Event): Plain {
    if event.Tick? then m
    else match event.command
      case Set(key, value, ttl) =>
        if event.reply == Done then
          m[key := Entry(value, if ttl.Some? then Some(event.now + ttl.value * 1_000_000_000) else None)]
        else m
      case Del(keys) => m - KeySet(keys)
      case Expire(key, seconds) =>
        if event.reply == Integer(1) && key in m then
          m[key := m[key].(expiry := Some(event.now + seconds * 1_000_000_000))]
        else m
      case _ => m
  }

  /** The answers the plain map allows. Only the fate of keys past their deadline is left open: DEL may or
      may not count them, EXPIRE may or may not renew them, with the value they were last SET to. */
  predicate Answers(m: Plain, event: Event) {
    if event.Tick? then true
    else
      var now, reply := event.now, event.reply;
      match event.command
      case Ping(message) => reply == Value(Some(if message.Some? then message.value else [80, 79, 78, 71]))
      case Info(section) =>
        reply == if || section.None?
                    || section.value == [115, 101, 114, 118, 101, 114] // server
                    || section.value == [115, 116, 97, 116, 115]       // stats
                    || section.value == [109, 101, 109, 111, 114, 121] // memory
                 then Value(Some(event.report)) else Error("ERR unknown section")
      case Set(_, _, _) => reply == Done || reply.Error?
      case Get(key) => reply == Value(if Live(m, key, now) then Some(m[key].value) else None)
      case Ttl(key) =>
        reply == Integer(if !Live(m, key, now) then -2
                         else if m[key].expiry.None? then -1
                         else (m[key].expiry.value - now) / 1_000_000_000)
      case Expire(key, _) =>
        && (reply == Integer(0) || reply == Integer(1))
        && (Live(m, key, now) ==> reply == Integer(1))
        && (key !in m ==> reply == Integer(0))
      case Del(keys) =>
        var present := set k | k in keys && k in m;
        var live := set k | k in keys && Live(m, k, now);
        reply.Integer? && |live| <= reply.n <= |present|
  }

  /** The shard's map is the plain map on the keys in scope, up to keys already past their deadline. */
  ghost predicate Simulates(data: map<Key, Entry>, m: Plain, scope: iset<Key>, now: Instant) {
    && (forall k :: k in data ==> k in scope && k in m && m[k] == data[k])
    && (forall k :: k in m && k in scope && k !in data ==> m[k].IsExpired(now))
  }

  ghost predicate InScope(event: Event, scope: iset<Key>) {
    event.Ran? ==> forall k :: k in event.command.Keys() ==> k in scope
  }

  // ---------- one step ----------

  lemma RemoveRemoves(s: State, key: Key)
    ensures RemoveKey(s, key).data == s.data - {key}
  {
    hide Wrap;
    if key !in s.data {
      assert s.data - {key} == s.data;
    }
  }

  lemma {:induction false} DelRemoves(s: State, keys: seq<Key>)
    ensures CmdDel(s, keys).0.data == s.data - KeySet(keys)
  {
    if keys == [] {
      assert s.data - KeySet(keys) == s.data;
    } else {
      hide RemoveKey;
      var n := |keys| - 1;
      DelRemoves(s, keys[..n]);
      RemoveRemoves(CmdDel(s, keys[..n]).0, keys[n]);
      MinusLast(s.data, keys);
    }
  }

  lemma MinusLast(data: map<Key, Entry>, keys: seq<Key>)
    requires keys != []
    ensures data - KeySet(keys[..|keys| - 1]) - {keys[|keys| - 1]} == data - KeySet(keys)
  {
    assert keys == keys[..|keys| - 1] + [keys[|keys| - 1]];
    assert KeySet(keys) == KeySet(keys[..|keys| - 1]) + {keys[|keys| - 1]};
  }

  /** DEL answers how many different keys it found, however often each was named. */
  lemma {:induction false} DelCountsKeys(s: State, keys: seq<Key>)
    ensures CmdDel(s, keys).1 == |set k | k in keys && k in s.data|
  {
    if keys == [] {
      assert (set k | k in keys && k in s.data) == {};
    } else {
      hide RemoveKey;
      var n := |keys| - 1;
      DelCountsKeys(s, keys[..n]);
      DelRemoves(s, keys[..n]);
      var first := set k | k in keys[..n] && k in s.data;
      assert forall k :: k in KeySet(keys[..n]) <==> k in keys[..n];
      var found := keys[n] in s.data && keys[n] !in keys[..n];
      assert keys == keys[..n] + [keys[n]];
      assert (set k | k in keys && k in s.data) == if found then first + {keys[n]} else first;
    }
  }

  lemma DelRefines(s: State, keys: seq<Key>, event: Event, m: Plain, scope: iset<Key>, before: Instant)
    requires event.Ran? && event.command == Del(keys) && before <= event.now
    requires event.reply == Integer(CmdDel(s, keys).1)
    requires Simulates(s.data, m, scope, before) && InScope(event, scope)
    ensures Answers(m, event) && Simulates(CmdDel(s, keys).0.data, Next(m, event), scope, event.now)
  {
    hide CmdDel;
    DelRemoves(s, keys);
    DelCountsKeys(s, keys);
    var counted := set k | k in keys && k in s.data;
    var present := set k | k in keys && k in m;
    var live := set k | k in keys && Live(m, k, event.now);
    assert live <= counted <= present by {
      forall k | k in live ensures k in counted {
        assert k in event.command.Keys();
      }
    }
    SubsetIsSmaller(live, counted);
    SubsetIsSmaller(counted, present);
  }

  // How the simulation survives time, an update and the removal of a dead key.

  lemma SimulatesLater(data: map<Key, Entry>, m: Plain, scope: iset<Key>, before: Instant, now: Instant)
    requires Simulates(data, m, scope, before) && before <= now
    ensures Simulates(data, m, scope, now)
  {
  }

  lemma SimulatesUpdate(data: map<Key, Entry>, m: Plain, scope: iset<Key>, now: Instant, key: Key, entry: Entry)
    requires Simulates(data, m, scope, now) && key in scope
    ensures Simulates(data[key := entry], m[key := entry], scope, now)
  {
  }

  lemma SimulatesRemoval(data: map<Key, Entry>, m: Plain, scope: iset<Key>, now: Instant, key: Key)
    requires Simulates(data, m, scope, now) && (key in data ==> data[key].IsExpired(now))
    ensures Simulates(data - {key}, m, scope, now)
  {
  }

  lemma SimulatesAt(data: map<Key, Entry>, m: Plain, scope: iset<Key>, now: Instant, key: Key)
    requires Simulates(data, m, scope, now) && key in scope
    ensures key in data ==> key in m && m[key] == data[key]
    ensures key in m && key !in data ==> m[key].IsExpired(now)
  {
  }

  lemma SetRefines(s: State, t: State, event: Event, m: Plain, scope: iset<Key>, before: Instant)
    requires Step(s, event, t) && before <= event.now && event.Ran? && event.command.Set?
    requires Simulates(s.data, m, scope, before) && event.command.key in scope
    ensures Answers(m, event) && Simulates(t.data, Next(m, event), scope, event.now)
  {
    hide Simulates, Wrap, RemoveKey;
    var key := event.command.key;
    SimulatesLater(s.data, m, scope, before, event.now);
    SimulatesAt(s.data, m, scope, event.now, key);
    SimulatesUpdate(s.data, m, scope, event.now, key,
                    Entry(event.command.value, DeadlineOf(event.now, event.command.ttl)));
  }

  lemma ExpireRefines(s: State, t: State, event: Event, m: Plain, scope: iset<Key>, before: Instant)
    requires Step(s, event, t) && before <= event.now && event.Ran? && event.command.Expire?
    requires Simulates(s.data, m, scope, before) && event.command.key in scope
    ensures Answers(m, event) && Simulates(t.data, Next(m, event), scope, event.now)
  {
    hide Simulates, Wrap, RemoveKey;
    var key := event.command.key;
    SimulatesLater(s.data, m, scope, before, event.now);
    SimulatesAt(s.data, m, scope, event.now, key);
    if key in s.data {
      SimulatesUpdate(s.data, m, scope, event.now, key,
                      s.data[key].(expiry := Some(Deadline(event.now, event.command.seconds))));
    }
  }

  lemma GetRefines(s: State, t: State, event: Event, m: Plain, scope: iset<Key>, before: Instant)
    requires Step(s, event, t) && before <= event.now && event.Ran? && event.command.Get?
    requires Simulates(s.data, m, scope, before) && event.command.key in scope
    ensures Answers(m, event) && Simulates(t.data, Next(m, event), scope, event.now)
  {
    hide Simulates, Wrap, RemoveKey;
    var key := event.command.key;
    SimulatesLater(s.data, m, scope, before, event.now);
    SimulatesAt(s.data, m, scope, event.now, key);
    RemoveRemoves(s, key);
    if key in s.data && s.data[key].IsExpired(event.now) {
      SimulatesRemoval(s.data, m, scope, event.now, key);
    }
  }

  lemma TtlRefines(s: State, t: State, event: Event, m: Plain, scope: iset<Key>, before: Instant)
    requires Step(s, event, t) && before <= event.now && event.Ran? && event.command.Ttl?
    requires Simulates(s.data, m, scope, before) && event.command.key in scope
    ensures Answers(m, event) && Simulates(t.data, Next(m, event), scope, event.now)
  {
    hide Simulates, Wrap, RemoveKey;
    var key := event.command.key;
    SimulatesLater(s.data, m, scope, before, event.now);
    SimulatesAt(s.data, m, scope, event.now, key);
    RemoveRemoves(s, key);
    if key in s.data && s.data[key].IsExpired(event.now) {
      SimulatesRemoval(s.data, m, scope, event.now, key);
    }
  }

  lemma PingAndInfoRefine(s: State, t: State, event: Event, m: Plain, scope: iset<Key>, before: Instant)
    requires Step(s, event, t) && before <= event.now && event.Ran? && (event.command.Ping? || event.command.Info?)
    requires Simulates(s.data, m, scope, before)
    ensures Answers(m, event) && Simulates(t.data, Next(m, event), scope, event.now)
  {
    hide Simulates;
    SimulatesLater(s.data, m, scope, before, event.now);
  }

  lemma TickRefines(s: State, now: Instant, t: State, m: Plain, scope: iset<Key>, before: Instant)
    requires Swept(s, now, t) && before <= now && Simulates(s.data, m, scope, before)
    ensures Simulates(t.data, m, scope, now)
  {
    forall k | k in m && k in scope && k !in t.data
      ensures m[k].IsExpired(now)
    {
      if k in s.data {
        assert k in s.data.Keys - t.data.Keys;
        assert k in Due(s.data, now);
      }
    }
  }

  /** One step of a shard is one step of the plain map, with an answer the plain map allows. */
  lemma StepRefines(s: State, event: Event, t: State, m: Plain, scope: iset<Key>, before: Instant)
    requires Step(s, event, t) && before <= event.now
    requires Simulates(s.data, m, scope, before) && InScope(event, scope)
    ensures Answers(m, event) && Simulates(t.data, Next(m, event), scope, event.now)
  {
    if event.Tick? {
      TickRefines(s, event.now, t, m, scope, before);
    } else if event.command.Del? {
      hide Answers, Simulates, Next, InScope, CmdDel;
      DelRefines(s, event.command.keys, event, m, scope, before);
    } else {
      hide Answers, Simulates, Next, Step;
      assert forall k :: k in event.command.Keys() ==> k in scope;
      match event.command
      case Set(_, _, _) => SetRefines(s, t, event, m, scope, before);
      case Expire(_, _) => ExpireRefines(s, t, event, m, scope, before);
      case Get(_) => GetRefines(s, t, event, m, scope, before);
      case Ttl(_) => TtlRefines(s, t, event, m, scope, before);
      case _ => PingAndInfoRefine(s, t, event, m, scope, before);
    }
  }

  // ---------- whole runs ----------

  ghost function Replay(m: Plain, run: seq<Transition>): Plain {
    if run == [] then m else Next(Replay(m, run[..|run| - 1]), run[|run| - 1].event)
  }

  /** Over every run of a fresh shard, each reply is one the plain map allows at that point, and the map
      the shard shows at any time from then on is the plain map's live part. */
  lemma RunRefinesPlainMap(start: Instant, run: seq<Transition>)
    requires IsRun(New(), start, run)
    ensures forall i :: 0 <= i < |run| ==> Answers(Replay(map[], run[..i]), run[i].event)
    ensures forall at :: Clock(start, run) <= at ==>
              View(Last(New(), run).data, at) == View(Replay(map[], run), at)
  {
    forall i | 0 <= i < |run|
      ensures Answers(Replay(map[], run[..i]), run[i].event)
    {
      PrefixIsRun(New(), start, run, i + 1);
      RunSimulates(start, run[..i + 1]);
      assert run[..i + 1][..i] == run[..i];
    }
    RunSimulates(start, run);
    forall at | Clock(start, run) <= at
      ensures View(Last(New(), run).data, at) == View(Replay(map[], run), at)
    {
      SameView(Last(New(), run).data, Replay(map[], run), Clock(start, run), at);
    }
  }

  predicate AnyKey(k: Key) { true }

  ghost function Everything(): iset<Key> {
    iset k: Key | AnyKey(k)
  }

  lemma {:induction false} RunSimulates(start: Instant, run: seq<Transition>)
    requires IsRun(New(), start, run)
    ensures Simulates(Last(New(), run).data, Replay(map[], run), Everything(), Clock(start, run))
    ensures run != [] ==> Answers(Replay(map[], run[..|run| - 1]), run[|run| - 1].event)
  {
    if run != [] {
      hide Step, Answers, Next, Simulates;
      var earlier, last := run[..|run| - 1], run[|run| - 1];
      RunSimulates(start, earlier);
      StepRefines(Last(New(), earlier), last.event, last.post, Replay(map[], earlier),
                  Everything(), Clock(start, earlier));
    }
  }

  lemma {:induction false} PrefixIsRun(init: State, start: Instant, run: seq<Transition>, n: nat)
    requires IsRun(init, start, run) && n <= |run|
    ensures IsRun(init, start, run[..n])
  {
    if n < |run| {
      PrefixIsRun(init, start, run[..|run| - 1], n);
      assert run[..|run| - 1][..n] == run[..n];
    } else {
      assert run[..n] == run;
    }
  }

  // ---------- the live view ----------

  /** What readers see at a given time. */
  function View(data: map<Key, Entry>, at: Instant): map<Key, Entry> {
    map k | k in data && !data[k].IsExpired(at) :: data[k]
  }

  lemma SameView(data: map<Key, Entry>, m: Plain, now: Instant, at: Instant)
    requires Simulates(data, m, Everything(), now) && now <= at
    ensures View(data, at) == View(m, at)
  {
    forall k | k in m && !m[k].IsExpired(at)
      ensures k in data
    {
      assert k in Everything();
    }
  }

  /** GET, TTL and sweeps change nothing a reader can see, now or later. */
  lemma ReadersChangeNothing(s: State, event: Event, t: State, at: Instant)
    requires Step(s, event, t) && event.now <= at
    requires event.Tick? || event.command.Get? || event.command.Ttl?
    ensures View(t.data, at) == View(s.data, at)
  {
    hide Answers, Wrap;
    var m := s.data;
    assert Simulates(s.data, m, Everything(), event.now);
    StepRefines(s, event, t, m, Everything(), event.now);
    SameView(t.data, m, event.now, at);
  }

  /** A reader that finds a key past its deadline removes it, counts it as expired and gives its bytes back; a
      reader that finds anything else leaves the shard as it was. */
  lemma ReadersRemoveTheDead(s: State, key: Key, now: Instant)
    ensures var get, ttl := CmdGet(s, key, now).0, CmdTtl(s, key, now).0;
            if key in s.data && s.data[key].expiry.Some? && s.data[key].expiry.value <= now then
              && get == ttl && get.data == s.data - {key} && get.ttlQueue == s.ttlQueue
              && get.keysExpired == s.keysExpired + 1 && get.keyCount == |get.data|
              && get.memoryBytes == Wrap(s.memoryBytes - |key| - |s.data[key].value| - 80)
            else get == s && ttl == s
  {
    hide Wrap;
  }

  // ---------- how long a key lives ----------

  /** What GET and TTL answer about a key with this value, that lives until `end` or for good. */
  predicate Reads(s: State, key: Key, value: Bytes, end: Option<Instant>, at: Instant) {
    && CmdGet(s, key, at).1 == Value(if end.None? || at < end.value then Some(value) else None)
    && CmdTtl(s, key, at).1 ==
       Integer(if end.None? then -1 else if at < end.value then (end.value - at) / 1_000_000_000 else -2)
  }

  /** After an accepted SET the key has its value for so many seconds to the nanosecond, and without a time to
      live for good, whatever deadline it had before. */
  lemma SetLasts(s: State, key: Key, value: Bytes, ttl: Option<nat>, now: Instant, at: Instant)
    requires CmdSet(s, key, value, ttl, now).1 == Done
    ensures Reads(CmdSet(s, key, value, ttl, now).0, key, value,
                  if ttl.Some? then Some(now + ttl.value * 1_000_000_000) else None, at)
  {
    hide Wrap;
  }

  /** After an EXPIRE that answers 1 the key keeps its value, for so many seconds from then. */
  lemma ExpireLasts(s: State, key: Key, seconds: nat, now: Instant, at: Instant)
    ensures CmdExpire(s, key, seconds, now).1 == Integer(if key in s.data then 1 else 0)
    ensures key in s.data ==>
              Reads(CmdExpire(s, key, seconds, now).0, key, s.data[key].value, Some(now + seconds * 1_000_000_000), at)
  {
    hide Wrap;
  }

  /** What EXPIRE would do to a map from which time really removed the dead. */
  function PlainExpire(view: map<Key, Entry>, key: Key, seconds: nat, now: Instant): (map<Key, Entry>, Response) {
    if key in view then
      (View(view[key := view[key].(expiry := Some(now + seconds * 1_000_000_000))], now), Integer(1))
    else (view, Integer(0))
  }

  /** EXPIRE does not look at the deadline it replaces. It agrees with the plain map, in what it answers
      and what it leaves visible, exactly when the key is not resident past its deadline. */
  lemma ExpireIsPlainIff(s: State, key: Key, seconds: nat, now: Instant)
    ensures var (t, reply) := CmdExpire(s, key, seconds, now);
            (View(t.data, now), reply) == PlainExpire(View(s.data, now), key, seconds, now)
            <==> !(key in s.data && s.data[key].IsExpired(now))
  {
    var (t, reply) := CmdExpire(s, key, seconds, now);
    if key in s.data && !s.data[key].IsExpired(now) {
      assert View(t.data, now) == PlainExpire(View(s.data, now), key, seconds, now).0;
    }
  }

  /** The failing case, after SET k v EX 0. A GET now answers nil. An EXPIRE now answers 1, and the old value is
      back; had the GET come first, which removes the key, EXPIRE would have answered 0. */
  lemma ExpireRevives()
    ensures IsRun(New(), 5, DeadRun())
    ensures var k, dead := [107], Last(New(), DeadRun());
            && CmdGet(dead, k, 5).1 == Value(None)
            && CmdExpire(dead, k, 60, 5).1 == Integer(1)
            && CmdGet(CmdExpire(dead, k, 60, 5).0, k, 5).1 == Value(Some([118]))
            && CmdExpire(CmdGet(dead, k, 5).0, k, 60, 5).1 == Integer(0)
  {
  }

  /** DEL does not look at deadlines either. It leaves visible what a plain map would, and it answers what
      one would exactly when none of its keys is resident past its deadline. */
  lemma DelIsPlainIff(s: State, keys: seq<Key>, now: Instant)
    ensures var (t, deleted) := CmdDel(s, keys);
            && View(t.data, now) == View(s.data, now) - KeySet(keys)
            && (deleted == |set k | k in keys && k in View(s.data, now)|
                <==> forall k :: k in keys && k in s.data ==> !s.data[k].IsExpired(now))
  {
    hide CmdDel;
    DelRemoves(s, keys);
    DelCountsKeys(s, keys);
    var resident := set k | k in keys && k in s.data;
    var live := set k | k in keys && k in View(s.data, now);
    if k :| k in keys && k in s.data && s.data[k].IsExpired(now) {
      assert live < resident by {
        assert k in resident && k !in live;
      }
      StrictSubsetIsSmaller(live, resident);
    } else {
      assert live == resident;
    }
  }

  /** The failing case, after the same run: GET answers nil, and DEL would have counted the key. */
  lemma DelCountsTheDead()
    ensures IsRun(New(), 5, DeadRun())
    ensures var k, dead := [107], Last(New(), DeadRun());
            CmdGet(dead, k, 5).1 == Value(None) && CmdDel(dead, [k]).1 == 1
  {
    ExpireRevives();
    var k, dead := [107], Last(New(), DeadRun());
    DelCountsKeys(dead, [k]);
    assert (set j | j in [k] && j in dead.data) == {k};
  }
}
