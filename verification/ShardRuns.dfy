/** Runs of one shard: what every reachable state satisfies, and what the counters conserve. */
module ShardRuns {
  import opened Prelude
  import opened Messages
  import opened ShardSpec

  /** One turn of the worker's loop: a command with its reply, or a tick of the sweep. */
  datatype Event =
    | Ran(command: Command, now: Instant, report: Bytes, reply: Response)
    | Tick(now: Instant)

  ghost predicate Step(s: State, event: Event, t: State) {
    match event
    case Ran(command, now, report, reply) => (t, reply) == Execute(s, command, now, report)
    case Tick(now) => Swept(s, now, t)
  }

  datatype Transition = Transition(event: Event, post: State)

  ghost function Last(init: State, run: seq<Transition>): State {
    if run == [] then init else run[|run| - 1].post
  }

  ghost function Clock(start: Instant, run: seq<Transition>): Instant {
    if run == [] then start else run[|run| - 1].event.now
  }

  /** A run from `init`; the monotonic clock never goes back. */
  ghost predicate IsRun(init: State, start: Instant, run: seq<Transition>) {
    run == [] ||
    var earlier, last := run[..|run| - 1], run[|run| - 1];
    && IsRun(init, start, earlier)
    && Clock(start, earlier) <= last.event.now
    && Step(Last(init, earlier), last.event, last.post)
  }

  // ---------- every reachable state is healthy ----------

  lemma StepKeepsInvariant(s: State, event: Event, t: State)
    requires Step(s, event, t)
    ensures Healthy(s) ==> Healthy(t)
    ensures WithinLimits(s) ==> WithinLimits(t)
  {
    hide Healthy, WithinLimits;
    match event
    case Ran(command, now, report, _) => ExecuteKeepsInvariant(s, command, now, report);
    case Tick(now) =>
      if WithinLimits(s) {
        SweepKeepsLimits(s, now, t);
      }
      assert Healthy(t) by { TickIsHealthy(s, now, t); }
  }

  lemma TickIsHealthy(s: State, now: Instant, t: State)
    requires Swept(s, now, t)
    ensures Healthy(t)
  {
  }

  /** The heap covers the map, key_count is the number of residents, and the limits hold, on every run. */
  lemma {:induction false} RunKeepsInvariant(init: State, start: Instant, run: seq<Transition>)
    requires IsRun(init, start, run) && Healthy(init) && WithinLimits(init)
    ensures Healthy(Last(init, run)) && WithinLimits(Last(init, run))
  {
    hide Healthy, WithinLimits, Step;
    if run != [] {
      var earlier, last := run[..|run| - 1], run[|run| - 1];
      RunKeepsInvariant(init, start, earlier);
      StepKeepsInvariant(Last(init, earlier), last.event, last.post);
    }
  }

  lemma NewShardIsHealthy()
    ensures Healthy(New()) && WithinLimits(New())
  {
  }

  // ---------- memory ----------

  /** The summed sizes of a map's entries: key, value and the 80 bytes of an entry record. */
  ghost function Total(data: map<Key, Entry>): nat {
    if data == map[] then 0
    else
      var k :| k in data;
      |k| + |data[k].value| + 80 + Total(data - {k})
  }

  lemma {:induction false} TotalWithout(data: map<Key, Entry>, key: Key)
    requires key in data
    ensures Total(data) == EntrySize(key, data[key].value) + Total(data - {key})
    decreases |data|
  {
    var k :| k in data && Total(data) == EntrySize(k, data[k].value) + Total(data - {k});
    if k != key {
      TotalWithout(data - {k}, key);
      TotalWithout(data - {key}, k);
      assert data - {k} - {key} == data - {key} - {k};
    }
  }

  lemma TotalUpdate(data: map<Key, Entry>, key: Key, entry: Entry)
    ensures Total(data[key := entry]) ==
            Total(data) + EntrySize(key, entry.value) -
            (if key in data then EntrySize(key, data[key].value) else 0)
  {
    var updated := data[key := entry];
    TotalWithout(updated, key);
    assert updated - {key} == data - {key};
    if key in data {
      TotalWithout(data, key);
    } else {
      assert data - {key} == data;
    }
  }

  /** The part of a map that `keys` names. */
  ghost function Part(data: map<Key, Entry>, keys: set<Key>): map<Key, Entry> {
    map k | k in data && k in keys :: data[k]
  }

  lemma {:induction false} TotalSplit(data: map<Key, Entry>, keys: set<Key>)
    ensures Total(data) == Total(data - keys) + Total(Part(data, keys))
    decreases |keys|
  {
    if keys == {} {
      assert data - keys == data;
      assert Part(data, keys) == map[];
    } else {
      var k :| k in keys;
      var rest := keys - {k};
      TotalSplit(data, rest);
      if k in data {
        TotalWithout(data - rest, k);
        TotalWithout(Part(data, keys), k);
        assert Part(data, keys) - {k} == Part(data, rest);
        assert data - rest - {k} == data - keys;
      } else {
        assert Part(data, keys) == Part(data, rest);
        assert data - rest == data - keys;
      }
    }
  }

  /** The bytes a step makes the counter lose sight of: expire_keys does not subtract what it removes. */
  ghost function Leak(s: State, event: Event, t: State): nat {
    if event.Tick? then Total(Part(s.data, s.data.Keys - t.data.Keys)) else 0
  }

  ghost function Leaked(init: State, run: seq<Transition>): nat {
    if run == [] then 0
    else
      var earlier, last := run[..|run| - 1], run[|run| - 1];
      Leaked(init, earlier) + Leak(Last(init, earlier), last.event, last.post)
  }

  lemma RemoveMovesMemory(s: State, key: Key)
    ensures var t := RemoveKey(s, key);
            t.memoryBytes == Wrap(s.memoryBytes + Total(t.data) - Total(s.data))
  {
    if key in s.data {
      TotalWithout(s.data, key);
    }
  }

  lemma {:induction false} DelMovesMemory(s: State, keys: seq<Key>)
    ensures var t := CmdDel(s, keys).0;
            t.memoryBytes == Wrap(s.memoryBytes + Total(t.data) - Total(s.data))
  {
    if keys != [] {
      hide RemoveKey, Wrap;
      var n := |keys| - 1;
      var t := CmdDel(s, keys[..n]).0;
      DelMovesMemory(s, keys[..n]);
      RemoveMovesMemory(t, keys[n]);
      WrapAdd(s.memoryBytes + Total(t.data) - Total(s.data),
              Total(RemoveKey(t, keys[n]).data) - Total(t.data));
    }
  }

  lemma SetMovesMemory(s: State, key: Key, value: Bytes, ttl: Option<nat>, now: Instant)
    ensures var t := CmdSet(s, key, value, ttl, now).0;
            t.memoryBytes == Wrap(s.memoryBytes + Total(t.data) - Total(s.data))
  {
    hide Wrap, Total;
    TotalUpdate(s.data, key, Entry(value, DeadlineOf(now, ttl)));
    WrapOfWord(s.memoryBytes);
    var t := CmdSet(s, key, value, ttl, now).0;
    if t != s {
      assert t.memoryBytes == Wrap(s.memoryBytes + EntrySize(key, value) - OldSize(s, key));
      assert Total(t.data) - Total(s.data) == EntrySize(key, value) - OldSize(s, key);
    }
  }

  lemma ExpireMovesMemory(s: State, key: Key, seconds: nat, now: Instant)
    ensures var t := CmdExpire(s, key, seconds, now).0;
            t.memoryBytes == Wrap(s.memoryBytes + Total(t.data) - Total(s.data))
  {
    hide Wrap, Total;
    WrapOfWord(s.memoryBytes);
    if key in s.data {
      TotalUpdate(s.data, key, s.data[key].(expiry := Some(Deadline(now, seconds))));
    }
  }

  lemma ExecuteMovesMemory(s: State, command: Command, now: Instant, report: Bytes)
    ensures var t := Execute(s, command, now, report).0;
            t.memoryBytes == Wrap(s.memoryBytes + Total(t.data) - Total(s.data))
  {
    hide CmdSet, CmdDel, CmdExpire, RemoveKey, Wrap, Total;
    WrapOfWord(s.memoryBytes);
    match command
    case Set(key, value, ttl) => SetMovesMemory(s, key, value, ttl, now);
    case Del(keys) => DelMovesMemory(s, keys);
    case Expire(key, seconds) => ExpireMovesMemory(s, key, seconds, now);
    case Get(key) => RemoveMovesMemory(s, key);
    case Ttl(key) => RemoveMovesMemory(s, key);
    case _ =>
  }

  lemma TickMovesMemory(s: State, now: Instant, t: State)
    requires Swept(s, now, t)
    ensures t.memoryBytes == s.memoryBytes
    ensures Total(t.data) == Total(s.data) - Leak(s, Tick(now), t)
  {
    TotalSplit(s.data, s.data.Keys - t.data.Keys);
  }

  /** From any state whatever, the counter follows the resident bytes up to the leak, modulo 2^64. */
  lemma StepMovesMemory(s: State, event: Event, t: State)
    requires Step(s, event, t)
    ensures t.memoryBytes == Wrap(s.memoryBytes + Total(t.data) - Total(s.data) + Leak(s, event, t))
  {
    hide Execute, Swept, Wrap, Total;
    WrapOfWord(s.memoryBytes);
    match event
    case Tick(now) => TickMovesMemory(s, now, t);
    case Ran(command, now, report, reply) => ExecuteMovesMemory(s, command, now, report);
  }

  /** On every run from any state, loaded ones included, memory_bytes is off by what it was off at the
      start plus what sweeps removed since, modulo 2^64. */
  lemma {:induction false} RunMovesMemory(init: State, start: Instant, run: seq<Transition>)
    requires IsRun(init, start, run)
    ensures var t := Last(init, run);
            t.memoryBytes == Wrap(init.memoryBytes + Total(t.data) - Total(init.data) + Leaked(init, run))
  {
    hide Step, Wrap;
    if run == [] {
      WrapOfWord(init.memoryBytes);
    } else {
      var earlier, last := run[..|run| - 1], run[|run| - 1];
      var s := Last(init, earlier);
      RunMovesMemory(init, start, earlier);
      StepMovesMemory(s, last.event, last.post);
      WrapAdd(init.memoryBytes + Total(s.data) - Total(init.data) + Leaked(init, earlier),
              Total(last.post.data) - Total(s.data) + Leak(s, last.event, last.post));
    }
  }

  /** The account of a shard that began empty. */
  ghost predicate Balanced(s: State, leaked: nat) {
    && s.memoryBytes == Total(s.data) + leaked
    && s.memoryBytes <= s.maxMemory <= MAX_MEMORY_PER_SHARD
  }

  lemma TotalCovers(data: map<Key, Entry>, key: Key)
    requires key in data
    ensures EntrySize(key, data[key].value) <= Total(data)
  {
    TotalWithout(data, key);
  }

  lemma RemoveShrinks(s: State, key: Key)
    ensures Total(RemoveKey(s, key).data) <= Total(s.data) && RemoveKey(s, key).maxMemory == s.maxMemory
  {
    if key in s.data {
      TotalWithout(s.data, key);
    }
  }

  lemma {:induction false} DelShrinks(s: State, keys: seq<Key>)
    ensures Total(CmdDel(s, keys).0.data) <= Total(s.data) && CmdDel(s, keys).0.maxMemory == s.maxMemory
  {
    if keys != [] {
      hide RemoveKey;
      var n := |keys| - 1;
      DelShrinks(s, keys[..n]);
      RemoveShrinks(CmdDel(s, keys[..n]).0, keys[n]);
    }
  }

  lemma SetKeepsBalance(s: State, leaked: nat, key: Key, value: Bytes, ttl: Option<nat>, now: Instant)
    requires Balanced(s, leaked)
    ensures Balanced(CmdSet(s, key, value, ttl, now).0, leaked)
  {
    hide Total;
    var t := CmdSet(s, key, value, ttl, now).0;
    TotalUpdate(s.data, key, Entry(value, DeadlineOf(now, ttl)));
    if t != s {
      if key in s.data {
        TotalCovers(s.data, key);
      }
      var projected := s.memoryBytes + EntrySize(key, value) - OldSize(s, key);
      assert 0 <= projected < 0x1_0000_0000_0000_0000;
      assert t.memoryBytes == projected;
    }
  }

  lemma ExpireKeepsTotal(s: State, key: Key, seconds: nat, now: Instant)
    ensures Total(CmdExpire(s, key, seconds, now).0.data) == Total(s.data)
  {
    hide Total;
    if key in s.data {
      TotalUpdate(s.data, key, s.data[key].(expiry := Some(Deadline(now, seconds))));
    }
  }

  lemma OtherCommandsShrink(s: State, command: Command, now: Instant, report: Bytes)
    requires !command.Set?
    ensures var t := Execute(s, command, now, report).0;
            Total(t.data) <= Total(s.data) && t.maxMemory == s.maxMemory
  {
    hide CmdDel, RemoveKey, Total;
    match command
    case Del(keys) => DelShrinks(s, keys);
    case Expire(key, seconds) => ExpireKeepsTotal(s, key, seconds, now);
    case Get(key) => RemoveShrinks(s, key);
    case Ttl(key) => RemoveShrinks(s, key);
    case _ =>
  }

  /** SET is the only command that adds bytes, and then it has checked the sum; nothing wraps on the way. */
  lemma StepKeepsBalance(s: State, leaked: nat, event: Event, t: State)
    requires Balanced(s, leaked) && Step(s, event, t)
    ensures Balanced(t, leaked + Leak(s, event, t))
  {
    hide Total, Execute, Swept;
    match event
    case Tick(now) =>
      TickMovesMemory(s, now, t);
      assert t.maxMemory == s.maxMemory by { TickKeepsLimits(s, now, t); }
    case Ran(command, now, report, reply) =>
      if command.Set? {
        SetKeepsBalance(s, leaked, command.key, command.value, command.ttl, now);
        SetIsExecuted(s, command, now, report);
        assert t == CmdSet(s, command.key, command.value, command.ttl, now).0;
      } else {
        ExecuteMovesMemory(s, command, now, report);
        OtherCommandsShrink(s, command, now, report);
        assert 0 <= Total(t.data) + leaked <= s.memoryBytes;
      }
  }

  lemma TickKeepsLimits(s: State, now: Instant, t: State)
    requires Swept(s, now, t)
    ensures t.maxMemory == s.maxMemory && t.maxKeys == s.maxKeys
  {
  }

  lemma SetIsExecuted(s: State, command: Command, now: Instant, report: Bytes)
    requires command.Set?
    ensures Execute(s, command, now, report) == CmdSet(s, command.key, command.value, command.ttl, now)
  {
  }

  /** On every run of a fresh shard, memory_bytes is exactly the resident bytes plus what sweeps removed;
      it stays within max_memory_bytes, and removing any resident key subtracts no more than it holds. */
  lemma MemoryIsConserved(start: Instant, run: seq<Transition>)
    requires IsRun(New(), start, run)
    ensures var t := Last(New(), run);
            && t.memoryBytes == Total(t.data) + Leaked(New(), run)
            && t.memoryBytes <= t.maxMemory == 21_474_836_480
            && forall k :: k in t.data ==> EntrySize(k, t.data[k].value) <= t.memoryBytes
  {
    hide IsRun, Leaked, Last, Total, New;
    NewShardIsBalanced();
    BalanceOnRuns(New(), start, run, 0);
    var t := Last(New(), run);
    forall k | k in t.data
      ensures EntrySize(k, t.data[k].value) <= Total(t.data)
    {
      TotalCovers(t.data, k);
    }
  }

  lemma NewShardIsBalanced()
    ensures Balanced(New(), 0) && New().maxMemory == MAX_MEMORY_PER_SHARD
  {
  }

  lemma {:induction false} BalanceOnRuns(init: State, start: Instant, run: seq<Transition>, leaked: nat)
    requires IsRun(init, start, run) && Balanced(init, leaked)
    ensures Balanced(Last(init, run), leaked + Leaked(init, run))
    ensures Last(init, run).maxMemory == init.maxMemory
  {
    hide Step, Balanced, Leak;
    if run != [] {
      var earlier, last := run[..|run| - 1], run[|run| - 1];
      BalanceOnRuns(init, start, earlier, leaked);
      StepKeepsBalance(Last(init, earlier), leaked + Leaked(init, earlier), last.event, last.post);
      StepKeepsMaxMemory(Last(init, earlier), last.event, last.post);
    }
  }

  lemma StepKeepsMaxMemory(s: State, event: Event, t: State)
    requires Step(s, event, t)
    ensures t.maxMemory == s.maxMemory
  {
    match event
    case Tick(now) =>
    case Ran(command, now, report, _) =>
      if !command.Set? {
        OtherCommandsShrink(s, command, now, report);
      }
  }

  /** No key is due at any sweep of the run. */
  ghost predicate Quiet(init: State, run: seq<Transition>) {
    forall i :: 0 <= i < |run| && run[i].event.Tick? ==> Due(Last(init, run[..i]).data, run[i].event.now) == {}
  }

  /** So the counter is exact, from New, if and only if every sweep finds no key due: what commands remove
      is accounted for. */
  lemma {:induction false} LeaksNothingIffQuiet(init: State, start: Instant, run: seq<Transition>)
    requires IsRun(init, start, run)
    ensures Leaked(init, run) == 0 <==> Quiet(init, run)
  {
    if run != [] {
      hide Step, Leak, Last, Quiet;
      var earlier, last := run[..|run| - 1], run[|run| - 1];
      LeaksNothingIffQuiet(init, start, earlier);
      SweepLeaksIff(Last(init, earlier), last.event, last.post);
      QuietSoFar(init, run);
    } else {
      assert Quiet(init, run);
    }
  }

  lemma QuietSoFar(init: State, run: seq<Transition>)
    requires run != []
    ensures var earlier, last := run[..|run| - 1], run[|run| - 1];
            Quiet(init, run) <==>
              Quiet(init, earlier) && (last.event.Tick? ==> Due(Last(init, earlier).data, last.event.now) == {})
  {
    hide Last;
    assert forall i :: 0 <= i < |run| - 1 ==> run[..|run| - 1][..i] == run[..i];
  }

  lemma SweepLeaksIff(s: State, event: Event, t: State)
    requires Step(s, event, t)
    ensures Leak(s, event, t) == 0 <==> (event.Tick? ==> Due(s.data, event.now) == {})
  {
    if event.Tick? {
      var removed := s.data.Keys - t.data.Keys;
      assert removed == {} <==> Due(s.data, event.now) == {};
      if k :| k in removed {
        TotalCovers(Part(s.data, removed), k);
      } else {
        assert Part(s.data, removed) == map[];
      }
    }
  }

  /** A run that makes a key resident past its deadline: SET k v EX 0 at time 5. */
  function DeadRun(): seq<Transition> {
    [Transition(Ran(Set([107], [118], Some(0)), 5, [], Done), CmdSet(New(), [107], [118], Some(0), 5).0)]
  }

  /** The failing case: after a sweep the shard is empty and still counts the 82 bytes of the key. */
  lemma SweepLeaks()
    ensures var held := Last(New(), DeadRun());
            var t := held.(data := map[], ttlQueue := multiset{}, keyCount := 0, keysExpired := 1);
            var run := DeadRun() + [Transition(Tick(5), t)];
            && IsRun(New(), 5, run) && Leaked(New(), run) == 82
            && t.data == map[] && t.memoryBytes == 82
  {
    var held := Last(New(), DeadRun());
    var t := held.(data := map[], ttlQueue := multiset{}, keyCount := 0, keysExpired := 1);
    var run := DeadRun() + [Transition(Tick(5), t)];
    assert run[..1] == DeadRun();
    assert Swept(held, 5, t) by {
      assert Due(held.data, 5) == {[107]};
      assert held.data.Keys - t.data.Keys == {[107]};
    }
    DeadRunIsRun();
    assert IsRun(New(), 5, run);
    MemoryIsConserved(5, run);
  }

  lemma DeadRunIsRun()
    ensures IsRun(New(), 5, DeadRun())
  {
    assert DeadRun()[..0] == [];
  }

  // ---------- the limit on keys ----------

  lemma RemoveKeepsMaxKeys(s: State, key: Key)
    ensures RemoveKey(s, key).maxKeys == s.maxKeys
  {
    hide Wrap;
  }

  lemma {:induction false} DelKeepsMaxKeys(s: State, keys: seq<Key>)
    ensures CmdDel(s, keys).0.maxKeys == s.maxKeys
  {
    if keys != [] {
      hide RemoveKey;
      DelKeepsMaxKeys(s, keys[..|keys| - 1]);
      RemoveKeepsMaxKeys(CmdDel(s, keys[..|keys| - 1]).0, keys[|keys| - 1]);
    }
  }

  lemma ExecuteKeepsMaxKeys(s: State, command: Command, now: Instant, report: Bytes)
    ensures Execute(s, command, now, report).0.maxKeys == s.maxKeys
  {
    hide RemoveKey, CmdDel, Wrap;
    match command
    case Del(keys) => DelKeepsMaxKeys(s, keys);
    case Get(key) => RemoveKeepsMaxKeys(s, key);
    case Ttl(key) => RemoveKeepsMaxKeys(s, key);
    case _ =>
  }

  lemma {:induction false} RunKeepsMaxKeys(init: State, start: Instant, run: seq<Transition>)
    requires IsRun(init, start, run)
    ensures Last(init, run).maxKeys == init.maxKeys
  {
    hide Execute, Swept;
    if run != [] {
      var earlier, last := run[..|run| - 1], run[|run| - 1];
      RunKeepsMaxKeys(init, start, earlier);
      match last.event
      case Ran(command, now, report, _) => ExecuteKeepsMaxKeys(Last(init, earlier), command, now, report);
      case Tick(now) => TickKeepsLimits(Last(init, earlier), now, last.post);
    }
  }

  // ---------- when SET is accepted ----------

  /** On every run of a fresh shard a SET is accepted exactly when its key and value are small enough, there
      is room for the key, and all the resident bytes after it, with those that sweeps have leaked, fit the
      limit. A refusal changes nothing. */
  lemma SetIsAcceptedIff(start: Instant, run: seq<Transition>, key: Key, value: Bytes, ttl: Option<nat>, now: Instant)
    requires IsRun(New(), start, run)
    ensures var s := Last(New(), run);
            var (t, reply) := CmdSet(s, key, value, ttl, now);
            var wanted := s.data[key := Entry(value, DeadlineOf(now, ttl))];
            && (reply == Done <==>
                  && |key| <= 512 && |value| <= 536_870_912 && |wanted| <= s.maxKeys == 100_000_000
                  && Total(wanted) + Leaked(New(), run) <= 21_474_836_480)
            && (reply == Done ==> t.data == wanted)
            && (reply != Done ==> t == s && reply.Error?)
  {
    hide IsRun, Leaked, Last, Total, New, CmdSet, Healthy, Balanced;
    var s := Last(New(), run);
    NewShardIsHealthy();
    RunKeepsInvariant(New(), start, run);
    RunKeepsMaxKeys(New(), start, run);
    NothingInNew();
    SetIsAcceptedFromIff(New(), start, run, key, value, ttl, now);
    RoomForKey(s.data, key, Entry(value, DeadlineOf(now, ttl)), s.maxKeys);
  }

  lemma NothingInNew()
    ensures Total(New().data) == 0 && New().memoryBytes == 0
    ensures New().maxMemory == 21_474_836_480 && New().maxKeys == 100_000_000
  {
  }

  /** The same from any state whose counter is within its limit, a loaded one included: what counts against
      the limit is what the run has added to the counter's first value, and falling below 0 refuses as well. */
  lemma SetIsAcceptedFromIff(init: State, start: Instant, run: seq<Transition>,
                             key: Key, value: Bytes, ttl: Option<nat>, now: Instant)
    requires IsRun(init, start, run)
    requires init.memoryBytes <= init.maxMemory <= MAX_MEMORY_PER_SHARD && Total(init.data) < 0x8000_0000_0000_0000
    ensures var s := Last(init, run);
            var (t, reply) := CmdSet(s, key, value, ttl, now);
            var wanted := s.data[key := Entry(value, DeadlineOf(now, ttl))];
            && (reply == Done <==>
                  && |key| <= 512 && |value| <= 536_870_912 && (key in s.data || |s.data| < s.maxKeys)
                  && 0 <= init.memoryBytes + Total(wanted) - Total(init.data) + Leaked(init, run) <= init.maxMemory)
            && (reply == Done ==> t.data == wanted)
            && (reply != Done ==> t == s && reply.Error?)
  {
    hide IsRun, Leaked, Last, Total, CmdSet, Wrap;
    RunMovesMemory(init, start, run);
    CountStaysBelow(init, start, run);
    var s := Last(init, run);
    var count := init.memoryBytes + Total(s.data) - Total(init.data) + Leaked(init, run);
    SetAcceptance(s, count, key, value, ttl, now);
  }

  /** The counter without its wrap-around never passes the limit, though it may fall below 0. */
  lemma {:induction false} CountStaysBelow(init: State, start: Instant, run: seq<Transition>)
    requires IsRun(init, start, run) && init.memoryBytes <= init.maxMemory <= MAX_MEMORY_PER_SHARD
    ensures var t := Last(init, run);
            && t.maxMemory == init.maxMemory
            && init.memoryBytes + Total(t.data) - Total(init.data) + Leaked(init, run) <= init.maxMemory
  {
    hide Step, Leak, Total;
    if run != [] {
      var earlier, last := run[..|run| - 1], run[|run| - 1];
      var s := Last(init, earlier);
      CountStaysBelow(init, start, earlier);
      RunMovesMemory(init, start, earlier);
      StepKeepsMaxMemory(s, last.event, last.post);
      StepStaysBelow(s, last.event, last.post,
                     init.memoryBytes + Total(s.data) - Total(init.data) + Leaked(init, earlier));
    }
  }

  lemma StepStaysBelow(s: State, event: Event, t: State, count: int)
    requires Step(s, event, t) && s.memoryBytes == Wrap(count) && count <= s.maxMemory <= MAX_MEMORY_PER_SHARD
    ensures count + Total(t.data) - Total(s.data) + Leak(s, event, t) <= s.maxMemory
  {
    hide Total, Execute, Swept, Wrap;
    match event
    case Tick(now) => TickMovesMemory(s, now, t);
    case Ran(command, now, report, reply) =>
      if command.Set? {
        SetIsExecuted(s, command, now, report);
        SetStaysBelow(s, count, command.key, command.value, command.ttl, now);
      } else {
        OtherCommandsShrink(s, command, now, report);
      }
  }

  lemma SetStaysBelow(s: State, count: int, key: Key, value: Bytes, ttl: Option<nat>, now: Instant)
    requires s.memoryBytes == Wrap(count) && count <= s.maxMemory <= MAX_MEMORY_PER_SHARD
    ensures count + Total(CmdSet(s, key, value, ttl, now).0.data) - Total(s.data) <= s.maxMemory
  {
    hide Total, Wrap;
    TotalUpdate(s.data, key, Entry(value, DeadlineOf(now, ttl)));
    WrapAdd(count, EntrySize(key, value) - OldSize(s, key));
    var next := count + EntrySize(key, value) - OldSize(s, key);
    if CmdSet(s, key, value, ttl, now).1 == Done && next >= 0 {
      SmallWraps(next);
    }
  }

  lemma SmallWraps(x: int)
    requires -0x8000_0000_0000_0000 < x < 0x1_0000_0000_0000_0000
    ensures Wrap(x) == if x < 0 then x + 0x1_0000_0000_0000_0000 else x
  {
    WrapUnique(x, if x < 0 then -1 else 0, if x < 0 then x + 0x1_0000_0000_0000_0000 else x);
  }

  lemma SetAcceptance(s: State, count: int, key: Key, value: Bytes, ttl: Option<nat>, now: Instant)
    requires s.memoryBytes == Wrap(count) && count <= s.maxMemory <= MAX_MEMORY_PER_SHARD
    requires count - Total(s.data) > -0x8000_0000_0000_0000
    ensures var (t, reply) := CmdSet(s, key, value, ttl, now);
            var wanted := s.data[key := Entry(value, DeadlineOf(now, ttl))];
            && (reply == Done <==>
                  && |key| <= 512 && |value| <= 536_870_912 && (key in s.data || |s.data| < s.maxKeys)
                  && 0 <= count + Total(wanted) - Total(s.data) <= s.maxMemory)
            && (reply == Done ==> t.data == wanted)
            && (reply != Done ==> t == s && reply.Error?)
  {
    hide Total, Wrap;
    TotalUpdate(s.data, key, Entry(value, DeadlineOf(now, ttl)));
    WrapAdd(count, EntrySize(key, value) - OldSize(s, key));
    if |key| <= MAX_KEY_SIZE && |value| <= MAX_VALUE_SIZE {
      SmallWraps(count + EntrySize(key, value) - OldSize(s, key));
    }
  }

  /** What a refused SET says: the first of its four reasons. */
  lemma SetRefusals(s: State, key: Key, value: Bytes, ttl: Option<nat>, now: Instant)
    ensures var reply := CmdSet(s, key, value, ttl, now).1;
            && (|key| > 512 ==> reply == Error("ERR key too large"))
            && (|key| <= 512 && |value| > 536_870_912 ==> reply == Error("ERR value too large"))
            && (|key| <= 512 && |value| <= 536_870_912 && key !in s.data && |s.data| >= s.maxKeys ==>
                  reply == Error("ERR shard full"))
            && (|key| <= 512 && |value| <= 536_870_912 && (key in s.data || |s.data| < s.maxKeys) && reply != Done ==>
                  reply == Error("ERR OOM command not allowed when used memory > 'maxmemory'"))
  {
    hide Wrap;
  }

  lemma RoomForKey(data: map<Key, Entry>, key: Key, entry: Entry, room: nat)
    requires |data| <= room
    ensures |data[key := entry]| <= room <==> key in data || |data| < room
  {
    assert data[key := entry].Keys == data.Keys + {key};
  }

  // ---------- keys ----------

  /** 1 when the event is an accepted SET of a key that was not resident. */
  ghost function Creations(s: State, event: Event): nat {
    if event.Ran? && event.command.Set? && event.reply == Done && event.command.key !in s.data then 1 else 0
  }

  /** What a DEL answered. */
  ghost function DelReply(event: Event): int {
    if event.Ran? && event.command.Del? && event.reply.Integer? then event.reply.n else 0
  }

  ghost function Created(init: State, run: seq<Transition>): nat {
    if run == [] then 0
    else
      var earlier, last := run[..|run| - 1], run[|run| - 1];
      Created(init, earlier) + Creations(Last(init, earlier), last.event)
  }

  ghost function DelReplies(run: seq<Transition>): int {
    if run == [] then 0 else DelReplies(run[..|run| - 1]) + DelReply(run[|run| - 1].event)
  }

  lemma RemoveCounts(s: State, key: Key)
    ensures |RemoveKey(s, key).data| == |s.data| - (if key in s.data then 1 else 0)
    ensures RemoveKey(s, key).keysExpired == s.keysExpired
  {
    hide Wrap;
    if key in s.data {
      assert s.data.Keys == (s.data - {key}).Keys + {key};
    }
  }

  lemma {:induction false} DelCounts(s: State, keys: seq<Key>)
    ensures var (t, deleted) := CmdDel(s, keys);
            |t.data| == |s.data| - deleted && t.keysExpired == s.keysExpired
  {
    hide RemoveKey;
    if keys != [] {
      var n := |keys| - 1;
      DelCounts(s, keys[..n]);
      RemoveCounts(CmdDel(s, keys[..n]).0, keys[n]);
    }
  }

  lemma SetCounts(s: State, key: Key, value: Bytes, ttl: Option<nat>, now: Instant)
    ensures var (t, reply) := CmdSet(s, key, value, ttl, now);
            && |t.data| == |s.data| + (if reply == Done && key !in s.data then 1 else 0)
            && t.keysExpired == s.keysExpired
  {
    hide Wrap;
    assert s.data[key := Entry(value, DeadlineOf(now, ttl))].Keys == s.data.Keys + {key};
  }

  lemma ExpireCounts(s: State, key: Key, seconds: nat, now: Instant)
    ensures |CmdExpire(s, key, seconds, now).0.data| == |s.data|
  {
    if key in s.data {
      assert CmdExpire(s, key, seconds, now).0.data.Keys == s.data.Keys;
    }
  }

  lemma StepCountsKeys(s: State, event: Event, t: State)
    requires Step(s, event, t)
    ensures |t.data| + DelReply(event) + t.keysExpired == |s.data| + Creations(s, event) + s.keysExpired
  {
    hide CmdSet, CmdDel, RemoveKey;
    match event
    case Tick(now) => TickCounts(s, now, t);
    case Ran(command, now, report, reply) =>
      match command
      case Set(key, value, ttl) => SetCounts(s, key, value, ttl, now);
      case Del(keys) => DelCounts(s, keys);
      case Expire(key, seconds) => ExpireCounts(s, key, seconds, now);
      case Get(key) => RemoveCounts(s, key);
      case Ttl(key) => RemoveCounts(s, key);
      case _ =>
  }

  lemma TickCounts(s: State, now: Instant, t: State)
    requires Swept(s, now, t)
    ensures |t.data| + t.keysExpired == |s.data| + s.keysExpired
  {
    var removed := s.data.Keys - t.data.Keys;
    assert s.data.Keys == t.data.Keys + removed;
  }

  /** Every key a run created is still resident, was counted by some DEL reply, or was counted as expired;
      key_count is the number of residents and never above max_keys. */
  lemma {:induction false} KeysAreConserved(init: State, start: Instant, run: seq<Transition>)
    requires IsRun(init, start, run) && Healthy(init) && WithinLimits(init)
    ensures var t := Last(init, run);
            && Created(init, run) + |init.data| + init.keysExpired == |t.data| + DelReplies(run) + t.keysExpired
            && t.keyCount == |t.data| <= t.maxKeys
  {
    RunKeepsInvariant(init, start, run);
    CreationsAreAccounted(init, start, run);
  }

  lemma {:induction false} CreationsAreAccounted(init: State, start: Instant, run: seq<Transition>)
    requires IsRun(init, start, run)
    ensures var t := Last(init, run);
            Created(init, run) + |init.data| + init.keysExpired == |t.data| + DelReplies(run) + t.keysExpired
  {
    hide Step, DelReply, Creations;
    if run != [] {
      var earlier, last := run[..|run| - 1], run[|run| - 1];
      CreationsAreAccounted(init, start, earlier);
      StepCountsKeys(Last(init, earlier), last.event, last.post);
    }
  }

  // ---------- sweeps in a row ----------

  /** Consecutive sweeps with no command between them. */
  ghost predicate OnlySweeps(run: seq<Transition>) {
    forall i :: 0 <= i < |run| ==> run[i].event.Tick?
  }

  /** After n sweeps in a row, all but 20n of the keys due at the first are gone, and none was kept for a
      key that fell due later. */
  lemma {:induction false} SweepsInARow(init: State, start: Instant, run: seq<Transition>)
    requires IsRun(init, start, run) && OnlySweeps(run)
    ensures var due := Due(init.data, start);
            |due * Last(init, run).data.Keys| == if |due| <= 20 * |run| then 0 else |due| - 20 * |run|
    ensures forall k :: k in Last(init, run).data ==> k in init.data && Last(init, run).data[k] == init.data[k]
    ensures start <= Clock(start, run)
  {
    var due := Due(init.data, start);
    if run == [] {
      assert due * init.data.Keys == due;
    } else {
      var n := |run| - 1;
      var earlier, last := run[..n], run[n];
      assert OnlySweeps(earlier);
      SweepsInARow(init, start, earlier);
      hide Swept, Due, Execute;
      OneMoreSweep(init.data, due, start, Last(init, earlier), last.event.now, last.post);
    }
  }

  lemma OneMoreSweep(data: map<Key, Entry>, due: set<Key>, start: Instant, s: State, now: Instant, t: State)
    requires due == Due(data, start) && start <= now && Swept(s, now, t)
    requires forall k :: k in s.data ==> k in data && s.data[k] == data[k]
    ensures var left := |due * s.data.Keys|;
            |due * t.data.Keys| == if left <= 20 then 0 else left - 20
    ensures forall k :: k in t.data ==> k in data && t.data[k] == data[k]
  {
    var removed := s.data.Keys - t.data.Keys;
    var left := due * s.data.Keys;
    var kept := due * t.data.Keys;
    assert left <= Due(s.data, now);
    assert kept == left - removed;
    if kept != {} {
      var k :| k in kept;
      assert k in Due(s.data, now) - removed;
      forall r | r in removed ensures r in left {
        assert NoLater(s.data, r, k);
      }
      assert |Due(s.data, now)| > |removed| by {
        assert removed < Due(s.data, now);
        StrictSubsetIsSmaller(removed, Due(s.data, now));
      }
      assert |removed| == 20;
      assert |left - removed| == |left| - |removed|;
      assert |kept| > 0;
    } else {
      assert left <= removed;
      SubsetIsSmaller(left, removed);
    }
  }

  lemma SubsetIsSmaller<T>(a: set<T>, b: set<T>)
    requires a <= b
    ensures |a| <= |b|
  {
    assert b == a + (b - a);
  }

  lemma StrictSubsetIsSmaller<T>(a: set<T>, b: set<T>)
    requires a < b
    ensures |a| < |b|
  {
    var x :| x in b && x !in a;
    SubsetIsSmaller(a + {x}, b);
  }

  /** ceil(D/20) sweeps clear the D keys that were due when they began. */
  lemma EnoughSweepsClearTheDue(init: State, start: Instant, run: seq<Transition>)
    requires IsRun(init, start, run) && OnlySweeps(run)
    requires |run| >= (|Due(init.data, start)| + 19) / 20
    ensures Due(init.data, start) !! Last(init, run).data.Keys
  {
    hide IsRun, Last, Due;
    SweepsInARow(init, start, run);
    assert |Due(init.data, start)| <= 20 * |run|;
    var left := Due(init.data, start) * Last(init, run).data.Keys;
    assert |left| == 0;
    assert forall k :: k in Due(init.data, start) && k in Last(init, run).data.Keys ==> k in left;
  }
}
