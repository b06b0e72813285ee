/** What holds of every behaviour of connections, queues, shards and timers, whatever the interleaving. */
module ClusterTheorems {
  import opened Prelude
  import opened Messages
  import opened ShardSpec
  import opened ShardRuns
  import opened TtlMap
  import opened Router
  import opened Gathering
  import opened Cluster

  ghost predicate StepsTo(s: System, t: System) {
    Shape(s) && exists a :: Cluster.Next(s, a, t)
  }

  ghost predicate IsBehaviour(states: seq<System>) {
    && states != [] && Init(states[0])
    && forall i :: 0 <= i < |states| - 1 ==> StepsTo(states[i], states[i + 1])
  }

  lemma InitIsInv(s: System)
    requires Init(s)
    ensures Inv(s)
  {
    assert ReplayLog(s.log) == map[];
  }

  lemma {:induction false} BehaviourKeepsInv(states: seq<System>, i: nat)
    requires IsBehaviour(states) && i < |states|
    ensures Inv(states[i])
  {
    hide Inv, Init;
    if i == 0 {
      InitIsInv(states[0]);
    } else {
      BehaviourKeepsInv(states, i - 1);
      assert StepsTo(states[i - 1], states[i - 1 + 1]);
      var a :| Cluster.Next(states[i - 1], a, states[i]);
      StepKeepsInv(states[i - 1], a, states[i]);
    }
  }

  // ---------- what only grows ----------

  /** Requests keep their place and command, and a finished one its end; connections keep what they have. */
  ghost predicate Grows(s: System, t: System) {
    && |s.requests| <= |t.requests|
    && (forall r :: 0 <= r < |s.requests| ==> t.requests[r].(phase := s.requests[r].phase) == s.requests[r])
    && (forall r :: 0 <= r < |s.requests| && s.requests[r].phase.Final() ==> t.requests[r] == s.requests[r])
    && |s.conns| <= |t.conns|
    && (forall c :: 0 <= c < |s.conns| ==>
          && s.conns[c].frames <= t.conns[c].frames && s.conns[c].asked <= t.conns[c].asked
          && s.conns[c].responses <= t.conns[c].responses && s.conns[c].written <= t.conns[c].written)
  }

  lemma StepGrows(s: System, a: Action, t: System)
    requires Shape(s) && Cluster.Next(s, a, t)
    ensures Grows(s, t)
  {
    hide ShardSpec.Execute, Swept, Asks, IsOrder, Respond, AllFinal, NewIds;
  }

  lemma OneStepGrows(states: seq<System>, i: nat)
    requires IsBehaviour(states) && 0 < i < |states|
    ensures Grows(states[i - 1], states[i])
  {
    hide Grows, Init;
    assert StepsTo(states[i - 1], states[i - 1 + 1]);
    var a :| Cluster.Next(states[i - 1], a, states[i]);
    StepGrows(states[i - 1], a, states[i]);
  }

  lemma {:induction false} BehaviourGrows(states: seq<System>, i: nat, j: nat)
    requires IsBehaviour(states) && i <= j < |states|
    ensures Grows(states[i], states[j])
  {
    hide IsBehaviour, Grows;
    if i == j {
      GrowsSelf(states[i]);
    } else {
      BehaviourGrows(states, i, j - 1);
      OneStepGrows(states, j);
      GrowsChain(states[i], states[j - 1], states[j]);
    }
  }

  lemma GrowsSelf(s: System)
    ensures Grows(s, s)
  {
  }

  lemma GrowsChain(s: System, t: System, u: System)
    requires Grows(s, t) && Grows(t, u)
    ensures Grows(s, u)
  {
  }

  // ---------- request and reply ----------

  /** A command refused as overloaded or closed is never executed, then or later. */
  lemma RefusedIsNeverExecuted(states: seq<System>, i: nat, j: nat, r: nat)
    requires IsBehaviour(states) && i <= j < |states| && r < |states[i].requests|
    requires states[i].requests[r].phase == Overloaded || states[i].requests[r].phase == Closed
    ensures forall e :: 0 <= e < |states[j].log| ==> states[j].log[e].req != r
  {
    BehaviourKeepsInv(states, j);
    BehaviourGrows(states, i, j);
    hide IsBehaviour;
    assert forall e :: 0 <= e < |states[j].log| ==> EntryOk(states[j].requests, states[j].log[e]);
  }

  /** Any other command is executed at most once. */
  lemma ExecutedAtMostOnce(states: seq<System>, i: nat)
    requires IsBehaviour(states) && i < |states|
    ensures forall d, e :: 0 <= d < e < |states[i].log| ==> states[i].log[d].req != states[i].log[e].req
  {
    BehaviourKeepsInv(states, i);
    hide IsBehaviour;
    var s := states[i];
    assert forall d, e :: 0 <= d < e < |s.log| ==> Ahead(s.requests, s.log[d].req, s.log[e].req);
  }

  /** An answer a request got is the reply of its own execution, so a late reply answers nobody else. */
  lemma AnswersAreOwn(states: seq<System>, i: nat, r: nat)
    requires IsBehaviour(states) && i < |states| && r < |states[i].requests|
    requires states[i].requests[r].phase.Answered?
    ensures exists e :: 0 <= e < |states[i].log|
                     && states[i].log[e].req == r
                     && states[i].log[e].event.Ran?
                     && states[i].log[e].event.command == states[i].requests[r].command
                     && states[i].log[e].event.reply == states[i].requests[r].phase.reply
  {
    BehaviourKeepsInv(states, i);
    hide IsBehaviour;
    var s := states[i];
    assert ExecutedAs(s.log, r, s.requests[r].phase.reply);
    var e :| 0 <= e < |s.log| && s.log[e].req == r && s.log[e].event.Ran?
             && s.log[e].event.reply == s.requests[r].phase.reply;
    assert EntryOk(s.requests, s.log[e]);
  }

  /** Commands of one connection to one shard are executed in the order of their frames, timeouts or not. */
  lemma ExecutedInFrameOrder(states: seq<System>, i: nat, d: nat, e: nat)
    requires IsBehaviour(states) && i < |states| && d < e < |states[i].log|
    ensures var s := states[i];
            var r, q := s.log[d].req, s.log[e].req;
            && r < |s.requests| && q < |s.requests|
            && (SameLane(s.requests, r, q) ==> s.requests[r].frame < s.requests[q].frame)
  {
    BehaviourKeepsInv(states, i);
    hide IsBehaviour;
    var s := states[i];
    assert Ahead(s.requests, s.log[d].req, s.log[e].req);
  }

  /** One response per frame, in frame order: what is written is a prefix of the responses, each made from
      the ends of its own frame's requests, and responses never change once given. */
  lemma ResponsesFollowFrames(states: seq<System>, i: nat, j: nat, c: nat)
    requires IsBehaviour(states) && i <= j < |states| && c < |states[i].conns|
    ensures c < |states[j].conns|
    ensures var before, after := states[i].conns[c], states[j].conns[c];
            && before.frames <= after.frames && before.asked <= after.asked
            && before.responses <= after.responses && before.written <= after.written
    ensures var conn := states[i].conns[c];
            && conn.written <= |conn.responses| <= |conn.frames| <= |conn.responses| + 1
            && |conn.asked| == |conn.frames|
            && forall f :: 0 <= f < |conn.responses| ==> FrameOk(states[i].requests, c, conn, f)
  {
    BehaviourKeepsInv(states, i);
    BehaviourGrows(states, i, j);
    hide IsBehaviour, FrameOk;
    assert ConnOk(states[i].requests, c, states[i].conns[c]);
  }

  // ---------- what is answered to a command of one message ----------

  /** Request r is the whole of that frame, and the response is the reply of its execution or, if it ended
      without one, the error that says how it ended. */
  ghost predicate AnsweredBy(s: System, c: nat, f: nat, command: Command, r: nat, response: Response) {
    && r < |s.requests| && s.requests[r].conn == c && s.requests[r].frame == f
    && s.requests[r].command == command && RoutedTo(command, s.requests[r].shard)
    && match s.requests[r].phase
       case Answered(_) => exists e :: 0 <= e < |s.log| && IsReply(s.log[e], r, command, response)
       case Overloaded => response == Error("ERR shard overloaded")
       case Closed => response == Error("ERR shard channel closed")
       case TimedOut => response == Error("ERR shard timeout")
       case Disconnected => response == Error("ERR shard disconnected")
       case _ => false
  }

  ghost predicate IsReply(entry: Execution, r: nat, command: Command, response: Response) {
    entry.req == r && entry.event.Ran? && entry.event.command == command && entry.event.reply == response
  }

  /** Every response to a decoded command other than DEL is the reply of that command's execution on the shard
      it is routed to, or the error of a request that was refused, timed out or lost. */
  lemma SingleAnswers(states: seq<System>, i: nat, c: nat, f: nat, command: Command)
    requires IsBehaviour(states) && i < |states| && c < |states[i].conns|
    requires f < |states[i].conns[c].responses| && f < |states[i].conns[c].frames|
    requires states[i].conns[c].frames[f] == Decoded(command) && !command.Del?
    ensures var conn := states[i].conns[c];
            && f < |conn.asked| && |conn.asked[f]| == 1
            && AnsweredBy(states[i], c, f, command, conn.asked[f][0], conn.responses[f])
  {
    hide IsBehaviour;
    BehaviourKeepsInv(states, i);
    SingleIsAnswered(states[i], c, f, command);
  }

  lemma SingleIsAnswered(s: System, c: nat, f: nat, command: Command)
    requires Inv(s) && c < |s.conns| && f < |s.conns[c].responses| && f < |s.conns[c].frames|
    requires s.conns[c].frames[f] == Decoded(command) && !command.Del?
    ensures var conn := s.conns[c];
            && f < |conn.asked| && |conn.asked[f]| == 1
            && AnsweredBy(s, c, f, command, conn.asked[f][0], conn.responses[f])
  {
    hide SentOk, StoreOk, RoutedTo;
    assert ConnOk(s.requests, c, s.conns[c]);
    assert FrameOk(s.requests, c, s.conns[c], f);
    var r := s.conns[c].asked[f][0];
    if s.requests[r].phase.Answered? {
      AnswerWasExecuted(s, r);
    }
  }

  lemma AnswerWasExecuted(s: System, r: nat)
    requires Inv(s) && r < |s.requests| && s.requests[r].phase.Answered?
    ensures exists e :: 0 <= e < |s.log| && IsReply(s.log[e], r, s.requests[r].command, s.requests[r].phase.reply)
  {
    hide RequestsOk, ConnsOk, StoreOk;
    assert ExecutedAs(s.log, r, s.requests[r].phase.reply);
    var e :| 0 <= e < |s.log| && s.log[e].req == r && s.log[e].event.Ran?
             && s.log[e].event.reply == s.requests[r].phase.reply;
    assert EntryOk(s.requests, s.log[e]);
    assert IsReply(s.log[e], r, s.requests[r].command, s.requests[r].phase.reply);
  }

  // ---------- one step of a request, and the queues' bound ----------

  /** A request is sent or refused, then answered or given up; no step does more, and an end is an end. */
  predicate MovesOn(before: Phase, after: Phase) {
    || after == before
    || (before.Sending? && (after.Waiting? || after.Overloaded? || after.Closed?))
    || (before.Waiting? && (after.Answered? || after.TimedOut? || after.Disconnected?))
  }

  lemma PhasesMoveOn(states: seq<System>, i: nat, r: nat)
    requires IsBehaviour(states) && i + 1 < |states| && r < |states[i].requests|
    ensures r < |states[i + 1].requests| && MovesOn(states[i].requests[r].phase, states[i + 1].requests[r].phase)
  {
    hide Init, ShardSpec.Execute, Swept, Asks, IsOrder, Respond, AllFinal, NewIds;
    assert StepsTo(states[i], states[i + 1]);
  }

  /** No queue ever holds more than 1024 messages. */
  lemma {:induction false} QueuesAreBounded(states: seq<System>, i: nat)
    requires IsBehaviour(states) && i < |states|
    ensures forall shard :: 0 <= shard < |states[i].queues| ==> |states[i].queues[shard]| <= 1024
  {
    hide ShardSpec.Execute, Swept, Asks, IsOrder, Respond, AllFinal, NewIds;
    if i > 0 {
      QueuesAreBounded(states, i - 1);
      assert StepsTo(states[i - 1], states[i - 1 + 1]);
    }
  }

  /** A message to an open shard with an empty queue can be answered in three steps, and then its answer is
      what the shard makes of it. */
  lemma QuietRequestIsAnswered(s: System, r: nat, at: Instant, report: Bytes)
    requires Shape(s) && r < |s.requests| && s.requests[r].phase.Sending? && s.requests[r].shard < SHARD_COUNT
    requires s.open[s.requests[r].shard] && s.queues[s.requests[r].shard] == [] && s.now <= at
    ensures var shard := s.requests[r].shard;
            var (post, reply) := ShardSpec.Execute(s.shards[shard], s.requests[r].command, at, report);
            exists t, u, v ::
              && Cluster.Next(s, Enqueue(r), t) && Shape(t)
              && Cluster.Next(t, Action.Execute(shard, at, report), u) && Shape(u)
              && Cluster.Next(u, Receive(r), v)
              && v.requests[r].phase == Answered(reply) && v.shards[shard] == post && v.queues[shard] == []
              && |v.log| == |s.log| + 1
  {
    hide ShardSpec.Execute;
    var shard := s.requests[r].shard;
    var (post, reply) := ShardSpec.Execute(s.shards[shard], s.requests[r].command, at, report);
    var t := SetPhase(s, r, Waiting).(queues := s.queues[shard := s.queues[shard] + [r]]);
    assert Cluster.Next(s, Enqueue(r), t);
    var event := Ran(s.requests[r].command, at, report, reply);
    var u := t.(shards := t.shards[shard := post], queues := t.queues[shard := t.queues[shard][1..]],
                slots := t.slots[r := reply], now := at,
                log := t.log + [Execution(r, event, t.shards[shard].data, post.data)]);
    assert Cluster.Next(t, Action.Execute(shard, at, report), u);
    var v := SetPhase(u, r, Answered(reply));
    assert Cluster.Next(u, Receive(r), v);
  }

  // ---------- one map ----------

  /** Each key is only ever on the shard route_key names; together the shards show what one plain map shows
      that went through the executions in log order; and every execution's reply is one that map allows. */
  lemma ShardsAreOneMap(states: seq<System>, i: nat)
    requires IsBehaviour(states) && i < |states|
    ensures var s := states[i];
            && |s.shards| == SHARD_COUNT
            && (forall shard, k :: 0 <= shard < SHARD_COUNT && k in s.shards[shard].data ==> RouteKey(k) == shard)
            && (forall k, at :: s.now <= at ==> SameAt(s.shards[RouteKey(k)].data, ReplayLog(s.log), k, at))
            && (forall e :: 0 <= e < |s.log| ==> Answers(ReplayLog(s.log[..e]), s.log[e].event))
  {
    BehaviourKeepsInv(states, i);
    hide IsBehaviour, Answers, ReplayLog, RouteKey;
    var s := states[i];
    forall k, at | s.now <= at
      ensures SameAt(s.shards[RouteKey(k)].data, ReplayLog(s.log), k, at)
    {
      assert Simulates(s.shards[RouteKey(k)].data, ReplayLog(s.log), KeysOf(RouteKey(k)), s.now);
      assert k in KeysOf(RouteKey(k));
    }
    forall shard, k | 0 <= shard < SHARD_COUNT && k in s.shards[shard].data
      ensures RouteKey(k) == shard
    {
      assert Simulates(s.shards[shard].data, ReplayLog(s.log), KeysOf(shard), s.now);
    }
  }

  /** The two maps show the same entry, or none, for a key at a given time. */
  ghost predicate SameAt(data: map<Key, Entry>, m: Plain, k: Key, at: Instant) {
    && (k in View(data, at) <==> k in View(m, at))
    && (k in View(data, at) ==> View(data, at)[k] == View(m, at)[k])
  }

  // ---------- scattered DEL ----------

  ghost function Removed(entry: Execution): set<Key> {
    entry.before.Keys - entry.after.Keys
  }

  /** The keys that the executions of these requests took out of their shards. */
  ghost function RemovedFor(log: seq<Execution>, ids: seq<nat>): set<Key> {
    if log == [] then {}
    else
      var n := |log| - 1;
      RemovedFor(log[..n], ids) + (if log[n].req in ids then Removed(log[n]) else {})
  }

  lemma {:induction false} InRemovedFor(log: seq<Execution>, ids: seq<nat>, k: Key)
    ensures k in RemovedFor(log, ids) <==> exists e :: 0 <= e < |log| && log[e].req in ids && k in Removed(log[e])
  {
    if log != [] {
      hide Removed;
      var n := |log| - 1;
      InRemovedFor(log[..n], ids, k);
      assert forall e :: 0 <= e < n ==> log[..n][e] == log[e];
    }
  }

  lemma OneMoreGroup(log: seq<Execution>, ids: seq<nat>, j: nat, e: nat)
    requires j < |ids| && e < |log| && log[e].req == ids[j]
    requires forall d :: 0 <= d < |log| && log[d].req == ids[j] ==> d == e
    ensures RemovedFor(log, ids[..j + 1]) == RemovedFor(log, ids[..j]) + Removed(log[e])
  {
    hide Removed, RemovedFor;
    assert ids[..j + 1] == ids[..j] + [ids[j]];
    forall k
      ensures k in RemovedFor(log, ids[..j + 1]) <==> k in RemovedFor(log, ids[..j]) + Removed(log[e])
    {
      InRemovedFor(log, ids[..j + 1], k);
      InRemovedFor(log, ids[..j], k);
    }
  }

  /** Every request of a finished scatter that ended without error was executed, and counted what it removed. */
  lemma GroupWasExecuted(s: System, r: nat) returns (e: nat)
    requires Inv(s) && r < |s.requests| && s.requests[r].command.Del?
    requires s.requests[r].phase.Final() && !Outcome(s.requests[r].phase, true).Error?
    ensures e < |s.log| && s.log[e].req == r
    ensures forall d :: 0 <= d < |s.log| && s.log[d].req == r ==> d == e
    ensures Outcome(s.requests[r].phase, true) == Integer(|Removed(s.log[e])|)
    ensures s.log[e].event.Ran? && s.log[e].event.command == s.requests[r].command
    ensures s.log[e].after == s.log[e].before - KeySet(s.requests[r].command.keys)
  {
    assert ExecutedAs(s.log, r, s.requests[r].phase.reply);
    e :| 0 <= e < |s.log| && s.log[e].req == r && s.log[e].event.Ran?
             && s.log[e].event.reply == s.requests[r].phase.reply;
    assert EntryOk(s.requests, s.log[e]);
    assert forall x, y :: 0 <= x < y < |s.log| ==> Ahead(s.requests, s.log[x].req, s.log[y].req);
  }

  /** A key leaves only the shard it is routed to. */
  lemma RemovedIsRouted(s: System, e: nat, k: Key)
    requires Inv(s) && e < |s.log| && s.log[e].event.Ran? && s.log[e].event.command.Del? && k in Removed(s.log[e])
    ensures s.log[e].req < |s.requests| && RouteKey(k) == s.requests[s.log[e].req].shard
  {
    hide RouteKey;
    var entry := s.log[e];
    assert EntryOk(s.requests, entry);
    assert RoutedTo(s.requests[entry.req].command, s.requests[entry.req].shard);
    assert k in KeySet(entry.event.command.keys);
  }

  ghost predicate Scatter(s: System, c: nat, f: nat, keys: seq<Key>) {
    && c < |s.conns| && f < |s.conns[c].responses| <= |s.conns[c].frames| == |s.conns[c].asked|
    && s.conns[c].frames[f] == Decoded(Del(keys))
    && AskedFor(s.requests, s.conns[c].asked[f], c, f, Del(keys))
    && AllFinal(s.requests, s.conns[c].asked[f])
    && Errors(Outcomes(s.requests, s.conns[c].asked[f], true)) == []
  }

  lemma NothingRemoved(log: seq<Execution>)
    ensures RemovedFor(log, []) == {}
  {
    hide RemovedFor;
    forall k ensures k !in RemovedFor(log, []) {
      InRemovedFor(log, [], k);
    }
  }

  /** One more group adds as many removed keys as its shard answered. */
  lemma GroupAdds(s: System, c: nat, f: nat, keys: seq<Key>, j: nat)
    requires Inv(s) && Scatter(s, c, f, keys) && j < |s.conns[c].asked[f]|
    ensures var ids := s.conns[c].asked[f];
            && Outcomes(s.requests, ids, true)[j].Integer?
            && |RemovedFor(s.log, ids[..j + 1])| ==
               |RemovedFor(s.log, ids[..j])| + Outcomes(s.requests, ids, true)[j].n
  {
    var ids := s.conns[c].asked[f];
    var outcomes := Outcomes(s.requests, ids, true);
    var r := ids[j];
    assert outcomes[j] == Outcome(s.requests[r].phase, true);
    NoErrors(outcomes);
    assert s.requests[r].command.Del?;
    hide Inv, RemovedFor, Removed;
    var e := GroupWasExecuted(s, r);
    OneMoreGroup(s.log, ids, j, e);
    GroupIsNew(s, c, f, keys, j, e);
  }

  lemma {:induction false} GroupsAddUp(s: System, c: nat, f: nat, keys: seq<Key>, j: nat)
    requires Inv(s) && Scatter(s, c, f, keys) && j <= |s.conns[c].asked[f]|
    ensures var ids := s.conns[c].asked[f];
            |RemovedFor(s.log, ids[..j])| == Gathering.Total(Outcomes(s.requests, ids, true)[..j])
  {
    hide Inv, RemovedFor, AskedFor, Errors;
    var ids := s.conns[c].asked[f];
    var outcomes := Outcomes(s.requests, ids, true);
    hide Scatter;
    if j == 0 {
      NothingRemoved(s.log);
      assert ids[..0] == [];
    } else {
      GroupsAddUp(s, c, f, keys, j - 1);
      GroupAdds(s, c, f, keys, j - 1);
      assert outcomes[..j][..j - 1] == outcomes[..j - 1];
    }
  }

  lemma DifferentShards(s: System, c: nat, f: nat, keys: seq<Key>, i: nat, j: nat)
    requires Inv(s) && Scatter(s, c, f, keys) && i < j < |s.conns[c].asked[f]|
    ensures s.requests[s.conns[c].asked[f][i]].shard != s.requests[s.conns[c].asked[f][j]].shard
  {
    hide StoreOk, RepliesOk, RouteKey, EntryOk, Removed, RemovedFor;
    var r, q := s.conns[c].asked[f][i], s.conns[c].asked[f][j];
    assert r < q;
    assert forall x, y :: 0 <= x < y < |s.requests| && SameLane(s.requests, x, y) ==>
                            s.requests[x].frame < s.requests[y].frame;
  }

  lemma GroupIsNew(s: System, c: nat, f: nat, keys: seq<Key>, j: nat, e: nat)
    requires Inv(s) && Scatter(s, c, f, keys) && j < |s.conns[c].asked[f]|
    requires e < |s.log| && s.log[e].req == s.conns[c].asked[f][j]
    requires s.log[e].event.Ran? && s.log[e].event.command.Del?
    ensures RemovedFor(s.log, s.conns[c].asked[f][..j]) !! Removed(s.log[e])
  {
    hide Removed, RemovedFor, RouteKey, StoreOk, ConnsOk, RepliesOk;
    var ids := s.conns[c].asked[f];
    forall k | k in RemovedFor(s.log, ids[..j])
      ensures k !in Removed(s.log[e])
    {
      InRemovedFor(s.log, ids[..j], k);
      var d :| 0 <= d < |s.log| && s.log[d].req in ids[..j] && k in Removed(s.log[d]);
      var i :| 0 <= i < j && ids[i] == s.log[d].req;
      assert EntryOk(s.requests, s.log[d]);
      RemovedIsRouted(s, d, k);
      DifferentShards(s, c, f, keys, i, j);
      if k in Removed(s.log[e]) {
        RemovedIsRouted(s, e, k);
        assert false;
      }
    }
  }

  /** A DEL over many shards that answers Integer(n) has removed exactly n residents, all of them named in
      it: each shard that holds some of its keys executed its group once and kept none of them. */
  lemma ScatteredDelCounts(states: seq<System>, i: nat, c: nat, f: nat, keys: seq<Key>, n: int)
    requires IsBehaviour(states) && i < |states|
    requires c < |states[i].conns| && f < |states[i].conns[c].responses| && f < |states[i].conns[c].frames|
    requires states[i].conns[c].frames[f] == Decoded(Del(keys))
    requires states[i].conns[c].responses[f] == Integer(n)
    ensures f < |states[i].conns[c].asked|
    ensures var s, ids := states[i], states[i].conns[c].asked[f];
            && |RemovedFor(s.log, ids)| == n
            && RemovedFor(s.log, ids) <= KeySet(keys)
            && (forall k :: k in keys ==> RemovedOnce(s, ids, k))
  {
    BehaviourKeepsInv(states, i);
    hide IsBehaviour;
    var s, conn := states[i], states[i].conns[c];
    var ids := conn.asked[f];
    FinishedScatter(s, c, f, keys, n);
    GroupsAddUp(s, c, f, keys, |ids|);
    assert ids[..|ids|] == ids;
    assert Outcomes(s.requests, ids, true)[..|ids|] == Outcomes(s.requests, ids, true);
    forall k | k in keys ensures RemovedOnce(s, ids, k) {
      KeyWasVisited(s, c, f, keys, k);
    }
    RemovedWereNamed(s, c, f, keys);
  }

  lemma FinishedScatter(s: System, c: nat, f: nat, keys: seq<Key>, n: int)
    requires Inv(s) && c < |s.conns| && f < |s.conns[c].responses| && f < |s.conns[c].frames|
    requires s.conns[c].frames[f] == Decoded(Del(keys)) && s.conns[c].responses[f] == Integer(n)
    ensures Scatter(s, c, f, keys)
    ensures n == Gathering.Total(Outcomes(s.requests, s.conns[c].asked[f], true))
  {
    hide RequestsOk, SentOk, RepliesOk, StoreOk, AskedFor, AllFinal;
    assert ConnOk(s.requests, c, s.conns[c]);
    assert FrameOk(s.requests, c, s.conns[c], f);
  }

  /** One execution among those of the requests saw the key's shard, and left the key out of it. */
  ghost predicate RemovedOnce(s: System, ids: seq<nat>, k: Key) {
    exists e :: 0 <= e < |s.log| && s.log[e].req in ids && VisitedKey(s, e, k)
  }

  ghost predicate VisitedKey(s: System, e: nat, k: Key)
    requires e < |s.log|
  {
    && s.log[e].req < |s.requests| && s.requests[s.log[e].req].shard == RouteKey(k)
    && k !in s.log[e].after
    && (k in s.log[e].before ==> k in Removed(s.log[e]))
  }

  lemma KeyWasVisited(s: System, c: nat, f: nat, keys: seq<Key>, k: Key)
    requires Inv(s) && Scatter(s, c, f, keys) && k in keys
    ensures RemovedOnce(s, s.conns[c].asked[f], k)
  {
    var ids, shard := s.conns[c].asked[f], RouteKey(k);
    hide RouteKey;
    GroupHolds(keys, shard);
    assert k in KeySet(Group(keys, shard));
    var j :| 0 <= j < |ids| && s.requests[ids[j]].shard == shard;
    NoErrors(Outcomes(s.requests, ids, true));
    assert !Outcomes(s.requests, ids, true)[j].Error?;
    var e := GroupWasExecuted(s, ids[j]);
    assert VisitedKey(s, e, k);
  }

  lemma RemovedWereNamed(s: System, c: nat, f: nat, keys: seq<Key>)
    requires Inv(s) && Scatter(s, c, f, keys)
    ensures RemovedFor(s.log, s.conns[c].asked[f]) <= KeySet(keys)
  {
    hide RemovedFor, Inv, AskedFor, AllFinal, Errors;
    var ids := s.conns[c].asked[f];
    hide Scatter;
    forall k | k in RemovedFor(s.log, ids)
      ensures k in KeySet(keys)
    {
      InRemovedFor(s.log, ids, k);
      var e :| 0 <= e < |s.log| && s.log[e].req in ids && k in Removed(s.log[e]);
      GroupWasNamed(s, c, f, keys, e, k);
    }
  }

  lemma GroupWasNamed(s: System, c: nat, f: nat, keys: seq<Key>, e: nat, k: Key)
    requires Inv(s) && Scatter(s, c, f, keys)
    requires e < |s.log| && s.log[e].req in s.conns[c].asked[f] && k in Removed(s.log[e])
    ensures k in KeySet(keys)
  {
    hide RouteKey, StoreOk, ConnsOk, RepliesOk, RequestsOk, AllFinal, Errors;
    var ids := s.conns[c].asked[f];
    var j :| 0 <= j < |ids| && ids[j] == s.log[e].req;
    assert EntryOk(s.requests, s.log[e]);
    GroupHolds(keys, s.requests[ids[j]].shard);
    assert k in KeySet(Group(keys, s.requests[ids[j]].shard));
  }

  // ---------- a scattered DEL that fails ----------

  /** What a request that brought no count adds to the answer. */
  function Failure(phase: Phase): seq<string> {
    match phase
    case Overloaded => ["ERR shard overloaded"]
    case Closed => ["ERR shard closed"]
    case TimedOut => ["ERR timeout"]
    case Disconnected => ["ERR disconnected"]
    case Answered(reply) => if reply.Error? then [reply.message] else []
    case _ => []
  }

  /** The failures of a frame's requests, in the order the requests were made. */
  ghost function Failures(requests: seq<Request>, ids: seq<nat>): seq<string>
    requires forall j :: 0 <= j < |ids| ==> ids[j] < |requests|
  {
    if ids == [] then []
    else Failures(requests, ids[..|ids| - 1]) + Failure(requests[ids[|ids| - 1]].phase)
  }

  lemma {:induction false} FailuresAreErrors(requests: seq<Request>, ids: seq<nat>)
    requires AllFinal(requests, ids)
    ensures Errors(Outcomes(requests, ids, true)) == Failures(requests, ids)
  {
    if ids != [] {
      var n := |ids| - 1;
      FailuresAreErrors(requests, ids[..n]);
      assert Outcomes(requests, ids, true)[..n] == Outcomes(requests, ids[..n], true);
    }
  }

  /** A DEL is answered with an error exactly when one of its requests failed, and the error holds all of the
      failures, in order. */
  lemma ScatteredDelFails(states: seq<System>, i: nat, c: nat, f: nat, keys: seq<Key>)
    requires IsBehaviour(states) && i < |states| && c < |states[i].conns|
    requires f < |states[i].conns[c].responses| && f < |states[i].conns[c].frames|
    requires states[i].conns[c].frames[f] == Decoded(Del(keys))
    ensures var s, conn := states[i], states[i].conns[c];
            && f < |conn.asked| && (forall j :: 0 <= j < |conn.asked[f]| ==> conn.asked[f][j] < |s.requests|)
            && var failures := Failures(s.requests, conn.asked[f]);
               if failures == [] then conn.responses[f].Integer?
               else conn.responses[f] == Error("ERR partial failure: " + Join(failures, ", "))
  {
    hide IsBehaviour, Failures, Errors;
    BehaviourKeepsInv(states, i);
    var s, conn := states[i], states[i].conns[c];
    hide RequestsOk, SentOk, RepliesOk, StoreOk, AskedFor;
    assert ConnOk(s.requests, c, conn);
    assert FrameOk(s.requests, c, conn, f);
    FailuresAreErrors(s.requests, conn.asked[f]);
  }
}
