/** frontend/handler.rs and shard/worker.rs together: connections, 64 shard queues, timeouts and replies, as
    a state machine over single steps. */
module Cluster {
  import opened Prelude
  import opened Messages
  import opened ShardSpec
  import opened ShardRuns
  import opened TtlMap
  import opened Router
  import opened Gathering

  /** Where one message to one shard stands: the two timeouts, the closed channel and the dropped oneshot
      are the ways it can end without an answer. */
  datatype Phase = Sending | Waiting | Answered(reply: Response) | Overloaded | Closed | TimedOut | Disconnected {
    predicate Final() {
      !Sending? && !Waiting?
    }

    /** The message went into the shard's queue. */
    predicate Sent() {
      !Sending? && !Overloaded? && !Closed?
    }
  }

  datatype Request = Request(conn: nat, frame: nat, shard: nat, command: Command, phase: Phase)

  /** A frame drawn from the socket, as Command::from_resp took it. */
  datatype Frame = Decoded(command: Command) | Rejected(error: string)

  /** asked[f] are the requests sent for frame f; responses are given to the writer task in order. */
  datatype Conn = Conn(frames: seq<Frame>, asked: seq<seq<nat>>, responses: seq<Response>,
                       written: nat, writerAlive: bool)

  /** History: a request's execution and the shard's map on both sides of it. */
  datatype Execution = Execution(req: nat, event: Event, before: map<Key, Entry>, after: map<Key, Entry>)

  datatype System = System(
    shards: seq<State>,
    open: seq<bool>,
    queues: seq<seq<nat>>,
    requests: seq<Request>,
    slots: map<nat, Response>,   // replies sitting in oneshot channels
    log: seq<Execution>,
    conns: seq<Conn>,
    now: Instant)

  ghost predicate Init(s: System) {
    && |s.shards| == |s.open| == |s.queues| == SHARD_COUNT
    && (forall i :: 0 <= i < SHARD_COUNT ==> s.shards[i] == New() && s.open[i] && s.queues[i] == [])
    && s.requests == [] && s.slots == map[] && s.log == [] && s.conns == []
  }

  // ---------- steps ----------

  datatype Action =
    | Accept
    | Begin(conn: nat, command: Command, order: seq<nat>)
    | Reject(conn: nat, error: string)
    | Enqueue(req: nat)
    | SendTimeout(req: nat)
    | SendClosed(req: nat)
    | Execute(shard: nat, at: Instant, report: Bytes)
    | Sweep(shard: nat, at: Instant)
    | Stop(shard: nat)
    | Receive(req: nat)
    | ReplyTimeout(req: nat)
    | ReplyDropped(req: nat)
    | Finish(conn: nat)
    | Write(conn: nat)
    | LoseWriter(conn: nat)

  /** The shard a request of one message goes to. */
  function Target(command: Command): nat {
    match command
    case Set(key, _, _) => RouteKey(key)
    case Get(key) => RouteKey(key)
    case Expire(key, _) => RouteKey(key)
    case Ttl(key) => RouteKey(key)
    case _ => 0
  }

  /** order lists the shards that hold keys of a DEL, each once, as the grouped map is iterated. */
  ghost predicate IsOrder(keys: seq<Key>, order: seq<nat>) {
    && (forall i, j :: 0 <= i < j < |order| ==> order[i] != order[j])
    && (forall i :: 0 <= i < |order| ==> order[i] < SHARD_COUNT && Group(keys, order[i]) != [])
    && (forall shard :: 0 <= shard < SHARD_COUNT && Group(keys, shard) != [] ==> shard in order)
  }

  /** The messages a command becomes. */
  function Asks(conn: nat, frame: nat, command: Command, order: seq<nat>): seq<Request> {
    if command.Del? then
      seq(|order|, i requires 0 <= i < |order| =>
        Request(conn, frame, order[i], Del(Group(command.keys, order[i])), Sending))
    else [Request(conn, frame, Target(command), command, Sending)]
  }

  /** The numbers of requests about to be added. */
  function NewIds(requests: seq<Request>, asks: seq<Request>): seq<nat> {
    seq(|asks|, i => |requests| + i)
  }

  /** What the handler makes of the end of one message. */
  function Outcome(phase: Phase, scattered: bool): Response
    requires phase.Final()
  {
    match phase
    case Answered(reply) => reply
    case Overloaded => Error("ERR shard overloaded")
    case Closed => Error(if scattered then "ERR shard closed" else "ERR shard channel closed")
    case TimedOut => Error(if scattered then "ERR timeout" else "ERR shard timeout")
    case Disconnected => Error(if scattered then "ERR disconnected" else "ERR shard disconnected")
  }

  ghost predicate AllFinal(requests: seq<Request>, ids: seq<nat>) {
    forall j :: 0 <= j < |ids| ==> ids[j] < |requests| && requests[ids[j]].phase.Final()
  }

  ghost function Outcomes(requests: seq<Request>, ids: seq<nat>, scattered: bool): seq<Response>
    requires AllFinal(requests, ids)
  {
    seq(|ids|, j requires 0 <= j < |ids| => Outcome(requests[ids[j]].phase, scattered))
  }

  ghost function Respond(requests: seq<Request>, ids: seq<nat>, command: Command): Response
    requires AllFinal(requests, ids) && (!command.Del? ==> |ids| == 1)
  {
    var outcomes := Outcomes(requests, ids, command.Del?);
    if command.Del? then Combine(outcomes) else outcomes[0]
  }

  /** The reader loop is between two frames. */
  predicate Idle(c: Conn) {
    |c.responses| == |c.frames|
  }

  function SetPhase(s: System, r: nat, phase: Phase): System
    requires r < |s.requests|
  {
    s.(requests := s.requests[r := s.requests[r].(phase := phase)])
  }

  ghost predicate Next(s: System, a: Action, t: System)
    requires |s.shards| == |s.open| == |s.queues| == SHARD_COUNT
  {
    match a
    case Accept => t == s.(conns := s.conns + [Conn([], [], [], 0, true)])
    case Begin(c, command, order) =>
      && c < |s.conns| && Idle(s.conns[c])
      && (command.Del? ==> IsOrder(command.keys, order))
      && var conn := s.conns[c];
         var asks := Asks(c, |conn.frames|, command, order);
         var ids := NewIds(s.requests, asks);
         t == s.(requests := s.requests + asks,
                 conns := s.conns[c := conn.(frames := conn.frames + [Decoded(command)], asked := conn.asked + [ids])])
    case Reject(c, error) =>
      && c < |s.conns| && Idle(s.conns[c])
      && var conn := s.conns[c];
         t == s.(conns := s.conns[c := conn.(frames := conn.frames + [Rejected(error)], asked := conn.asked + [[]],
                                             responses := conn.responses + [Response.Error(error)])])
    case Enqueue(r) =>
      && r < |s.requests| && s.requests[r].phase.Sending?
      && var shard := s.requests[r].shard;
         && shard < SHARD_COUNT && s.open[shard] && |s.queues[shard]| < COMMAND_CHANNEL_CAPACITY
         && t == SetPhase(s, r, Waiting).(queues := s.queues[shard := s.queues[shard] + [r]])
    case SendTimeout(r) =>
      r < |s.requests| && s.requests[r].phase.Sending? && t == SetPhase(s, r, Overloaded)
    case SendClosed(r) =>
      && r < |s.requests| && s.requests[r].phase.Sending?
      && s.requests[r].shard < SHARD_COUNT && !s.open[s.requests[r].shard]
      && t == SetPhase(s, r, Closed)
    case Execute(shard, at, report) =>
      && shard < SHARD_COUNT && s.open[shard] && s.queues[shard] != [] && s.now <= at
      && var r := s.queues[shard][0];
         && r < |s.requests|
         && var (post, reply) := ShardSpec.Execute(s.shards[shard], s.requests[r].command, at, report);
            var event := Ran(s.requests[r].command, at, report, reply);
            t == s.(shards := s.shards[shard := post],
                    queues := s.queues[shard := s.queues[shard][1..]],
                    slots := if s.requests[r].phase.Waiting? then s.slots[r := reply] else s.slots,
                    log := s.log + [Execution(r, event, s.shards[shard].data, post.data)],
                    now := at)
    case Sweep(shard, at) =>
      && shard < SHARD_COUNT && s.open[shard] && s.now <= at
      && |t.shards| == SHARD_COUNT && Swept(s.shards[shard], at, t.shards[shard])
      && t == s.(shards := s.shards[shard := t.shards[shard]], now := at)
    case Stop(shard) =>
      shard < SHARD_COUNT && t == s.(open := s.open[shard := false], queues := s.queues[shard := []])
    case Receive(r) =>
      && r < |s.requests| && s.requests[r].phase.Waiting? && r in s.slots
      && t == SetPhase(s, r, Answered(s.slots[r]))
    case ReplyTimeout(r) =>
      r < |s.requests| && s.requests[r].phase.Waiting? && t == SetPhase(s, r, TimedOut)
    case ReplyDropped(r) =>
      && r < |s.requests| && s.requests[r].phase.Waiting? && r !in s.slots
      && s.requests[r].shard < SHARD_COUNT && !s.open[s.requests[r].shard]
      && t == SetPhase(s, r, Disconnected)
    case Finish(c) =>
      && c < |s.conns|
      && var conn := s.conns[c];
         var f := |conn.responses|;
         && f < |conn.frames| && f < |conn.asked| && conn.frames[f].Decoded?
         && AllFinal(s.requests, conn.asked[f]) && (!conn.frames[f].command.Del? ==> |conn.asked[f]| == 1)
         && t == s.(conns := s.conns[c := conn.(responses :=
                      conn.responses + [Respond(s.requests, conn.asked[f], conn.frames[f].command)])])
    case Write(c) =>
      && c < |s.conns| && s.conns[c].writerAlive && s.conns[c].written < |s.conns[c].responses|
      && t == s.(conns := s.conns[c := s.conns[c].(written := s.conns[c].written + 1)])
    case LoseWriter(c) =>
      c < |s.conns| && t == s.(conns := s.conns[c := s.conns[c].(writerAlive := false)])
  }

  // ---------- what every step keeps ----------

  ghost predicate Shape(s: System) {
    |s.shards| == |s.open| == |s.queues| == SHARD_COUNT
  }

  /** Requests are made frame after frame; within a frame they go to different shards; a frame that has its
      response has no request left open; every key is on the shard that route_key names. */
  ghost predicate RequestsOk(requests: seq<Request>, conns: seq<Conn>) {
    && (forall r :: 0 <= r < |requests| ==>
          && requests[r].conn < |conns|
          && requests[r].frame < |conns[requests[r].conn].frames|
          && requests[r].shard < SHARD_COUNT
          && Listed(conns[requests[r].conn], requests[r].frame, r)
          && (requests[r].frame < |conns[requests[r].conn].responses| ==> requests[r].phase.Final()))
    && (forall r :: 0 <= r < |requests| ==> RoutedTo(requests[r].command, requests[r].shard))
    && (forall r, q :: 0 <= r < q < |requests| && SameLane(requests, r, q) ==> requests[r].frame < requests[q].frame)
  }

  predicate Listed(c: Conn, frame: nat, r: nat) {
    frame < |c.asked| && r in c.asked[frame]
  }

  /** The shard of all its keys; commands without keys go to the first shard. */
  predicate RoutedTo(command: Command, shard: nat) {
    && (forall k :: k in command.Keys() ==> RouteKey(k) == shard)
    && (command.Ping? || command.Info? ==> shard == 0)
  }

  /** Two requests of one connection to one shard. */
  predicate SameLane(requests: seq<Request>, r: nat, q: nat)
    requires r < |requests| && q < |requests|
  {
    requests[r].conn == requests[q].conn && requests[r].shard == requests[q].shard
  }

  /** r is ahead of q: a different request and, in the same lane, an earlier one. */
  predicate Ahead(requests: seq<Request>, r: nat, q: nat) {
    && r < |requests| && q < |requests| && r != q
    && (SameLane(requests, r, q) ==> r < q)
  }

  /** Queues and log hold requests that were sent, each once, each lane in order. */
  ghost predicate SentOk(requests: seq<Request>, queues: seq<seq<nat>>, log: seq<Execution>) {
    && (forall i, p :: 0 <= i < |queues| && 0 <= p < |queues[i]| ==>
          InQueue(requests, queues[i][p], i))
    && (forall i, p, q :: 0 <= i < |queues| && 0 <= p < q < |queues[i]| ==>
          Ahead(requests, queues[i][p], queues[i][q]))
    && (forall i, p, e :: 0 <= i < |queues| && 0 <= p < |queues[i]| && 0 <= e < |log| ==>
          Ahead(requests, log[e].req, queues[i][p]))
    && LogOk(requests, log)
    && (forall d, e :: 0 <= d < e < |log| ==> Ahead(requests, log[d].req, log[e].req))
  }

  predicate InQueue(requests: seq<Request>, r: nat, shard: nat) {
    r < |requests| && requests[r].phase.Sent() && requests[r].shard == shard
  }

  ghost predicate LogOk(requests: seq<Request>, log: seq<Execution>) {
    forall e :: 0 <= e < |log| ==> EntryOk(requests, log[e])
  }

  ghost predicate EntryOk(requests: seq<Request>, entry: Execution) {
    && entry.req < |requests| && requests[entry.req].phase.Sent()
    && entry.event.Ran? && entry.event.command == requests[entry.req].command
    && (entry.event.command.Del? ==>
          && entry.after == entry.before - KeySet(entry.event.command.keys)
          && entry.event.reply == Integer(|entry.before.Keys - entry.after.Keys|))
  }

  /** The request was executed, with that reply. */
  ghost predicate ExecutedAs(log: seq<Execution>, r: nat, reply: Response) {
    exists e :: 0 <= e < |log| && log[e].req == r && log[e].event.Ran? && log[e].event.reply == reply
  }

  ghost predicate RepliesOk(requests: seq<Request>, slots: map<nat, Response>, log: seq<Execution>) {
    && (forall r :: r in slots ==> ExecutedAs(log, r, slots[r]))
    && (forall r :: 0 <= r < |requests| && requests[r].phase.Answered? ==> ExecutedAs(log, r, requests[r].phase.reply))
  }

  /** The requests of one frame are those its command asks for. */
  ghost predicate AskedFor(requests: seq<Request>, ids: seq<nat>, conn: nat, frame: nat, command: Command) {
    && (forall j :: 0 <= j < |ids| ==>
          ids[j] < |requests| && requests[ids[j]].conn == conn && requests[ids[j]].frame == frame)
    && (forall i, j :: 0 <= i < j < |ids| ==> ids[i] < ids[j])
    && (!command.Del? ==> |ids| == 1 && requests[ids[0]].command == command)
    && (command.Del? ==>
          && (forall j :: 0 <= j < |ids| ==>
                requests[ids[j]].command == Del(Group(command.keys, requests[ids[j]].shard)))
          && (forall shard :: 0 <= shard < SHARD_COUNT && Group(command.keys, shard) != [] ==>
                exists j :: 0 <= j < |ids| && requests[ids[j]].shard == shard))
  }

  ghost predicate FrameOk(requests: seq<Request>, conn: nat, c: Conn, f: nat)
    requires f < |c.frames| == |c.asked|
  {
    match c.frames[f]
    case Decoded(command) =>
      && AskedFor(requests, c.asked[f], conn, f, command)
      && (f < |c.responses| ==>
            AllFinal(requests, c.asked[f]) && c.responses[f] == Respond(requests, c.asked[f], command))
    case Rejected(error) =>
      f < |c.responses| && c.responses[f] == Response.Error(error)
  }

  ghost predicate ConnOk(requests: seq<Request>, conn: nat, c: Conn) {
    && |c.frames| == |c.asked|
    && c.written <= |c.responses| <= |c.frames| <= |c.responses| + 1
    && (forall f :: 0 <= f < |c.frames| ==> FrameOk(requests, conn, c, f))
  }

  ghost predicate ConnsOk(requests: seq<Request>, conns: seq<Conn>) {
    forall c :: 0 <= c < |conns| ==> ConnOk(requests, c, conns[c])
  }

  // The store: one plain map, of which each shard holds the part that is routed to it.

  ghost function ReplayLog(log: seq<Execution>): Plain {
    if log == [] then map[] else TtlMap.Next(ReplayLog(log[..|log| - 1]), log[|log| - 1].event)
  }

  ghost function KeysOf(shard: nat): iset<Key> {
    iset k: Key | RouteKey(k) == shard
  }

  ghost predicate StoreOk(shards: seq<State>, log: seq<Execution>, now: Instant) {
    && (forall i :: 0 <= i < |shards| ==> Simulates(shards[i].data, ReplayLog(log), KeysOf(i), now))
    && (forall e :: 0 <= e < |log| ==> Answers(ReplayLog(log[..e]), log[e].event))
  }

  ghost predicate Inv(s: System) {
    && Shape(s)
    && RequestsOk(s.requests, s.conns)
    && SentOk(s.requests, s.queues, s.log)
    && RepliesOk(s.requests, s.slots, s.log)
    && ConnsOk(s.requests, s.conns)
    && StoreOk(s.shards, s.log, s.now)
  }

  // ---------- steps that move one request on ----------

  ghost predicate Moves(requests: seq<Request>, r: nat, phase: Phase) {
    && r < |requests| && !requests[r].phase.Final()
    && (requests[r].phase.Sent() ==> phase.Sent())
  }

  lemma MoveKeepsRequests(requests: seq<Request>, conns: seq<Conn>, r: nat, phase: Phase)
    requires RequestsOk(requests, conns) && Moves(requests, r, phase)
    ensures RequestsOk(requests[r := requests[r].(phase := phase)], conns)
  {
    hide RoutedTo;
    var moved := requests[r := requests[r].(phase := phase)];
    forall q, p | 0 <= q < p < |moved| && SameLane(moved, q, p)
      ensures moved[q].frame < moved[p].frame
    {
      assert SameLane(requests, q, p);
    }
  }

  lemma MoveKeepsSent(requests: seq<Request>, queues: seq<seq<nat>>, log: seq<Execution>, r: nat, phase: Phase)
    requires SentOk(requests, queues, log) && Moves(requests, r, phase)
    ensures SentOk(requests[r := requests[r].(phase := phase)], queues, log)
  {
    var moved := requests[r := requests[r].(phase := phase)];
    assert forall p, q :: Ahead(requests, p, q) ==> Ahead(moved, p, q);
    assert forall p, i :: InQueue(requests, p, i) ==> InQueue(moved, p, i);
    forall e | 0 <= e < |log| ensures EntryOk(moved, log[e]) {
      assert EntryOk(requests, log[e]);
    }
  }

  lemma MoveKeepsConns(requests: seq<Request>, conns: seq<Conn>, r: nat, phase: Phase)
    requires ConnsOk(requests, conns) && Moves(requests, r, phase)
    ensures ConnsOk(requests[r := requests[r].(phase := phase)], conns)
  {
    hide Combine;
    var moved := requests[r := requests[r].(phase := phase)];
    forall c, f | 0 <= c < |conns| && 0 <= f < |conns[c].frames|
      ensures |conns[c].frames| == |conns[c].asked| && FrameOk(moved, c, conns[c], f)
    {
      assert ConnOk(requests, c, conns[c]);
      MoveKeepsFrame(requests, c, conns[c], f, r, phase);
    }
    forall c | 0 <= c < |conns| ensures ConnOk(moved, c, conns[c]) {
      assert ConnOk(requests, c, conns[c]);
    }
  }

  lemma MoveKeepsFrame(requests: seq<Request>, conn: nat, c: Conn, f: nat, r: nat, phase: Phase)
    requires f < |c.frames| == |c.asked| && FrameOk(requests, conn, c, f) && Moves(requests, r, phase)
    ensures FrameOk(requests[r := requests[r].(phase := phase)], conn, c, f)
  {
    var moved := requests[r := requests[r].(phase := phase)];
    if c.frames[f].Decoded? && f < |c.responses| {
      var ids, scattered := c.asked[f], c.frames[f].command.Del?;
      assert forall j :: 0 <= j < |ids| ==> ids[j] != r;
      assert Outcomes(moved, ids, scattered) == Outcomes(requests, ids, scattered);
    }
  }

  lemma MoveKeepsReplies(requests: seq<Request>, slots: map<nat, Response>, log: seq<Execution>, r: nat, phase: Phase)
    requires RepliesOk(requests, slots, log) && Moves(requests, r, phase)
    requires phase.Answered? ==> r in slots && phase.reply == slots[r]
    ensures RepliesOk(requests[r := requests[r].(phase := phase)], slots, log)
  {
    hide ExecutedAs;
  }

  lemma MoveKeepsInv(s: System, r: nat, phase: Phase)
    requires Inv(s) && Moves(s.requests, r, phase)
    requires phase.Answered? ==> r in s.slots && phase.reply == s.slots[r]
    ensures Inv(SetPhase(s, r, phase))
  {
    hide RequestsOk, SentOk, RepliesOk, ConnsOk, StoreOk;
    MoveKeepsRequests(s.requests, s.conns, r, phase);
    MoveKeepsSent(s.requests, s.queues, s.log, r, phase);
    MoveKeepsConns(s.requests, s.conns, r, phase);
    MoveKeepsReplies(s.requests, s.slots, s.log, r, phase);
  }

  // ---------- a message enters its queue ----------

  /** Why order survives timeouts: whoever is still sending is in its connection's newest frame. */
  lemma SenderIsNewest(s: System, r: nat, q: nat)
    requires RequestsOk(s.requests, s.conns) && ConnsOk(s.requests, s.conns)
    requires r < |s.requests| && q < |s.requests| && r != q && !s.requests[r].phase.Final()
    ensures SameLane(s.requests, q, r) ==> q < r
  {
    if SameLane(s.requests, q, r) && r < q {
      var c := s.requests[r].conn;
      assert ConnOk(s.requests, c, s.conns[c]);
      assert SameLane(s.requests, r, q);
      assert false;
    }
  }

  lemma EnqueueKeepsSent(s: System, r: nat)
    requires Shape(s) && RequestsOk(s.requests, s.conns) && ConnsOk(s.requests, s.conns)
    requires SentOk(s.requests, s.queues, s.log)
    requires r < |s.requests| && s.requests[r].phase.Sending? && s.requests[r].shard < SHARD_COUNT
    ensures var shard := s.requests[r].shard;
            SentOk(s.requests[r := s.requests[r].(phase := Waiting)],
                   s.queues[shard := s.queues[shard] + [r]], s.log)
  {
    var shard := s.requests[r].shard;
    var moved := s.requests[r := s.requests[r].(phase := Waiting)];
    var queues := s.queues[shard := s.queues[shard] + [r]];
    forall q: nat | q < |s.requests| && s.requests[q].phase.Sent()
      ensures Ahead(moved, q, r)
    {
      SenderIsNewest(s, r, q);
    }
    MoveKeepsSent(s.requests, s.queues, s.log, r, Waiting);
    forall e | 0 <= e < |s.log| ensures Ahead(moved, s.log[e].req, r) {
      assert EntryOk(s.requests, s.log[e]);
    }
    forall p | 0 <= p < |s.queues[shard]| ensures Ahead(moved, s.queues[shard][p], r) {
      assert InQueue(s.requests, s.queues[shard][p], shard);
    }
    hide Ahead, LogOk, RequestsOk, ConnsOk;
    PushKeepsSent(moved, s.queues, s.log, shard, r);
  }

  lemma PushKeepsSent(requests: seq<Request>, queues: seq<seq<nat>>, log: seq<Execution>, shard: nat, r: nat)
    requires shard < |queues| && SentOk(requests, queues, log) && InQueue(requests, r, shard)
    requires forall e :: 0 <= e < |log| ==> Ahead(requests, log[e].req, r)
    requires forall p :: 0 <= p < |queues[shard]| ==> Ahead(requests, queues[shard][p], r)
    ensures SentOk(requests, queues[shard := queues[shard] + [r]], log)
  {
    hide Ahead, InQueue, LogOk;
    var pushed := queues[shard := queues[shard] + [r]];
    forall i, p | 0 <= i < |pushed| && 0 <= p < |pushed[i]|
      ensures InQueue(requests, pushed[i][p], i)
    {
      assert (i == shard && p == |queues[shard]|) || pushed[i][p] == queues[i][p];
    }
    forall i, p, q | 0 <= i < |pushed| && 0 <= p < q < |pushed[i]|
      ensures Ahead(requests, pushed[i][p], pushed[i][q])
    {
      assert pushed[i][p] == queues[i][p];
    }
  }

  // ---------- the worker takes a message ----------

  lemma ExecuteKeepsSent(requests: seq<Request>, queues: seq<seq<nat>>, log: seq<Execution>,
                         shard: nat, entry: Execution)
    requires SentOk(requests, queues, log) && shard < |queues| && queues[shard] != []
    requires entry.req == queues[shard][0] && EntryOk(requests, entry)
    ensures SentOk(requests, queues[shard := queues[shard][1..]], log + [entry])
  {
    hide Ahead, InQueue, EntryOk;
    var popped := queues[shard := queues[shard][1..]];
    var longer := log + [entry];
    forall i, p | 0 <= i < |popped| && 0 <= p < |popped[i]|
      ensures InQueue(requests, popped[i][p], i)
    {
      assert popped[i][p] == if i == shard then queues[i][p + 1] else queues[i][p];
    }
    forall i, p, q | 0 <= i < |popped| && 0 <= p < q < |popped[i]|
      ensures Ahead(requests, popped[i][p], popped[i][q])
    {
      if i == shard {
        assert popped[i][p] == queues[i][p + 1] && popped[i][q] == queues[i][q + 1];
      }
    }
    forall i, p, e | 0 <= i < |popped| && 0 <= p < |popped[i]| && 0 <= e < |longer|
      ensures Ahead(requests, longer[e].req, popped[i][p])
    {
      var at := if i == shard then p + 1 else p;
      assert popped[i][p] == queues[i][at];
      if e == |log| {
        HeadIsAhead(requests, queues, shard, i, at);
      } else {
        assert longer[e] == log[e];
      }
    }
    forall d, e | 0 <= d < e < |longer|
      ensures Ahead(requests, longer[d].req, longer[e].req)
    {
      assert longer[d] == log[d];
    }
  }

  /** The head of a queue is ahead of everything else queued anywhere. */
  lemma HeadIsAhead(requests: seq<Request>, queues: seq<seq<nat>>, shard: nat, i: nat, p: nat)
    requires forall i, p :: 0 <= i < |queues| && 0 <= p < |queues[i]| ==> InQueue(requests, queues[i][p], i)
    requires forall i, p, q :: 0 <= i < |queues| && 0 <= p < q < |queues[i]| ==>
               Ahead(requests, queues[i][p], queues[i][q])
    requires shard < |queues| && queues[shard] != [] && i < |queues| && p < |queues[i]| && (i == shard ==> p > 0)
    ensures Ahead(requests, queues[shard][0], queues[i][p])
  {
    assert InQueue(requests, queues[shard][0], shard);
    assert InQueue(requests, queues[i][p], i);
  }

  /** What the log records of a DEL. */
  lemma DelIsLogged(s: State, command: Command, at: Instant, report: Bytes)
    requires command.Del?
    ensures var (t, reply) := ShardSpec.Execute(s, command, at, report);
            && t.data == s.data - KeySet(command.keys)
            && reply == Integer(|s.data.Keys - t.data.Keys|)
  {
    hide CmdDel;
    DelRemoves(s, command.keys);
    DelCountsKeys(s, command.keys);
    var t := CmdDel(s, command.keys).0;
    assert s.data.Keys - t.data.Keys == set k | k in command.keys && k in s.data;
  }

  lemma LongerLog(log: seq<Execution>, entry: Execution, r: nat, reply: Response)
    requires ExecutedAs(log, r, reply) || (entry.req == r && entry.event.Ran? && entry.event.reply == reply)
    ensures ExecutedAs(log + [entry], r, reply)
  {
    var longer := log + [entry];
    if ExecutedAs(log, r, reply) {
      var e :| 0 <= e < |log| && log[e].req == r && log[e].event.Ran? && log[e].event.reply == reply;
      assert longer[e] == log[e];
    } else {
      assert longer[|log|] == entry;
    }
  }

  lemma ExecuteKeepsReplies(requests: seq<Request>, slots: map<nat, Response>, log: seq<Execution>, entry: Execution)
    requires RepliesOk(requests, slots, log) && entry.event.Ran?
    ensures RepliesOk(requests, slots, log + [entry])
    ensures RepliesOk(requests, slots[entry.req := entry.event.reply], log + [entry])
  {
    forall r, reply | ExecutedAs(log, r, reply) || (entry.req == r && entry.event.reply == reply)
      ensures ExecutedAs(log + [entry], r, reply)
    {
      LongerLog(log, entry, r, reply);
    }
    hide ExecutedAs;
  }

  lemma SimulatesElsewhere(data: map<Key, Entry>, m: Plain, shard: nat, now: Instant, event: Event, at: Instant)
    requires Simulates(data, m, KeysOf(shard), now) && now <= at
    requires event.Ran? ==> forall k :: k in event.command.Keys() ==> RouteKey(k) != shard
    ensures Simulates(data, TtlMap.Next(m, event), KeysOf(shard), at)
  {
    hide RouteKey;
    SimulatesLater(data, m, KeysOf(shard), now, at);
    assert forall k :: k in KeysOf(shard) ==> (k in m <==> k in TtlMap.Next(m, event));
    assert forall k :: k in KeysOf(shard) && k in m ==> TtlMap.Next(m, event)[k] == m[k];
  }

  /** One execution on one shard is one step of the one plain map. */
  lemma ExecuteKeepsStore(shards: seq<State>, log: seq<Execution>, now: Instant,
                          shard: nat, post: State, entry: Execution)
    requires StoreOk(shards, log, now) && shard < |shards|
    requires entry.event.Ran? && now <= entry.event.now && RoutedTo(entry.event.command, shard)
    requires Step(shards[shard], entry.event, post)
    ensures StoreOk(shards[shard := post], log + [entry], entry.event.now)
  {
    hide RouteKey, TtlMap.Next, Answers, Simulates, Step;
    var m := ReplayLog(log);
    var longer := log + [entry];
    assert longer[..|log|] == log;
    assert InScope(entry.event, KeysOf(shard));
    StepRefines(shards[shard], entry.event, post, m, KeysOf(shard), now);
    forall i | 0 <= i < |shards| && i != shard
      ensures Simulates(shards[i].data, TtlMap.Next(m, entry.event), KeysOf(i), entry.event.now)
    {
      SimulatesElsewhere(shards[i].data, m, i, now, entry.event, entry.event.now);
    }
    forall e | 0 <= e < |longer|
      ensures Answers(ReplayLog(longer[..e]), longer[e].event)
    {
      if e < |log| {
        assert longer[..e] == log[..e] && longer[e] == log[e];
      }
    }
  }

  lemma SweepKeepsStore(shards: seq<State>, log: seq<Execution>, now: Instant, shard: nat, post: State, at: Instant)
    requires StoreOk(shards, log, now) && shard < |shards| && now <= at && Swept(shards[shard], at, post)
    ensures StoreOk(shards[shard := post], log, at)
  {
    hide Simulates, Answers, ReplayLog, Swept;
    TickRefines(shards[shard], at, post, ReplayLog(log), KeysOf(shard), now);
    forall i | 0 <= i < |shards| && i != shard
      ensures Simulates(shards[i].data, ReplayLog(log), KeysOf(i), at)
    {
      SimulatesLater(shards[i].data, ReplayLog(log), KeysOf(i), now, at);
    }
  }

  lemma ExecuteKeepsInv(s: System, shard: nat, at: Instant, report: Bytes, t: System)
    requires Inv(s) && Next(s, Execute(shard, at, report), t)
    ensures Inv(t)
  {
    var r := s.queues[shard][0];
    var command := s.requests[r].command;
    var (post, reply) := ShardSpec.Execute(s.shards[shard], command, at, report);
    var entry := Execution(r, Ran(command, at, report, reply), s.shards[shard].data, post.data);
    assert InQueue(s.requests, r, shard);
    assert RoutedTo(command, shard);
    assert EntryOk(s.requests, entry) by {
      hide ShardSpec.Execute;
      if command.Del? {
        DelIsLogged(s.shards[shard], command, at, report);
      }
    }
    hide ShardSpec.Execute, RequestsOk, SentOk, RepliesOk, ConnsOk, StoreOk, RoutedTo, EntryOk;
    ExecuteKeepsSent(s.requests, s.queues, s.log, shard, entry);
    ExecuteKeepsReplies(s.requests, s.slots, s.log, entry);
    ExecuteKeepsStore(s.shards, s.log, s.now, shard, post, entry);
  }

  lemma SweepKeepsInv(s: System, shard: nat, at: Instant, t: System)
    requires Inv(s) && Next(s, Sweep(shard, at), t)
    ensures Inv(t)
  {
    hide RequestsOk, SentOk, RepliesOk, ConnsOk, StoreOk, Swept;
    SweepKeepsStore(s.shards, s.log, s.now, shard, t.shards[shard], at);
  }

  lemma StopKeepsInv(s: System, shard: nat, t: System)
    requires Inv(s) && Next(s, Stop(shard), t)
    ensures Inv(t)
  {
    hide RequestsOk, RepliesOk, ConnsOk, StoreOk, Ahead, InQueue, LogOk;
    assert t.queues[shard] == [] && forall i :: 0 <= i < |t.queues| && i != shard ==> t.queues[i] == s.queues[i];
    assert SentOk(t.requests, t.queues, t.log);
  }

  // ---------- a frame begins ----------

  lemma GroupIsRouted(keys: seq<Key>, shard: nat)
    ensures RoutedTo(Del(Group(keys, shard)), shard)
  {
    GroupHolds(keys, shard);
    assert Del(Group(keys, shard)).Keys() == KeySet(Group(keys, shard));
  }

  lemma AsksAreRouted(conn: nat, frame: nat, command: Command, order: seq<nat>)
    requires command.Del? ==> IsOrder(command.keys, order)
    ensures forall a :: a in Asks(conn, frame, command, order) ==>
              a.shard < SHARD_COUNT && RoutedTo(a.command, a.shard)
  {
    var asks := Asks(conn, frame, command, order);
    forall i | 0 <= i < |asks|
      ensures asks[i].shard < SHARD_COUNT && RoutedTo(asks[i].command, asks[i].shard)
    {
      if command.Del? {
        GroupIsRouted(command.keys, order[i]);
      }
    }
  }

  lemma BeginKeepsRequests(requests: seq<Request>, conns: seq<Conn>, c: nat, command: Command, order: seq<nat>,
                           begun: Conn)
    requires RequestsOk(requests, conns) && c < |conns| && Idle(conns[c])
    requires command.Del? ==> IsOrder(command.keys, order)
    requires |begun.frames| == |conns[c].frames| + 1 && begun.responses == conns[c].responses
    requires |conns[c].asked| == |conns[c].frames|
    requires begun.asked == conns[c].asked + [NewIds(requests, Asks(c, |conns[c].frames|, command, order))]
    ensures RequestsOk(requests + Asks(c, |conns[c].frames|, command, order), conns[c := begun])
  {
    hide RoutedTo, Target;
    var asks := Asks(c, |conns[c].frames|, command, order);
    var all := requests + asks;
    AsksAreRouted(c, |conns[c].frames|, command, order);
    var ids := NewIds(requests, asks);
    forall r | 0 <= r < |all|
      ensures RoutedTo(all[r].command, all[r].shard) && all[r].shard < SHARD_COUNT
      ensures r >= |requests| ==> Listed(begun, all[r].frame, r)
      ensures r < |requests| ==> Listed(conns[c := begun][all[r].conn], all[r].frame, r)
    {
      if r >= |requests| {
        assert all[r] == asks[r - |requests|];
        assert asks[r - |requests|] in asks;
        assert ids[r - |requests|] == r;
      } else {
        assert Listed(conns[requests[r].conn], requests[r].frame, r);
      }
    }
    forall r, q | 0 <= r < q < |all| && SameLane(all, r, q)
      ensures all[r].frame < all[q].frame
    {
      if q < |requests| {
        assert SameLane(requests, r, q);
      } else {
        assert all[q] == asks[q - |requests|];
      }
    }
  }

  lemma GrowthKeepsSent(requests: seq<Request>, more: seq<Request>, queues: seq<seq<nat>>, log: seq<Execution>)
    requires SentOk(requests, queues, log)
    ensures SentOk(requests + more, queues, log)
  {
    var all := requests + more;
    assert forall p, q :: Ahead(requests, p, q) ==> Ahead(all, p, q);
    assert forall p, i :: InQueue(requests, p, i) ==> InQueue(all, p, i);
    forall e | 0 <= e < |log| ensures EntryOk(all, log[e]) {
      assert EntryOk(requests, log[e]);
    }
  }

  lemma GrowthKeepsReplies(requests: seq<Request>, more: seq<Request>, slots: map<nat, Response>, log: seq<Execution>)
    requires RepliesOk(requests, slots, log)
    requires forall a :: a in more ==> a.phase.Sending?
    ensures RepliesOk(requests + more, slots, log)
  {
    hide ExecutedAs;
    var all := requests + more;
    assert forall r :: |requests| <= r < |all| ==> all[r] in more;
  }

  lemma GrowthKeepsFrame(requests: seq<Request>, more: seq<Request>, conn: nat, c: Conn, f: nat)
    requires f < |c.frames| == |c.asked| && FrameOk(requests, conn, c, f)
    ensures FrameOk(requests + more, conn, c, f)
  {
    var all := requests + more;
    if c.frames[f].Decoded? {
      var ids, command := c.asked[f], c.frames[f].command;
      assert forall j :: 0 <= j < |ids| ==> all[ids[j]] == requests[ids[j]];
      if f < |c.responses| {
        assert Outcomes(all, ids, command.Del?) == Outcomes(requests, ids, command.Del?);
      }
    }
  }

  lemma NewIdsNameAsks(requests: seq<Request>, asks: seq<Request>)
    ensures var ids, all := NewIds(requests, asks), requests + asks;
            && |ids| == |asks|
            && (forall j :: 0 <= j < |ids| ==> ids[j] < |all| && all[ids[j]] == asks[j])
            && (forall i, j :: 0 <= i < j < |ids| ==> ids[i] < ids[j])
  {
  }

  lemma NewFrameIsAsked(requests: seq<Request>, conn: nat, frame: nat, command: Command, order: seq<nat>)
    requires command.Del? ==> IsOrder(command.keys, order)
    ensures var asks := Asks(conn, frame, command, order);
            AskedFor(requests + asks, NewIds(requests, asks), conn, frame, command)
  {
    var asks := Asks(conn, frame, command, order);
    var ids := NewIds(requests, asks);
    var all := requests + asks;
    NewIdsNameAsks(requests, asks);
    hide Group, Target, NewIds;
    if command.Del? {
      forall shard | 0 <= shard < SHARD_COUNT && Group(command.keys, shard) != []
        ensures exists j :: 0 <= j < |ids| && all[ids[j]].shard == shard
      {
        var j :| 0 <= j < |order| && order[j] == shard;
        assert all[ids[j]] == asks[j];
      }
    }
  }

  lemma BeginKeepsConns(requests: seq<Request>, conns: seq<Conn>, c: nat, command: Command, order: seq<nat>)
    requires ConnsOk(requests, conns) && c < |conns| && Idle(conns[c])
    requires command.Del? ==> IsOrder(command.keys, order)
    ensures var asks := Asks(c, |conns[c].frames|, command, order);
            var ids := NewIds(requests, asks);
            ConnsOk(requests + asks, conns[c := conns[c].(frames := conns[c].frames + [Decoded(command)],
                                                          asked := conns[c].asked + [ids])])
  {
    var asks := Asks(c, |conns[c].frames|, command, order);
    var ids := NewIds(requests, asks);
    var all := requests + asks;
    var begun := conns[c].(frames := conns[c].frames + [Decoded(command)], asked := conns[c].asked + [ids]);
    NewFrameIsAsked(requests, c, |conns[c].frames|, command, order);
    hide Asks, AskedFor, Respond, AllFinal, NewIds;
    forall d | 0 <= d < |conns|
      ensures ConnOk(all, d, if d == c then begun else conns[d])
    {
      assert ConnOk(requests, d, conns[d]);
      forall f | 0 <= f < |conns[d].frames| ensures FrameOk(all, d, conns[d], f) {
        GrowthKeepsFrame(requests, asks, d, conns[d], f);
      }
      if d == c {
        forall f | 0 <= f < |begun.frames| ensures FrameOk(all, c, begun, f) {
          if f < |conns[c].frames| {
            assert FrameOk(all, c, conns[c], f);
          }
        }
      }
    }
  }

  lemma BeginKeepsInv(s: System, c: nat, command: Command, order: seq<nat>, t: System)
    requires Inv(s) && Next(s, Begin(c, command, order), t)
    ensures Inv(t)
  {
    var asks := Asks(c, |s.conns[c].frames|, command, order);
    assert forall a :: a in asks ==> a.phase.Sending?;
    assert ConnOk(s.requests, c, s.conns[c]);
    hide RequestsOk, SentOk, RepliesOk, ConnsOk, StoreOk, Asks, IsOrder, NewIds;
    BeginKeepsRequests(s.requests, s.conns, c, command, order, t.conns[c]);
    GrowthKeepsSent(s.requests, asks, s.queues, s.log);
    GrowthKeepsReplies(s.requests, asks, s.slots, s.log);
    BeginKeepsConns(s.requests, s.conns, c, command, order);
  }

  // ---------- steps of one connection ----------

  /** A connection that kept its frames, its requests and its responses, and perhaps gained one of each. */
  ghost predicate Extends(c: Conn, d: Conn) {
    && |d.frames| == |d.asked|
    && c.frames <= d.frames && c.asked <= d.asked && c.responses <= d.responses
  }

  lemma ConnStepKeepsRequests(requests: seq<Request>, conns: seq<Conn>, c: nat, d: Conn)
    requires RequestsOk(requests, conns) && ConnsOk(requests, conns) && c < |conns| && Extends(conns[c], d)
    requires |d.responses| > |conns[c].responses| ==>
               |d.responses| == |conns[c].responses| + 1 &&
               (|conns[c].responses| == |conns[c].frames| || FrameIsClosed(requests, c, |conns[c].responses|))
    ensures RequestsOk(requests, conns[c := d])
  {
    hide RoutedTo;
    var stepped := conns[c := d];
    forall r | 0 <= r < |requests|
      ensures requests[r].frame < |stepped[requests[r].conn].responses| ==> requests[r].phase.Final()
      ensures Listed(stepped[requests[r].conn], requests[r].frame, r)
    {
      assert Listed(conns[requests[r].conn], requests[r].frame, r);
      if requests[r].conn == c && requests[r].frame >= |conns[c].responses| {
        assert ConnOk(requests, c, conns[c]);
      }
    }
  }

  ghost predicate FrameIsClosed(requests: seq<Request>, c: nat, f: nat) {
    forall r :: 0 <= r < |requests| && requests[r].conn == c && requests[r].frame == f ==> requests[r].phase.Final()
  }

  lemma ConnStepKeepsConns(requests: seq<Request>, conns: seq<Conn>, c: nat, d: Conn)
    requires ConnsOk(requests, conns) && c < |conns| && Extends(conns[c], d)
    requires d.written <= |d.responses| <= |d.frames| <= |d.responses| + 1
    requires |d.responses| <= |conns[c].responses| + 1
    requires forall f :: |conns[c].responses| <= f < |d.frames| ==> FrameOk(requests, c, d, f)
    ensures ConnsOk(requests, conns[c := d])
  {
    hide AskedFor, Respond, AllFinal;
    assert ConnOk(requests, c, conns[c]);
    forall f | 0 <= f < |d.frames| ensures FrameOk(requests, c, d, f) {
      if f < |conns[c].responses| {
        assert FrameOk(requests, c, conns[c], f);
      }
    }
  }

  lemma FinishClosesFrame(requests: seq<Request>, conns: seq<Conn>, c: nat, f: nat)
    requires RequestsOk(requests, conns) && c < |conns| && f < |conns[c].asked|
    requires AllFinal(requests, conns[c].asked[f])
    ensures FrameIsClosed(requests, c, f)
  {
    forall r | 0 <= r < |requests| && requests[r].conn == c && requests[r].frame == f
      ensures requests[r].phase.Final()
    {
      assert Listed(conns[c], f, r);
    }
  }

  lemma ConnStepKeepsInv(s: System, c: nat, d: Conn, t: System)
    requires Inv(s) && c < |s.conns| && t == s.(conns := s.conns[c := d]) && Extends(s.conns[c], d)
    requires d.written <= |d.responses| <= |d.frames| <= |d.responses| + 1
    requires |d.responses| <= |s.conns[c].responses| + 1
    requires |d.responses| > |s.conns[c].responses| ==>
               |s.conns[c].responses| == |s.conns[c].frames| || FrameIsClosed(s.requests, c, |s.conns[c].responses|)
    requires forall f :: |s.conns[c].responses| <= f < |d.frames| ==> FrameOk(s.requests, c, d, f)
    ensures Inv(t)
  {
    hide RequestsOk, SentOk, RepliesOk, ConnsOk, StoreOk, Extends, FrameOk, FrameIsClosed;
    ConnStepKeepsRequests(s.requests, s.conns, c, d);
    ConnStepKeepsConns(s.requests, s.conns, c, d);
  }

  lemma FinishedFrameIsOk(requests: seq<Request>, c: nat, conn: Conn, d: Conn)
    requires ConnOk(requests, c, conn)
    requires var f := |conn.responses|;
             && f < |conn.frames| && conn.frames[f].Decoded? && AllFinal(requests, conn.asked[f])
             && (!conn.frames[f].command.Del? ==> |conn.asked[f]| == 1)
             && d == conn.(responses := conn.responses + [Respond(requests, conn.asked[f], conn.frames[f].command)])
    ensures |d.frames| == |d.asked| && |d.responses| == |d.frames| && d.written <= |d.responses|
    ensures FrameOk(requests, c, d, |conn.responses|) && Extends(conn, d)
  {
    hide AskedFor, Respond, AllFinal;
    assert FrameOk(requests, c, conn, |conn.responses|);
  }

  lemma FinishKeepsInv(s: System, c: nat, t: System)
    requires Inv(s) && Next(s, Finish(c), t)
    ensures Inv(t)
  {
    hide RequestsOk, SentOk, RepliesOk, StoreOk, FrameIsClosed, FrameOk, AllFinal, Respond, Extends;
    assert ConnOk(s.requests, c, s.conns[c]);
    FinishClosesFrame(s.requests, s.conns, c, |s.conns[c].responses|);
    FinishedFrameIsOk(s.requests, c, s.conns[c], t.conns[c]);
    hide ConnsOk, ConnOk;
    ConnStepKeepsInv(s, c, t.conns[c], t);
  }

  lemma RejectKeepsInv(s: System, c: nat, error: string, t: System)
    requires Inv(s) && Next(s, Reject(c, error), t)
    ensures Inv(t)
  {
    assert ConnOk(s.requests, c, s.conns[c]);
    assert FrameOk(s.requests, c, t.conns[c], |s.conns[c].frames|);
    hide FrameOk, RequestsOk, SentOk, RepliesOk, ConnsOk, StoreOk, FrameIsClosed;
    ConnStepKeepsInv(s, c, t.conns[c], t);
  }

  /** Writing, or losing the socket, touches no frame and no response. */
  lemma WriterStepKeepsInv(s: System, c: nat, d: Conn, t: System)
    requires Inv(s) && c < |s.conns| && t == s.(conns := s.conns[c := d])
    requires d.frames == s.conns[c].frames && d.asked == s.conns[c].asked && d.responses == s.conns[c].responses
    requires d.written <= |d.responses| || d.written == s.conns[c].written
    ensures Inv(t)
  {
    assert ConnOk(s.requests, c, s.conns[c]);
    forall f | |s.conns[c].responses| <= f < |d.frames|
      ensures FrameOk(s.requests, c, d, f)
    {
      assert FrameOk(s.requests, c, s.conns[c], f);
    }
    hide FrameOk, RequestsOk, SentOk, RepliesOk, ConnsOk, StoreOk, FrameIsClosed;
    ConnStepKeepsInv(s, c, d, t);
  }

  lemma AcceptKeepsInv(s: System, t: System)
    requires Inv(s) && Next(s, Accept, t)
    ensures Inv(t)
  {
    hide SentOk, RepliesOk, StoreOk, RoutedTo, FrameOk;
    assert forall c :: 0 <= c < |s.conns| ==> t.conns[c] == s.conns[c];
    forall c | 0 <= c < |t.conns| ensures ConnOk(t.requests, c, t.conns[c]) {
      if c < |s.conns| {
        assert ConnOk(s.requests, c, s.conns[c]);
      }
    }
    forall r, q | 0 <= r < q < |s.requests| && SameLane(s.requests, r, q)
      ensures s.requests[r].frame < s.requests[q].frame
    {
    }
  }

  /** Every step of every client, shard and timer keeps the invariant. */
  lemma StepKeepsInv(s: System, a: Action, t: System)
    requires Inv(s) && Next(s, a, t)
    ensures Inv(t)
  {
    hide Inv, ShardSpec.Execute, Swept, Asks, IsOrder, Respond, AllFinal;
    match a
    case Accept => AcceptKeepsInv(s, t);
    case Begin(c, command, order) => BeginKeepsInv(s, c, command, order, t);
    case Reject(c, error) => RejectKeepsInv(s, c, error, t);
    case Enqueue(r) => EnqueueKeepsInv(s, r, t);
    case SendTimeout(r) => MoveKeepsInv(s, r, Overloaded);
    case SendClosed(r) => MoveKeepsInv(s, r, Closed);
    case Execute(shard, at, report) => ExecuteKeepsInv(s, shard, at, report, t);
    case Sweep(shard, at) => SweepKeepsInv(s, shard, at, t);
    case Stop(shard) => StopKeepsInv(s, shard, t);
    case Receive(r) => MoveKeepsInv(s, r, Answered(s.slots[r]));
    case ReplyTimeout(r) => MoveKeepsInv(s, r, TimedOut);
    case ReplyDropped(r) => MoveKeepsInv(s, r, Disconnected);
    case Finish(c) => FinishKeepsInv(s, c, t);
    case Write(c) => WriterStepKeepsInv(s, c, t.conns[c], t);
    case LoseWriter(c) => WriterStepKeepsInv(s, c, t.conns[c], t);
  }

  lemma EnqueueKeepsInv(s: System, r: nat, t: System)
    requires Inv(s) && Next(s, Enqueue(r), t)
    ensures Inv(t)
  {
    hide RequestsOk, SentOk, RepliesOk, ConnsOk, StoreOk;
    MoveKeepsInv(s, r, Waiting);
    EnqueueKeepsSent(s, r);
  }
}
