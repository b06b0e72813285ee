/** A connection end to end: commands to bytes to frames, and responses to bytes to what the client reads. */
module Wire {
  import opened Prelude
  import opened ByteStreams
  import opened Messages
  import R = Resp
  import T = RespTheorems
  import opened RespStreaming
  import opened Commands
  import Cluster
  import ClusterTheorems
  import Gathering
  import RespGrammar
  import opened Decimal

  // ---------- commands in ----------

  /** What the reader loop makes of a parsed value; `describe` is how a decoding error is worded. */
  function FrameOf(v: R.RespValue, describe: CommandError -> string): Cluster.Frame {
    match FromResp(v)
    case Ok(command) => Cluster.Decoded(command)
    case Err(e) => Cluster.Rejected("ERR " + describe(e))
  }

  function Requests(commands: seq<Command>, words: seq<Bytes>): seq<R.RespValue>
    requires |words| == |commands|
  {
    seq(|commands|, i requires 0 <= i < |commands| => Request(commands[i], words[i]))
  }

  /** Each command has its word, in some mix of cases, and the wire can carry it. */
  predicate AllSendable(commands: seq<Command>, words: seq<Bytes>) {
    && |words| == |commands|
    && forall i :: 0 <= i < |commands| ==> Upper(words[i]) == Word(commands[i]) && Sendable(commands[i])
  }

  lemma {:induction false} AllEncodableIff(vs: seq<R.RespValue>)
    ensures T.AllEncodable(vs) <==> forall i :: 0 <= i < |vs| ==> T.Encodable(vs[i])
  {
    hide T.Encodable;
    if vs != [] {
      AllEncodableIff(vs[1..]);
      assert forall i :: 1 <= i < |vs| ==> vs[i] == vs[1..][i - 1];
      assert forall i :: 0 <= i < |vs| - 1 ==> vs[1..][i] == vs[i + 1];
    }
  }

  lemma RequestArrives(command: Command, word: Bytes, describe: CommandError -> string)
    requires Upper(word) == Word(command) && Sendable(command)
    ensures T.Encodable(Request(command, word))
    ensures FrameOf(Request(command, word), describe) == Cluster.Decoded(command)
  {
    hide T.Encodable, Request, FromResp, Sendable, Upper, Word;
    CommandRoundTripIff(command, word);
    T.RoundTripIff(Request(command, word));
  }

  /** Commands written one after the other, in any chunks that end outside header lines, become exactly those
      frames in that order. */
  lemma CommandsArrive(commands: seq<Command>, words: seq<Bytes>, chunks: seq<Bytes>, describe: CommandError -> string)
    requires AllSendable(commands, words)
    requires Concat(chunks) == R.EncodeAll(Requests(commands, words))
    requires AllCutsSafe(Requests(commands, words), 0, chunks)
    ensures var r := ReadChunks([], chunks);
            && r.alive && r.unread == [] && |r.values| == |commands|
            && forall i :: 0 <= i < |commands| ==> FrameOf(r.values[i], describe) == Cluster.Decoded(commands[i])
  {
    hide R.EncodeAll, ReadChunks, AllCutsSafe, Request, FrameOf, T.AllEncodable, T.Encodable, Upper, Word, Sendable;
    var vs := Requests(commands, words);
    forall i | 0 <= i < |commands|
      ensures T.Encodable(vs[i]) && FrameOf(vs[i], describe) == Cluster.Decoded(commands[i])
    {
      RequestArrives(commands[i], words[i], describe);
    }
    AllEncodableIff(vs);
    ChunkingIsInvisibleIff(vs, chunks);
  }

  // ---------- responses out ----------

  /** The bytes of a message, each character standing for one. */
  function Text(message: string): Bytes {
    seq(|message|, i requires 0 <= i < |message| => if message[i] < 256 as char then message[i] as int else 63)
  }

  function FromText(text: Bytes): string {
    seq(|text|, i requires 0 <= i < |text| => text[i] as char)
  }

  // "OK"
  const OK: Bytes := [79, 75]

  /** An i64, as every integer a shard answers is. */
  predicate Counts(r: Response) {
    r.Integer? ==> -0x8000_0000_0000_0000 <= r.n <= 0x7FFF_FFFF_FFFF_FFFF
  }

  function ResponseToResp(r: Response): R.RespValue
    requires Counts(r)
  {
    match r
    case Value(value) => if value.Some? then R.BulkString(value.value) else R.NullBulk
    case Integer(n) => R.Integer(n)
    case Done => R.SimpleString(OK)
    case Error(message) => R.Error(Text(message))
  }

  /** The bytes of each kind of response. */
  lemma OnTheWire(r: Response)
    requires Counts(r)
    ensures R.Encode(ResponseToResp(r)) ==
            match r
            case Value(value) =>
              if value.Some? then [36] + ToDecimal(|value.value|) + [13, 10] + value.value + [13, 10]
              else [36, 45, 49, 13, 10]
            case Integer(n) => [58] + ToDecimal(n) + [13, 10]
            case Done => [43, 79, 75, 13, 10]
            case Error(message) => [45] + Text(message) + [13, 10]
  {
    hide R.Encode, ToDecimal;
    RespGrammar.OnTheWire(ResponseToResp(r));
  }

  /** What a client understands. */
  function FromWire(v: R.RespValue): Option<Response> {
    match v
    case BulkString(data) => Some(Value(Some(data)))
    case NullBulk => Some(Value(None))
    case Integer(n) => Some(Response.Integer(n))
    case SimpleString(text) => if text == OK then Some(Done) else None
    case Error(text) => Some(Response.Error(FromText(text)))
    case _ => None
  }

  /** What a response may hold to come through: a value within the limit, a message of bytes without LF. */
  predicate Presentable(r: Response) {
    && Counts(r)
    && (r.Value? && r.value.Some? ==> |r.value.value| <= MAX_VALUE_SIZE)
    && (r.Error? ==> forall i :: 0 <= i < |r.message| ==> r.message[i] < 256 as char && r.message[i] != '\n')
  }

  lemma PresentableComesThrough(r: Response)
    requires Presentable(r)
    ensures T.Encodable(ResponseToResp(r)) && FromWire(ResponseToResp(r)) == Some(r)
  {
    if r.Error? {
      var text := Text(r.message);
      assert FromText(text) == r.message;
      assert forall i :: 0 <= i < |text| ==> text[i] != LF;
    }
  }

  function Replies(responses: seq<Response>): seq<R.RespValue>
    requires forall i :: 0 <= i < |responses| ==> Counts(responses[i])
  {
    seq(|responses|, i requires 0 <= i < |responses| => ResponseToResp(responses[i]))
  }

  /** What the writer task has put on the wire: its responses' encodings, one after the other. */
  function Written(responses: seq<Response>): Bytes
    requires forall i :: 0 <= i < |responses| ==> Counts(responses[i])
  {
    R.EncodeAll(Replies(responses))
  }

  /** A client with the same parser reads back exactly the responses that were written, in order. */
  lemma ResponsesArrive(responses: seq<Response>, chunks: seq<Bytes>)
    requires forall i :: 0 <= i < |responses| ==> Counts(responses[i]) && Presentable(responses[i])
    requires Concat(chunks) == Written(responses) && AllCutsSafe(Replies(responses), 0, chunks)
    ensures var r := ReadChunks([], chunks);
            && r.alive && r.unread == [] && |r.values| == |responses|
            && forall i :: 0 <= i < |responses| ==> FromWire(r.values[i]) == Some(responses[i])
  {
    hide R.EncodeAll, ReadChunks, AllCutsSafe, ResponseToResp, FromWire, T.AllEncodable, T.Encodable;
    var vs := Replies(responses);
    forall i | 0 <= i < |responses|
      ensures T.Encodable(vs[i]) && FromWire(vs[i]) == Some(responses[i])
    {
      PresentableComesThrough(responses[i]);
    }
    AllEncodableIff(vs);
    ChunkingIsInvisibleIff(vs, chunks);
  }

  // ---------- a conversation ----------

  /** The connection has begun the frames of the first values its reader loop drew. */
  ghost predicate Drew(conn: Cluster.Conn, values: seq<R.RespValue>, describe: CommandError -> string) {
    |conn.frames| <= |values| && forall f :: 0 <= f < |conn.frames| ==> conn.frames[f] == FrameOf(values[f], describe)
  }

  /** A value that is no command is answered with the error of its decoding, and the connection goes on. */
  lemma RefusalsAreAnswered(states: seq<Cluster.System>, n: nat, c: nat, f: nat, values: seq<R.RespValue>,
                            describe: CommandError -> string)
    requires ClusterTheorems.IsBehaviour(states) && n < |states| && c < |states[n].conns|
    requires Drew(states[n].conns[c], values, describe)
    requires f < |states[n].conns[c].responses| <= |states[n].conns[c].frames| && FromResp(values[f]).Err?
    ensures states[n].conns[c].responses[f] == Response.Error("ERR " + describe(FromResp(values[f]).error))
  {
    hide ClusterTheorems.IsBehaviour, FromResp;
    ClusterTheorems.ResponsesFollowFrames(states, n, n, c);
    assert Cluster.FrameOk(states[n].requests, c, states[n].conns[c], f);
  }

  /** What a client may read for a command of its connection: for a DEL a count, or all the failures of its
      requests; for any other command its own reply, or the error its one request ended with. */
  ghost predicate IsAnswer(s: Cluster.System, c: nat, f: nat, command: Command, read: Option<Response>) {
    && c < |s.conns| && f < |s.conns[c].asked| && read.Some?
    && var ids := s.conns[c].asked[f];
       if command.Del? then
         && (forall j :: 0 <= j < |ids| ==> ids[j] < |s.requests|)
         && var failures := ClusterTheorems.Failures(s.requests, ids);
            if failures == [] then read.value.Integer?
            else read.value == Response.Error("ERR partial failure: " + Gathering.Join(failures, ", "))
       else
         |ids| == 1 && ClusterTheorems.AnsweredBy(s, c, f, command, ids[0], read.value)
  }

  lemma ResponseIsAnswer(states: seq<Cluster.System>, n: nat, c: nat, f: nat, command: Command)
    requires ClusterTheorems.IsBehaviour(states) && n < |states| && c < |states[n].conns|
    requires f < |states[n].conns[c].responses| && f < |states[n].conns[c].frames|
    requires states[n].conns[c].frames[f] == Cluster.Decoded(command)
    ensures IsAnswer(states[n], c, f, command, Some(states[n].conns[c].responses[f]))
  {
    hide ClusterTheorems.IsBehaviour, ClusterTheorems.Failures, ClusterTheorems.AnsweredBy;
    if command.Del? {
      ClusterTheorems.ScatteredDelFails(states, n, c, f, command.keys);
    } else {
      ClusterTheorems.SingleAnswers(states, n, c, f, command);
    }
  }

  /** A client that pipelines commands and reads what comes back gets, as its f-th reply, the response of
      its f-th command: the reply of that command's own execution or the error its request ended with, and
      for a DEL a count or all of its failures. This holds in every behaviour, for any chunks in either
      direction that end outside header lines. */
  lemma RepliesAnswerTheirCommands(states: seq<Cluster.System>, n: nat, c: nat,
                                   commands: seq<Command>, words: seq<Bytes>,
                                   sent: seq<Bytes>, received: seq<Bytes>, describe: CommandError -> string)
    requires ClusterTheorems.IsBehaviour(states) && n < |states| && c < |states[n].conns|
    requires AllSendable(commands, words) && Concat(sent) == R.EncodeAll(Requests(commands, words))
    requires AllCutsSafe(Requests(commands, words), 0, sent)
    requires Drew(states[n].conns[c], ReadChunks([], sent).values, describe)
    requires var conn := states[n].conns[c];
             conn.written <= |conn.responses| &&
             forall f :: 0 <= f < conn.written ==> Counts(conn.responses[f]) && Presentable(conn.responses[f])
    requires var written := states[n].conns[c].responses[..states[n].conns[c].written];
             Concat(received) == Written(written) && AllCutsSafe(Replies(written), 0, received)
    ensures var s, conn := states[n], states[n].conns[c];
            var read := ReadChunks([], received).values;
            && |read| == conn.written <= |conn.frames| <= |commands| && |conn.asked| == |conn.frames|
            && forall f :: 0 <= f < conn.written ==>
                 && Cluster.AskedFor(s.requests, conn.asked[f], c, f, commands[f])
                 && Cluster.AllFinal(s.requests, conn.asked[f])
                 && FromWire(read[f]) == Some(Cluster.Respond(s.requests, conn.asked[f], commands[f]))
                 && IsAnswer(s, c, f, commands[f], FromWire(read[f]))
  {
    hide IsAnswer, ClusterTheorems.IsBehaviour, ReadChunks, AllCutsSafe, R.EncodeAll, FrameOf, FromWire, ResponseToResp,
         Presentable, AllSendable, Cluster.AskedFor, Cluster.AllFinal, Cluster.Respond;
    var s, conn := states[n], states[n].conns[c];
    CommandsArrive(commands, words, sent, describe);
    ResponsesArrive(conn.responses[..conn.written], received);
    ClusterTheorems.ResponsesFollowFrames(states, n, n, c);
    forall f | 0 <= f < conn.written
      ensures Cluster.FrameOk(s.requests, c, conn, f) && conn.frames[f] == Cluster.Decoded(commands[f])
      ensures IsAnswer(s, c, f, commands[f], Some(conn.responses[f]))
    {
      ResponseIsAnswer(states, n, c, f, commands[f]);
    }
  }
}
