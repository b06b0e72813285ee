# RsDragonflyDB, modelled and verified

RsDragonflyDB is a Redis-like store cut into 64 shards. Each shard is one task that owns a hash map with
deadlines; connections parse RESP2 frames, route each key by CRC-16 and talk to the shards through bounded
queues with timeouts; snapshots are written beside the store. This project models that core in Dafny and
proves what it keeps, over all inputs, all runs and all interleavings.

| file | what it models |
|---|---|
| `Prelude.dfy` | wrappers, bytes, 64-bit words, the constants, commands and responses |
| `Shard.dfy` | one shard: the commands as functions on a state, and the class whose fields they update in place; the bounded sweep |
| `ShardRuns.dfy` | runs of one shard: invariants, conservation of memory and keys, repeated sweeps |
| `TtlMap.dfy` | the plain map with deadlines that every run refines |
| `Bytes.dfy` | the byte cursor and buffer, and decimal integers |
| `Resp.dfy`, `RespParser.dfy` | the RESP2 printer and parser, and the parser object with its buffer and cursor |
| `RespTheorems.dfy`, `RespStreaming.dfy` | round trips, stability, prefix-freeness, exact answers on cut input, chunked reading |
| `RespGrammar.dfy` | the RESP2 grammar in literal bytes, and the parser and printer against it |
| `Commands.dfy`, `CommandGrammar.dfy` | frames to commands, and the grammar of commands letter by letter |
| `Crc16.dfy` | CRC-16 as a remainder over GF(2) |
| `Router.dfy` | routing, grouping, and both ways of gathering a multi-key DEL |
| `Cluster.dfy`, `ClusterTheorems.dfy` | connections, queues, timeouts, shards and replies as a state machine |
| `Format.dfy` | little-endian fields, wall-clock conversion, the 64-byte snapshot header |
| `Snapshot.dfy`, `SnapshotFiles.dfy` | the snapshot file, written, read and read back |
| `Crc64.dfy` | the checksum of snapshots, CRC-64/ECMA-182 |
| `Wire.dfy` | a connection end to end, from commands to the replies a client reads |
| `SnapshotProtocol.dfy` | triggers, the channel of capacity one, the temporary file, the rename, crashes and restarts |

Code that updates fields or buffers step by step is a class or a method with loops, proved equal to a
function of the old state; the theorems are then about those functions. The two protocols (connections with
shards, and the snapshot writer) are state machines whose actions are the single steps other tasks can get
between. Time is a number of nanoseconds that every operation takes as an argument and that never decreases
along a run. The deadline heap is a multiset from which some element with the least deadline is popped, so
that nothing depends on how ties are broken. `usize` counters wrap at 2^64, as in a release build.

## What the code does not do

Some properties one would expect are false of the code. Each is stated with its exact condition.

- `expire_keys` subtracts nothing from `memory_bytes` (`src/shard/expiration.rs:20-38`): the counter equals the
  resident bytes plus everything sweeps ever removed (`MemoryIsConserved`). It is exact on a run if and only if
  every sweep on it found no key due (`LeaksNothingIffQuiet`, `SweepLeaks`).
- A loaded shard counts memory from 0 (`src/shard/snapshot/deserialize.rs:95`), so removing keys wraps the counter:
  a SET must keep the resident bytes, with the leaked ones, at no fewer than the shard was loaded with
  (`LoadedShardAcceptsIff`, `LoadedShardRefusesSmallSets`).
- EXPIRE does not look at the deadline it replaces (`src/shard/shard.rs:152-163`): it agrees with a plain map if
  and only if the key is not resident past its deadline (`ExpireIsPlainIff`, `ExpireRevives`).
- DEL does not look at deadlines either (`src/shard/shard.rs:140-150`): it counts what a plain map would if and only if
  none of its keys is resident past its deadline (`DelIsPlainIff`, `DelCountsTheDead`).
- A header line cut before its LF is `InvalidFormat`, not `Incomplete` (`src/protocol/parser.rs:150-166`), and closes
  the connection: chunking is invisible if and only if no chunk ends strictly inside a header line
  (`ChunkingIsInvisibleIff`, `HeaderCutCloses`).
- Simple and error strings are printed without escaping (`src/protocol/serializer.rs:11-20`): a value is parsed back
  if and only if none of those in it holds an LF and no bulk is over the size limit (`RoundTripIff`, `LfBreaksSimpleStrings`).
- The writer puts the checksums at byte 32 (`src/shard/snapshot/serialize.rs:46-49`) and computes them with the fields
  still zero; the reader takes them from bytes 28 and 36 and checks a range that includes them
  (`src/shard/snapshot/deserialize.rs:36-46`). `SavedFileLoadsIff` says exactly when a saved file is
  accepted, and `SavedFileIsRefused` shows files that CRC-64/ECMA-182 refuses.
- `design/diagrams.md:513` and `:551` load a snapshot at start-up, and `design/diagrams.md:426` lists PX and EXAT options;
  `src/shard/worker.rs:15` starts every shard empty, and `src/protocol/command.rs:70-83` takes EX alone. The comment
  "Exclude checksums" at `src/shard/snapshot/serialize.rs:43` does not fit its range. The model follows the code.

## Model

| member | source | states |
|---|---|---|
| ShardSpec.ExecuteKeepsInvariant | src/shard/shard.rs:33-194 | no command breaks either invariant: every resident deadline is in the heap and key_count is the number of residents; map, key and value sizes stay within the limits SET enforces |
| ShardSpec.SetKeepsInvariant | src/shard/shard.rs:59-119 | the same for SET, accepted or refused, over a live, a dead or no earlier entry |
| ShardSpec.DelKeepsInvariant | src/shard/shard.rs:140-150 | the same for DEL, duplicates and absent keys included |
| ShardSpec.ExpireKeepsInvariant | src/shard/shard.rs:152-167 | the same for EXPIRE, which leaves its old heap element behind |
| ShardSpec.SweepKeepsLimits | src/shard/expiration.rs:7-40 | a sweep keeps the size limits |
| ShardStore.Shard.constructor | src/shard/shard.rs:22-31 | a new shard is valid and empty, with the crate's limits |
| ShardStore.Shard.Execute | src/shard/shard.rs:33-50 | the in-place dispatch leaves the state, and gives the reply, of the specification every theorem is about, and stays valid |
| ShardStore.Shard.CmdSet | src/shard/shard.rs:59-119 | the whole new state and reply of SET, memory subtracted and added in two wrapping steps |
| ShardStore.Shard.CmdGet | src/shard/shard.rs:121-138 | GET's value, and the lazy removal of a dead key with its counters |
| ShardStore.Shard.CmdDel | src/shard/shard.rs:140-150 | the loop's running count and removals are those of deleting the keys one by one |
| ShardStore.Shard.CmdExpire | src/shard/shard.rs:152-167 | EXPIRE changes the deadline and nothing else of the entry, and pushes one heap element |
| ShardStore.Shard.CmdTtl | src/shard/shard.rs:169-194 | TTL's -2, -1 and whole remaining seconds, and the lazy removal |
| ShardStore.Shard.RemoveKeyUpdateMetrics | src/shard/shard.rs:234-243 | says whether the key was resident; the counters follow |
| ShardStore.Shard.ExpireKeys | src/shard/expiration.rs:7-40 | a sweep of a valid shard removes exactly min(20, due) keys, all due, none later than a due key left behind, whatever stale or equal elements the heap holds; it changes no other entry |
| ShardStore.PopExpired | src/shard/expiration.rs:11-33 | the pop loop by itself: the same, on the map and the heap |
| ShardStore.EarliestExists | src/shard/expiry.rs:12-17 | a heap that is not empty has an element no other precedes |
| ShardStore.SweepStep | src/shard/expiration.rs:17-32 | one pop keeps what the sweep needs, whether its element matches the entry, is stale, or names no resident |
| ShardStore.SweepCounts | src/shard/expiration.rs:21-28 | the keys removed so far are due, and no due key left behind is earlier |
| ShardStore.SweepIsComplete | src/shard/expiration.rs:12-28 | whichever way the loop ends, exactly min(20, due) keys have gone |
| ShardRuns.RunKeepsInvariant | src/shard/worker.rs:24-50 | heap cover, key_count and the limits hold after every run of commands and sweeps |
| ShardRuns.StepMovesMemory | src/shard/shard.rs:86-116 | one step moves memory_bytes by the change in resident bytes, plus what a sweep removed, modulo 2^64 |
| ShardRuns.RunMovesMemory | src/shard/shard.rs:107-116 | the same over every run from any state, loaded ones included |
| ShardRuns.MemoryIsConserved | src/shard/expiration.rs:20-38 | on every run of a new shard memory_bytes is exactly resident bytes plus swept bytes, never wraps and never passes max_memory_bytes |
| ShardRuns.LeaksNothingIffQuiet | src/shard/expiration.rs:20-38 | a run leaks no memory if and only if no key is due at any of its sweeps |
| ShardRuns.SweepLeaks | src/shard/expiration.rs:21-24 | the input: SET k v EX 0 and a sweep leave an empty shard that counts 82 bytes |
| ShardRuns.SetIsAcceptedFromIff | src/shard/shard.rs:59-119 | the same question from any first state: what counts against the limit is the counter's first value plus what the run added, and falling below 0 refuses as well |
| ShardRuns.SetIsAcceptedIff | src/shard/shard.rs:59-119 | on every run of a new shard, SET is accepted if and only if the sizes are within limits, the map after it has at most max_keys keys, and its bytes with the leaked ones fit the memory limit; refused, it changes nothing |
| ShardRuns.SetRefusals | src/shard/shard.rs:60-93 | a refused SET says which of its four limits it met first |
| ShardRuns.KeysAreConserved | src/shard/shard.rs:116-194 | on every run from a healthy state, keys created by SET equal the growth of residents plus the DEL replies plus the growth of keys_expired; key_count is exact and never above max_keys |
| ShardRuns.SweepsInARow | src/shard/expiration.rs:26-28 | each sweep in a row takes 20 of the keys due at the start of the first, until none is left |
| ShardRuns.EnoughSweepsClearTheDue | src/shard/expiration.rs:7-40 | ceil(D / 20) sweeps clear the D keys due at the first |
| TtlMap.StepRefines | src/shard/shard.rs:36-44 | one step of a shard is one step of a plain map of deadlines, with an answer that map allows |
| TtlMap.RunRefinesPlainMap | src/shard/shard.rs:59-194 | over every run every reply is one the plain map allows then, and what the shard shows at any later time is the map's live part |
| TtlMap.SetLasts | src/shard/shard.rs:73-119 | after an accepted SET with EX n, GET has the value for exactly n times 10^9 nanoseconds, and TTL counts whole seconds down and then says -2; without EX it lasts, whatever deadline was there before |
| TtlMap.ExpireLasts | src/shard/shard.rs:152-167 | after an EXPIRE of a resident key its value lasts exactly n times 10^9 nanoseconds from then |
| TtlMap.ReadersChangeNothing | src/shard/shard.rs:121-138 | GET, TTL and sweeps change nothing that can be seen, now or later |
| TtlMap.ReadersRemoveTheDead | src/shard/shard.rs:121-138 | a GET or TTL that finds a dead key removes it, counts it as expired and gives its bytes back; any other leaves the shard as it was |
| TtlMap.DelCountsKeys | src/shard/shard.rs:140-150 | DEL answers the number of distinct named residents it removed |
| TtlMap.ExpireIsPlainIff | src/shard/shard.rs:152-167 | EXPIRE is a plain map's if and only if its key is not resident past its deadline |
| TtlMap.ExpireRevives | src/shard/shard.rs:153-156 | the input, SET k v EX 0: a GET now would answer nil; an EXPIRE now answers 1 and the old value is back; after such a GET, EXPIRE answers 0 |
| TtlMap.DelIsPlainIff | src/shard/shard.rs:140-150 | DEL leaves visible what a plain map would, and counts what one would if and only if none of its keys is resident past its deadline |
| TtlMap.DelCountsTheDead | src/shard/shard.rs:143-147 | the input, SET k v EX 0: a GET now would answer nil, a DEL now answers 1 |
| ByteStreams.ByteCursor.ReadExact | src/protocol/parser.rs:141-147 | exactly the next n bytes, or nothing when fewer are left |
| ByteStreams.ByteCursor.ReadLine | src/protocol/parser.rs:150-159 | the bytes up to and with the first LF, or all that is left |
| Decimal.DigitsRoundTrip | src/protocol/serializer.rs:31 | printed lengths are read back as themselves and hold only digits |
| Decimal.DigitsByPlace | src/protocol/parser.rs:77 | digits count by their place, ten to one |
| Decimal.ParseIntIff | src/protocol/parser.rs:74-79 | a line reads as n if and only if it is an optional sign and digits for n, within i64 |
| Decimal.DecimalIsCanonical | src/protocol/serializer.rs:23 | numbers are printed without '+' and without leading zeros |
| Decimal.DecimalRoundTrip | src/protocol/parser.rs:74-79 | every i64 is read back from its decimal form, the least one included |
| Resp.SerializeValue | src/protocol/serializer.rs:9-50 | the recursive printer appends the encoding and nothing else |
| Resp.ParseValue | src/protocol/parser.rs:50-131 | a value of k nodes consumed at least 3k bytes, and never past the end |
| RespParsing.ParseValueFrom | src/protocol/parser.rs:50-62 | the cursor-driven parser gives the value or the error, and stops at the byte, of the specification |
| RespParsing.ParseBulkFrom | src/protocol/parser.rs:81-109 | the same for a bulk string whose length has been read, with its limits and trailing CRLF |
| RespParsing.ParseArrayFrom | src/protocol/parser.rs:111-131 | the same for the push loop over an array's elements |
| RespParsing.ReadCrlfLineFrom | src/protocol/parser.rs:150-170 | nothing left is Incomplete; a line without CRLF is InvalidFormat |
| RespParsing.RespParser.Feed | src/protocol/parser.rs:28-30 | appends to the unread bytes |
| RespParsing.RespParser.Parse | src/protocol/parser.rs:32-48 | takes exactly the bytes of one value off the unread ones, and none on None or an error |
| RespParsing.RespParser.Compact | src/protocol/parser.rs:133-139 | changes none of the unread bytes |
| RespTheorems.ParseEncoded | src/protocol/parser.rs:50-131 | a printed value is parsed as itself, anywhere in a buffer and whatever follows, using exactly its bytes |
| RespTheorems.ParsedIsEncodable | src/protocol/parser.rs:50-131 | whatever parses is a value that prints back to something the parser takes |
| RespTheorems.RoundTripIff | src/protocol/serializer.rs:3-50 | a value survives printing and parsing before every suffix if and only if it is encodable |
| RespTheorems.LfBreaksSimpleStrings | src/protocol/serializer.rs:11-15 | an input that does not survive |
| RespTheorems.ParseIsStable | src/protocol/parser.rs:50-131 | more bytes never change a value already parsed, or where it ends |
| RespTheorems.NoPrefixParses | src/protocol/parser.rs:32-48 | no proper prefix of an encoding yields a value |
| RespTheorems.EncodingsArePrefixFree | src/protocol/serializer.rs:3-50 | no encoding starts another, unless the values are the same |
| RespTheorems.ParseCut | src/protocol/parser.rs:141-170 | on every cut of an encoding: InvalidFormat if the cut is strictly inside a header line, else Incomplete |
| RespGrammar.OnTheWire | src/protocol/serializer.rs:9-50 | the exact bytes printed for each kind of value, null forms included |
| RespGrammar.ParsesIffSpelled | src/protocol/parser.rs:50-131 | the parser returns v and stops at j if and only if the bytes up to j are a form of v in the RESP2 grammar, which is stated on its own, in literal bytes |
| RespGrammar.TypeRefusals | src/protocol/parser.rs:50-62 | nothing there is Incomplete; a wrong type byte is InvalidType |
| RespGrammar.LineRefusals | src/protocol/parser.rs:150-166 | a line without its LF, or an LF without its CR, is InvalidFormat |
| RespGrammar.NumberRefusals | src/protocol/parser.rs:74-106 | when a whole number line is InvalidInteger or InvalidLength, and a bulk Incomplete or without its CRLF |
| RespGrammar.ArrayRefusals | src/protocol/parser.rs:126-130 | an array fails as its first element that does not parse |
| RespStreaming.DrainParser | src/frontend/handler.rs:82-102 | the inner parse loop draws exactly the values the specification draws |
| RespStreaming.ReadLoop | src/frontend/handler.rs:77-104 | so does the whole feed, parse and compact loop over any chunks |
| RespStreaming.DrainSteps | src/frontend/handler.rs:82-102 | on any bytes at all the inner loop waits for more, ends the connection, or keeps one value and goes on with the rest |
| RespStreaming.DrainPrefix | src/frontend/handler.rs:82-102 | on any first part of a stream the loop draws the whole encodings in it, keeps the rest, and goes on if and only if the cut is safe |
| RespStreaming.ChunkingIsInvisibleIff | src/frontend/handler.rs:77-104 | any chunking of a list's encodings gives that list and leaves nothing, if and only if no chunk ends strictly inside a header line |
| RespStreaming.HeaderCutCloses | src/protocol/parser.rs:161-166 | an input whose cut closes the connection |
| Commands.ParseSet | src/protocol/command.rs:56-91 | the option loop ends, with the decoding of the specification |
| Commands.ParseDel | src/protocol/command.rs:101-110 | the key loop gives all keys in order, or the first one's error |
| Commands.DecodesBackIff | src/protocol/command.rs:15-43 | the array of bulks of a command is decoded to that command if and only if a DEL has keys and seconds fit i64 |
| Commands.CommandRoundTripIff | src/protocol/command.rs:15-161 | the same from the wire: printed, parsed and decoded, with the command word in any mix of cases |
| Commands.LastExWins | src/protocol/command.rs:64-84 | of any number of EX options, in any mix of cases, the last one decides |
| CommandGrammar.FromRespIffSays | src/protocol/command.rs:15-161 | a value is decoded to a command if and only if it is a form of it: its word letter by letter in any case, exactly its arguments, EX pairs and no other option |
| CommandGrammar.NoCommand | src/protocol/command.rs:16-31 | how what is no array, an empty one, or one that does not start with a bulk is refused |
| CommandGrammar.ArgumentRefusals | src/protocol/command.rs:33-140 | how unknown words, wrong numbers of arguments and first arguments that are no bulk are refused |
| CommandGrammar.OptionRefusals | src/protocol/command.rs:64-84 | any option but EX is InvalidArgument, and an EX with nothing after it WrongArgCount |
| CommandGrammar.SecondsRefusals | src/protocol/command.rs:151-161 | how seconds that are no number, or negative, are refused |
| Gf2.RemainderIsUnique | src/common/hash.rs:2-15 | a polynomial has one remainder of degree below 16 |
| Crc16.ComputeCrc16 | src/common/hash.rs:2-15 | the nested bit loops compute the function the theorems are about |
| Crc16.StepIsTimesX | src/common/hash.rs:7-11 | one inner turn is multiplication by x modulo x^16 + x^12 + x^5 + 1 |
| Crc16.CrcIsRemainder | src/common/hash.rs:2-15 | for every byte string the result is the remainder of message times x^16 |
| Crc16.OnlyTheCrcIsRemainder | src/common/hash.rs:2-15 | a word is that remainder if and only if it is the result |
| Crc16.CrcIsLinear | src/common/hash.rs:5-11 | the CRC of the XOR of two strings of equal length is the XOR of their CRCs |
| Crc16.CrcOfCheckedMessage | src/common/hash.rs:5-11 | a message followed by its own CRC, high byte first, has CRC 0 |
| Router.RouteIsLowSixBits | src/frontend/router.rs:9-13 | a key's shard is the number made of the low six bits of the remainder that is its CRC-16 |
| Router.RouteKeys | src/frontend/router.rs:15-26 | each shard with keys gets exactly its own, in order with duplicates, and no other shard appears |
| Router.GroupHolds | src/frontend/router.rs:18-23 | a group holds exactly the keys routed to its shard |
| Router.GroupSplits | src/frontend/router.rs:18-23 | groups are taken key by key, so they keep order and repetitions |
| Router.GroupsConserveKeys | src/frontend/router.rs:15-26 | the groups hold as many keys as were given |
| Gathering.CombineDel | src/frontend/handler.rs:154-172 | the loop answers the sum if nothing failed, else all the messages |
| Gathering.ResponsesSplit | src/frontend/handler.rs:156-165 | counts add up and messages keep their order over any two parts of the answers |
| Gathering.JoinSplits | src/frontend/handler.rs:170 | joined messages stand side by side with one separator between any two |
| Gathering.ResultsSplit | src/frontend/multi_key.rs:63-71 | the same of the executor's results |
| Gathering.Aggregate | src/frontend/multi_key.rs:56-83 | the executor's loop: the sum, the failed shards and their messages, and which of the three results they make |
| Cluster.StepKeepsInv | src/frontend/handler.rs:54-172 | every single step, of any connection, queue, shard or timer, keeps the invariant of the whole system |
| Cluster.EnqueueKeepsInv | src/frontend/handler.rs:126-131 | a message enters behind all earlier ones of its connection to that shard |
| Cluster.ExecuteKeepsInv | src/shard/worker.rs:26-31 | executing the head of a queue keeps order, replies and the one-map property, even if its sender has given up |
| Cluster.BeginKeepsInv | src/frontend/handler.rs:110-152 | a new frame's requests are routed, one to a shard |
| Cluster.FinishKeepsInv | src/frontend/handler.rs:86-90 | a response is given only when all requests of its frame have ended |
| ClusterTheorems.RefusedIsNeverExecuted | src/frontend/handler.rs:130-139 | a command refused as overloaded or closed is not executed, then or later |
| ClusterTheorems.ExecutedAtMostOnce | src/shard/worker.rs:26-31 | no request is executed twice |
| ClusterTheorems.AnswersAreOwn | src/frontend/handler.rs:126-138 | an answer is the reply of the request's own execution, however late others' replies come |
| ClusterTheorems.SingleAnswers | src/frontend/handler.rs:110-145 | every response to a command other than DEL is the reply of its own execution on its shard, the first one for PING and INFO, or the error that says how its request ended |
| ClusterTheorems.PhasesMoveOn | src/frontend/handler.rs:132-141 | a request is sent or refused, then answered or given up, one step at a time |
| ClusterTheorems.QueuesAreBounded | src/protocol/channels.rs:10-12 | no queue ever holds more than 1024 messages |
| ClusterTheorems.QuietRequestIsAnswered | src/frontend/handler.rs:126-138 | a message to an open shard with an empty queue can be answered in three steps, with what the shard makes of it |
| ClusterTheorems.ExecutedInFrameOrder | src/frontend/handler.rs:77-102 | commands of one connection to one shard are executed in frame order, timeouts or not |
| ClusterTheorems.ResponsesFollowFrames | src/frontend/handler.rs:60-102 | what is written is a prefix of one response per frame, in frame order, each made from its own frame; between any two points frames, responses and what is written only grow |
| ClusterTheorems.ShardsAreOneMap | src/frontend/router.rs:9-13 | a key is only ever on the shard route_key names, and all shards together show one plain map that went through the executions in order |
| ClusterTheorems.ScatteredDelCounts | src/frontend/handler.rs:142-172 | a DEL that answers Integer(n) removed exactly n residents, all named in it, and its every key was visited |
| ClusterTheorems.ScatteredDelFails | src/frontend/handler.rs:154-172 | a DEL is answered with an error if and only if one of its requests failed, and the error holds all the failures in order |
| Wire.CommandsArrive | src/frontend/handler.rs:77-102 | pipelined commands, in any chunks that end outside header lines, become exactly those frames in that order |
| Wire.ResponsesArrive | src/frontend/handler.rs:60-73 | the bytes the writer task has written are read back as exactly its responses, in order |
| Wire.OnTheWire | src/frontend/handler.rs:201-211 | the exact bytes of each kind of response |
| Wire.RefusalsAreAnswered | src/frontend/handler.rs:93-95 | in every behaviour a value that is no command is answered with the error of its decoding |
| Wire.PresentableComesThrough | src/frontend/handler.rs:201-211 | a response whose value is within the limit and whose message has no LF is understood as itself |
| Wire.RepliesAnswerTheirCommands | src/frontend/handler.rs:54-211 | in every behaviour the f-th reply a pipelining client reads is the f-th command's own: the reply of its execution or the error of its request, and for a DEL a count or all its failures |
| LittleEndian.LeRoundTrip | src/shard/persistence/format.rs:39-50 | a number that fits its width is read back |
| LittleEndian.UnLeRoundTrip | src/shard/persistence/format.rs:52-78 | bytes that were read as a number are written back |
| LittleEndian.LeAt | src/shard/persistence/format.rs:39-50 | byte i of a field is the i-th from the low end |
| WallClock.DeadlineSurvives | src/common/time.rs:3-29 | a deadline is kept if and only if its second is later than the load's; kept, it moves by less than a second and lies ahead; expired, it is not kept |
| WallClock.ClockEdges | src/common/time.rs:3-29 | timestamps are whole seconds; a passed deadline is saved as the save's second, a past second loaded as the load's instant |
| WallClock.LastSecondIsLost | src/common/time.rs:10-12 | an unexpired deadline that an immediate load drops |
| Format.WriteHeader | src/shard/persistence/format.rs:39-50 | appends the header's bytes and nothing else |
| Format.ReadHeader | src/shard/persistence/format.rs:52-78 | reads the fields of the first 64 bytes, or nothing of a shorter file |
| Format.ReadAfterWrite | src/shard/persistence/format.rs:39-78 | every header that fits is read back, whatever follows |
| Format.WriteAfterRead | src/shard/persistence/format.rs:39-78 | any 64 bytes are written back from the header read |
| Snapshot.WriteEntries | src/shard/snapshot/serialize.rs:20-39 | the loop appends every entry exactly once, in some order of the map |
| Snapshot.SerializeShard | src/shard/snapshot/serialize.rs:12-52 | the file: header, entries, and both checksums where the code puts them |
| Snapshot.DeserializeSnapshot | src/shard/snapshot/deserialize.rs:16-100 | a valid shard or the same error as the specification of loading, on every byte string |
| Snapshot.LoadedShardIsHealthy | src/shard/snapshot/deserialize.rs:16-100 | any bytes that load make a healthy shard: covered heap, right key_count, deadlines ahead, number and checksums of the header |
| Snapshot.EntriesReadBack | src/shard/snapshot/deserialize.rs:56-93 | the reader's loop takes exactly the bytes the writer's loop wrote and inserts exactly its entries |
| Snapshot.EntryOnDisk | src/shard/snapshot/serialize.rs:20-39 | the exact bytes of an entry |
| Snapshot.EntryWasThere | src/shard/snapshot/deserialize.rs:56-79 | whatever the reader takes for an entry has exactly those bytes, but for a flag that may be anything other than 1 when there is no timestamp |
| Snapshot.LoadRefusals | src/shard/snapshot/deserialize.rs:16-46 | why a file is refused, in the order of the checks |
| Snapshot.EntrySectionRoundTrip | src/shard/snapshot/deserialize.rs:56-93 | for every order and clock it consumes the whole section and rebuilds exactly the keys without timestamp or with a later one than the load's |
| Snapshot.ReachableShardsAreStorable | src/shard/snapshot/serialize.rs:22-36 | a shard within SET's limits fits the file's length fields |
| SnapshotFiles.SavedFileLoadsIff | src/shard/snapshot/serialize.rs:41-49 | a saved file is accepted if and only if its entries' checksum is 0 and that of its first 56 bytes is the moved low half of the other; it is refused only as a checksum mismatch, and accepted as the surviving shard |
| SnapshotFiles.NonzeroChecksumIsRefused | src/shard/snapshot/deserialize.rs:42-46 | every saved file whose entries' checksum is not 0 is refused, whatever the checksum function |
| SnapshotFiles.SavedFileIsRefused | src/shard/snapshot/serialize.rs:9-52 | the input: with CRC-64/ECMA-182, a new shard after SET "" v, for any byte v, is saved to a file that does not load |
| Crc64.ShortMessagesAreSeen | src/shard/snapshot/serialize.rs:9 | a message that is not all zeros and at most eight bytes after its leading zeros never has checksum 0 |
| Crc64.GeneratorIs | src/shard/snapshot/serialize.rs:9 | the checksum of the byte 1 alone is the standard's generator |
| SnapshotFiles.ChecksumsAsRead | src/shard/persistence/format.rs:56-64 | the numbers the reader takes for the checksums of a written file |
| SnapshotFiles.SavedBytes | src/shard/snapshot/serialize.rs:12-52 | a saved file byte by byte, its two checksums at 32 and 40 |
| SnapshotFiles.DeadlinesSurviveFiles | src/shard/snapshot/deserialize.rs:68-81 | through save and load values are kept, deadlines move by less than a second, and no key expired by the load comes back |
| SnapshotFiles.LoadedShardAcceptsIff | src/shard/shard.rs:79-93 | on every run of a loaded shard SET is accepted if and only if sizes and room allow it and the bytes after it, with the leaked ones, lie between those loaded and those loaded plus the limit |
| SnapshotFiles.LoadedShardRefusesSmallSets | src/shard/snapshot/deserialize.rs:95 | after one DEL, a SET of any key, the deleted one included, is accepted if and only if it makes up for the bytes deleted |
| SnapshotProtocol.StepKeepsInv | src/shard/worker.rs:54-72 | every step of worker, writer, disk and crash keeps the protocol's invariant |
| SnapshotProtocol.FileIsAlwaysComplete | src/shard/persistence/writer.rs:17-60 | at every point the snapshot file is the start's, absent if that was, or all bytes of one serialize_shard call |
| SnapshotProtocol.InstallsFollowTriggers | src/shard/persistence/writer.rs:17-38 | installed snapshots follow trigger order across crashes, what waits is newer, and at most one waits |
| SnapshotProtocol.TriggerIsTaken | src/shard/worker.rs:54-72 | a trigger that finds the channel open and empty has its save waiting with all its bytes; any other trigger's save is lost |
| SnapshotProtocol.SaveCanBeInstalled | src/shard/persistence/writer.rs:17-60 | a save triggered while the writer has nothing to do can be in the file six steps later |
| SnapshotProtocol.LastSaveIsOnDisk | src/shard/worker.rs:49-72 | accepted saves end in order, and the file is the last one installed: the last one taken, if nothing failed |
| SnapshotProtocol.OnlyRenamesInstall | src/shard/persistence/writer.rs:25-38 | only a rename adds a version of the file, all the bytes of the oldest unfinished job; a crash only goes back to earlier versions; failures and partial writes never touch it |
| SnapshotProtocol.InstalledOrNeverThere | src/shard/persistence/writer.rs:17-60 | the step that decides a save's fate, be it a full channel, a failure, a crash or its rename, either puts all its bytes into the file, or the file is never of that save, then or later |
| SnapshotProtocol.SavesAreOfTheShard | src/shard/worker.rs:54-55 | every save is of the shard as it was at an earlier point |
| SnapshotProtocol.WhatLoadsWasThere | src/shard/snapshot/deserialize.rs:16-100 | if the file of a save loads, it gives that earlier shard's values, for exactly the keys whose second has not come |

## Left out

- ShardStore.PopExpired: the loop works on local copies of the map and the heap, which are then assigned to the fields; the array layout of `BinaryHeap` and the buckets of `HashMap` are not modelled.
- Crc64.ShortMessagesAreSeen: CRC-64/ECMA-182 is the bit-by-bit register with that standard's generator; the tables of the `crc` crate are not modelled, and every other snapshot theorem holds for any checksum function.
- Crc16.ComputeCrc16: words are numbers below 2^16 with shifts as arithmetic, not bit-vectors.
- Commands.CommandRoundTripIff: strings are bytes that are already valid; lossy UTF-8 conversion and Unicode case mapping are not modelled, and only ASCII letters are put into upper case.
- ShardRuns.KeysAreConserved: `keys_expired` is an unbounded counter; its wrap at 2^64 expirations is not modelled.
- SnapshotProtocol.OnlyRenamesInstall: a rename is assumed atomic; when it becomes durable is left to the disk, since the code syncs the file and not its directory. A file synced before its rename is assumed to keep its content.
- Wire.RepliesAnswerTheirCommands: that the responses fit the wire (values within the size limit, messages without LF) is a hypothesis on each response, not derived from the shards; how decoding errors are worded is a parameter.
- The states of a debug build, where arithmetic overflow panics; the release build's wrap-around is modelled.
- INFO's text: whatever it says comes in as a parameter. Logging, Prometheus output, health helpers and the command line.
- Entry metadata and latency recording, which nothing reads.
- `Instant` and `SystemTime` overflow, allocation failure, the depth of the parser's recursion, and the panic at load when the system clock is before 1970.
- Two null forms are constructors of their own instead of an option inside a bulk string or an array.
- Sockets, tokio's scheduling and real timers: they are nondeterministic steps. The response channel's capacity and the writer task's buffering are a count of written responses; a command channel's senders wait in no particular order.
- Whether connections, shutdown or queues ever end: nothing is claimed about progress.
- The directory with the 64 snapshot files: the protocol is that of one shard, whose two file names no other shard uses.
- The distribution of keys over shards, which is an empirical claim.
- The text of `MultiKeyResult::to_response` and the messages of the executor: how an error is worded is a parameter of `Gathering.Aggregate`.
