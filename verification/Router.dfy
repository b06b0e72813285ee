/** frontend/router.rs: which shard holds a key, and a key list cut up by shard. */
module Router {
  import opened Prelude
  import opened Messages
  import opened Gf2
  import opened Binary
  import opened Crc16

  /** `crc16(key) & (SHARD_COUNT - 1)`. */
  function RouteKey(key: Key): (shard: nat)
    ensures shard < SHARD_COUNT
  {
    Crc(key) % 64
  }

  /** The shard's number is the low six bits of the remainder that is the key's CRC-16. */
  lemma RouteIsLowSixBits(key: Key, r: Poly)
    requires IsRemainder(Shift(Message(key), 16), r)
    ensures RouteKey(key) < 64
    ensures forall e: nat :: e < 6 ==> (e in Terms(RouteKey(key)) <==> e in r)
  {
    CrcIsRemainder(key);
    RemainderIsUnique(Shift(Message(key), 16), Terms(Crc(key)), r);
    hide Crc, Terms, Bit, IsRemainder;
    var low, high := Crc(key) % 64, Crc(key) / 64;
    assert Pow2(6) == 64;
    assert Crc(key) == high * Pow2(6) + low;
    forall e: nat | e < 6 ensures e in Terms(low) <==> e in Terms(Crc(key)) {
      InTerms(low, e);
      InTerms(Crc(key), e);
      BitOfJoin(high, low, 6, e);
    }
  }

  /** The keys of one shard, in the order and with the repetitions they were named. */
  function Group(keys: seq<Key>, shard: nat): seq<Key> {
    if keys == [] then []
    else
      var n := |keys| - 1;
      if RouteKey(keys[n]) == shard then Group(keys[..n], shard) + [keys[n]] else Group(keys[..n], shard)
  }

  /** A grouping by shard: every shard that has keys, with all of its keys and no other. */
  ghost predicate IsGrouping(keys: seq<Key>, grouped: map<nat, seq<Key>>) {
    forall shard: nat :: if shard in grouped then grouped[shard] == Group(keys, shard) != []
                         else Group(keys, shard) == []
  }

  method RouteKeys(keys: seq<Key>) returns (grouped: map<nat, seq<Key>>)
    ensures IsGrouping(keys, grouped)
  {
    hide RouteKey;
    grouped := map[];
    for i := 0 to |keys|
      invariant IsGrouping(keys[..i], grouped)
    {
      assert keys[..i + 1][..i] == keys[..i];
      var shard := RouteKey(keys[i]);
      var group := if shard in grouped then grouped[shard] else [];
      grouped := grouped[shard := group + [keys[i]]];
    }
    assert keys[..|keys|] == keys;
  }

  /** A group holds the keys of its shard and no other. */
  lemma {:induction false} GroupHolds(keys: seq<Key>, shard: nat)
    ensures KeySet(Group(keys, shard)) == set k | k in keys && RouteKey(k) == shard
  {
    if keys != [] {
      hide RouteKey;
      var n := |keys| - 1;
      GroupHolds(keys[..n], shard);
      assert keys == keys[..n] + [keys[n]];
      assert KeySet(Group(keys, shard)) ==
             KeySet(Group(keys[..n], shard)) + (if RouteKey(keys[n]) == shard then {keys[n]} else {});
    }
  }

  /** Groups keep order and repetitions: they are taken key by key, from any two parts of a list. */
  lemma {:induction false} GroupSplits(a: seq<Key>, b: seq<Key>, shard: nat)
    ensures Group(a + b, shard) == Group(a, shard) + Group(b, shard)
  {
    if b == [] {
      assert a + b == a;
    } else {
      hide RouteKey;
      var n := |b| - 1;
      GroupSplits(a, b[..n], shard);
      assert (a + b)[..|a + b| - 1] == a + b[..n];
    }
  }

  lemma GroupOfOne(key: Key, shard: nat)
    ensures Group([key], shard) == if RouteKey(key) == shard then [key] else []
  {
    hide RouteKey;
    assert [key][..0] == [];
  }

  ghost function GroupSizes(keys: seq<Key>, shards: nat): nat {
    if shards == 0 then 0 else GroupSizes(keys, shards - 1) + |Group(keys, shards - 1)|
  }

  /** No key is lost or sent twice: the groups of the 64 shards together are as long as the list. */
  lemma GroupsConserveKeys(keys: seq<Key>)
    ensures GroupSizes(keys, SHARD_COUNT) == |keys|
  {
    GroupSizesUpTo(keys, SHARD_COUNT);
    AllRouted(keys);
  }

  ghost function RoutedBelow(keys: seq<Key>, shards: nat): nat {
    if keys == [] then 0
    else RoutedBelow(keys[..|keys| - 1], shards) + if RouteKey(keys[|keys| - 1]) < shards then 1 else 0
  }

  lemma {:induction false} AllRouted(keys: seq<Key>)
    ensures RoutedBelow(keys, SHARD_COUNT) == |keys|
  {
    if keys != [] {
      AllRouted(keys[..|keys| - 1]);
    }
  }

  lemma {:induction false} GroupSizesUpTo(keys: seq<Key>, shards: nat)
    ensures GroupSizes(keys, shards) == RoutedBelow(keys, shards)
  {
    hide RouteKey;
    if shards == 0 {
      NothingBelowZero(keys);
    } else {
      GroupSizesUpTo(keys, shards - 1);
      OneMoreShard(keys, shards - 1);
    }
  }

  lemma {:induction false} NothingBelowZero(keys: seq<Key>)
    ensures RoutedBelow(keys, 0) == 0
  {
    if keys != [] {
      NothingBelowZero(keys[..|keys| - 1]);
    }
  }

  lemma {:induction false} OneMoreShard(keys: seq<Key>, shard: nat)
    ensures RoutedBelow(keys, shard + 1) == RoutedBelow(keys, shard) + |Group(keys, shard)|
  {
    hide RouteKey;
    if keys != [] {
      OneMoreShard(keys[..|keys| - 1], shard);
    }
  }
}

/** What is made of the answers to a scattered DEL: handler.rs and multi_key.rs. */
module Gathering {
  import opened Prelude
  import opened Messages

  function Total(responses: seq<Response>): int {
    if responses == [] then 0
    else
      var last := responses[|responses| - 1];
      Total(responses[..|responses| - 1]) + if last.Integer? then last.n else 0
  }

  function Errors(responses: seq<Response>): seq<string> {
    if responses == [] then []
    else
      var last := responses[|responses| - 1];
      Errors(responses[..|responses| - 1]) + if last.Error? then [last.message] else []
  }

  function Join(parts: seq<string>, separator: string): string {
    if parts == [] then ""
    else if |parts| == 1 then parts[0]
    else Join(parts[..|parts| - 1], separator) + separator + parts[|parts| - 1]
  }

  /** handler.rs: one failed shard makes the whole answer an error, whatever the others removed. */
  function Combine(responses: seq<Response>): Response {
    if Errors(responses) == [] then Integer(Total(responses))
    else Error("ERR partial failure: " + Join(Errors(responses), ", "))
  }

  method CombineDel(responses: seq<Response>) returns (response: Response)
    ensures response == Combine(responses)
  {
    var total := 0;
    var errors := [];
    for i := 0 to |responses|
      invariant total == Total(responses[..i]) && errors == Errors(responses[..i])
    {
      assert responses[..i + 1][..i] == responses[..i];
      match responses[i] {
        case Integer(n) => total := total + n;
        case Error(e) => errors := errors + [e];
        case _ =>
      }
    }
    assert responses[..|responses|] == responses;
    if errors == [] {
      return Integer(total);
    }
    return Error("ERR partial failure: " + Join(errors, ", "));
  }

  lemma {:induction false} NoErrors(responses: seq<Response>)
    ensures Errors(responses) == [] <==> forall i :: 0 <= i < |responses| ==> !responses[i].Error?
  {
    if responses != [] {
      var n := |responses| - 1;
      NoErrors(responses[..n]);
      assert forall i :: 0 <= i < n ==> responses[i] == responses[..n][i];
    }
  }

  /** Counts add up and messages keep their order, from any two parts of the answers. */
  lemma {:induction false} ResponsesSplit(a: seq<Response>, b: seq<Response>)
    ensures Total(a + b) == Total(a) + Total(b) && Errors(a + b) == Errors(a) + Errors(b)
  {
    if b == [] {
      assert a + b == a;
    } else {
      ResponsesSplit(a, b[..|b| - 1]);
      assert (a + b)[..|a + b| - 1] == a + b[..|b| - 1];
    }
  }

  lemma OneResponse(r: Response)
    ensures Total([r]) == (if r.Integer? then r.n else 0) && Errors([r]) == (if r.Error? then [r.message] else [])
  {
    assert [r][..0] == [];
  }

  /** Joined messages stand side by side with one separator between any two. */
  lemma {:induction false} JoinSplits(a: seq<string>, b: seq<string>, separator: string)
    requires a != [] && b != []
    ensures Join(a + b, separator) == Join(a, separator) + separator + Join(b, separator)
  {
    var n := |b| - 1;
    assert (a + b)[..|a + b| - 1] == a + b[..n];
    if n > 0 {
      JoinSplits(a, b[..n], separator);
    } else {
      assert a + b[..0] == a;
    }
  }

  lemma JoinOne(part: string, separator: string)
    ensures Join([part], separator) == part && Join([], separator) == ""
  {
  }

  // ---------- MultiKeyExecutor ----------

  /** One shard's outcome: what it deleted or why it failed. */
  datatype ShardResult = ShardResult(shard: nat, result: Result<nat, string>)

  datatype MultiKeyResult =
    | Success(n: nat)
    | PartialFailure(succeeded: nat, failedShards: seq<nat>, errors: seq<string>)
    | TotalFailure(message: string)

  function Deleted(results: seq<ShardResult>): nat {
    if results == [] then 0
    else
      var last := results[|results| - 1].result;
      Deleted(results[..|results| - 1]) + if last.Ok? then last.value else 0
  }

  function FailedShards(results: seq<ShardResult>): seq<nat> {
    if results == [] then []
    else
      var last := results[|results| - 1];
      FailedShards(results[..|results| - 1]) + if last.result.Err? then [last.shard] else []
  }

  function FailureMessages(results: seq<ShardResult>, describe: (nat, string) -> string): seq<string> {
    if results == [] then []
    else
      var last := results[|results| - 1];
      FailureMessages(results[..|results| - 1], describe) +
      if last.result.Err? then [describe(last.shard, last.result.error)] else []
  }

  /** The same of the executor's results. */
  lemma {:induction false} ResultsSplit(a: seq<ShardResult>, b: seq<ShardResult>, describe: (nat, string) -> string)
    ensures Deleted(a + b) == Deleted(a) + Deleted(b)
    ensures FailedShards(a + b) == FailedShards(a) + FailedShards(b)
    ensures FailureMessages(a + b, describe) == FailureMessages(a, describe) + FailureMessages(b, describe)
  {
    if b == [] {
      assert a + b == a;
    } else {
      ResultsSplit(a, b[..|b| - 1], describe);
      assert (a + b)[..|a + b| - 1] == a + b[..|b| - 1];
    }
  }

  lemma OneResult(r: ShardResult, describe: (nat, string) -> string)
    ensures Deleted([r]) == if r.result.Ok? then r.result.value else 0
    ensures FailedShards([r]) == if r.result.Ok? then [] else [r.shard]
    ensures FailureMessages([r], describe) == if r.result.Ok? then [] else [describe(r.shard, r.result.error)]
  {
    assert [r][..0] == [];
  }

  /** execute_del's last loop. A failure hides a count of 0: then nothing says which shards succeeded. */
  method Aggregate(results: seq<ShardResult>, describe: (nat, string) -> string) returns (r: MultiKeyResult)
    ensures r.Success? <==> forall i :: 0 <= i < |results| ==> results[i].result.Ok?
    ensures r.Success? ==> r.n == Deleted(results)
    ensures r.PartialFailure? ==> r.succeeded == Deleted(results) > 0
    ensures r.PartialFailure? ==>
              r.failedShards == FailedShards(results) != [] && r.errors == FailureMessages(results, describe)
    ensures r.TotalFailure? ==> Deleted(results) == 0 && r.message == Join(FailureMessages(results, describe), "; ")
  {
    var totalDeleted := 0;
    var failedShards: seq<nat>, errors := [], [];
    for i := 0 to |results|
      invariant totalDeleted == Deleted(results[..i])
      invariant failedShards == FailedShards(results[..i]) && errors == FailureMessages(results[..i], describe)
      invariant |errors| == |failedShards|
      invariant errors == [] <==> forall j :: 0 <= j < i ==> results[j].result.Ok?
    {
      assert results[..i + 1][..i] == results[..i];
      match results[i].result {
        case Ok(n) => totalDeleted := totalDeleted + n;
        case Err(e) =>
          failedShards := failedShards + [results[i].shard];
          errors := errors + [describe(results[i].shard, e)];
      }
    }
    assert results[..|results|] == results;
    if errors == [] {
      return Success(totalDeleted);
    } else if totalDeleted > 0 {
      return PartialFailure(totalDeleted, failedShards, errors);
    } else {
      return TotalFailure(Join(errors, "; "));
    }
  }
}
