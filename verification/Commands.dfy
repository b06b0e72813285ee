/** protocol/command.rs: from a RESP array to a command. */
module Commands {
  import opened Prelude
  import opened Messages
  import opened Decimal
  import R = Resp
  import T = RespTheorems

  type RespValue = R.RespValue

  datatype CommandError =
    | InvalidFormat
    | EmptyCommand
    | UnknownCommand(name: Bytes)
    | WrongArgCount
    | InvalidArgument

  const PING: Bytes := [80, 73, 78, 71]
  const SET: Bytes := [83, 69, 84]
  const GET: Bytes := [71, 69, 84]
  const DEL: Bytes := [68, 69, 76]
  const EXPIRE: Bytes := [69, 88, 80, 73, 82, 69]
  const TTL: Bytes := [84, 84, 76]
  const INFO: Bytes := [73, 78, 70, 79]
  const EX: Bytes := [69, 88]

  function Upper(word: Bytes): Bytes {
    seq(|word|, i requires 0 <= i < |word| => if 97 <= word[i] <= 122 then word[i] - 32 else word[i])
  }

  function ExtractBulk(v: RespValue): Result<Bytes, CommandError> {
    match v
    case BulkString(bytes) => Ok(bytes)
    case NullBulk => Err(InvalidArgument)
    case _ => Err(InvalidFormat)
  }

  function ExtractInteger(v: RespValue): Result<Int64, CommandError> {
    match v
    case Integer(n) => Ok(n)
    case BulkString(bytes) =>
      var n := ParseInt(bytes);
      if n.Some? then Ok(n.value) else Err(InvalidArgument)
    case NullBulk => Err(InvalidArgument)
    case _ => Err(InvalidFormat)
  }

  /** A number of seconds: an integer that is not negative. */
  function ExtractSeconds(v: RespValue): Result<nat, CommandError> {
    match ExtractInteger(v)
    case Err(e) => Err(e)
    case Ok(n) => if n < 0 then Err(InvalidArgument) else Ok(n as nat)
  }

  function FromResp(v: RespValue): Result<Command, CommandError> {
    match v
    case Array(items) =>
      if items == [] then Err(EmptyCommand)
      else if !items[0].BulkString? then Err(InvalidFormat)
      else Decode(Upper(items[0].data), items[1..])
    case NullArray => Err(EmptyCommand)
    case _ => Err(InvalidFormat)
  }

  function Decode(name: Bytes, args: seq<RespValue>): Result<Command, CommandError> {
    if name == PING then DecodePing(args)
    else if name == SET then DecodeSet(args)
    else if name == GET then DecodeKey(args, k => Get(k))
    else if name == DEL then DecodeDel(args)
    else if name == EXPIRE then DecodeExpire(args)
    else if name == TTL then DecodeKey(args, k => Ttl(k))
    else if name == INFO then DecodeInfo(args)
    else Err(UnknownCommand(name))
  }

  function DecodePing(args: seq<RespValue>): Result<Command, CommandError> {
    if args == [] then Ok(Ping(None))
    else if |args| > 1 then Err(WrongArgCount)
    else match ExtractBulk(args[0])
      case Err(e) => Err(e)
      case Ok(message) => Ok(Ping(Some(message)))
  }

  function DecodeKey(args: seq<RespValue>, make: Key -> Command): Result<Command, CommandError> {
    if |args| != 1 then Err(WrongArgCount)
    else match ExtractBulk(args[0])
      case Err(e) => Err(e)
      case Ok(key) => Ok(make(key))
  }

  function DecodeExpire(args: seq<RespValue>): Result<Command, CommandError> {
    if |args| != 2 then Err(WrongArgCount)
    else match ExtractBulk(args[0])
      case Err(e) => Err(e)
      case Ok(key) =>
        match ExtractSeconds(args[1])
        case Err(e) => Err(e)
        case Ok(seconds) => Ok(Expire(key, seconds))
  }

  /** Arguments after the first are ignored. */
  function DecodeInfo(args: seq<RespValue>): Result<Command, CommandError> {
    if args == [] then Ok(Info(None))
    else match ExtractBulk(args[0])
      case Err(e) => Err(e)
      case Ok(section) => Ok(Info(Some(section)))
  }

  function DecodeDel(args: seq<RespValue>): Result<Command, CommandError> {
    if args == [] then Err(WrongArgCount)
    else match ExtractKeys(args)
      case Err(e) => Err(e)
      case Ok(keys) => Ok(Del(keys))
  }

  function ExtractKeys(args: seq<RespValue>): Result<seq<Key>, CommandError> {
    if args == [] then Ok([])
    else match ExtractBulk(args[0])
      case Err(e) => Err(e)
      case Ok(key) =>
        match ExtractKeys(args[1..])
        case Err(e) => Err(e)
        case Ok(keys) => Ok([key] + keys)
  }

  function DecodeSet(args: seq<RespValue>): Result<Command, CommandError> {
    if |args| < 2 then Err(WrongArgCount)
    else match ExtractBulk(args[0])
      case Err(e) => Err(e)
      case Ok(key) =>
        match ExtractBulk(args[1])
        case Err(e) => Err(e)
        case Ok(value) =>
          match SetOptions(args[2..], None)
          case Err(e) => Err(e)
          case Ok(ttl) => Ok(Set(key, value, ttl))
  }

  /** The options still to be read and the expiry the earlier ones gave. */
  function SetOptions(options: seq<RespValue>, ttl: Option<nat>): Result<Option<nat>, CommandError>
    decreases |options|
  {
    if options == [] then Ok(ttl)
    else match ExtractBulk(options[0])
      case Err(e) => Err(e)
      case Ok(option) =>
        if Upper(option) != EX then Err(InvalidArgument)
        else if |options| < 2 then Err(WrongArgCount)
        else match ExtractSeconds(options[1])
          case Err(e) => Err(e)
          case Ok(seconds) => SetOptions(options[2..], Some(seconds))
  }

  /** parse_set: the option loop. */
  method ParseSet(args: seq<RespValue>) returns (r: Result<Command, CommandError>)
    ensures r == DecodeSet(args)
  {
    if |args| < 2 {
      return Err(WrongArgCount);
    }
    var key, value := ExtractBulk(args[0]), ExtractBulk(args[1]);
    if key.Err? {
      return Err(key.error);
    }
    if value.Err? {
      return Err(value.error);
    }
    var ttl: Option<nat> := None;
    var i := 2;
    while i < |args|
      invariant 2 <= i <= |args|
      invariant SetOptions(args[2..], None) == SetOptions(args[i..], ttl)
    {
      var option := ExtractBulk(args[i]);
      if option.Err? {
        return Err(option.error);
      }
      if Upper(option.value) != EX {
        return Err(InvalidArgument);
      }
      if i + 1 >= |args| {
        return Err(WrongArgCount);
      }
      var seconds := ExtractInteger(args[i + 1]);
      if seconds.Err? {
        return Err(seconds.error);
      }
      if seconds.value < 0 {
        return Err(InvalidArgument);
      }
      assert args[i..][2..] == args[i + 2..];
      ttl := Some(seconds.value);
      i := i + 2;
    }
    return Ok(Set(key.value, value.value, ttl));
  }

  /** parse_del: the push loop. */
  method ParseDel(args: seq<RespValue>) returns (r: Result<Command, CommandError>)
    ensures r == DecodeDel(args)
  {
    if args == [] {
      return Err(WrongArgCount);
    }
    var keys: seq<Key> := [];
    assert args[0..] == args;
    assert forall rest: seq<Key> :: [] + rest == rest;
    for i := 0 to |args|
      invariant ExtractKeys(args) == match ExtractKeys(args[i..])
                                     case Err(e) => Err(e)
                                     case Ok(rest) => Ok(keys + rest)
    {
      var key := ExtractBulk(args[i]);
      if key.Err? {
        return Err(key.error);
      }
      assert args[i..][1..] == args[i + 1..];
      assert forall rest: seq<Key> :: keys + ([key.value] + rest) == keys + [key.value] + rest;
      keys := keys + [key.value];
    }
    assert keys + [] == keys;
    return Ok(Del(keys));
  }

  // ---------- from commands to bytes and back ----------

  function Word(command: Command): Bytes {
    match command
    case Ping(_) => PING
    case Set(_, _, _) => SET
    case Get(_) => GET
    case Del(_) => DEL
    case Expire(_, _) => EXPIRE
    case Ttl(_) => TTL
    case Info(_) => INFO
  }

  function Payload(command: Command): seq<Bytes> {
    match command
    case Ping(message) => if message.Some? then [message.value] else []
    case Set(key, value, ttl) => [key, value] + if ttl.Some? then [EX, ToDecimal(ttl.value)] else []
    case Get(key) => [key]
    case Del(keys) => keys
    case Expire(key, seconds) => [key, ToDecimal(seconds)]
    case Ttl(key) => [key]
    case Info(section) => if section.Some? then [section.value] else []
  }

  function Bulks(payload: seq<Bytes>): seq<RespValue> {
    seq(|payload|, i requires 0 <= i < |payload| => R.BulkString(payload[i]))
  }

  /** What a client sends: an array of bulk strings, its first word in any mix of cases. */
  function Request(command: Command, word: Bytes): RespValue {
    R.Array([R.BulkString(word)] + Bulks(Payload(command)))
  }

  /** What the wire format can carry of a command. */
  predicate Sendable(command: Command) {
    && |Payload(command)| < I64_MAX
    && (forall i :: 0 <= i < |Payload(command)| ==> |Payload(command)[i]| <= MAX_VALUE_SIZE)
    && (command.Del? ==> command.keys != [])
    && (command.Set? && command.ttl.Some? ==> command.ttl.value <= I64_MAX)
    && (command.Expire? ==> command.seconds <= I64_MAX)
  }

  lemma SecondsSurvive(seconds: nat)
    ensures ExtractSeconds(R.BulkString(ToDecimal(seconds))) ==
            if seconds <= I64_MAX then Ok(seconds) else Err(InvalidArgument)
  {
    hide Magnitude, Digits;
    DigitsRoundTrip(seconds);
    assert Digits(seconds)[0] != MINUS && Digits(seconds)[0] != PLUS by {
      assert AllDigits(Digits(seconds)) && Digits(seconds) != [];
    }
  }

  lemma {:induction false} KeysSurvive(keys: seq<Key>)
    ensures ExtractKeys(Bulks(keys)) == Ok(keys)
  {
    if keys != [] {
      KeysSurvive(keys[1..]);
      assert Bulks(keys)[1..] == Bulks(keys[1..]);
      assert [keys[0]] + keys[1..] == keys;
    }
  }

  lemma {:induction false} BulksEncodable(payload: seq<Bytes>)
    ensures T.AllEncodable(Bulks(payload)) <==> forall i :: 0 <= i < |payload| ==> |payload[i]| <= MAX_VALUE_SIZE
  {
    if payload != [] {
      var rest := payload[1..];
      BulksEncodable(rest);
      assert Bulks(payload)[1..] == Bulks(rest);
      assert Bulks(payload)[0] == R.BulkString(payload[0]);
      assert forall i :: 0 <= i < |rest| ==> rest[i] == payload[i + 1];
      assert forall i :: 1 <= i < |payload| ==> payload[i] == rest[i - 1];
    }
  }

  /** What the argument decoders ask for, beyond what the wire carries. */
  predicate Decodable(command: Command) {
    && (command.Del? ==> command.keys != [])
    && (command.Set? && command.ttl.Some? ==> command.ttl.value <= I64_MAX)
    && (command.Expire? ==> command.seconds <= I64_MAX)
  }

  lemma UpperEx()
    ensures Upper(EX) == EX
  {
  }

  lemma SetDecodesBack(key: Key, value: Bytes, ttl: Option<nat>)
    ensures DecodeSet(Bulks(Payload(Set(key, value, ttl)))) == Ok(Set(key, value, ttl))
            <==> (ttl.Some? ==> ttl.value <= I64_MAX)
  {
    hide ToDecimal, ExtractSeconds, Upper;
    UpperEx();
    var args := Bulks(Payload(Set(key, value, ttl)));
    if ttl.Some? {
      SecondsSurvive(ttl.value);
      assert args[2..] == [R.BulkString(EX), R.BulkString(ToDecimal(ttl.value))];
      assert args[2..][2..] == [];
      assert SetOptions([], Some(ttl.value)) == Ok(Some(ttl.value));
    } else {
      assert args[2..] == [];
    }
  }

  lemma DecodesBackIff(command: Command)
    ensures Decode(Word(command), Bulks(Payload(command))) == Ok(command) <==> Decodable(command)
  {
    hide ToDecimal, ExtractSeconds, SetOptions;
    var args := Bulks(Payload(command));
    match command
    case Set(key, value, ttl) => SetDecodesBack(key, value, ttl);
    case Del(keys) => KeysSurvive(keys);
    case Expire(key, seconds) => SecondsSurvive(seconds);
    case _ =>
  }

  /** A request goes through the printer, the parser and from_resp, whatever follows it on the wire and
      whatever the case of its first word, and comes out as the same command, exactly for the sendable
      commands. */
  lemma CommandRoundTripIff(command: Command, word: Bytes)
    requires Upper(word) == Word(command)
    ensures Sendable(command) <==>
            && (forall suffix: Bytes :: T.ParsesBack(Request(command, word), suffix))
            && FromResp(Request(command, word)) == Ok(command)
  {
    var v := Request(command, word);
    T.RoundTripIff(v);
    assert T.Encodable(v) <==> |Payload(command)| < I64_MAX && T.AllEncodable(Bulks(Payload(command))) by {
      assert v.elements[1..] == Bulks(Payload(command));
      assert |word| == |Upper(word)| <= 6;
      assert v.elements[0] == R.BulkString(word) && T.Encodable(v.elements[0]);
    }
    BulksEncodable(Payload(command));
    assert FromResp(v) == Decode(Word(command), Bulks(Payload(command))) by {
      assert v.elements[1..] == Bulks(Payload(command));
    }
    hide Decode, Payload, Bulks, T.ParsesBack;
    DecodesBackIff(command);
  }

  /** EX options one after the other, each spelled in any case. */
  function ExOptions(words: seq<Bytes>, seconds: seq<nat>): seq<RespValue>
    requires |words| == |seconds|
  {
    if words == [] then []
    else [R.BulkString(words[0]), R.BulkString(ToDecimal(seconds[0]))] + ExOptions(words[1..], seconds[1..])
  }

  /** However many EX options a SET carries, the last one wins. */
  lemma {:induction false} LastExWins(words: seq<Bytes>, seconds: seq<nat>, ttl: Option<nat>)
    requires |words| == |seconds|
    requires forall i :: 0 <= i < |words| ==> Upper(words[i]) == EX && seconds[i] <= I64_MAX
    ensures SetOptions(ExOptions(words, seconds), ttl) ==
            Ok(if seconds == [] then ttl else Some(seconds[|seconds| - 1]))
  {
    hide ToDecimal, ExtractSeconds, Upper;
    if words != [] {
      var options := ExOptions(words, seconds);
      SecondsSurvive(seconds[0]);
      LastExWins(words[1..], seconds[1..], Some(seconds[0]));
      assert options[2..] == ExOptions(words[1..], seconds[1..]);
    }
  }
}
