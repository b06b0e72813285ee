/** The commands clients can say, letter by letter: exactly what is taken for each, and how the rest is refused. */
module CommandGrammar {
  import opened Prelude
  import opened Messages
  import opened Decimal
  import R = Resp
  import opened Commands

  /** The word in any mix of upper and lower case. */
  predicate Spelled(word: Bytes, letters: Bytes) {
    |word| == |letters| && forall i :: 0 <= i < |word| ==> word[i] == letters[i] || word[i] == letters[i] as int + 32
  }

  /** An integer, or a bulk string that reads as one. */
  predicate IsNumber(v: RespValue, n: int) {
    || (v.Integer? && v.n == n)
    || (v.BulkString? && ParseInt(v.data).Some? && ParseInt(v.data).value == n)
  }

  /** Pairs of EX in any case and seconds, the last of which give the time to live. */
  ghost predicate SaysTtl(options: seq<RespValue>, ttl: Option<nat>)
    decreases |options|
  {
    if options == [] then ttl == None
    else
      && |options| >= 2
      && options[0].BulkString? && Spelled(options[0].data, [69, 88])
      && exists seconds: nat ::
           IsNumber(options[1], seconds)
           && if |options| == 2 then ttl == Some(seconds) else SaysTtl(options[2..], ttl)
  }

  ghost predicate SaysArgs(word: Bytes, args: seq<RespValue>, command: Command) {
    match command
    case Ping(message) =>
      Spelled(word, [80, 73, 78, 71]) && args == if message.Some? then [R.BulkString(message.value)] else []
    case Set(key, value, ttl) =>
      && Spelled(word, [83, 69, 84])
      && |args| >= 2 && args[0] == R.BulkString(key) && args[1] == R.BulkString(value) && SaysTtl(args[2..], ttl)
    case Get(key) => Spelled(word, [71, 69, 84]) && args == [R.BulkString(key)]
    case Del(keys) => Spelled(word, [68, 69, 76]) && keys != [] && args == Bulks(keys)
    case Expire(key, seconds) =>
      && Spelled(word, [69, 88, 80, 73, 82, 69])
      && |args| == 2 && args[0] == R.BulkString(key) && IsNumber(args[1], seconds)
    case Ttl(key) => Spelled(word, [84, 84, 76]) && args == [R.BulkString(key)]
    // whatever else an INFO carries is ignored
    case Info(section) =>
      && Spelled(word, [73, 78, 70, 79])
      && if section.Some? then args != [] && args[0] == R.BulkString(section.value) else args == []
  }

  /** v is a form of the command. */
  ghost predicate Says(v: RespValue, command: Command) {
    && v.Array? && v.elements != [] && v.elements[0].BulkString?
    && SaysArgs(v.elements[0].data, v.elements[1..], command)
  }

  lemma UpperIffSpelled(word: Bytes, letters: Bytes)
    requires forall i :: 0 <= i < |letters| ==> 65 <= letters[i] <= 90
    ensures Upper(word) == letters <==> Spelled(word, letters)
  {
    if Upper(word) == letters {
      assert forall i :: 0 <= i < |word| ==> Upper(word)[i] == letters[i];
    }
  }

  lemma SecondsIff(v: RespValue, seconds: nat)
    ensures ExtractSeconds(v) == Ok(seconds) <==> IsNumber(v, seconds)
  {
    hide ParseInt;
  }

  lemma {:induction false} OptionsIff(options: seq<RespValue>, ttl: Option<nat>, result: Option<nat>)
    ensures SetOptions(options, ttl) == Ok(result) <==>
            if options == [] then result == ttl else SaysTtl(options, result)
    decreases |options|
  {
    hide Upper, Spelled, IsNumber, ExtractSeconds;
    if |options| >= 2 && options[0].BulkString? {
      UpperIffSpelled(options[0].data, EX);
      if ExtractSeconds(options[1]).Ok? {
        var seconds := ExtractSeconds(options[1]).value;
        SecondsIff(options[1], seconds);
        OptionsIff(options[2..], Some(seconds), result);
      }
      forall seconds: nat ensures ExtractSeconds(options[1]) == Ok(seconds) <==> IsNumber(options[1], seconds) {
        SecondsIff(options[1], seconds);
      }
    }
  }

  lemma {:induction false} KeysIff(args: seq<RespValue>, keys: seq<Key>)
    ensures ExtractKeys(args) == Ok(keys) <==> args == Bulks(keys)
  {
    if args != [] {
      if keys != [] {
        KeysIff(args[1..], keys[1..]);
        assert [keys[0]] + keys[1..] == keys;
        assert Bulks(keys) == [R.BulkString(keys[0])] + Bulks(keys[1..]);
        assert args == [args[0]] + args[1..];
        if ExtractKeys(args) == Ok(keys) {
          var rest := ExtractKeys(args[1..]).value;
          assert ([keys[0]] + rest)[1..] == rest;
        }
        if args == Bulks(keys) {
          assert args[0] == R.BulkString(keys[0]);
        }
      }
    }
  }

  /** The seven words. */
  lemma WordsIff(word: Bytes)
    ensures Upper(word) == PING <==> Spelled(word, [80, 73, 78, 71])
    ensures Upper(word) == SET <==> Spelled(word, [83, 69, 84])
    ensures Upper(word) == GET <==> Spelled(word, [71, 69, 84])
    ensures Upper(word) == DEL <==> Spelled(word, [68, 69, 76])
    ensures Upper(word) == EXPIRE <==> Spelled(word, [69, 88, 80, 73, 82, 69])
    ensures Upper(word) == TTL <==> Spelled(word, [84, 84, 76])
    ensures Upper(word) == INFO <==> Spelled(word, [73, 78, 70, 79])
  {
    hide Upper, Spelled;
    UpperIffSpelled(word, [80, 73, 78, 71]);
    UpperIffSpelled(word, [83, 69, 84]);
    UpperIffSpelled(word, [71, 69, 84]);
    UpperIffSpelled(word, [68, 69, 76]);
    UpperIffSpelled(word, [69, 88, 80, 73, 82, 69]);
    UpperIffSpelled(word, [84, 84, 76]);
    UpperIffSpelled(word, [73, 78, 70, 79]);
  }

  lemma SetIff(args: seq<RespValue>, key: Key, value: Bytes, ttl: Option<nat>)
    ensures DecodeSet(args) == Ok(Set(key, value, ttl)) <==>
              && |args| >= 2 && args[0] == R.BulkString(key) && args[1] == R.BulkString(value)
              && SaysTtl(args[2..], ttl)
  {
    hide SetOptions, SaysTtl;
    if |args| >= 2 {
      OptionsIff(args[2..], None, ttl);
      assert args[2..] == [] ==> (SaysTtl([], ttl) <==> ttl == None) by { NoOptions(ttl); }
    }
  }

  lemma NoOptions(ttl: Option<nat>)
    ensures SaysTtl([], ttl) <==> ttl == None
  {
  }

  lemma DelIff(args: seq<RespValue>, keys: seq<Key>)
    ensures DecodeDel(args) == Ok(Del(keys)) <==> keys != [] && args == Bulks(keys)
  {
    hide ExtractKeys;
    KeysIff(args, keys);
    assert |Bulks(keys)| == |keys|;
  }

  lemma ExpireIff(args: seq<RespValue>, key: Key, seconds: nat)
    ensures DecodeExpire(args) == Ok(Expire(key, seconds)) <==>
              |args| == 2 && args[0] == R.BulkString(key) && IsNumber(args[1], seconds)
  {
    hide ExtractSeconds, IsNumber;
    if |args| == 2 {
      SecondsIff(args[1], seconds);
    }
  }

  lemma OneBulkIff(args: seq<RespValue>, key: Bytes)
    ensures (|args| == 1 && ExtractBulk(args[0]) == Ok(key)) <==> args == [R.BulkString(key)]
  {
  }

  lemma DecodesIff(word: Bytes, args: seq<RespValue>, command: Command)
    ensures Decode(Upper(word), args) == Ok(command) <==> SaysArgs(word, args, command)
  {
    hide Upper, Spelled, DecodeSet, DecodeDel, DecodeExpire, SaysTtl, IsNumber, Bulks;
    WordsIff(word);
    KindsApart(args);
    match command
    case Ping(message) => if message.Some? { OneBulkIff(args, message.value); }
    case Set(key, value, ttl) => SetIff(args, key, value, ttl);
    case Get(key) => OneBulkIff(args, key);
    case Del(keys) => DelIff(args, keys);
    case Expire(key, seconds) => ExpireIff(args, key, seconds);
    case Ttl(key) => OneBulkIff(args, key);
    case Info(_) =>
  }

  /** Each decoder makes commands of its own kind. */
  lemma KindsApart(args: seq<RespValue>)
    ensures DecodeSet(args).Ok? ==> DecodeSet(args).value.Set?
    ensures DecodeDel(args).Ok? ==> DecodeDel(args).value.Del?
    ensures DecodeExpire(args).Ok? ==> DecodeExpire(args).value.Expire?
  {
    hide SetOptions, ExtractKeys, ExtractSeconds;
  }

  /** A value is decoded to a command exactly when it is a form of that command. */
  lemma FromRespIffSays(v: RespValue, command: Command)
    ensures FromResp(v) == Ok(command) <==> Says(v, command)
  {
    hide Decode, SaysArgs, Upper;
    if v.Array? && v.elements != [] && v.elements[0].BulkString? {
      DecodesIff(v.elements[0].data, v.elements[1..], command);
    }
  }

  // ---------- refusals ----------

  /** Why a value is no command at all. */
  lemma NoCommand(v: RespValue)
    ensures v.NullArray? || v == R.Array([]) ==> FromResp(v) == Err(EmptyCommand)
    ensures !v.Array? && !v.NullArray? ==> FromResp(v) == Err(InvalidFormat)
    ensures v.Array? && v.elements != [] && !v.elements[0].BulkString? ==> FromResp(v) == Err(InvalidFormat)
  {
    hide Decode;
  }

  /** A command word, and as many arguments as it takes. */
  predicate RightCount(word: Bytes, n: nat) {
    || (Spelled(word, [80, 73, 78, 71]) && n <= 1)
    || (Spelled(word, [83, 69, 84]) && n >= 2)
    || ((Spelled(word, [71, 69, 84]) || Spelled(word, [84, 84, 76])) && n == 1)
    || (Spelled(word, [68, 69, 76]) && n >= 1)
    || (Spelled(word, [69, 88, 80, 73, 82, 69]) && n == 2)
    || Spelled(word, [73, 78, 70, 79])
  }

  predicate Known(word: Bytes) {
    || Spelled(word, [80, 73, 78, 71]) || Spelled(word, [83, 69, 84]) || Spelled(word, [71, 69, 84])
    || Spelled(word, [68, 69, 76]) || Spelled(word, [69, 88, 80, 73, 82, 69]) || Spelled(word, [84, 84, 76])
    || Spelled(word, [73, 78, 70, 79])
  }

  /** An unknown word, a wrong number of arguments, and a first argument that is no bulk string. */
  lemma ArgumentRefusals(word: Bytes, args: seq<RespValue>)
    ensures !Known(word) ==> Decode(Upper(word), args) == Err(UnknownCommand(Upper(word)))
    ensures Known(word) && !RightCount(word, |args|) ==> Decode(Upper(word), args) == Err(WrongArgCount)
    ensures RightCount(word, |args|) && args != [] && !args[0].BulkString? ==>
              Decode(Upper(word), args) == Err(if args[0].NullBulk? then InvalidArgument else InvalidFormat)
  {
    hide Upper, Spelled;
    WordsIff(word);
  }

  /** Seconds that are no number, or negative, are refused. */
  lemma SecondsRefusals(v: RespValue)
    ensures (forall seconds: nat :: !IsNumber(v, seconds)) ==>
              ExtractSeconds(v) ==
              Err(if v.Integer? || v.BulkString? || v.NullBulk? then InvalidArgument else InvalidFormat)
  {
    hide ParseInt;
    if ExtractSeconds(v).Ok? {
      assert IsNumber(v, ExtractSeconds(v).value);
    }
  }

  /** SET's options are refused at the first that is not EX, that has nothing after it, or whose seconds are refused. */
  lemma OptionRefusals(options: seq<RespValue>, ttl: Option<nat>)
    requires options != []
    ensures options[0].BulkString? && !Spelled(options[0].data, [69, 88]) ==>
              SetOptions(options, ttl) == Err(InvalidArgument)
    ensures options[0].NullBulk? ==> SetOptions(options, ttl) == Err(InvalidArgument)
    ensures !options[0].BulkString? && !options[0].NullBulk? ==> SetOptions(options, ttl) == Err(InvalidFormat)
    ensures options[0].BulkString? && Spelled(options[0].data, [69, 88]) && |options| == 1 ==>
              SetOptions(options, ttl) == Err(WrongArgCount)
    ensures options[0].BulkString? && Spelled(options[0].data, [69, 88]) && |options| >= 2 ==>
              match ExtractSeconds(options[1])
              case Err(e) => SetOptions(options, ttl) == Err(e)
              case Ok(seconds) => SetOptions(options, ttl) == SetOptions(options[2..], Some(seconds))
  {
    hide Upper, Spelled, ExtractSeconds;
    if options[0].BulkString? {
      UpperIffSpelled(options[0].data, EX);
    }
  }
}
