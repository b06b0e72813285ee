/** protocol/parser.rs as it runs: a byte cursor that advances through calls, and the streaming buffer. */
module RespParsing {
  import opened Prelude
  import opened ByteStreams
  import opened Decimal
  import opened Resp

  /** How a parse that ended at the cursor agrees with its specification. */
  ghost predicate Agrees<T>(r: Result<T, ParseError>, position: nat, spec: Result<(T, nat), ParseError>) {
    match spec
    case Ok((v, j)) => r == Ok(v) && position == j
    case Err(e) => r == Err(e)
  }

  method ReadCrlfLineFrom(reader: ByteCursor) returns (r: Result<Bytes, ParseError>)
    requires reader.Valid()
    modifies reader
    ensures reader.Valid()
    ensures Agrees(r, reader.position, ReadCrlfLine(reader.data, old(reader.position)))
  {
    var start := reader.position;
    var line := reader.ReadLine();
    if line == [] {
      return Err(Incomplete);
    }
    if |line| < 2 || line[|line| - 2..] != CRLF {
      return Err(InvalidFormat);
    }
    assert line[|line| - 2..] == reader.data[reader.position - 2..reader.position];
    assert line[..|line| - 2] == reader.data[start..reader.position - 2];
    return Ok(line[..|line| - 2]);
  }

  method ReadIntFrom(reader: ByteCursor) returns (r: Result<Int64, ParseError>)
    requires reader.Valid()
    modifies reader
    ensures reader.Valid()
    ensures Agrees(r, reader.position, ReadInt(reader.data, old(reader.position)))
  {
    hide ParseInt, ReadCrlfLine;
    var line := ReadCrlfLineFrom(reader);
    match line
    case Err(e) => return Err(e);
    case Ok(text) =>
      match ParseInt(text)
      case None => return Err(InvalidInteger);
      case Some(n) => return Ok(n);
  }

  method ParseValueFrom(reader: ByteCursor) returns (r: Result<RespValue, ParseError>)
    requires reader.Valid()
    modifies reader
    ensures reader.Valid()
    ensures Agrees(r, reader.position, ParseValue(reader.data, old(reader.position)))
    decreases |reader.data| - reader.position, 0
  {
    hide ReadCrlfLine, ReadInt, ParseBulk, ParseArray, Nodes;
    var typeByte := reader.ReadExact(1);
    if typeByte.None? {
      return Err(Incomplete);
    }
    var b := typeByte.value[0];
    if b == SIMPLE || b == ERROR {
      var line := ReadCrlfLineFrom(reader);
      match line
      case Err(e) => return Err(e);
      case Ok(text) => return Ok(if b == SIMPLE then SimpleString(text) else Error(text));
    } else if b == INTEGER || b == BULK || b == ARRAY {
      var line := ReadIntFrom(reader);
      match line
      case Err(e) => return Err(e);
      case Ok(n) =>
        if b == INTEGER {
          return Ok(Integer(n));
        } else if b == BULK {
          r := ParseBulkFrom(reader, n);
        } else {
          r := ParseArrayFrom(reader, n);
        }
    } else {
      return Err(InvalidType(b));
    }
  }

  method ParseBulkFrom(reader: ByteCursor, n: Int64) returns (r: Result<RespValue, ParseError>)
    requires reader.Valid()
    modifies reader
    ensures reader.Valid()
    ensures Agrees(r, reader.position, ParseBulk(reader.data, old(reader.position), n))
  {
    if n == -1 {
      return Ok(NullBulk);
    }
    if n < -1 || n > MAX_VALUE_SIZE {
      return Err(InvalidLength);
    }
    var data := reader.ReadExact(n);
    if data.None? {
      return Err(Incomplete);
    }
    var crlf := reader.ReadExact(2);
    if crlf.None? {
      return Err(Incomplete);
    }
    if crlf.value != CRLF {
      return Err(InvalidFormat);
    }
    return Ok(BulkString(data.value));
  }

  /** The push loop that fills an array. */
  method ParseArrayFrom(reader: ByteCursor, n: Int64) returns (r: Result<RespValue, ParseError>)
    requires reader.Valid()
    modifies reader
    ensures reader.Valid()
    ensures Agrees(r, reader.position, ParseArray(reader.data, old(reader.position), n))
    decreases |reader.data| - reader.position, 1
  {
    hide ParseValue, Nodes;
    if n == -1 {
      return Ok(NullArray);
    }
    if n < -1 {
      return Err(InvalidLength);
    }
    ghost var spec := ParseElements(reader.data, reader.position, n);
    ghost var start := reader.position;
    var elements: seq<RespValue> := [];
    PrependNothing(spec);
    for i := 0 to n
      invariant reader.Valid() && start <= reader.position
      invariant spec == Prepend(elements, ParseElements(reader.data, reader.position, n - i))
    {
      var element := ParseValueFrom(reader);
      match element
      case Err(e) => return Err(e);
      case Ok(v) =>
        PrependOne(elements, v, ParseElements(reader.data, reader.position, n - i - 1));
        elements := elements + [v];
    }
    assert elements + [] == elements;
    return Ok(Array(elements));
  }

  ghost function Prepend(vs: seq<RespValue>, r: Result<(seq<RespValue>, nat), ParseError>)
    : Result<(seq<RespValue>, nat), ParseError>
  {
    match r
    case Err(e) => Err(e)
    case Ok((rest, k)) => Ok((vs + rest, k))
  }

  lemma PrependNothing(r: Result<(seq<RespValue>, nat), ParseError>)
    ensures Prepend([], r) == r
  {
    if r.Ok? {
      assert [] + r.value.0 == r.value.0;
    }
  }

  lemma PrependOne(vs: seq<RespValue>, v: RespValue, r: Result<(seq<RespValue>, nat), ParseError>)
    ensures Prepend(vs, Prepend([v], r)) == Prepend(vs + [v], r)
  {
    if r.Ok? {
      assert vs + ([v] + r.value.0) == vs + [v] + r.value.0;
    }
  }

  /** What parse() answers for the unread bytes, and how many it takes. */
  function ParseUnread(unread: Bytes): Result<(Option<RespValue>, nat), ParseError> {
    if unread == [] then Ok((None, 0))
    else match ParseValue(unread, 0)
      case Ok((v, n)) => Ok((Some(v), n))
      case Err(Incomplete) => Ok((None, 0))
      case Err(e) => Err(e)
  }

  class RespParser {
    var buffer: Bytes
    var cursor: nat

    ghost predicate Valid()
      reads this
    {
      cursor <= |buffer|
    }

    ghost function Unread(): Bytes
      requires Valid()
      reads this
    {
      buffer[cursor..]
    }

    constructor ()
      ensures Valid() && Unread() == []
    {
      buffer, cursor := [], 0;
    }

    method Feed(data: Bytes)
      requires Valid()
      modifies this
      ensures Valid() && Unread() == old(Unread()) + data
    {
      buffer := buffer + data;
    }

    /** A value moves the cursor past its encoding; None and errors leave it where it was. */
    method Parse() returns (r: Result<Option<RespValue>, ParseError>)
      requires Valid()
      modifies this
      ensures Valid() && buffer == old(buffer)
      ensures match ParseUnread(old(Unread()))
              case Ok((v, n)) => r == Ok(v) && cursor == old(cursor) + n
              case Err(e) => r == Err(e) && cursor == old(cursor)
    {
      if cursor >= |buffer| {
        return Ok(None);
      }
      var start := cursor;
      var reader := new ByteCursor(buffer[start..]);
      var value := ParseValueFrom(reader);
      match value
      case Ok(v) =>
        cursor := start + reader.position;
        return Ok(Some(v));
      case Err(Incomplete) => return Ok(None);
      case Err(e) => return Err(e);
    }

    method Compact()
      requires Valid()
      modifies this
      ensures Valid() && cursor == 0 && Unread() == old(Unread())
    {
      if cursor > 0 {
        buffer := buffer[cursor..];
        cursor := 0;
      }
    }
  }
}
