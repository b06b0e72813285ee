/** protocol/resp.rs, protocol/parser.rs and protocol/serializer.rs: RESP2 values, printed and parsed. */
module Resp {
  import opened Prelude
  import opened ByteStreams
  import opened Decimal

  /** The null forms BulkString(None) and Array(None) are constructors of their own. */
  datatype RespValue =
    | SimpleString(text: Bytes)
    | Error(text: Bytes)
    | Integer(n: Int64)
    | BulkString(data: Bytes)
    | NullBulk
    | Array(elements: seq<RespValue>)
    | NullArray

  datatype ParseError = Incomplete | InvalidType(b: Byte) | InvalidInteger | InvalidLength | InvalidFormat

  // ---------- printing ----------

  // '+', '-', ':', '$', '*'
  const SIMPLE: Byte := 43
  const ERROR: Byte := 45
  const INTEGER: Byte := 58
  const BULK: Byte := 36
  const ARRAY: Byte := 42

  /** The first line of an encoding, after its type byte and without CRLF. */
  function Header(v: RespValue): Bytes {
    match v
    case SimpleString(text) => text
    case Error(text) => text
    case Integer(n) => ToDecimal(n)
    case BulkString(data) => ToDecimal(|data|)
    case NullBulk => ToDecimal(-1)
    case Array(elements) => ToDecimal(|elements|)
    case NullArray => ToDecimal(-1)
  }

  function TypeByte(v: RespValue): Byte {
    match v
    case SimpleString(_) => SIMPLE
    case Error(_) => ERROR
    case Integer(_) => INTEGER
    case BulkString(_) => BULK
    case NullBulk => BULK
    case Array(_) => ARRAY
    case NullArray => ARRAY
  }

  /** What follows the first line. */
  function Body(v: RespValue): Bytes
    decreases v, 0
  {
    match v
    case BulkString(data) => data + CRLF
    case Array(elements) => EncodeAll(elements)
    case _ => []
  }

  function Encode(v: RespValue): (bytes: Bytes)
    decreases v, 1
  {
    [TypeByte(v)] + Header(v) + CRLF + Body(v)
  }

  function EncodeAll(vs: seq<RespValue>): Bytes
    decreases vs
  {
    if vs == [] then [] else Encode(vs[0]) + EncodeAll(vs[1..])
  }

  lemma Assoc(a: Bytes, b: Bytes, c: Bytes)
    ensures a + b + c == a + (b + c)
  {
  }

  /** The type byte and the first line. */
  method SerializeLine(typeByte: Byte, line: Bytes, buf: ByteBuffer)
    modifies buf
    ensures buf.bytes == old(buf.bytes) + ([typeByte] + line + CRLF)
  {
    ghost var before := buf.bytes;
    buf.Extend([typeByte]);
    buf.Extend(line);
    buf.Extend(CRLF);
    Assoc(before, [typeByte], line);
    Assoc(before, [typeByte] + line, CRLF);
  }

  /** serialize_value: the recursive printer appending to one shared buffer. */
  method SerializeValue(v: RespValue, buf: ByteBuffer)
    modifies buf
    ensures buf.bytes == old(buf.bytes) + Encode(v)
    decreases v
  {
    hide ToDecimal, EncodeAll;
    ghost var before := buf.bytes;
    var typeByte := TypeByte(v);
    ghost var line := [typeByte] + Header(v) + CRLF;
    Assoc(before, line, Body(v));
    match v
    case SimpleString(text) => SerializeLine(SIMPLE, text, buf);
    case Error(text) => SerializeLine(ERROR, text, buf);
    case Integer(n) => SerializeLine(INTEGER, ToDecimal(n), buf);
    case NullBulk => SerializeLine(BULK, ToDecimal(-1), buf);
    case NullArray => SerializeLine(ARRAY, ToDecimal(-1), buf);
    case BulkString(data) =>
      SerializeLine(BULK, ToDecimal(|data|), buf);
      buf.Extend(data);
      buf.Extend(CRLF);
      Assoc(before + line, data, CRLF);
    case Array(elements) =>
      SerializeLine(ARRAY, ToDecimal(|elements|), buf);
      SerializeAll(elements, buf);
  }

  /** The loop over an array's elements. */
  method SerializeAll(elements: seq<RespValue>, buf: ByteBuffer)
    modifies buf
    ensures buf.bytes == old(buf.bytes) + EncodeAll(elements)
    decreases elements
  {
    hide Encode;
    ghost var whole := buf.bytes + EncodeAll(elements);
    for i := 0 to |elements|
      invariant buf.bytes + EncodeAll(elements[i..]) == whole
    {
      ghost var before := buf.bytes;
      SerializeValue(elements[i], buf);
      assert elements[i..][1..] == elements[i + 1..];
      Assoc(before, Encode(elements[i]), EncodeAll(elements[i + 1..]));
    }
    assert elements[|elements|..] == [];
  }

  // ---------- parsing ----------

  function Nodes(v: RespValue): nat
    decreases v, 0
  {
    1 + if v.Array? then NodesOf(v.elements) else 0
  }

  function NodesOf(vs: seq<RespValue>): nat
    decreases vs
  {
    if vs == [] then 0 else Nodes(vs[0]) + NodesOf(vs[1..])
  }

  /** read_crlf_line: no byte at all is Incomplete, but a line without its LF is already invalid. */
  function ReadCrlfLine(b: Bytes, i: nat): (r: Result<(Bytes, nat), ParseError>)
    requires i <= |b|
    ensures r.Ok? ==> i + 2 <= r.value.1 <= |b| && i + |r.value.0| + 2 == r.value.1
  {
    if i == |b| then Err(Incomplete)
    else
      var end := LineEnd(b, i);
      if end - i < 2 || b[end - 2..end] != CRLF then Err(InvalidFormat)
      else Ok((b[i..end - 2], end))
  }

  function ReadInt(b: Bytes, i: nat): (r: Result<(Int64, nat), ParseError>)
    requires i <= |b|
    ensures r.Ok? ==> i + 3 <= r.value.1 <= |b|
  {
    match ReadCrlfLine(b, i)
    case Err(e) => Err(e)
    case Ok((line, j)) =>
      match ParseInt(line)
      case None => Err(InvalidInteger)
      case Some(n) => Ok((n, j))
  }

  /** parse_value at position i: the value and where it ends. */
  function ParseValue(b: Bytes, i: nat): (r: Result<(RespValue, nat), ParseError>)
    requires i <= |b|
    ensures r.Ok? ==> i + 3 * Nodes(r.value.0) <= r.value.1 <= |b|
    decreases |b| - i, 0
  {
    if i == |b| then Err(Incomplete)
    else if b[i] == SIMPLE || b[i] == ERROR then
      match ReadCrlfLine(b, i + 1)
      case Err(e) => Err(e)
      case Ok((line, j)) => Ok((if b[i] == SIMPLE then SimpleString(line) else Error(line), j))
    else if b[i] == INTEGER || b[i] == BULK || b[i] == ARRAY then
      match ReadInt(b, i + 1)
      case Err(e) => Err(e)
      case Ok((n, j)) =>
        if b[i] == INTEGER then Ok((Integer(n), j))
        else if b[i] == BULK then ParseBulk(b, j, n)
        else ParseArray(b, j, n)
    else Err(InvalidType(b[i]))
  }

  function ParseBulk(b: Bytes, j: nat, n: Int64): (r: Result<(RespValue, nat), ParseError>)
    requires j <= |b|
    ensures r.Ok? ==> !r.value.0.Array? && j <= r.value.1 <= |b|
  {
    if n == -1 then Ok((NullBulk, j))
    else if n < -1 || n > MAX_VALUE_SIZE then Err(InvalidLength)
    else if j + n + 2 > |b| then Err(Incomplete)
    else if b[j + n..j + n + 2] != CRLF then Err(InvalidFormat)
    else Ok((BulkString(b[j..j + n]), j + n + 2))
  }

  function ParseArray(b: Bytes, j: nat, n: Int64): (r: Result<(RespValue, nat), ParseError>)
    requires j <= |b|
    ensures r.Ok? ==> j + 3 * (Nodes(r.value.0) - 1) <= r.value.1 <= |b|
    decreases |b| - j, 2
  {
    if n == -1 then Ok((NullArray, j))
    else if n < -1 then Err(InvalidLength)
    else match ParseElements(b, j, n)
      case Err(e) => Err(e)
      case Ok((vs, k)) => Ok((Array(vs), k))
  }

  function ParseElements(b: Bytes, i: nat, count: nat): (r: Result<(seq<RespValue>, nat), ParseError>)
    requires i <= |b|
    ensures r.Ok? ==> |r.value.0| == count && i + 3 * NodesOf(r.value.0) <= r.value.1 <= |b|
    decreases |b| - i, 1
  {
    if count == 0 then Ok(([], i))
    else match ParseValue(b, i)
      case Err(e) => Err(e)
      case Ok((v, j)) =>
        match ParseElements(b, j, count - 1)
        case Err(e) => Err(e)
        case Ok((vs, k)) => Ok(([v] + vs, k))
  }
}
