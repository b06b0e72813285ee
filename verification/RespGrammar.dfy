/** RESP2 on the wire, byte by byte: what every value is printed as, and exactly what is taken for it. */
module RespGrammar {
  import opened Prelude
  import opened ByteStreams
  import opened Decimal
  import opened Resp
  import opened RespTheorems

  /** A type byte, a line and CRLF. */
  function Line(typeByte: Byte, line: Bytes): Bytes {
    [typeByte] + line + [13, 10]
  }

  /** The RESP2 specification: b is a form of v. Numbers may be in any decimal form an i64 can have. */
  ghost predicate Spells(b: Bytes, v: RespValue)
    decreases v, 0
  {
    match v
    case SimpleString(text) => 10 !in text && b == Line(43, text)
    case Error(text) => 10 !in text && b == Line(45, text)
    case Integer(n) => exists line :: ParseInt(line) == Some(n) && b == Line(58, line)
    case BulkString(data) =>
      |data| <= 536_870_912 && exists line :: ParseInt(line) == Some(|data|) && b == Line(36, line) + data + [13, 10]
    case NullBulk => exists line :: ParseInt(line) == Some(-1) && b == Line(36, line)
    case Array(elements) =>
      exists line, rest ::
        |elements| <= I64_MAX && ParseInt(line) == Some(|elements|) && b == Line(42, line) + rest
        && SpellsAll(rest, elements)
    case NullArray => exists line :: ParseInt(line) == Some(-1) && b == Line(42, line)
  }

  ghost predicate SpellsAll(b: Bytes, vs: seq<RespValue>)
    decreases vs
  {
    if vs == [] then b == []
    else exists first, rest :: b == first + rest && Spells(first, vs[0]) && SpellsAll(rest, vs[1..])
  }

  // ---------- printing ----------

  /** What is printed for each of the seven kinds of values. */
  lemma OnTheWire(v: RespValue)
    ensures match v
            case SimpleString(text) => Encode(v) == [43] + text + [13, 10]
            case Error(text) => Encode(v) == [45] + text + [13, 10]
            case Integer(n) => Encode(v) == [58] + ToDecimal(n) + [13, 10]
            case BulkString(data) => Encode(v) == [36] + ToDecimal(|data|) + [13, 10] + data + [13, 10]
            case NullBulk => Encode(v) == [36, 45, 49, 13, 10]
            case Array(elements) => Encode(v) == [42] + ToDecimal(|elements|) + [13, 10] + EncodeAll(elements)
            case NullArray => Encode(v) == [42, 45, 49, 13, 10]
  {
    match v
    case BulkString(data) =>
      var head := [36] + ToDecimal(|data|) + [13, 10];
      Assoc(head, data, [13, 10]);
    case NullBulk => MinusOne();
    case NullArray => MinusOne();
    case _ =>
      assert Body(v) == [] || v.Array?;
  }

  lemma MinusOne()
    ensures ToDecimal(-1) == [45, 49]
  {
  }

  // ---------- parsing ----------

  /** A line that was read, and the bytes it was read from. */
  lemma LineWasThere(b: Bytes, i: nat, line: Bytes, j: nat)
    requires i <= |b| && ReadCrlfLine(b, i) == Ok((line, j))
    ensures i <= j <= |b| && b[i..j] == line + [13, 10] && 10 !in line
  {
    assert b[j - 2..j] == [13, 10];
    assert b[i..j] == b[i..j - 2] + b[j - 2..j];
    assert forall k :: 0 <= k < |line| ==> line[k] == b[i + k];
  }

  lemma NumberHasNoLf(line: Bytes)
    requires ParseInt(line).Some?
    ensures 10 !in line
  {
    ParseIntIff(line, ParseInt(line).value);
    hide ParseInt, DigitsValue;
    assert forall k :: 1 <= k < |line| ==> line[k] == line[1..][k - 1];
  }

  lemma NumberWasThere(b: Bytes, i: nat, n: Int64, k: nat) returns (line: Bytes)
    requires i < |b| && ReadInt(b, i + 1) == Ok((n, k))
    ensures i < k <= |b| && ParseInt(line) == Some(n) && b[i..k] == Line(b[i], line)
  {
    hide ParseInt, ReadCrlfLine;
    line := ReadCrlfLine(b, i + 1).value.0;
    LineWasThere(b, i + 1, line, k);
    assert b[i..k] == [b[i]] + b[i + 1..k];
  }

  lemma BulkWasThere(b: Bytes, i: nat, line: Bytes, n: Int64, k: nat, v: RespValue, j: nat)
    requires i < k <= |b| && ParseInt(line) == Some(n) && b[i..k] == Line(36, line) && ParseBulk(b, k, n) == Ok((v, j))
    ensures i <= j <= |b| && Spells(b[i..j], v)
  {
    hide ParseInt;
    if n != -1 {
      assert b[i..j] == b[i..k] + b[k..k + n] + b[k + n..j];
    }
  }

  /** What the parser took is a form of what it returned. */
  lemma {:induction false} ParsedWasSpelled(b: Bytes, i: nat, v: RespValue, j: nat)
    requires i <= |b| && ParseValue(b, i) == Ok((v, j))
    ensures i <= j <= |b| && Spells(b[i..j], v)
    decreases |b| - i, 0
  {
    hide ParseInt, ReadCrlfLine, ReadInt, ParseBulk, Nodes, NodesOf, SpellsAll, Line;
    if b[i] == SIMPLE || b[i] == ERROR {
      TextWasThere(b, i, v, j);
    } else {
      var (n, k) := ReadInt(b, i + 1).value;
      var line := NumberWasThere(b, i, n, k);
      if b[i] == BULK {
        BulkWasThere(b, i, line, n, k, v, j);
      } else if b[i] == ARRAY && n >= 0 {
        ParsedWereSpelled(b, k, n, v.elements, j);
        assert b[i..j] == b[i..k] + b[k..j];
      }
    }
  }

  lemma TextWasThere(b: Bytes, i: nat, v: RespValue, j: nat)
    requires i < |b| && (b[i] == 43 || b[i] == 45) && ParseValue(b, i) == Ok((v, j))
    ensures i <= j <= |b| && Spells(b[i..j], v)
  {
    hide ReadCrlfLine;
    var line := ReadCrlfLine(b, i + 1).value.0;
    LineWasThere(b, i + 1, line, j);
    assert b[i..j] == [b[i]] + b[i + 1..j];
  }

  lemma {:induction false} ParsedWereSpelled(b: Bytes, i: nat, count: nat, vs: seq<RespValue>, j: nat)
    requires i <= |b| && ParseElements(b, i, count) == Ok((vs, j))
    ensures i <= j <= |b| && SpellsAll(b[i..j], vs)
    decreases |b| - i, 1
  {
    hide ParseValue, NodesOf, Spells;
    if count > 0 {
      var (v, k) := ParseValue(b, i).value;
      ParsedWasSpelled(b, i, v, k);
      var (rest, end) := ParseElements(b, k, count - 1).value;
      ParsedWereSpelled(b, k, count - 1, rest, end);
      assert vs[1..] == rest;
      assert b[i..j] == b[i..k] + b[k..j];
    }
  }

  /** Every form of a value is parsed as that value, wherever it stands. */
  lemma {:induction false} SpelledIsParsed(b: Bytes, i: nat, e: Bytes, v: RespValue)
    requires Holds(b, i, e) && Spells(e, v)
    ensures ParseValue(b, i) == Ok((v, i + |e|))
    decreases v, 0
  {
    hide ParseInt, ReadCrlfLine, ReadInt, ParseBulk, Nodes, NodesOf, SpellsAll, Holds;
    match v
    case SimpleString(text) => LineIsRead(b, i, 43, text, []);
    case Error(text) => LineIsRead(b, i, 45, text, []);
    case Integer(n) =>
      var line :| ParseInt(line) == Some(n) && e == Line(58, line);
      NumberIsRead(b, i, 58, line, []);
    case NullBulk =>
      var line :| ParseInt(line) == Some(-1) && e == Line(36, line);
      NumberIsRead(b, i, 36, line, []);
      NullIsRead(b, i + |line| + 3);
    case NullArray =>
      var line :| ParseInt(line) == Some(-1) && e == Line(42, line);
      NumberIsRead(b, i, 42, line, []);
    case BulkString(data) =>
      var line :| ParseInt(line) == Some(|data|) && e == Line(36, line) + data + [13, 10];
      BulkIsRead(b, i, line, data);
    case Array(elements) =>
      var line, rest :| |elements| <= I64_MAX && ParseInt(line) == Some(|elements|) && e == Line(42, line) + rest
                        && SpellsAll(rest, elements);
      NumberIsRead(b, i, 42, line, rest);
      SpelledAreParsed(b, i + |line| + 3, rest, elements);
  }

  lemma LineIsRead(b: Bytes, i: nat, typeByte: Byte, line: Bytes, rest: Bytes)
    requires 10 !in line
    requires Holds(b, i, Line(typeByte, line) + rest) || (rest == [] && Holds(b, i, Line(typeByte, line)))
    ensures i < |b| && b[i] == typeByte
    ensures ReadCrlfLine(b, i + 1) == Ok((line, i + |line| + 3))
    ensures Holds(b, i + |line| + 3, rest)
  {
    hide ReadCrlfLine;
    if rest == [] {
      assert Line(typeByte, line) + [] == Line(typeByte, line);
    }
    HoldsSplit(b, i, Line(typeByte, line), rest);
    assert Line(typeByte, line) == [typeByte] + (line + CRLF);
    HoldsSplit(b, i, [typeByte], line + CRLF);
    assert b[i..i + 1][0] == typeByte;
    WholeLine(b, i + 1, line);
  }

  lemma BulkIsRead(b: Bytes, i: nat, line: Bytes, data: Bytes)
    requires ParseInt(line) == Some(|data|) && |data| <= 536_870_912
    requires Holds(b, i, Line(36, line) + data + [13, 10])
    ensures i < |b| && b[i] == 36
    ensures ReadInt(b, i + 1) == Ok((|data|, i + |line| + 3))
    ensures i + |line| + 3 <= |b|
    ensures ParseBulk(b, i + |line| + 3, |data|) == Ok((BulkString(data), i + |Line(36, line) + data + [13, 10]|))
  {
    hide ParseInt, ReadInt, ParseBulk, Holds;
    Assoc(Line(36, line), data, [13, 10]);
    NumberIsRead(b, i, 36, line, data + [13, 10]);
    HoldsSplit(b, i + |line| + 3, data, [13, 10]);
    BulkHeld(b, i + |line| + 3, data);
  }

  lemma NullIsRead(b: Bytes, j: nat)
    requires Holds(b, j, [])
    ensures j <= |b| && ParseBulk(b, j, -1) == Ok((NullBulk, j))
  {
  }

  lemma NumberIsRead(b: Bytes, i: nat, typeByte: Byte, line: Bytes, rest: Bytes)
    requires ParseInt(line).Some?
    requires Holds(b, i, Line(typeByte, line) + rest) || (rest == [] && Holds(b, i, Line(typeByte, line)))
    ensures i < |b| && b[i] == typeByte
    ensures ReadInt(b, i + 1) == Ok((ParseInt(line).value, i + |line| + 3))
    ensures Holds(b, i + |line| + 3, rest)
  {
    hide ParseInt, ReadCrlfLine;
    NumberHasNoLf(line);
    LineIsRead(b, i, typeByte, line, rest);
  }

  lemma {:induction false} SpelledAreParsed(b: Bytes, i: nat, e: Bytes, vs: seq<RespValue>)
    requires Holds(b, i, e) && SpellsAll(e, vs)
    ensures i <= |b| && ParseElements(b, i, |vs|) == Ok((vs, i + |e|))
    decreases vs
  {
    hide ParseValue, NodesOf, Spells;
    if vs != [] {
      var first, rest :| e == first + rest && Spells(first, vs[0]) && SpellsAll(rest, vs[1..]);
      HoldsSplit(b, i, first, rest);
      SpelledIsParsed(b, i, first, vs[0]);
      SpelledAreParsed(b, i + |first|, rest, vs[1..]);
      assert [vs[0]] + vs[1..] == vs;
    }
  }

  /** The parser returns a value exactly for the bytes that RESP2 says are one, and takes exactly those. */
  lemma ParsesIffSpelled(b: Bytes, i: nat, v: RespValue, j: nat)
    requires i <= j <= |b|
    ensures ParseValue(b, i) == Ok((v, j)) <==> Spells(b[i..j], v)
  {
    hide ParseValue, Spells;
    if Spells(b[i..j], v) {
      SpelledIsParsed(b, i, b[i..j], v);
    } else if ParseValue(b, i) == Ok((v, j)) {
      ParsedWasSpelled(b, i, v, j);
    }
  }

  // ---------- refusals ----------

  /** What the parser says to no byte, and to a wrong type byte. */
  lemma TypeRefusals(b: Bytes, i: nat)
    requires i <= |b|
    ensures i == |b| ==> ParseValue(b, i) == Err(Incomplete)
    ensures i < |b| && b[i] !in {43, 45, 58, 36, 42} ==> ParseValue(b, i) == Err(InvalidType(b[i]))
    ensures i + 1 == |b| && b[i] in {43, 45, 58, 36, 42} ==> ParseValue(b, i) == Err(Incomplete)
  {
    hide ParseInt, Nodes, NodesOf;
  }

  /** What it says to a line that has begun and whose first LF, at k, is missing or stands without its CR. */
  lemma LineRefusals(b: Bytes, i: nat, k: nat)
    requires i + 1 < |b| && b[i] in {43, 45, 58, 36, 42}
    requires i < k <= |b| && (forall m :: i < m < k ==> b[m] != 10)
    requires k < |b| ==> b[k] == 10 && (k == i + 1 || b[k - 1] != 13)
    ensures ParseValue(b, i) == Err(InvalidFormat)
  {
    NoCrlf(b, i + 1, k);
    hide ParseInt, Nodes, NodesOf, ReadCrlfLine;
  }

  lemma NoCrlf(b: Bytes, i: nat, k: nat)
    requires i <= k <= |b| && i < |b| && (forall m :: i <= m < k ==> b[m] != 10)
    requires k < |b| ==> b[k] == 10 && (k == i || b[k - 1] != 13)
    ensures ReadCrlfLine(b, i) == Err(InvalidFormat)
  {
    var end := LineEnd(b, i);
    if k < |b| {
      assert end == k + 1;
      assert end - i >= 2 ==> b[end - 2..end][0] == b[k - 1];
    } else {
      assert end == |b|;
      assert end - i >= 2 ==> b[end - 2..end][1] == b[|b| - 1];
    }
  }

  /** What the parser says to a whole line after a number's type byte. */
  lemma NumberRefusals(b: Bytes, i: nat, typeByte: Byte, line: Bytes)
    requires typeByte in {58, 36, 42} && 10 !in line && Holds(b, i, Line(typeByte, line))
    ensures ParseInt(line) == None ==> ParseValue(b, i) == Err(InvalidInteger)
    ensures ParseInt(line).Some? && typeByte != 58 && ParseInt(line).value < -1 ==>
              ParseValue(b, i) == Err(InvalidLength)
    ensures ParseInt(line).Some? && typeByte == 36 ==>
              var n, j := ParseInt(line).value, i + |line| + 3;
              && (n > 536_870_912 ==> ParseValue(b, i) == Err(InvalidLength))
              && (0 <= n <= 536_870_912 && j + n + 2 > |b| ==> ParseValue(b, i) == Err(Incomplete))
              && (0 <= n <= 536_870_912 && j + n + 2 <= |b| && !(b[j + n] == 13 && b[j + n + 1] == 10) ==>
                    ParseValue(b, i) == Err(InvalidFormat))
  {
    hide ParseInt, ReadCrlfLine, Nodes, NodesOf, Holds;
    LineIsRead(b, i, typeByte, line, []);
    Ends(b, i + |line| + 3);
  }

  lemma Ends(b: Bytes, j: nat)
    requires Holds(b, j, [])
    ensures j <= |b|
  {
  }

  /** An array whose count was read fails as its first element that does not parse. */
  lemma {:induction false} ArrayRefusals(b: Bytes, i: nat, line: Bytes, count: nat, done: nat, e: ParseError)
    requires 10 !in line && Holds(b, i, Line(42, line)) && ParseInt(line) == Some(count) && done < count
    requires i + |line| + 3 <= |b| && ParseElements(b, i + |line| + 3, done).Ok?
    requires ParseValue(b, ParseElements(b, i + |line| + 3, done).value.1) == Err(e)
    ensures ParseValue(b, i) == Err(e)
  {
    hide ParseInt, ReadCrlfLine, Nodes, NodesOf, Holds, ParseElements;
    LineIsRead(b, i, 42, line, []);
    ElementsFail(b, i + |line| + 3, count, done, e);
  }

  lemma {:induction false} ElementsFail(b: Bytes, i: nat, count: nat, done: nat, e: ParseError)
    requires i <= |b| && done < count && ParseElements(b, i, done).Ok?
    requires ParseValue(b, ParseElements(b, i, done).value.1) == Err(e)
    ensures ParseElements(b, i, count) == Err(e)
    decreases done
  {
    hide ParseValue, NodesOf;
    if done > 0 {
      ElementsFail(b, ParseValue(b, i).value.1, count - 1, done - 1, e);
    }
  }
}
