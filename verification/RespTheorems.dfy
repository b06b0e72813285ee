/** What the RESP2 printer and parser promise each other. */
module RespTheorems {
  import opened Prelude
  import opened ByteStreams
  import opened Decimal
  import opened Resp

  /** The values a parser can produce: no LF inside a line, bulks within the limit, countable arrays. */
  predicate Encodable(v: RespValue)
    decreases v, 0
  {
    match v
    case SimpleString(text) => LF !in text
    case Error(text) => LF !in text
    case BulkString(data) => |data| <= MAX_VALUE_SIZE
    case Array(elements) => |elements| <= I64_MAX && AllEncodable(elements)
    case _ => true
  }

  predicate AllEncodable(vs: seq<RespValue>)
    decreases vs
  {
    vs == [] || (Encodable(vs[0]) && AllEncodable(vs[1..]))
  }

  lemma EncodeSplit(b: Bytes, i: nat, v: RespValue)
    requires Holds(b, i, Encode(v))
    ensures i < |b| && b[i] == TypeByte(v)
    ensures Holds(b, i + 1, Header(v) + CRLF)
    ensures Holds(b, i + 1 + |Header(v)| + 2, Body(v))
  {
    HoldsSplit(b, i, [TypeByte(v)] + Header(v) + CRLF, Body(v));
    assert [TypeByte(v)] + Header(v) + CRLF == [TypeByte(v)] + (Header(v) + CRLF);
    HoldsSplit(b, i, [TypeByte(v)], Header(v) + CRLF);
    assert b[i..i + 1][0] == TypeByte(v);
  }

  // ---------- lines ----------

  lemma WholeLine(b: Bytes, i: nat, line: Bytes)
    requires Holds(b, i, line + CRLF) && LF !in line
    ensures ReadCrlfLine(b, i) == Ok((line, i + |line| + 2))
  {
    HoldsSplit(b, i, line, CRLF);
    var end := i + |line| + 2;
    forall k | i <= k < end - 1 ensures b[k] != LF {
      if k < i + |line| {
        assert b[k] == b[i..i + |line|][k - i];
      } else {
        assert b[k] == b[i + |line|..end][0];
      }
    }
    assert b[end - 1] == b[i + |line|..end][1] == LF;
    assert LineEnd(b, i) == end;
    assert b[i..end - 2] == line;
  }

  /** A line that has begun but not ended. */
  lemma PartOfLine(b: Bytes, i: nat, line: Bytes)
    requires i < |b| < i + |line| + 2 && b[i..] == (line + CRLF)[..|b| - i] && LF !in line
    ensures ReadCrlfLine(b, i) == Err(InvalidFormat)
  {
    forall k | i <= k < |b| ensures b[k] != LF {
      assert b[k] == b[i..][k - i] == (line + CRLF)[k - i];
    }
    assert LineEnd(b, i) == |b|;
    assert |b| - i >= 2 ==> b[|b| - 2..|b|][1] != LF;
  }

  lemma HeaderHasNoLf(v: RespValue)
    requires Encodable(v)
    ensures LF !in Header(v)
    ensures TypeByte(v) != SIMPLE && TypeByte(v) != ERROR ==>
              ParseInt(Header(v)) == Some(HeaderInt(v))
  {
    hide ParseInt, ToDecimal;
    if v.Integer? || v.BulkString? || v.NullBulk? || v.Array? || v.NullArray? {
      DecimalRoundTrip(HeaderInt(v));
      assert Header(v) == ToDecimal(HeaderInt(v));
    }
  }

  /** The number in the first line. */
  function HeaderInt(v: RespValue): Int64
    requires Encodable(v)
  {
    match v
    case Integer(n) => n
    case BulkString(data) => |data|
    case Array(elements) => |elements|
    case _ => -1
  }

  // ---------- round trip ----------

  /** Wherever an encoding stands and whatever follows it, parsing gives the value back and ends where it ends. */
  lemma {:induction false} ParseEncoded(b: Bytes, i: nat, v: RespValue)
    requires Encodable(v) && Holds(b, i, Encode(v))
    ensures ParseValue(b, i) == Ok((v, i + |Encode(v)|))
    decreases v, 0
  {
    hide ReadCrlfLine, ParseInt, ToDecimal, Nodes, Holds;
    EncodeSplit(b, i, v);
    HeaderHasNoLf(v);
    WholeLine(b, i + 1, Header(v));
    var j := i + 1 + |Header(v)| + 2;
    match v
    case BulkString(data) =>
      HoldsSplit(b, j, data, CRLF);
      BulkHeld(b, j, data);
    case Array(elements) => ParseEncodedAll(b, j, elements);
    case _ =>
  }

  lemma BulkHeld(b: Bytes, j: nat, data: Bytes)
    requires Holds(b, j, data) && Holds(b, j + |data|, CRLF) && |data| <= MAX_VALUE_SIZE
    ensures ParseBulk(b, j, |data|) == Ok((BulkString(data), j + |data| + 2))
  {
  }

  lemma {:induction false} ParseEncodedAll(b: Bytes, i: nat, vs: seq<RespValue>)
    requires AllEncodable(vs) && Holds(b, i, EncodeAll(vs))
    ensures i <= |b|
    ensures ParseElements(b, i, |vs|) == Ok((vs, i + |EncodeAll(vs)|))
    decreases vs
  {
    hide Encode, ParseValue, NodesOf, Encodable;
    if vs == [] {
      assert |b[i..i]| == 0;
    } else {
      HoldsSplit(b, i, Encode(vs[0]), EncodeAll(vs[1..]));
      ParseEncoded(b, i, vs[0]);
      ParseEncodedAll(b, i + |Encode(vs[0])|, vs[1..]);
      assert [vs[0]] + vs[1..] == vs;
    }
  }

  /** Whatever the parser returns is encodable. */
  lemma {:induction false} ParsedIsEncodable(b: Bytes, i: nat)
    requires i <= |b| && ParseValue(b, i).Ok?
    ensures Encodable(ParseValue(b, i).value.0)
    decreases |b| - i, 0
  {
    hide ParseInt, Nodes;
    if b[i] == SIMPLE || b[i] == ERROR {
      var line := ReadCrlfLine(b, i + 1).value.0;
      var end := LineEnd(b, i + 1);
      assert forall k :: 0 <= k < |line| ==> line[k] == b[i + 1 + k];
    } else if b[i] == ARRAY {
      var (n, j) := ReadInt(b, i + 1).value;
      if n >= 0 {
        ParsedAreEncodable(b, j, n);
      }
    }
  }

  lemma {:induction false} ParsedAreEncodable(b: Bytes, i: nat, count: nat)
    requires i <= |b| && ParseElements(b, i, count).Ok?
    ensures AllEncodable(ParseElements(b, i, count).value.0)
    decreases |b| - i, 1
  {
    if count > 0 {
      hide ParseValue, Nodes;
      ParsedIsEncodable(b, i);
      var (v, j) := ParseValue(b, i).value;
      ParsedAreEncodable(b, j, count - 1);
      var vs := ParseElements(b, j, count - 1).value.0;
      assert ([v] + vs)[1..] == vs;
    }
  }

  ghost predicate ParsesBack(v: RespValue, suffix: Bytes) {
    ParseValue(Encode(v) + suffix, 0) == Ok((v, |Encode(v)|))
  }

  /** Printing then parsing is the identity before any suffix, exactly for the encodable values. */
  lemma RoundTripIff(v: RespValue)
    ensures Encodable(v) <==> forall suffix: Bytes :: ParsesBack(v, suffix)
  {
    hide Encode, ParseValue, Encodable;
    if Encodable(v) {
      forall suffix: Bytes
        ensures ParsesBack(v, suffix)
      {
        assert (Encode(v) + suffix)[0..0 + |Encode(v)|] == Encode(v);
        ParseEncoded(Encode(v) + suffix, 0, v);
      }
    } else {
      if ParsesBack(v, []) {
        ParsedIsEncodable(Encode(v) + [], 0);
      }
      assert !ParsesBack(v, []);
    }
  }

  /** The failing case: a simple string with an LF in it comes back as an error. */
  lemma LfBreaksSimpleStrings()
    ensures var v := SimpleString([97, 10, 98]);
            Encode(v) == [43, 97, 10, 98, 13, 10] && ParseValue(Encode(v), 0) == Err(InvalidFormat)
  {
    var b: Bytes := [43, 97, 10, 98, 13, 10];
    assert Encode(SimpleString([97, 10, 98])) == b;
    assert b[2] == LF && b[1] != LF;
    assert LineEnd(b, 1) == 3;
    assert b[1..3] == [97, 10];
  }

  // ---------- stability ----------

  /** A value already returned does not change when bytes arrive, nor with any byte after its end. */
  lemma {:induction false} ParseIsStable(b: Bytes, c: Bytes, i: nat)
    requires i <= |b| && ParseValue(b, i).Ok?
    requires ParseValue(b, i).value.1 <= |c| && b[..ParseValue(b, i).value.1] == c[..ParseValue(b, i).value.1]
    ensures ParseValue(c, i) == ParseValue(b, i)
    decreases |b| - i, 0
  {
    hide ParseInt, Nodes, ParseBulk, ReadCrlfLine;
    var end := ParseValue(b, i).value.1;
    assert b[i] == b[..end][i] == c[..end][i] == c[i];
    SameLine(b, c, i + 1, end);
    if b[i] == BULK {
      var (n, j) := ReadInt(b, i + 1).value;
      BulkIsStable(b, c, j, n);
    } else if b[i] == ARRAY {
      var (n, j) := ReadInt(b, i + 1).value;
      if n >= 0 {
        ParseAllIsStable(b, c, j, n);
      }
    }
  }

  lemma BulkIsStable(b: Bytes, c: Bytes, j: nat, n: Int64)
    requires j <= |b| && ParseBulk(b, j, n).Ok?
    requires var end := ParseBulk(b, j, n).value.1; end <= |c| && b[..end] == c[..end]
    ensures ParseBulk(c, j, n) == ParseBulk(b, j, n)
  {
    if n >= 0 {
      var end := j + n + 2;
      assert b[j..j + n] == b[..end][j..j + n] == c[..end][j..j + n] == c[j..j + n];
      assert b[j + n..end] == b[..end][j + n..] == c[..end][j + n..] == c[j + n..end];
    }
  }

  lemma SameLine(b: Bytes, c: Bytes, i: nat, end: nat)
    requires i <= end <= |b| && end <= |c| && b[..end] == c[..end]
    requires ReadCrlfLine(b, i).Ok? && ReadCrlfLine(b, i).value.1 <= end
    ensures ReadCrlfLine(c, i) == ReadCrlfLine(b, i)
  {
    var (line, j) := ReadCrlfLine(b, i).value;
    assert forall k :: 0 <= k < end ==> b[..end][k] == c[..end][k];
    assert forall k :: 0 <= k < end ==> b[k] == c[k];
    assert b[j - 2..j] == c[j - 2..j];
    assert b[j - 2..j][1] == LF;
    assert LineEnd(c, i) == j;
    assert b[i..j - 2] == c[i..j - 2];
  }

  lemma ShorterPrefix(b: Bytes, c: Bytes, end: nat, j: nat)
    requires j <= end <= |b| && end <= |c| && b[..end] == c[..end]
    ensures b[..j] == c[..j]
  {
    assert b[..end][..j] == c[..end][..j];
  }

  lemma OneMoreElement(b: Bytes, i: nat, count: nat)
    requires i <= |b| && count > 0 && ParseValue(b, i).Ok?
    ensures var (v, j) := ParseValue(b, i).value;
            ParseElements(b, i, count) ==
            match ParseElements(b, j, count - 1)
            case Err(e) => Err(e)
            case Ok((vs, k)) => Ok(([v] + vs, k))
  {
  }

  lemma {:induction false} ParseAllIsStable(b: Bytes, c: Bytes, i: nat, count: nat)
    requires i <= |b| && ParseElements(b, i, count).Ok?
    requires var end := ParseElements(b, i, count).value.1; end <= |c| && b[..end] == c[..end]
    ensures ParseElements(c, i, count) == ParseElements(b, i, count)
    decreases |b| - i, 1
  {
    if count > 0 {
      var end := ParseElements(b, i, count).value.1;
      var (v, j) := ParseValue(b, i).value;
      hide ParseValue, ParseElements, NodesOf, Nodes;
      OneMoreElement(b, i, count);
      ShorterPrefix(b, c, end, j);
      ParseIsStable(b, c, i);
      ParseAllIsStable(b, c, j, count - 1);
      OneMoreElement(c, i, count);
    }
  }

  /** No proper prefix of an encoding parses, so no encoding is a prefix of another. */
  lemma NoPrefixParses(v: RespValue, n: nat)
    requires Encodable(v) && n < |Encode(v)|
    ensures !ParseValue(Encode(v)[..n], 0).Ok?
  {
    hide Encode, ParseValue, Encodable;
    var b, p := Encode(v), Encode(v)[..n];
    assert Holds(b, 0, Encode(v));
    ParseEncoded(b, 0, v);
    if ParseValue(p, 0).Ok? {
      var end := ParseValue(p, 0).value.1;
      assert p[..end] == b[..end];
      ParseIsStable(p, b, 0);
    }
  }

  lemma EncodingsArePrefixFree(v: RespValue, w: RespValue)
    requires Encodable(v) && Encodable(w) && Encode(v) <= Encode(w)
    ensures v == w
  {
    hide Encode, ParseValue, Encodable;
    assert Holds(Encode(w), 0, Encode(v));
    assert Holds(Encode(w), 0, Encode(w));
    ParseEncoded(Encode(w), 0, v);
    ParseEncoded(Encode(w), 0, w);
  }

  // ---------- cuts ----------

  /** A cut that leaves no header line begun and unended: before it, right after a type byte, or past it. */
  predicate SafeCut(v: RespValue, c: nat)
    decreases v, 0
  {
    || c <= 1
    || (1 + |Header(v)| + 2 <= c && (v.Array? ==> SafeCutAll(v.elements, c - (1 + |Header(v)| + 2))))
  }

  predicate SafeCutAll(vs: seq<RespValue>, c: nat)
    decreases vs
  {
    || vs == []
    || (if c < |Encode(vs[0])| then SafeCut(vs[0], c) else SafeCutAll(vs[1..], c - |Encode(vs[0])|))
  }

  /** b ends inside e, which stands at i. */
  ghost predicate EndsIn(b: Bytes, i: nat, e: Bytes) {
    i <= |b| < i + |e| && b[i..] == e[..|b| - i]
  }

  lemma EndsInSplit(b: Bytes, i: nat, x: Bytes, y: Bytes)
    requires EndsIn(b, i, x + y)
    ensures if |b| - i < |x| then EndsIn(b, i, x) else Holds(b, i, x) && EndsIn(b, i + |x|, y)
  {
    var n := |b| - i;
    if n < |x| {
      assert (x + y)[..n] == x[..n];
    } else {
      assert b[i..i + |x|] == b[i..][..|x|] == (x + y)[..n][..|x|] == x;
      assert b[i + |x|..] == b[i..][|x|..] == (x + y)[..n][|x|..] == y[..n - |x|];
    }
  }

  /** What a cut encoding parses to, for every cut: Incomplete if the cut is safe, and an error that
      closes the connection if it is not. */
  lemma {:induction false} ParseCut(b: Bytes, i: nat, v: RespValue)
    requires Encodable(v) && EndsIn(b, i, Encode(v))
    ensures ParseValue(b, i) == Err(if SafeCut(v, |b| - i) then Incomplete else InvalidFormat)
    decreases v, 0
  {
    hide ReadCrlfLine, ParseInt, ToDecimal, Nodes, Holds, EndsIn;
    var line := Header(v) + CRLF;
    if |b| > i {
      assert [TypeByte(v)] + Header(v) + CRLF + Body(v) == [TypeByte(v)] + (line + Body(v));
      EndsInSplit(b, i, [TypeByte(v)], line + Body(v));
      HoldsOne(b, i, TypeByte(v));
      HeaderHasNoLf(v);
      if |b| == i + 1 {
        NoLine(b, i + 1);
      } else {
        EndsInSplit(b, i + 1, line, Body(v));
        if |b| < i + 1 + |line| {
          LineCut(b, i + 1, Header(v));
        } else {
          WholeLine(b, i + 1, Header(v));
          ParseBodyCut(b, i + 1 + |line|, v);
        }
      }
    } else {
      EndsInStart(b, i, Encode(v));
    }
  }

  lemma HoldsOne(b: Bytes, i: nat, x: Byte)
    requires Holds(b, i, [x])
    ensures i < |b| && b[i] == x
  {
    assert b[i..i + 1][0] == x;
  }

  lemma EndsInStart(b: Bytes, i: nat, e: Bytes)
    requires EndsIn(b, i, e)
    ensures i <= |b|
  {
  }

  lemma NoLine(b: Bytes, i: nat)
    requires i == |b|
    ensures ReadCrlfLine(b, i) == Err(Incomplete)
  {
  }

  lemma LineCut(b: Bytes, i: nat, line: Bytes)
    requires i < |b| && EndsIn(b, i, line + CRLF) && LF !in line
    ensures ReadCrlfLine(b, i) == Err(InvalidFormat)
  {
    PartOfLine(b, i, line);
  }

  lemma {:induction false} ParseBodyCut(b: Bytes, j: nat, v: RespValue)
    requires Encodable(v) && EndsIn(b, j, Body(v))
    ensures j <= |b|
    ensures v.BulkString? || v.Array?
    ensures v.BulkString? ==> ParseBulk(b, j, HeaderInt(v)) == Err(Incomplete)
    ensures v.Array? ==> ParseArray(b, j, HeaderInt(v)) ==
                         Err(if SafeCutAll(v.elements, |b| - j) then Incomplete else InvalidFormat)
    decreases v, -1
  {
    if v.Array? {
      hide Encode, ParseValue;
      ParseCutAll(b, j, v.elements);
    }
  }

  lemma {:induction false} ParseCutAll(b: Bytes, i: nat, vs: seq<RespValue>)
    requires AllEncodable(vs) && EndsIn(b, i, EncodeAll(vs))
    ensures i <= |b|
    ensures ParseElements(b, i, |vs|) == Err(if SafeCutAll(vs, |b| - i) then Incomplete else InvalidFormat)
    decreases vs
  {
    hide Encode, ParseValue, Nodes, SafeCut;
    EndsInSplit(b, i, Encode(vs[0]), EncodeAll(vs[1..]));
    if |b| - i < |Encode(vs[0])| {
      ParseCut(b, i, vs[0]);
    } else {
      ParseEncoded(b, i, vs[0]);
      ParseCutAll(b, i + |Encode(vs[0])|, vs[1..]);
    }
  }
}
