/** The reader loop of frontend/handler.rs: feed a chunk, parse until nothing more is complete, compact. */
module RespStreaming {
  import opened Prelude
  import opened ByteStreams
  import opened Resp
  import opened RespTheorems
  import opened RespParsing

  /** The values drawn, whether the loop goes on (a parse error ends the connection), and what stays unread. */
  datatype Reading = Reading(values: seq<RespValue>, alive: bool, unread: Bytes)

  /** The inner loop: parse() until it answers None or an error. */
  function Drain(unread: Bytes): (r: Reading)
    decreases |unread|
  {
    match ParseUnread(unread)
    case Err(_) => Reading([], false, unread)
    case Ok((None, _)) => Reading([], true, unread)
    case Ok((Some(v), n)) =>
      var rest := Drain(unread[n..]);
      Reading([v] + rest.values, rest.alive, rest.unread)
  }

  /** The outer loop: one turn per chunk the socket delivers. */
  function ReadChunks(unread: Bytes, chunks: seq<Bytes>): Reading
    decreases |chunks|
  {
    if chunks == [] then Reading([], true, unread)
    else
      var first := Drain(unread + chunks[0]);
      if !first.alive then first
      else
        var rest := ReadChunks(first.unread, chunks[1..]);
        Reading(first.values + rest.values, rest.alive, rest.unread)
  }

  ghost function After(values: seq<RespValue>, r: Reading): Reading {
    Reading(values + r.values, r.alive, r.unread)
  }

  lemma AfterNothing(r: Reading)
    ensures After([], r) == r
  {
    assert [] + r.values == r.values;
  }

  lemma AfterMore(values: seq<RespValue>, more: seq<RespValue>, r: Reading)
    ensures After(values, After(more, r)) == After(values + more, r)
  {
    assert values + (more + r.values) == values + more + r.values;
  }

  method DrainParser(parser: RespParser) returns (values: seq<RespValue>, alive: bool)
    requires parser.Valid()
    modifies parser
    ensures parser.Valid()
    ensures Reading(values, alive, parser.Unread()) == Drain(old(parser.Unread()))
  {
    values := [];
    ghost var spec := Drain(parser.Unread());
    AfterNothing(spec);
    while true
      invariant parser.Valid()
      invariant spec == After(values, Drain(parser.Unread()))
      decreases |parser.Unread()|
    {
      hide ParseValue;
      ghost var unread, cursor := parser.Unread(), parser.cursor;
      var r := parser.Parse();
      match r
      case Err(_) =>
        assert values + [] == values;
        return values, false;
      case Ok(None) =>
        assert values + [] == values;
        return values, true;
      case Ok(Some(v)) =>
        ParsedValueIsLong(unread);
        assert parser.Unread() == unread[parser.cursor - cursor..];
        AfterMore(values, [v], Drain(parser.Unread()));
        values := values + [v];
    }
  }

  lemma ParsedValueIsLong(unread: Bytes)
    requires ParseUnread(unread).Ok? && ParseUnread(unread).value.0.Some?
    ensures 0 < ParseUnread(unread).value.1 <= |unread|
  {
  }

  /** handle_connection's loop over what the socket delivers, up to the frames it draws. */
  method ReadLoop(chunks: seq<Bytes>) returns (values: seq<RespValue>, alive: bool)
    ensures var r := ReadChunks([], chunks); values == r.values && alive == r.alive
  {
    var parser := new RespParser();
    values, alive := [], true;
    ghost var spec := ReadChunks([], chunks);
    AfterNothing(spec);
    for i := 0 to |chunks|
      invariant parser.Valid() && fresh(parser) && alive
      invariant spec == After(values, ReadChunks(parser.Unread(), chunks[i..]))
    {
      hide Drain;
      parser.Feed(chunks[i]);
      var more;
      more, alive := DrainParser(parser);
      if !alive {
        return values + more, false;
      }
      assert chunks[i..][1..] == chunks[i + 1..];
      AfterMore(values, more, ReadChunks(parser.Unread(), chunks[i + 1..]));
      values := values + more;
      parser.Compact();
    }
    assert values + [] == values;
  }

  // ---------- chunking is invisible ----------

  function Concat(chunks: seq<Bytes>): Bytes {
    if chunks == [] then [] else chunks[0] + Concat(chunks[1..])
  }

  /** Every chunk boundary, counted from `done`, is a safe cut of the stream. */
  predicate AllCutsSafe(vs: seq<RespValue>, done: nat, chunks: seq<Bytes>)
    decreases |chunks|
  {
    chunks == [] ||
    (SafeCutAll(vs, done + |chunks[0]|) && AllCutsSafe(vs, done + |chunks[0]|, chunks[1..]))
  }

  /** How many whole encodings the first c bytes of the stream hold. */
  function Complete(vs: seq<RespValue>, c: nat): (k: nat)
    ensures k <= |vs|
  {
    if vs == [] || c < |Encode(vs[0])| then 0
    else 1 + Complete(vs[1..], c - |Encode(vs[0])|)
  }

  /** The bytes those encodings take. */
  function Offset(vs: seq<RespValue>, c: nat): (n: nat)
    ensures n <= c
  {
    if vs == [] || c < |Encode(vs[0])| then 0
    else |Encode(vs[0])| + Offset(vs[1..], c - |Encode(vs[0])|)
  }

  /** Draining what a cut left: nothing comes out, and the loop goes on iff the cut is safe. */
  lemma DrainCut(v: RespValue, u: Bytes)
    requires Encodable(v) && EndsIn(u, 0, Encode(v))
    ensures Drain(u) == Reading([], SafeCut(v, |u|), u)
  {
    hide ParseValue, Encode, Encodable;
    ParseCut(u, 0, v);
    if u == [] {
      EmptyCutIsSafe(v);
    }
  }

  lemma DrainOne(v: RespValue, u: Bytes)
    requires Encodable(v) && Encode(v) <= u
    ensures Drain(u) == After([v], Drain(u[|Encode(v)|..]))
  {
    hide ParseValue, Encode, Encodable;
    assert Holds(u, 0, Encode(v));
    ParseEncoded(u, 0, v);
    EncodingIsNotEmpty(v);
  }

  /** What the loop does with any unread bytes: it stops for more, stops for good, or draws one value and goes on
      with the rest, keeping what it has drawn. */
  lemma DrainSteps(u: Bytes)
    ensures ParseValue(u, 0).Err? ==> Drain(u) == Reading([], ParseValue(u, 0).error == Incomplete, u)
    ensures ParseValue(u, 0).Ok? ==>
              && 0 < ParseValue(u, 0).value.1 <= |u|
              && Drain(u) == After([ParseValue(u, 0).value.0], Drain(u[ParseValue(u, 0).value.1..]))
  {
    hide ParseValue;
    if u == [] {
      NothingIsIncomplete(u);
    } else if ParseValue(u, 0).Ok? {
      OneNode(ParseValue(u, 0).value.0);
    }
  }

  lemma NothingIsIncomplete(u: Bytes)
    requires u == []
    ensures ParseValue(u, 0) == Err(Incomplete)
  {
  }

  lemma OneNode(v: RespValue)
    ensures Nodes(v) > 0
  {
  }

  /** Draining the first c bytes of a stream draws its whole encodings, and goes on iff the cut is safe. */
  lemma {:induction false} DrainPrefix(vs: seq<RespValue>, c: nat)
    requires AllEncodable(vs) && c <= |EncodeAll(vs)|
    ensures Complete(vs[Complete(vs, c)..], c - Offset(vs, c)) == 0
    ensures c - Offset(vs, c) <= |EncodeAll(vs[Complete(vs, c)..])|
    ensures Drain(EncodeAll(vs)[..c]) ==
            Reading(vs[..Complete(vs, c)], SafeCutAll(vs, c), EncodeAll(vs[Complete(vs, c)..])[..c - Offset(vs, c)])
  {
    hide ParseValue, Encode, SafeCut, Encodable, Drain;
    var u := EncodeAll(vs)[..c];
    if vs == [] {
      DrainNothing();
      assert vs[0..] == [];
    } else if c < |Encode(vs[0])| {
      assert u == Encode(vs[0])[..c];
      DrainCut(vs[0], u);
      assert vs[0..] == vs;
    } else {
      var n, rest := |Encode(vs[0])|, vs[1..];
      assert u[..n] == Encode(vs[0]) && u[n..] == EncodeAll(rest)[..c - n];
      DrainOne(vs[0], u);
      hide EncodeAll, SafeCutAll, AllEncodable;
      DrainPrefix(rest, c - n);
      OneMoreWhole(vs, Complete(rest, c - n));
    }
  }

  lemma OneMoreWhole(vs: seq<RespValue>, k: nat)
    requires vs != [] && k <= |vs[1..]|
    ensures vs[..k + 1] == [vs[0]] + vs[1..][..k] && vs[k + 1..] == vs[1..][k..]
  {
  }

  lemma DrainNothing()
    ensures Drain([]) == Reading([], true, [])
  {
  }

  lemma EmptyCutIsSafe(v: RespValue)
    ensures SafeCut(v, 0)
  {
  }

  lemma EncodingIsNotEmpty(v: RespValue)
    ensures Encode(v) != []
  {
  }

  /** A cut past the whole encodings is safe in the stream iff it is safe in what is left of it. */
  lemma {:induction false} SafePastPrefix(vs: seq<RespValue>, c: nat, d: nat)
    requires c <= d
    ensures SafeCutAll(vs, d) == SafeCutAll(vs[Complete(vs, c)..], d - Offset(vs, c))
  {
    hide Encode, SafeCut;
    if vs == [] || c < |Encode(vs[0])| {
      assert vs[0..] == vs;
    } else {
      var n := |Encode(vs[0])|;
      SafePastPrefix(vs[1..], c - n, d - n);
      assert vs[1..][Complete(vs[1..], c - n)..] == vs[Complete(vs, c)..];
    }
  }

  lemma {:induction false} SafePastPrefixAll(vs: seq<RespValue>, c: nat, d: nat, chunks: seq<Bytes>)
    requires c <= d
    ensures AllCutsSafe(vs, d, chunks) == AllCutsSafe(vs[Complete(vs, c)..], d - Offset(vs, c), chunks)
    decreases |chunks|
  {
    hide SafeCutAll, Complete, Offset;
    if chunks != [] {
      SafePastPrefix(vs, c, d + |chunks[0]|);
      SafePastPrefixAll(vs, c, d + |chunks[0]|, chunks[1..]);
    }
  }

  lemma {:induction false} EncodeAllSplit(vs: seq<RespValue>, c: nat)
    requires c <= |EncodeAll(vs)|
    ensures Offset(vs, c) <= |EncodeAll(vs)|
    ensures EncodeAll(vs)[Offset(vs, c)..] == EncodeAll(vs[Complete(vs, c)..])
  {
    hide Encode;
    if vs == [] || c < |Encode(vs[0])| {
      assert vs[0..] == vs;
    } else {
      var n := |Encode(vs[0])|;
      EncodeAllSplit(vs[1..], c - n);
      assert vs[1..][Complete(vs[1..], c - n)..] == vs[Complete(vs, c)..];
    }
  }

  /** The stream split where a chunk ends. */
  lemma ChunkSplitsStream(vs: seq<RespValue>, done: nat, chunk: Bytes, later: Bytes)
    requires done <= |EncodeAll(vs)| && EncodeAll(vs)[..done] + (chunk + later) == EncodeAll(vs)
    ensures var c := done + |chunk|;
            && c <= |EncodeAll(vs)|
            && EncodeAll(vs)[..done] + chunk == EncodeAll(vs)[..c]
            && later == EncodeAll(vs)[c..]
  {
    hide EncodeAll;
    var whole := EncodeAll(vs)[..done] + (chunk + later);
    assert whole[..done + |chunk|] == EncodeAll(vs)[..done] + chunk;
    assert whole[done + |chunk|..] == later;
  }

  /** What is unread after the whole values, and what is still to come, are the encodings of the rest. */
  lemma RestOfStream(vs: seq<RespValue>, c: nat)
    requires c <= |EncodeAll(vs)|
    ensures var rest, left := vs[Complete(vs, c)..], c - Offset(vs, c);
            && left <= |EncodeAll(rest)|
            && EncodeAll(rest)[..left] + EncodeAll(vs)[c..] == EncodeAll(rest)
  {
    hide Complete, Offset, EncodeAll;
    EncodeAllSplit(vs, c);
    CutTwice(EncodeAll(vs), Offset(vs, c), c);
  }

  lemma CutTwice(b: Bytes, from: nat, c: nat)
    requires from <= c <= |b|
    ensures b[from..][..c - from] + b[c..] == b[from..]
  {
    assert b[from..][c - from..] == b[c..];
  }

  lemma {:induction false} ReadFrom(vs: seq<RespValue>, done: nat, chunks: seq<Bytes>)
    requires AllEncodable(vs) && done <= |EncodeAll(vs)| && Complete(vs, done) == 0
    requires EncodeAll(vs)[..done] + Concat(chunks) == EncodeAll(vs)
    ensures ReadChunks(EncodeAll(vs)[..done], chunks) == Reading(vs, true, []) <==> AllCutsSafe(vs, done, chunks)
    decreases |chunks|
  {
    hide Encode, Drain, SafeCutAll, AllEncodable, Complete, Offset, EncodeAll;
    if chunks == [] {
      NothingLeft(vs, done);
    } else {
      var c := done + |chunks[0]|;
      ChunkSplitsStream(vs, done, chunks[0], Concat(chunks[1..]));
      DrainPrefix(vs, c);
      if SafeCutAll(vs, c) {
        var rest, left := vs[Complete(vs, c)..], c - Offset(vs, c);
        RestOfStream(vs, c);
        SuffixEncodable(vs, Complete(vs, c));
        ReadFrom(rest, left, chunks[1..]);
        SafePastPrefixAll(vs, c, c, chunks[1..]);
        Together(vs, Complete(vs, c), ReadChunks(EncodeAll(rest)[..left], chunks[1..]).values);
      }
    }
  }

  lemma Together(vs: seq<RespValue>, k: nat, values: seq<RespValue>)
    requires k <= |vs|
    ensures vs[..k] + values == vs <==> values == vs[k..]
  {
    assert (vs[..k] + values)[k..] == values;
    assert vs[..k] + vs[k..] == vs;
  }

  lemma NothingLeft(vs: seq<RespValue>, done: nat)
    requires done == |EncodeAll(vs)| && Complete(vs, done) == 0
    ensures vs == [] && EncodeAll(vs)[..done] == []
  {
  }

  lemma {:induction false} SuffixEncodable(vs: seq<RespValue>, k: nat)
    requires AllEncodable(vs) && k <= |vs|
    ensures AllEncodable(vs[k..])
  {
    if k > 0 {
      hide Encodable;
      SuffixEncodable(vs[1..], k - 1);
      assert vs[1..][k - 1..] == vs[k..];
    } else {
      assert vs[0..] == vs;
    }
  }

  /** The encodings of any list of values, fed in any chunks, come out as exactly that list in order and
      leave nothing unread, if and only if no chunk ends strictly inside a header line. */
  lemma ChunkingIsInvisibleIff(vs: seq<RespValue>, chunks: seq<Bytes>)
    requires AllEncodable(vs) && Concat(chunks) == EncodeAll(vs)
    ensures ReadChunks([], chunks) == Reading(vs, true, []) <==> AllCutsSafe(vs, 0, chunks)
  {
    hide ReadChunks, AllCutsSafe;
    assert EncodeAll(vs)[..0] == [];
    assert [] + Concat(chunks) == Concat(chunks);
    assert Complete(vs, 0) == 0 by {
      if vs != [] {
        EncodingIsNotEmpty(vs[0]);
      }
    }
    ReadFrom(vs, 0, chunks);
  }

  /** The failing case: "+OK\r\n" cut after "+O" closes the connection. */
  lemma HeaderCutCloses()
    ensures var v := SimpleString([79, 75]);
            Encode(v) == [43, 79, 75, 13, 10] && !Drain(Encode(v)[..2]).alive
  {
    var v := SimpleString([79, 75]);
    assert Encode(v) == [43, 79, 75, 13, 10];
    assert EndsIn(Encode(v)[..2], 0, Encode(v));
    ParseCut(Encode(v)[..2], 0, v);
  }
}
