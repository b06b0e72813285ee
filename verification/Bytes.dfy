/** The two byte streams the crate works on: a cursor that reads and a vector that grows. */
module ByteStreams {
  import opened Prelude

  const LF: Byte := 10
  const CR: Byte := 13
  const CRLF: Bytes := [13, 10]

  /** The position just after the first LF at or after i, or the end of the data. */
  function LineEnd(data: Bytes, i: nat): (end: nat)
    requires i <= |data|
    ensures i <= end <= |data|
    ensures forall k :: i <= k < end - 1 ==> data[k] != LF
    ensures end < |data| ==> i < end && data[end - 1] == LF
    ensures i < |data| ==> i < end
    decreases |data| - i
  {
    if i == |data| then i
    else if data[i] == LF then i + 1
    else LineEnd(data, i + 1)
  }

  /** e stands in b at position i. */
  ghost predicate Holds(b: Bytes, i: nat, e: Bytes) {
    i + |e| <= |b| && b[i..i + |e|] == e
  }

  lemma HoldsSplit(b: Bytes, i: nat, x: Bytes, y: Bytes)
    requires Holds(b, i, x + y)
    ensures Holds(b, i, x) && Holds(b, i + |x|, y)
  {
    assert b[i..i + |x|] == (x + y)[..|x|];
    assert b[i + |x|..i + |x| + |y|] == (x + y)[|x|..];
  }

  /** std::io::Cursor over a byte slice. */
  class ByteCursor {
    const data: Bytes
    var position: nat

    ghost predicate Valid()
      reads this
    {
      position <= |data|
    }

    constructor (data: Bytes)
      ensures Valid() && this.data == data && position == 0
    {
      this.data := data;
      position := 0;
    }

    /** read_exact: None is UnexpectedEof. */
    method ReadExact(n: nat) returns (bytes: Option<Bytes>)
      requires Valid()
      modifies this
      ensures Valid()
      ensures bytes == if old(position) + n <= |data| then Some(data[old(position)..old(position) + n]) else None
      ensures bytes.Some? ==> position == old(position) + n
    {
      if position + n > |data| {
        position := |data|;
        return None;
      }
      bytes := Some(data[position..position + n]);
      position := position + n;
    }

    /** read_until(LF): everything up to and including the first LF, or all that is left. */
    method ReadLine() returns (line: Bytes)
      requires Valid()
      modifies this
      ensures Valid() && position == LineEnd(data, old(position))
      ensures line == data[old(position)..position]
    {
      var start := position;
      while position < |data| && data[position] != LF
        invariant start <= position <= |data|
        invariant LineEnd(data, position) == LineEnd(data, start)
      {
        position := position + 1;
      }
      if position < |data| {
        position := position + 1;
      }
      line := data[start..position];
    }
  }

  /** A growing Vec<u8>. */
  class ByteBuffer {
    var bytes: Bytes

    constructor ()
      ensures bytes == []
    {
      bytes := [];
    }

    method Extend(more: Bytes)
      modifies this
      ensures bytes == old(bytes) + more
    {
      bytes := bytes + more;
    }
  }
}

/** Decimal integers as `i64::to_string` prints them and `str::parse::<i64>` reads them. */
module Decimal {
  import opened Prelude

  const MINUS: Byte := 45
  const PLUS: Byte := 43

  function Digits(n: nat): (ds: Bytes)
    ensures ds != [] && AllDigits(ds)
  {
    if n < 10 then [48 + n] else Digits(n / 10) + [48 + n % 10]
  }

  function ToDecimal(n: int): Bytes {
    if n < 0 then [MINUS] + Digits(-n) else Digits(n)
  }

  predicate AllDigits(ds: Bytes) {
    forall i :: 0 <= i < |ds| ==> 48 <= ds[i] <= 57
  }

  function DigitsValue(ds: Bytes): nat
    requires AllDigits(ds)
  {
    if ds == [] then 0
    else DigitsValue(ds[..|ds| - 1]) * 10 + (ds[|ds| - 1] as int - 48)
  }

  function Magnitude(body: Bytes): Option<nat> {
    if body == [] || !AllDigits(body) then None else Some(DigitsValue(body))
  }

  /** One optional sign, then at least one digit, and nothing that does not fit. */
  function ParseInt(line: Bytes): Option<Int64> {
    if line == [] then None
    else if line[0] == MINUS then
      var m := Magnitude(line[1..]);
      if m.Some? && m.value <= 0x8000_0000_0000_0000 then
        var n: int := m.value;
        Some(-n)
      else None
    else
      var m := Magnitude(if line[0] == PLUS then line[1..] else line);
      if m.Some? && m.value <= 0x7FFF_FFFF_FFFF_FFFF then Some(m.value) else None
  }

  lemma {:induction false} DigitsRoundTrip(n: nat)
    ensures DigitsValue(Digits(n)) == n
    ensures Magnitude(Digits(n)) == Some(n)
  {
    if n >= 10 {
      DigitsRoundTrip(n / 10);
      assert Digits(n)[..|Digits(n)| - 1] == Digits(n / 10);
    }
  }

  /** Every i64 survives printing and parsing, and its decimal form holds neither CR nor LF. */
  lemma DecimalRoundTrip(n: int)
    requires -0x8000_0000_0000_0000 <= n <= 0x7FFF_FFFF_FFFF_FFFF
    ensures ParseInt(ToDecimal(n)) == Some(n)
    ensures forall i :: 0 <= i < |ToDecimal(n)| ==> ToDecimal(n)[i] == MINUS || 48 <= ToDecimal(n)[i] <= 57
  {
    if n < 0 {
      hide Digits, Magnitude;
      DigitsRoundTrip(-n);
      assert ToDecimal(n)[1..] == Digits(-n);
    } else {
      hide Digits, Magnitude;
      DigitsRoundTrip(n);
      assert 48 <= Digits(n)[0] <= 57;
    }
  }

  // ---------- what decimal text means ----------

  function Pow10(k: nat): nat {
    if k == 0 then 1 else 10 * Pow10(k - 1)
  }

  /** Digits count by their place: those of a stand |b| places further up than those of b. */
  lemma {:induction false} DigitsByPlace(a: Bytes, b: Bytes)
    requires AllDigits(a + b)
    ensures AllDigits(a) && AllDigits(b)
    ensures DigitsValue(a + b) == DigitsValue(a) * Pow10(|b|) + DigitsValue(b)
  {
    assert forall i :: 0 <= i < |a| ==> a[i] == (a + b)[i];
    assert forall i :: 0 <= i < |b| ==> b[i] == (a + b)[|a| + i];
    if b == [] {
      assert a + b == a;
    } else {
      var n := |b| - 1;
      assert (a + b)[..|a + b| - 1] == a + b[..n];
      DigitsByPlace(a, b[..n]);
      var high, low, d := DigitsValue(a), DigitsValue(b[..n]), b[n] - 48;
      assert DigitsValue(a + b) == (high * Pow10(n) + low) * 10 + d;
      assert DigitsValue(b) == low * 10 + d;
      hide DigitsValue;
      TenTimes(high, Pow10(n));
    }
  }

  lemma TenTimes(x: nat, p: nat)
    ensures x * (10 * p) == x * p * 10
  {
  }

  lemma OneDigit(d: Byte)
    requires 48 <= d <= 57
    ensures DigitsValue([d]) == d - 48
  {
    assert [d][..0] == [];
  }

  /** A line is read as n exactly when it is digits for n, with or without '+', or '-' and digits for -n, and n
      is an i64. */
  lemma ParseIntIff(line: Bytes, n: int)
    ensures (ParseInt(line).Some? && ParseInt(line).value == n) <==>
              && -0x8000_0000_0000_0000 <= n <= 0x7FFF_FFFF_FFFF_FFFF
              && (|| (line != [] && AllDigits(line) && DigitsValue(line) == n)
                  || (|line| > 1 && line[0] == 43 && AllDigits(line[1..]) && DigitsValue(line[1..]) == n)
                  || (|line| > 1 && line[0] == 45 && AllDigits(line[1..]) && DigitsValue(line[1..]) == -n))
  {
    hide DigitsValue;
  }

  /** Printed numbers start with '-' exactly when negative, then hold digits without a leading zero. */
  lemma DecimalIsCanonical(n: int)
    ensures ToDecimal(n) == if n < 0 then [45] + Digits(-n) else Digits(n)
    ensures n != 0 ==> (if n < 0 then Digits(-n) else Digits(n))[0] != 48
  {
    if n != 0 {
      NoLeadingZero(if n < 0 then -n else n);
    }
  }

  lemma {:induction false} NoLeadingZero(n: nat)
    requires n > 0
    ensures Digits(n)[0] != 48
  {
    if n >= 10 {
      NoLeadingZero(n / 10);
    }
  }
}
