/** Polynomials over GF(2), as the sets of their exponents. */
module Gf2 {

  type Poly = set<nat>

  function Add(p: Poly, q: Poly): Poly {
    (p - q) + (q - p)
  }

  /** p times x^k. */
  function Shift(p: Poly, k: nat): Poly {
    set e | e in p :: e + k
  }

  /** q times x^16 + x^12 + x^5 + 1. */
  function TimesG(q: Poly): Poly {
    Add(Add(Shift(q, 16), Shift(q, 12)), Add(Shift(q, 5), q))
  }

  /** p leaves r over some multiple of the generator. */
  ghost predicate Congruent(p: Poly, r: Poly) {
    exists q: Poly :: p == Add(TimesG(q), r)
  }

  /** r is the remainder of p divided by the generator. */
  ghost predicate IsRemainder(p: Poly, r: Poly) {
    Congruent(p, r) && forall e :: e in r ==> e < 16
  }

  lemma InShift(p: Poly, k: nat, e: nat)
    ensures e in Shift(p, k) <==> k <= e && e - k in p
  {
    if k <= e && e - k in p {
      assert (e - k) + k == e;
    }
  }

  lemma InTimesG(q: Poly, e: nat)
    ensures e in TimesG(q) <==>
            (((16 <= e && e - 16 in q) != (12 <= e && e - 12 in q)) != ((5 <= e && e - 5 in q) != (e in q)))
  {
    InShift(q, 16, e);
    InShift(q, 12, e);
    InShift(q, 5, e);
  }

  lemma TimesGAdds(p: Poly, q: Poly)
    ensures TimesG(Add(p, q)) == Add(TimesG(p), TimesG(q))
  {
    forall e: nat
      ensures e in TimesG(Add(p, q)) <==> e in Add(TimesG(p), TimesG(q))
    {
      InTimesG(Add(p, q), e);
      InTimesG(p, e);
      InTimesG(q, e);
    }
  }

  lemma ShiftAt(q: Poly, k: nat, d: nat, e: nat)
    ensures (d <= e && e - d in Shift(q, k)) == (d + k <= e && e - d - k in q)
  {
    if d <= e {
      InShift(q, k, e - d);
    }
  }

  lemma TimesGShiftsAt(q: Poly, k: nat, e: nat)
    ensures e in TimesG(Shift(q, k)) <==> e in Shift(TimesG(q), k)
  {
    hide TimesG, Shift;
    InTimesG(Shift(q, k), e);
    ShiftAt(q, k, 16, e);
    ShiftAt(q, k, 12, e);
    ShiftAt(q, k, 5, e);
    ShiftAt(q, k, 0, e);
    InShift(TimesG(q), k, e);
    if e >= k {
      InTimesG(q, e - k);
    }
  }

  lemma TimesGShifts(q: Poly, k: nat)
    ensures TimesG(Shift(q, k)) == Shift(TimesG(q), k)
  {
    hide TimesG, Shift;
    forall e: nat
      ensures e in TimesG(Shift(q, k)) <==> e in Shift(TimesG(q), k)
    {
      TimesGShiftsAt(q, k, e);
    }
  }

  lemma ShiftAdds(p: Poly, q: Poly, k: nat)
    ensures Shift(Add(p, q), k) == Add(Shift(p, k), Shift(q, k))
  {
    forall e: nat
      ensures e in Shift(Add(p, q), k) <==> e in Add(Shift(p, k), Shift(q, k))
    {
      InShift(Add(p, q), k, e);
      InShift(p, k, e);
      InShift(q, k, e);
    }
  }

  lemma ShiftTwice(p: Poly, j: nat, k: nat)
    ensures Shift(Shift(p, j), k) == Shift(p, j + k)
  {
    forall e: nat
      ensures e in Shift(Shift(p, j), k) <==> e in Shift(p, j + k)
    {
      InShift(Shift(p, j), k, e);
      InShift(p, j + k, e);
      if e >= k {
        InShift(p, j, e - k);
      }
    }
  }

  // ---------- congruence ----------

  lemma CongruentSelf(p: Poly)
    ensures Congruent(p, p)
  {
    assert p == Add(TimesG({}), p);
  }

  lemma CongruentShift(p: Poly, r: Poly, k: nat)
    requires Congruent(p, r)
    ensures Congruent(Shift(p, k), Shift(r, k))
  {
    var q: Poly :| p == Add(TimesG(q), r);
    ShiftAdds(TimesG(q), r, k);
    TimesGShifts(q, k);
    assert Shift(p, k) == Add(TimesG(Shift(q, k)), Shift(r, k));
  }

  lemma CongruentAdd(p: Poly, r: Poly, p': Poly, r': Poly)
    requires Congruent(p, r) && Congruent(p', r')
    ensures Congruent(Add(p, p'), Add(r, r'))
  {
    var q: Poly :| p == Add(TimesG(q), r);
    var q': Poly :| p' == Add(TimesG(q'), r');
    TimesGAdds(q, q');
    assert Add(p, p') == Add(TimesG(Add(q, q')), Add(r, r'));
  }

  lemma CongruentChain(p: Poly, r: Poly, s: Poly)
    requires Congruent(p, r) && Congruent(r, s)
    ensures Congruent(p, s)
  {
    var q: Poly :| p == Add(TimesG(q), r);
    var q': Poly :| r == Add(TimesG(q'), s);
    TimesGAdds(q, q');
    assert p == Add(TimesG(Add(q, q')), s);
  }

  lemma {:induction false} HighestTerm(q: Poly) returns (d: nat)
    requires q != {}
    ensures d in q && forall e :: e in q ==> e <= d
    decreases |q|
  {
    var x :| x in q;
    var rest := q - {x};
    d := x;
    if rest != {} {
      var high := HighestTerm(rest);
      d := if high < x then x else high;
    }
    assert forall e :: e in q ==> e == x || e in rest;
  }

  lemma LowMultipleIsZero(q: Poly)
    requires forall e :: e in TimesG(q) ==> e < 16
    ensures q == {}
  {
    if q != {} {
      var d := HighestTerm(q);
      InTimesG(q, d + 16);
      assert false;
    }
  }

  /** Division leaves one remainder only: a nonzero multiple of the generator has a term at 16 or above. */
  lemma RemainderIsUnique(p: Poly, r: Poly, s: Poly)
    requires IsRemainder(p, r) && IsRemainder(p, s)
    ensures r == s
  {
    var q: Poly :| p == Add(TimesG(q), r);
    var q': Poly :| p == Add(TimesG(q'), s);
    TimesGAdds(q, q');
    assert TimesG(Add(q, q')) == Add(r, s);
    LowMultipleIsZero(Add(q, q'));
    NoMultiple();
    assert Add(r, s) == {};
  }

  lemma NoMultiple()
    ensures TimesG({}) == {}
  {
  }
}

/** Binary digits of numbers, and bitwise XOR. */
module Binary {
  import opened Gf2

  function Pow2(k: nat): (p: nat)
    ensures p > 0
  {
    if k == 0 then 1 else 2 * Pow2(k - 1)
  }

  predicate Bit(n: nat, i: nat) {
    if i == 0 then n % 2 == 1 else Bit(n / 2, i - 1)
  }

  function Xor(a: nat, b: nat): nat {
    if a == 0 && b == 0 then 0
    else (a % 2 + b % 2) % 2 + 2 * Xor(a / 2, b / 2)
  }

  /** The polynomial whose coefficients are the binary digits of n. */
  function Terms(n: nat): Poly {
    if n == 0 then {}
    else (if n % 2 == 1 then {0} else {}) + Shift(Terms(n / 2), 1)
  }

  lemma {:induction false} InTerms(n: nat, e: nat)
    ensures e in Terms(n) <==> Bit(n, e)
  {
    if n == 0 {
      NoBits(e);
    } else {
      InShift(Terms(n / 2), 1, e);
      if e > 0 {
        InTerms(n / 2, e - 1);
      }
    }
  }

  lemma {:induction false} NoBits(e: nat)
    ensures !Bit(0, e)
  {
    if e > 0 {
      NoBits(e - 1);
    }
  }

  lemma {:induction false} BitOfXor(a: nat, b: nat, i: nat)
    ensures Bit(Xor(a, b), i) == (Bit(a, i) != Bit(b, i))
  {
    if a == 0 && b == 0 {
      NoBits(i);
    } else if i > 0 {
      BitOfXor(a / 2, b / 2, i - 1);
    }
  }

  lemma {:induction false} XorFits(a: nat, b: nat, k: nat)
    requires a < Pow2(k) && b < Pow2(k)
    ensures Xor(a, b) < Pow2(k)
  {
    if k > 0 {
      XorFits(a / 2, b / 2, k - 1);
    }
  }

  /** The digits of hi * 2^k + lo are those of lo below k and those of hi from k on. */
  lemma {:induction false} BitOfJoin(hi: nat, lo: nat, k: nat, e: nat)
    requires lo < Pow2(k)
    ensures Bit(hi * Pow2(k) + lo, e) == if e < k then Bit(lo, e) else Bit(hi, e - k)
  {
    if k > 0 {
      var n := hi * Pow2(k) + lo;
      assert n == 2 * (hi * Pow2(k - 1)) + lo;
      assert n / 2 == hi * Pow2(k - 1) + lo / 2 && n % 2 == lo % 2;
      if e > 0 {
        BitOfJoin(hi, lo / 2, k - 1, e - 1);
      }
    }
  }

  lemma TermsOfJoin(hi: nat, lo: nat, k: nat)
    requires lo < Pow2(k)
    ensures Terms(hi * Pow2(k) + lo) == Add(Shift(Terms(hi), k), Terms(lo))
  {
    hide Terms, Shift, Bit;
    forall e: nat
      ensures e in Terms(hi * Pow2(k) + lo) <==> e in Add(Shift(Terms(hi), k), Terms(lo))
    {
      InTerms(hi * Pow2(k) + lo, e);
      BitOfJoin(hi, lo, k, e);
      InShift(Terms(hi), k, e);
      InTerms(lo, e);
      if e >= k {
        InTerms(hi, e - k);
        HighBitsAreZero(lo, k, e);
      }
    }
  }

  lemma {:induction false} HighBitsAreZero(n: nat, k: nat, e: nat)
    requires n < Pow2(k) && k <= e
    ensures !Bit(n, e)
  {
    if k == 0 {
      NoBits(e);
    } else {
      HighBitsAreZero(n / 2, k - 1, e - 1);
    }
  }

  lemma TermsOfXor(a: nat, b: nat)
    ensures Terms(Xor(a, b)) == Add(Terms(a), Terms(b))
  {
    hide Terms, Bit;
    forall e: nat
      ensures e in Terms(Xor(a, b)) <==> e in Add(Terms(a), Terms(b))
    {
      InTerms(Xor(a, b), e);
      InTerms(a, e);
      InTerms(b, e);
      BitOfXor(a, b, e);
    }
  }

  lemma TermsBelow(n: nat, k: nat)
    requires n < Pow2(k)
    ensures forall e :: e in Terms(n) ==> e < k
  {
    hide Terms, Bit;
    forall e | e in Terms(n) ensures e < k {
      InTerms(n, e);
      if e >= k {
        HighBitsAreZero(n, k, e);
      }
    }
  }

  lemma {:induction false} TermsAreInjective(m: nat, n: nat)
    requires Terms(m) == Terms(n)
    ensures m == n
  {
    InTerms(m, 0);
    InTerms(n, 0);
    if m > 0 || n > 0 {
      assert Terms(m / 2) == Terms(n / 2) by {
        forall e: nat ensures e in Terms(m / 2) <==> e in Terms(n / 2) {
          InTerms(m, e + 1);
          InTerms(n, e + 1);
          InTerms(m / 2, e);
          InTerms(n / 2, e);
        }
      }
      TermsAreInjective(m / 2, n / 2);
    }
  }
}

/** common/hash.rs: CRC-16 bit by bit, and the polynomial division it carries out. */
module Crc16 {
  import opened Prelude
  import opened Gf2
  import opened Binary

  /** A `u16`. Its shifts and masks are written as arithmetic: `& 0x8000` tests for 0x8000 or more. */
  type Word16 = w: int | 0 <= w < 0x10000

  /** The bits of a byte string, the first byte highest and the high bit of each byte first. */
  function Message(data: Bytes): Poly {
    if data == [] then {}
    else Add(Shift(Message(data[..|data| - 1]), 8), Terms(data[|data| - 1]))
  }

  lemma SixteenBits()
    ensures Pow2(16) == 0x10000 && Pow2(8) == 0x100
  {
    assert Pow2(4) == 16;
    assert Pow2(8) == 0x100;
    assert Pow2(12) == 0x1000;
  }

  function Xor16(a: Word16, b: Word16): Word16 {
    SixteenBits();
    XorFits(a, b, 16);
    Xor(a, b)
  }

  /** crc << 1, the bit that falls off being the one just tested. */
  function ShiftLeft(crc: Word16): Word16 {
    if crc >= 0x8000 then 2 * crc - 0x10000 else 2 * crc
  }

  function Step(crc: Word16): Word16 {
    if crc >= 0x8000 then Xor16(ShiftLeft(crc), 0x1021) else ShiftLeft(crc)
  }

  function Steps(crc: Word16, n: nat): Word16 {
    if n == 0 then crc else Step(Steps(crc, n - 1))
  }

  function Crc(data: Bytes): Word16 {
    if data == [] then 0
    else Steps(Xor16(Crc(data[..|data| - 1]), (data[|data| - 1] as int) * 0x100), 8)
  }

  method ComputeCrc16(data: Bytes) returns (crc: Word16)
    ensures crc == Crc(data)
    ensures IsRemainder(Shift(Message(data), 16), Terms(crc))
  {
    hide Xor16, Terms, IsRemainder, Message;
    crc := 0;
    for i := 0 to |data|
      invariant crc == Crc(data[..i])
    {
      assert data[..i + 1][..i] == data[..i];
      crc := Xor16(crc, (data[i] as int) * 0x100);
      ghost var mixed := crc;
      for j := 0 to 8
        invariant crc == Steps(mixed, j)
      {
        if crc >= 0x8000 {
          crc := Xor16(ShiftLeft(crc), 0x1021);
        } else {
          crc := ShiftLeft(crc);
        }
      }
    }
    assert data[..|data|] == data;
    CrcIsRemainder(data);
  }

  // ---------- one bit at a time ----------

  lemma TermsOfOne()
    ensures Terms(1) == {0}
  {
    assert Terms(0) == {};
  }

  lemma TermsOfConstants()
    ensures Terms(1) == {0} && Terms(0x1021) == {0, 5, 12}
  {
    TermsOfOne();
    hide Terms;
    assert Pow2(5) == 32;
    TermsOfJoin(1, 1, 5);
    ShiftOne(5);
    assert Terms(33) == {5, 0};
    assert Pow2(4) == 16;
    assert Pow2(8) == 256;
    assert Pow2(12) == 4096;
    TermsOfJoin(1, 33, 12);
    ShiftOne(12);
  }

  lemma ShiftOne(k: nat)
    ensures Shift({0}, k) == {k}
  {
  }

  lemma TermsOfShiftLeft(c: Word16)
    ensures Shift(Terms(c), 1) == Add(if c >= 0x8000 then {16} else {}, Terms(ShiftLeft(c)))
  {
    hide Terms;
    SixteenBits();
    TermsOfConstants();
    assert Pow2(1) == 2;
    assert Terms(0) == {} by { NoTerms(); }
    TermsOfJoin(c, 0, 1);
    assert Terms(2 * c) == Shift(Terms(c), 1);
    if c >= 0x8000 {
      TermsOfJoin(1, ShiftLeft(c), 16);
      ShiftOne(16);
    }
  }

  lemma NoTerms()
    ensures Terms(0) == {}
  {
  }

  /** One step multiplies by x and reduces. */
  lemma StepIsTimesX(c: Word16)
    ensures Congruent(Shift(Terms(c), 1), Terms(Step(c)))
  {
    TermsOfShiftLeft(c);
    TermsOfConstants();
    hide Terms;
    if c >= 0x8000 {
      TermsOfXor(ShiftLeft(c), 0x1021);
      GeneratorTerms();
      assert Shift(Terms(c), 1) == Add(TimesG({0}), Terms(Step(c)));
    } else {
      assert Shift(Terms(c), 1) == Terms(Step(c));
      CongruentSelf(Terms(Step(c)));
    }
  }

  lemma GeneratorTerms()
    ensures TimesG({0}) == {0, 5, 12, 16}
  {
    forall e: nat ensures e in TimesG({0}) <==> e in {0, 5, 12, 16} {
      InTimesG({0}, e);
    }
  }

  lemma {:induction false} StepsAreTimesX(c: Word16, n: nat)
    ensures Congruent(Shift(Terms(c), n), Terms(Steps(c, n)))
  {
    hide Congruent, Terms, Step;
    if n == 0 {
      assert Shift(Terms(c), 0) == Terms(c);
      CongruentSelf(Terms(c));
    } else {
      StepsAreTimesX(c, n - 1);
      CongruentShift(Shift(Terms(c), n - 1), Terms(Steps(c, n - 1)), 1);
      ShiftTwice(Terms(c), n - 1, 1);
      StepIsTimesX(Steps(c, n - 1));
      CongruentChain(Shift(Terms(c), n), Shift(Terms(Steps(c, n - 1)), 1), Terms(Steps(c, n)));
    }
  }

  // ---------- the whole message ----------

  lemma TermsOfHighByte(b: Byte)
    ensures Terms(b * 0x100) == Shift(Terms(b), 8)
  {
    hide Terms;
    SixteenBits();
    NoTerms();
    TermsOfJoin(b, 0, 8);
    assert Add(Shift(Terms(b), 8), {}) == Shift(Terms(b), 8);
  }

  /** The checksum of any byte string is the remainder of its polynomial times x^16. */
  lemma {:induction false} CrcIsRemainder(data: Bytes)
    ensures IsRemainder(Shift(Message(data), 16), Terms(Crc(data)))
  {
    SixteenBits();
    TermsBelow(Crc(data), 16);
    if data == [] {
      assert Shift({}, 16) == {} == Terms(0);
      CongruentSelf({});
    } else {
      CrcIsRemainder(data[..|data| - 1]);
      OneMoreByte(Message(data[..|data| - 1]), Crc(data[..|data| - 1]), data[|data| - 1]);
    }
  }

  lemma OneMoreByte(m: Poly, c: Word16, b: Byte)
    requires Congruent(Shift(m, 16), Terms(c))
    ensures Congruent(Shift(Add(Shift(m, 8), Terms(b)), 16), Terms(Steps(Xor16(c, b * 0x100), 8)))
  {
    hide Congruent, Terms, Steps, Shift, Add;
    var mixed := Xor16(c, b * 0x100);
    var high := Shift(Terms(b), 8);
    TermsOfXor(c, b * 0x100);
    TermsOfHighByte(b);
    CongruentSelf(high);
    CongruentAdd(Shift(m, 16), Terms(c), high, high);
    CongruentShift(Add(Shift(m, 16), high), Terms(mixed), 8);
    StepsAreTimesX(mixed, 8);
    CongruentChain(Shift(Add(Shift(m, 16), high), 8), Shift(Terms(mixed), 8), Terms(Steps(mixed, 8)));
    ShiftAdds(Shift(m, 16), high, 8);
    ShiftTwice(m, 16, 8);
    ShiftTwice(Terms(b), 8, 8);
    ShiftAdds(Shift(m, 8), Terms(b), 16);
    ShiftTwice(m, 8, 16);
  }

  /** The checksum is the only word that is the remainder. */
  lemma OnlyTheCrcIsRemainder(data: Bytes, c: Word16)
    requires IsRemainder(Shift(Message(data), 16), Terms(c))
    ensures c == Crc(data)
  {
    hide IsRemainder, Terms, Crc;
    CrcIsRemainder(data);
    RemainderIsUnique(Shift(Message(data), 16), Terms(c), Terms(Crc(data)));
    TermsAreInjective(c, Crc(data));
  }

  lemma CongruentWordIsCrc(data: Bytes, c: Word16)
    requires Congruent(Shift(Message(data), 16), Terms(c))
    ensures c == Crc(data)
  {
    SixteenBits();
    TermsBelow(c, 16);
    OnlyTheCrcIsRemainder(data, c);
  }

  // ---------- consequences ----------

  function XorBytes(a: Bytes, b: Bytes): Bytes
    requires |a| == |b|
  {
    seq(|a|, i requires 0 <= i < |a| => XorByte(a[i], b[i]))
  }

  function XorByte(x: Byte, y: Byte): Byte {
    SixteenBits();
    XorFits(x, y, 8);
    Xor(x, y)
  }

  lemma {:induction false} MessageOfXor(a: Bytes, b: Bytes)
    requires |a| == |b|
    ensures Message(XorBytes(a, b)) == Add(Message(a), Message(b))
  {
    if a != [] {
      hide Terms, Shift;
      var n := |a| - 1;
      MessageOfXor(a[..n], b[..n]);
      assert XorBytes(a, b)[..n] == XorBytes(a[..n], b[..n]);
      TermsOfXor(a[n], b[n]);
      ShiftAdds(Message(a[..n]), Message(b[..n]), 8);
    }
  }

  /** XOR-linearity on messages of equal length. */
  lemma CrcIsLinear(a: Bytes, b: Bytes)
    requires |a| == |b|
    ensures Crc(XorBytes(a, b)) == Xor16(Crc(a), Crc(b))
  {
    hide Terms, Congruent, Message, Add, Crc;
    CrcIsRemainder(a);
    CrcIsRemainder(b);
    CongruentAdd(Shift(Message(a), 16), Terms(Crc(a)), Shift(Message(b), 16), Terms(Crc(b)));
    ShiftAdds(Message(a), Message(b), 16);
    TermsOfXor(Crc(a), Crc(b));
    MessageOfXor(a, b);
    CongruentWordIsCrc(XorBytes(a, b), Xor16(Crc(a), Crc(b)));
  }

  /** A message followed by its own checksum, high byte first, has checksum 0. */
  lemma CrcOfCheckedMessage(data: Bytes)
    ensures Crc(data + [Crc(data) / 0x100, Crc(data) % 0x100]) == 0
  {
    hide Terms, Congruent, Crc;
    var c := Crc(data);
    var m := Message(data);
    MessageOfChecked(data, c);
    CrcIsRemainder(data);
    CongruentSelf(Terms(c));
    CongruentAdd(Shift(m, 16), Terms(c), Terms(c), Terms(c));
    assert Add(Terms(c), Terms(c)) == {};
    var checked := data + [c / 0x100, c % 0x100];
    CongruentShift(Message(checked), {}, 16);
    assert Shift({}, 16) == {};
    NoTerms();
    CongruentWordIsCrc(checked, 0);
  }

  lemma MessageOfChecked(data: Bytes, c: Word16)
    ensures Message(data + [c / 0x100, c % 0x100]) == Add(Shift(Message(data), 16), Terms(c))
  {
    hide Terms;
    var hi, lo := c / 0x100, c % 0x100;
    var m := Message(data);
    assert (data + [hi, lo])[..|data| + 1] == data + [hi];
    assert (data + [hi])[..|data|] == data;
    ShiftAdds(Shift(m, 8), Terms(hi), 8);
    ShiftTwice(m, 8, 8);
    SixteenBits();
    TermsOfJoin(hi, lo, 8);
    AddAssoc(Shift(m, 16), Shift(Terms(hi), 8), Terms(lo));
  }

  lemma AddAssoc(p: Poly, q: Poly, r: Poly)
    ensures Add(Add(p, q), r) == Add(p, Add(q, r))
  {
  }
}
