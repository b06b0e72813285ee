/** CRC-64/ECMA-182, the checksum snapshots use: the crc crate's parameters are the generator below, a register
    that starts at 0, no reflection and no final XOR. The register is kept as the set of its bits. */
module Crc64 {
  import opened Prelude
  import opened Gf2
  import opened Binary

  /** The generator without its term x^64. */
  const GENERATOR: nat := 0x42F0_E1EB_A9EA_3693

  /** One bit further: times x, and the generator taken off if x^64 appears. */
  function Step(r: Poly): Poly {
    if 63 in r then Add(Shift(r, 1) - {64}, Terms(GENERATOR)) else Shift(r, 1)
  }

  function Steps(r: Poly, n: nat): Poly {
    if n == 0 then r else Step(Steps(r, n - 1))
  }

  function Register(data: Bytes): Poly {
    if data == [] then {}
    else Steps(Add(Register(data[..|data| - 1]), Shift(Terms(data[|data| - 1]), 56)), 8)
  }

  /** The number whose bits below k are those of r. */
  function Number(r: Poly, k: nat): (n: nat)
    ensures n < Pow2(k)
    ensures n == 0 ==> forall e :: e in r ==> e >= k
  {
    if k == 0 then 0 else Number(r, k - 1) + if k - 1 in r then Pow2(k - 1) else 0
  }

  function Crc(data: Bytes): Word64 {
    SixtyFourBits();
    Number(Register(data), 64)
  }

  lemma SixtyFourBits()
    ensures Pow2(64) == 0x1_0000_0000_0000_0000 && Pow2(8) == 0x100
  {
    assert Pow2(8) == 0x100;
    assert Pow2(16) == 0x1_0000;
    assert Pow2(24) == 0x100_0000;
    assert Pow2(32) == 0x1_0000_0000;
    assert Pow2(40) == 0x100_0000_0000;
    assert Pow2(48) == 0x1_0000_0000_0000;
    assert Pow2(56) == 0x100_0000_0000_0000;
  }

  // ---------- the register ----------

  predicate Fits(r: Poly) {
    forall e :: e in r ==> e < 64
  }

  lemma GeneratorTerms()
    ensures 0 in Terms(GENERATOR) && Fits(Terms(GENERATOR))
  {
    SixtyFourBits();
    TermsBelow(GENERATOR, 64);
    InTerms(GENERATOR, 0);
  }

  /** The checksum of the byte 1 alone is x^64 modulo the generator. */
  lemma GeneratorIs()
    ensures Crc([1]) == 0x42F0_E1EB_A9EA_3693
  {
    One();
    hide Terms, Step, Steps, Shift, Number;
    StepsShift({0}, 1, 56, 7);
    LastStep(Shift({0}, 56));
    SixtyFourBits();
    NumberOfTerms(0x42F0_E1EB_A9EA_3693, 64);
  }

  lemma One()
    ensures Register([1]) == Steps(Shift({0}, 56), 8)
    ensures Shift({0}, 63) == {63} && Step({63}) == Terms(GENERATOR)
  {
    hide Steps;
    OneTerm();
    hide Terms;
    assert [1][..0] == [];
    assert Add({}, Shift({0}, 56)) == Shift({0}, 56);
    assert Shift({0}, 63) == {63};
    assert Shift({63}, 1) == {64};
    assert {64} - {64} == {};
    assert Add({}, Terms(GENERATOR)) == Terms(GENERATOR);
  }

  lemma OneTerm()
    ensures Terms(1) == {0}
  {
    NoTerms();
    assert Shift({}, 1) == {};
  }

  lemma LastStep(r: Poly)
    ensures Steps(r, 8) == Step(Steps(r, 7))
  {
    hide Step;
  }

  /** The number with the bits of n is n. */
  lemma {:induction false} NumberOfTerms(n: nat, k: nat)
    requires n < Pow2(k)
    ensures Number(Terms(n), k) == n
  {
    hide Terms, Bit;
    if k > 0 {
      var high := if n >= Pow2(k - 1) then 1 else 0;
      var low := n - high * Pow2(k - 1);
      forall e: nat | e < k - 1 ensures e in Terms(n) <==> e in Terms(low) {
        InTerms(n, e);
        InTerms(low, e);
        BitOfJoin(high, low, k - 1, e);
      }
      SameNumber(Terms(n), Terms(low), k - 1);
      NumberOfTerms(low, k - 1);
      InTerms(n, k - 1);
      BitOfJoin(high, low, k - 1, k - 1);
      LowestBit(high);
    }
  }

  lemma LowestBit(n: nat)
    ensures Bit(n, 0) <==> n % 2 == 1
  {
  }

  lemma {:induction false} SameNumber(p: Poly, q: Poly, k: nat)
    requires forall e: nat :: e < k ==> (e in p <==> e in q)
    ensures Number(p, k) == Number(q, k)
  {
    if k > 0 {
      SameNumber(p, q, k - 1);
    }
  }

  lemma InStep(r: Poly, e: nat)
    requires Fits(r)
    ensures e in Step(r) <==> e < 64 && ((e > 0 && e - 1 in r) != (63 in r && e in Terms(GENERATOR)))
  {
    hide Terms;
    GeneratorTerms();
    InShift(r, 1, e);
  }

  lemma StepAdds(p: Poly, q: Poly)
    requires Fits(p) && Fits(q)
    ensures Fits(Step(p)) && Step(Add(p, q)) == Add(Step(p), Step(q))
  {
    hide Terms, Step;
    forall e: nat
      ensures (e in Step(Add(p, q)) <==> e in Add(Step(p), Step(q))) && (e in Step(p) ==> e < 64)
    {
      InStep(p, e);
      InStep(q, e);
      InStep(Add(p, q), e);
    }
  }

  lemma {:induction false} StepsAdd(p: Poly, q: Poly, n: nat)
    requires Fits(p) && Fits(q)
    ensures Fits(Steps(p, n)) && Fits(Steps(q, n)) && Steps(Add(p, q), n) == Add(Steps(p, n), Steps(q, n))
  {
    hide Step;
    if n > 0 {
      StepsAdd(p, q, n - 1);
      StepAdds(Steps(p, n - 1), Steps(q, n - 1));
      StepAdds(Steps(q, n - 1), Steps(p, n - 1));
    }
  }

  /** The constant term of the generator keeps a step from losing anything. */
  lemma {:induction false} StepsKeepNonzero(r: Poly, n: nat)
    requires Fits(r) && r != {}
    ensures Fits(Steps(r, n)) && Steps(r, n) != {}
  {
    hide Step, Terms;
    if n > 0 {
      var s := Steps(r, n - 1);
      StepsKeepNonzero(r, n - 1);
      StepAdds(s, s);
      GeneratorTerms();
      if 63 in s {
        InStep(s, 0);
      } else {
        var e :| e in s;
        InStep(s, e + 1);
      }
    }
  }

  /** Steps that push no bit out only shift. */
  lemma {:induction false} StepsShift(p: Poly, below: nat, k: nat, n: nat)
    requires below + k + n <= 64 && forall e :: e in p ==> e < below
    ensures Steps(Shift(p, k), n) == Shift(p, k + n)
  {
    hide Step, Shift, Terms;
    if n > 0 {
      StepsShift(p, below, k, n - 1);
      InShift(p, k + n - 1, 63);
      StepShifts(Shift(p, k + n - 1));
      ShiftTwice(p, k + n - 1, 1);
    }
  }

  lemma StepShifts(r: Poly)
    requires 63 !in r
    ensures Step(r) == Shift(r, 1)
  {
  }

  lemma {:induction false} StepsAfter(r: Poly, m: nat, n: nat)
    ensures Steps(Steps(r, m), n) == Steps(r, m + n)
  {
    hide Step;
    if n > 0 {
      StepsAfter(r, m, n - 1);
    }
  }

  // ---------- short messages ----------

  /** Up to eight bytes, the first one highest, from bit 63 down. */
  function Aligned(data: Bytes): Poly
    requires |data| <= 8
  {
    if data == [] then {}
    else Add(Aligned(data[..|data| - 1]), Shift(Terms(data[|data| - 1]), 64 - 8 * |data|))
  }

  lemma InByte(b: Byte, k: nat, e: nat)
    ensures e in Shift(Terms(b), k) ==> k <= e < k + 8
    ensures b != 0 ==> Shift(Terms(b), k) != {}
  {
    SixtyFourBits();
    TermsBelow(b, 8);
    InShift(Terms(b), k, e);
    if b != 0 {
      hide Terms;
      if Terms(b) == {} {
        assert Terms(b) == Terms(0) by { NoTerms(); }
        TermsAreInjective(b, 0);
      }
      var d :| d in Terms(b);
      InShift(Terms(b), k, d + k);
    }
  }

  lemma NoTerms()
    ensures Terms(0) == {}
  {
  }

  lemma {:induction false} AlignedFits(data: Bytes)
    requires |data| <= 8
    ensures forall e :: e in Aligned(data) ==> 64 - 8 * |data| <= e < 64
    ensures (exists i :: 0 <= i < |data| && data[i] != 0) ==> Aligned(data) != {}
  {
    hide Terms, Shift;
    if data != [] {
      var n := |data| - 1;
      AlignedFits(data[..n]);
      var last := Shift(Terms(data[n]), 64 - 8 * |data|);
      InByte(data[n], 64 - 8 * |data|, 0);
      forall e | e in last ensures 64 - 8 * |data| <= e < 64 - 8 * n {
        InByte(data[n], 64 - 8 * |data|, e);
      }
      assert Aligned(data) == Aligned(data[..n]) + last;
    }
  }

  /** The register after a short message is the message itself, stepped on. */
  lemma {:induction false} ShortRegister(data: Bytes)
    requires |data| <= 8
    ensures Register(data) == Steps(Aligned(data), 8 * |data|)
  {
    hide Terms, Shift, Steps, Add;
    if data == [] {
      NoSteps({});
    } else {
      var n := |data| - 1;
      var first, b := Aligned(data[..n]), Terms(data[n]);
      ShortRegister(data[..n]);
      AlignedFits(data[..n]);
      ByteFits(data[n], 56 - 8 * n);
      StepsShift(b, 8, 56 - 8 * n, 8 * n);
      StepsAdd(first, Shift(b, 56 - 8 * n), 8 * n);
      StepsAfter(Aligned(data), 8 * n, 8);
    }
  }

  lemma NoSteps(r: Poly)
    ensures Steps(r, 0) == r
  {
  }

  lemma ByteFits(b: Byte, k: nat)
    requires k <= 56
    ensures Fits(Shift(Terms(b), k)) && forall e :: e in Terms(b) ==> e < 8
  {
    SixtyFourBits();
    TermsBelow(b, 8);
    hide Terms;
    forall e | e in Shift(Terms(b), k) ensures e < 64 {
      InShift(Terms(b), k, e);
    }
  }

  lemma {:induction false} StepsOfZero(n: nat)
    ensures Steps({}, n) == {}
  {
    hide Terms;
    if n > 0 {
      StepsOfZero(n - 1);
      ShiftOfZero();
    }
  }

  lemma {:induction false} LeadingZeros(zeros: Bytes, data: Bytes)
    requires forall i :: 0 <= i < |zeros| ==> zeros[i] == 0
    ensures Register(zeros + data) == Register(data)
    decreases |zeros| + |data|
  {
    hide Steps, Terms, Shift;
    if data != [] {
      assert (zeros + data)[..|zeros + data| - 1] == zeros + data[..|data| - 1];
      LeadingZeros(zeros, data[..|data| - 1]);
    } else if zeros != [] {
      var n := |zeros| - 1;
      assert zeros + data == zeros && zeros[..n] + [] == zeros[..n];
      LeadingZeros(zeros[..n], []);
      NoTerms();
      ShiftOfZero();
      StepsOfZero(8);
      assert Add({}, {}) == {} && zeros[n] == 0;
      assert Register([]) == {} && Register(zeros) == Steps(Add(Register(zeros[..n]), Shift(Terms(zeros[n]), 56)), 8);
    } else {
      assert zeros + data == data;
    }
  }

  lemma ShiftOfZero()
    ensures Shift({}, 56) == {} && Shift({}, 1) == {}
  {
  }

  /** A message that is at most eight bytes long after its leading zeros, and not all zeros, never has
      checksum 0. */
  lemma ShortMessagesAreSeen(zeros: Bytes, data: Bytes)
    requires forall i :: 0 <= i < |zeros| ==> zeros[i] == 0
    requires |data| <= 8 && exists i :: 0 <= i < |data| && data[i] != 0
    ensures Crc(zeros + data) != 0
  {
    hide Register, Number, Steps, Aligned;
    LeadingZeros(zeros, data);
    ShortRegister(data);
    AlignedFits(data);
    StepsKeepNonzero(Aligned(data), 8 * |data|);
  }
}
