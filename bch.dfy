/**
 * bch15_5 (qr.py:110-119): the ten parity digits of the BCH(15,5) code that
 * protects a QR format word, computed by long division in GF(2) by the
 * generator x^10 + x^8 + x^5 + x^4 + x^2 + x + 1 (digits 10100110111).
 *
 * Bch15_5AsWritten follows the source exactly, including its loop test
 * int(f, 2) >= int(g, 2). That test stops the division too early when the
 * remaining value lies between 2^10 and the generator, and then an 11-digit
 * non-remainder comes out (AsWrittenCounterexample). Bch15_5 tests the degree
 * instead and always returns the remainder; the two agree on the payload the
 * builder actually uses (AsWrittenFixedPayload).
 */
module Bch {
  import opened Bits
  import opened Gf2

  const GENERATOR: BitString := "10100110111"

  lemma GeneratorFacts()
    ensures IsBits(GENERATOR) && |GENERATOR| == 11
    ensures Parse(GENERATOR) == 1335 && BitLength(Parse(GENERATOR)) == 11
    ensures Pow2(10) == 1024 && Pow2(11) == 2048
  {
    GeneratorValue();
    TenEleven();
    BitLengthBound(1335, 11);
    BitLengthBound(1335, 10);
  }

  lemma GeneratorValue()
    ensures Parse(GENERATOR) == 1335
  {
    DigitsValue(GENERATOR);
  }

  /** The value of any string spelling the generator's digits, in groups of 4, 4 and 3. */
  lemma DigitsValue(s: string)
    requires |s| == 11 && s[0] == '1' && s[1] == '0' && s[2] == '1' && s[3] == '0' && s[4] == '0' && s[5] == '1' && s[6] == '1' && s[7] == '0' && s[8] == '1' && s[9] == '1' && s[10] == '1'
    ensures IsBits(s) && Parse(s) == 1335
  {
    var a, b, c := s[..4], s[4..8], s[8..];
    assert s == a + b + c;
    assert Parse(a) == 10 by { DigitsFour(a); }
    assert Parse(b) == 6 by { DigitsFour(b); }
    assert Parse(c) == 7 by { DigitsThree(c); }
    assert Pow2(4) == 16 && Pow2(3) == 8;
    ParseAppend(a, b);
    ParseAppend(a + b, c);
  }

  lemma DigitsThree(s: string)
    requires IsBits(s) && |s| == 3
    ensures Parse(s) == 4 * BitValue(s[0]) + 2 * BitValue(s[1]) + BitValue(s[2])
  {
    PrefixStep(s, 0);
    PrefixStep(s, 1);
    PrefixStep(s, 2);
    assert s[..3] == s;
  }

  lemma DigitsFour(s: string)
    requires IsBits(s) && |s| == 4
    ensures Parse(s) == 8 * BitValue(s[0]) + 4 * BitValue(s[1]) + 2 * BitValue(s[2]) + BitValue(s[3])
  {
    DigitsThree(s[..3]);
    PrefixStep(s, 3);
    assert s[..4] == s;
  }

  /** One more digit of a prefix. */
  lemma PrefixStep(s: string, i: nat)
    requires IsBits(s) && i < |s|
    ensures Parse(s[..i + 1]) == 2 * Parse(s[..i]) + BitValue(s[i])
  {
    assert s[..i + 1][..i] == s[..i];
  }

  lemma TenEleven()
    ensures Pow2(10) == 1024 && Pow2(11) == 2048
  {
    assert Pow2(5) == 32;
  }

  /**
   * Termination measure of both division loops: the length of f, plus one
   * while f still has a leading zero (only the first step on a payload that
   * starts with 0 can leave the length unchanged).
   */
  function Measure(f: string): nat
  {
    |f| + (if |f| > 0 && f[0] == '0' then 1 else 0)
  }

  // ---------------------------------------------------------------------
  // One division step

  /** h = g + '0' * (len(f) - len(g)) is g times x^(len(f) - 11). */
  lemma AlignedDivisor(f: string)
    requires |f| >= 11
    ensures IsBits(GENERATOR + Zeros(|f| - 11))
    ensures Parse(GENERATOR + Zeros(|f| - 11)) == CMul(Pow2(|f| - 11), Parse(GENERATOR))
  {
    GeneratorFacts();
    ParseZeros(|f| - 11);
    ParseAppend(GENERATOR, Zeros(|f| - 11));
    CMulPow2(|f| - 11, Parse(GENERATOR));
  }

  /** A value below 2^m (m >= 2) prints, without padding, with measure at most m. */
  lemma ShortResult(v: nat, m: nat)
    requires m >= 2 && v < Pow2(m)
    ensures Measure(Nbin(v, 0)) <= m
  {
    BitLengthBound(v, m);
    var r := Nbin(v, 0);
    assert r[0] == '1' || r == "0";
  }

  /** A value of exactly m digits prints as m digits with a leading 1. */
  lemma ExactResult(v: nat, m: nat)
    requires m >= 1 && Pow2(m - 1) <= v < Pow2(m)
    ensures Measure(Nbin(v, 0)) == m
  {
    BitLengthBound(v, m);
    BitLengthBound(v, m - 1);
    var r := Nbin(v, 0);
    assert r[0] == '1' || r == "0";
  }

  /** Xor with a divisor of the same length and a leading 1 lowers the measure. */
  lemma MeasureStep(f: string, h: string)
    requires IsBits(f) && IsBits(h) && |f| == |h| >= 3 && h[0] == '1'
    ensures Measure(XorBin(f, h, 0)) < Measure(f)
  {
    var L := |f|;
    LeadingOne(h);
    ParseBound(h);
    ParseBound(f);
    var x := Xor(Parse(f), Parse(h));
    XorTop(Parse(f), Parse(h), L - 1);
    if f[0] == '1' {
      LeadingOne(f);
      ShortResult(x, L - 1);
    } else {
      LeadingZero(f);
      XorBelow(Parse(f), Parse(h), L);
      ExactResult(x, L);
    }
  }

  /**
   * While f has degree at least 10, it has at least 11 digits and one xor
   * with the aligned divisor strictly lowers the measure.
   */
  lemma DivisionStep(f: string)
    requires IsBits(f) && Parse(f) >= Pow2(10)
    ensures |f| >= 11
    ensures IsBits(GENERATOR + Zeros(|f| - 11))
    ensures Measure(XorBin(f, GENERATOR + Zeros(|f| - 11), 0)) < Measure(f)
  {
    ParseBound(f);
    BitLengthBound(Parse(f), 10);
    BitLengthBound(Parse(f), |f|);
    AlignedDivisor(f);
    MeasureStep(f, GENERATOR + Zeros(|f| - 11));
  }

  /** Adding a multiple of g does not change what f is congruent to. */
  lemma MultipleStep(u: nat, v: nat, a: nat, g: nat)
    requires IsMultiple(v, g) && IsMultiple(Xor(u, a), g)
    ensures IsMultiple(Xor(Xor(u, v), a), g)
  {
    MultipleXor(Xor(u, a), v, g);
    XorAssoc(u, a, v);
    XorComm(a, v);
    XorAssoc(u, v, a);
  }

  lemma MultipleZero(g: nat)
    ensures IsMultiple(0, g)
  {
    assert CMul(0, g) == 0;
  }

  lemma ShiftedPayload(x: string)
    requires IsBits(x)
    ensures IsBits(x + Zeros(10)) && |x + Zeros(10)| > 0
    ensures Parse(x + Zeros(10)) == Parse(x) * Pow2(10)
  {
    ParseZeros(10);
    ParseAppend(x, Zeros(10));
  }

  // ---------------------------------------------------------------------
  // The division as the source writes it

  /**
   * What the loop of qr.py:116-118 leaves in f: xor the aligned generator
   * while int(f, 2) >= int(g, 2). The result is below g and differs from the
   * start by a multiple of g, but it may still have degree 10.
   */
  function DivideAsWritten(f: string): (rest: string)
    requires IsBits(f) && |f| > 0
    ensures IsBits(rest) && |rest| > 0 && Parse(rest) < Parse(GENERATOR)
    ensures IsMultiple(Xor(Parse(f), Parse(rest)), Parse(GENERATOR))
    decreases Measure(f)
  {
    GeneratorFacts();
    if Parse(f) >= Parse(GENERATOR) then
      DivisionStep(f);
      var h := GENERATOR + Zeros(|f| - |GENERATOR|);
      var f' := XorBin(f, h, 0);
      var rest := DivideAsWritten(f');
      AlignedDivisor(f);
      XorCancel(Parse(f), Parse(h));
      MultipleStep(Parse(f'), Parse(h), Parse(rest), Parse(GENERATOR));
      rest
    else
      XorSelf(Parse(f));
      MultipleZero(Parse(GENERATOR));
      f
  }

  /** The value bch15_5 returns as written. */
  function AsWrittenParity(x: string): (r: string)
    requires IsBits(x)
    ensures IsBits(r) && Parse(r) < Parse(GENERATOR)
    ensures IsMultiple(Xor(Parse(x + Zeros(10)), Parse(r)), Parse(GENERATOR))
  {
    ShiftedPayload(x);
    Nbin(Parse(DivideAsWritten(x + Zeros(10))), 10)
  }

  /** bch15_5 exactly as qr.py:110-119 writes it. */
  method Bch15_5AsWritten(x: string) returns (r: string)
    requires IsBits(x)
    ensures r == AsWrittenParity(x)
  {
    var g := GENERATOR;
    var f := x + Zeros(10);
    ShiftedPayload(x);
    GeneratorFacts();
    while Parse(f) >= Parse(g)
      invariant IsBits(f) && |f| > 0
      invariant DivideAsWritten(f) == DivideAsWritten(x + Zeros(10))
      decreases Measure(f)
    {
      DivisionStep(f);
      var h := g + Zeros(|f| - |g|);
      f := XorBin(f, h, 0);
    }
    r := Nbin(Parse(f), 10);
  }

  // ---------------------------------------------------------------------
  // The corrected division

  /**
   * bch15_5 with the loop test on the degree of f (bit length at least that
   * of g): the result is the ten-digit remainder of x * x^10 modulo g.
   */
  method Bch15_5(x: string) returns (r: string)
    requires IsBits(x)
    ensures IsBits(r) && |r| == 10
    ensures IsRemainder(Parse(r), Parse(x + Zeros(10)), Parse(GENERATOR))
  {
    var g := GENERATOR;
    var f := x + Zeros(10);
    GeneratorFacts();
    ShiftedPayload(x);
    XorSelf(Parse(f));
    MultipleZero(Parse(g));
    while BitLength(Parse(f)) >= |g|
      invariant IsBits(f) && |f| > 0
      invariant IsMultiple(Xor(Parse(f), Parse(x + Zeros(10))), Parse(g))
      decreases Measure(f)
    {
      BitLengthBound(Parse(f), 10);
      DivisionStep(f);
      var h := g + Zeros(|f| - |g|);
      AlignedDivisor(f);
      MultipleStep(Parse(f), Parse(h), Parse(x + Zeros(10)), Parse(g));
      f := XorBin(f, h, 0);
    }
    BitLengthBound(Parse(f), 10);
    r := Nbin(Parse(f), 10);
    XorComm(Parse(f), Parse(x + Zeros(10)));
  }

  // ---------------------------------------------------------------------
  // Properties of the parity

  lemma {:induction false} MultipleTimesPow2(a: nat, g: nat, k: nat)
    requires IsMultiple(a, g)
    ensures IsMultiple(a * Pow2(k), g)
  {
    if k > 0 {
      MultipleTimesPow2(a, g, k - 1);
      MultipleDouble(a * Pow2(k - 1), g);
      TimesPow2Succ(a, k);
    }
  }

  lemma MultipleDouble(a: nat, g: nat)
    requires IsMultiple(a, g)
    ensures IsMultiple(2 * a, g)
  {
    var q: nat :| CMul(q, g) == a;
    CMulDouble(q, g);
  }

  lemma TimesPow2Succ(a: nat, k: nat)
    requires k > 0
    ensures a * Pow2(k) == 2 * (a * Pow2(k - 1))
  {
    assert Pow2(k) == 2 * Pow2(k - 1);
  }

  /**
   * x followed by its parity is a codeword: running the division again on
   * x + r leaves remainder 0, so the corrected bch15_5 returns '0' * 10.
   */
  lemma CodewordRemainder(x: string, r: string, r2: string)
    requires IsBits(x) && IsBits(r) && |r| == 10
    requires IsRemainder(Parse(r), Parse(x + Zeros(10)), Parse(GENERATOR))
    requires IsBits(r2) && |r2| == 10
    requires IsRemainder(Parse(r2), Parse(x + r + Zeros(10)), Parse(GENERATOR))
    ensures r2 == Zeros(10)
  {
    GeneratorFacts();
    ParseAppend(x, r);
    ShiftedPayload(x);
    ShiftedPayload(x + r);
    ParseBound(r);
    XorLow(Parse(x), Parse(r), 10);
    MultipleTimesPow2(Parse(x + r), Parse(GENERATOR), 10);
    XorZero(Parse(x + r + Zeros(10)));
    assert IsRemainder(0, Parse(x + r + Zeros(10)), Parse(GENERATOR));
    RemainderUnique(Parse(r2), 0, Parse(x + r + Zeros(10)), Parse(GENERATOR));
    ParseZeros(10);
    ParseInjective(r2, Zeros(10));
  }

  // ---------------------------------------------------------------------
  // Concrete payloads

  /** A digit string with a leading 1 is what nbin prints for its value. */
  lemma NbinCanonical(s: string)
    requires IsBits(s) && |s| > 0 && s[0] == '1'
    ensures Nbin(Parse(s), 0) == s
  {
    LeadingOne(s);
    ParseBound(s);
    BitLengthBound(Parse(s), |s|);
    BitLengthBound(Parse(s), |s| - 1);
    ParseInjective(Nbin(Parse(s), 0), s);
  }

  lemma {:induction false} Pow2Mono(a: nat, b: nat)
    requires a <= b
    ensures Pow2(a) <= Pow2(b)
  {
    if a < b {
      Pow2Mono(a, b - 1);
    }
  }

  /**
   * One pass of the source's loop on a concrete f of at least 12 digits with a
   * leading 1: the test holds and the xor leaves next (wide is the xor before
   * nbin drops its k leading zeros).
   */
  lemma AsWrittenStep(f: string, wide: string, next: string, k: nat)
    requires IsBits(f) && |f| >= 12 && f[0] == '1'
    requires IsBits(next) && |next| > 0 && next[0] == '1'
    requires |wide| == |f| && wide == BitwiseXor(f, GENERATOR + Zeros(|f| - 11))
    requires wide == Zeros(k) + next
    ensures DivideAsWritten(f) == DivideAsWritten(next)
  {
    var h := GENERATOR + Zeros(|f| - 11);
    assert Parse(f) >= Parse(GENERATOR) by {
      GeneratorFacts();
      LeadingOne(f);
      Pow2Mono(11, |f| - 1);
    }
    assert XorBin(f, h, 0) == next by {
      AlignedDivisor(f);
      ParseBitwiseXor(f, h);
      ZerosPrefix(k, next);
      NbinCanonical(next);
    }
  }

  /** A rest of fewer than 11 digits leaves the loop at once. */
  lemma AsWrittenDone(f: string)
    requires IsBits(f) && 0 < |f| <= 10
    ensures DivideAsWritten(f) == f
  {
    GeneratorFacts();
    ParseBound(f);
    Pow2Mono(|f|, 10);
  }

  /** An as-written parity of exactly ten digits is the true remainder. */
  lemma AsWrittenRemainder(x: string)
    requires IsBits(x) && |AsWrittenParity(x)| == 10
    ensures IsRemainder(Parse(AsWrittenParity(x)), Parse(x + Zeros(10)), Parse(GENERATOR))
  {
    GeneratorFacts();
    var r := AsWrittenParity(x);
    ParseBound(r);
    BitLengthBound(Parse(r), 10);
  }

  lemma FixedStep0()
    ensures DivideAsWritten("100110000000000") == DivideAsWritten("1111101110000")
  {
    AsWrittenStep("100110000000000", "001111101110000", "1111101110000", 2);
  }

  lemma FixedStep1()
    ensures DivideAsWritten("1111101110000") == DivideAsWritten("101110101100")
  {
    AsWrittenStep("1111101110000", "0101110101100", "101110101100", 1);
  }

  lemma FixedStep2()
    ensures DivideAsWritten("101110101100") == "111000010"
  {
    AsWrittenStep("101110101100", "000111000010", "111000010", 3);
    AsWrittenDone("111000010");
  }

  /** The source's division on 10011 + '0' * 10 takes three steps and leaves 111000010. */
  lemma FixedDivision()
    ensures DivideAsWritten("10011" + Zeros(10)) == "111000010"
  {
    assert "10011" + Zeros(10) == "100110000000000";
    FixedStep0();
    FixedStep1();
    FixedStep2();
  }

  lemma FixedPadding()
    ensures Nbin(Parse("111000010"), 10) == "0111000010"
  {
    var f3, r := "111000010", "0111000010";
    assert r == Zeros(1) + f3;
    ZerosPrefix(1, f3);
    NbinOfParse(r);
  }

  /**
   * For the payload 10011 (level H, mask 011, qr.py:133 and 258) the source's
   * division happens to take the right steps: the parity is 0111000010.
   */
  lemma AsWrittenFixedPayload()
    ensures AsWrittenParity("10011") == "0111000010"
  {
    FixedDivision();
    FixedPadding();
  }

  /** ... and 0111000010 is the true remainder of 10011 * x^10. */
  lemma FixedRemainder()
    ensures IsRemainder(Parse("0111000010"), Parse("10011" + Zeros(10)), Parse(GENERATOR))
  {
    AsWrittenFixedPayload();
    AsWrittenRemainder("10011");
  }

  /** Two digit strings of one length that are both remainders are equal. */
  lemma RemainderDigits(r: string, p: string, a: nat)
    requires IsBits(r) && IsBits(p) && |r| == |p|
    requires IsRemainder(Parse(r), a, Parse(GENERATOR)) && IsRemainder(Parse(p), a, Parse(GENERATOR))
    ensures r == p
  {
    RemainderUnique(Parse(r), Parse(p), a, Parse(GENERATOR));
    ParseInjective(r, p);
  }

  /** Hence the corrected bch15_5 returns 0111000010 on 10011. */
  lemma FixedPayload(x: string, r: string)
    requires x == "10011" && IsBits(r) && |r| == 10
    requires IsRemainder(Parse(r), Parse(x + Zeros(10)), Parse(GENERATOR))
    ensures r == "0111000010"
  {
    FixedRemainder();
    RemainderDigits(r, "0111000010", Parse(x + Zeros(10)));
  }

  // The payload 00001: the loop of the source never runs.

  lemma ParseOne()
    ensures Parse("00001") == 1
  {
    assert Binary(1) == "1";
    assert "00001" == Zeros(4) + Binary(1);
    BinaryCorrect(1);
    ZerosPrefix(4, Binary(1));
  }

  lemma CounterexampleValue()
    ensures Parse("00001" + Zeros(10)) == 1024
  {
    ParseOne();
    ShiftedPayload("00001");
    GeneratorFacts();
  }

  lemma CounterexampleDivision()
    ensures DivideAsWritten("00001" + Zeros(10)) == "00001" + Zeros(10)
  {
    CounterexampleValue();
    GeneratorFacts();
  }

  lemma ElevenDigits()
    ensures Nbin(1024, 10) == "10000000000"
  {
    assert Binary(1024) == "10000000000";
    BinaryCorrect(1024);
    ParseInjective(Nbin(1024, 10), "10000000000");
  }

  /** Whenever the source's loop leaves eleven digits, they are not the remainder. */
  lemma ElevenDigitsWrong(x: string)
    requires IsBits(x) && |AsWrittenParity(x)| == 11
    ensures !IsRemainder(Parse(AsWrittenParity(x)), Parse(x + Zeros(10)), Parse(GENERATOR))
  {
    GeneratorFacts();
    var r := AsWrittenParity(x);
    assert r[0] == '1' || r == "0";
    LeadingOne(r);
    BitLengthBound(Parse(r), 10);
  }

  /**
   * For the payload 00001 the source's loop never runs (1024 < 1335): it
   * returns the 11 digits 10000000000, which is not a remainder modulo g.
   */
  lemma AsWrittenCounterexample()
    ensures AsWrittenParity("00001") == "10000000000"
    ensures !IsRemainder(Parse(AsWrittenParity("00001")), Parse("00001" + Zeros(10)), Parse(GENERATOR))
  {
    CounterexampleDivision();
    CounterexampleValue();
    ElevenDigits();
    ElevenDigitsWrong("00001");
  }

  /** When f + r (r right-aligned) is exactly g, r is the remainder of f. */
  lemma RemainderByXor(f: string, r: string, k: nat, j: nat)
    requires IsBits(f) && IsBits(r) && |r| == 10 && |f| == k + 10 == j + 11
    requires BitwiseXor(f, Zeros(k) + r) == Zeros(j) + GENERATOR
    ensures IsRemainder(Parse(r), Parse(f), Parse(GENERATOR))
  {
    ZerosPrefix(k, r);
    ParseBitwiseXor(f, Zeros(k) + r);
    GeneratorFacts();
    ZerosPrefix(j, GENERATOR);
    CMulOne(Parse(GENERATOR));
    ParseBound(r);
    BitLengthBound(Parse(r), 10);
  }

  /** The true remainder for 00001 is 0100110111: x^10 + r is g itself. */
  lemma CounterexampleRemainder()
    ensures IsRemainder(Parse("0100110111"), Parse("00001" + Zeros(10)), Parse(GENERATOR))
  {
    assert "00001" + Zeros(10) == "000010000000000";
    RemainderByXor("000010000000000", "0100110111", 5, 4);
  }
}
