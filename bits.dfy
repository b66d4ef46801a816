/**
 * Binary-digit strings as the QR builder handles them: strings of the
 * characters '0' and '1', most significant digit first, leading zeros kept.
 *
 * Parse is Python's int(s, 2), Binary is format(v, 'b'), Nbin is the
 * builder's nbin (qr.py:57-62) and XorBin its xor_bin (qr.py:65-70).
 */
module Bits {

  /** A result, or None where the source raises an exception. */
  datatype Option<T> = None | Some(value: T)

  predicate IsBit(c: char) { c == '0' || c == '1' }

  predicate IsBits(s: string) { forall i :: 0 <= i < |s| ==> IsBit(s[i]) }

  /** A string of binary digits. */
  type BitString = s: string | IsBits(s)

  function Max(a: int, b: int): int { if a >= b then a else b }

  function Pow2(k: nat): (p: nat)
    ensures p >= 1
  {
    if k == 0 then 1 else 2 * Pow2(k - 1)
  }

  /** Python's int.bit_length(): the number of binary digits of v, 0 for v == 0. */
  function BitLength(v: nat): nat
  {
    if v == 0 then 0 else 1 + BitLength(v / 2)
  }

  function BitValue(c: char): nat { if c == '1' then 1 else 0 }

  function Digit(b: nat): char { if b == 1 then '1' else '0' }

  /** '0' * k */
  function Zeros(k: nat): string
  {
    seq(k, _ => '0')
  }

  /** int(s, 2) on a string of binary digits (the empty string reads as 0). */
  function Parse(s: string): nat
    requires IsBits(s)
  {
    if s == [] then 0 else 2 * Parse(s[..|s| - 1]) + BitValue(s[|s| - 1])
  }

  /** format(v, 'b'): the binary digits of v without leading zeros, "0" for zero. */
  function Binary(v: nat): string
  {
    if v < 2 then [Digit(v)] else Binary(v / 2) + [Digit(v % 2)]
  }

  /**
   * nbin(num, n) = format(num, f'0{n}b'): the binary digits of v, padded on
   * the left with zeros to at least n digits.
   */
  function Nbin(v: nat, n: nat): (r: string)
    ensures IsBits(r) && Parse(r) == v
    ensures |r| == Max(n, Max(1, BitLength(v)))
    ensures |r| > n ==> r[0] == '1' || r == "0"
  {
    BinaryCorrect(v);
    var b := Binary(v);
    if |b| < n then
      ZerosPrefix(n - |b|, b);
      Zeros(n - |b|) + b
    else
      b
  }

  /** Bitwise exclusive or of two natural numbers (Python's ^ on non-negative ints). */
  function Xor(a: nat, b: nat): nat
    decreases a + b
  {
    if a == 0 && b == 0 then 0 else 2 * Xor(a / 2, b / 2) + (a + b) % 2
  }

  /**
   * xor_bin(x, y, n): the exclusive or of two binary strings, as a binary
   * string padded to at least n digits. int('', 2) raises, so both operands
   * must be non-empty.
   */
  function XorBin(x: string, y: string, n: nat): (r: string)
    requires IsBits(x) && IsBits(y) && |x| > 0 && |y| > 0
    ensures IsBits(r) && Parse(r) == Xor(Parse(x), Parse(y))
    ensures |r| == Max(n, Max(1, BitLength(Xor(Parse(x), Parse(y)))))
  {
    Nbin(Xor(Parse(x), Parse(y)), n)
  }

  /** Reference definition: exclusive or taken digit by digit on equal-length strings. */
  function BitwiseXor(x: string, y: string): (r: string)
    requires |x| == |y|
  {
    seq(|x|, i requires 0 <= i < |x| => if x[i] == y[i] then '0' else '1')
  }

  // ---------------------------------------------------------------------
  // Binary and Parse

  lemma {:induction false} BinaryCorrect(v: nat)
    ensures IsBits(Binary(v)) && Parse(Binary(v)) == v
    ensures |Binary(v)| == Max(1, BitLength(v))
    ensures v >= 1 ==> Binary(v)[0] == '1'
  {
    if v >= 2 {
      BinaryCorrect(v / 2);
      var b := Binary(v);
      assert b[..|b| - 1] == Binary(v / 2);
    } else if v == 1 {
      assert BitLength(1) == 1 + BitLength(0);
    }
  }

  lemma {:induction false} ParseZeros(k: nat)
    ensures IsBits(Zeros(k)) && Parse(Zeros(k)) == 0
  {
    if k > 0 {
      ParseZeros(k - 1);
      assert Zeros(k)[..k - 1] == Zeros(k - 1);
    }
  }

  /** Appending digits shifts the value left: int(s + t, 2) == int(s, 2) * 2^|t| + int(t, 2). */
  lemma {:induction false} ParseAppend(s: string, t: string)
    requires IsBits(s) && IsBits(t)
    ensures IsBits(s + t)
    ensures Parse(s + t) == Parse(s) * Pow2(|t|) + Parse(t)
  {
    BitsAppend(s, t);
    if t == [] {
      assert s + t == s;
    } else {
      var n := |t|;
      var t' := t[..n - 1];
      var b := BitValue(t[n - 1]);
      var w := Pow2(n - 1);
      assert Parse(s + t) == 2 * Parse(s + t') + b by {
        BitsAppend(s, t');
        assert (s + t)[..|s + t| - 1] == s + t';
        assert (s + t)[|s + t| - 1] == t[n - 1];
      }
      assert Parse(s + t') == Parse(s) * w + Parse(t') by {
        ParseAppend(s, t');
      }
      assert Pow2(n) == 2 * w && Parse(t) == 2 * Parse(t') + b;
      MulTwice(Parse(s), w);
    }
  }

  lemma MulTwice(a: nat, b: nat)
    ensures a * (2 * b) == 2 * (a * b)
  {
  }

  lemma BitsAppend(s: string, t: string)
    requires IsBits(s) && IsBits(t)
    ensures IsBits(s + t)
  {
  }

  lemma ZerosPrefix(k: nat, s: string)
    requires IsBits(s)
    ensures IsBits(Zeros(k) + s) && Parse(Zeros(k) + s) == Parse(s)
  {
    ParseZeros(k);
    ParseAppend(Zeros(k), s);
  }

  lemma {:induction false} ParseBound(s: string)
    requires IsBits(s)
    ensures Parse(s) < Pow2(|s|)
  {
    if s != [] {
      ParseBound(s[..|s| - 1]);
    }
  }

  /** A string whose first digit is '1' has its top bit set. */
  lemma LeadingOne(s: string)
    requires IsBits(s) && |s| > 0 && s[0] == '1'
    ensures Parse(s) >= Pow2(|s| - 1)
  {
    assert s == [s[0]] + s[1..];
    ParseAppend([s[0]], s[1..]);
    assert [s[0]][..0] == [];
  }

  /** A string whose first digit is '0' has its top bit clear. */
  lemma LeadingZero(s: string)
    requires IsBits(s) && |s| > 0 && s[0] == '0'
    ensures Parse(s) < Pow2(|s| - 1)
  {
    assert s == [s[0]] + s[1..];
    ParseAppend([s[0]], s[1..]);
    assert [s[0]][..0] == [];
    ParseBound(s[1..]);
  }

  /** Two digit strings of the same length with the same value are the same string. */
  lemma {:induction false} ParseInjective(s: string, t: string)
    requires IsBits(s) && IsBits(t) && |s| == |t| && Parse(s) == Parse(t)
    ensures s == t
  {
    if s != [] {
      var n := |s|;
      assert s[n - 1] == t[n - 1];
      ParseInjective(s[..n - 1], t[..n - 1]);
      assert s == s[..n - 1] + [s[n - 1]];
      assert t == t[..n - 1] + [t[n - 1]];
    }
  }

  lemma {:induction false} BitLengthBound(v: nat, k: nat)
    ensures v < Pow2(k) <==> BitLength(v) <= k
  {
    if k > 0 && v > 0 {
      BitLengthBound(v / 2, k - 1);
    }
  }

  /** nbin(int(s, 2), len(s)) == s: a digit string is recovered from its value and length. */
  lemma NbinOfParse(s: string)
    requires IsBits(s) && |s| > 0
    ensures Nbin(Parse(s), |s|) == s
  {
    ParseBound(s);
    BitLengthBound(Parse(s), |s|);
    ParseInjective(Nbin(Parse(s), |s|), s);
  }

  // ---------------------------------------------------------------------
  // Exclusive or

  lemma XorUnfold(a: nat, b: nat)
    ensures Xor(a, b) == 2 * Xor(a / 2, b / 2) + (a + b) % 2
  {
  }

  lemma {:induction false} XorZero(a: nat)
    ensures Xor(a, 0) == a && Xor(0, a) == a
  {
    if a > 0 {
      XorZero(a / 2);
    }
  }

  lemma {:induction false} XorComm(a: nat, b: nat)
    ensures Xor(a, b) == Xor(b, a)
    decreases a + b
  {
    if a + b > 0 {
      XorComm(a / 2, b / 2);
    }
  }

  lemma {:induction false} XorSelf(a: nat)
    ensures Xor(a, a) == 0
  {
    if a > 0 {
      XorSelf(a / 2);
    }
  }

  /** The halves and the parity of a ^ b. */
  lemma XorHalves(a: nat, b: nat)
    ensures Xor(a, b) / 2 == Xor(a / 2, b / 2) && Xor(a, b) % 2 == (a + b) % 2
  {
    XorUnfold(a, b);
  }

  lemma {:induction false} XorAssoc(a: nat, b: nat, c: nat)
    ensures Xor(Xor(a, b), c) == Xor(a, Xor(b, c))
    decreases a + b + c
  {
    if a + b + c > 0 {
      XorAssoc(a / 2, b / 2, c / 2);
      XorAssocStep(a, b, c);
    }
  }

  lemma XorAssocStep(a: nat, b: nat, c: nat)
    requires Xor(Xor(a / 2, b / 2), c / 2) == Xor(a / 2, Xor(b / 2, c / 2))
    ensures Xor(Xor(a, b), c) == Xor(a, Xor(b, c))
  {
    var ab, bc := Xor(a, b), Xor(b, c);
    XorHalves(a, b);
    XorHalves(b, c);
    assert Xor(ab / 2, c / 2) == Xor(a / 2, bc / 2);
    ParityShift(a, b, c, ab, bc);
    XorJoin(ab, c, a, bc);
  }

  lemma ParityShift(a: nat, b: nat, c: nat, ab: nat, bc: nat)
    requires ab % 2 == (a + b) % 2 && bc % 2 == (b + c) % 2
    ensures (ab + c) % 2 == (a + bc) % 2
  {
  }

  lemma XorJoin(a: nat, b: nat, c: nat, d: nat)
    requires Xor(a / 2, b / 2) == Xor(c / 2, d / 2) && (a + b) % 2 == (c + d) % 2
    ensures Xor(a, b) == Xor(c, d)
  {
    XorUnfold(a, b);
    XorUnfold(c, d);
  }

  lemma XorCancel(a: nat, b: nat)
    ensures Xor(Xor(a, b), b) == a
  {
    XorAssoc(a, b, b);
    XorSelf(b);
    XorZero(a);
  }

  lemma XorEqZero(a: nat, b: nat)
    requires Xor(a, b) == 0
    ensures a == b
  {
    XorCancel(a, b);
    XorZero(b);
  }

  lemma XorDouble(a: nat, b: nat)
    ensures Xor(2 * a, 2 * b) == 2 * Xor(a, b)
  {
    XorJoinDigits(2 * a, 2 * b, a, b, 0, 0);
  }

  /** Below 2^k stays below 2^k. */
  lemma {:induction false} XorBelow(a: nat, b: nat, k: nat)
    requires a < Pow2(k) && b < Pow2(k)
    ensures Xor(a, b) < Pow2(k)
  {
    if k == 0 {
    } else {
      XorBelow(a / 2, b / 2, k - 1);
    }
  }

  /** Bit k of a ^ b is set exactly when bit k is set in one operand but not both. */
  lemma {:induction false} XorTop(a: nat, b: nat, k: nat)
    requires a < Pow2(k + 1) && b < Pow2(k + 1)
    ensures (Xor(a, b) >= Pow2(k)) == ((a >= Pow2(k)) != (b >= Pow2(k)))
  {
    if k == 0 {
      assert a <= 1 && b <= 1;
      XorUnfold(a, b);
      assert Xor(a / 2, b / 2) == 0;
    } else {
      XorTop(a / 2, b / 2, k - 1);
      XorUnfold(a, b);
    }
  }

  /** Exclusive or with a value below 2^k fills in the low bits: (a * 2^k) ^ b == a * 2^k + b. */
  lemma {:induction false} XorLow(a: nat, b: nat, k: nat)
    requires b < Pow2(k)
    ensures Xor(a * Pow2(k), b) == a * Pow2(k) + b
  {
    if k == 0 {
      XorZero(a);
    } else {
      var q := Pow2(k - 1);
      var p := a * q;
      var n := a * Pow2(k);
      assert n == 2 * p by {
        assert Pow2(k) == 2 * q;
        assert a * (2 * q) == 2 * (a * q);
      }
      assert Xor(p, b / 2) == p + b / 2 by {
        assert b / 2 < q;
        XorLow(a, b / 2, k - 1);
      }
      assert Xor(n, b) == 2 * Xor(p, b / 2) + b % 2 by {
        XorShiftIn(p, b);
      }
    }
  }

  lemma XorShiftIn(p: nat, b: nat)
    ensures Xor(2 * p, b) == 2 * Xor(p, b / 2) + b % 2
  {
    var q, d := b / 2, b % 2;
    assert b == 2 * q + d && d < 2;
    XorJoinDigits(2 * p, b, p, q, 0, d);
    assert (0 + d) % 2 == d;
  }

  // ---------------------------------------------------------------------
  // Digit-by-digit exclusive or

  lemma {:induction false} ParseBitwiseXor(x: string, y: string)
    requires IsBits(x) && IsBits(y) && |x| == |y|
    ensures IsBits(BitwiseXor(x, y))
    ensures Parse(BitwiseXor(x, y)) == Xor(Parse(x), Parse(y))
  {
    var r := BitwiseXor(x, y);
    if x == [] {
      assert r == [];
    } else {
      var n := |x|;
      var x', y' := x[..n - 1], y[..n - 1];
      var px, py := Parse(x'), Parse(y');
      var dx, dy := BitValue(x[n - 1]), BitValue(y[n - 1]);
      assert IsBits(r) && Parse(r) == 2 * Xor(px, py) + (dx + dy) % 2 by {
        ParseBitwiseXor(x', y');
        assert r[..n - 1] == BitwiseXor(x', y');
        DigitXor(x[n - 1], y[n - 1]);
      }
      assert Xor(Parse(x), Parse(y)) == 2 * Xor(px, py) + (dx + dy) % 2 by {
        XorJoinDigits(Parse(x), Parse(y), px, py, dx, dy);
      }
    }
  }

  lemma DigitXor(c: char, d: char)
    requires IsBit(c) && IsBit(d)
    ensures BitValue(if c == d then '0' else '1') == (BitValue(c) + BitValue(d)) % 2
  {
  }

  lemma XorJoinDigits(a: nat, b: nat, p: nat, q: nat, dx: nat, dy: nat)
    requires dx < 2 && dy < 2 && a == 2 * p + dx && b == 2 * q + dy
    ensures Xor(a, b) == 2 * Xor(p, q) + (dx + dy) % 2
  {
    assert a / 2 == p && b / 2 == q;
    assert (a + b) % 2 == (dx + dy) % 2;
    if a == 0 && b == 0 {
      assert p == 0 && q == 0;
    } else {
      assert Xor(a, b) == 2 * Xor(a / 2, b / 2) + (a + b) % 2;
    }
  }

  /** xor_bin on two strings of equal length n, padded to n, is the digit-by-digit exclusive or. */
  lemma XorBinBitwise(x: string, y: string)
    requires IsBits(x) && IsBits(y) && |x| == |y| > 0
    ensures XorBin(x, y, |x|) == BitwiseXor(x, y)
  {
    ParseBitwiseXor(x, y);
    NbinOfParse(BitwiseXor(x, y));
  }
}
