/**
 * Polynomials over GF(2), stored as natural numbers whose binary digits are
 * the coefficients (the most significant digit is the highest power of x).
 * Addition is exclusive or; CMul is the carry-less product. This is the
 * arithmetic behind BCH(15,5) in qr.py:110-119.
 */
module Gf2 {
  import opened Bits

  /** The carry-less product of q and g: the product of the polynomials q(x) and g(x). */
  function CMul(q: nat, g: nat): nat
  {
    if q == 0 then 0 else Xor(2 * CMul(q / 2, g), if q % 2 == 1 then g else 0)
  }

  ghost predicate IsMultiple(a: nat, g: nat)
  {
    exists q: nat :: CMul(q, g) == a
  }

  /** r is the remainder of a divided by g: lower degree than g, and a + r is a multiple of g. */
  ghost predicate IsRemainder(r: nat, a: nat, g: nat)
  {
    BitLength(r) < BitLength(g) && IsMultiple(Xor(a, r), g)
  }

  function Select(bit: nat, g: nat): nat { if bit == 1 then g else 0 }

  lemma CMulUnfold(q: nat, g: nat)
    ensures CMul(q, g) == Xor(2 * CMul(q / 2, g), Select(q % 2, g))
  {
    if q == 0 {
      XorZero(0);
    }
  }

  lemma SelectXor(a: nat, b: nat, g: nat)
    requires a < 2 && b < 2
    ensures Select((a + b) % 2, g) == Xor(Select(a, g), Select(b, g))
  {
    XorZero(g);
    XorSelf(g);
    XorZero(0);
  }

  /** Rearranging four terms of a sum in GF(2). */
  lemma XorSwap(a: nat, b: nat, c: nat, d: nat)
    ensures Xor(Xor(a, b), Xor(c, d)) == Xor(Xor(a, c), Xor(b, d))
  {
    calc {
      Xor(Xor(a, b), Xor(c, d));
      { XorAssoc(a, b, Xor(c, d)); }
      Xor(a, Xor(b, Xor(c, d)));
      { XorAssoc(b, c, d); XorComm(b, c); XorAssoc(c, b, d); }
      Xor(a, Xor(c, Xor(b, d)));
      { XorAssoc(a, c, Xor(b, d)); }
      Xor(Xor(a, c), Xor(b, d));
    }
  }

  /** Multiplication distributes over addition. */
  lemma {:induction false} CMulXor(a: nat, b: nat, g: nat)
    ensures CMul(Xor(a, b), g) == Xor(CMul(a, g), CMul(b, g))
    decreases a + b
  {
    if a == 0 && b == 0 {
      XorZero(0);
    } else {
      CMulXor(a / 2, b / 2, g);
      CMulXorStep(a, b, g, a / 2, b / 2, a % 2, b % 2);
    }
  }

  /** The step of CMulXor: distributivity on the halves gives it on the whole. */
  lemma CMulXorStep(a: nat, b: nat, g: nat, ha: nat, hb: nat, da: nat, db: nat)
    requires da < 2 && db < 2 && a == 2 * ha + da && b == 2 * hb + db
    requires CMul(Xor(ha, hb), g) == Xor(CMul(ha, g), CMul(hb, g))
    ensures CMul(Xor(a, b), g) == Xor(CMul(a, g), CMul(b, g))
  {
    var hx, dx := Xor(ha, hb), (da + db) % 2;
    XorJoinDigits(a, b, ha, hb, da, db);
    CMulJoin(Xor(a, b), hx, dx, g);
    CMulJoin(a, ha, da, g);
    CMulJoin(b, hb, db, g);
    XorDouble(CMul(ha, g), CMul(hb, g));
    SelectXor(da, db, g);
    RegroupSums(CMul(Xor(a, b), g), CMul(a, g), CMul(b, g),
      2 * CMul(ha, g), 2 * CMul(hb, g), Select(da, g), Select(db, g), 2 * CMul(hx, g), Select(dx, g));
  }

  /** CMulUnfold for a number given as its halves and its last digit. */
  lemma CMulJoin(q: nat, h: nat, d: nat, g: nat)
    requires d < 2 && q == 2 * h + d
    ensures CMul(q, g) == Xor(2 * CMul(h, g), Select(d, g))
  {
    CMulUnfold(q, g);
    assert q / 2 == h && q % 2 == d;
  }

  /** If x = px + sx, a = pa + sa, b = pb + sb, px = pa + pb and sx = sa + sb, then x = a + b. */
  lemma RegroupSums(x: nat, a: nat, b: nat, pa: nat, pb: nat, sa: nat, sb: nat, px: nat, sx: nat)
    requires x == Xor(px, sx) && a == Xor(pa, sa) && b == Xor(pb, sb)
    requires px == Xor(pa, pb) && sx == Xor(sa, sb)
    ensures x == Xor(a, b)
  {
    XorSwap(pa, pb, sa, sb);
  }

  lemma CMulDouble(q: nat, g: nat)
    ensures CMul(2 * q, g) == 2 * CMul(q, g)
  {
    CMulUnfold(2 * q, g);
    XorZero(2 * CMul(q, g));
  }

  lemma CMulOne(g: nat)
    ensures CMul(1, g) == g
  {
    XorZero(g);
  }

  /** Multiplying by x^k shifts left by k digits. */
  lemma {:induction false} CMulPow2(k: nat, g: nat)
    ensures CMul(Pow2(k), g) == g * Pow2(k)
  {
    if k == 0 {
      CMulOne(g);
    } else {
      var p := Pow2(k - 1);
      assert CMul(p, g) == g * p by {
        CMulPow2(k - 1, g);
      }
      assert Pow2(k) == 2 * p;
      CMulDouble(p, g);
      MulTwice(g, p);
    }
  }

  /** If the top digit of a lies at position m or above and b lies below it, the sum keeps it. */
  lemma {:induction false} XorKeepsHigh(a: nat, b: nat, m: nat)
    requires a >= Pow2(m) && b < Pow2(m)
    ensures Xor(a, b) >= Pow2(m)
  {
    if m == 0 {
      XorZero(a);
    } else {
      XorKeepsHigh(a / 2, b / 2, m - 1);
      XorUnfold(a, b);
    }
  }

  /** A nonzero multiple of g has at least the degree of g. */
  lemma {:induction false} CMulAtLeast(q: nat, g: nat, d: nat)
    requires q >= 1 && Pow2(d) <= g < Pow2(d + 1)
    ensures CMul(q, g) >= Pow2(d)
  {
    if q == 1 {
      CMulOne(g);
    } else {
      CMulAtLeast(q / 2, g, d);
      CMulUnfold(q, g);
      var s := Select(q % 2, g);
      XorKeepsHigh(2 * CMul(q / 2, g), s, d + 1);
    }
  }

  lemma MultipleXor(a: nat, b: nat, g: nat)
    requires IsMultiple(a, g) && IsMultiple(b, g)
    ensures IsMultiple(Xor(a, b), g)
  {
    var p: nat :| CMul(p, g) == a;
    var q: nat :| CMul(q, g) == b;
    CMulXor(p, q, g);
  }

  /** g * x^k is a multiple of g. */
  lemma MultipleShifted(g: nat, k: nat)
    ensures IsMultiple(g * Pow2(k), g)
  {
    CMulPow2(k, g);
  }

  /** The remainder of a division is unique. */
  lemma RemainderUnique(r1: nat, r2: nat, a: nat, g: nat)
    requires IsRemainder(r1, a, g) && IsRemainder(r2, a, g)
    ensures r1 == r2
  {
    var d := BitLength(g) - 1;
    BitLengthBound(g, d + 1);
    BitLengthBound(g, d);
    BitLengthBound(r1, d);
    BitLengthBound(r2, d);
    var q1: nat :| CMul(q1, g) == Xor(a, r1);
    var q2: nat :| CMul(q2, g) == Xor(a, r2);
    CMulXor(q1, q2, g);
    XorSwap(a, r1, a, r2);
    XorSelf(a);
    XorZero(Xor(r1, r2));
    assert CMul(Xor(q1, q2), g) == Xor(r1, r2);
    XorBelow(r1, r2, d);
    if Xor(q1, q2) >= 1 {
      CMulAtLeast(Xor(q1, q2), g, d);
    }
    XorEqZero(r1, r2);
  }
}
