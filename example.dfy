/**
 * The input of main() (qr.py:27), "ABCDE123", through the framer: the nine
 * data codewords are 32, 65, 205, 69, 41, 220, 46, 128, 236, as the comment
 * at qr.py:170 records. The proof goes through the values of the bit
 * strings: both the framed stream and the bits of those nine bytes have 72
 * digits and the same value.
 */
module Example {
  import opened Bits
  import opened Alphanumeric
  import opened Framing
  import opened Bch

  const INPUT: string := "ABCDE123"
  const CODEWORDS: seq<nat> := [32, 65, 205, 69, 41, 220, 46, 128, 236]

  // ---------------------------------------------------------------------
  // Powers of two

  lemma {:induction false} Pow2Add(a: nat, b: nat)
    ensures Pow2(a + b) == Pow2(a) * Pow2(b)
  {
    if a > 0 {
      Pow2Add(a - 1, b);
      assert Pow2(a + b) == 2 * Pow2(a - 1 + b);
      assert Pow2(a) == 2 * Pow2(a - 1);
    }
  }

  lemma Pow2Values()
    ensures Pow2(3) == 8 && Pow2(4) == 16 && Pow2(8) == 256 && Pow2(11) == 2048
    ensures Pow2(44) == 17592186044416
  {
    Pow2Facts();
    assert Pow2(3) == 8;
    Pow2Add(8, 3);
    Pow2Add(11, 11);
    Pow2Add(22, 22);
  }

  /** One byte place further left is worth 256 times as much. */
  lemma NextBytePlace(k: nat, v: nat)
    requires Pow2(k) == v
    ensures Pow2(k + 8) == 256 * v
  {
    Pow2Add(k, 8);
    Pow2Facts();
  }

  /** Pow2(8 k) for the nine codeword places. */
  lemma BytePlaces()
    ensures Pow2(8) == 256 && Pow2(16) == 65536 && Pow2(24) == 16777216
    ensures Pow2(32) == 4294967296 && Pow2(40) == 1099511627776
    ensures Pow2(48) == 281474976710656 && Pow2(56) == 72057594037927936
    ensures Pow2(64) == 18446744073709551616
  {
    Pow2Facts();
    NextBytePlace(8, 256);
    NextBytePlace(16, 65536);
    NextBytePlace(24, 16777216);
    NextBytePlace(32, 4294967296);
    NextBytePlace(40, 1099511627776);
    NextBytePlace(48, 281474976710656);
    NextBytePlace(56, 72057594037927936);
  }

  // ---------------------------------------------------------------------
  // The framed stream, for any string spelled A B C D E 1 2 3

  /** The characters of "ABCDE123", one by one. */
  predicate Spelled(s: string)
  {
    |s| == 8 && s[0] == 'A' && s[1] == 'B' && s[2] == 'C' && s[3] == 'D'
    && s[4] == 'E' && s[5] == '1' && s[6] == '2' && s[7] == '3'
  }

  lemma SpelledFits(s: string)
    requires Spelled(s)
    ensures Fits(s)
  {
    forall i | 0 <= i < |s|
      ensures Table(s[i]).Some?
    {
    }
  }

  /** EncodeData from position i on starts with the pair at i. */
  lemma DataFrom(s: string, i: nat)
    requires IsEncodable(s) && i + 2 < |s|
    ensures EncodeData(s[i..]) == ConvertCharToBin(s[i..i + 2]) + EncodeData(s[i + 2..])
  {
    var t := s[i..];
    assert IsEncodable(t) by {
      forall j | 0 <= j < |t|
        ensures Table(t[j]).Some?
      {
        assert t[j] == s[i + j];
      }
    }
    EncodeDataStep(t);
    assert t[..2] == s[i..i + 2] && t[2..] == s[i + 2..];
  }

  /** An encodable string of eight characters is cut into four pairs. */
  lemma DataOfEight(s: string)
    requires IsEncodable(s) && |s| == 8
    ensures EncodeData(s)
      == ConvertCharToBin(s[..2]) + (ConvertCharToBin(s[2..4]) + (ConvertCharToBin(s[4..6]) + ConvertCharToBin(s[6..])))
  {
    EncodeDataStep(s);
    DataFrom(s, 2);
    DataFrom(s, 4);
    var e := s[6..];
    assert IsEncodable(e) by {
      forall j | 0 <= j < |e|
        ensures Table(e[j]).Some?
      {
        assert e[j] == s[6 + j];
      }
    }
    EncodeDataShort(e);
  }

  /** EncodeData cuts the string into the pairs AB, CD, E1 and 23. */
  lemma SpelledData(s: string)
    requires Spelled(s)
    ensures Fits(s)
    ensures EncodeData(s)
      == ConvertCharToBin(s[..2]) + (ConvertCharToBin(s[2..4]) + (ConvertCharToBin(s[4..6]) + ConvertCharToBin(s[6..])))
  {
    SpelledFits(s);
    DataOfEight(s);
  }

  /** A pair xy converts to 45 x + y in eleven bits. */
  lemma PairValue(p: string, x: nat, y: nat)
    requires |p| == 2 && Table(p[0]) == Some(x) && Table(p[1]) == Some(y)
    ensures IsEncodable(p)
    ensures |ConvertCharToBin(p)| == 11 && Parse(ConvertCharToBin(p)) == 45 * x + y
  {
    assert IsEncodable(p) by {
      forall i | 0 <= i < |p|
        ensures Table(p[i]).Some?
      {
        assert i == 0 || i == 1;
      }
    }
    var r := ConvertCharToBin(p);
    assert Parse(r) == Table(p[0]).value * 45 + Table(p[1]).value;
  }

  /** The four converted pairs: 461, 553, 631 and 93 in 11 bits each. */
  lemma SpelledPairs(s: string)
    requires Spelled(s)
    ensures Fits(s)
    ensures IsEncodable(s[..2]) && IsEncodable(s[2..4]) && IsEncodable(s[4..6]) && IsEncodable(s[6..])
    ensures |ConvertCharToBin(s[..2])| == 11 && Parse(ConvertCharToBin(s[..2])) == 461
    ensures |ConvertCharToBin(s[2..4])| == 11 && Parse(ConvertCharToBin(s[2..4])) == 553
    ensures |ConvertCharToBin(s[4..6])| == 11 && Parse(ConvertCharToBin(s[4..6])) == 631
    ensures |ConvertCharToBin(s[6..])| == 11 && Parse(ConvertCharToBin(s[6..])) == 93
  {
    SpelledFits(s);
    PairValue(s[..2], 10, 11);
    PairValue(s[2..4], 12, 13);
    PairValue(s[4..6], 14, 1);
    PairValue(s[6..], 2, 3);
  }

  /** Four 11-bit fields side by side read as one number in base 2048. */
  lemma JoinFields(a: string, b: string, c: string, e: string)
    requires IsBits(a) && IsBits(b) && IsBits(c) && IsBits(e)
    requires |a| == 11 && |b| == 11 && |c| == 11 && |e| == 11
    ensures |a + (b + (c + e))| == 44
    ensures Parse(a + (b + (c + e))) == Parse(a) * 8589934592 + Parse(b) * 4194304 + Parse(c) * 2048 + Parse(e)
  {
    Pow2Values();
    Pow2Add(11, 11);
    Pow2Add(22, 11);
    ParseAppend(c, e);
    ParseAppend(b, c + e);
    ParseAppend(a, b + (c + e));
  }

  lemma SpelledDataValue(s: string)
    requires Spelled(s)
    ensures Fits(s)
    ensures |EncodeData(s)| == 44 && Parse(EncodeData(s)) == 3962280589405
  {
    SpelledPairs(s);
    var a, b, c, e := ConvertCharToBin(s[..2]), ConvertCharToBin(s[2..4]), ConvertCharToBin(s[4..6]), ConvertCharToBin(s[6..]);
    SpelledData(s);
    JoinFields(a, b, c, e);
  }

  lemma SpelledSegment(s: string)
    requires Spelled(s)
    ensures Fits(s)
    ensures |Segment(s)| == 61 && Parse(Segment(s)) == 290545572454827472
  {
    SpelledFits(s);
    var count, data := Nbin(8, 9), EncodeData(s);
    assert Segment(s) == MODE + count + data + TERMINATOR;
    SpelledDataValue(s);
    Pow2Values();
    Pow2Facts();
    CountField(8);
    assert Parse(MODE) == 2 by {
      DigitsFour(MODE);
    }
    assert TERMINATOR == Zeros(4);
    ParseZeros(4);
    assert IsBits(MODE) && IsBits(TERMINATOR);
    ParseAppend(MODE, count);
    ParseAppend(MODE + count, data);
    ParseAppend(MODE + count + data, TERMINATOR);
  }

  lemma PadFirstValue()
    ensures Parse(PAD_FIRST) == 236
  {
    assert PAD_FIRST == PAD_FIRST[..4] + PAD_FIRST[4..];
    DigitsFour(PAD_FIRST[..4]);
    DigitsFour(PAD_FIRST[4..]);
    Pow2Values();
    ParseAppend(PAD_FIRST[..4], PAD_FIRST[4..]);
  }

  lemma SpelledFramed(s: string)
    requires Spelled(s)
    ensures Fits(s)
    ensures |Framed(s)| == 72 && Parse(Framed(s)) == 595037332387486662892
  {
    SpelledSegment(s);
    var g := Segment(s);
    assert BitPadded(s) == g + Zeros(3);
    assert PadCount(BitPadded(s)) == 1;
    assert PadCodewords(1) == PAD_FIRST;
    PadFirstValue();
    ParseZeros(3);
    Pow2Values();
    ParseAppend(g, Zeros(3));
    ParseAppend(g + Zeros(3), PAD_FIRST);
  }

  // ---------------------------------------------------------------------
  // The nine bytes

  /** The value of bytes read as one big-endian number. */
  function ByteNumber(d: seq<nat>): nat
  {
    if d == [] then 0 else d[0] * Pow2(8 * (|d| - 1)) + ByteNumber(d[1..])
  }

  /** Printing bytes with nbin(x, 8) and reading the stream back with int(., 2) gives ByteNumber. */
  lemma {:induction false} ParseJoinBytes(d: seq<nat>)
    requires IsBytes(d)
    ensures Parse(JoinBytes(d)) == ByteNumber(d)
  {
    if d != [] {
      ByteField(d[0]);
      ParseJoinBytes(d[1..]);
      ParseAppend(Nbin(d[0], 8), JoinBytes(d[1..]));
    }
  }

  lemma CodewordsValue()
    ensures ByteNumber(CODEWORDS) == 595037332387486662892
  {
    BytePlaces();
  }

  /** Spelled is a description of INPUT and of nothing else. */
  lemma SpelledInput(s: string)
    ensures Spelled(s) <==> s == INPUT
  {
    if Spelled(s) {
      assert s == INPUT;
    }
  }

  /** The bytes of the framed "ABCDE123" are the nine codewords the source records. */
  lemma SpelledCodewords(s: string)
    requires Spelled(s)
    ensures Fits(s) && Bytes(Framed(s)) == CODEWORDS
  {
    assert IsBytes(CODEWORDS);
    SpelledFramed(s);
    CodewordsValue();
    ParseJoinBytes(CODEWORDS);
    ParseInjective(Framed(s), JoinBytes(CODEWORDS));
    BytesOfJoinBytes(CODEWORDS);
  }
}
