/**
 * The data codewords of qr_encode (qr.py:127-169): mode indicator, character
 * count, data bits and terminator; zero bits up to a whole number of bytes;
 * then the pad codewords 11101100 and 00010001 in turn up to the nine data
 * codewords of a version 1-H symbol; finally the split into bytes.
 */
module Framing {
  import opened Bits
  import opened Alphanumeric

  /** Mode indicator of alphanumeric mode. */
  const MODE: string := "0010"
  const TERMINATOR: string := "0000"
  /** The two pad codewords, appended together by the loop of qr.py:161-163. */
  const PAD_PAIR: string := "1110110000010001"
  const PAD_FIRST: string := "11101100"
  const PAD_SECOND: string := "00010001"
  /** Data codewords of version 1 at error-correction level H. */
  const DATA_CODEWORDS: nat := 9

  /** The input the framer accepts: at most ten characters, all in the table. */
  predicate Fits(input: string)
  {
    IsEncodable(input) && |input| <= 10
  }

  /**
   * mode + nbin(len, 9) + data + '0000' (qr.py:136, 146, 150): 17 + 11 (n div 2)
   * + 6 (n mod 2) bits, at most 72.
   */
  function Segment(input: string): (bits: string)
    requires Fits(input)
    ensures IsBits(bits)
    ensures |bits| == 17 + 11 * (|input| / 2) + 6 * (|input| % 2) <= 72
  {
    var count := Nbin(|input|, 9);
    var data := EncodeData(input);
    CountField(|input|);
    EncodeDataLength(input);
    assert IsBits(MODE) && IsBits(TERMINATOR);
    BitsAppend(MODE, count);
    BitsAppend(MODE + count, data);
    BitsAppend(MODE + count + data, TERMINATOR);
    MODE + count + data + TERMINATOR
  }

  lemma Pow2Facts()
    ensures Pow2(8) == 256 && Pow2(9) == 512
  {
    assert Pow2(2) == 4;
    assert Pow2(4) == 16;
    assert Pow2(6) == 64;
  }

  /** The character count of at most ten characters fills exactly nine bits. */
  lemma CountField(n: nat)
    requires n <= 10
    ensures |Nbin(n, 9)| == 9
  {
    Pow2Facts();
    BitLengthBound(n, 9);
  }

  /**
   * Zero bits up to a multiple of 8 (qr.py:154-155): the segment stays in
   * front, fewer than eight zeros follow, and the length stays within 72.
   */
  function BitPadded(input: string): (bits: string)
    requires Fits(input)
    ensures IsBits(bits)
    ensures |bits| % 8 == 0 && |bits| <= 72
    ensures |Segment(input)| <= |bits| < |Segment(input)| + 8
    ensures bits[..|Segment(input)|] == Segment(input)
  {
    var s := Segment(input);
    ZeroFill(s);
    s + Zeros((8 - |s| % 8) % 8)
  }

  lemma RoundUp(n: nat)
    ensures (n + (8 - n % 8) % 8) % 8 == 0
    ensures n <= n + (8 - n % 8) % 8 < n + 8
    ensures n <= 72 ==> n + (8 - n % 8) % 8 <= 72
  {
  }

  lemma PrefixOfAppend(s: string, t: string)
    ensures (s + t)[..|s|] == s
  {
  }

  lemma ZeroFill(s: string)
    requires IsBits(s) && |s| <= 72
    ensures IsBits(s + Zeros((8 - |s| % 8) % 8))
    ensures |s + Zeros((8 - |s| % 8) % 8)| % 8 == 0 && |s + Zeros((8 - |s| % 8) % 8)| <= 72
    ensures |s| <= |s + Zeros((8 - |s| % 8) % 8)| < |s| + 8
    ensures (s + Zeros((8 - |s| % 8) % 8))[..|s|] == s
  {
    var z := Zeros((8 - |s| % 8) % 8);
    assert IsBits(z);
    BitsAppend(s, z);
    RoundUp(|s|);
    PrefixOfAppend(s, z);
  }

  /** The number of pad codewords: nine less the bytes already filled (qr.py:159-160). */
  function PadCount(bits: string): (n: nat)
    requires |bits| % 8 == 0 && |bits| <= 8 * DATA_CODEWORDS
    ensures 8 * n + |bits| == 8 * DATA_CODEWORDS
  {
    DATA_CODEWORDS - |bits| / 8
  }

  /** What the pad loop and the test after it append for n missing codewords. */
  function PadCodewords(n: nat): (pads: string)
    ensures IsBits(pads) && |pads| == 8 * n
  {
    PadPairSplit();
    if n >= 2 then PAD_PAIR + PadCodewords(n - 2)
    else if n == 1 then PAD_FIRST
    else ""
  }

  /** The k-th pad codeword: 11101100 at even positions, 00010001 at odd ones. */
  function PadWord(k: nat): string
  {
    if k % 2 == 0 then PAD_FIRST else PAD_SECOND
  }

  lemma PadPairSplit()
    ensures PAD_PAIR == PAD_FIRST + PAD_SECOND
    ensures IsBits(PAD_FIRST) && IsBits(PAD_SECOND) && IsBits(PAD_PAIR)
  {
  }

  lemma SliceOfAppend(s: string, t: string, i: nat, j: nat)
    requires |s| <= i <= j <= |s| + |t|
    ensures (s + t)[i .. j] == t[i - |s| .. j - |s|]
  {
  }

  /** The k-th of n pad codewords is 11101100 for even k and 00010001 for odd k. */
  lemma {:induction false} PadCodewordsWord(n: nat, k: nat)
    requires k < n
    ensures |PadCodewords(n)| == 8 * n
    ensures PadCodewords(n)[8 * k .. 8 * k + 8] == PadWord(k)
  {
    if k >= 2 {
      assert PadCodewords(n) == PAD_PAIR + PadCodewords(n - 2);
      PadCodewordsWord(n - 2, k - 2);
      PadWordLater(n, k, PadCodewords(n - 2));
    } else if n >= 2 {
      assert PadCodewords(n) == PAD_PAIR + PadCodewords(n - 2);
      PadWordFirst(PadCodewords(n - 2), k);
    } else {
      assert PadCodewords(n) == PAD_FIRST && k == 0;
      assert PAD_FIRST[0 .. 8] == PAD_FIRST;
    }
  }

  lemma PadWordLater(n: nat, k: nat, rest: string)
    requires 2 <= k < n && |rest| == 8 * (n - 2)
    requires rest[8 * (k - 2) .. 8 * (k - 2) + 8] == PadWord(k - 2)
    ensures (PAD_PAIR + rest)[8 * k .. 8 * k + 8] == PadWord(k)
  {
    SliceOfAppend(PAD_PAIR, rest, 8 * k, 8 * k + 8);
    assert 8 * k - 16 == 8 * (k - 2);
  }

  lemma PadWordFirst(rest: string, k: nat)
    requires k < 2
    ensures (PAD_PAIR + rest)[8 * k .. 8 * k + 8] == PadWord(k)
  {
    if k == 0 {
      assert (PAD_PAIR + rest)[0 .. 8] == PAD_PAIR[0 .. 8];
    } else {
      assert (PAD_PAIR + rest)[8 .. 16] == PAD_PAIR[8 .. 16];
    }
  }

  /** The nine data codewords as a bit stream: padded segment, then pad codewords. */
  function Framed(input: string): (data: string)
    requires Fits(input)
    ensures IsBits(data) && |data| == 8 * DATA_CODEWORDS
  {
    BitPadded(input) + PadCodewords(PadCount(BitPadded(input)))
  }

  lemma AppendPair(data: string, w: nat, target: string)
    requires w >= 2 && data + PadCodewords(w) == target
    ensures (data + PAD_PAIR) + PadCodewords(w - 2) == target
  {
  }

  /**
   * The bit stream of the nine data codewords (qr.py:150-166), built step by
   * step as the source does.
   */
  method FrameBits(input: string) returns (data: string)
    requires Fits(input)
    ensures data == Framed(input)
    ensures IsBits(data) && |data| == 8 * DATA_CODEWORDS
  {
    data := BitPadded(input);
    data := PadToCapacity(data);
  }

  /**
   * The pad loop of qr.py:158-166: on a stream of whole bytes, at most nine of
   * them, appends 1110110000010001 while two or more codewords are missing,
   * then 11101100 if one still is.
   */
  method PadToCapacity(padded: string) returns (data: string)
    requires |padded| % 8 == 0 && |padded| <= 8 * DATA_CODEWORDS
    ensures data == padded + PadCodewords(PadCount(padded))
  {
    data := padded;
    var wordPaddingLen := DATA_CODEWORDS - |data| / 8;
    ghost var target := data + PadCodewords(wordPaddingLen);
    while wordPaddingLen >= 2
      invariant 0 <= wordPaddingLen
      invariant data + PadCodewords(wordPaddingLen) == target
      decreases wordPaddingLen
    {
      AppendPair(data, wordPaddingLen, target);
      data := data + PAD_PAIR;
      wordPaddingLen := wordPaddingLen - 2;
    }
    LastPad(data, wordPaddingLen);
    if wordPaddingLen == 1 {
      data := data + PAD_FIRST;
    }
  }

  /** The test after the loop: at most one codeword is still missing. */
  lemma LastPad(data: string, w: nat)
    requires w < 2
    ensures data + PadCodewords(w) == if w == 1 then data + PAD_FIRST else data
  {
  }

  /** From codeword m on, data holds the pad codewords, alternating from 11101100. */
  predicate PadsFrom(data: string, m: nat)
  {
    forall k :: m <= k < |data| / 8 ==> data[8 * k .. 8 * k + 8] == PadWord(k - m)
  }

  /** Between positions i and j, data holds zero bits. */
  predicate ZerosBetween(data: string, i: nat, j: nat)
  {
    forall p :: i <= p < j && p < |data| ==> data[p] == '0'
  }

  /**
   * The stream as a whole: 72 bits, the segment first, then zero bits to the
   * byte boundary, then the pad codewords alternating from 11101100.
   */
  lemma FramedLayout(input: string)
    requires Fits(input)
    ensures |Framed(input)| == 8 * DATA_CODEWORDS
    ensures Framed(input)[..|Segment(input)|] == Segment(input)
    ensures ZerosBetween(Framed(input), |Segment(input)|, |BitPadded(input)|)
    ensures PadsFrom(Framed(input), |BitPadded(input)| / 8)
  {
    FramedPrefix(input);
    FramedZeros(input);
    FramedPads(input);
  }

  lemma FramedPrefix(input: string)
    requires Fits(input)
    ensures Framed(input)[..|Segment(input)|] == Segment(input)
  {
    PrefixOfAppend(BitPadded(input), PadCodewords(PadCount(BitPadded(input))));
  }

  lemma FramedZeros(input: string)
    requires Fits(input)
    ensures ZerosBetween(Framed(input), |Segment(input)|, |BitPadded(input)|)
  {
    var s := Segment(input);
    ZerosAfter(s, (8 - |s| % 8) % 8, PadCodewords(PadCount(BitPadded(input))));
  }

  lemma ZerosAfter(s: string, m: nat, tail: string)
    ensures ZerosBetween(s + Zeros(m) + tail, |s|, |s| + m)
  {
  }

  lemma FramedPads(input: string)
    requires Fits(input)
    ensures PadsFrom(Framed(input), |BitPadded(input)| / 8)
  {
    var m := |BitPadded(input)| / 8;
    assert |BitPadded(input)| == 8 * m;
    PadsAfter(BitPadded(input), m, PadCount(BitPadded(input)));
  }

  lemma PadsAfter(b: string, m: nat, n: nat)
    requires |b| == 8 * m
    ensures PadsFrom(b + PadCodewords(n), m)
  {
    forall k | m <= k < |b + PadCodewords(n)| / 8
      ensures (b + PadCodewords(n))[8 * k .. 8 * k + 8] == PadWord(k - m)
    {
      PadAt(b, m, n, k);
    }
  }

  lemma PadAt(b: string, m: nat, n: nat, k: nat)
    requires |b| == 8 * m && m <= k < m + n
    ensures (b + PadCodewords(n))[8 * k .. 8 * k + 8] == PadWord(k - m)
  {
    var t := PadCodewords(n);
    var j := k - m;
    assert t[8 * j .. 8 * j + 8] == PadWord(j) by {
      PadCodewordsWord(n, j);
    }
    assert (b + t)[8 * k .. 8 * k + 8] == t[8 * j .. 8 * j + 8] by {
      assert 8 * k == |b| + 8 * j;
      SliceOfAppend(b, t, 8 * k, 8 * k + 8);
    }
  }

  // ---------------------------------------------------------------------
  // Bytes

  predicate IsBytes(d: seq<nat>)
  {
    forall i :: 0 <= i < |d| ==> d[i] < 256
  }

  /** int(x, 2) of eight binary digits. */
  function ByteValue(x: string): (v: nat)
    requires IsBits(x) && |x| == 8
    ensures v == Parse(x) && v < 256
  {
    ParseBound(x);
    Pow2Facts();
    Parse(x)
  }

  /** [int(x, 2) for x in re.split('(.{8})', data) if x]: consecutive bytes. */
  function Bytes(data: string): (d: seq<nat>)
    requires IsBits(data) && |data| % 8 == 0
    ensures |d| == |data| / 8 && IsBytes(d)
  {
    seq(|data| / 8, i requires 0 <= i < |data| / 8 => ByteValue(data[8 * i .. 8 * i + 8]))
  }

  /** ''.join([nbin(x, 8) for x in d]) (qr.py:179). */
  function JoinBytes(d: seq<nat>): (bits: string)
    requires IsBytes(d)
    ensures IsBits(bits) && |bits| == 8 * |d|
  {
    if d == [] then [] else
      ByteField(d[0]);
      Nbin(d[0], 8) + JoinBytes(d[1..])
  }

  lemma {:induction false} JoinBytesSlice(d: seq<nat>, i: nat)
    requires IsBytes(d) && i < |d|
    ensures JoinBytes(d)[8 * i .. 8 * i + 8] == Nbin(d[i], 8)
  {
    var head := Nbin(d[0], 8);
    var rest := JoinBytes(d[1..]);
    ByteField(d[0]);
    if i > 0 {
      assert rest[8 * (i - 1) .. 8 * (i - 1) + 8] == Nbin(d[i], 8) by {
        JoinBytesSlice(d[1..], i - 1);
      }
      assert 8 * i == |head| + 8 * (i - 1);
      SliceOfAppend(head, rest, 8 * i, 8 * i + 8);
    }
  }

  /** The bits of two byte sequences one after the other. */
  lemma {:induction false} JoinBytesAppend(a: seq<nat>, b: seq<nat>)
    requires IsBytes(a) && IsBytes(b)
    ensures IsBytes(a + b) && JoinBytes(a + b) == JoinBytes(a) + JoinBytes(b)
  {
    if a != [] {
      assert (a + b)[1..] == a[1..] + b;
      JoinBytesAppend(a[1..], b);
    } else {
      assert a + b == b;
    }
  }

  /** A byte value fills exactly eight bits. */
  lemma ByteField(v: nat)
    requires v < 256
    ensures |Nbin(v, 8)| == 8
  {
    Pow2Facts();
    BitLengthBound(v, 8);
  }

  lemma ByteOfPosition(p: nat, len: nat)
    requires len % 8 == 0 && p < len
    ensures 8 * (p / 8) <= p < 8 * (p / 8) + 8 <= len
  {
  }

  /** Splitting into bytes and printing them back with nbin(x, 8) gives the stream back. */
  lemma JoinBytesOfBytes(data: string)
    requires IsBits(data) && |data| % 8 == 0
    ensures JoinBytes(Bytes(data)) == data
  {
    forall p | 0 <= p < |data|
      ensures JoinBytes(Bytes(data))[p] == data[p]
    {
      JoinBytesAt(data, p);
    }
  }

  lemma JoinBytesAt(data: string, p: nat)
    requires IsBits(data) && |data| % 8 == 0 && p < |data|
    ensures |JoinBytes(Bytes(data))| == |data|
    ensures JoinBytes(Bytes(data))[p] == data[p]
  {
    var d := Bytes(data);
    var j := JoinBytes(d);
    var i := p / 8;
    ByteOfPosition(p, |data|);
    var w := data[8 * i .. 8 * i + 8];
    assert j[8 * i .. 8 * i + 8] == w by {
      JoinBytesSlice(d, i);
      NbinOfParse(w);
    }
    assert j[p] == j[8 * i .. 8 * i + 8][p - 8 * i];
  }

  /** Reading back the bits of bytes gives the bytes. */
  lemma BytesOfJoinBytes(d: seq<nat>)
    requires IsBytes(d)
    ensures Bytes(JoinBytes(d)) == d
  {
    var j := JoinBytes(d);
    assert |Bytes(j)| == |d|;
    forall i | 0 <= i < |d|
      ensures Bytes(j)[i] == d[i]
    {
      JoinBytesSlice(d, i);
      assert Bytes(j)[i] == Parse(j[8 * i .. 8 * i + 8]);
    }
  }
}
