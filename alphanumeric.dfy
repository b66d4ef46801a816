/**
 * The alphanumeric mode encoder (qr.py:73-89, 139-146): the 45-character
 * table, the conversion of one or two characters into 6 or 11 bits, and the
 * chunking of the input into pairs with a possible single character last.
 */
module Alphanumeric {
  import opened Bits

  /** The conversion table of convert_char_to_bin; None where the dict raises KeyError. */
  function Table(c: char): (v: Option<nat>)
    ensures v.Some? ==> v.value < 45
  {
    match c
      case '0' => Some(0)
      case '1' => Some(1)
      case '2' => Some(2)
      case '3' => Some(3)
      case '4' => Some(4)
      case '5' => Some(5)
      case '6' => Some(6)
      case '7' => Some(7)
      case '8' => Some(8)
      case '9' => Some(9)
      case 'A' => Some(10)
      case 'B' => Some(11)
      case 'C' => Some(12)
      case 'D' => Some(13)
      case 'E' => Some(14)
      case 'F' => Some(15)
      case 'G' => Some(16)
      case 'H' => Some(17)
      case 'I' => Some(18)
      case 'J' => Some(19)
      case 'K' => Some(20)
      case 'L' => Some(21)
      case 'M' => Some(22)
      case 'N' => Some(23)
      case 'O' => Some(24)
      case 'P' => Some(25)
      case 'Q' => Some(26)
      case 'R' => Some(27)
      case 'S' => Some(28)
      case 'T' => Some(29)
      case 'U' => Some(30)
      case 'V' => Some(31)
      case 'W' => Some(32)
      case 'X' => Some(33)
      case 'Y' => Some(34)
      case 'Z' => Some(35)
      case ' ' => Some(36)
      case '$' => Some(37)
      case '%' => Some(38)
      case '*' => Some(39)
      case '+' => Some(40)
      case '-' => Some(41)
      case '.' => Some(42)
      case '/' => Some(43)
      case ':' => Some(44)
      case _ => None
  }

  /** Characters the table accepts. */
  predicate IsEncodable(s: string)
  {
    forall i :: 0 <= i < |s| ==> Table(s[i]).Some?
  }

  /** The reverse of the table: the character with table value v. */
  function Symbol(v: nat): char
    requires v < 45
  {
    match v
      case 0 => '0'
      case 1 => '1'
      case 2 => '2'
      case 3 => '3'
      case 4 => '4'
      case 5 => '5'
      case 6 => '6'
      case 7 => '7'
      case 8 => '8'
      case 9 => '9'
      case 10 => 'A'
      case 11 => 'B'
      case 12 => 'C'
      case 13 => 'D'
      case 14 => 'E'
      case 15 => 'F'
      case 16 => 'G'
      case 17 => 'H'
      case 18 => 'I'
      case 19 => 'J'
      case 20 => 'K'
      case 21 => 'L'
      case 22 => 'M'
      case 23 => 'N'
      case 24 => 'O'
      case 25 => 'P'
      case 26 => 'Q'
      case 27 => 'R'
      case 28 => 'S'
      case 29 => 'T'
      case 30 => 'U'
      case 31 => 'V'
      case 32 => 'W'
      case 33 => 'X'
      case 34 => 'Y'
      case 35 => 'Z'
      case 36 => ' '
      case 37 => '$'
      case 38 => '%'
      case 39 => '*'
      case 40 => '+'
      case 41 => '-'
      case 42 => '.'
      case 43 => '/'
      case _ => ':'
  }

  lemma TableInverse(v: nat)
    requires v < 45
    ensures Table(Symbol(v)) == Some(v)
  {
  }

  /** Every table value is below 45 and the table is one-to-one. */
  lemma SymbolInverse(c: char)
    requires Table(c).Some?
    ensures Table(c).value < 45 && Symbol(Table(c).value) == c
  {
  }

  // ---------------------------------------------------------------------
  // convert_char_to_bin

  lemma PairBound(a: nat, b: nat)
    requires a < 45 && b < 45
    ensures a * 45 + b <= 2024
  {
  }

  /**
   * convert_char_to_bin(chars): a pair becomes 11 bits holding
   * table[c1] * 45 + table[c2] (at most 2024), a single character 6 bits holding
   * table[c] (at most 44). Any other length or a character outside the table
   * raises in the source.
   */
  function ConvertCharToBin(chars: string): (r: string)
    requires 1 <= |chars| <= 2 && IsEncodable(chars)
    ensures IsBits(r)
    ensures |chars| == 2 ==> |r| == 11 && Parse(r) == Table(chars[0]).value * 45 + Table(chars[1]).value <= 2024
    ensures |chars| == 1 ==> |r| == 6 && Parse(r) == Table(chars[0]).value <= 44
  {
    SymbolInverse(chars[0]);
    if |chars| == 2 then
      var num := Table(chars[0]).value * 45 + Table(chars[1]).value;
      SymbolInverse(chars[1]);
      PairBound(Table(chars[0]).value, Table(chars[1]).value);
      BitLengthBound(num, 11);
      Nbin(num, 11)
    else
      var num := Table(chars[0]).value;
      BitLengthBound(num, 6);
      Nbin(num, 6)
  }

  lemma PairDigits(a: nat, b: nat)
    requires b < 45
    ensures (a * 45 + b) / 45 == a && (a * 45 + b) % 45 == b
  {
  }

  // ---------------------------------------------------------------------
  // Chunking and the data bits

  function Min(a: int, b: int): int { if a <= b then a else b }

  /**
   * The non-empty pieces of re.split('(..)', s) (qr.py:141-142): consecutive
   * pairs of characters, then one single character when |s| is odd.
   */
  function Chunks(s: string): (cs: seq<string>)
    ensures |cs| == (|s| + 1) / 2
    ensures forall i :: 0 <= i < |cs| ==> cs[i] == s[2 * i .. Min(2 * i + 2, |s|)]
    decreases |s|
  {
    if |s| == 0 then []
    else if |s| <= 2 then [s]
    else [s[..2]] + Chunks(s[2..])
  }

  function Concat(cs: seq<string>): string
  {
    if cs == [] then [] else cs[0] + Concat(cs[1..])
  }

  /** Joining the chunks gives the input back: nothing is lost or reordered. */
  lemma {:induction false} ChunksConcat(s: string)
    ensures Concat(Chunks(s)) == s
    decreases |s|
  {
    if |s| > 2 {
      ChunksConcat(s[2..]);
      assert ([s[..2]] + Chunks(s[2..]))[1..] == Chunks(s[2..]);
      assert s[..2] + s[2..] == s;
    }
  }

  predicate ChunksEncodable(cs: seq<string>)
  {
    forall i :: 0 <= i < |cs| ==> 1 <= |cs[i]| <= 2 && IsEncodable(cs[i])
  }

  lemma ChunksOfEncodable(s: string)
    requires IsEncodable(s)
    ensures ChunksEncodable(Chunks(s))
  {
    var cs := Chunks(s);
    forall i | 0 <= i < |cs|
      ensures 1 <= |cs[i]| <= 2 && IsEncodable(cs[i])
    {
      assert cs[i] == s[2 * i .. Min(2 * i + 2, |s|)];
    }
  }

  /** ''.join(map(convert_char_to_bin, cs)) */
  function EncodeChunks(cs: seq<string>): (bits: string)
    requires ChunksEncodable(cs)
    ensures IsBits(bits)
  {
    if cs == [] then [] else ConvertCharToBin(cs[0]) + EncodeChunks(cs[1..])
  }

  /** The data bits of qr.py:146: the chunks of s converted and joined. */
  function EncodeData(s: string): (bits: string)
    requires IsEncodable(s)
    ensures IsBits(bits)
  {
    ChunksOfEncodable(s);
    EncodeChunks(Chunks(s))
  }

  /** The first pair is encoded first, then the rest of the string. */
  lemma EncodeDataStep(s: string)
    requires IsEncodable(s) && |s| >= 2
    ensures IsEncodable(s[..2]) && IsEncodable(s[2..])
    ensures EncodeData(s) == ConvertCharToBin(s[..2]) + EncodeData(s[2..])
  {
    ChunksOfEncodable(s);
    ChunksOfEncodable(s[2..]);
    if |s| == 2 {
      assert s[..2] == s;
      assert Chunks(s)[1..] == [];
      assert EncodeChunks(Chunks(s)) == ConvertCharToBin(s) + EncodeChunks([]);
    } else {
      assert ([s[..2]] + Chunks(s[2..]))[1..] == Chunks(s[2..]);
    }
  }

  /** A string of one or two characters is a single chunk. */
  lemma EncodeDataShort(s: string)
    requires IsEncodable(s) && 1 <= |s| <= 2
    ensures EncodeData(s) == ConvertCharToBin(s)
  {
    ChunksOfEncodable(s);
    assert Chunks(s) == [s];
    assert Chunks(s)[1..] == [];
    assert EncodeChunks(Chunks(s)) == ConvertCharToBin(s) + EncodeChunks([]);
  }

  /** 11 bits per pair and 6 for a final single character. */
  lemma {:induction false} EncodeDataLength(s: string)
    requires IsEncodable(s)
    ensures |EncodeData(s)| == 11 * (|s| / 2) + 6 * (|s| % 2)
    decreases |s|
  {
    ChunksOfEncodable(s);
    if |s| > 2 {
      EncodeDataStep(s);
      EncodeDataLength(s[2..]);
    } else if |s| > 0 {
      EncodeDataShort(s);
    }
  }

  /**
   * Reference decoder: reads n characters back from consecutive 11-bit
   * groups, the last one from a 6-bit group when n is odd.
   */
  function DecodeData(bits: string, n: nat): Option<string>
    requires IsBits(bits)
    decreases n
  {
    if n == 0 then
      if bits == [] then Some([]) else None
    else if n == 1 then
      if |bits| == 6 && Parse(bits) < 45 then Some([Symbol(Parse(bits))]) else None
    else if |bits| >= 11 && Parse(bits[..11]) < 2025 then
      var v := Parse(bits[..11]);
      match DecodeData(bits[11..], n - 2)
      case None => None
      case Some(rest) => Some([Symbol(v / 45), Symbol(v % 45)] + rest)
    else
      None
  }

  lemma DecodePair(s: string, rest: string)
    requires |s| == 2 && IsEncodable(s) && IsBits(rest)
    ensures var bits := ConvertCharToBin(s) + rest;
      IsBits(bits) && |bits| >= 11 && bits[..11] == ConvertCharToBin(s) && bits[11..] == rest &&
      Parse(bits[..11]) < 2025 &&
      Symbol(Parse(bits[..11]) / 45) == s[0] && Symbol(Parse(bits[..11]) % 45) == s[1]
  {
    var bits := ConvertCharToBin(s) + rest;
    assert bits[..11] == ConvertCharToBin(s);
    SymbolInverse(s[0]);
    SymbolInverse(s[1]);
    PairDigits(Table(s[0]).value, Table(s[1]).value);
  }

  lemma DecodeSingle(s: string)
    requires IsEncodable(s) && |s| == 1
    ensures DecodeData(EncodeData(s), 1) == Some(s)
  {
    EncodeDataShort(s);
    SymbolInverse(s[0]);
    assert [s[0]] == s;
  }

  lemma DecodeStep(s: string)
    requires IsEncodable(s) && |s| >= 2 && IsEncodable(s[2..])
    requires DecodeData(EncodeData(s[2..]), |s| - 2) == Some(s[2..])
    ensures DecodeData(EncodeData(s), |s|) == Some(s)
  {
    EncodeDataStep(s);
    var bits, tail := EncodeData(s), EncodeData(s[2..]);
    DecodePair(s[..2], tail);
    var v := Parse(bits[..11]);
    assert bits[11..] == tail;
    assert DecodeData(bits, |s|) == Some([Symbol(v / 45), Symbol(v % 45)] + s[2..]);
    PairThenRest(s);
  }

  lemma PairThenRest(s: string)
    requires |s| >= 2
    ensures [s[0], s[1]] + s[2..] == s
  {
  }

  /** Decoding the data bits gives the input back: the encoding loses nothing. */
  lemma {:induction false} EncodeDecode(s: string)
    requires IsEncodable(s)
    ensures DecodeData(EncodeData(s), |s|) == Some(s)
    decreases |s|
  {
    if |s| == 1 {
      DecodeSingle(s);
    } else if |s| >= 2 {
      EncodeDecode(s[2..]);
      DecodeStep(s);
    }
  }
}
