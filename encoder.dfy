/**
 * qr_encode (qr.py:122-295) end to end: the data codewords, the
 * Reed-Solomon codewords, the zig-zag placement, mask 011, the format
 * information and the symbol string.
 *
 * The Reed-Solomon encoder (reedsolo.RSCodec(17).encode) is not modelled;
 * it is a parameter that is only known to be systematic: it returns its
 * input followed by 17 further bytes.
 */
module Encoder {
  import opened Bits
  import opened Grid
  import opened Template
  import opened Framing
  import opened Placement
  import opened Masking
  import opened Format

  /** Error-correction codewords of a version 1-H symbol. */
  const ECC_CODEWORDS: nat := 17

  /** What the model assumes of the Reed-Solomon encoder: bytes in, the same bytes and 17 more out. */
  ghost predicate Systematic(rs: seq<nat> -> seq<nat>)
  {
    forall d :: IsBytes(d) ==> IsBytes(rs(d)) && |rs(d)| == |d| + ECC_CODEWORDS && rs(d)[..|d|] == d
  }

  /** The 208 bits placed in the symbol: the nine data codewords, then the seventeen check codewords. */
  function CodeBits(data: string, rs: seq<nat> -> seq<nat>): (bits: string)
    requires IsBits(data) && |data| == 8 * DATA_CODEWORDS && Systematic(rs)
    ensures IsBits(bits) && |bits| == DATA_BITS
    ensures bits[..8 * DATA_CODEWORDS] == data
  {
    var bytes := Bytes(data);
    var code := rs(bytes);
    assert code == bytes + code[|bytes|..];
    JoinBytesAppend(bytes, code[|bytes|..]);
    JoinBytesOfBytes(data);
    JoinBytes(code)
  }

  /** The symbol holding the given 208 bits: placed, masked with pattern 011, format word added. */
  function SymbolOf(bits: string): (m: Matrix)
    requires |bits| == DATA_BITS
    ensures |m| == SIZE && IsRect(m, SIZE)
  {
    WithFormat(Masked(Placed(bits, STEPS)), FORMAT_INFO, Standard)
  }

  /** The symbol qr_encode describes, as a matrix. */
  function Symbol(input: string, rs: seq<nat> -> seq<nat>): (m: Matrix)
    requires Fits(input) && Systematic(rs)
    ensures |m| == SIZE && IsRect(m, SIZE)
  {
    SymbolOf(CodeBits(Framed(input), rs))
  }

  /**
   * The steps of qr_encode after the framing: bytes, Reed-Solomon, bits, the
   * placement loop, the mask loops, the format word and the embedder as the
   * source writes it, and the conversion to a string.
   */
  method QrEncode(input: string, rs: seq<nat> -> seq<nat>) returns (qrstr: string)
    requires Fits(input) && Systematic(rs)
    ensures qrstr == MatrixToStr(Symbol(input, rs))
    ensures StrToMatrix(qrstr) == Symbol(input, rs)
  {
    var data := FrameBits(input);
    var codewords := Bytes(data);
    var encoded := rs(codewords);
    var bits := JoinBytes(encoded);
    assert bits == CodeBits(data, rs);
    var matrix := PlaceData(bits);
    matrix := ApplyMask(matrix);
    var formatInfo := FormatInformation();
    matrix := EmbedFormatAsWritten(matrix, formatInfo);
    FixedLayoutsAgree(Masked(Placed(bits, STEPS)));
    qrstr := MatrixToStr(matrix);
    ModulesOnly(bits);
    SymbolHasNoNewline(matrix);
    MatrixRoundTrip(matrix);
  }

  /** Every module of the symbol is light or dark: no '2' or '3' is left. */
  lemma ModulesOnly(bits: string)
    requires |bits| == DATA_BITS && IsBits(bits)
    ensures forall r, c :: InRange(r, c) ==> IsModule(SymbolOf(bits)[r][c])
  {
    var placed := Placed(bits, STEPS);
    var masked := Masked(placed);
    PlacedModules(bits);
    forall r, c | InRange(r, c) && !IsFormat(r, c)
      ensures IsModule(masked[r][c])
    {
      MaskChanges(placed, r, c);
    }
    FormatCompletes(masked, FORMAT_INFO, Standard);
  }

  lemma SymbolHasNoNewline(m: Matrix)
    requires |m| == SIZE && IsRect(m, SIZE)
    requires forall r, c :: InRange(r, c) ==> IsModule(m[r][c])
    ensures NoSep(m, NEWLINE)
  {
    forall i | 0 <= i < |m|
      ensures NEWLINE !in m[i]
    {
      assert forall c :: 0 <= c < SIZE ==> IsModule(m[i][c]);
    }
  }

  /** Both copies of the format information read back the level H, mask 011 word. */
  lemma FormatReadsBack(bits: string)
    requires |bits| == DATA_BITS
    ensures ReadFirst(SymbolOf(bits)) == FORMAT_INFO
    ensures ReadSecond(SymbolOf(bits)) == FORMAT_INFO
  {
    StandardReadsBack(Masked(Placed(bits, STEPS)), FORMAT_INFO);
  }

  /** The finder, separator, timing and dark modules are those of the template. */
  lemma FunctionModules(bits: string, r: int, c: int)
    requires |bits| == DATA_BITS && InRange(r, c) && !IsData(r, c) && !IsFormat(r, c)
    ensures SymbolOf(bits)[r][c] == TEMPLATE[r][c]
  {
    PlacedFinal(bits, r, c);
    MaskChanges(Placed(bits, STEPS), r, c);
  }

  /** A data module holds its bit, inverted where (row + column) mod 3 is 0. */
  lemma DataModule(bits: string, r: int, c: int)
    requires |bits| == DATA_BITS && InRange(r, c) && IsData(r, c)
    ensures SymbolOf(bits)[r][c] == if (r + c) % 3 == 0 then Flip(bits[DataIndex(r, c)]) else bits[DataIndex(r, c)]
  {
    PlacedFinal(bits, r, c);
    ToggledData(r, c);
  }

  /** Every one of the 208 bits can be read back from a data module by undoing the mask there. */
  lemma BitsReadBack(bits: string, j: nat)
    requires |bits| == DATA_BITS && j < DATA_BITS
    ensures exists r, c :: (InRange(r, c) && IsData(r, c) && DataIndex(r, c) == j
      && bits[j] == Unmask(r, c, SymbolOf(bits)[r][c]))
  {
    DataIndexOnto(j);
    var r, c :| InRange(r, c) && IsData(r, c) && DataIndex(r, c) == j;
    DataModule(bits, r, c);
    FlipFlip(bits[j]);
  }

  /** What a reader does to a data module at (r, c) to undo mask 011. */
  function Unmask(r: int, c: int, ch: char): char
  {
    if (r + c) % 3 == 0 then Flip(ch) else ch
  }

  /**
   * The symbol of an input is complete, and undoing the mask on the first 72
   * data modules in placement order gives the framed data codewords.
   */
  lemma SymbolOfInput(input: string, rs: seq<nat> -> seq<nat>)
    requires Fits(input) && Systematic(rs)
    ensures forall r, c :: InRange(r, c) ==> IsModule(Symbol(input, rs)[r][c])
    ensures forall r, c :: InRange(r, c) && IsData(r, c) && DataIndex(r, c) < 8 * DATA_CODEWORDS ==>
      Unmask(r, c, Symbol(input, rs)[r][c]) == Framed(input)[DataIndex(r, c)]
  {
    var bits := CodeBits(Framed(input), rs);
    assert Symbol(input, rs) == SymbolOf(bits);
    ModulesOnly(bits);
    FramedModules(Framed(input), bits);
  }

  lemma FramedModules(data: string, bits: string)
    requires |bits| == DATA_BITS && |data| == 8 * DATA_CODEWORDS && bits[..8 * DATA_CODEWORDS] == data
    ensures forall r, c :: InRange(r, c) && IsData(r, c) && DataIndex(r, c) < 8 * DATA_CODEWORDS ==>
      Unmask(r, c, SymbolOf(bits)[r][c]) == data[DataIndex(r, c)]
  {
    forall r, c | InRange(r, c) && IsData(r, c) && DataIndex(r, c) < 8 * DATA_CODEWORDS
      ensures Unmask(r, c, SymbolOf(bits)[r][c]) == data[DataIndex(r, c)]
    {
      FramedModule(data, bits, r, c);
    }
  }

  lemma FramedModule(data: string, bits: string, r: int, c: int)
    requires |bits| == DATA_BITS && |data| == 8 * DATA_CODEWORDS && bits[..8 * DATA_CODEWORDS] == data
    requires InRange(r, c) && IsData(r, c) && DataIndex(r, c) < 8 * DATA_CODEWORDS
    ensures Unmask(r, c, SymbolOf(bits)[r][c]) == data[DataIndex(r, c)]
  {
    DataModule(bits, r, c);
    FlipFlip(bits[DataIndex(r, c)]);
    assert bits[DataIndex(r, c)] == bits[..8 * DATA_CODEWORDS][DataIndex(r, c)];
  }
}
