# A verified model of a fixed QR Code builder

`qr.py` builds one kind of QR Code symbol:

- version 1 (21 × 21 modules);
- alphanumeric mode;
- error-correction level H;
- mask pattern 011.

A symbol is a text of 21 lines of `0`/`1` characters. `qr_encode` builds it in these stages:

- encode the input two characters at a time with the 45-symbol alphanumeric table;
- frame the data bits:
  - mode indicator `0010`;
  - 9-bit character count;
  - terminator `0000`;
  - zero bits up to a whole byte;
  - the alternating pad codewords 11101100 and 00010001, up to nine codewords;
- append 17 Reed–Solomon codewords;
- write the 208 resulting bits into the data modules of a fixed template, in the zig-zag order of ISO/IEC 18004;
- invert the data modules with (row + column) mod 3 = 0;
- compute the 15-bit format word with a BCH(15,5) code and the fixed mask 101010000010010;
- write the format word twice into the reserved modules;
- turn the matrix back into text.

`add_padding` later adds a four-module quiet zone on each side.

The model follows the source's own form:

- Bit-string helpers, table lookups and string/matrix conversions are functions with contracts.
- Each stage that loops or updates state is a method, and every such method is proved equal to a specification function. These are:
  - the pad loop;
  - the BCH division loop;
  - the zig-zag placement loop;
  - the nested mask loops;
  - the slice writes of the format embedder.
- Lemmas state what the specification functions mean:
  - round trips;
  - bijections;
  - counts;
  - undoing the mask;
  - reading the format word back.

Modules, in dependency order:

| module | file | contents |
|---|---|---|
| `Bits` | bits.dfy | binary strings, `int(s, 2)`, `nbin`, `xor_bin`, the `^` operator |
| `Gf2` | gf2.dfy | carry-less multiplication, multiples and remainders of polynomials over GF(2) |
| `Bch` | bch.dfy | `bch15_5`, as written and corrected |
| `Alphanumeric` | alphanumeric.dfy | the 45-symbol table, `convert_char_to_bin`, chunking into pairs, and a decoder |
| `Framing` | framing.dfy | the data codewords: segment, bit padding, the pad loop, splitting into bytes |
| `Example` | example.dfy | the codewords of the sample input "ABCDE123" |
| `Grid` | grid.dfy | `convert_str_to_matrix`, `convert_matrix_to_str`, `add_padding`, transposition |
| `Template` | template.dfy | the 21 × 21 template and its regions |
| `Placement` | placement.dfy | the zig-zag placement loop |
| `Masking` | masking.dfy | the mask 011 loops |
| `Format` | format.dfy | the format word and the embedder, as written and as in the standard |
| `Encoder` | encoder.dfy | `qr_encode` end to end |

The Reed–Solomon encoder belongs to an external library. It is a parameter `rs` of `Encoder.QrEncode`, and all the model knows about it is `Encoder.Systematic`: it maps bytes to the same bytes followed by 17 more bytes.

`Encoder.QrEncode` builds the format word with the corrected `Bch.Bch15_5`. The source's own `bch15_5` returns the same word for the payload it uses (`Bch.AsWrittenFixedPayload`), so this is the one place where the pipeline takes the corrected member rather than the code: the word, and so the output, is the same. `QrEncode` writes that word with the source's own embedder, `Format.EmbedFormatAsWritten`. It is proved to return the text of `Encoder.Symbol`: the source's placement and mask 011, with the format word in the layout of section 7.9 of ISO/IEC 18004 (`Format.FixedLayoutsAgree` is the bridge), for any systematic `rs`. Only the format layout is checked against an independent reading of the standard; the lines under "## Left out" name what else full conformance would need.

Elsewhere, where the code and its comments or the standard disagree, the model follows the code:

- `bch15_5` and the corner modules of the format word are modelled as written.
- Separate corrected members exist beside them (see "## Findings").
- Line 160 divides with `/`, which in Python 3 gives a float. The length there is always a multiple of 8, so the model uses integer division.

## Model

| member | source | states |
|---|---|---|
| Bits.Nbin | python/qr/qr/qr.py:57-62 | `nbin(v, n)` is all binary digits, reads back as v, and has max(n, max(1, bit length of v)) digits; it is longer than n only when its first digit is 1 or it is "0" |
| Bits.BinaryCorrect | python/qr/qr/qr.py:57-62 | `format(v, 'b')` reads back as v, has max(1, bit length) digits and starts with 1 for v ≥ 1 |
| Bits.NbinOfParse | python/qr/qr/qr.py:57-62 | printing `int(s, 2)` with `len(s)` digits gives s back, for any non-empty binary string |
| Bits.ParseInjective | python/qr/qr/qr.py:57-62 | two binary strings of the same length with the same value are equal |
| Bits.BitLengthBound | python/qr/qr/qr.py:57-62 | v < 2^k exactly when v has at most k binary digits, so `nbin(v, k)` has k digits exactly when v < 2^k |
| Bits.ParseAppend | python/qr/qr/qr.py:65-70 | the value of s + t is value(s) · 2^len(t) + value(t) |
| Bits.ParseBound | python/qr/qr/qr.py:65-70 | a k-digit binary string is worth less than 2^k |
| Bits.XorBin | python/qr/qr/qr.py:65-70 | `xor_bin(x, y, n)` is binary, is worth value(x) XOR value(y), and is padded to n digits like `nbin` |
| Bits.Parse | python/qr/qr/qr.py:70 | `int(s, 2)` on a string of binary digits; its meaning is given by Bits.ParseAppend, Bits.ParseBound, Bits.ParseInjective and Bits.NbinOfParse |
| Bits.ParseBitwiseXor | python/qr/qr/qr.py:65-70 | the digit-by-digit XOR of two equal-length strings is worth the XOR of their values |
| Bits.XorBinBitwise | python/qr/qr/qr.py:65-70 | `xor_bin(x, y, len(x))` on equal-length strings is their digit-by-digit XOR |
| Bits.XorAssoc | python/qr/qr/qr.py:70 | the integer `^` used by `xor_bin` is associative |
| Bits.Xor | python/qr/qr/qr.py:70 | the integer `^` on non-negative values, digit by digit; Bits.XorComm, Bits.XorAssoc, Bits.XorCancel, Bits.XorTop and Bits.ParseBitwiseXor give its laws |
| Bits.XorComm | python/qr/qr/qr.py:70 | `^` is commutative |
| Bits.XorCancel | python/qr/qr/qr.py:70 | (a ^ b) ^ b == a |
| Bits.XorTop | python/qr/qr/qr.py:70 | for a, b below 2^(k+1), a ^ b ≥ 2^k exactly when exactly one of a and b is ≥ 2^k (the top digit of an XOR) |
| Gf2.CMulXor | python/qr/qr/qr.py:116-118 | GF(2) polynomial multiplication distributes over XOR |
| Gf2.CMulPow2 | python/qr/qr/qr.py:117 | appending k zeros to g (the aligned divisor h) multiplies it by x^k |
| Gf2.MultipleXor | python/qr/qr/qr.py:118 | the XOR of two multiples of g is a multiple of g |
| Gf2.RemainderUnique | python/qr/qr/qr.py:110-119 | a polynomial has exactly one remainder modulo g |
| Bch.GeneratorFacts | python/qr/qr/qr.py:114 | g = 10100110111 is 11 binary digits worth 1335, of degree 10 |
| Bch.DivisionStep | python/qr/qr/qr.py:116-118 | while value(f) ≥ 2^10, the aligned divisor h has f's length, and one XOR with it strictly decreases the termination measure |
| Bch.DivideAsWritten | python/qr/qr/qr.py:115-118 | the division loop terminates with a non-empty f worth less than g, and f's initial and final values differ by a multiple of g |
| Bch.AsWrittenParity | python/qr/qr/qr.py:115-119 | the value returned is below g; payload · x^10 XOR it is a multiple of g |
| Bch.Bch15_5AsWritten | python/qr/qr/qr.py:110-119 | the source's loop, with its test `int(f, 2) >= int(g, 2)`, returns `AsWrittenParity(x)` |
| Bch.AsWrittenRemainder | python/qr/qr/qr.py:110-119 | when the as-written result has 10 digits, it is the remainder of payload · x^10 modulo g |
| Bch.ElevenDigitsWrong | python/qr/qr/qr.py:116-119 | when the as-written result has 11 digits, it is not that remainder |
| Bch.AsWrittenCounterexample | python/qr/qr/qr.py:116-119 | for payload 00001 the source returns 10000000000, which is not the remainder |
| Bch.CounterexampleRemainder | python/qr/qr/qr.py:110-119 | the remainder for payload 00001 is 0100110111 |
| Bch.Bch15_5 | python/qr/qr/qr.py:110-119 | the corrected loop (degree test) returns exactly 10 binary digits: the remainder of payload · x^10 modulo g |
| Bch.CodewordRemainder | python/qr/qr/qr.py:110-119 | re-running the division on payload ‖ parity yields 0000000000 |
| Bch.AsWrittenFixedPayload | python/qr/qr/qr.py:270 | for level H and mask 011 (payload 10011) the source's `bch15_5` returns 0111000010 |
| Bch.FixedPayload | python/qr/qr/qr.py:270 | any 10-digit remainder of 10011 · x^10 is 0111000010, so `Bch15_5` returns it too |
| Alphanumeric.TableInverse | python/qr/qr/qr.py:77-83 | the table gives value v to exactly one character, for each v < 45 |
| Alphanumeric.Table | python/qr/qr/qr.py:77-83 | the dict of 45 characters, None where it raises KeyError; every value is below 45 |
| Alphanumeric.SymbolInverse | python/qr/qr/qr.py:77-83 | every table value is below 45 and identifies its character |
| Alphanumeric.PairBound | python/qr/qr/qr.py:85 | a pair's number 45 · a + b is at most 2024 |
| Alphanumeric.ConvertCharToBin | python/qr/qr/qr.py:84-89 | a pair becomes 11 binary digits worth table[c1] · 45 + table[c2] ≤ 2024; a single character becomes 6 digits worth table[c] ≤ 44 |
| Alphanumeric.Chunks | python/qr/qr/qr.py:141-142 | the input splits into (n + 1) div 2 chunks; chunk i is characters 2i up to min(2i + 2, n) |
| Alphanumeric.ChunksConcat | python/qr/qr/qr.py:141-142 | the chunks concatenated give the input back |
| Alphanumeric.EncodeDataStep | python/qr/qr/qr.py:141-146 | the data bits are the first pair's 11 bits followed by the bits of the rest |
| Alphanumeric.EncodeData | python/qr/qr/qr.py:141-146 | the join of the converted chunks is binary; Alphanumeric.EncodeDataStep, Alphanumeric.EncodeDataLength and Alphanumeric.EncodeDecode give its content |
| Alphanumeric.EncodeDataShort | python/qr/qr/qr.py:141-146 | an input of one or two characters is a single chunk |
| Alphanumeric.EncodeDataLength | python/qr/qr/qr.py:141-146 | the data bits number 11 · (n div 2) + 6 · (n mod 2) |
| Alphanumeric.EncodeDecode | python/qr/qr/qr.py:141-146 | given the character count, the data bits decode back to the input, so the encoding loses nothing |
| Framing.CountField | python/qr/qr/qr.py:136 | the character count of at most 10 characters fills exactly 9 bits |
| Framing.Segment | python/qr/qr/qr.py:136-150 | mode + count + data + terminator is binary with 17 + 11 · (n div 2) + 6 · (n mod 2) ≤ 72 bits |
| Framing.ZeroFill | python/qr/qr/qr.py:154-155 | the zero fill makes the length a multiple of 8, adds fewer than 8 bits, keeps the stream in front and stays within 72 bits |
| Framing.BitPadded | python/qr/qr/qr.py:153-155 | the padded stream is binary, whole bytes, at most 72 bits, and starts with the segment |
| Framing.PadCount | python/qr/qr/qr.py:159-160 | the missing codewords fill the stream up to exactly 72 bits |
| Framing.PadCodewords | python/qr/qr/qr.py:161-165 | n missing codewords add 8 n binary digits |
| Framing.PadCodewordsWord | python/qr/qr/qr.py:161-165 | pad codeword k is 11101100 for even k and 00010001 for odd k |
| Framing.PadToCapacity | python/qr/qr/qr.py:158-166 | the while loop and the test after it append exactly the missing pad codewords |
| Framing.FrameBits | python/qr/qr/qr.py:150-166 | the stream built step by step is `Framed(input)`: 72 binary digits |
| Framing.FramedLayout | python/qr/qr/qr.py:150-166 | the 72 bits are the segment, then zeros up to the byte boundary, then pad codewords alternating from 11101100 |
| Framing.FramedPrefix | python/qr/qr/qr.py:150-166 | the framed stream starts with the segment |
| Framing.FramedZeros | python/qr/qr/qr.py:154-155 | between the segment and the byte boundary only zeros follow |
| Framing.FramedPads | python/qr/qr/qr.py:158-166 | every byte after the boundary is the alternating pad codeword |
| Framing.ByteValue | python/qr/qr/qr.py:169 | `int(x, 2)` of an 8-digit piece is below 256 |
| Framing.Bytes | python/qr/qr/qr.py:169 | the stream splits into len / 8 values, each below 256 |
| Framing.JoinBytes | python/qr/qr/qr.py:179 | `''.join(nbin(x, 8))` of byte values gives 8 binary digits per value |
| Framing.JoinBytesSlice | python/qr/qr/qr.py:179 | digits 8i to 8i + 8 of the joined stream are `nbin(d[i], 8)` |
| Framing.JoinBytesAppend | python/qr/qr/qr.py:179 | joining two byte lists one after the other is joining their concatenation |
| Framing.JoinBytesOfBytes | python/qr/qr/qr.py:169-179 | splitting into bytes and printing them back gives the stream |
| Framing.BytesOfJoinBytes | python/qr/qr/qr.py:169-179 | printing byte values and splitting again gives the values |
| Example.SpelledInput | python/qr/qr/qr.py:27 | `Spelled` describes exactly the string "ABCDE123" |
| Example.SpelledPairs | python/qr/qr/qr.py:142 | the pairs AB, CD, E1 and 23 convert to 461, 553, 631 and 93 in 11 bits each |
| Example.SpelledSegment | python/qr/qr/qr.py:150 | the segment of "ABCDE123" has 61 bits |
| Example.SpelledFramed | python/qr/qr/qr.py:150-166 | the framed "ABCDE123" has 72 bits of a fixed value |
| Example.ParseJoinBytes | python/qr/qr/qr.py:179 | the joined byte digits are worth the bytes read as one big-endian number |
| Example.SpelledCodewords | python/qr/qr/qr.py:168-170 | the data codewords of "ABCDE123" are [32, 65, 205, 69, 41, 220, 46, 128, 236] |
| Grid.Split | python/qr/qr/qr.py:96 | `str.split` gives at least one part |
| Grid.SplitNoSep | python/qr/qr/qr.py:96 | no part contains the separator |
| Grid.JoinSplit | python/qr/qr/qr.py:96 | joining the parts of a split with the separator gives the string back |
| Grid.SplitJoin | python/qr/qr/qr.py:106 | splitting the join of separator-free parts gives the parts back |
| Grid.Join | python/qr/qr/qr.py:106 | `sep.join(parts)`, the empty string for no parts; Grid.JoinSplit and Grid.SplitJoin make it the inverse of Grid.Split |
| Grid.StrToMatrix | python/qr/qr/qr.py:92-98 | a text becomes one row per line, dropping the part after the last newline; no row holds a newline |
| Grid.MatrixToStr | python/qr/qr/qr.py:101-107 | the text of a matrix ends with a newline |
| Grid.MatrixRoundTrip | python/qr/qr/qr.py:92-107 | converting a non-empty matrix without newlines to text and back gives the matrix |
| Grid.StringRoundTrip | python/qr/qr/qr.py:92-107 | converting a newline-terminated text to a matrix and back gives the text |
| Grid.EmptyMatrixString | python/qr/qr/qr.py:92-107 | the empty matrix becomes "\n", which reads back as one empty row: the one case where the round trip fails |
| Grid.Quiet | python/qr/qr/qr.py:49-52 | a w-wide matrix gains 8 rows and 8 columns |
| Grid.AddPadding | python/qr/qr/qr.py:45-54 | None, the IndexError at qr.py:51, exactly when the text has no newline; otherwise a text with eight more lines than the input |
| Grid.AddPaddingQuiet | python/qr/qr/qr.py:45-54 | `add_padding` on the text of a rectangular matrix is the text of that matrix with four zero rows above and below and four zero columns on each side |
| Grid.MinWidth | python/qr/qr/qr.py:285 | `zip(*m)` has as many rows as the shortest row of m |
| Grid.Transpose | python/qr/qr/qr.py:285 | the transpose has MinWidth(m) rows of length len(m) |
| Grid.TransposeCells | python/qr/qr/qr.py:285 | the transpose of a rectangular matrix has cell (j, i) = cell (i, j) |
| Grid.TransposeTwice | python/qr/qr/qr.py:285-291 | transposing twice gives the matrix back |
| Template.TemplateShape | python/qr/qr/qr.py:188-208 | the template is 21 rows of 21 modules |
| Template.TemplateClassified | python/qr/qr/qr.py:188-208 | a template module is '3' exactly in the data region and '2' exactly at the 30 format modules; all others are '0' or '1' |
| Template.TemplateText | python/qr/qr/qr.py:187-211 | the template text converts to the template matrix and back |
| Placement.WalkIn | python/qr/qr/qr.py:218-253 | step 42 s + t of the cursor is in strip s (columns 20 − 2s and 19 − 2s, shifted left past column 6), right column for even t, row 20 − t div 2 going up in even strips and t div 2 going down in odd ones |
| Placement.Move | python/qr/qr/qr.py:230-253 | one turn of the cursor update; Placement.MoveInside, Placement.MoveAcross and Placement.WalkIn show that the moves visit the strips in order |
| Placement.StepThenRank | python/qr/qr/qr.py:218-253 | each of the 420 steps stays within rows and columns 0..20, never visits column 6, and is recovered from its cell by `Rank` |
| Placement.RankThenStep | python/qr/qr/qr.py:218-253 | every module outside column 6 is visited, at step `Rank(r, c)` |
| Placement.CountEnd | python/qr/qr/qr.py:225-229 | by step 404 the loop has met all 208 '3' modules, and 208 in total |
| Placement.CountBound | python/qr/qr/qr.py:225-229 | the loop never meets more than 208 '3' modules |
| Placement.CountInjective | python/qr/qr/qr.py:226-229 | two distinct data steps receive distinct data indices |
| Placement.CountReaches | python/qr/qr/qr.py:226-229 | every data index below the count so far was given at an earlier data step |
| Placement.DataIndex | python/qr/qr/qr.py:226-229 | the bit a data module receives has an index below 208 |
| Placement.DataIndexInjective | python/qr/qr/qr.py:226-229 | distinct data modules receive distinct bits |
| Placement.DataIndexOnto | python/qr/qr/qr.py:226-229 | every one of the 208 bits goes into some data module |
| Placement.PlacedStep | python/qr/qr/qr.py:226-229 | one step writes the next bit at a data module and changes nothing elsewhere |
| Placement.LoopStep | python/qr/qr/qr.py:225-253 | while bits remain, the loop is before step 404, its cursor is in range, and its body is one placement step |
| Placement.PlaceData | python/qr/qr/qr.py:211-253 | the while loop over x, y, direction, pos and i ends with the matrix `Placed(data, 420)` |
| Placement.PlacedFinal | python/qr/qr/qr.py:211-253 | after placement each data module holds its bit `data[DataIndex(r, c)]` and every other module keeps its template value |
| Placement.PlacedModules | python/qr/qr/qr.py:211-253 | after placing binary data only the format modules are not '0' or '1' |
| Masking.Flip | python/qr/qr/qr.py:265-266 | the translation swaps 0 and 1 and leaves other characters alone |
| Masking.FlipFlip | python/qr/qr/qr.py:265-266 | swapping twice restores the character |
| Masking.MaskStep | python/qr/qr/qr.py:259-266 | one turn of the inner loop inverts cell (y, x) when it is toggled and keeps the rest |
| Masking.ApplyMask | python/qr/qr/qr.py:259-266 | the nested for loops end with `Masked(matrix0)` |
| Masking.ToggledData | python/qr/qr/qr.py:262 | the loop's test holds exactly at data modules with (row + column) mod 3 = 0 |
| Masking.MaskChanges | python/qr/qr/qr.py:259-266 | a module changes exactly when it holds a bit, is a data module and has (row + column) mod 3 = 0; function and format modules never change |
| Masking.MaskTwice | python/qr/qr/qr.py:259-266 | applying the mask twice gives the matrix back |
| Format.PayloadDigits | python/qr/qr/qr.py:270 | level H and mask 011 make the payload 10011 |
| Format.FormatXor | python/qr/qr/qr.py:273-276 | payload + 0111000010 XOR 101010000010010 is 001100111010000 |
| Format.FormatInformation | python/qr/qr/qr.py:270-276 | the format word is 001100111010000 |
| Format.FormatInfoUnmasked | python/qr/qr/qr.py:270-276 | unmasking the format word gives 10011 followed by the remainder of 10011 · x^10 modulo g |
| Format.FormatIndex | python/qr/qr/qr.py:280-289 | each format module receives one of the 15 bits |
| Format.WriteSlice | python/qr/qr/qr.py:280 | a slice assignment of equal length replaces exactly those positions |
| Format.Reverse | python/qr/qr/qr.py:286 | `s[::-1]` has position i = s[len - 1 - i] |
| Format.ReverseTwice | python/qr/qr/qr.py:286-290 | reversing twice restores the word |
| Format.AsWrittenRowWrites | python/qr/qr/qr.py:280-282 | the three row writes leave row 8 as the source places it and every other row untouched |
| Format.AsWrittenColumnWrites | python/qr/qr/qr.py:286-289 | the writes on the transpose place the reversed word as the source does |
| Format.AsWrittenCells | python/qr/qr/qr.py:280-291 | writes, transposes and reversals together produce `WithFormat(m, fi, AsWritten)` |
| Format.EmbedFormatAsWritten | python/qr/qr/qr.py:279-291 | the source's embedder produces `WithFormat(m, fi, AsWritten)` |
| Format.AsWrittenPositions | python/qr/qr/qr.py:280-289 | as written, (8, k) = fi[k] and (k, 8) = fi[14 − k] for k < 6; (8, 7) = fi[7], (8, 8) = fi[6], (7, 8) = fi[7]; (8, c) = fi[c − 6] for c ≥ 13; (r, 8) = fi[20 − r] for r ≥ 14; every other module is unchanged |
| Format.EmbedFormat | python/qr/qr/qr.py:279-291 | the embedder with the standard's corner writes produces `WithFormat(m, fi, Standard)` |
| Format.FirstCopy | python/qr/qr/qr.py:280-289 | bit k of the first copy sits at a format module that the standard layout gives bit k |
| Format.SecondCopy | python/qr/qr/qr.py:282-289 | bit k of the second copy sits at a format module that the standard layout gives bit k |
| Format.CopiesPartition | python/qr/qr/qr.py:280-289 | the two copies are disjoint, and each is one-to-one |
| Format.CopiesCover | python/qr/qr/qr.py:280-289 | every format module belongs to one of the copies |
| Format.StandardReadsBack | python/qr/qr/qr.py:279-291 | with the standard layout both copies read back the word written |
| Format.AsWrittenReadsBack | python/qr/qr/qr.py:279-291 | as written, the second copy reads back the word and the first copy does exactly when bits 6, 7 and 8 are equal |
| Format.LayoutsAgree | python/qr/qr/qr.py:281-288 | the source's layout and the standard's give the same symbol exactly when bits 6, 7 and 8 of the word are equal |
| Format.FixedLayoutsAgree | python/qr/qr/qr.py:276-291 | for the word 001100111010000 the source's embedder writes the standard symbol |
| Format.AsWrittenMisplaces | python/qr/qr/qr.py:281-288 | for level H with mask 000 (word 001011010001001) the source's first copy reads back a different word; the standard's reads back the word |
| Format.FormatCompletes | python/qr/qr/qr.py:279-291 | once the format word is written, no '2' module remains |
| Format.FormatModules | python/qr/qr/qr.py:196 | the format modules are exactly the template's '2' modules |
| Encoder.CodeBits | python/qr/qr/qr.py:173-179 | the bits after Reed–Solomon are 208 binary digits that start with the 72 data bits |
| Encoder.QrEncode | python/qr/qr/qr.py:122-295 | `qr_encode` returns the text of `Symbol(input, rs)`, and that text reads back as the symbol |
| Encoder.ModulesOnly | python/qr/qr/qr.py:122-295 | every module of the finished symbol is '0' or '1' |
| Encoder.SymbolHasNoNewline | python/qr/qr/qr.py:294 | a matrix of modules has no row holding a newline, so its text has one line per row |
| Encoder.FormatReadsBack | python/qr/qr/qr.py:270-291 | both copies in the symbol read back 001100111010000 |
| Encoder.FunctionModules | python/qr/qr/qr.py:188-291 | finder, separator, timing and dark modules keep their template values |
| Encoder.DataModule | python/qr/qr/qr.py:225-266 | data module (r, c) holds its bit, inverted when (r + c) mod 3 = 0 |
| Encoder.BitsReadBack | python/qr/qr/qr.py:225-266 | every one of the 208 bits can be read back from the symbol's modules |
| Encoder.SymbolOfInput | python/qr/qr/qr.py:122-295 | the symbol of an input has only '0'/'1' modules, and with the mask removed its first 72 data modules hold the framed data bits |
| Encoder.FramedModules | python/qr/qr/qr.py:173-266 | the data modules with index below 72 hold the data codewords' bits, under the mask |

## Left out

- `main`, `print_qrstr` and every `print` call (qr.py:25-42 and throughout `qr_encode`): terminal output and glyph rendering; they have no effect on the symbol.
- `reedsolo.RSCodec(17).encode` (qr.py:174-175), from an external library: it is the parameter `rs`, assumed only to be systematic (`Encoder.Systematic`). The values of the 17 check codewords are therefore not modelled.
- reedsolo_demo.py is not part of this model: it only exercises that library.
- The regular-expression mechanics of `re.split` (qr.py:141-142, 169): modelled as the chunking they do (`Alphanumeric.Chunks`, `Framing.Bytes`).
- The evaluation of the eight masks mentioned at qr.py:255-257: the source does not implement it and always uses mask 011.
- The commented-out scratch at qr.py:302-326 and the unused `import random`.
- Inputs of more than 10 characters, or with a character outside the table: the source has no capacity check, so a longer input runs on past the 72 data bits with no error of its own, and it raises `KeyError` on an unknown character. Both are excluded by the precondition `Framing.Fits`, so nothing is claimed about the source's output for them. The same precondition guards `Framing.Segment`, `Framing.FrameBits` and `Encoder.QrEncode`.
- Framing.PadCount: the float division at qr.py:160 is modelled as integer division, which is exact there because the length is a multiple of 8.
- `Encoder.Systematic` admits any map that keeps the 9 data bytes and adds 17; it does not pin down RS(26, 9) over GF(256) with the generator polynomial of ISO/IEC 18004, so the error-correction modules are not checked against the standard.
- The mask is fixed at 011, as the source fixes it; the standard chooses the mask by penalty evaluation, which neither the source nor the model does.
- Conformance of the placement and of the function patterns to ISO/IEC 18004 is not checked against an independent reading of the standard; the model proves what the source's template and cursor do.
- The in-place updates of the list of lists `matrix` (qr.py:228, 265, 280-289) are modelled on a value matrix that each write reassigns. There is no aliasing in the source to lose: `base_matrix` is a separate copy and the transpose builds new lists (`Grid.Transpose`).

## Findings

| source | as written | input that shows it | evidently intended | confidence | as-written member | corrected member |
|---|---|---|---|---|---|---|
| python/qr/qr/qr.py:116 | the division loop runs while `int(f, 2) >= int(g, 2)`, so it stops once f drops below 1335 even if f still has degree 10 | payload 00001: f = 000010000000000 is worth 1024 < 1335, the loop never runs, and `nbin(1024, 10)` returns the 11 digits 10000000000, not the remainder 0100110111 | divide while f has degree 10 or more, i.e. while `int(f, 2)` has at least `len(g)` binary digits | not executed | Bch.AsWrittenCounterexample | Bch.Bch15_5 |
| python/qr/qr/qr.py:281-288 | the first copy of the format word gets bit 7 at (8, 7), bit 6 at (8, 8) and bit 7 again at (7, 8); bit 8 is never written there | level H with mask 000, word 001011010001001: the first copy reads back 001011101001001 | bits 6, 7 and 8 at (8, 7), (8, 8) and (7, 8), as ISO/IEC 18004 section 7.9 places them | not executed | Format.AsWrittenMisplaces | Format.StandardReadsBack |

Neither discrepancy shows in the symbol the source builds. Its payload 10011 is reduced correctly (`Bch.AsWrittenFixedPayload`). Its format word 001100111010000 has bits 6, 7 and 8 all set (`Format.FixedLayoutsAgree`).
