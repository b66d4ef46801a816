/**
 * Format information (qr.py:268-291): the payload 10 (level H) + 011 (mask
 * pattern), its BCH(15,5) parity, the fixed XOR mask 101010000010010, and the
 * two copies of the 15 bits written into the '2' modules of the symbol.
 *
 * The source writes the first copy with bit 7 at (8, 7), bit 6 at (8, 8) and
 * bit 7 again at (7, 8); ISO/IEC 18004 (section 7.9) puts bits
 * 6, 7 and 8 there. EmbedFormatAsWritten follows the source, EmbedFormat the
 * standard; on the one format word the source produces they give the same
 * symbol (FixedLayoutsAgree).
 */
module Format {
  import opened Bits
  import opened Grid
  import opened Template
  import opened Gf2
  import opened Bch

  /** Error-correction level H (qr.py:133). */
  const LEVEL_H: string := "10"
  /** Mask pattern 011, (x + y) mod 3 == 0 (qr.py:258). */
  const MASK_PATTERN: string := "011"
  const FORMAT_MASK: string := "101010000010010"
  /** The format word for level H and mask 011. */
  const FORMAT_INFO: string := "001100111010000"

  // ---------------------------------------------------------------------
  // The format word

  lemma PayloadDigits()
    ensures LEVEL_H + MASK_PATTERN == "10011"
  {
  }

  /** The two operands of the final xor and their digit-by-digit result. */
  lemma FormatXor(ecb: string)
    requires ecb == "0111000010"
    ensures IsBits(LEVEL_H + MASK_PATTERN + ecb) && IsBits(FORMAT_MASK)
    ensures |LEVEL_H + MASK_PATTERN + ecb| == 15 && |FORMAT_MASK| == 15
    ensures XorBin(LEVEL_H + MASK_PATTERN + ecb, FORMAT_MASK, 15) == FORMAT_INFO
  {
    var unmasked := LEVEL_H + MASK_PATTERN + ecb;
    assert unmasked == "100110111000010";
    XorBinBitwise(unmasked, FORMAT_MASK);
    assert BitwiseXor(unmasked, FORMAT_MASK) == FORMAT_INFO;
  }

  /**
   * qr.py:270-276: the parity from bch15_5 (the corrected one, which agrees
   * with the source's own on this payload: AsWrittenFixedPayload), the payload
   * and the parity joined, and the xor with the fixed mask.
   */
  method FormatInformation() returns (formatInfo: string)
    ensures formatInfo == FORMAT_INFO
  {
    PayloadDigits();
    var errorCorrectionBit := Bch15_5(LEVEL_H + MASK_PATTERN);
    FixedPayload(LEVEL_H + MASK_PATTERN, errorCorrectionBit);
    formatInfo := LEVEL_H + MASK_PATTERN + errorCorrectionBit;
    FormatXor(errorCorrectionBit);
    formatInfo := XorBin(formatInfo, FORMAT_MASK, 15);
  }

  /**
   * Taking the mask off the format word gives the payload 10011 followed by
   * 0111000010, the remainder of 10011 * x^10 modulo the generator.
   */
  lemma FormatInfoUnmasked()
    ensures BitwiseXor(FORMAT_INFO, FORMAT_MASK) == LEVEL_H + MASK_PATTERN + "0111000010"
    ensures IsRemainder(Parse("0111000010"), Parse(LEVEL_H + MASK_PATTERN + Zeros(10)), Parse(GENERATOR))
  {
    PayloadDigits();
    assert BitwiseXor(FORMAT_INFO, FORMAT_MASK) == "100110111000010";
    FixedRemainder();
  }

  // ---------------------------------------------------------------------
  // Where the bits go

  datatype Layout = AsWritten | Standard

  /**
   * The bit of the format word a format module receives. Row 8: columns 0-5
   * hold bits 0-5 and columns 13-20 bits 7-14; column 8: rows 0-5 hold bits
   * 14-9 and rows 14-20 bits 6-0. The corner modules (8, 7), (8, 8) and
   * (7, 8) hold bits 7, 6, 7 as written and 6, 7, 8 in the standard.
   */
  function FormatIndex(layout: Layout, r: int, c: int): (k: nat)
    requires InRange(r, c) && IsFormat(r, c)
    ensures k < 15
  {
    if r == 8 && c <= 5 then c
    else if r == 8 && c == 7 then (if layout == AsWritten then 7 else 6)
    else if r == 8 && c == 8 then (if layout == AsWritten then 6 else 7)
    else if r == 8 then c - 6
    else if r <= 5 then 14 - r
    else if r == 7 then (if layout == AsWritten then 7 else 8)
    else 20 - r
  }

  /** m with the format word written into the format modules, by the given layout. */
  function WithFormat(m: Matrix, fi: string, layout: Layout): (res: Matrix)
    requires |m| == SIZE && IsRect(m, SIZE) && |fi| == 15
    ensures |res| == SIZE && IsRect(res, SIZE)
  {
    seq(SIZE, r requires 0 <= r < SIZE =>
      seq(SIZE, c requires 0 <= c < SIZE =>
        if IsFormat(r, c) then fi[FormatIndex(layout, r, c)] else m[r][c]))
  }

  // ---------------------------------------------------------------------
  // Slice assignment, reversal

  /** row[lo:lo + len(s)] = s on a list of characters. */
  function WriteSlice(row: string, lo: nat, s: string): (res: string)
    requires lo + |s| <= |row|
    ensures |res| == |row|
    ensures forall j :: 0 <= j < |row| ==> res[j] == if lo <= j < lo + |s| then s[j - lo] else row[j]
  {
    row[..lo] + s + row[lo + |s|..]
  }

  /** s[::-1]. */
  function Reverse(s: string): (r: string)
    ensures |r| == |s|
    ensures forall i :: 0 <= i < |s| ==> r[i] == s[|s| - 1 - i]
  {
    seq(|s|, i requires 0 <= i < |s| => s[|s| - 1 - i])
  }

  lemma ReverseTwice(s: string)
    ensures Reverse(Reverse(s)) == s
  {
  }

  /** matrix[8][lo:lo + len(s)] = s: row 8 takes s from column lo on, nothing else changes. */
  lemma RowWrite(m: Matrix, lo: nat, s: string)
    requires |m| == SIZE && IsRect(m, SIZE) && lo + |s| <= SIZE
    ensures var m' := m[8 := WriteSlice(m[8], lo, s)];
      |m'| == SIZE && IsRect(m', SIZE)
      && forall r, c :: InRange(r, c) ==>
        m'[r][c] == if r == 8 && lo <= c < lo + |s| then s[c - lo] else m[r][c]
  {
  }

  lemma CellWrite(m: Matrix, c: int, ch: char)
    requires |m| == SIZE && IsRect(m, SIZE) && 0 <= c < SIZE
    ensures var m' := m[8 := m[8][c := ch]];
      |m'| == SIZE && IsRect(m', SIZE)
      && forall r, j :: InRange(r, j) ==> m'[r][j] == if r == 8 && j == c then ch else m[r][j]
  {
  }

  // ---------------------------------------------------------------------
  // The embedder as written

  /** After the horizontal writes of the source. */
  ghost predicate AsWrittenRow(m: Matrix, h: Matrix, fi: string)
    requires |m| == SIZE && IsRect(m, SIZE) && |h| == SIZE && IsRect(h, SIZE) && |fi| == 15
  {
    forall r, c {:trigger h[r][c]} :: InRange(r, c) ==>
      h[r][c] == if r == 8 && c <= 5 then fi[c]
        else if r == 8 && c == 7 then fi[7]
        else if r == 8 && c >= 13 then fi[c - 6]
        else m[r][c]
  }

  /** After the vertical writes of the source on the transpose t, with the word reversed. */
  ghost predicate AsWrittenColumn(t: Matrix, v: Matrix, fi: string)
    requires |t| == SIZE && IsRect(t, SIZE) && |v| == SIZE && IsRect(v, SIZE) && |fi| == 15
  {
    forall r, c :: InRange(r, c) ==>
      v[r][c] == if r == 8 && (c <= 5 || c == 7 || c == 8) then fi[14 - c]
        else if r == 8 && c >= 14 then fi[20 - c]
        else t[r][c]
  }

  lemma AsWrittenRowWrites(m: Matrix, fi: string, m1: Matrix, m2: Matrix, m3: Matrix)
    requires |m| == SIZE && IsRect(m, SIZE) && |fi| == 15
    requires m1 == m[8 := WriteSlice(m[8], 0, fi[0..6])]
    requires m2 == m1[8 := m1[8][7 := fi[7]]]
    requires m3 == m2[8 := WriteSlice(m2[8], |m2[8]| - 8, fi[|fi| - 8..])]
    ensures |m3| == SIZE && IsRect(m3, SIZE) && AsWrittenRow(m, m3, fi)
  {
    RowWrite(m, 0, fi[0..6]);
    CellWrite(m1, 7, fi[7]);
    RowWrite(m2, 13, fi[7..]);
  }

  lemma AsWrittenColumnWrites(t: Matrix, fi: string, rev: string, t1: Matrix, t2: Matrix, t3: Matrix)
    requires |t| == SIZE && IsRect(t, SIZE) && |fi| == 15 && rev == Reverse(fi)
    requires t1 == t[8 := WriteSlice(t[8], 0, rev[0..6])]
    requires t2 == t1[8 := WriteSlice(t1[8], 7, rev[7..9])]
    requires t3 == t2[8 := WriteSlice(t2[8], |t2[8]| - 7, rev[|rev| - 7..])]
    ensures |t3| == SIZE && IsRect(t3, SIZE) && AsWrittenColumn(t, t3, fi)
  {
    RowWrite(t, 0, rev[0..6]);
    RowWrite(t1, 7, rev[7..9]);
    RowWrite(t2, 14, rev[8..]);
  }

  /** One module of the result: the two transposes cancel around the writes. */
  lemma AsWrittenCell(m: Matrix, fi: string, h: Matrix, t: Matrix, v: Matrix, res: Matrix, r: int, c: int)
    requires |m| == SIZE && IsRect(m, SIZE) && |fi| == 15
    requires |h| == SIZE && IsRect(h, SIZE) && AsWrittenRow(m, h, fi)
    requires |t| == SIZE && IsRect(t, SIZE) && |v| == SIZE && IsRect(v, SIZE) && AsWrittenColumn(t, v, fi)
    requires |res| == SIZE && IsRect(res, SIZE)
    requires InRange(r, c) && t[c][r] == h[r][c] && res[r][c] == v[c][r]
    ensures res[r][c] == WithFormat(m, fi, AsWritten)[r][c]
  {
    if c == 8 {
      assert v[8][r] == if r <= 5 || r == 7 || r == 8 then fi[14 - r]
        else if r >= 14 then fi[20 - r] else t[8][r];
    } else {
      assert v[c][r] == t[c][r];
    }
    assert h[r][c] == if r == 8 && c <= 5 then fi[c]
      else if r == 8 && c == 7 then fi[7]
      else if r == 8 && c >= 13 then fi[c - 6]
      else m[r][c];
  }

  lemma AsWrittenCells(m: Matrix, fi: string, h: Matrix, t: Matrix, v: Matrix, res: Matrix)
    requires |m| == SIZE && IsRect(m, SIZE) && |fi| == 15
    requires |h| == SIZE && IsRect(h, SIZE) && AsWrittenRow(m, h, fi)
    requires |t| == SIZE && IsRect(t, SIZE)
    requires forall r, c :: InRange(r, c) ==> t[c][r] == h[r][c]
    requires |v| == SIZE && IsRect(v, SIZE) && AsWrittenColumn(t, v, fi)
    requires |res| == SIZE && IsRect(res, SIZE)
    requires forall r, c :: InRange(r, c) ==> res[r][c] == v[c][r]
    ensures res == WithFormat(m, fi, AsWritten)
  {
    var w := WithFormat(m, fi, AsWritten);
    forall r | 0 <= r < SIZE
      ensures res[r] == w[r]
    {
      forall c | 0 <= c < SIZE
        ensures res[r][c] == w[r][c]
      {
        AsWrittenCell(m, fi, h, t, v, res, r, c);
      }
    }
  }

  /**
   * qr.py:279-291 as written: row 8 takes format_info[0:6], format_info[7] and
   * format_info[-8:]; the matrix is transposed, the word reversed, and row 8
   * of the transpose takes rev[0:6], rev[7:9] and rev[-7:]; then the word is
   * reversed and the matrix transposed back.
   */
  method EmbedFormatAsWritten(matrix0: Matrix, formatInfo: string) returns (matrix: Matrix)
    requires |matrix0| == SIZE && IsRect(matrix0, SIZE) && |formatInfo| == 15
    ensures matrix == WithFormat(matrix0, formatInfo, AsWritten)
  {
    var fi := formatInfo;
    matrix := matrix0;
    matrix := matrix[8 := WriteSlice(matrix[8], 0, fi[0..6])];
    ghost var m1 := matrix;
    matrix := matrix[8 := matrix[8][7 := fi[7]]];
    ghost var m2 := matrix;
    matrix := matrix[8 := WriteSlice(matrix[8], |matrix[8]| - 8, fi[|fi| - 8..])];
    AsWrittenRowWrites(matrix0, fi, m1, m2, matrix);
    ghost var h := matrix;

    TransposeCells(matrix, SIZE);
    matrix := Transpose(matrix);
    ghost var t := matrix;
    fi := Reverse(fi);
    matrix := matrix[8 := WriteSlice(matrix[8], 0, fi[0..6])];
    ghost var t1 := matrix;
    matrix := matrix[8 := WriteSlice(matrix[8], 7, fi[7..9])];
    ghost var t2 := matrix;
    matrix := matrix[8 := WriteSlice(matrix[8], |matrix[8]| - 7, fi[|fi| - 7..])];
    AsWrittenColumnWrites(t, formatInfo, fi, t1, t2, matrix);
    ghost var v := matrix;
    fi := Reverse(fi);

    TransposeCells(matrix, SIZE);
    matrix := Transpose(matrix);
    AsWrittenCells(matrix0, formatInfo, h, t, v, matrix);
  }

  // ---------------------------------------------------------------------
  // The embedder as the standard places the corner bits

  /** After the standard's horizontal writes: bits 0-5, bits 6-7 at columns 7-8, bits 7-14. */
  ghost predicate StandardRow(m: Matrix, h: Matrix, fi: string)
    requires |m| == SIZE && IsRect(m, SIZE) && |h| == SIZE && IsRect(h, SIZE) && |fi| == 15
  {
    forall r, c {:trigger h[r][c]} :: InRange(r, c) ==>
      h[r][c] == if r == 8 && c <= 5 then fi[c]
        else if r == 8 && (c == 7 || c == 8) then fi[c - 1]
        else if r == 8 && c >= 13 then fi[c - 6]
        else m[r][c]
  }

  /** After the standard's vertical writes on the transpose: bit 8 at (7, 8), (8, 8) left alone. */
  ghost predicate StandardColumn(t: Matrix, v: Matrix, fi: string)
    requires |t| == SIZE && IsRect(t, SIZE) && |v| == SIZE && IsRect(v, SIZE) && |fi| == 15
  {
    forall r, c :: InRange(r, c) ==>
      v[r][c] == if r == 8 && c <= 5 then fi[14 - c]
        else if r == 8 && c == 7 then fi[8]
        else if r == 8 && c >= 14 then fi[20 - c]
        else t[r][c]
  }

  lemma StandardRowWrites(m: Matrix, fi: string, m1: Matrix, m2: Matrix, m3: Matrix)
    requires |m| == SIZE && IsRect(m, SIZE) && |fi| == 15
    requires m1 == m[8 := WriteSlice(m[8], 0, fi[0..6])]
    requires m2 == m1[8 := WriteSlice(m1[8], 7, fi[6..8])]
    requires m3 == m2[8 := WriteSlice(m2[8], |m2[8]| - 8, fi[|fi| - 8..])]
    ensures |m3| == SIZE && IsRect(m3, SIZE) && StandardRow(m, m3, fi)
  {
    RowWrite(m, 0, fi[0..6]);
    RowWrite(m1, 7, fi[6..8]);
    RowWrite(m2, 13, fi[7..]);
  }

  lemma StandardColumnWrites(t: Matrix, fi: string, rev: string, t1: Matrix, t2: Matrix, t3: Matrix)
    requires |t| == SIZE && IsRect(t, SIZE) && |fi| == 15 && rev == Reverse(fi)
    requires t1 == t[8 := WriteSlice(t[8], 0, rev[0..6])]
    requires t2 == t1[8 := t1[8][7 := rev[6]]]
    requires t3 == t2[8 := WriteSlice(t2[8], |t2[8]| - 7, rev[|rev| - 7..])]
    ensures |t3| == SIZE && IsRect(t3, SIZE) && StandardColumn(t, t3, fi)
  {
    RowWrite(t, 0, rev[0..6]);
    CellWrite(t1, 7, rev[6]);
    RowWrite(t2, 14, rev[8..]);
  }

  lemma StandardCell(m: Matrix, fi: string, h: Matrix, t: Matrix, v: Matrix, res: Matrix, r: int, c: int)
    requires |m| == SIZE && IsRect(m, SIZE) && |fi| == 15
    requires |h| == SIZE && IsRect(h, SIZE) && StandardRow(m, h, fi)
    requires |t| == SIZE && IsRect(t, SIZE) && |v| == SIZE && IsRect(v, SIZE) && StandardColumn(t, v, fi)
    requires |res| == SIZE && IsRect(res, SIZE)
    requires InRange(r, c) && t[c][r] == h[r][c] && res[r][c] == v[c][r]
    ensures res[r][c] == WithFormat(m, fi, Standard)[r][c]
  {
    if c == 8 {
      assert v[8][r] == if r <= 5 then fi[14 - r]
        else if r == 7 then fi[8]
        else if r >= 14 then fi[20 - r] else t[8][r];
    } else {
      assert v[c][r] == t[c][r];
    }
    assert h[r][c] == if r == 8 && c <= 5 then fi[c]
      else if r == 8 && (c == 7 || c == 8) then fi[c - 1]
      else if r == 8 && c >= 13 then fi[c - 6]
      else m[r][c];
  }

  lemma StandardCells(m: Matrix, fi: string, h: Matrix, t: Matrix, v: Matrix, res: Matrix)
    requires |m| == SIZE && IsRect(m, SIZE) && |fi| == 15
    requires |h| == SIZE && IsRect(h, SIZE) && StandardRow(m, h, fi)
    requires |t| == SIZE && IsRect(t, SIZE)
    requires forall r, c :: InRange(r, c) ==> t[c][r] == h[r][c]
    requires |v| == SIZE && IsRect(v, SIZE) && StandardColumn(t, v, fi)
    requires |res| == SIZE && IsRect(res, SIZE)
    requires forall r, c :: InRange(r, c) ==> res[r][c] == v[c][r]
    ensures res == WithFormat(m, fi, Standard)
  {
    var w := WithFormat(m, fi, Standard);
    forall r | 0 <= r < SIZE
      ensures res[r] == w[r]
    {
      forall c | 0 <= c < SIZE
        ensures res[r][c] == w[r][c]
      {
        StandardCell(m, fi, h, t, v, res, r, c);
      }
    }
  }

  /**
   * The embedder with the corner modules as the standard has them: the same
   * slice writes and transposes, with format_info[6:8] written to columns 7-8
   * and rev[6] (bit 8) to column 7 of the transpose.
   */
  method EmbedFormat(matrix0: Matrix, formatInfo: string) returns (matrix: Matrix)
    requires |matrix0| == SIZE && IsRect(matrix0, SIZE) && |formatInfo| == 15
    ensures matrix == WithFormat(matrix0, formatInfo, Standard)
  {
    var fi := formatInfo;
    matrix := matrix0;
    matrix := matrix[8 := WriteSlice(matrix[8], 0, fi[0..6])];
    ghost var m1 := matrix;
    matrix := matrix[8 := WriteSlice(matrix[8], 7, fi[6..8])];
    ghost var m2 := matrix;
    matrix := matrix[8 := WriteSlice(matrix[8], |matrix[8]| - 8, fi[|fi| - 8..])];
    StandardRowWrites(matrix0, fi, m1, m2, matrix);
    ghost var h := matrix;

    TransposeCells(matrix, SIZE);
    matrix := Transpose(matrix);
    ghost var t := matrix;
    fi := Reverse(fi);
    matrix := matrix[8 := WriteSlice(matrix[8], 0, fi[0..6])];
    ghost var t1 := matrix;
    matrix := matrix[8 := matrix[8][7 := fi[6]]];
    ghost var t2 := matrix;
    matrix := matrix[8 := WriteSlice(matrix[8], |matrix[8]| - 7, fi[|fi| - 7..])];
    StandardColumnWrites(t, formatInfo, fi, t1, t2, matrix);
    ghost var v := matrix;
    fi := Reverse(fi);

    TransposeCells(matrix, SIZE);
    matrix := Transpose(matrix);
    StandardCells(matrix0, formatInfo, h, t, v, matrix);
  }

  // ---------------------------------------------------------------------
  // The two copies of the format word

  /** Where the standard puts bit k of the first copy, around the top-left finder. */
  function FirstCopy(k: nat): (p: (int, int))
    requires k < 15
    ensures InRange(p.0, p.1) && IsFormat(p.0, p.1) && FormatIndex(Standard, p.0, p.1) == k
  {
    if k <= 5 then (8, k)
    else if k == 6 then (8, 7)
    else if k == 7 then (8, 8)
    else if k == 8 then (7, 8)
    else (14 - k, 8)
  }

  /** Where the standard puts bit k of the second copy, by the other two finders. */
  function SecondCopy(k: nat): (p: (int, int))
    requires k < 15
    ensures InRange(p.0, p.1) && IsFormat(p.0, p.1) && FormatIndex(Standard, p.0, p.1) == k
  {
    if k <= 6 then (20 - k, 8) else (8, k + 6)
  }

  /** The two copies are disjoint, each is one-to-one, and together they cover the 30 format modules. */
  lemma CopiesPartition(j: nat, k: nat)
    requires j < 15 && k < 15
    ensures FirstCopy(j) != SecondCopy(k)
    ensures FirstCopy(j) == FirstCopy(k) ==> j == k
    ensures SecondCopy(j) == SecondCopy(k) ==> j == k
  {
  }

  lemma CopiesCover(r: int, c: int)
    requires InRange(r, c) && IsFormat(r, c)
    ensures var k := FormatIndex(Standard, r, c);
      FirstCopy(k) == (r, c) || SecondCopy(k) == (r, c)
  {
  }

  /** The format word as a reader takes it from the first copy. */
  function ReadFirst(m: Matrix): (fi: string)
    requires |m| == SIZE && IsRect(m, SIZE)
    ensures |fi| == 15
  {
    seq(15, k requires 0 <= k < 15 => m[FirstCopy(k).0][FirstCopy(k).1])
  }

  /** The format word as a reader takes it from the second copy. */
  function ReadSecond(m: Matrix): (fi: string)
    requires |m| == SIZE && IsRect(m, SIZE)
    ensures |fi| == 15
  {
    seq(15, k requires 0 <= k < 15 => m[SecondCopy(k).0][SecondCopy(k).1])
  }

  /** In the standard layout both copies read back the word that was written. */
  lemma StandardReadsBack(m: Matrix, fi: string)
    requires |m| == SIZE && IsRect(m, SIZE) && |fi| == 15
    ensures ReadFirst(WithFormat(m, fi, Standard)) == fi
    ensures ReadSecond(WithFormat(m, fi, Standard)) == fi
  {
  }

  /**
   * As written, the second copy reads back the word, and the first copy does
   * exactly when bits 6, 7 and 8 are equal.
   */
  lemma AsWrittenReadsBack(m: Matrix, fi: string)
    requires |m| == SIZE && IsRect(m, SIZE) && |fi| == 15
    ensures ReadSecond(WithFormat(m, fi, AsWritten)) == fi
    ensures ReadFirst(WithFormat(m, fi, AsWritten)) == fi <==> fi[6] == fi[7] == fi[8]
  {
    var w := ReadFirst(WithFormat(m, fi, AsWritten));
    assert w[6] == fi[7] && w[7] == fi[6] && w[8] == fi[7];
    if fi[6] == fi[7] == fi[8] {
      assert forall k :: 0 <= k < 15 ==> w[k] == fi[k];
    }
  }

  /** The two layouts produce the same symbol exactly when bits 6, 7 and 8 are equal. */
  lemma LayoutsAgree(m: Matrix, fi: string)
    requires |m| == SIZE && IsRect(m, SIZE) && |fi| == 15
    ensures WithFormat(m, fi, AsWritten) == WithFormat(m, fi, Standard) <==> fi[6] == fi[7] == fi[8]
  {
    var a, b := WithFormat(m, fi, AsWritten), WithFormat(m, fi, Standard);
    if a == b {
      assert a[8][7] == fi[7] && b[8][7] == fi[6];
      assert a[7][8] == fi[7] && b[7][8] == fi[8];
    }
    if fi[6] == fi[7] == fi[8] {
      forall r | 0 <= r < SIZE
        ensures a[r] == b[r]
      {
      }
    }
  }

  /** The source's one format word has bits 6, 7 and 8 all set, so its embedder is not affected. */
  lemma FixedLayoutsAgree(m: Matrix)
    requires |m| == SIZE && IsRect(m, SIZE)
    ensures WithFormat(m, FORMAT_INFO, AsWritten) == WithFormat(m, FORMAT_INFO, Standard)
  {
    LayoutsAgree(m, FORMAT_INFO);
  }

  /**
   * The cells the source's slice writes reach: row 8 and column 8 beside the
   * top-left finder, row 8 by the top-right finder and column 8 by the
   * bottom-left one; every other module keeps its value.
   */
  lemma AsWrittenPositions(m: Matrix, fi: string)
    requires |m| == SIZE && IsRect(m, SIZE) && |fi| == 15
    ensures var h := WithFormat(m, fi, AsWritten);
      (forall k :: 0 <= k < 6 ==> h[8][k] == fi[k] && h[k][8] == fi[14 - k])
      && h[8][7] == fi[7] && h[8][8] == fi[6] && h[7][8] == fi[7]
      && (forall c :: 13 <= c < SIZE ==> h[8][c] == fi[c - 6])
      && (forall r :: 14 <= r < SIZE ==> h[r][8] == fi[20 - r])
      && (forall r, c :: InRange(r, c) && !IsFormat(r, c) ==> h[r][c] == m[r][c])
  {
  }

  /**
   * The format word for level H with mask 000: bits 6 and 7 differ, and the
   * source's embedder writes a first copy that reads back as a different word.
   */
  lemma AsWrittenMisplaces(m: Matrix)
    requires |m| == SIZE && IsRect(m, SIZE)
    ensures ReadFirst(WithFormat(m, "001011010001001", AsWritten)) != "001011010001001"
    ensures ReadFirst(WithFormat(m, "001011010001001", Standard)) == "001011010001001"
  {
    AsWrittenReadsBack(m, "001011010001001");
    StandardReadsBack(m, "001011010001001");
  }

  /** A symbol whose only non-module cells are format cells is complete once a bit string is embedded. */
  lemma FormatCompletes(m: Matrix, fi: string, layout: Layout)
    requires |m| == SIZE && IsRect(m, SIZE) && |fi| == 15 && IsBits(fi)
    requires forall r, c :: InRange(r, c) && !IsFormat(r, c) ==> IsModule(m[r][c])
    ensures forall r, c :: InRange(r, c) ==> IsModule(WithFormat(m, fi, layout)[r][c])
  {
  }

  /** The format modules are the '2' modules of the template. */
  lemma FormatModules(r: int, c: int)
    requires InRange(r, c)
    ensures IsFormat(r, c) <==> TEMPLATE[r][c] == '2'
  {
    TemplateClassified();
    assert Classified(r, c);
  }
}
