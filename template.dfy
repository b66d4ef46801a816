/**
 * The version 1 symbol skeleton of qr.py:188-208: 21 rows of 21 modules,
 * '0' light and '1' dark function modules (finders, separators, timing
 * patterns and the dark module), '2' modules reserved for format information
 * and '3' modules that carry data and error-correction bits.
 */
module Template {
  import opened Grid

  const SIZE: nat := 21

  const TEMPLATE: Matrix := [
      "111111102333301111111",
      "100000102333301000001",
      "101110102333301011101",
      "101110102333301011101",
      "101110102333301011101",
      "100000102333301000001",
      "111111101010101111111",
      "000000002333300000000",
      "222222122333322222222",
      "333333033333333333333",
      "333333133333333333333",
      "333333033333333333333",
      "333333133333333333333",
      "000000001333333333333",
      "111111102333333333333",
      "100000102333333333333",
      "101110102333333333333",
      "101110102333333333333",
      "101110102333333333333",
      "100000102333333333333",
      "111111102333333333333"
    ]

  predicate InRange(r: int, c: int)
  {
    0 <= r < SIZE && 0 <= c < SIZE
  }

  /** The data region: everything outside the finders, separators, timing and format areas. */
  predicate IsData(r: int, c: int)
  {
    ((r <= 5 || r == 7 || r == 8) && 9 <= c <= 12) || (9 <= r <= 12 && c != 6) || (13 <= r && 9 <= c)
  }

  /** The 30 format-information modules beside the top-left finder and by the other two. */
  predicate IsFormat(r: int, c: int)
  {
    (r == 8 && (c <= 5 || c == 7 || c == 8 || c >= 13)) || (c == 8 && (r <= 5 || r == 7 || r >= 14))
  }

  predicate IsModule(ch: char)
  {
    ch == '0' || ch == '1'
  }

  /** What the template holds at (r, c), in terms of the two regions. */
  predicate Classified(r: int, c: int)
    requires InRange(r, c) && |TEMPLATE| == SIZE && |TEMPLATE[r]| == SIZE
  {
    (TEMPLATE[r][c] == '3' <==> IsData(r, c))
    && (TEMPLATE[r][c] == '2' <==> IsFormat(r, c))
    && (IsModule(TEMPLATE[r][c]) <==> !IsData(r, c) && !IsFormat(r, c))
  }

  lemma TemplateShape()
    ensures |TEMPLATE| == SIZE && IsRect(TEMPLATE, SIZE)
  {
  }

  lemma RowsClassified0To2()
    ensures forall r, c :: 0 <= r < 3 && 0 <= c < SIZE ==> Classified(r, c)
  {
  }

  lemma RowsClassified3To5()
    ensures forall r, c :: 3 <= r < 6 && 0 <= c < SIZE ==> Classified(r, c)
  {
  }

  lemma RowsClassified6To8()
    ensures forall r, c :: 6 <= r < 9 && 0 <= c < SIZE ==> Classified(r, c)
  {
  }

  lemma RowsClassified9To11()
    ensures forall r, c :: 9 <= r < 12 && 0 <= c < SIZE ==> Classified(r, c)
  {
  }

  lemma RowsClassified12To14()
    ensures forall r, c :: 12 <= r < 15 && 0 <= c < SIZE ==> Classified(r, c)
  {
  }

  lemma RowsClassified15To17()
    ensures forall r, c :: 15 <= r < 18 && 0 <= c < SIZE ==> Classified(r, c)
  {
  }

  lemma RowsClassified18To20()
    ensures forall r, c :: 18 <= r < 21 && 0 <= c < SIZE ==> Classified(r, c)
  {
  }

  /**
   * Every module of the template is a function module, a format module or a
   * data module, exactly as the two region predicates say.
   */
  lemma TemplateClassified()
    ensures |TEMPLATE| == SIZE && IsRect(TEMPLATE, SIZE)
    ensures forall r, c :: InRange(r, c) ==> Classified(r, c)
  {
    RowsClassified0To2();
    RowsClassified3To5();
    RowsClassified6To8();
    RowsClassified9To11();
    RowsClassified12To14();
    RowsClassified15To17();
    RowsClassified18To20();
  }

  /** The template has no newline in any row, so its text form reads back unchanged. */
  lemma TemplateText()
    ensures StrToMatrix(MatrixToStr(TEMPLATE)) == TEMPLATE
  {
    assert NoSep(TEMPLATE, NEWLINE);
    MatrixRoundTrip(TEMPLATE);
  }
}
