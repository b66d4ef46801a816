/**
 * Mask pattern 011 of qr.py:255-266: every module that is a data module of
 * the template and whose row and column add up to a multiple of 3 is
 * inverted. The source fixes the mask and does not score the other seven.
 */
module Masking {
  import opened Grid
  import opened Template

  /** str.translate(str.maketrans('01', '10')) on one character: 0 and 1 swap, anything else stays. */
  function Flip(ch: char): (r: char)
    ensures IsModule(ch) <==> IsModule(r)
    ensures IsModule(ch) ==> r != ch
    ensures !IsModule(ch) ==> r == ch
  {
    if ch == '0' then '1' else if ch == '1' then '0' else ch
  }

  lemma FlipFlip(ch: char)
    ensures Flip(Flip(ch)) == ch
  {
  }

  /** The cells the loop inverts: '3' in the base template and (x + y) mod 3 == 0. */
  predicate Toggled(r: int, c: int)
    requires InRange(r, c)
  {
    TemplateShape();
    TEMPLATE[r][c] == '3' && (c + r) % 3 == 0
  }

  /** The masked symbol: toggled cells inverted, all others as they were. */
  function Masked(m: Matrix): (res: Matrix)
    requires |m| == SIZE && IsRect(m, SIZE)
    ensures |res| == SIZE && IsRect(res, SIZE)
  {
    seq(SIZE, r requires 0 <= r < SIZE =>
      seq(SIZE, c requires 0 <= c < SIZE =>
        if Toggled(r, c) then Flip(m[r][c]) else m[r][c]))
  }

  /** The state of the loop before cell (y, x): the toggled cells before it are inverted. */
  function MaskedUpTo(m: Matrix, y: int, x: int): (res: Matrix)
    requires |m| == SIZE && IsRect(m, SIZE)
    ensures |res| == SIZE && IsRect(res, SIZE)
  {
    seq(SIZE, r requires 0 <= r < SIZE =>
      seq(SIZE, c requires 0 <= c < SIZE =>
        if Toggled(r, c) && (r < y || (r == y && c < x)) then Flip(m[r][c]) else m[r][c]))
  }

  lemma MaskStart(m: Matrix)
    requires |m| == SIZE && IsRect(m, SIZE)
    ensures MaskedUpTo(m, 0, 0) == m
  {
    var u := MaskedUpTo(m, 0, 0);
    forall r | 0 <= r < SIZE
      ensures u[r] == m[r]
    {
    }
  }

  /** One turn of the inner loop. */
  lemma MaskStep(m: Matrix, y: int, x: int)
    requires |m| == SIZE && IsRect(m, SIZE) && InRange(y, x)
    ensures var u := MaskedUpTo(m, y, x);
      u[y][x] == m[y][x]
      && MaskedUpTo(m, y, x + 1) == if Toggled(y, x) then u[y := u[y][x := Flip(u[y][x])]] else u
  {
    var u, v := MaskedUpTo(m, y, x), MaskedUpTo(m, y, x + 1);
    var w := if Toggled(y, x) then u[y := u[y][x := Flip(u[y][x])]] else u;
    forall r | 0 <= r < SIZE
      ensures v[r] == w[r]
    {
      forall c | 0 <= c < SIZE
        ensures v[r][c] == w[r][c]
      {
      }
    }
  }

  /** The end of a row is the start of the next. */
  lemma MaskRowDone(m: Matrix, y: int)
    requires |m| == SIZE && IsRect(m, SIZE) && 0 <= y < SIZE
    ensures MaskedUpTo(m, y, SIZE) == MaskedUpTo(m, y + 1, 0)
  {
    var u, v := MaskedUpTo(m, y, SIZE), MaskedUpTo(m, y + 1, 0);
    forall r | 0 <= r < SIZE
      ensures u[r] == v[r]
    {
    }
  }

  lemma MaskDone(m: Matrix)
    requires |m| == SIZE && IsRect(m, SIZE)
    ensures MaskedUpTo(m, SIZE, 0) == Masked(m)
  {
    var u, v := MaskedUpTo(m, SIZE, 0), Masked(m);
    forall r | 0 <= r < SIZE
      ensures u[r] == v[r]
    {
    }
  }

  /**
   * The nested loops of qr.py:259-266 over y and x in range(0, 21), testing
   * the base template and inverting in place.
   */
  method ApplyMask(matrix0: Matrix) returns (matrix: Matrix)
    requires |matrix0| == SIZE && IsRect(matrix0, SIZE)
    ensures matrix == Masked(matrix0)
  {
    TemplateShape();
    var baseMatrix := TEMPLATE;
    matrix := matrix0;
    MaskStart(matrix0);
    for y := 0 to SIZE
      invariant matrix == MaskedUpTo(matrix0, y, 0)
    {
      for x := 0 to SIZE
        invariant matrix == MaskedUpTo(matrix0, y, x)
      {
        MaskStep(matrix0, y, x);
        if baseMatrix[y][x] == '3' && (x + y) % 3 == 0 {
          matrix := matrix[y := matrix[y][x := Flip(matrix[y][x])]];
        }
      }
      MaskRowDone(matrix0, y);
    }
    MaskDone(matrix0);
  }

  /** The cells the loop inverts are exactly the data modules with (row + column) mod 3 == 0. */
  lemma ToggledData(r: int, c: int)
    requires InRange(r, c)
    ensures Toggled(r, c) <==> IsData(r, c) && (r + c) % 3 == 0
  {
    TemplateClassified();
    assert Classified(r, c);
  }

  /**
   * A module changes exactly when it is a data module with (row + column)
   * mod 3 == 0 and holds a bit; function and format modules never change.
   */
  lemma MaskChanges(m: Matrix, r: int, c: int)
    requires |m| == SIZE && IsRect(m, SIZE) && InRange(r, c)
    ensures Masked(m)[r][c] != m[r][c] <==> IsData(r, c) && (r + c) % 3 == 0 && IsModule(m[r][c])
    ensures !IsData(r, c) ==> Masked(m)[r][c] == m[r][c]
    ensures IsModule(Masked(m)[r][c]) <==> IsModule(m[r][c])
  {
    ToggledData(r, c);
  }

  /** Applying the mask twice gives the matrix back. */
  lemma MaskTwice(m: Matrix)
    requires |m| == SIZE && IsRect(m, SIZE)
    ensures Masked(Masked(m)) == m
  {
    var u := Masked(Masked(m));
    forall r | 0 <= r < SIZE
      ensures u[r] == m[r]
    {
      forall c | 0 <= c < SIZE
        ensures u[r][c] == m[r][c]
      {
        FlipFlip(m[r][c]);
      }
    }
  }
}
