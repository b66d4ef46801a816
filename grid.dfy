/**
 * The text form of a symbol and its matrix form (qr.py:45-54, 92-107): a
 * symbol string is one line per row, each line ended by a newline; the
 * matrix is the list of rows, each row a list of one-character cells.
 */
module Grid {
  import opened Bits

  type Matrix = seq<seq<char>>

  const NEWLINE: char := '\n'

  /** s.split(sep): the pieces between separators, always at least one. */
  function Split(s: string, sep: char): (parts: seq<string>)
    ensures |parts| >= 1
    decreases |s|
  {
    if |s| == 0 then [""]
    else if s[0] == sep then [""] + Split(s[1..], sep)
    else
      var rest := Split(s[1..], sep);
      [[s[0]] + rest[0]] + rest[1..]
  }

  /** sep.join(parts); the join of no parts is the empty string. */
  function Join(parts: seq<string>, sep: char): string
  {
    if |parts| == 0 then ""
    else if |parts| == 1 then parts[0]
    else parts[0] + [sep] + Join(parts[1..], sep)
  }

  predicate NoSep(parts: seq<string>, sep: char)
  {
    forall i :: 0 <= i < |parts| ==> sep !in parts[i]
  }

  /** A piece of a split never holds the separator. */
  lemma {:induction false} SplitNoSep(s: string, sep: char)
    ensures NoSep(Split(s, sep), sep)
    decreases |s|
  {
    if |s| > 0 {
      SplitNoSep(s[1..], sep);
      var rest := Split(s[1..], sep);
      if s[0] != sep {
        assert [s[0]] + rest[0] == [s[0]] + rest[0];
        forall i | 0 <= i < |Split(s, sep)|
          ensures sep !in Split(s, sep)[i]
        {
          if i == 0 {
            assert sep !in rest[0];
          } else {
            assert Split(s, sep)[i] == rest[i];
          }
        }
      } else {
        forall i | 0 <= i < |Split(s, sep)|
          ensures sep !in Split(s, sep)[i]
        {
          if i > 0 {
            assert Split(s, sep)[i] == rest[i - 1];
          }
        }
      }
    }
  }

  lemma JoinConsHead(c: char, p: string, ps: seq<string>, sep: char)
    ensures Join([[c] + p] + ps, sep) == [c] + Join([p] + ps, sep)
  {
    if |ps| > 0 {
      assert ([[c] + p] + ps)[1..] == ps;
      assert ([p] + ps)[1..] == ps;
    }
  }

  lemma JoinCons(p: string, ps: seq<string>, sep: char)
    requires |ps| >= 1
    ensures Join([p] + ps, sep) == p + [sep] + Join(ps, sep)
  {
    assert ([p] + ps)[1..] == ps;
  }

  /** Joining the pieces of a split gives the string back. */
  lemma {:induction false} JoinSplit(s: string, sep: char)
    ensures Join(Split(s, sep), sep) == s
    decreases |s|
  {
    if |s| > 0 {
      JoinSplit(s[1..], sep);
      var rest := Split(s[1..], sep);
      if s[0] == sep {
        JoinCons("", rest, sep);
        assert s == [s[0]] + s[1..];
      } else {
        assert rest == [rest[0]] + rest[1..];
        JoinConsHead(s[0], rest[0], rest[1..], sep);
        assert s == [s[0]] + s[1..];
      }
    }
  }

  /** A piece without the separator splits to itself. */
  lemma {:induction false} SplitPlain(p: string, sep: char)
    requires sep !in p
    ensures Split(p, sep) == [p]
    decreases |p|
  {
    if |p| > 0 {
      SplitPlain(p[1..], sep);
      assert [p[0]] + p[1..] == p;
    }
  }

  /** A piece followed by the separator splits off first. */
  lemma {:induction false} SplitAfter(p: string, s: string, sep: char)
    requires sep !in p
    ensures Split(p + [sep] + s, sep) == [p] + Split(s, sep)
    decreases |p|
  {
    if |p| == 0 {
      assert p + [sep] + s == [sep] + s;
      assert ([sep] + s)[1..] == s;
    } else {
      var t := p + [sep] + s;
      assert t[1..] == p[1..] + [sep] + s;
      SplitAfter(p[1..], s, sep);
      assert [p[0]] + p[1..] == p;
    }
  }

  /** Splitting a join of separator-free pieces gives the pieces back. */
  lemma {:induction false} SplitJoin(parts: seq<string>, sep: char)
    requires |parts| >= 1 && NoSep(parts, sep)
    ensures Split(Join(parts, sep), sep) == parts
  {
    if |parts| == 1 {
      SplitPlain(parts[0], sep);
    } else {
      SplitJoin(parts[1..], sep);
      SplitAfter(parts[0], Join(parts[1..], sep), sep);
      assert parts == [parts[0]] + parts[1..];
    }
  }

  // ---------------------------------------------------------------------
  // convert_str_to_matrix and convert_matrix_to_str

  /** buf.split('\n')[:-1], each line a list of cells (qr.py:92-98). */
  function StrToMatrix(buf: string): (m: Matrix)
    ensures |m| == |Split(buf, NEWLINE)| - 1
    ensures NoSep(m, NEWLINE)
  {
    SplitNoSep(buf, NEWLINE);
    var lines := Split(buf, NEWLINE);
    lines[..|lines| - 1]
  }

  /** '\n'.join(rows) + '\n' (qr.py:101-107). */
  function MatrixToStr(m: Matrix): (buf: string)
    ensures |buf| > 0 && buf[|buf| - 1] == NEWLINE
  {
    Join(m, NEWLINE) + [NEWLINE]
  }

  lemma {:induction false} SplitNewlineEnd(parts: seq<string>)
    requires |parts| >= 1 && NoSep(parts, NEWLINE)
    ensures Split(Join(parts, NEWLINE) + [NEWLINE], NEWLINE) == parts + [""]
  {
    var last := parts[|parts| - 1];
    if |parts| == 1 {
      SplitAfter(parts[0], "", NEWLINE);
      assert parts[0] + [NEWLINE] + "" == parts[0] + [NEWLINE];
    } else {
      SplitNewlineEnd(parts[1..]);
      assert Join(parts, NEWLINE) + [NEWLINE]
        == parts[0] + [NEWLINE] + (Join(parts[1..], NEWLINE) + [NEWLINE]);
      SplitAfter(parts[0], Join(parts[1..], NEWLINE) + [NEWLINE], NEWLINE);
      assert parts == [parts[0]] + parts[1..];
    }
  }

  /**
   * A matrix of one or more rows printed and read back is the same matrix.
   * (No rows print as a lone newline, which reads back as one empty row.)
   */
  lemma MatrixRoundTrip(m: Matrix)
    requires |m| >= 1 && NoSep(m, NEWLINE)
    ensures StrToMatrix(MatrixToStr(m)) == m
  {
    SplitNewlineEnd(m);
  }

  lemma EmptyMatrixString()
    ensures MatrixToStr([]) == [NEWLINE]
    ensures StrToMatrix(MatrixToStr([])) == [""]
  {
    assert Split([NEWLINE], NEWLINE) == [""] + Split([], NEWLINE);
  }

  /** A symbol string ending in a newline, read and printed back, is the same string. */
  lemma StringRoundTrip(buf: string)
    requires |buf| > 0 && buf[|buf| - 1] == NEWLINE
    ensures MatrixToStr(StrToMatrix(buf)) == buf
  {
    var x := buf[..|buf| - 1];
    assert buf == x + [NEWLINE];
    var parts := Split(x, NEWLINE);
    SplitNoSep(x, NEWLINE);
    JoinSplit(x, NEWLINE);
    SplitNewlineEnd(parts);
    assert Split(buf, NEWLINE) == parts + [""];
    assert (parts + [""])[..|parts|] == parts;
    assert StrToMatrix(buf) == parts;
  }

  // ---------------------------------------------------------------------
  // add_padding

  /** Every row holds exactly w cells. */
  predicate IsRect(m: Matrix, w: nat)
  {
    forall i :: 0 <= i < |m| ==> |m[i]| == w
  }

  function Frame(m: Matrix): (lines: seq<string>)
    ensures |lines| == |m|
  {
    seq(|m|, i requires 0 <= i < |m| => "0000" + m[i] + "0000")
  }

  /**
   * A quiet zone of four light modules on every side (qr.py:45-54). A text
   * with no newline has no lines, and lines[0] at qr.py:51 raises IndexError:
   * that is None.
   */
  function AddPadding(qrstr: string): (padded: Option<string>)
    ensures padded.None? <==> NEWLINE !in qrstr
    ensures padded.Some? ==> |StrToMatrix(padded.value)| == |StrToMatrix(qrstr)| + 8
  {
    var lines := StrToMatrix(qrstr);
    SplitLines(qrstr);
    if lines == [] then
      None
    else
      var framed := Frame(lines);
      var paddingLine := Zeros(|framed[0]|);
      var all := [paddingLine, paddingLine, paddingLine, paddingLine] + framed
        + [paddingLine, paddingLine, paddingLine, paddingLine];
      PaddedNoSep(lines, paddingLine);
      MatrixRoundTrip(all);
      Some(MatrixToStr(all))
  }

  /** A string splits at newlines into two or more pieces exactly when it holds one. */
  lemma SplitLines(s: string)
    ensures NEWLINE in s <==> |Split(s, NEWLINE)| >= 2
  {
    if NEWLINE in s {
      SplitTwo(s);
    } else {
      SplitWithout(s, NEWLINE);
    }
  }

  /** A string without the separator is its own only piece. */
  lemma {:induction false} SplitWithout(s: string, sep: char)
    requires sep !in s
    ensures Split(s, sep) == [s]
    decreases |s|
  {
    if |s| > 0 {
      assert sep !in s[1..] by {
        forall i | 0 <= i < |s[1..]|
          ensures s[1..][i] != sep
        {
          assert s[1..][i] == s[i + 1];
        }
      }
      SplitWithout(s[1..], sep);
      assert [s[0]] + s[1..] == s;
    }
  }

  /** Framing newline-free lines and adding zero lines keeps every line newline-free. */
  lemma PaddedNoSep(lines: Matrix, pad: string)
    requires NoSep(lines, NEWLINE) && NEWLINE !in pad
    ensures NoSep([pad, pad, pad, pad] + Frame(lines) + [pad, pad, pad, pad], NEWLINE)
  {
    var all := [pad, pad, pad, pad] + Frame(lines) + [pad, pad, pad, pad];
    forall i | 0 <= i < |all|
      ensures NEWLINE !in all[i]
    {
      if 4 <= i < |lines| + 4 {
        var row := lines[i - 4];
        assert all[i] == "0000" + row + "0000";
        assert forall j :: 0 <= j < |all[i]| ==> all[i][j] == '0' || all[i][j] in row;
      } else {
        assert all[i] == pad;
      }
    }
  }

  /** A string holding a newline splits into at least two pieces. */
  lemma {:induction false} SplitTwo(s: string)
    requires NEWLINE in s
    ensures |Split(s, NEWLINE)| >= 2
    decreases |s|
  {
    if s[0] != NEWLINE {
      assert NEWLINE in s[1..] by {
        var i :| 0 <= i < |s| && s[i] == NEWLINE;
        assert s[1..][i - 1] == NEWLINE;
      }
      SplitTwo(s[1..]);
    }
  }

  /** The matrix m with four light rows and columns added on every side. */
  function Quiet(m: Matrix, w: nat): (q: Matrix)
    requires IsRect(m, w)
    ensures |q| == |m| + 8 && IsRect(q, w + 8)
  {
    seq(|m| + 8, r requires 0 <= r < |m| + 8 =>
      seq(w + 8, c requires 0 <= c < w + 8 =>
        if 4 <= r < |m| + 4 && 4 <= c < w + 4 then m[r - 4][c - 4] else '0'))
  }

  lemma FramedRow(row: string, w: nat)
    requires |row| == w
    ensures |"0000" + row + "0000"| == w + 8
    ensures forall c :: 0 <= c < w + 8 ==>
      ("0000" + row + "0000")[c] == if 4 <= c < w + 4 then row[c - 4] else '0'
  {
  }

  /** A rectangular matrix of one or more rows gains the quiet zone and nothing else. */
  lemma AddPaddingQuiet(m: Matrix, w: nat)
    requires |m| >= 1 && IsRect(m, w) && NoSep(m, NEWLINE)
    ensures NEWLINE in MatrixToStr(m) && AddPadding(MatrixToStr(m)).Some?
    ensures StrToMatrix(AddPadding(MatrixToStr(m)).value) == Quiet(m, w)
  {
    var buf := MatrixToStr(m);
    assert buf[|buf| - 1] == NEWLINE;
    MatrixRoundTrip(m);
    var framed := Frame(m);
    var line := Zeros(|framed[0]|);
    FramedRow(m[0], w);
    var all := [line, line, line, line] + framed + [line, line, line, line];
    assert NoSep(all, NEWLINE) by {
      forall i | 0 <= i < |all|
        ensures NEWLINE !in all[i]
      {
        if 4 <= i < |m| + 4 {
          assert all[i] == "0000" + m[i - 4] + "0000";
        } else {
          assert all[i] == line;
        }
      }
    }
    MatrixRoundTrip(all);
    var q := Quiet(m, w);
    assert |all| == |q|;
    forall r | 0 <= r < |q|
      ensures all[r] == q[r]
    {
      if 4 <= r < |m| + 4 {
        assert all[r] == "0000" + m[r - 4] + "0000";
        FramedRow(m[r - 4], w);
      } else {
        assert all[r] == line;
      }
    }
  }

  // ---------------------------------------------------------------------
  // Transpose

  /** The length of the shortest row, 0 for no rows: zip stops at the shortest input. */
  function MinWidth(m: Matrix): (w: nat)
    ensures forall i :: 0 <= i < |m| ==> w <= |m[i]|
    ensures |m| > 0 ==> exists i :: 0 <= i < |m| && w == |m[i]|
  {
    if |m| == 0 then 0
    else if |m| == 1 then |m[0]|
    else
      var rest := MinWidth(m[1..]);
      assert forall i :: 1 <= i < |m| ==> m[i] == m[1..][i - 1];
      if |m[0]| <= rest then |m[0]| else rest
  }

  /** list(map(list, zip(*m))): column j of m becomes row j. */
  function Transpose(m: Matrix): (t: Matrix)
    ensures |t| == MinWidth(m)
    ensures forall j :: 0 <= j < |t| ==> |t[j]| == |m|
  {
    seq(MinWidth(m), j requires 0 <= j < MinWidth(m) =>
      seq(|m|, i requires 0 <= i < |m| => m[i][j]))
  }

  /** On a rectangular matrix the transpose swaps the indices. */
  lemma TransposeCells(m: Matrix, w: nat)
    requires |m| > 0 && IsRect(m, w)
    ensures |Transpose(m)| == w && IsRect(Transpose(m), |m|)
    ensures forall i, j :: 0 <= i < |m| && 0 <= j < w ==> Transpose(m)[j][i] == m[i][j]
  {
  }

  /** Transposing a non-empty rectangular matrix twice gives it back. */
  lemma TransposeTwice(m: Matrix, w: nat)
    requires |m| > 0 && w > 0 && IsRect(m, w)
    ensures Transpose(Transpose(m)) == m
  {
    TransposeCells(m, w);
    TransposeCells(Transpose(m), |m|);
    var tt := Transpose(Transpose(m));
    forall i | 0 <= i < |m|
      ensures tt[i] == m[i]
    {
      assert |tt[i]| == w;
    }
  }
}
