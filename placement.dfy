/**
 * Data placement of qr_encode (qr.py:211-253): the 208 data and
 * error-correction bits go into the '3' modules in the standard order, two
 * columns at a time from the right, upwards and downwards in turn, skipping
 * the vertical timing pattern in column 6.
 *
 * The order is defined by the source's own cursor moves (Move, Walk). It is
 * then shown to be the strip order: step k = 42 s + t lies in strip s, a
 * pair of columns, and visits row t / 2 of it, right column when t is even
 * and left column when t is odd.
 */
module Placement {
  import opened Bits
  import opened Grid
  import opened Template

  /** Steps in the ten strips. */
  const STEPS: nat := 420
  const DATA_BITS: nat := 208
  /** The step after the last data module, (12, 0). */
  const LAST: nat := 404

  datatype Side = Right | Left

  /**
   * The placement cursor of qr.py:218-220: the module (x, y) about to be
   * visited, the vertical direction (-1 up, 1 down) and the side of the
   * column pair.
   */
  datatype Cursor = Cursor(x: int, y: int, direction: int, pos: Side)

  /** One move of the cursor, as qr.py:230-251 makes it. */
  function Move(c: Cursor): Cursor
  {
    if c.pos == Right then
      c.(x := c.x - 1, pos := Left)
    else
      var d :=
        if c.direction == -1 && c.y == 0 then Cursor(c.x - 1, c.y, 1, Right)
        else if c.direction == 1 && c.y == 20 then Cursor(c.x - 1, c.y, -1, Right)
        else Cursor(c.x + 1, c.y + c.direction, c.direction, Right);
      if d.x == 6 then d.(x := d.x - 1) else d
  }

  /** The cursor after n moves from c. */
  function Advance(c: Cursor, n: nat): Cursor
    decreases n
  {
    if n == 0 then c else Advance(Move(c), n - 1)
  }

  /** The last of n moves is made from where the first n - 1 led. */
  lemma {:induction false} AdvanceLast(c: Cursor, n: nat)
    requires n > 0
    ensures Advance(c, n) == Move(Advance(c, n - 1))
    decreases n
  {
    if n > 1 {
      AdvanceLast(Move(c), n - 1);
    }
  }

  /** The cursor after k moves from the bottom-right corner, where qr.py:218-220 starts it. */
  function Walk(k: nat): Cursor
  {
    Advance(Cursor(20, 20, -1, Right), k)
  }

  /** Each step moves on from the previous one. */
  lemma WalkStep(k: nat)
    requires k > 0
    ensures Walk(k) == Move(Walk(k - 1))
  {
    AdvanceLast(Cursor(20, 20, -1, Right), k);
  }

  /** Step k visits a data module. */
  predicate DataAt(k: nat)
  {
    IsData(Walk(k).y, Walk(k).x)
  }

  /** The number of data modules among the first k steps: the loop's bit index. */
  function Count(k: nat): nat
  {
    if k == 0 then 0 else Count(k - 1) + (if DataAt(k - 1) then 1 else 0)
  }

  // ---------------------------------------------------------------------
  // The walk in strips

  /** The right column of strip s; strips 7 to 9 lie left of the timing column. */
  function RightCol(s: nat): int
  {
    if s < 7 then 20 - 2 * s else 19 - 2 * s
  }

  /** The column visited at step t of strip s: the right one first. */
  function ColIn(s: nat, t: nat): int
  {
    RightCol(s) - t % 2
  }

  /** The row visited at step t of strip s: even strips go up, odd strips down. */
  function RowIn(s: nat, t: nat): int
  {
    if s % 2 == 0 then 20 - t / 2 else t / 2
  }

  /** The cursor at step t of strip s. */
  function CursorIn(s: nat, t: nat): Cursor
  {
    Cursor(ColIn(s, t), RowIn(s, t),
      if s % 2 == 0 then -1 else 1,
      if t % 2 == 0 then Right else Left)
  }

  lemma MoveInside(s: nat, t: nat)
    requires s < 10 && t < 41
    ensures Move(CursorIn(s, t)) == CursorIn(s, t + 1)
  {
  }

  lemma MoveAcross(s: nat)
    requires s < 9
    ensures Move(CursorIn(s, 41)) == CursorIn(s + 1, 0)
  {
  }

  /**
   * The cursor moves of the source visit the ten strips in order, each one
   * row by row in its direction, right column before left.
   */
  lemma {:induction false} WalkIn(k: nat, s: nat, t: nat)
    requires k == 42 * s + t && s < 10 && t < 42
    ensures Walk(k) == CursorIn(s, t)
  {
    if t > 0 {
      WalkIn(k - 1, s, t - 1);
      MoveInside(s, t - 1);
      WalkStep(k);
    } else if s > 0 {
      WalkIn(k - 1, s - 1, 41);
      MoveAcross(s - 1);
      WalkStep(k);
    }
  }

  // ---------------------------------------------------------------------
  // Counting data modules

  /** Data modules in rows 0 .. n - 1 of column c. */
  function ColPrefix(c: int, n: nat): nat
  {
    if c >= 13 then (if n <= 9 then 0 else n - 9)
    else if 9 <= c then (if n <= 6 then n else n - 1)
    else if c == 6 then 0
    else if n <= 9 then 0
    else if n <= 13 then n - 9
    else 4
  }

  lemma ColPrefixStep(c: int, n: nat)
    requires 0 <= c < SIZE && n < SIZE
    ensures ColPrefix(c, n + 1) == ColPrefix(c, n) + (if IsData(n, c) then 1 else 0)
  {
  }

  /** Data modules among the first n modules of column c visited in strip s. */
  function ColUpto(s: nat, c: int, n: nat): int
    requires n <= SIZE
  {
    if s % 2 == 0 then ColPrefix(c, SIZE) - ColPrefix(c, SIZE - n) else ColPrefix(c, n)
  }

  lemma ColUptoStep(s: nat, c: int, n: nat)
    requires 0 <= c < SIZE && n < SIZE
    ensures ColUpto(s, c, n + 1)
      == ColUpto(s, c, n) + (if IsData(if s % 2 == 0 then 20 - n else n, c) then 1 else 0)
  {
    if s % 2 == 0 {
      ColPrefixStep(c, 20 - n);
    } else {
      ColPrefixStep(c, n);
    }
  }

  /** Data modules among the first t steps of strip s. */
  function Within(s: nat, t: nat): int
    requires t <= 42
  {
    ColUpto(s, RightCol(s), (t + 1) / 2) + ColUpto(s, RightCol(s) - 1, t / 2)
  }

  /** Data modules in the strips before strip s, tabulated. */
  function StripBase(s: nat): int
  {
    if s == 0 then 0 else if s == 1 then 24 else if s == 2 then 48
    else if s == 3 then 72 else if s == 4 then 96 else if s == 5 then 136
    else if s == 6 then 176 else if s == 7 then 184 else if s == 8 then 192
    else if s == 9 then 200 else 208
  }

  /** The table adds up the data modules strip by strip. */
  lemma StripBaseStep(s: nat)
    requires 0 < s <= 10
    ensures StripBase(s) == StripBase(s - 1) + Within(s - 1, 42)
  {
    if s <= 5 {
      assert s == 1 || s == 2 || s == 3 || s == 4 || s == 5;
    } else {
      assert s == 6 || s == 7 || s == 8 || s == 9 || s == 10;
    }
  }

  lemma WithinZero(s: nat)
    ensures Within(s, 0) == 0
  {
  }

  /** Step t - 1 of strip s adds the module it visits. */
  lemma WithinStep(s: nat, t: nat)
    requires s < 10 && 0 < t <= 42
    ensures Within(s, t) == Within(s, t - 1) + (if IsData(RowIn(s, t - 1), ColIn(s, t - 1)) then 1 else 0)
  {
    var h := (t - 1) / 2;
    if (t - 1) % 2 == 0 {
      ColUptoStep(s, RightCol(s), h);
      assert (t + 1) / 2 == h + 1 && t / 2 == h;
    } else {
      ColUptoStep(s, RightCol(s) - 1, h);
      assert (t + 1) / 2 == h + 1 && t / 2 == h + 1;
    }
  }

  /** Inside strip s the count grows by the module step k - 1 visits. */
  lemma CountInside(k: nat, s: nat, t: nat, base: int)
    requires k == 42 * s + t && s < 10 && 0 < t < 42
    requires Count(k - 1) == base + Within(s, t - 1)
    ensures Count(k) == base + Within(s, t)
  {
    WalkIn(k - 1, s, t - 1);
    WithinStep(s, t);
  }

  /** The first step of strip s comes after the whole of strip s - 1. */
  lemma CountAcross(k: nat, s: nat)
    requires k == 42 * s && 0 < s <= 10
    requires Count(k - 1) == StripBase(s - 1) + Within(s - 1, 41)
    ensures Count(k) == StripBase(s)
  {
    var j := s - 1;
    var d := if IsData(RowIn(j, 41), ColIn(j, 41)) then 1 else 0;
    assert Count(k) == Count(k - 1) + d by {
      WalkIn(k - 1, j, 41);
    }
    assert StripBase(s) == StripBase(j) + Within(j, 41) + d by {
      WithinStep(j, 42);
      StripBaseStep(s);
    }
  }

  /** Inside strip s, the count grows from its value where the strip starts. */
  lemma {:induction false} CountInStrip(k: nat, s: nat, t: nat, base: int)
    requires k == 42 * s + t && s < 10 && t < 42
    requires Count(k - t) == base
    ensures Count(k) == base + Within(s, t)
  {
    if t > 0 {
      CountInStrip(k - 1, s, t - 1, base);
      CountInside(k, s, t, base);
    } else {
      WithinZero(s);
    }
  }

  /** Where strip s starts, the count is the table entry for s. */
  lemma {:induction false} CountStrips(s: nat)
    requires s <= 10
    ensures Count(42 * s) == StripBase(s)
  {
    if s > 0 {
      var k := 42 * s;
      CountStrips(s - 1);
      CountInStrip(k - 1, s - 1, 41, StripBase(s - 1));
      CountAcross(k, s);
    }
  }

  /** The count after step k = 42 s + t in closed form. */
  lemma CountIn(k: nat, s: nat, t: nat)
    requires k == 42 * s + t && t < 42 && (s < 10 || (s == 10 && t == 0))
    ensures Count(k) == StripBase(s) + Within(s, t)
  {
    CountStrips(s);
    if s < 10 {
      CountInStrip(k, s, t, StripBase(s));
    } else {
      WithinZero(s);
    }
  }

  /** No strip holds more data modules than the table leaves for it. */
  lemma ClosedBound(s: nat, t: nat)
    requires t < 42 && (s < 10 || (s == 10 && t == 0))
    ensures StripBase(s) + Within(s, t) <= DATA_BITS
  {
    if s < 5 {
      assert s == 0 || s == 1 || s == 2 || s == 3 || s == 4;
    } else {
      assert s == 5 || s == 6 || s == 7 || s == 8 || s == 9 || s == 10;
    }
  }

  /** The last data module of strip 9 is its step 25. */
  lemma WithinTail(t: nat)
    requires 26 <= t < 42
    ensures Within(9, t) == 8
  {
  }

  /** At most 208 data modules are visited. */
  lemma CountBound(k: nat)
    requires k <= STEPS
    ensures Count(k) <= DATA_BITS
  {
    var s, t := k / 42, k % 42;
    assert k == 42 * s + t && (s < 10 || (s == 10 && t == 0));
    CountIn(k, s, t);
    ClosedBound(s, t);
  }

  /** Steps 404 to 419 come after the last data module. */
  lemma CountTail(k: nat)
    requires LAST <= k < STEPS
    ensures Count(k) == DATA_BITS
  {
    var t := k - 378;
    WithinTail(t);
    CountIn(k, 9, t);
    assert Count(k) == StripBase(9) + Within(9, t);
    assert StripBase(9) == 200;
  }

  /** All 208 data modules lie in the first 404 steps. */
  lemma CountEnd(k: nat)
    requires LAST <= k <= STEPS
    ensures Count(k) == DATA_BITS
  {
    if k < STEPS {
      CountTail(k);
    } else {
      var s := 10;
      assert k == 42 * s;
      CountIn(k, s, 0);
      WithinZero(s);
    }
  }

  lemma {:induction false} CountMono(j: nat, k: nat)
    requires j <= k
    ensures Count(j) <= Count(k)
    decreases k - j
  {
    if j < k {
      CountMono(j, k - 1);
    }
  }

  lemma CountAfterData(k: nat)
    requires DataAt(k)
    ensures Count(k + 1) == Count(k) + 1
  {
  }

  /** A data step is counted before any later step. */
  lemma CountBefore(j: nat, k: nat)
    requires j < k && DataAt(j)
    ensures Count(j) < Count(k)
  {
    CountAfterData(j);
    CountMono(j + 1, k);
  }

  /** Two data steps with the same count are the same step. */
  lemma CountInjective(k1: nat, k2: nat)
    requires DataAt(k1) && DataAt(k2) && Count(k1) == Count(k2)
    ensures k1 == k2
  {
    if k1 < k2 {
      CountBefore(k1, k2);
    } else if k2 < k1 {
      CountBefore(k2, k1);
    }
  }

  /** The count grows by one step at a time, so it passes every value below its end. */
  lemma {:induction false} CountReaches(k: nat, n: nat)
    requires n < Count(k)
    ensures exists j: nat :: j < k && DataAt(j) && Count(j) == n
  {
    assert k > 0;
    if Count(k - 1) > n {
      CountReaches(k - 1, n);
    } else {
      assert DataAt(k - 1) && Count(k - 1) == n;
    }
  }

  // ---------------------------------------------------------------------
  // Steps and modules

  /** The strip holding column c (column 6 belongs to none). */
  function StripOf(c: int): nat
    requires 0 <= c < SIZE && c != 6
  {
    if c > 6 then (20 - c) / 2 else (19 - c) / 2
  }

  /** The step at which the walk visits (r, c). */
  function Rank(r: int, c: int): nat
    requires InRange(r, c) && c != 6
  {
    var s := StripOf(c);
    var h := if s % 2 == 0 then 20 - r else r;
    42 * s + 2 * h + (RightCol(s) - c)
  }

  /** Every module outside column 6 is visited, at step Rank, below step 420. */
  lemma RankThenStep(r: int, c: int)
    requires InRange(r, c) && c != 6
    ensures Rank(r, c) < STEPS && Walk(Rank(r, c)).y == r && Walk(Rank(r, c)).x == c
  {
    var s := StripOf(c);
    var h := if s % 2 == 0 then 20 - r else r;
    var t := 2 * h + (RightCol(s) - c);
    assert 0 <= RightCol(s) - c <= 1;
    assert t / 2 == h && t % 2 == RightCol(s) - c;
    WalkIn(Rank(r, c), s, t);
  }

  /** Every step below 420 visits a module of the symbol outside column 6, at its rank. */
  lemma StepThenRank(k: nat)
    requires k < STEPS
    ensures InRange(Walk(k).y, Walk(k).x) && Walk(k).x != 6
    ensures Rank(Walk(k).y, Walk(k).x) == k
  {
    var s, t := k / 42, k % 42;
    assert k == 42 * s + t && s < 10;
    WalkIn(k, s, t);
    assert StripOf(ColIn(s, t)) == s;
  }

  // ---------------------------------------------------------------------
  // Where each bit goes

  /** The index of the data bit that lands in data module (r, c). */
  function DataIndex(r: int, c: int): (j: nat)
    requires InRange(r, c) && IsData(r, c)
    ensures j < DATA_BITS
  {
    RankThenStep(r, c);
    CountAfterData(Rank(r, c));
    CountBound(Rank(r, c) + 1);
    Count(Rank(r, c))
  }

  /** Distinct data modules receive distinct bits. */
  lemma DataIndexInjective(r1: int, c1: int, r2: int, c2: int)
    requires InRange(r1, c1) && IsData(r1, c1) && InRange(r2, c2) && IsData(r2, c2)
    requires DataIndex(r1, c1) == DataIndex(r2, c2)
    ensures r1 == r2 && c1 == c2
  {
    RankThenStep(r1, c1);
    RankThenStep(r2, c2);
    CountInjective(Rank(r1, c1), Rank(r2, c2));
  }

  /** Every one of the 208 bits lands in some data module. */
  lemma DataIndexOnto(j: nat)
    requires j < DATA_BITS
    ensures exists r, c :: InRange(r, c) && IsData(r, c) && DataIndex(r, c) == j
  {
    var e: nat :| LAST <= e <= STEPS;
    CountEnd(e);
    CountReaches(e, j);
    var k: nat :| k < e && DataAt(k) && Count(k) == j;
    StepThenRank(k);
    assert DataIndex(Walk(k).y, Walk(k).x) == j;
  }

  // ---------------------------------------------------------------------
  // The matrix

  /** The matrix after the first k steps: visited data modules hold their bits. */
  function Placed(data: string, k: nat): (m: Matrix)
    requires |data| == DATA_BITS
    ensures |m| == SIZE && IsRect(m, SIZE)
  {
    seq(SIZE, r requires 0 <= r < SIZE =>
      seq(SIZE, c requires 0 <= c < SIZE =>
        if IsData(r, c) && Rank(r, c) < k then data[DataIndex(r, c)] else Cell(r, c)))
  }

  /** The template module at (r, c). */
  function Cell(r: int, c: int): char
    requires InRange(r, c)
  {
    TemplateShape();
    TEMPLATE[r][c]
  }

  lemma PlacedStart(data: string)
    requires |data| == DATA_BITS
    ensures Placed(data, 0) == TEMPLATE
  {
    TemplateShape();
    forall r | 0 <= r < SIZE
      ensures Placed(data, 0)[r] == TEMPLATE[r]
    {
    }
  }

  /**
   * One step: the module visited is filled with the next bit if it is a data
   * module, and nothing else changes.
   */
  lemma PlacedStep(data: string, k: nat)
    requires |data| == DATA_BITS && k < STEPS
    ensures InRange(Walk(k).y, Walk(k).x)
    ensures DataAt(k) ==> (Count(k) < DATA_BITS && Placed(data, k + 1)
      == Placed(data, k)[Walk(k).y := Placed(data, k)[Walk(k).y][Walk(k).x := data[Count(k)]]])
    ensures !DataAt(k) ==> Placed(data, k + 1) == Placed(data, k)
  {
    StepThenRank(k);
    var y, x := Walk(k).y, Walk(k).x;
    var m, m' := Placed(data, k), Placed(data, k + 1);
    if DataAt(k) {
      assert DataIndex(y, x) == Count(k);
      var u := m[y := m[y][x := data[Count(k)]]];
      forall r | 0 <= r < SIZE
        ensures m'[r] == u[r]
      {
        forall c | 0 <= c < SIZE
          ensures m'[r][c] == u[r][c]
        {
          if IsData(r, c) && Rank(r, c) == k {
            RankThenStep(r, c);
          }
        }
      }
    } else {
      forall r | 0 <= r < SIZE
        ensures m'[r] == m[r]
      {
        forall c | 0 <= c < SIZE
          ensures m'[r][c] == m[r][c]
        {
          if IsData(r, c) && Rank(r, c) == k {
            RankThenStep(r, c);
          }
        }
      }
    }
  }

  /** The module the cursor is on before step k still shows the template. */
  lemma PlacedAhead(data: string, k: nat)
    requires |data| == DATA_BITS && k < STEPS
    ensures InRange(Walk(k).y, Walk(k).x)
    ensures Placed(data, k)[Walk(k).y][Walk(k).x] == Cell(Walk(k).y, Walk(k).x)
  {
    StepThenRank(k);
  }

  /** The module visited at step k is marked '3' in the template exactly when it is a data module. */
  lemma StepCell(k: nat)
    requires k < STEPS
    ensures InRange(Walk(k).y, Walk(k).x)
    ensures Cell(Walk(k).y, Walk(k).x) == '3' <==> DataAt(k)
  {
    StepThenRank(k);
    TemplateClassified();
    assert Classified(Walk(k).y, Walk(k).x);
  }

  /** Once the count has reached 208, every later step visits a non-data module. */
  lemma DataBeforeFull(k: nat, j: nat)
    requires k <= STEPS && j < STEPS && Count(k) == DATA_BITS && DataAt(j)
    ensures j < k
  {
    if j >= k {
      CountMono(k, j);
      CountAfterData(j);
      CountBound(j + 1);
    }
  }

  /** Once all 208 bits are placed no data module is left to visit. */
  lemma PlacedDone(data: string, k: nat)
    requires |data| == DATA_BITS && k <= STEPS && Count(k) == DATA_BITS
    ensures Placed(data, k) == Placed(data, STEPS)
  {
    var m, m' := Placed(data, k), Placed(data, STEPS);
    forall r | 0 <= r < SIZE
      ensures m[r] == m'[r]
    {
      forall c | 0 <= c < SIZE
        ensures m[r][c] == m'[r][c]
      {
        if IsData(r, c) {
          RankThenStep(r, c);
          DataBeforeFull(k, Rank(r, c));
        }
      }
    }
  }

  /** Everything one turn of the placement loop needs about step k. */
  lemma LoopStep(data: string, k: nat)
    requires |data| == DATA_BITS && k <= LAST && Count(k) < DATA_BITS
    ensures k < LAST
    ensures InRange(Walk(k).y, Walk(k).x)
    ensures Walk(k + 1) == Move(Walk(k))
    ensures var m, y, x := Placed(data, k), Walk(k).y, Walk(k).x;
      if m[y][x] == '3' then
        Count(k) < DATA_BITS && Count(k + 1) == Count(k) + 1
        && Placed(data, k + 1) == m[y := m[y][x := data[Count(k)]]]
      else
        Count(k + 1) == Count(k) && Placed(data, k + 1) == m
  {
    if k == LAST {
      CountEnd(k);
    }
    PlacedAhead(data, k);
    PlacedStep(data, k);
    StepCell(k);
    WalkStep(k + 1);
  }

  /**
   * The zig-zag placement of qr.py:218-253, with its state (x, y, direction,
   * pos) and the bit index i: the result holds bit DataIndex(r, c) in every
   * data module and the template everywhere else.
   */
  method PlaceData(data: string) returns (matrix: Matrix)
    requires |data| == DATA_BITS
    ensures matrix == Placed(data, STEPS)
  {
    PlacedStart(data);
    matrix := TEMPLATE;
    var x, y := 20, 20;
    var direction := -1;
    var pos := Right;
    var i := 0;
    ghost var k: nat := 0;
    while i < |data|
      invariant k <= LAST
      invariant i == Count(k)
      invariant Cursor(x, y, direction, pos) == Walk(k)
      invariant matrix == Placed(data, k)
      decreases LAST - k
    {
      LoopStep(data, k);
      if matrix[y][x] == '3' {
        matrix := matrix[y := matrix[y][x := data[i]]];
        i := i + 1;
      }
      if pos == Right {
        pos := Left;
        x := x - 1;
        k := k + 1;
        continue;
      }
      pos := Right;
      if direction == -1 && y == 0 {
        x := x - 1;
        direction := 1;
      } else if direction == 1 && y == 20 {
        x := x - 1;
        direction := -1;
      } else {
        x := x + 1;
        y := y + direction;
      }
      if x == 6 {
        x := x - 1;
      }
      k := k + 1;
    }
    CountBound(k);
    PlacedDone(data, k);
  }

  /** The placed symbol: each data module holds its bit, every other module is the template's. */
  lemma PlacedFinal(data: string, r: int, c: int)
    requires |data| == DATA_BITS && InRange(r, c)
    ensures Placed(data, STEPS)[r][c] == if IsData(r, c) then data[DataIndex(r, c)] else TEMPLATE[r][c]
  {
    TemplateShape();
    if IsData(r, c) {
      RankThenStep(r, c);
    }
  }

  /** With a bit string placed, only the format modules are left without a bit. */
  lemma PlacedModules(data: string)
    requires |data| == DATA_BITS && IsBits(data)
    ensures forall r, c :: InRange(r, c) && !IsFormat(r, c) ==> IsModule(Placed(data, STEPS)[r][c])
  {
    forall r, c | InRange(r, c) && !IsFormat(r, c)
      ensures IsModule(Placed(data, STEPS)[r][c])
    {
      PlacedFinal(data, r, c);
      TemplateClassified();
      assert Classified(r, c);
    }
  }
}
