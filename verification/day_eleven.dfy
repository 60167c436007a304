/** Day 11, "Chronal Charge": a 300 x 300 grid of fuel cells, each with a
    power level computed from its coordinates and the grid serial number.
    Part one finds the 3 x 3 square with the most power, part two the square
    of any size from 1 to 300. Squares are summed cell by cell, exactly as
    the source does, and each search keeps the first largest square in its
    visiting order. */
module PuzzleDayEleven {
  import opened Common
  import opened Decimal
  import opened Template

  /** `GRID_SIZE`: the grid has columns and rows 0 to 299. */
  const GridSize: int := 300

  // ---------------------------------------------------------------------
  // Power levels.

  /** A Java `int` operation: the exact value wrapped into [-2^31, 2^31). */
  function Int32(n: int): (r: int)
    ensures -(IntBound as int) <= r < IntBound
    ensures (r - n) % (2 * IntBound) == 0
  {
    (n + IntBound) % (2 * IntBound) - IntBound
  }

  /** An `int` already in range is left as it is. */
  lemma Int32InRange(n: int)
    requires -(IntBound as int) <= n < IntBound
    ensures Int32(n) == n
  {
  }

  /** The last digit of a numeral is the value modulo 10. */
  lemma {:induction false} LastDigit(n: nat)
    ensures FormatNat(n)[|FormatNat(n)| - 1] == DigitChar(n % 10)
  {
  }

  /** A numeral of a value of at least 100 has three digits or more, and the
      third digit from the right is the hundreds digit. */
  lemma {:induction false} HundredsOfNumeral(n: nat)
    requires n >= 100
    ensures |FormatNat(n)| >= 3
    ensures FormatNat(n)[|FormatNat(n)| - 3] == DigitChar((n / 100) % 10)
  {
    var tens := FormatNat(n / 10);
    assert FormatNat(n) == tens + [DigitChar(n % 10)];
    assert (n / 10) / 10 == n / 100;
    var hundreds := FormatNat(n / 100);
    assert tens == hundreds + [DigitChar((n / 10) % 10)];
    LastDigit(n / 100);
  }

  /** `extractHundredsDigitFrom`: for a value above 100, the third character
      from the right of its decimal numeral, read as a digit; 0 otherwise. */
  function HundredsDigit(n: int): int
  {
    if n > 100 then
      var digits := FormatInt(n);
      HundredsOfNumeral(n);
      DigitValue(digits[|digits| - 3])
    else 0
  }

  /** The digit read from the numeral is the arithmetic hundreds digit; every
      value up to 100, negative ones included, gives 0. */
  lemma HundredsDigitSpec(n: int)
    ensures 0 <= HundredsDigit(n) <= 9
    ensures n > 100 ==> HundredsDigit(n) == (n / 100) % 10
    ensures n <= 100 ==> HundredsDigit(n) == 0
  {
    if n > 100 {
      HundredsOfNumeral(n);
    }
  }

  /** `calculatePowerLevel`: the rack ID is x + 10; the power starts at rack
      ID times y, grows by the serial number, is multiplied by the rack ID,
      and the level is its hundreds digit minus 5. Each step is an `int`
      operation and wraps. */
  function PowerLevel(serial: int, x: int, y: int): int
  {
    var rackId := Int32(x + 10);
    var start := Int32(rackId * y);
    HundredsDigit(Int32(Int32(start + serial) * rackId)) - 5
  }

  /** Every cell's level lies in [-5, 4]. */
  lemma PowerLevelRange(serial: int, x: int, y: int)
    ensures -5 <= PowerLevel(serial, x, y) <= 4
  {
    var rackId := Int32(x + 10);
    var start := Int32(rackId * y);
    HundredsDigitSpec(Int32(Int32(start + serial) * rackId));
  }

  /** The power before the hundreds digit is taken, computed exactly. */
  function RawPower(serial: int, x: int, y: int): int
  {
    ((x + 10) * y + serial) * (x + 10)
  }

  /** On the grid, and while the intermediate sums fit in an `int`, the level
      is the hundreds digit of ((x + 10) * y + serial) * (x + 10), minus 5. */
  lemma PowerLevelFormula(serial: int, x: int, y: int)
    requires 0 <= x < GridSize && 0 <= y < GridSize
    requires -(IntBound as int) <= (x + 10) * y + serial < IntBound
    requires -(IntBound as int) <= RawPower(serial, x, y) < IntBound
    ensures PowerLevel(serial, x, y) == (if RawPower(serial, x, y) > 100 then (RawPower(serial, x, y) / 100) % 10 else 0) - 5
  {
    var rackId := x + 10;
    var start := rackId * y;
    var v := RawPower(serial, x, y);
    GridProduct(rackId, y);
    Int32InRange(rackId);
    Int32InRange(start);
    Int32InRange(start + serial);
    Int32InRange(v);
    assert PowerLevel(serial, x, y) == HundredsDigit(v) - 5;
    HundredsDigitSpec(v);
  }

  /** A rack ID times a row number fits easily in an `int`. */
  lemma GridProduct(rackId: int, y: int)
    requires 10 <= rackId < GridSize + 10 && 0 <= y < GridSize
    ensures 0 <= rackId * y < IntBound
  {
    MulNonNegative(GridSize + 9 - rackId, y);
    MulNonNegative(rackId, y);
    assert (GridSize + 9 - rackId) * y == (GridSize + 9) * y - rackId * y;
  }

  lemma MulNonNegative(a: int, b: int)
    requires 0 <= a && 0 <= b
    ensures 0 <= a * b
  {
  }

  // ---------------------------------------------------------------------
  // The table of power levels.

  /** The shape of `representation`: 300 columns of 300 cells, indexed
      `[x][y]`. */
  predicate IsGrid(levels: seq<seq<int>>)
  {
    |levels| == GridSize && forall x :: 0 <= x < GridSize ==> |levels[x]| == GridSize
  }

  /** Every entry lies in [-5, 4], as power levels do. */
  predicate LevelsInRange(levels: seq<seq<int>>)
    requires IsGrid(levels)
  {
    forall x, y :: 0 <= x < GridSize && 0 <= y < GridSize ==> -5 <= levels[x][y] <= 4
  }

  /** The table of the grid with serial number `serial`. */
  function PowerTable(serial: int): seq<seq<int>>
  {
    seq(GridSize, x => seq(GridSize, y => PowerLevel(serial, x, y)))
  }

  /** The table has the grid's shape, holds each cell's level, and so only
      values in [-5, 4]. */
  lemma PowerTableSpec(serial: int)
    ensures IsGrid(PowerTable(serial)) && LevelsInRange(PowerTable(serial))
    ensures forall x, y :: 0 <= x < GridSize && 0 <= y < GridSize ==> PowerTable(serial)[x][y] == PowerLevel(serial, x, y)
  {
    forall x, y | 0 <= x < GridSize && 0 <= y < GridSize
      ensures -5 <= PowerTable(serial)[x][y] <= 4
    {
      PowerLevelRange(serial, x, y);
    }
  }

  /** `calculatePowerLevels`: fills the table column by column. */
  method CalculatePowerLevels(serial: int) returns (levels: seq<seq<int>>)
    ensures IsGrid(levels)
    ensures forall x, y :: 0 <= x < GridSize && 0 <= y < GridSize ==> levels[x][y] == PowerLevel(serial, x, y)
    ensures levels == PowerTable(serial)
  {
    levels := [];
    var x := 0;
    while x < GridSize
      invariant 0 <= x <= GridSize && |levels| == x
      invariant forall i :: 0 <= i < x ==> |levels[i]| == GridSize
      invariant forall i, j :: 0 <= i < x && 0 <= j < GridSize ==> levels[i][j] == PowerLevel(serial, i, j)
    {
      var column: seq<int> := [];
      var y := 0;
      while y < GridSize
        invariant 0 <= y <= GridSize && |column| == y
        invariant forall j :: 0 <= j < y ==> column[j] == PowerLevel(serial, x, j)
      {
        column := column + [PowerLevel(serial, x, y)];
        y := y + 1;
      }
      levels := levels + [column];
      x := x + 1;
    }
    forall i | 0 <= i < GridSize ensures levels[i] == PowerTable(serial)[i] {
    }
  }

  // ---------------------------------------------------------------------
  // The power of a square.

  /** `isWithinBounds`: only the upper edges are checked. */
  predicate WithinBounds(x: int, y: int)
  {
    x < GridSize && y < GridSize
  }

  /** What one cell adds to a square: its entry, or nothing past an edge. */
  function CellPower(levels: seq<seq<int>>, x: nat, y: nat): int
    requires IsGrid(levels)
  {
    if WithinBounds(x, y) then levels[x][y] else 0
  }

  /** The cells (x, y) to (x, y + h - 1) of one column of a square. */
  function ColumnPower(levels: seq<seq<int>>, x: nat, y: nat, h: int): int
    requires IsGrid(levels)
    decreases h
  {
    if h <= 0 then 0 else ColumnPower(levels, x, y, h - 1) + CellPower(levels, x, y + h - 1)
  }

  /** The columns x to x + w - 1 of a square, each `h` cells high. */
  function ColumnsPower(levels: seq<seq<int>>, x: nat, y: nat, w: int, h: int): int
    requires IsGrid(levels)
    decreases w
  {
    if w <= 0 then 0 else ColumnsPower(levels, x, y, w - 1, h) + ColumnPower(levels, x + w - 1, y, h)
  }

  /** `calculatePower`: the size x size square whose top-left cell is
      (x, y). Corners come from the search and are never negative. */
  function SquarePower(levels: seq<seq<int>>, x: nat, y: nat, size: int): int
    requires IsGrid(levels)
  {
    ColumnsPower(levels, x, y, size, size)
  }

  /** The reference sums: the entries of a strip, and of a `w` by `h`
      rectangle, that lie inside the grid, with no edge check. */
  function StripSum(levels: seq<seq<int>>, x: nat, y: nat, h: int): int
    requires IsGrid(levels) && x < GridSize && (h <= 0 || y + h <= GridSize)
    decreases h
  {
    if h <= 0 then 0 else StripSum(levels, x, y, h - 1) + levels[x][y + h - 1]
  }

  function RectSum(levels: seq<seq<int>>, x: nat, y: nat, w: int, h: int): int
    requires IsGrid(levels) && (w <= 0 || x + w <= GridSize) && (h <= 0 || y + h <= GridSize)
    decreases w
  {
    if w <= 0 then 0 else RectSum(levels, x, y, w - 1, h) + StripSum(levels, x + w - 1, y, h)
  }

  /** How many of `n` cells starting at coordinate `c` lie before the edge. */
  function Fit(c: nat, n: int): (k: nat)
    ensures k == 0 || c + k <= GridSize
  {
    Max(0, Min(n, GridSize - c))
  }

  /** One more cell fits exactly when it lies before the edge. */
  lemma FitStep(c: nat, n: int)
    requires n > 0
    ensures c + n - 1 < GridSize ==> Fit(c, n) == Fit(c, n - 1) + 1 == n
    ensures c + n - 1 >= GridSize ==> Fit(c, n) == Fit(c, n - 1)
  {
  }

  /** A column is its cells up to the bottom edge, or nothing when it lies
      past the right edge. */
  lemma {:induction false} ColumnClip(levels: seq<seq<int>>, x: nat, y: nat, h: int)
    requires IsGrid(levels)
    ensures ColumnPower(levels, x, y, h) == if x < GridSize then StripSum(levels, x, y, Fit(y, h)) else 0
    decreases h
  {
    if h > 0 {
      ColumnClip(levels, x, y, h - 1);
      FitStep(y, h);
    }
  }

  /** Columns are the rectangle of their cells within both edges. */
  lemma {:induction false} ColumnsClip(levels: seq<seq<int>>, x: nat, y: nat, w: int, h: int)
    requires IsGrid(levels)
    ensures ColumnsPower(levels, x, y, w, h) == RectSum(levels, x, y, Fit(x, w), Fit(y, h))
    decreases w
  {
    if w > 0 {
      ColumnsClip(levels, x, y, w - 1, h);
      ColumnClip(levels, x + w - 1, y, h);
      FitStep(x, w);
    }
  }

  /** A strip of `h` cells has power between -5h and 4h. */
  lemma {:induction false} StripSumBounds(levels: seq<seq<int>>, x: nat, y: nat, h: nat)
    requires IsGrid(levels) && LevelsInRange(levels)
    requires x < GridSize && (h == 0 || y + h <= GridSize)
    ensures -5 * h <= StripSum(levels, x, y, h) <= 4 * h
  {
    if h > 0 {
      StripSumBounds(levels, x, y, h - 1);
    }
  }

  /** A `w` by `h` rectangle has power between -5wh and 4wh. */
  lemma {:induction false} RectSumBounds(levels: seq<seq<int>>, x: nat, y: nat, w: nat, h: nat)
    requires IsGrid(levels) && LevelsInRange(levels)
    requires (w == 0 || x + w <= GridSize) && (h == 0 || y + h <= GridSize)
    ensures -5 * (w * h) <= RectSum(levels, x, y, w, h) <= 4 * (w * h)
  {
    if w > 0 {
      RectSumBounds(levels, x, y, w - 1, h);
      StripSumBounds(levels, x + w - 1, y, h);
      MulStep(w, h);
    }
  }

  /** A square is the rectangle of its cells inside the grid: cells past an
      edge add nothing, and a square wholly inside is summed in full. */
  lemma SquarePowerClip(levels: seq<seq<int>>, x: nat, y: nat, size: int)
    requires IsGrid(levels)
    ensures SquarePower(levels, x, y, size) == RectSum(levels, x, y, Fit(x, size), Fit(y, size))
    ensures 0 <= size && x + size <= GridSize && y + size <= GridSize ==> SquarePower(levels, x, y, size) == RectSum(levels, x, y, size, size)
  {
    ColumnsClip(levels, x, y, size, size);
  }

  /** The power of a square is between -5 and 4 times the number of its
      cells inside the grid. */
  lemma SquarePowerBounds(levels: seq<seq<int>>, x: nat, y: nat, size: int)
    requires IsGrid(levels) && LevelsInRange(levels)
    ensures -5 * (Fit(x, size) * Fit(y, size)) <= SquarePower(levels, x, y, size) <= 4 * (Fit(x, size) * Fit(y, size))
  {
    SquarePowerClip(levels, x, y, size);
    RectSumBounds(levels, x, y, Fit(x, size), Fit(y, size));
  }

  // ---------------------------------------------------------------------
  // The best square of one size.

  /** `PowerSource`: a square's top-left cell, its power and its size. */
  datatype PowerSource = PowerSource(x: int, y: int, power: int, size: int)

  /** The corners visited for one size run up to, but not including,
      `GRID_SIZE - squareSize` in both directions. */
  function Limit(size: int): int { GridSize - size }

  predicate Visited(size: int, x: int, y: int)
  {
    0 <= x < Limit(size) && 0 <= y < Limit(size)
  }

  /** The visiting order: by x, then by y. */
  predicate Before(x1: int, y1: int, x2: int, y2: int)
  {
    x1 < x2 || (x1 == x2 && y1 < y2)
  }

  function Candidate(levels: seq<seq<int>>, x: nat, y: nat, size: int): PowerSource
    requires IsGrid(levels)
  {
    PowerSource(x, y, SquarePower(levels, x, y, size), size)
  }

  /** One step of `Stream.max`: a later element replaces the current one
      only when it is strictly larger. */
  function Better(best: Option<PowerSource>, c: PowerSource): (r: PowerSource)
    ensures best.Some? ==> r.power >= best.value.power
    ensures r.power >= c.power
    ensures r == c || (best.Some? && r == best.value)
    ensures best.Some? && r == c && c != best.value ==> c.power > best.value.power
  {
    if best.None? || c.power > best.value.power then c else best.value
  }

  /** `c` is the first largest square of size `size` among the corners
      visited before (x, y). */
  ghost predicate BestBefore(levels: seq<seq<int>>, size: int, c: PowerSource, x: int, y: int)
    requires IsGrid(levels)
  {
    && c.size == size
    && Visited(size, c.x, c.y)
    && Before(c.x, c.y, x, y)
    && c.power == SquarePower(levels, c.x, c.y, size)
    && (forall a, b :: Visited(size, a, b) && Before(a, b, x, y) ==> SquarePower(levels, a, b, size) <= c.power)
    && (forall a, b :: Visited(size, a, b) && Before(a, b, c.x, c.y) ==> SquarePower(levels, a, b, size) < c.power)
  }

  /** `c` is the first largest square of size `size` over all its corners. */
  ghost predicate BestOfSize(levels: seq<seq<int>>, size: int, c: PowerSource)
    requires IsGrid(levels)
  {
    BestBefore(levels, size, c, Limit(size), 0)
  }

  /** Visiting corner (x, y) extends the best of the corners before it to
      the corners up to and including it. */
  lemma VisitCorner(levels: seq<seq<int>>, size: int, best: Option<PowerSource>, x: int, y: int)
    requires IsGrid(levels)
    requires Visited(size, x, y)
    requires best.None? ==> x == 0 && y == 0
    requires best.Some? ==> BestBefore(levels, size, best.value, x, y)
    ensures BestBefore(levels, size, Better(best, Candidate(levels, x, y, size)), x, y + 1)
  {
    var c := Candidate(levels, x, y, size);
    var r := Better(best, c);
    forall a, b | Visited(size, a, b) && Before(a, b, x, y + 1)
      ensures SquarePower(levels, a, b, size) <= r.power
    {
      if a == x && b == y {
        assert SquarePower(levels, a, b, size) == c.power;
      } else {
        assert Before(a, b, x, y);
      }
    }
  }

  /** The corners before the end of a column are the corners before the top
      of the next one. */
  lemma ColumnDone(levels: seq<seq<int>>, size: int, c: PowerSource, x: int)
    requires IsGrid(levels)
    requires BestBefore(levels, size, c, x, Limit(size))
    ensures BestBefore(levels, size, c, x + 1, 0)
  {
    forall a, b | Visited(size, a, b) && Before(a, b, x + 1, 0)
      ensures SquarePower(levels, a, b, size) <= c.power
    {
      assert Before(a, b, x, Limit(size));
    }
  }

  /** `calculateMaximumPowerSourceForSquareSize`: visits the corners column
      by column and keeps the first square of the largest power. There is
      none exactly when the size leaves no corner, that is from size 300
      on. */
  method MaximumPowerSource(levels: seq<seq<int>>, size: int) returns (best: Option<PowerSource>)
    requires IsGrid(levels)
    ensures best.None? <==> size >= GridSize
    ensures best.Some? ==> BestOfSize(levels, size, best.value)
  {
    best := None;
    var x := 0;
    while x < Limit(size)
      invariant 0 <= x && (x <= Limit(size) || x == 0)
      invariant best.None? <==> x == 0
      invariant best.Some? ==> BestBefore(levels, size, best.value, x, 0)
    {
      var y := 0;
      while y < Limit(size)
        invariant 0 <= y <= Limit(size)
        invariant best.None? <==> x == 0 && y == 0
        invariant best.Some? ==> BestBefore(levels, size, best.value, x, y)
      {
        VisitCorner(levels, size, best, x, y);
        best := Some(Better(best, Candidate(levels, x, y, size)));
        y := y + 1;
      }
      ColumnDone(levels, size, best.value, x);
      x := x + 1;
    }
  }

  /** The first largest square of a size is unique: the square a search
      returns is determined by the levels number and the size. */
  lemma BestOfSizeUnique(levels: seq<seq<int>>, size: int, c: PowerSource, d: PowerSource)
    requires IsGrid(levels)
    requires BestOfSize(levels, size, c) && BestOfSize(levels, size, d)
    ensures c == d
  {
    assert SquarePower(levels, d.x, d.y, size) <= c.power;
    assert SquarePower(levels, c.x, c.y, size) <= d.power;
  }

  // ---------------------------------------------------------------------
  // The best square of any size.

  /** `c` is the best square over the sizes 1 to s - 1: the first largest of
      its own size, at least as large as every square of those sizes, and
      strictly larger than every square of a smaller size. */
  ghost predicate BestUpTo(levels: seq<seq<int>>, c: PowerSource, s: int)
    requires IsGrid(levels)
  {
    && 1 <= c.size < s
    && BestOfSize(levels, c.size, c)
    && (forall t, a, b :: 1 <= t < s && Visited(t, a, b) ==> SquarePower(levels, a, b, t) <= c.power)
    && (forall t, a, b :: 1 <= t < c.size && Visited(t, a, b) ==> SquarePower(levels, a, b, t) < c.power)
  }

  /** Taking size `s` into account. */
  lemma VisitSize(levels: seq<seq<int>>, best: Option<PowerSource>, s: int, found: Option<PowerSource>)
    requires IsGrid(levels)
    requires 1 <= s
    requires best.None? ==> s == 1
    requires best.Some? ==> BestUpTo(levels, best.value, s)
    requires found.None? <==> s >= GridSize
    requires found.Some? ==> BestOfSize(levels, s, found.value)
    ensures found.Some? ==> BestUpTo(levels, Better(best, found.value), s + 1)
    ensures found.None? && best.Some? ==> BestUpTo(levels, best.value, s + 1)
  {
    if found.Some? {
      var c := found.value;
      var r := Better(best, c);
      forall t, a, b | 1 <= t < s + 1 && Visited(t, a, b)
        ensures SquarePower(levels, a, b, t) <= r.power
      {
        if t == s {
          assert SquarePower(levels, a, b, t) <= c.power;
        }
      }
    }
  }

  /** `startCellOfARandomSizedSquareWithMostPower`: the best square of each
      size from 1 to 300, of which the first of the largest power is kept.
      Size 1 always has squares, so the final `get` never fails. */
  method MaximumPowerSourceOfAnySize(levels: seq<seq<int>>) returns (best: PowerSource)
    requires IsGrid(levels)
    ensures BestUpTo(levels, best, GridSize + 1)
  {
    var current: Option<PowerSource> := None;
    var s := 1;
    while s <= GridSize
      invariant 1 <= s <= GridSize + 1
      invariant current.None? <==> s == 1
      invariant current.Some? ==> BestUpTo(levels, current.value, s)
    {
      var found := MaximumPowerSource(levels, s);
      VisitSize(levels, current, s, found);
      if found.Some? {
        current := Some(Better(current, found.value));
      }
      s := s + 1;
    }
    best := current.value;
  }

  // ---------------------------------------------------------------------
  // Output and the solver.

  /** `printCoordinates`: "x,y". */
  function PrintCoordinates(c: PowerSource): string
  {
    FormatInt(c.x) + "," + FormatInt(c.y)
  }

  /** `printCoordinatesWithSize`: "x,y,size". */
  function PrintCoordinatesWithSize(c: PowerSource): string
  {
    FormatInt(c.x) + "," + FormatInt(c.y) + "," + FormatInt(c.size)
  }

  /** The shapes of the two answers, to read them back. */
  const PairPattern: Pattern := Capture(Digits, Text(",", Capture(Digits, End)))
  const TriplePattern: Pattern := Capture(Digits, Text(",", Capture(Digits, Text(",", Capture(Digits, End)))))

  lemma AnswerPatternsShape()
    ensures Separated(PairPattern) && Classes(PairPattern) == [Digits, Digits]
    ensures Separated(TriplePattern) && Classes(TriplePattern) == [Digits, Digits, Digits]
  {
  }

  /** Both answers read back: matching the printed text gives the numerals
      of the corner (and size), whose values are the corner (and size). */
  lemma PrintReadBack(c: PowerSource)
    requires 0 <= c.x && 0 <= c.y && 0 <= c.size
    ensures Match(PairPattern, PrintCoordinates(c)) == Some([FormatNat(c.x), FormatNat(c.y)])
    ensures Match(TriplePattern, PrintCoordinatesWithSize(c)) == Some([FormatNat(c.x), FormatNat(c.y), FormatNat(c.size)])
    ensures DigitsValue(FormatNat(c.x)) == c.x && DigitsValue(FormatNat(c.y)) == c.y
    ensures DigitsValue(FormatNat(c.size)) == c.size
  {
    AnswerPatternsShape();
    var x, y, size := FormatNat(c.x), FormatNat(c.y), FormatNat(c.size);
    assert FormatInt(c.x) == x && FormatInt(c.y) == y && FormatInt(c.size) == size;
    PairGroups(x, y);
    TripleGroups(x, y, size);
    MatchComplete(PairPattern, [x, y]);
    MatchComplete(TriplePattern, [x, y, size]);
  }

  /** Two numerals fill the pair pattern as "x,y". */
  lemma PairGroups(x: string, y: string)
    requires AllDigits(x) && AllDigits(y)
    ensures GroupsFit([Digits, Digits], [x, y])
    ensures Fill(PairPattern, [x, y]) == x + "," + y
  {
    var last := Capture(Digits, End);
    assert Fill(last, [y]) == y + Fill(End, []);
    assert Fill(Text(",", last), [y]) == "," + y;
    assert [x, y][1..] == [y];
  }

  /** Three numerals fill the triple pattern as "x,y,size". */
  lemma TripleGroups(x: string, y: string, size: string)
    requires AllDigits(x) && AllDigits(y) && AllDigits(size)
    ensures GroupsFit([Digits, Digits, Digits], [x, y, size])
    ensures Fill(TriplePattern, [x, y, size]) == x + "," + y + "," + size
  {
    var last := Capture(Digits, End);
    assert Fill(last, [size]) == size + Fill(End, []);
    assert Fill(Text(",", last), [size]) == "," + size;
    var middle := Capture(Digits, Text(",", last));
    assert [y, size][1..] == [size];
    assert Fill(middle, [y, size]) == y + "," + size;
    assert Fill(Text(",", middle), [y, size]) == "," + y + "," + size;
    assert [x, y, size][1..] == [y, size];
  }

  /** `createGrid`: the serial number is the first line, read by
      `Integer.valueOf`; an empty input fails at the final `get`. */
  function ReadSerial(lines: seq<string>): (r: Result<int>)
  {
    if |lines| == 0 then Err(NoSuchElement) else ParseSigned(lines[0], IntBound)
  }

  /** Part one: the corner of the first 3 x 3 square with the most power.
      The source answers `null` when there is no square; there always is. */
  method SolvePartOne(lines: seq<string>) returns (r: Result<Option<string>>)
    ensures r.Err? <==> ReadSerial(lines).Err?
    ensures r.Err? ==> r.error == ReadSerial(lines).error
    ensures r.Ok? ==> r.value.Some?
    ensures r.Ok? ==> exists c :: BestOfSize(PowerTable(ReadSerial(lines).value), 3, c) && r.value.value == PrintCoordinates(c)
  {
    var serial := ReadSerial(lines);
    if serial.Err? {
      return Err(serial.error);
    }
    var levels := CalculatePowerLevels(serial.value);
    var best := MaximumPowerSource(levels, 3);
    r := Ok(Some(PrintCoordinates(best.value)));
  }

  /** Part two: corner and size of the first largest square of any size. */
  method SolvePartTwo(lines: seq<string>) returns (r: Result<string>)
    ensures r.Err? <==> ReadSerial(lines).Err?
    ensures r.Err? ==> r.error == ReadSerial(lines).error
    ensures r.Ok? ==> exists c :: BestUpTo(PowerTable(ReadSerial(lines).value), c, GridSize + 1) && r.value == PrintCoordinatesWithSize(c)
  {
    var serial := ReadSerial(lines);
    if serial.Err? {
      return Err(serial.error);
    }
    var levels := CalculatePowerLevels(serial.value);
    var best := MaximumPowerSourceOfAnySize(levels);
    r := Ok(PrintCoordinatesWithSize(best));
  }
}
