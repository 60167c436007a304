/** Chronal coordinates: every cell of the bounding box [0, maxX] x [0, maxY]
    belongs to the input point that is strictly closest to it in Manhattan
    distance (a tie gives it no owner). Part one reports the largest region
    that does not reach the border of the box; part two counts the cells
    whose total distance to all points is below a bound. A point's id is its
    position in the input. */
module PuzzleDaySix {
  import opened Common
  import opened Decimal

  datatype Point = Point(x: int, y: int)

  /** `Integer.MAX_VALUE`, the initial shortest distance of the scan. */
  const MaxInt: int := 0x7fff_ffff

  /** The bound of part two. */
  const AllowedDistance: int := 10000

  // ---------------------------------------------------------------------
  // Reading a point: `coordinate.split(", ")` and two `Integer.valueOf`s.

  /** The separator ", " starts at position `k` of `s`. */
  predicate SeparatorAt(s: string, k: int)
  {
    0 <= k && k + 1 < |s| && s[k] == ',' && s[k + 1] == ' '
  }

  /** The first separator in `s` at or after `i`. */
  function FindFrom(s: string, i: nat): (r: Option<nat>)
    ensures r.Some? ==> i <= r.value && SeparatorAt(s, r.value)
    ensures r.Some? ==> forall k :: i <= k < r.value ==> !SeparatorAt(s, k)
    ensures r.None? ==> forall k :: i <= k ==> !SeparatorAt(s, k)
    decreases |s| - i
  {
    if i + 1 >= |s| then None
    else if SeparatorAt(s, i) then Some(i)
    else FindFrom(s, i + 1)
  }

  /** The pieces between the non-overlapping separators, found from left to
      right. */
  function Pieces(s: string): (ps: seq<string>)
    ensures |ps| >= 1
    decreases |s|
  {
    match FindFrom(s, 0)
    case None => [s]
    case Some(i) => [s[..i]] + Pieces(s[i + 2..])
  }

  /** The pieces joined back with the separator between them. */
  function Join(ps: seq<string>): string
    requires |ps| >= 1
  {
    if |ps| == 1 then ps[0] else ps[0] + ", " + Join(ps[1..])
  }

  /** Splitting and joining gives the string back. */
  lemma {:induction false} PiecesJoin(s: string)
    ensures Join(Pieces(s)) == s
    decreases |s|
  {
    match FindFrom(s, 0)
    case None =>
    case Some(i) =>
      var rest := s[i + 2..];
      PiecesJoin(rest);
      var ps := Pieces(s);
      assert ps == [s[..i]] + Pieces(rest);
      assert ps[1..] == Pieces(rest);
      assert Join(ps) == s[..i] + ", " + Join(Pieces(rest));
      assert s[i..i + 2] == ", ";
      assert s == s[..i] + s[i..i + 2] + rest;
  }

  /** No piece contains the separator. */
  lemma {:induction false} PiecesSeparatorFree(s: string)
    ensures forall k :: 0 <= k < |Pieces(s)| ==> FindFrom(Pieces(s)[k], 0).None?
    decreases |s|
  {
    match FindFrom(s, 0)
    case None =>
    case Some(i) =>
      var rest := s[i + 2..];
      var head := s[..i];
      PiecesSeparatorFree(rest);
      var ps := Pieces(s);
      forall k | 0 <= k ensures SeparatorAt(head, k) ==> SeparatorAt(s, k) {
      }
      assert FindFrom(head, 0).None?;
      forall k | 1 <= k < |ps| ensures FindFrom(ps[k], 0).None? {
        assert ps[k] == Pieces(rest)[k - 1];
      }
  }

  /** `limit == 0`: trailing empty pieces are dropped. */
  function DropTrailingEmpty(ps: seq<string>): (r: seq<string>)
    ensures |r| <= |ps| && r == ps[..|r|]
    ensures forall k :: |r| <= k < |ps| ==> ps[k] == ""
    ensures |r| > 0 ==> r[|r| - 1] != ""
  {
    if |ps| > 0 && ps[|ps| - 1] == "" then DropTrailingEmpty(ps[..|ps| - 1]) else ps
  }

  /** `String.split(", ")`: a string without the separator is its own only
      piece (even when empty); otherwise the pieces without the trailing
      empty ones. */
  function Split(s: string): seq<string>
  {
    if FindFrom(s, 0).None? then [s] else DropTrailingEmpty(Pieces(s))
  }

  /** `new Point(String)`: the x coordinate is read before the second piece is
      looked up, so a malformed x wins over a missing y. */
  function ParsePoint(line: string): (r: Result<Point>)
    ensures r.Err? ==> r.error in {IndexOutOfBounds, NumberFormat}
    ensures r.Ok? ==> -(IntBound as int) <= r.value.x < IntBound && -(IntBound as int) <= r.value.y < IntBound
  {
    var parts := Split(line);
    if |parts| < 1 then Err(IndexOutOfBounds)
    else
      var x :- ParseSigned(parts[0], IntBound);
      if |parts| < 2 then Err(IndexOutOfBounds)
      else
        var y :- ParseSigned(parts[1], IntBound);
        Ok(Point(x, y))
  }

  /** A numeral is made of digits and a leading minus sign. */
  lemma NumeralHasNoComma(n: int)
    ensures forall k :: 0 <= k < |FormatInt(n)| ==> FormatInt(n)[k] != ','
  {
    var s := FormatInt(n);
    forall k | 0 <= k < |s| ensures s[k] != ',' {
      if n < 0 && k > 0 {
        assert s[k] == FormatNat(-n)[k - 1];
      }
    }
  }

  /** Printing a point as "x, y" and reading it back gives the point. */
  lemma ParsePointRoundTrip(p: Point)
    requires -(IntBound as int) <= p.x < IntBound && -(IntBound as int) <= p.y < IntBound
    ensures ParsePoint(FormatInt(p.x) + ", " + FormatInt(p.y)) == Ok(p)
  {
    var a, b := FormatInt(p.x), FormatInt(p.y);
    var line := a + ", " + b;
    NumeralHasNoComma(p.x);
    NumeralHasNoComma(p.y);
    assert SeparatorAt(line, |a|);
    forall k | 0 <= k < |a| ensures !SeparatorAt(line, k) {
      assert line[k] == a[k];
    }
    assert FindFrom(line, 0) == Some(|a|);
    assert line[..|a|] == a;
    assert line[|a| + 2..] == b;
    forall k | 0 <= k ensures !SeparatorAt(b, k) {
    }
    assert Pieces(b) == [b];
    assert Pieces(line) == [a, b];
    assert Split(line) == [a, b];
    ParseFormatRoundTrip(p.x, IntBound);
    ParseFormatRoundTrip(p.y, IntBound);
  }

  // ---------------------------------------------------------------------
  // Distances and the unique closest point.

  /** `getManhattanDistance`. */
  function Manhattan(a: Point, b: Point): (d: nat)
    ensures d == 0 <==> a == b
  {
    Abs(a.x - b.x) + Abs(a.y - b.y)
  }

  /** The distance is a metric: symmetric, zero exactly between equal
      points, and never longer than a detour through a third point. */
  lemma ManhattanMetric(a: Point, b: Point, c: Point)
    ensures Manhattan(a, b) == Manhattan(b, a)
    ensures Manhattan(a, b) == 0 <==> a == b
    ensures Manhattan(a, c) <= Manhattan(a, b) + Manhattan(b, c)
  {
  }

  /** Point `p` is strictly closer to `q` than every other point. */
  predicate UniqueNearest(points: seq<Point>, q: Point, p: nat)
  {
    && p < |points|
    && forall j :: 0 <= j < |points| && j != p ==> Manhattan(points[p], q) < Manhattan(points[j], q)
  }

  /** The loop of `getPointClosestTo` from point `i` on, with the shortest
      distance seen so far and the current candidate (`null` after a tie). */
  function ClosestScan(points: seq<Point>, q: Point, i: nat, shortest: int, closest: Option<nat>): Option<nat>
    decreases |points| - i
  {
    if i >= |points| then closest
    else
      var d := Manhattan(points[i], q);
      if d < shortest then ClosestScan(points, q, i + 1, d, Some(i))
      else if d == shortest then ClosestScan(points, q, i + 1, shortest, None)
      else ClosestScan(points, q, i + 1, shortest, closest)
  }

  /** `getPointClosestTo`: the id of the closest point, if unique. */
  function ClosestTo(points: seq<Point>, q: Point): Option<nat>
  {
    ClosestScan(points, q, 0, MaxInt, None)
  }

  /** Every distance fits the initial `Integer.MAX_VALUE` of the scan. */
  predicate BelowMaxInt(points: seq<Point>, q: Point)
  {
    forall j :: 0 <= j < |points| ==> Manhattan(points[j], q) < MaxInt
  }

  /** Two points among the first `i` share the distance `d`. */
  predicate TiedAt(points: seq<Point>, q: Point, i: nat, d: int)
  {
    exists j, k :: 0 <= j < k < i && k < |points| && Manhattan(points[j], q) == d && Manhattan(points[k], q) == d
  }

  /** The loop invariant of `getPointClosestTo` after `i` points: `shortest`
      is at most every distance so far; a candidate is the one point at that
      distance; no candidate means a tie at that distance, or that no point
      has been seen yet. */
  predicate ScanInvariant(points: seq<Point>, q: Point, i: nat, shortest: int, closest: Option<nat>)
  {
    && i <= |points| && shortest <= MaxInt
    && (forall j :: 0 <= j < i ==> Manhattan(points[j], q) >= shortest)
    && (closest.Some? ==> closest.value < i && Manhattan(points[closest.value], q) == shortest)
    && (closest.Some? ==> forall j :: 0 <= j < i && j != closest.value ==> Manhattan(points[j], q) > shortest)
    && (closest.None? ==> (i == 0 && shortest == MaxInt) || TiedAt(points, q, i, shortest))
  }

  /** At the end of the loop the invariant gives the unique closest point. */
  lemma ScanEnd(points: seq<Point>, q: Point, shortest: int, closest: Option<nat>)
    requires BelowMaxInt(points, q) && ScanInvariant(points, q, |points|, shortest, closest)
    ensures NearestOutcome(points, q, closest)
  {
    if closest.None? {
      if TiedAt(points, q, |points|, shortest) {
        var j, k :| 0 <= j < k < |points| && Manhattan(points[j], q) == shortest && Manhattan(points[k], q) == shortest;
        forall p: nat ensures !UniqueNearest(points, q, p) {
          if p == j {
            assert Manhattan(points[k], q) == shortest;
          } else {
            assert Manhattan(points[j], q) == shortest;
          }
        }
      }
    }
  }

  /** A strictly closer point becomes the candidate. */
  lemma ScanCloser(points: seq<Point>, q: Point, i: nat, shortest: int, closest: Option<nat>)
    requires ScanInvariant(points, q, i, shortest, closest)
    requires i < |points| && Manhattan(points[i], q) < shortest
    ensures ScanInvariant(points, q, i + 1, Manhattan(points[i], q), Some(i))
  {
  }

  /** A distance equal to the shortest one is a tie. */
  lemma ScanTie(points: seq<Point>, q: Point, i: nat, shortest: int, closest: Option<nat>)
    requires BelowMaxInt(points, q) && ScanInvariant(points, q, i, shortest, closest)
    requires i < |points| && Manhattan(points[i], q) == shortest
    ensures ScanInvariant(points, q, i + 1, shortest, None)
  {
    if closest.Some? {
      assert TiedAt(points, q, i + 1, shortest) by {
        assert closest.value < i < |points|;
      }
    } else {
      assert TiedAt(points, q, i, shortest);
      var j, k :| 0 <= j < k < i && k < |points| && Manhattan(points[j], q) == shortest && Manhattan(points[k], q) == shortest;
      assert TiedAt(points, q, i + 1, shortest);
    }
  }

  /** A farther point changes nothing. */
  lemma ScanFarther(points: seq<Point>, q: Point, i: nat, shortest: int, closest: Option<nat>)
    requires BelowMaxInt(points, q) && ScanInvariant(points, q, i, shortest, closest)
    requires i < |points| && Manhattan(points[i], q) > shortest
    ensures ScanInvariant(points, q, i + 1, shortest, closest)
  {
    if closest.None? && TiedAt(points, q, i, shortest) {
      var j, k :| 0 <= j < k < i && k < |points| && Manhattan(points[j], q) == shortest && Manhattan(points[k], q) == shortest;
      assert TiedAt(points, q, i + 1, shortest);
    }
  }

  /** The outcome of the scan names the point strictly closer than all
      others, or nothing when there is no such point. */
  ghost predicate NearestOutcome(points: seq<Point>, q: Point, r: Option<nat>)
  {
    && (r.Some? ==> UniqueNearest(points, q, r.value))
    && (r.None? ==> forall p :: !UniqueNearest(points, q, p))
  }

  /** The scan keeps its invariant to the end, by induction on the points
      left. */
  lemma {:induction false} ClosestScanSpec(points: seq<Point>, q: Point, i: nat, shortest: int, closest: Option<nat>)
    requires BelowMaxInt(points, q) && ScanInvariant(points, q, i, shortest, closest)
    ensures NearestOutcome(points, q, ClosestScan(points, q, i, shortest, closest))
    decreases |points| - i
  {
    if i == |points| {
      ScanEnd(points, q, shortest, closest);
    } else {
      var d := Manhattan(points[i], q);
      if d < shortest {
        ScanCloser(points, q, i, shortest, closest);
        ClosestScanSpec(points, q, i + 1, d, Some(i));
      } else if d == shortest {
        ScanTie(points, q, i, shortest, closest);
        ClosestScanSpec(points, q, i + 1, shortest, None);
      } else {
        ScanFarther(points, q, i, shortest, closest);
        ClosestScanSpec(points, q, i + 1, shortest, closest);
      }
    }
  }

  /** When every distance is below `Integer.MAX_VALUE`, the scan returns the
      point strictly closer than all others, and nothing when the minimum
      distance is shared. */
  lemma ClosestToSpec(points: seq<Point>, q: Point)
    requires BelowMaxInt(points, q)
    ensures ClosestTo(points, q).Some? ==> UniqueNearest(points, q, ClosestTo(points, q).value)
    ensures ClosestTo(points, q).None? <==> forall p :: !UniqueNearest(points, q, p)
  {
    ClosestScanSpec(points, q, 0, MaxInt, None);
  }

  // ---------------------------------------------------------------------
  // The bounding box.

  /** The cells (x, y) of column x with 0 <= y < ly, top to bottom. */
  function Column(x: int, ly: int): (r: seq<Point>)
    ensures forall c :: c in r <==> c.x == x && 0 <= c.y < ly
    ensures NoDuplicates(r)
    ensures |r| == Max(0, ly)
  {
    if ly <= 0 then [] else Column(x, ly - 1) + [Point(x, ly - 1)]
  }

  /** The cells of [0, lx) x [0, ly) in the order of the nested loops: x
      outer, y inner. */
  function Cells(lx: int, ly: int): (r: seq<Point>)
    ensures forall c :: c in r <==> 0 <= c.x < lx && 0 <= c.y < ly
    ensures NoDuplicates(r)
    ensures |r| == Max(0, lx) * Max(0, ly)
  {
    if lx <= 0 then []
    else
      var init := Cells(lx - 1, ly);
      var col := Column(lx - 1, ly);
      NoDuplicatesAppend(init, col);
      MulStep(lx, Max(0, ly));
      init + col
  }

  /** The largest x coordinate (`getMaximumX`); the caller has at least one
      point. */
  function MaxX(points: seq<Point>): (m: int)
    requires |points| > 0
    ensures exists j :: 0 <= j < |points| && points[j].x == m
    ensures forall j :: 0 <= j < |points| ==> points[j].x <= m
  {
    if |points| == 1 then points[0].x
    else
      var m := MaxX(points[..|points| - 1]);
      assert forall j :: 0 <= j < |points| - 1 ==> points[..|points| - 1][j] == points[j];
      Max(m, points[|points| - 1].x)
  }

  /** The largest y coordinate (`getMaximumY`). */
  function MaxY(points: seq<Point>): (m: int)
    requires |points| > 0
    ensures exists j :: 0 <= j < |points| && points[j].y == m
    ensures forall j :: 0 <= j < |points| ==> points[j].y <= m
  {
    if |points| == 1 then points[0].y
    else
      var m := MaxY(points[..|points| - 1]);
      assert forall j :: 0 <= j < |points| - 1 ==> points[..|points| - 1][j] == points[j];
      Max(m, points[|points| - 1].y)
  }

  // ---------------------------------------------------------------------
  // Part one: regions.

  /** The number of `cells` owned by point `id`. */
  function Owned(points: seq<Point>, cells: seq<Point>, id: nat): (n: nat)
    ensures n <= |cells|
  {
    if |cells| == 0 then 0
    else Owned(points, cells[..|cells| - 1], id) + (if ClosestTo(points, cells[|cells| - 1]) == Some(id) then 1 else 0)
  }

  /** The region sizes of `createRegions` before filtering: for each owned
      cell, in loop order, the owner's entry goes up by one. */
  function Regions(points: seq<Point>, cells: seq<Point>): map<nat, nat>
  {
    if |cells| == 0 then map[]
    else
      var m := Regions(points, cells[..|cells| - 1]);
      match ClosestTo(points, cells[|cells| - 1])
      case None => m
      case Some(id) => m[id := (if id in m then m[id] else 0) + 1]
  }

  /** A point has an entry exactly when it owns a cell, and the entry is the
      number of cells it owns. */
  lemma {:induction false} RegionsCount(points: seq<Point>, cells: seq<Point>, id: nat)
    ensures id in Regions(points, cells) <==> Owned(points, cells, id) > 0
    ensures id in Regions(points, cells) ==> Regions(points, cells)[id] == Owned(points, cells, id)
  {
    if |cells| > 0 {
      RegionsCount(points, cells[..|cells| - 1], id);
    }
  }

  /** Every owner is one of the points. */
  lemma ClosestIsAPoint(points: seq<Point>, q: Point)
    ensures ClosestTo(points, q).Some? ==> ClosestTo(points, q).value < |points|
  {
    ClosestScanBound(points, q, 0, MaxInt, None);
  }

  lemma {:induction false} ClosestScanBound(points: seq<Point>, q: Point, i: nat, shortest: int, closest: Option<nat>)
    requires closest.Some? ==> closest.value < |points|
    ensures var r := ClosestScan(points, q, i, shortest, closest); r.Some? ==> r.value < |points|
    decreases |points| - i
  {
    if i < |points| {
      var d := Manhattan(points[i], q);
      if d < shortest {
        ClosestScanBound(points, q, i + 1, d, Some(i));
      } else if d == shortest {
        ClosestScanBound(points, q, i + 1, shortest, None);
      } else {
        ClosestScanBound(points, q, i + 1, shortest, closest);
      }
    }
  }

  /** The number of `cells` owned by any of the points `0 .. n - 1`,
      summed point by point. */
  function OwnedBelow(points: seq<Point>, cells: seq<Point>, n: nat): nat
  {
    if n == 0 then 0 else OwnedBelow(points, cells, n - 1) + Owned(points, cells, n - 1)
  }

  /** No cell is counted twice: the region sizes add up to at most the number
      of cells. */
  lemma {:induction false} RegionsWithinBox(points: seq<Point>, cells: seq<Point>, n: nat)
    ensures OwnedBelow(points, cells, n) <= |cells|
  {
    if |cells| > 0 {
      RegionsWithinBox(points, cells[..|cells| - 1], n);
      OwnedBelowStep(points, cells, n);
    } else {
      NothingOwned(points, cells, n);
    }
  }

  lemma {:induction false} NothingOwned(points: seq<Point>, cells: seq<Point>, n: nat)
    requires |cells| == 0
    ensures OwnedBelow(points, cells, n) == 0
  {
    if n > 0 {
      NothingOwned(points, cells, n - 1);
    }
  }

  /** Adding a cell adds one to the total when its owner is among the first
      `n` points, and nothing otherwise. */
  lemma {:induction false} OwnedBelowStep(points: seq<Point>, cells: seq<Point>, n: nat)
    requires |cells| > 0
    ensures var o := ClosestTo(points, cells[|cells| - 1]);
      OwnedBelow(points, cells, n) ==
        OwnedBelow(points, cells[..|cells| - 1], n) + (if o.Some? && o.value < n then 1 else 0)
  {
    if n > 0 {
      OwnedBelowStep(points, cells, n - 1);
    }
  }

  /** The cells the border loops of `detectInfiniteRegions` visit: the top
      and bottom row for each x, then the left and right column for each y. */
  function BorderCells(lx: nat, ly: nat): (r: seq<Point>)
    requires lx > 0 && ly > 0
  {
    seq(2 * lx, k requires 0 <= k < 2 * lx => if k % 2 == 0 then Point(k / 2, 0) else Point(k / 2, ly - 1))
    + seq(2 * ly, k requires 0 <= k < 2 * ly => if k % 2 == 0 then Point(0, k / 2) else Point(lx - 1, k / 2))
  }

  /** A cell of the box lies on its edge. */
  predicate OnBorder(c: Point, lx: int, ly: int)
  {
    && 0 <= c.x < lx && 0 <= c.y < ly
    && (c.x == 0 || c.x == lx - 1 || c.y == 0 || c.y == ly - 1)
  }

  /** The loops visit exactly the edge cells of the box. */
  lemma BorderCellsSpec(lx: nat, ly: nat, c: Point)
    requires lx > 0 && ly > 0
    ensures c in BorderCells(lx, ly) <==> OnBorder(c, lx, ly)
  {
    var b := BorderCells(lx, ly);
    if OnBorder(c, lx, ly) {
      if c.y == 0 {
        assert b[2 * c.x] == c;
      } else if c.y == ly - 1 {
        assert b[2 * c.x + 1] == c;
      } else if c.x == 0 {
        assert b[2 * lx + 2 * c.y] == c;
      } else {
        assert b[2 * lx + 2 * c.y + 1] == c;
      }
    }
  }

  /** `detectInfiniteRegions`: the owners of the border cells. A box with no
      column but some rows, or some columns but no row, indexes an empty
      array. */
  function InfiniteRegions(points: seq<Point>, lx: int, ly: int): (r: Result<set<nat>>)
    ensures r.Err? <==> (lx > 0 && ly == 0) || (lx == 0 && ly > 0)
  {
    if (lx > 0 && ly == 0) || (lx == 0 && ly > 0) then Err(IndexOutOfBounds)
    else if lx <= 0 || ly <= 0 then Ok({})
    else
      var border := BorderCells(lx, ly);
      Ok(set c | c in border && ClosestTo(points, c).Some? :: ClosestTo(points, c).value)
  }

  /** A border owner is infinite, and nothing else is. */
  lemma InfiniteRegionsSpec(points: seq<Point>, lx: int, ly: int, id: nat)
    requires lx >= 0 && ly >= 0 && InfiniteRegions(points, lx, ly).Ok?
    ensures id in InfiniteRegions(points, lx, ly).value <==>
              exists c :: OnBorder(c, lx, ly) && ClosestTo(points, c) == Some(id)
  {
    if lx > 0 && ly > 0 {
      if exists c :: OnBorder(c, lx, ly) && ClosestTo(points, c) == Some(id) {
        var c :| OnBorder(c, lx, ly) && ClosestTo(points, c) == Some(id);
        BorderCellsSpec(lx, ly, c);
      }
      if id in InfiniteRegions(points, lx, ly).value {
        var c :| c in BorderCells(lx, ly) && ClosestTo(points, c) == Some(id);
        BorderCellsSpec(lx, ly, c);
      }
    }
  }

  /** `filterOutInfiniteRegions`. */
  function FilterOut(regions: map<nat, nat>, infinite: set<nat>): map<nat, nat>
  {
    map id | id in regions && id !in infinite :: regions[id]
  }

  /** The region sizes over the box [0, lx) x [0, ly) without the
      infinite ones. */
  function BoxRegions(points: seq<Point>, lx: int, ly: int): Result<map<nat, nat>>
  {
    var infinite :- InfiniteRegions(points, lx, ly);
    Ok(FilterOut(Regions(points, Cells(lx, ly)), infinite))
  }

  /** A point keeps a region exactly when it owns some cell of the box and
      no cell of its border; its size is the number of cells it owns. */
  lemma BoxRegionsSpec(points: seq<Point>, lx: int, ly: int, id: nat)
    requires lx >= 0 && ly >= 0 && BoxRegions(points, lx, ly).Ok?
    ensures var regions := BoxRegions(points, lx, ly).value;
      && (id in regions <==>
            Owned(points, Cells(lx, ly), id) > 0 && forall c :: OnBorder(c, lx, ly) ==> ClosestTo(points, c) != Some(id))
      && (id in regions ==> regions[id] == Owned(points, Cells(lx, ly), id))
  {
    RegionsCount(points, Cells(lx, ly), id);
    InfiniteRegionsSpec(points, lx, ly, id);
  }

  /** `createRegions`: the box reaches the largest coordinates; a negative
      length is a NegativeArraySizeException. */
  function FiniteRegions(points: seq<Point>): (r: Result<map<nat, nat>>)
    requires |points| > 0
  {
    var lx, ly := MaxX(points) + 1, MaxY(points) + 1;
    if lx < 0 || ly < 0 then Err(NegativeArraySize) else BoxRegions(points, lx, ly)
  }

  /** The largest of the entries of `regions` for the ids below `n`. */
  function LargestBelow(regions: map<nat, nat>, n: nat): (r: Option<nat>)
    ensures r.None? <==> forall id :: id < n ==> id !in regions
    ensures r.Some? ==> exists id :: id < n && id in regions && regions[id] == r.value
    ensures r.Some? ==> forall id :: id < n && id in regions ==> regions[id] <= r.value
  {
    if n == 0 then None
    else
      var r := LargestBelow(regions, n - 1);
      var id := n - 1;
      if id !in regions then r
      else if r.None? then Some(regions[id])
      else Some(Max(r.value, regions[id]))
  }

  /** Every region key is a point id. */
  lemma RegionKeys(points: seq<Point>, cells: seq<Point>, id: nat)
    requires id in Regions(points, cells)
    ensures id < |points|
  {
    RegionsCount(points, cells, id);
    if id >= |points| {
      OwnedByNoOne(points, cells, id);
    }
  }

  lemma {:induction false} OwnedByNoOne(points: seq<Point>, cells: seq<Point>, id: nat)
    requires id >= |points|
    ensures Owned(points, cells, id) == 0
  {
    if |cells| > 0 {
      OwnedByNoOne(points, cells[..|cells| - 1], id);
      ClosestIsAPoint(points, cells[|cells| - 1]);
    }
  }

  /** `getLargestRegion`: the largest finite region; none left is a
      NoSuchElementException, and so is an empty input. */
  function LargestRegion(points: seq<Point>): Result<int>
  {
    if |points| == 0 then Err(NoSuchElement)
    else
      var regions :- FiniteRegions(points);
      match LargestBelow(regions, |points|)
      case None => Err(NoSuchElement)
      case Some(v) => Ok(v)
  }

  /** The answer is the size of some finite region and no finite region is
      larger; the search fails only when no finite region exists. */
  lemma LargestRegionSpec(points: seq<Point>)
    requires |points| > 0 && FiniteRegions(points).Ok?
    ensures var regions := FiniteRegions(points).value;
      && (LargestRegion(points).Err? <==> |regions| == 0)
      && (LargestRegion(points).Ok? ==>
            && (exists id :: id in regions && regions[id] == LargestRegion(points).value)
            && (forall id :: id in regions ==> regions[id] <= LargestRegion(points).value))
  {
    var lx, ly := MaxX(points) + 1, MaxY(points) + 1;
    var regions := FiniteRegions(points).value;
    forall id | id in regions ensures id < |points| {
      RegionKeys(points, Cells(lx, ly), id);
    }
    if |regions| > 0 {
      var id :| id in regions;
      assert id < |points|;
    }
  }

  // ---------------------------------------------------------------------
  // Part two: total distance.

  /** `getTotalDistanceTo`: the distances to all points, accumulated in
      order. */
  function TotalDistance(points: seq<Point>, q: Point): nat
  {
    if |points| == 0 then 0 else TotalDistance(points[..|points| - 1], q) + Manhattan(points[|points| - 1], q)
  }

  /** The total is at least each single distance, and zero exactly when every
      point is `q`. */
  lemma {:induction false} TotalDistanceSpec(points: seq<Point>, q: Point)
    ensures forall j :: 0 <= j < |points| ==> Manhattan(points[j], q) <= TotalDistance(points, q)
    ensures TotalDistance(points, q) == 0 <==> forall j :: 0 <= j < |points| ==> points[j] == q
  {
    if |points| > 0 {
      var init := points[..|points| - 1];
      TotalDistanceSpec(init, q);
      assert forall j :: 0 <= j < |init| ==> init[j] == points[j];
      ManhattanMetric(points[|points| - 1], q, q);
      forall j | 0 <= j < |init| ensures Manhattan(points[j], q) == 0 <==> points[j] == q {
        ManhattanMetric(points[j], q, q);
      }
    }
  }

  /** The number of `cells` whose total distance is below `bound`. */
  function Within(points: seq<Point>, cells: seq<Point>, bound: int): (n: nat)
    ensures n <= |cells|
  {
    if |cells| == 0 then 0
    else Within(points, cells[..|cells| - 1], bound) + (if TotalDistance(points, cells[|cells| - 1]) < bound then 1 else 0)
  }

  /** A larger bound admits at least as many cells; a bound of zero admits
      none, and a bound above every total admits all. */
  lemma {:induction false} WithinMonotone(points: seq<Point>, cells: seq<Point>, b1: int, b2: int)
    requires b1 <= b2
    ensures Within(points, cells, b1) <= Within(points, cells, b2)
    ensures b1 <= 0 ==> Within(points, cells, b1) == 0
    ensures (forall k :: 0 <= k < |cells| ==> TotalDistance(points, cells[k]) < b2) ==> Within(points, cells, b2) == |cells|
  {
    if |cells| > 0 {
      var init := cells[..|cells| - 1];
      WithinMonotone(points, init, b1, b2);
      assert forall k :: 0 <= k < |init| ==> init[k] == cells[k];
    }
  }

  /** The cells among `cells` whose total distance is below `bound`. */
  ghost function NearCells(points: seq<Point>, cells: seq<Point>, bound: int): set<Point>
  {
    set c | c in cells && TotalDistance(points, c) < bound
  }

  /** The cells (x, y) with 0 <= x <= mx and 0 <= y <= my whose total
      distance is below `bound`. */
  ghost function NearBox(points: seq<Point>, mx: int, my: int, bound: int): set<Point>
  {
    set x, y | 0 <= x <= mx && 0 <= y <= my && TotalDistance(points, Point(x, y)) < bound :: Point(x, y)
  }

  /** Over cells without repetitions, `Within` counts the set of cells
      whose total distance is below the bound. */
  lemma {:induction false} WithinCounts(points: seq<Point>, cells: seq<Point>, bound: int)
    requires NoDuplicates(cells)
    ensures Within(points, cells, bound) == |NearCells(points, cells, bound)|
  {
    if |cells| > 0 {
      var init := cells[..|cells| - 1];
      var last := cells[|cells| - 1];
      assert NoDuplicates(init) by {
        forall i, j | 0 <= i < j < |init| ensures init[i] != init[j] {
          assert init[i] == cells[i] && init[j] == cells[j];
        }
      }
      WithinCounts(points, init, bound);
      NearCellsLast(points, cells, bound);
    }
  }

  /** Adding the last cell adds it to the set of cells below the bound
      exactly when it is below the bound, and it is new there. */
  lemma NearCellsLast(points: seq<Point>, cells: seq<Point>, bound: int)
    requires NoDuplicates(cells) && |cells| > 0
    ensures var init := cells[..|cells| - 1];
            var last := cells[|cells| - 1];
            |NearCells(points, cells, bound)|
            == |NearCells(points, init, bound)| + (if TotalDistance(points, last) < bound then 1 else 0)
  {
    var init := cells[..|cells| - 1];
    var last := cells[|cells| - 1];
    var before := NearCells(points, init, bound);
    var after := NearCells(points, cells, bound);
    assert cells == init + [last];
    assert last !in before by {
      forall k | 0 <= k < |init| ensures init[k] != last {
        assert init[k] == cells[k];
      }
    }
    if TotalDistance(points, last) < bound {
      assert after == before + {last};
    } else {
      assert after == before;
    }
  }

  /** The cells of [0, mx] x [0, my] below the bound, counted. */
  lemma BoxWithin(points: seq<Point>, mx: int, my: int, bound: int)
    ensures Within(points, Cells(mx + 1, my + 1), bound) == |NearBox(points, mx, my, bound)|
  {
    var cells := Cells(mx + 1, my + 1);
    WithinCounts(points, cells, bound);
    var a := NearCells(points, cells, bound);
    var b := NearBox(points, mx, my, bound);
    forall c | c in a ensures c in b {
      assert c == Point(c.x, c.y);
    }
    forall c | c in b ensures c in a {
      var x, y :| 0 <= x <= mx && 0 <= y <= my && TotalDistance(points, Point(x, y)) < bound && c == Point(x, y);
      assert c in cells;
    }
    assert a == b;
  }

  /** `getAmountOfRegionsWithinDistanceOf`: the number of cells (x, y)
      with 0 <= x <= the largest x and 0 <= y <= the largest y whose total
      distance is below `allowed`; no point at all is a
      NoSuchElementException. */
  function WithinDistance(points: seq<Point>, allowed: int): (r: Result<int>)
    ensures r.Err? <==> |points| == 0
    ensures r.Err? ==> r.error == NoSuchElement
    ensures r.Ok? ==> r.value == |NearBox(points, MaxX(points), MaxY(points), allowed)|
    ensures r.Ok? ==> 0 <= r.value <= Max(0, MaxX(points) + 1) * Max(0, MaxY(points) + 1)
  {
    if |points| == 0 then Err(NoSuchElement)
    else
      BoxWithin(points, MaxX(points), MaxY(points), allowed);
      Ok(Within(points, Cells(MaxX(points) + 1, MaxY(points) + 1), allowed))
  }

  // ---------------------------------------------------------------------
  // The solver.

  /** Reads every line; the first malformed line's exception is the
      result. */
  function ReadPoints(lines: seq<string>): Result<seq<Point>>
  {
    MapResult(lines, ParsePoint)
  }

  function SolvePartOne(lines: seq<string>): Result<int>
  {
    var points :- ReadPoints(lines);
    LargestRegion(points)
  }

  function SolvePartTwo(lines: seq<string>): Result<int>
  {
    var points :- ReadPoints(lines);
    WithinDistance(points, AllowedDistance)
  }

  /** Part one's answer is the size of the largest region that does not touch
      the border, for points that parse. */
  lemma PartOneLargestFiniteRegion(lines: seq<string>)
    requires ReadPoints(lines).Ok? && |ReadPoints(lines).value| > 0
    requires FiniteRegions(ReadPoints(lines).value).Ok?
    ensures var points := ReadPoints(lines).value;
      var regions := FiniteRegions(points).value;
      && (SolvePartOne(lines).Ok? <==> |regions| > 0)
      && (SolvePartOne(lines).Ok? ==> exists id :: id in regions && regions[id] == SolvePartOne(lines).value)
      && (SolvePartOne(lines).Ok? ==> forall id :: id in regions ==> regions[id] <= SolvePartOne(lines).value)
  {
    LargestRegionSpec(ReadPoints(lines).value);
  }
}
