/** The stars align: each star moves by its velocity every second. The sky
    is stepped until its height (largest minus smallest y) is at most 10;
    part one draws the sky at that moment, part two counts the seconds. */
module PuzzleDayTen {
  import opened Common
  import opened Decimal
  import opened Template

  datatype Star = Star(x: int, y: int, vx: int, vy: int)

  /** A sky at most this high is aligned. */
  const AlignedHeight: int := 10

  /** `^position=<([ \-\d]*),([ \-\d]*)> velocity=<([ \-\d]*),([ \-\d]*)>$` */
  const StarPattern: Pattern :=
    Text("position=<", Capture(SignedNumber, Text(",", Capture(SignedNumber,
    Text("> velocity=<", Capture(SignedNumber, Text(",", Capture(SignedNumber, Text(">", End)))))))))

  lemma StarPatternShape()
    ensures Separated(StarPattern)
    ensures Classes(StarPattern) == [SignedNumber, SignedNumber, SignedNumber, SignedNumber]
  {
  }

  // ---------------------------------------------------------------------
  // Reading a star.

  /** `Integer.valueOf(group.trim())`. */
  function ParseGroup(g: string): Result<int>
  {
    ParseSigned(Trim(g), IntBound)
  }

  /** `new Stars(line)`: a line the expression rejects is an
      IllegalStateException; the four groups are then read in order. */
  function ParseStar(line: string): (r: Result<Star>)
    ensures r.Err? ==> r.error == IllegalState || r.error == NumberFormat
  {
    StarPatternShape();
    match Match(StarPattern, line)
    case None => Err(IllegalState)
    case Some(gs) => StarOfGroups(gs)
  }

  /** The star from the four groups of a matching line. */
  function StarOfGroups(gs: seq<string>): (r: Result<Star>)
    requires |gs| == 4
    ensures r.Err? ==> r.error == NumberFormat
  {
    var x :- ParseGroup(gs[0]);
    var y :- ParseGroup(gs[1]);
    var vx :- ParseGroup(gs[2]);
    var vy :- ParseGroup(gs[3]);
    Ok(Star(x, y, vx, vy))
  }

  /** A line is rejected as malformed exactly when the star expression does
      not accept it. */
  lemma ParseStarRejects(line: string)
    ensures ParseStar(line) == Err(IllegalState) <==> !Accepts(StarPattern, line)
  {
    StarPatternShape();
    MatchExact(StarPattern, line);
  }

  /** The line of a star, its numbers printed without padding. */
  function FormatStar(s: Star): string
  {
    Fill(StarPattern, [FormatInt(s.x), FormatInt(s.y), FormatInt(s.vx), FormatInt(s.vy)])
  }

  /** A printed integer is a group of the number class that reads back. */
  lemma ParseIntGroup(n: int)
    requires -(IntBound as int) <= n < IntBound
    ensures AllIn(SignedNumber, FormatInt(n))
    ensures ParseGroup(FormatInt(n)) == Ok(n)
  {
    var s := FormatInt(n);
    forall i | 0 <= i < |s| ensures InClass(SignedNumber, s[i]) && !IsTrimmed(s[i]) {
      if n < 0 && i > 0 {
        assert s[i] == FormatNat(-n)[i - 1];
      }
    }
    assert Trim(s) == s by {
      assert LeadingCount(s) == 0;
      assert TrailingStart(s) == |s|;
    }
    ParseFormatRoundTrip(n, IntBound);
  }

  /** Every star whose numbers fit an `int` is read back from its line. */
  lemma ParseFormatStar(s: Star)
    requires -(IntBound as int) <= s.x < IntBound && -(IntBound as int) <= s.y < IntBound
    requires -(IntBound as int) <= s.vx < IntBound && -(IntBound as int) <= s.vy < IntBound
    ensures ParseStar(FormatStar(s)) == Ok(s)
  {
    var gs := GroupsOfStar(s);
    StarPatternShape();
    MatchComplete(StarPattern, gs);
  }

  /** The printed numbers of a star fit the groups and read back. */
  lemma GroupsOfStar(s: Star) returns (gs: seq<string>)
    requires -(IntBound as int) <= s.x < IntBound && -(IntBound as int) <= s.y < IntBound
    requires -(IntBound as int) <= s.vx < IntBound && -(IntBound as int) <= s.vy < IntBound
    ensures gs == [FormatInt(s.x), FormatInt(s.y), FormatInt(s.vx), FormatInt(s.vy)]
    ensures GroupsFit([SignedNumber, SignedNumber, SignedNumber, SignedNumber], gs)
    ensures StarOfGroups(gs) == Ok(s)
  {
    gs := [FormatInt(s.x), FormatInt(s.y), FormatInt(s.vx), FormatInt(s.vy)];
    ParseIntGroup(s.x);
    ParseIntGroup(s.y);
    ParseIntGroup(s.vx);
    ParseIntGroup(s.vy);
    FourNumberGroups(gs[0], gs[1], gs[2], gs[3]);
  }

  lemma FourNumberGroups(a: string, b: string, c: string, d: string)
    requires AllIn(SignedNumber, a) && AllIn(SignedNumber, b) && AllIn(SignedNumber, c) && AllIn(SignedNumber, d)
    ensures GroupsFit([SignedNumber, SignedNumber, SignedNumber, SignedNumber], [a, b, c, d])
  {
  }

  // ---------------------------------------------------------------------
  // Motion.

  /** `Stars.move`: one second of motion. */
  function Move(s: Star): (t: Star)
    ensures t.vx == s.vx && t.vy == s.vy
    ensures t.x - s.x == s.vx && t.y - s.y == s.vy
  {
    Star(s.x + s.vx, s.y + s.vy, s.vx, s.vy)
  }

  /** `moveStars`: every star moves once. */
  function MoveAll(sky: seq<Star>): (r: seq<Star>)
    ensures |r| == |sky|
    ensures forall i :: 0 <= i < |sky| ==> r[i] == Move(sky[i])
  {
    seq(|sky|, i requires 0 <= i < |sky| => Move(sky[i]))
  }

  /** The sky after `n` seconds. */
  function MoveN(sky: seq<Star>, n: nat): seq<Star>
  {
    if n == 0 then sky else MoveAll(MoveN(sky, n - 1))
  }

  /** After `n` seconds each star sits at its start plus `n` times its
      velocity, and its velocity is unchanged. */
  lemma {:induction false} MoveNPosition(sky: seq<Star>, n: nat)
    ensures |MoveN(sky, n)| == |sky|
    ensures forall i :: 0 <= i < |sky| ==>
              MoveN(sky, n)[i] == Star(sky[i].x + n * sky[i].vx, sky[i].y + n * sky[i].vy, sky[i].vx, sky[i].vy)
  {
    if n > 0 {
      MoveNPosition(sky, n - 1);
      forall i | 0 <= i < |sky|
        ensures MoveN(sky, n)[i] == Star(sky[i].x + n * sky[i].vx, sky[i].y + n * sky[i].vy, sky[i].vx, sky[i].vy)
      {
        MulStep(n, sky[i].vx);
        MulStep(n, sky[i].vy);
      }
    }
  }

  // ---------------------------------------------------------------------
  // The extent of the sky: `min()`/`max()` with `orElse(0)`.

  function Xs(sky: seq<Star>): (r: seq<int>)
    ensures |r| == |sky| && forall i :: 0 <= i < |sky| ==> r[i] == sky[i].x
  {
    seq(|sky|, i requires 0 <= i < |sky| => sky[i].x)
  }

  function Ys(sky: seq<Star>): (r: seq<int>)
    ensures |r| == |sky| && forall i :: 0 <= i < |sky| ==> r[i] == sky[i].y
  {
    seq(|sky|, i requires 0 <= i < |sky| => sky[i].y)
  }

  /** The smallest element, or 0 for an empty sequence. */
  function MinOr0(s: seq<int>): int
  {
    if |s| == 0 then 0
    else if |s| == 1 then s[0]
    else Min(MinOr0(s[..|s| - 1]), s[|s| - 1])
  }

  /** The largest element, or 0 for an empty sequence. */
  function MaxOr0(s: seq<int>): int
  {
    if |s| == 0 then 0
    else if |s| == 1 then s[0]
    else Max(MaxOr0(s[..|s| - 1]), s[|s| - 1])
  }

  /** The minimum and maximum are 0 for an empty sequence; otherwise they
      are elements (at positions `lo` and `hi`) bounding every element. */
  lemma {:induction false} ExtremaSpec(s: seq<int>) returns (lo: nat, hi: nat)
    ensures |s| == 0 ==> MinOr0(s) == 0 && MaxOr0(s) == 0
    ensures |s| > 0 ==> lo < |s| && s[lo] == MinOr0(s) && hi < |s| && s[hi] == MaxOr0(s)
    ensures forall i :: 0 <= i < |s| ==> MinOr0(s) <= s[i] <= MaxOr0(s)
  {
    if |s| > 1 {
      var init := s[..|s| - 1];
      lo, hi := ExtremaSpec(init);
      assert forall i :: 0 <= i < |init| ==> init[i] == s[i];
      if s[|s| - 1] < MinOr0(init) {
        lo := |s| - 1;
      }
      if s[|s| - 1] > MaxOr0(init) {
        hi := |s| - 1;
      }
    } else {
      lo, hi := 0, 0;
    }
  }

  /** `calculateHeight`: the spread of the y coordinates. */
  function Height(sky: seq<Star>): int
  {
    MaxOr0(Ys(sky)) - MinOr0(Ys(sky))
  }

  /** The height is never negative, is zero for an empty sky, bounds the
      vertical distance between any two stars and is reached by two of
      them. */
  lemma HeightSpec(sky: seq<Star>) returns (low: nat, high: nat)
    ensures Height(sky) >= 0
    ensures |sky| == 0 ==> Height(sky) == 0
    ensures forall i, j :: 0 <= i < |sky| && 0 <= j < |sky| ==> sky[i].y - sky[j].y <= Height(sky)
    ensures |sky| > 0 ==> low < |sky| && high < |sky| && sky[high].y - sky[low].y == Height(sky)
  {
    low, high := ExtremaSpec(Ys(sky));
  }

  // ---------------------------------------------------------------------
  // Waiting for the alignment.

  /** The loops of `getAlignedStarsRepresentation` and
      `getSecondsToAlignStars`: step until the height is at most 10, giving
      the seconds taken and the sky then. The source loops forever on a sky
      that never aligns; `fuel` bounds the number of steps modelled. */
  function Align(sky: seq<Star>, fuel: nat): Option<(nat, seq<Star>)>
    decreases fuel
  {
    if Height(sky) <= AlignedHeight then Some((0, sky))
    else if fuel == 0 then None
    else
      match Align(MoveAll(sky), fuel - 1)
      case None => None
      case Some((k, aligned)) => Some((k + 1, aligned))
  }

  /** The sky after `n` seconds is aligned, and no earlier one is. */
  predicate FirstAligned(sky: seq<Star>, n: nat)
  {
    && Height(MoveN(sky, n)) <= AlignedHeight
    && forall j :: 0 <= j < n ==> Height(MoveN(sky, j)) > AlignedHeight
  }

  /** Moving first and then `n` times is moving `n + 1` times. */
  lemma {:induction false} MoveNShift(sky: seq<Star>, n: nat)
    ensures MoveN(MoveAll(sky), n) == MoveN(sky, n + 1)
  {
    if n > 0 {
      MoveNShift(sky, n - 1);
    }
  }

  /** A result of the loop is the first aligned second with the sky at that
      second; an aligned sky takes no second. */
  lemma {:induction false} AlignSound(sky: seq<Star>, fuel: nat)
    requires Align(sky, fuel).Some?
    ensures FirstAligned(sky, Align(sky, fuel).value.0)
    ensures Align(sky, fuel).value.1 == MoveN(sky, Align(sky, fuel).value.0)
    ensures Height(sky) <= AlignedHeight ==> Align(sky, fuel).value.0 == 0
    decreases fuel
  {
    if Height(sky) > AlignedHeight {
      var moved := MoveAll(sky);
      AlignSound(moved, fuel - 1);
      var k := Align(moved, fuel - 1).value.0;
      MoveNShift(sky, k);
      forall j | 0 <= j < k + 1 ensures Height(MoveN(sky, j)) > AlignedHeight {
        if j > 0 {
          MoveNShift(sky, j - 1);
        }
      }
    }
  }

  /** With enough fuel the loop stops exactly at the first aligned second. */
  lemma {:induction false} AlignComplete(sky: seq<Star>, n: nat, fuel: nat)
    requires FirstAligned(sky, n) && n <= fuel
    ensures Align(sky, fuel) == Some((n, MoveN(sky, n)))
    decreases n
  {
    if n > 0 {
      var moved := MoveAll(sky);
      FirstAlignedAfterMove(sky, n);
      MoveNShift(sky, n - 1);
      AlignComplete(moved, n - 1, fuel - 1);
      AlignStep(sky, fuel);
    }
  }

  /** An unaligned sky takes one second more than the moved sky. */
  lemma AlignStep(sky: seq<Star>, fuel: nat)
    requires Height(sky) > AlignedHeight && fuel > 0
    requires Align(MoveAll(sky), fuel - 1).Some?
    ensures Align(sky, fuel).Some?
    ensures Align(sky, fuel).value.0 == Align(MoveAll(sky), fuel - 1).value.0 + 1
    ensures Align(sky, fuel).value.1 == Align(MoveAll(sky), fuel - 1).value.1
  {
  }

  /** Waiting `n > 0` seconds from an unaligned sky is waiting `n - 1`
      seconds after the first move. */
  lemma FirstAlignedAfterMove(sky: seq<Star>, n: nat)
    requires FirstAligned(sky, n) && n > 0
    ensures Height(sky) > AlignedHeight
    ensures FirstAligned(MoveAll(sky), n - 1)
  {
    assert Height(MoveN(sky, 0)) > AlignedHeight;
    var moved := MoveAll(sky);
    MoveNShift(sky, n - 1);
    forall j | 0 <= j < n - 1 ensures Height(MoveN(moved, j)) > AlignedHeight {
      MoveNShift(sky, j);
    }
  }

  // ---------------------------------------------------------------------
  // Drawing the sky.

  /** `hasPointFor`: some star sits at (x, y). */
  predicate HasStarAt(sky: seq<Star>, x: int, y: int)
  {
    exists i :: 0 <= i < |sky| && sky[i].x == x && sky[i].y == y
  }

  /** One row of the drawing: a character per column from `x` to `maxX`. */
  function RowFrom(sky: seq<Star>, y: int, x: int, maxX: int): (r: string)
    ensures |r| == Max(0, maxX - x + 1)
    ensures forall c :: 0 <= c < |r| ==> r[c] == if HasStarAt(sky, x + c, y) then '#' else '.'
    decreases maxX - x + 1
  {
    if x > maxX then ""
    else [if HasStarAt(sky, x, y) then '#' else '.'] + RowFrom(sky, y, x + 1, maxX)
  }

  /** The rows from `y` to `maxY`, each followed by a line break. */
  function RowsFrom(sky: seq<Star>, y: int, maxY: int, minX: int, maxX: int): (r: seq<string>)
    ensures |r| == Max(0, maxY - y + 1)
    ensures forall k :: 0 <= k < |r| ==> r[k] == RowFrom(sky, y + k, minX, maxX) + "\n"
    decreases maxY - y + 1
  {
    if y > maxY then []
    else [RowFrom(sky, y, minX, maxX) + "\n"] + RowsFrom(sky, y + 1, maxY, minX, maxX)
  }

  function Concat(ss: seq<string>): string
  {
    if |ss| == 0 then "" else ss[0] + Concat(ss[1..])
  }

  /** Strings of one length `w` concatenate to `|ss| * w` characters. */
  lemma {:induction false} ConcatUniform(ss: seq<string>, w: nat)
    requires forall k :: 0 <= k < |ss| ==> |ss[k]| == w
    ensures |Concat(ss)| == |ss| * w
  {
    if |ss| > 0 {
      ConcatUniform(ss[1..], w);
      MulStep(|ss|, w);
    }
  }

  /** The column of the first character of a row. */
  function Left(sky: seq<Star>): int { MinOr0(Xs(sky)) }

  /** The y coordinate of the first row. */
  function Top(sky: seq<Star>): int { MinOr0(Ys(sky)) }

  /** The number of characters of a row before its line break. */
  function Width(sky: seq<Star>): int { MaxOr0(Xs(sky)) - Left(sky) + 1 }

  /** The rows of the drawing. */
  function Rows(sky: seq<Star>): seq<string>
  {
    RowsFrom(sky, Top(sky), MaxOr0(Ys(sky)), Left(sky), MaxOr0(Xs(sky)))
  }

  /** `presentStars`: a line break, then one row per y from the smallest to
      the largest y coordinate. */
  function Render(sky: seq<Star>): string
  {
    "\n" + Concat(Rows(sky))
  }

  /** The drawing is a line break and `height + 1` rows, each of `width`
      characters and a line break. */
  lemma RenderShape(sky: seq<Star>)
    ensures Width(sky) >= 1 && Height(sky) >= 0
    ensures |Rows(sky)| == Height(sky) + 1
    ensures forall r :: 0 <= r < |Rows(sky)| ==> |Rows(sky)[r]| == Width(sky) + 1 && Rows(sky)[r][Width(sky)] == '\n'
    ensures |Render(sky)| == 1 + (Height(sky) + 1) * (Width(sky) + 1)
  {
    var _, _ := ExtremaSpec(Xs(sky));
    var _, _ := ExtremaSpec(Ys(sky));
    ConcatUniform(Rows(sky), Width(sky) + 1);
  }

  /** Character `c` of row `r` is '#' exactly when a star sits at
      (left + c, top + r). */
  lemma RenderCell(sky: seq<Star>, r: nat, c: nat)
    requires r <= Height(sky) && c < Width(sky)
    ensures r < |Rows(sky)| && c < |Rows(sky)[r]|
    ensures Rows(sky)[r][c] == if HasStarAt(sky, Left(sky) + c, Top(sky) + r) then '#' else '.'
  {
    var row := RowFrom(sky, Top(sky) + r, Left(sky), MaxOr0(Xs(sky)));
    assert Rows(sky)[r] == row + "\n";
  }

  // ---------------------------------------------------------------------
  // The solver. `None` stands for a sky that has not aligned within `fuel`
  // seconds, where the source keeps looping.

  function ReadSky(lines: seq<string>): Result<seq<Star>>
  {
    MapResult(lines, ParseStar)
  }

  /** Part one: the drawing of the aligned sky. */
  function SolvePartOne(lines: seq<string>, fuel: nat): Result<Option<string>>
  {
    var sky :- ReadSky(lines);
    match Align(sky, fuel)
    case None => Ok(None)
    case Some((_, aligned)) => Ok(Some(Render(aligned)))
  }

  /** Part two: the number of seconds, as `Integer.toString` writes it. */
  function SolvePartTwo(lines: seq<string>, fuel: nat): Result<Option<string>>
  {
    var sky :- ReadSky(lines);
    match Align(sky, fuel)
    case None => Ok(None)
    case Some((k, _)) => Ok(Some(FormatNat(k)))
  }

  /** For a sky that first aligns after `n` seconds, part one draws the sky
      at second `n` and part two reports `n`, given fuel for `n` steps. */
  lemma SolvedAtFirstAlignment(lines: seq<string>, n: nat, fuel: nat)
    requires ReadSky(lines).Ok? && FirstAligned(ReadSky(lines).value, n) && n <= fuel
    ensures SolvePartOne(lines, fuel) == Ok(Some(Render(MoveN(ReadSky(lines).value, n))))
    ensures SolvePartTwo(lines, fuel) == Ok(Some(FormatNat(n)))
  {
    AlignComplete(ReadSky(lines).value, n, fuel);
  }
}
