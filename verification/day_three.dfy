/** Fabric claims: each line `#id @ left,top: widthxdepth` claims a rectangle
    of square inches. Part one counts the inches claimed more than once;
    part two finds the claim none of whose inches is claimed twice. */
module PuzzleDayThree {
  import opened Common
  import opened Decimal
  import opened Template

  /** One square inch of fabric, counted from 1 at the top-left corner. */
  datatype Inch = Inch(x: int, y: int)

  datatype Claim = Claim(id: int, leftMargin: int, topMargin: int, width: int, depth: int)

  /** `#(\d*)[ ]@[ ](\d*),(\d*):[ ](\d*)x(\d*)` */
  const ClaimPattern: Pattern :=
    Text("#", Capture(Digits, Text(" @ ", Capture(Digits, Text(",", Capture(Digits,
    Text(": ", Capture(Digits, Text("x", Capture(Digits, End))))))))))

  lemma ClaimPatternShape()
    ensures Separated(ClaimPattern)
    ensures Classes(ClaimPattern) == [Digits, Digits, Digits, Digits, Digits]
  {
  }

  /** `new Claim(line)`: a line that does not match is an
      IllegalStateException; the id is read with `Long.valueOf` and the four
      dimensions with `Integer.valueOf`, so an empty or too large group is a
      NumberFormatException. */
  function ParseClaim(line: string): (r: Result<Claim>)
    ensures r.Ok? ==> r.value.leftMargin >= 0 && r.value.topMargin >= 0 && r.value.width >= 0 && r.value.depth >= 0
    ensures r.Ok? ==> 0 <= r.value.id < LongBound
    ensures r.Ok? ==> r.value.leftMargin < IntBound && r.value.topMargin < IntBound
                      && r.value.width < IntBound && r.value.depth < IntBound
    ensures r.Err? ==> r.error == IllegalState || r.error == NumberFormat
  {
    ClaimPatternShape();
    match Match(ClaimPattern, line)
    case None => Err(IllegalState)
    case Some(gs) => ClaimOfGroups(gs)
  }

  /** A line is rejected as malformed exactly when the claim expression
      does not accept it. */
  lemma ParseClaimRejects(line: string)
    ensures ParseClaim(line) == Err(IllegalState) <==> !Accepts(ClaimPattern, line)
  {
    ClaimPatternShape();
    MatchExact(ClaimPattern, line);
  }

  /** The claim from the five groups of a matching line. */
  function ClaimOfGroups(gs: seq<string>): (r: Result<Claim>)
    requires GroupsFit([Digits, Digits, Digits, Digits, Digits], gs)
    ensures r.Ok? ==> r.value.leftMargin >= 0 && r.value.topMargin >= 0 && r.value.width >= 0 && r.value.depth >= 0
    ensures r.Ok? ==> 0 <= r.value.id < LongBound
    ensures r.Ok? ==> r.value.leftMargin < IntBound && r.value.topMargin < IntBound
                      && r.value.width < IntBound && r.value.depth < IntBound
    ensures r.Err? ==> r.error == NumberFormat
  {
    assert AllIn(Digits, gs[0]) && AllIn(Digits, gs[1]) && AllIn(Digits, gs[2])
           && AllIn(Digits, gs[3]) && AllIn(Digits, gs[4]);
    var id :- ParseUnsigned(gs[0], LongBound);
    var left :- ParseUnsigned(gs[1], IntBound);
    var top :- ParseUnsigned(gs[2], IntBound);
    var width :- ParseUnsigned(gs[3], IntBound);
    var depth :- ParseUnsigned(gs[4], IntBound);
    Ok(Claim(id, left, top, width, depth))
  }

  /** `valueOf` of a group of digits: never negative. */
  function ParseUnsigned(s: string, bound: nat): (r: Result<int>)
    requires AllIn(Digits, s)
    ensures r == ParseSigned(s, bound)
    ensures r.Ok? ==> 0 <= r.value < bound
  {
    var r := ParseSigned(s, bound);
    assert r.Ok? ==> IsDigit(s[0]);
    r
  }

  /** The claim line of a claim with natural-number fields. */
  function FormatClaim(c: Claim): string
    requires c.id >= 0 && c.leftMargin >= 0 && c.topMargin >= 0 && c.width >= 0 && c.depth >= 0
  {
    Fill(ClaimPattern, [FormatNat(c.id), FormatNat(c.leftMargin), FormatNat(c.topMargin),
                        FormatNat(c.width), FormatNat(c.depth)])
  }

  /** Every claim whose fields fit their Java types is read back from its
      line. */
  lemma ParseFormatClaim(c: Claim)
    requires 0 <= c.id < LongBound
    requires 0 <= c.leftMargin < IntBound && 0 <= c.topMargin < IntBound
    requires 0 <= c.width < IntBound && 0 <= c.depth < IntBound
    ensures ParseClaim(FormatClaim(c)) == Ok(c)
  {
    var gs := [FormatNat(c.id), FormatNat(c.leftMargin), FormatNat(c.topMargin),
               FormatNat(c.width), FormatNat(c.depth)];
    GroupsOfClaim(c);
    ClaimPatternShape();
    MatchComplete(ClaimPattern, gs);
  }

  lemma GroupsOfClaim(c: Claim)
    requires 0 <= c.id < LongBound
    requires 0 <= c.leftMargin < IntBound && 0 <= c.topMargin < IntBound
    requires 0 <= c.width < IntBound && 0 <= c.depth < IntBound
    ensures GroupsFit([Digits, Digits, Digits, Digits, Digits],
                      [FormatNat(c.id), FormatNat(c.leftMargin), FormatNat(c.topMargin),
                       FormatNat(c.width), FormatNat(c.depth)])
    ensures ClaimOfGroups([FormatNat(c.id), FormatNat(c.leftMargin), FormatNat(c.topMargin),
                           FormatNat(c.width), FormatNat(c.depth)]) == Ok(c)
  {
    ParseNatGroup(c.id, LongBound);
    ParseNatGroup(c.leftMargin, IntBound);
    ParseNatGroup(c.topMargin, IntBound);
    ParseNatGroup(c.width, IntBound);
    ParseNatGroup(c.depth, IntBound);
    FiveDigitGroups(FormatNat(c.id), FormatNat(c.leftMargin), FormatNat(c.topMargin),
                    FormatNat(c.width), FormatNat(c.depth));
  }

  lemma FiveDigitGroups(a: string, b: string, c: string, d: string, e: string)
    requires AllIn(Digits, a) && AllIn(Digits, b) && AllIn(Digits, c) && AllIn(Digits, d) && AllIn(Digits, e)
    ensures GroupsFit([Digits, Digits, Digits, Digits, Digits], [a, b, c, d, e])
  {
  }

  /** A printed natural number is a group of digits that reads back. */
  lemma ParseNatGroup(n: nat, bound: nat)
    requires n < bound
    ensures AllIn(Digits, FormatNat(n))
    ensures ParseUnsigned(FormatNat(n), bound) == Ok(n)
  {
    ParseFormatRoundTrip(n, bound);
  }

  /** The lines in order, stopping at the first line that fails. */
  function ParseClaims(lines: seq<string>): Result<seq<Claim>>
  {
    MapResult(lines, ParseClaim)
  }

  // ---------------------------------------------------------------------
  // Claimed inches.

  /** The inch lies in the claim's rectangle: columns leftMargin + 1 up to
      leftMargin + width, rows topMargin + 1 up to topMargin + depth. */
  predicate Covers(c: Claim, p: Inch)
  {
    c.leftMargin < p.x <= c.leftMargin + c.width && c.topMargin < p.y <= c.topMargin + c.depth
  }

  /** The inches of column x from row topMargin + 1 + j down. */
  function Column(c: Claim, x: int, j: nat): (r: seq<Inch>)
    ensures forall p :: p in r <==> p.x == x && c.topMargin + j < p.y <= c.topMargin + c.depth
    ensures NoDuplicates(r)
    ensures |r| == Max(0, c.depth - j)
    decreases Max(0, c.depth - j)
  {
    if j >= c.depth then [] else [Inch(x, c.topMargin + 1 + j)] + Column(c, x, j + 1)
  }

  /** The inches of columns leftMargin + 1 + i onwards, column by column. */
  function ColumnsFrom(c: Claim, i: nat): (r: seq<Inch>)
    ensures forall p :: p in r <==> c.leftMargin + i < p.x <= c.leftMargin + c.width && Covers(c, p)
    ensures NoDuplicates(r)
    ensures |r| == Max(0, c.width - i) * Max(0, c.depth)
    decreases Max(0, c.width - i)
  {
    if i >= c.width then []
    else
      var col := Column(c, c.leftMargin + 1 + i, 0);
      var rest := ColumnsFrom(c, i + 1);
      NoDuplicatesAppend(col, rest);
      MulStep(c.width - i, Max(0, c.depth));
      col + rest
  }

  /** `getClaimedInches`: column by column, each column top to bottom; every
      covered inch exactly once. */
  function ClaimedInches(c: Claim): (r: seq<Inch>)
    ensures forall p :: p in r <==> Covers(c, p)
    ensures NoDuplicates(r)
    ensures |r| == Max(0, c.width) * Max(0, c.depth)
  {
    ColumnsFrom(c, 0)
  }

  /** In a sequence without duplicates every element occurs once. */
  lemma {:induction false} CountWithoutDuplicates<T>(s: seq<T>, p: T)
    requires NoDuplicates(s)
    ensures multiset(s)[p] == if p in s then 1 else 0
  {
    if |s| > 0 {
      var init := s[..|s| - 1];
      assert s == init + [s[|s| - 1]];
      assert s[|s| - 1] !in init by {
        assert forall k :: 0 <= k < |init| ==> init[k] == s[k] && s[k] != s[|s| - 1];
      }
      assert NoDuplicates(init);
      CountWithoutDuplicates(init, p);
    }
  }

  /** `flatMap(Claim::getClaimedInches)` over the claims. */
  function AllInches(claims: seq<Claim>): seq<Inch>
  {
    if |claims| == 0 then [] else AllInches(claims[..|claims| - 1]) + ClaimedInches(claims[|claims| - 1])
  }

  /** How many claims cover an inch. */
  function Coverage(claims: seq<Claim>, p: Inch): nat
  {
    if |claims| == 0 then 0
    else Coverage(claims[..|claims| - 1], p) + (if Covers(claims[|claims| - 1], p) then 1 else 0)
  }

  /** The number of times an inch appears among all claimed inches is the
      number of claims that cover it. */
  lemma {:induction false} CountIsCoverage(claims: seq<Claim>, p: Inch)
    ensures multiset(AllInches(claims))[p] == Coverage(claims, p)
  {
    if |claims| > 0 {
      var c := claims[|claims| - 1];
      CountIsCoverage(claims[..|claims| - 1], p);
      CountWithoutDuplicates(ClaimedInches(c), p);
    }
  }

  /** An inch is covered at least once exactly when some claim covers it, and
      at least twice exactly when two different claims cover it. */
  lemma CoverageWitnesses(claims: seq<Claim>, p: Inch)
    ensures Coverage(claims, p) >= 1 <==> exists i :: 0 <= i < |claims| && Covers(claims[i], p)
    ensures Coverage(claims, p) >= 2 <==>
      exists i, j :: 0 <= i < j < |claims| && Covers(claims[i], p) && Covers(claims[j], p)
  {
    CoveredOnce(claims, p);
    CoveredTwice(claims, p);
  }

  lemma {:induction false} CoveredOnce(claims: seq<Claim>, p: Inch)
    ensures Coverage(claims, p) >= 1 <==> exists i :: 0 <= i < |claims| && Covers(claims[i], p)
  {
    if |claims| > 0 {
      var init := claims[..|claims| - 1];
      var last := |claims| - 1;
      CoveredOnce(init, p);
      assert forall i :: 0 <= i < last ==> claims[i] == init[i];
      if exists i :: 0 <= i < |claims| && Covers(claims[i], p) {
        var i :| 0 <= i < |claims| && Covers(claims[i], p);
        if i < last {
          assert Covers(init[i], p);
        }
      }
    }
  }

  lemma {:induction false} CoveredTwice(claims: seq<Claim>, p: Inch)
    ensures Coverage(claims, p) >= 2 <==>
      exists i, j :: 0 <= i < j < |claims| && Covers(claims[i], p) && Covers(claims[j], p)
  {
    if |claims| > 0 {
      var init := claims[..|claims| - 1];
      var last := |claims| - 1;
      CoveredOnce(init, p);
      CoveredTwice(init, p);
      assert forall i :: 0 <= i < last ==> claims[i] == init[i];
      if exists i, j :: 0 <= i < j < |claims| && Covers(claims[i], p) && Covers(claims[j], p) {
        var i, j :| 0 <= i < j < |claims| && Covers(claims[i], p) && Covers(claims[j], p);
        assert Covers(init[i], p);
        if j < last {
          assert Covers(init[j], p);
        }
      }
      if Coverage(init, p) >= 2 {
        var i, j :| 0 <= i < j < |init| && Covers(init[i], p) && Covers(init[j], p);
        assert Covers(claims[i], p) && Covers(claims[j], p);
      } else if Coverage(claims, p) >= 2 {
        var i :| 0 <= i < |init| && Covers(init[i], p);
        assert Covers(claims[i], p) && Covers(claims[last], p);
      }
    }
  }

  /** `getOverlappingInches`: the inches that occur more than once among
      all claimed inches. */
  function OverlappingInches(claims: seq<Claim>): set<Inch>
  {
    var all := AllInches(claims);
    set p | p in all && multiset(all)[p] > 1
  }

  /** An inch overlaps exactly when two different claims cover it. */
  lemma OverlapIsTwoClaims(claims: seq<Claim>, p: Inch)
    ensures p in OverlappingInches(claims) <==>
      exists i, j :: 0 <= i < j < |claims| && Covers(claims[i], p) && Covers(claims[j], p)
  {
    CountIsCoverage(claims, p);
    CoverageWitnesses(claims, p);
    assert p in multiset(AllInches(claims)) <==> p in AllInches(claims);
  }

  /** Part one: the number of overlapping inches. */
  function SolvePartOne(lines: seq<string>): Result<nat>
  {
    var claims :- ParseClaims(lines);
    Ok(|OverlappingInches(claims)|)
  }

  /** Two different claims cover the inch. */
  ghost predicate Shared(claims: seq<Claim>, p: Inch)
  {
    exists i, j :: 0 <= i < j < |claims| && Covers(claims[i], p) && Covers(claims[j], p)
  }

  /** Part one counts exactly the claimed inches two different claims
      cover. */
  lemma PartOneCountsSharedInches(lines: seq<string>)
    requires ParseClaims(lines).Ok?
    ensures var claims := ParseClaims(lines).value;
      SolvePartOne(lines) == Ok(|(set p | p in AllInches(claims) && Shared(claims, p))|)
  {
    var claims := ParseClaims(lines).value;
    forall p ensures p in OverlappingInches(claims) <==> p in AllInches(claims) && Shared(claims, p)
    {
      OverlapIsTwoClaims(claims, p);
    }
    assert OverlappingInches(claims) == set p | p in AllInches(claims) && Shared(claims, p);
  }

  // ---------------------------------------------------------------------
  // Part two.

  /** `Claim.contains`: some of the given inches is one of the claim's. */
  predicate Contains(c: Claim, inches: set<Inch>)
  {
    exists p :: p in inches && p in ClaimedInches(c)
  }

  /** A claim is clear of the overlapping inches exactly when no other claim
      covers any of its inches. */
  lemma ClearMeansAlone(claims: seq<Claim>, k: nat)
    requires k < |claims|
    ensures !Contains(claims[k], OverlappingInches(claims)) <==>
      forall j, p :: 0 <= j < |claims| && j != k && Covers(claims[k], p) ==> !Covers(claims[j], p)
  {
    var ov := OverlappingInches(claims);
    if Contains(claims[k], ov) {
      var p :| p in ov && p in ClaimedInches(claims[k]);
      OverlapIsTwoClaims(claims, p);
      var i, j :| 0 <= i < j < |claims| && Covers(claims[i], p) && Covers(claims[j], p);
      var other := if i == k then j else i;
      assert other != k && Covers(claims[other], p);
    } else {
      forall j, p | 0 <= j < |claims| && j != k && Covers(claims[k], p)
        ensures !Covers(claims[j], p)
      {
        OverlapIsTwoClaims(claims, p);
        assert p !in ov;
      }
    }
  }

  /** `filter(c -> !contains(c)).map(Claim::getId).findFirst().get()` from
      index k on; when every claim is filtered out, `get` is a
      NoSuchElementException. */
  function FirstClear(claims: seq<Claim>, contains: Claim -> bool, k: nat): (r: Result<int>)
    requires k <= |claims|
    ensures r.Err? <==> forall i :: k <= i < |claims| ==> contains(claims[i])
    ensures r.Err? ==> r.error == NoSuchElement
    ensures r.Ok? ==> exists i :: k <= i < |claims| && !contains(claims[i]) && r.value == claims[i].id
                        && forall i' :: k <= i' < i ==> contains(claims[i'])
    decreases |claims| - k
  {
    if k == |claims| then Err(NoSuchElement)
    else if !contains(claims[k]) then Ok(claims[k].id)
    else FirstClear(claims, contains, k + 1)
  }

  /** Part two: the id of the first claim none of whose inches overlaps. */
  function SolvePartTwo(lines: seq<string>): Result<int>
  {
    var claims :- ParseClaims(lines);
    var overlapping := OverlappingInches(claims);
    FirstClear(claims, c => Contains(c, overlapping), 0)
  }

  /** Part two answers with the id of the first claim that shares no inch
      with any other claim, and fails exactly when every claim shares one. */
  lemma PartTwoFindsLoneClaim(lines: seq<string>)
    requires ParseClaims(lines).Ok?
    ensures var claims := ParseClaims(lines).value;
      && (SolvePartTwo(lines).Err? <==> forall k :: 0 <= k < |claims| ==> !Alone(claims, k))
      && (SolvePartTwo(lines).Ok? ==>
            exists k :: 0 <= k < |claims| && Alone(claims, k)
              && SolvePartTwo(lines).value == claims[k].id
              && forall k' :: 0 <= k' < k ==> !Alone(claims, k'))
  {
    var claims := ParseClaims(lines).value;
    var overlapping := OverlappingInches(claims);
    var contains := c => Contains(c, overlapping);
    assert SolvePartTwo(lines) == FirstClear(claims, contains, 0);
    ClearIffAlone(claims, overlapping, contains);
    FirstClearIsAlone(claims, contains);
  }

  lemma FirstClearIsAlone(claims: seq<Claim>, contains: Claim -> bool)
    requires forall k :: 0 <= k < |claims| ==> (Alone(claims, k) <==> !contains(claims[k]))
    ensures FirstClear(claims, contains, 0).Err? <==> forall k :: 0 <= k < |claims| ==> !Alone(claims, k)
    ensures FirstClear(claims, contains, 0).Ok? ==>
      exists k :: 0 <= k < |claims| && Alone(claims, k)
        && FirstClear(claims, contains, 0).value == claims[k].id
        && forall k' :: 0 <= k' < k ==> !Alone(claims, k')
  {
  }

  lemma ClearIffAlone(claims: seq<Claim>, overlapping: set<Inch>, contains: Claim -> bool)
    requires overlapping == OverlappingInches(claims)
    requires forall c :: contains(c) == Contains(c, overlapping)
    ensures forall k :: 0 <= k < |claims| ==> (Alone(claims, k) <==> !contains(claims[k]))
  {
    forall k | 0 <= k < |claims|
      ensures Alone(claims, k) <==> !contains(claims[k])
    {
      ClearMeansAlone(claims, k);
    }
  }

  /** No other claim covers any inch of claim k. */
  ghost predicate Alone(claims: seq<Claim>, k: nat)
    requires k < |claims|
  {
    forall j, p :: 0 <= j < |claims| && j != k && Covers(claims[k], p) ==> !Covers(claims[j], p)
  }
}
