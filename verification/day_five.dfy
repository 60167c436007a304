/** Polymer reduction: adjacent units of the same type and opposite polarity
    (the same letter in different case) react and vanish. Part one reduces
    the polymer fully; part two removes one unit type in both cases before
    reducing and keeps the shortest result. */
module PuzzleDayFive {
  import opened Common

  /** `Character.toLowerCase`, for the ASCII letters a polymer is made of. */
  function Lower(c: char): (l: char)
    ensures 'A' <= c <= 'Z' ==> l as int == c as int + 32
    ensures !('A' <= c <= 'Z') ==> l == c
  {
    if 'A' <= c <= 'Z' then (c as int + 32) as char else c
  }

  /** `String.toLowerCase`, character by character. */
  function LowerString(s: string): (t: string)
    ensures |t| == |s|
    ensures forall i :: 0 <= i < |s| ==> t[i] == Lower(s[i])
  {
    if |s| == 0 then "" else [Lower(s[0])] + LowerString(s[1..])
  }

  /** Two units react when they differ but lower-case to the same letter. */
  predicate Reacts(a: char, b: char)
  {
    a != b && Lower(a) == Lower(b)
  }

  /** The units at positions `i` and `i + 1` react. */
  predicate ReactionAt(s: string, i: int)
  {
    0 <= i < |s| - 1 && Reacts(s[i], s[i + 1])
  }

  /** No two adjacent units react. */
  predicate Reduced(s: string)
  {
    forall i :: 0 <= i < |s| - 1 ==> !ReactionAt(s, i)
  }

  /** The scan of `removeFirstReaction`: the first reacting position at or
      after `i`. */
  function FirstReactionFrom(s: string, i: nat): (r: Option<nat>)
    ensures r.Some? ==> i <= r.value && ReactionAt(s, r.value)
    ensures r.Some? ==> forall j :: i <= j < r.value ==> !ReactionAt(s, j)
    ensures r.None? <==> forall j :: i <= j ==> !ReactionAt(s, j)
    decreases |s| - i
  {
    if i + 2 > |s| then None
    else if ReactionAt(s, i) then Some(i)
    else FirstReactionFrom(s, i + 1)
  }

  /** The polymer with the pair at `i` and `i + 1` deleted, defined unit
      by unit; `DeletePairIs` gives it as the two slices the source
      concatenates. */
  function DeletePair(s: string, i: nat): (t: string)
    requires i + 2 <= |s|
    ensures |t| == |s| - 2
    decreases i
  {
    if i == 0 then s[2..] else [s[0]] + DeletePair(s[1..], i - 1)
  }

  /** Deleting the pair at `i` keeps the units before `i` and those after
      `i + 1`. */
  lemma {:induction false} DeletePairIs(s: string, i: nat)
    requires i + 2 <= |s|
    ensures DeletePair(s, i) == s[..i] + s[i + 2..]
    decreases i
  {
    if i == 0 {
      assert s[..0] + s[2..] == s[2..];
    } else {
      var tail := s[1..];
      DeletePairIs(tail, i - 1);
      assert tail[..i - 1] == s[1..i];
      assert tail[i - 1 + 2..] == s[i + 2..];
      calc {
        DeletePair(s, i);
        [s[0]] + DeletePair(tail, i - 1);
        [s[0]] + (s[1..i] + s[i + 2..]);
        ([s[0]] + s[1..i]) + s[i + 2..];
        { assert [s[0]] + s[1..i] == s[..i]; }
        s[..i] + s[i + 2..];
      }
    }
  }

  /** `removeFirstReaction`: deletes the leftmost reacting pair, or returns
      the polymer unchanged when none reacts. */
  function RemoveFirstReaction(s: string): string
  {
    match FirstReactionFrom(s, 0)
    case None => s
    case Some(i) => DeletePair(s, i)
  }

  /** Without a reacting pair the polymer comes back unchanged; otherwise
      exactly the leftmost reacting pair is deleted. */
  lemma RemoveFirstReactionSpec(s: string, i: nat)
    ensures Reduced(s) ==> RemoveFirstReaction(s) == s
    ensures ReactionAt(s, i) && (forall j :: 0 <= j < i ==> !ReactionAt(s, j)) ==>
              RemoveFirstReaction(s) == s[..i] + s[i + 2..]
  {
    if ReactionAt(s, i) && (forall j :: 0 <= j < i ==> !ReactionAt(s, j)) {
      var r := FirstReactionFrom(s, 0);
      assert r.Some?;
      assert r.value == i;
      DeletePairIs(s, i);
    }
  }

  /** A polymer with a reacting pair loses exactly two units. */
  lemma RemoveFirstReactionShrinks(s: string)
    requires !Reduced(s)
    ensures |RemoveFirstReaction(s)| == |s| - 2
  {
  }

  /** One step changes nothing exactly when the polymer is reduced. */
  lemma RemoveFirstReactionFixed(s: string)
    ensures RemoveFirstReaction(s) == s <==> Reduced(s)
  {
    if !Reduced(s) {
      RemoveFirstReactionShrinks(s);
    }
  }

  /** The reference reduction: apply the leftmost reaction until no pair
      reacts. */
  function Reduce(s: string): (r: string)
    ensures Reduced(r)
    ensures |r| <= |s| && |r| % 2 == |s| % 2
    decreases |s|
  {
    if Reduced(s) then s
    else
      RemoveFirstReactionShrinks(s);
      ParityDownByTwo(|s|);
      Reduce(RemoveFirstReaction(s))
  }

  lemma ParityDownByTwo(n: int)
    ensures (n - 2) % 2 == n % 2
  {
  }

  /** Reducing a reduced polymer leaves it alone, so reduction is
      idempotent. */
  lemma ReduceIdempotent(s: string)
    ensures Reduce(Reduce(s)) == Reduce(s)
    ensures Reduced(s) <==> Reduce(s) == s
  {
  }

  /** A reaction step does not change where reduction ends. */
  lemma ReduceStep(s: string)
    ensures Reduce(RemoveFirstReaction(s)) == Reduce(s)
  {
    RemoveFirstReactionFixed(s);
  }

  /** `removeAllReactions`: the loop of the source, which stops at the first
      step that changes nothing. */
  method RemoveAllReactions(polymer: string) returns (r: string)
    ensures r == Reduce(polymer)
    ensures Reduced(r) && |r| <= |polymer| && |r| % 2 == |polymer| % 2
  {
    ReduceStep(polymer);
    var withoutReactions := RemoveFirstReaction(polymer);
    while true
      invariant Reduce(withoutReactions) == Reduce(polymer)
      decreases |withoutReactions|
    {
      var current := RemoveFirstReaction(withoutReactions);
      RemoveFirstReactionFixed(withoutReactions);
      if withoutReactions == current {
        break;
      }
      ReduceStep(withoutReactions);
      withoutReactions := current;
    }
    r := withoutReactions;
  }

  // ---------------------------------------------------------------------
  // Part two: unit types.

  /** `split("")` into one-character strings; an empty string splits into a
      single empty part. */
  function SplitChars(s: string): (parts: seq<string>)
    ensures |s| == 0 ==> parts == [""]
    ensures |s| > 0 ==> |parts| == |s| && forall i :: 0 <= i < |s| ==> parts[i] == [s[i]]
  {
    if |s| == 0 then [""] else seq(|s|, i requires 0 <= i < |s| => [s[i]])
  }

  /** `analyzeUnits`: the distinct lower-case units of the polymer, in order
      of first occurrence. */
  function AnalyzeUnits(value: string): seq<string>
  {
    Distinct(SplitChars(LowerString(value)))
  }

  /** The units are distinct, each is the lower case of some unit of the
      polymer, and every unit of the polymer is represented; the empty
      polymer has the single empty unit. */
  lemma AnalyzeUnitsSpec(value: string)
    ensures var units := AnalyzeUnits(value);
      && |units| > 0
      && (forall i, j :: 0 <= i < j < |units| ==> units[i] != units[j])
      && (|value| == 0 ==> units == [""])
      && (|value| > 0 ==> forall u :: u in units <==> exists k :: 0 <= k < |value| && u == [Lower(value[k])])
  {
    var lowered := LowerString(value);
    var parts := SplitChars(lowered);
    if |value| > 0 {
      assert parts[0] in parts;
      forall u
        ensures u in parts <==> exists k :: 0 <= k < |value| && u == [Lower(value[k])]
      {
        if u in parts {
          var k :| 0 <= k < |parts| && parts[k] == u;
          assert u == [Lower(value[k])];
        }
        if exists k :: 0 <= k < |value| && u == [Lower(value[k])] {
          var k :| 0 <= k < |value| && u == [Lower(value[k])];
          assert parts[k] == u;
        }
      }
    } else {
      assert parts == [""];
      assert "" in parts;
    }
  }

  /** `value.replaceAll("(?i)" + unit, "")`: the empty unit removes
      nothing; a one-letter unit removes that letter in both cases. */
  function RemoveUnit(value: string, unit: string): string
  {
    if unit == "" then value else RemoveType(value, unit[0])
  }

  /** Every unit whose lower case is that of `x` removed, the rest kept in
      order. */
  function RemoveType(value: string, x: char): (r: string)
    ensures |r| <= |value|
  {
    if |value| == 0 then ""
    else
      var rest := RemoveType(value[1..], x);
      if Lower(value[0]) == Lower(x) then rest else [value[0]] + rest
  }

  /** No unit of the removed type is left, and every other unit occurs as
      often as before. */
  lemma {:induction false} RemoveTypeSpec(value: string, x: char)
    ensures forall k :: 0 <= k < |RemoveType(value, x)| ==> Lower(RemoveType(value, x)[k]) != Lower(x)
    ensures forall c :: multiset(RemoveType(value, x))[c] ==
                        if Lower(c) == Lower(x) then 0 else multiset(value)[c]
  {
    if |value| > 0 {
      var rest := RemoveType(value[1..], x);
      RemoveTypeSpec(value[1..], x);
      assert value == [value[0]] + value[1..];
      assert multiset(value) == multiset{value[0]} + multiset(value[1..]);
      if Lower(value[0]) != Lower(x) {
        var r := [value[0]] + rest;
        assert multiset(r) == multiset{value[0]} + multiset(rest);
        forall k | 0 <= k < |r| ensures Lower(r[k]) != Lower(x) {
          if k > 0 {
            assert r[k] == rest[k - 1];
          }
        }
      }
    }
  }

  // ---------------------------------------------------------------------
  // Removing a unit type never lengthens the reduced polymer.

  /** Two reactions that share a unit begin and end with the same unit: a
      reacting unit has exactly one partner. */
  lemma ReactsTwice(a: char, b: char, c: char)
    requires Reacts(a, b) && Reacts(b, c)
    ensures a == c
  {
  }

  /** The pair at `j` is the leftmost reacting pair. */
  predicate LeftmostAt(s: string, j: nat)
  {
    ReactionAt(s, j) && forall k :: 0 <= k < j ==> !ReactionAt(s, k)
  }

  /** Any reaction step, not only the leftmost, leads to the same
      reduction. */
  lemma {:induction false} ReduceAnyStep(s: string, i: nat)
    requires ReactionAt(s, i)
    ensures Reduce(DeletePair(s, i)) == Reduce(s)
    decreases |s|, 1
  {
    var j := LeftmostReaction(s, i);
    if i == j {
      LeftmostStep(s, j);
    } else if i == j + 1 {
      OverlapSteps(s, j, i);
    } else {
      DisjointSteps(s, j, i);
    }
  }

  /** A polymer with a reacting pair at `i` has a leftmost one, at or before
      `i`. */
  lemma LeftmostReaction(s: string, i: nat) returns (j: nat)
    requires ReactionAt(s, i)
    ensures j <= i && LeftmostAt(s, j)
  {
    j := FirstReactionFrom(s, 0).value;
  }

  /** Two overlapping pairs: the pair right after the leftmost one deletes to
      the same polymer. */
  lemma OverlapSteps(s: string, j: nat, i: nat)
    requires LeftmostAt(s, j) && ReactionAt(s, i) && i == j + 1
    ensures Reduce(DeletePair(s, i)) == Reduce(s)
  {
    LeftmostStep(s, j);
    DropOverlap(s, j, i);
  }

  /** With the leftmost pair at `j`, deleting a later pair at `i` first
      ends where deleting `j` first does: both pairs still react once the
      other is gone, and deleting both in either order agrees. */
  lemma {:induction false} DisjointSteps(s: string, j: nat, i: nat)
    requires LeftmostAt(s, j) && ReactionAt(s, i) && j + 2 <= i
    ensures Reduce(DeletePair(s, i)) == Reduce(s)
    decreases |s|, 0
  {
    JoinSteps(s, j, i);
    ReduceAnyStep(DeletePair(s, j), i - 2);
  }

  /** The steps of `DisjointSteps` around its recursive call: the pair at
      `i` still reacts once the leftmost pair at `j` is deleted, and if
      deleting it there does not change the reduction, deleting it first
      does not either. */
  lemma JoinSteps(s: string, j: nat, i: nat)
    requires LeftmostAt(s, j) && ReactionAt(s, i) && j + 2 <= i
    ensures ReactionAt(DeletePair(s, j), i - 2)
    ensures Reduce(DeletePair(DeletePair(s, j), i - 2)) == Reduce(DeletePair(s, j)) ==>
              Reduce(DeletePair(s, i)) == Reduce(s)
  {
    var s1 := DeletePair(s, j);
    DeletePairIs(s, j);
    assert s1[i - 2] == s[i] && s1[i - 1] == s[i + 1];
    DropBoth(s, j, i);
    LeftmostStep(s, j);
    LeftmostStep(DeletePair(s, i), j);
  }

  /** Deleting the leftmost reacting pair is the first step of reduction. */
  lemma LeftmostStep(s: string, j: nat)
    requires LeftmostAt(s, j)
    ensures Reduce(s) == Reduce(DeletePair(s, j))
  {
    var r := FirstReactionFrom(s, 0);
    assert r.Some? && r.value == j;
  }

  /** Two overlapping reacting pairs delete to the same polymer. */
  lemma DropOverlap(s: string, j: nat, i: nat)
    requires ReactionAt(s, j) && ReactionAt(s, i) && i == j + 1
    ensures DeletePair(s, i) == DeletePair(s, j)
  {
    ReactsTwice(s[j], s[j + 1], s[j + 2]);
    DeletePairIs(s, j);
    DeletePairIs(s, i);
    assert s[..i] == s[..j] + [s[j + 2]];
    assert s[j + 2..] == [s[j + 2]] + s[i + 2..];
  }

  /** Two reacting pairs j < i that do not overlap: the pair at j stays the
      leftmost once the pair at i is deleted, and deleting both in either
      order gives the same polymer. */
  lemma DropBoth(s: string, j: nat, i: nat)
    requires LeftmostAt(s, j) && ReactionAt(s, i) && j + 2 <= i
    ensures LeftmostAt(DeletePair(s, i), j)
    ensures DeletePair(DeletePair(s, j), i - 2) == DeletePair(DeletePair(s, i), j)
  {
    var s2 := DeletePair(s, i);
    DeletePairIs(s, i);
    forall k | 0 <= k < j
      ensures !ReactionAt(s2, k)
    {
      assert !ReactionAt(s, k);
      assert s2[k] == s[k] && s2[k + 1] == s[k + 1];
    }
    assert s2[j] == s[j] && s2[j + 1] == s[j + 1];
    DeleteLaterPair(s, j, i);
    DeleteEarlierPair(s, j, i);
  }

  /** Deleting the pair at `j`, then the one that was at `i`. */
  lemma DeleteLaterPair(s: string, j: nat, i: nat)
    requires j + 2 <= i && i + 2 <= |s|
    ensures DeletePair(DeletePair(s, j), i - 2) == s[..j] + s[j + 2..i] + s[i + 2..]
  {
    var s1 := DeletePair(s, j);
    DeletePairIs(s, j);
    DeletePairIs(s1, i - 2);
    assert s1[..i - 2] == s[..j] + s[j + 2..i];
    assert s1[i - 2 + 2..] == s[i + 2..];
  }

  /** Deleting the pair at `i`, then the one at `j`. */
  lemma DeleteEarlierPair(s: string, j: nat, i: nat)
    requires j + 2 <= i && i + 2 <= |s|
    ensures DeletePair(DeletePair(s, i), j) == s[..j] + s[j + 2..i] + s[i + 2..]
  {
    var s2 := DeletePair(s, i);
    DeletePairIs(s, i);
    DeletePairIs(s2, j);
    assert s2[..j] == s[..j];
    assert s2[j + 2..] == s[j + 2..i] + s[i + 2..];
  }

  /** Removing a unit type distributes over concatenation. */
  lemma {:induction false} RemoveTypeAppend(a: string, b: string, x: char)
    ensures RemoveType(a + b, x) == RemoveType(a, x) + RemoveType(b, x)
  {
    if |a| == 0 {
      assert a + b == b;
    } else {
      assert (a + b)[1..] == a[1..] + b;
      RemoveTypeAppend(a[1..], b, x);
    }
  }

  /** A reaction step before removing a unit type does not change where
      reduction of the remainder ends: the pair either goes with the type or
      still reacts afterwards. */
  lemma RemoveTypeStep(s: string, j: nat, x: char)
    requires ReactionAt(s, j)
    ensures Reduce(RemoveType(s, x)) == Reduce(RemoveType(DeletePair(s, j), x))
  {
    RemoveTypeAroundPair(s, j, x);
    if Lower(s[j]) != Lower(x) {
      ReactsInside(RemoveType(s[..j], x), [s[j], s[j + 1]], RemoveType(s[j + 2..], x));
    }
  }

  /** Removing a unit type from a polymer with a reacting pair at `j`: the
      pair goes whole with the type, or stays whole between what is left of
      the two sides. */
  lemma RemoveTypeAroundPair(s: string, j: nat, x: char)
    requires ReactionAt(s, j)
    ensures Lower(s[j]) == Lower(x) ==> RemoveType(s, x) == RemoveType(DeletePair(s, j), x)
    ensures Lower(s[j]) != Lower(x) ==>
              && RemoveType(s, x) == RemoveType(s[..j], x) + [s[j], s[j + 1]] + RemoveType(s[j + 2..], x)
              && RemoveType(DeletePair(s, j), x) == RemoveType(s[..j], x) + RemoveType(s[j + 2..], x)
  {
    var a, b := RemoveType(s[..j], x), RemoveType(s[j + 2..], x);
    RemoveTypeAround(s, j, x);
    RemoveTypePair(s[j], s[j + 1], x);
    if Lower(s[j]) == Lower(x) {
      assert a + "" + b == a + b;
    }
  }

  /** A reacting pair between two polymers reacts away without changing the
      reduction. */
  lemma ReactsInside(a: string, pair: string, b: string)
    requires |pair| == 2 && Reacts(pair[0], pair[1])
    ensures Reduce(a + pair + b) == Reduce(a + b)
  {
    DeletePairMiddle(a, pair, b);
    ReduceAnyStep(a + pair + b, |a|);
  }

  /** Removing a unit type from a polymer split around the pair at `j`. */
  lemma RemoveTypeAround(s: string, j: nat, x: char)
    requires j + 2 <= |s|
    ensures RemoveType(s, x) ==
              RemoveType(s[..j], x) + RemoveType([s[j], s[j + 1]], x) + RemoveType(s[j + 2..], x)
    ensures RemoveType(DeletePair(s, j), x) == RemoveType(s[..j], x) + RemoveType(s[j + 2..], x)
  {
    var pair := [s[j], s[j + 1]];
    assert s == s[..j] + pair + s[j + 2..];
    DeletePairIs(s, j);
    RemoveTypeAppend(s[..j] + pair, s[j + 2..], x);
    RemoveTypeAppend(s[..j], pair, x);
    RemoveTypeAppend(s[..j], s[j + 2..], x);
  }

  /** A reacting pair is removed whole or kept whole. */
  lemma RemoveTypePair(c: char, d: char, x: char)
    requires Reacts(c, d)
    ensures RemoveType([c, d], x) == if Lower(c) == Lower(x) then "" else [c, d]
  {
    assert [c, d][1..] == [d] && [d][1..] == "";
  }

  /** Deleting the middle pair of `a + pair + b`. */
  lemma DeletePairMiddle(a: string, pair: string, b: string)
    requires |pair| == 2
    ensures (a + pair + b)[|a|] == pair[0] && (a + pair + b)[|a| + 1] == pair[1]
    ensures DeletePair(a + pair + b, |a|) == a + b
  {
    var u := a + pair + b;
    DeletePairIs(u, |a|);
    assert u[..|a|] == a;
    assert u[|a| + 2..] == b;
  }

  /** Removing a unit type and reducing gives the same as first reducing,
      then removing the type and reducing. */
  lemma {:induction false} RemoveTypeReduce(s: string, x: char)
    ensures Reduce(RemoveType(s, x)) == Reduce(RemoveType(Reduce(s), x))
    decreases |s|
  {
    if !Reduced(s) {
      var j := FirstReactionFrom(s, 0).value;
      var s1 := DeletePair(s, j);
      LeftmostStep(s, j);
      RemoveTypeStep(s, j, x);
      RemoveTypeReduce(s1, x);
    }
  }

  /** Removing one unit type never makes the reduced polymer longer. */
  lemma RemoveUnitShorter(value: string, unit: string)
    ensures |Reduce(RemoveUnit(value, unit))| <= |Reduce(value)|
  {
    if unit != "" {
      RemoveTypeReduce(value, unit[0]);
    }
  }

  /** There is always at least one unit, so `min(...).get()` cannot fail. */
  lemma UnitsNonEmpty(value: string)
    ensures |AnalyzeUnits(value)| > 0
  {
    var parts := SplitChars(LowerString(value));
    assert parts[0] in parts;
  }

  /** The candidates of `getShortestFormPossible`, one per unit. */
  function Candidates(value: string): (cs: seq<string>)
    ensures |cs| == |AnalyzeUnits(value)|
    ensures forall i :: 0 <= i < |cs| ==> cs[i] == Reduce(RemoveUnit(value, AnalyzeUnits(value)[i]))
  {
    var units := AnalyzeUnits(value);
    seq(|units|, i requires 0 <= i < |units| => Reduce(RemoveUnit(value, units[i])))
  }

  /** The position of the first shortest string (`Stream.min` keeps the
      first of equal elements). */
  function ShortestOf(cs: seq<string>): (i: nat)
    requires |cs| > 0
    ensures i < |cs|
    ensures forall j :: 0 <= j < |cs| ==> |cs[i]| <= |cs[j]|
    ensures forall j :: 0 <= j < i ==> |cs[i]| < |cs[j]|
  {
    if |cs| == 1 then 0
    else
      var i := ShortestOf(cs[..|cs| - 1]);
      if |cs[|cs| - 1]| < |cs[i]| then |cs| - 1 else i
  }

  /** `getShortestFormPossible`. */
  function ShortestForm(value: string): string
  {
    UnitsNonEmpty(value);
    var cs := Candidates(value);
    cs[ShortestOf(cs)]
  }

  /** The shortest form is the candidate of some unit `i` (the reduction of
      the polymer without that unit), it is reduced, no candidate is
      shorter, and every earlier candidate is strictly longer. */
  lemma ShortestFormSpec(value: string) returns (i: nat)
    ensures i < |Candidates(value)|
    ensures ShortestForm(value) == Candidates(value)[i]
    ensures forall j :: 0 <= j < |Candidates(value)| ==> |ShortestForm(value)| <= |Candidates(value)[j]|
    ensures forall j :: 0 <= j < i ==> |ShortestForm(value)| < |Candidates(value)[j]|
    ensures Reduced(ShortestForm(value))
  {
    UnitsNonEmpty(value);
    i := ShortestOf(Candidates(value));
  }

  // ---------------------------------------------------------------------
  // The solver: the polymer is the first line of the input.

  function FirstLine(lines: seq<string>): Result<string>
  {
    if |lines| == 0 then Err(IllegalArgument) else Ok(lines[0])
  }

  /** Part one: the length of the fully reduced polymer. */
  method SolvePartOne(lines: seq<string>) returns (r: Result<int>)
    ensures r.Err? <==> |lines| == 0
    ensures r.Err? ==> r.error == IllegalArgument
    ensures r.Ok? ==> r.value == |Reduce(lines[0])| && 0 <= r.value <= |lines[0]|
  {
    var polymer := FirstLine(lines);
    if polymer.Err? {
      return Err(polymer.error);
    }
    var reduced := RemoveAllReactions(polymer.value);
    r := Ok(|reduced|);
  }

  /** Part two: the length of the shortest polymer obtainable by removing
      one unit type and reducing; it never exceeds the length of part one's
      answer. */
  method SolvePartTwo(lines: seq<string>) returns (r: Result<int>)
    ensures r.Err? <==> |lines| == 0
    ensures r.Err? ==> r.error == IllegalArgument
    ensures r.Ok? ==> r.value == |ShortestForm(lines[0])| && r.value <= |Reduce(lines[0])|
    ensures r.Ok? ==> forall k :: 0 <= k < |AnalyzeUnits(lines[0])| ==>
                        r.value <= |Reduce(RemoveUnit(lines[0], AnalyzeUnits(lines[0])[k]))|
  {
    var polymer := FirstLine(lines);
    if polymer.Err? {
      return Err(polymer.error);
    }
    var i := ShortestFormSpec(polymer.value);
    RemoveUnitShorter(polymer.value, AnalyzeUnits(polymer.value)[i]);
    r := Ok(|ShortestForm(polymer.value)|);
  }
}
