/** Box IDs: part one multiplies the number of IDs that contain some letter
    exactly twice by the number that contain some letter exactly three times;
    part two finds the two most similar IDs and returns the letters they share
    position by position. */
module PuzzleDayTwo {
  import opened Common

  // ---------------------------------------------------------------------
  // Part one: letter multiplicities.

  /** `groupingBy(identity(), counting())` over the characters of `s`. */
  function Tally(s: string): (m: map<char, nat>)
    ensures forall c :: c in m <==> c in s
    ensures forall c :: c in m ==> m[c] == multiset(s)[c]
  {
    if |s| == 0 then map[]
    else
      var init := s[..|s| - 1];
      var c := s[|s| - 1];
      var m := Tally(init);
      assert s == init + [c];
      assert multiset(s) == multiset(init) + multiset{c};
      m[c := (if c in m then m[c] else 0) + 1]
  }

  /** `analyze`: the set of letter counts of an ID. `"".split("")` yields a
      single empty part, so the empty ID analyses to {1}. */
  function Analyze(id: string): set<nat>
  {
    if |id| == 0 then {1} else Tally(id).Values
  }

  /** A count belongs to the analysis exactly when some letter occurs that
      many times (or, for the empty ID, when it is the 1 of its one part). */
  lemma AnalyzeCounts(id: string, n: nat)
    ensures n in Analyze(id) <==> (|id| == 0 && n == 1) || (exists c :: c in id && multiset(id)[c] == n)
  {
    if |id| > 0 {
      var m := Tally(id);
      if n in m.Values {
        var c :| c in m && m[c] == n;
      }
      if exists c :: c in id && multiset(id)[c] == n {
        var c :| c in id && multiset(id)[c] == n;
        assert m[c] == n;
      }
    }
  }

  predicate HasTwoLetterMatch(id: string) { 2 in Analyze(id) }

  predicate HasThreeLetterMatch(id: string) { 3 in Analyze(id) }

  /** `hasTwoLetterMatch` holds iff some letter occurs exactly twice, and
      `hasThreeLetterMatch` iff some letter occurs exactly three times. */
  lemma MatchMeansMultiplicity(id: string)
    ensures HasTwoLetterMatch(id) <==> exists c :: multiset(id)[c] == 2
    ensures HasThreeLetterMatch(id) <==> exists c :: multiset(id)[c] == 3
  {
    AnalyzeCounts(id, 2);
    AnalyzeCounts(id, 3);
    if exists c :: multiset(id)[c] == 2 {
      var c :| multiset(id)[c] == 2;
      assert c in multiset(id);
    }
    if exists c :: multiset(id)[c] == 3 {
      var c :| multiset(id)[c] == 3;
      assert c in multiset(id);
    }
  }

  /** `getCheckSumValues`: 2 for a two-letter match, 3 for a three-letter
      match, each at most once, in that order. */
  function CheckSumValues(id: string): (r: seq<int>)
    ensures 2 in r <==> HasTwoLetterMatch(id)
    ensures 3 in r <==> HasThreeLetterMatch(id)
    ensures forall v :: v in r ==> v == 2 || v == 3
    ensures forall i, j :: 0 <= i < j < |r| ==> r[i] < r[j]
  {
    if HasTwoLetterMatch(id) && HasThreeLetterMatch(id) then [2, 3]
    else if HasTwoLetterMatch(id) then [2]
    else if HasThreeLetterMatch(id) then [3]
    else []
  }

  /** `flatMap(CheckSumPart::getCheckSumValues)` over all IDs. */
  function AllCheckSumValues(ids: seq<string>): seq<int>
  {
    if |ids| == 0 then [] else AllCheckSumValues(ids[..|ids| - 1]) + CheckSumValues(ids[|ids| - 1])
  }

  /** The product of the counts of the given keys among `vals`. */
  function ProductOfCounts(vals: seq<int>, keys: seq<int>): nat
  {
    if |keys| == 0 then 1 else multiset(vals)[keys[0]] * ProductOfCounts(vals, keys[1..])
  }

  /** Part one: group the check-sum values, count each group and multiply
      the counts, starting from 1; only values that occur form a group. */
  function SolvePartOne(ids: seq<string>): nat
  {
    var vals := AllCheckSumValues(ids);
    ProductOfCounts(vals, Distinct(vals))
  }

  /** The number of IDs whose analysis contains `n`. */
  function CountWith(ids: seq<string>, n: nat): nat
  {
    if |ids| == 0 then 0 else CountWith(ids[..|ids| - 1], n) + (if n in Analyze(ids[|ids| - 1]) then 1 else 0)
  }

  /** Each ID contributes each of 2 and 3 at most once. */
  lemma {:induction false} CountOfValues(ids: seq<string>, n: nat)
    requires n == 2 || n == 3
    ensures multiset(AllCheckSumValues(ids))[n] == CountWith(ids, n)
  {
    if |ids| > 0 {
      var init := ids[..|ids| - 1];
      var r := CheckSumValues(ids[|ids| - 1]);
      CountOfValues(init, n);
      assert multiset(AllCheckSumValues(ids)) == multiset(AllCheckSumValues(init)) + multiset(r);
      assert multiset(r)[n] == (if n in r then 1 else 0) by {
        assert r == [] || r == [2] || r == [3] || r == [2, 3];
      }
    }
  }

  /** Part one is the number of IDs with a two-letter match times the
      number with a three-letter match, where a count of zero is left out of
      the product (there is no group for it). */
  lemma PartOneIsChecksum(ids: seq<string>)
    ensures var twos, threes := CountWith(ids, 2), CountWith(ids, 3);
      SolvePartOne(ids) == (if twos > 0 then twos else 1) * (if threes > 0 then threes else 1)
  {
    var vals := AllCheckSumValues(ids);
    var d := Distinct(vals);
    CountOfValues(ids, 2);
    CountOfValues(ids, 3);
    assert forall v :: v in vals ==> v == 2 || v == 3 by {
      ValuesAreTwoOrThree(ids);
    }
    assert 2 in d <==> multiset(vals)[2] > 0;
    assert 3 in d <==> multiset(vals)[3] > 0;
    ProductOverTwoThree(vals, d);
  }

  /** A product over distinct keys drawn from {2, 3} multiplies the counts
      of the keys present. */
  lemma {:induction false} ProductOverTwoThree(vals: seq<int>, d: seq<int>)
    requires forall v :: v in d ==> v == 2 || v == 3
    requires forall i, j :: 0 <= i < j < |d| ==> d[i] != d[j]
    ensures ProductOfCounts(vals, d) ==
      (if 2 in d then multiset(vals)[2] else 1) * (if 3 in d then multiset(vals)[3] else 1)
  {
    if |d| > 0 {
      var rest := d[1..];
      assert forall v :: v in d <==> v == d[0] || v in rest;
      assert d[0] !in rest by {
        assert forall j :: 0 <= j < |rest| ==> rest[j] == d[j + 1] && d[0] != d[j + 1];
      }
      ProductOverTwoThree(vals, rest);
      var twos := if 2 in rest then multiset(vals)[2] else 1;
      var threes := if 3 in rest then multiset(vals)[3] else 1;
      assert ProductOfCounts(vals, d) == multiset(vals)[d[0]] * (twos * threes);
      if d[0] == 2 {
        assert twos == 1;
        assert ProductOfCounts(vals, d) == multiset(vals)[2] * threes;
      } else {
        assert threes == 1;
        assert ProductOfCounts(vals, d) == multiset(vals)[3] * twos;
      }
    }
  }

  lemma {:induction false} ValuesAreTwoOrThree(ids: seq<string>)
    ensures forall v :: v in AllCheckSumValues(ids) ==> v == 2 || v == 3
  {
    if |ids| > 0 {
      ValuesAreTwoOrThree(ids[..|ids| - 1]);
    }
  }

  // ---------------------------------------------------------------------
  // Part two: similarity of two IDs.

  /** `String.split("")`: the characters as one-letter strings, except that
      the empty string yields one empty part. */
  function Parts(s: string): (r: seq<string>)
    ensures |r| == if |s| == 0 then 1 else |s|
  {
    if |s| == 0 then [""] else seq(|s|, i requires 0 <= i < |s| => [s[i]])
  }

  /** `getSimilarity` of (value, otherValue): walks the parts of `value`,
      indexing the parts of `otherValue` at the same position, and appends
      each part on which both agree. Indexing past the other's parts is an
      ArrayIndexOutOfBoundsException. */
  function GetSimilarity(value: string, other: string): Result<string>
  {
    SimilarityFrom(Parts(value), Parts(other), 0, "")
  }

  function SimilarityFrom(parts: seq<string>, others: seq<string>, i: nat, acc: string): Result<string>
    requires i <= |parts|
    decreases |parts| - i
  {
    if i == |parts| then Ok(acc)
    else if i >= |others| then Err(IndexOutOfBounds)
    else SimilarityFrom(parts, others, i + 1, if parts[i] == others[i] then acc + parts[i] else acc)
  }

  /** Reference definition: the characters of `a`, in order, at the first n
      positions where `b` has the same character. */
  function AgreeingUpTo(a: string, b: string, n: nat): string
    requires n <= |a| && n <= |b|
  {
    if n == 0 then ""
    else AgreeingUpTo(a, b, n - 1) + (if a[n - 1] == b[n - 1] then [a[n - 1]] else "")
  }

  /** The characters two IDs share position by position. */
  function Agreeing(a: string, b: string): string
  {
    AgreeingUpTo(a, b, Min(|a|, |b|))
  }

  /** `getSimilarity` fails exactly when `value` splits into more parts than
      `otherValue`; otherwise it keeps, in order, the characters of `value` at
      the positions where `otherValue` agrees. */
  lemma GetSimilarityAgrees(value: string, other: string)
    ensures GetSimilarity(value, other).Ok? <==> |value| <= 1 || |value| <= |other|
    ensures GetSimilarity(value, other).Ok? ==> GetSimilarity(value, other).value == Agreeing(value, other)
    ensures GetSimilarity(value, other).Err? ==> GetSimilarity(value, other).error == IndexOutOfBounds
  {
    SimilarityLoop(value, other, 0, "");
  }

  lemma {:induction false} SimilarityLoop(value: string, other: string, i: nat, acc: string)
    requires i <= |Parts(value)|
    requires acc == AgreeingUpTo(value, other, Min(i, Min(|value|, |other|)))
    ensures var r := SimilarityFrom(Parts(value), Parts(other), i, acc);
      && (r.Ok? <==> |Parts(value)| <= |Parts(other)| || i == |Parts(value)|)
      && (r.Ok? ==> r.value == Agreeing(value, other))
      && (r.Err? ==> r.error == IndexOutOfBounds)
    decreases |Parts(value)| - i
  {
    var parts, others := Parts(value), Parts(other);
    if i < |parts| && i < |others| {
      var m := Min(|value|, |other|);
      var acc' := if parts[i] == others[i] then acc + parts[i] else acc;
      if i < m {
        assert parts[i] == [value[i]] && others[i] == [other[i]];
      } else {
        assert |value| == 0 || |other| == 0;
        assert parts[i] == others[i] ==> parts[i] == "";
      }
      SimilarityLoop(value, other, i + 1, acc');
    }
  }

  /** The shared characters are never more than either ID's. */
  lemma {:induction false} AgreeingLength(a: string, b: string, n: nat)
    requires n <= |a| && n <= |b|
    ensures |AgreeingUpTo(a, b, n)| <= n
  {
    if n > 0 {
      AgreeingLength(a, b, n - 1);
    }
  }

  /** An ID shares every character with itself. */
  lemma {:induction false} AgreeingSelf(a: string, n: nat)
    requires n <= |a|
    ensures AgreeingUpTo(a, a, n) == a[..n]
  {
    if n > 0 {
      AgreeingSelf(a, n - 1);
      assert a[..n] == a[..n - 1] + [a[n - 1]];
    }
  }

  /** Sharing characters is symmetric. */
  lemma {:induction false} AgreeingSymmetric(a: string, b: string, n: nat)
    requires n <= |a| && n <= |b|
    ensures AgreeingUpTo(a, b, n) == AgreeingUpTo(b, a, n)
  {
    if n > 0 {
      AgreeingSymmetric(a, b, n - 1);
    }
  }

  /** The similarity of an ID with itself is the ID; for IDs of equal length
      the similarity does not depend on the order; its length (the score) is
      at most the length of `value`. */
  lemma SimilarityProperties(value: string, other: string)
    ensures GetSimilarity(value, value) == Ok(value)
    ensures |value| == |other| ==> GetSimilarity(value, other) == GetSimilarity(other, value)
    ensures GetSimilarity(value, other).Ok? ==> |GetSimilarity(value, other).value| <= |value|
  {
    GetSimilarityAgrees(value, value);
    GetSimilarityAgrees(value, other);
    GetSimilarityAgrees(other, value);
    AgreeingSelf(value, |value|);
    assert value[..|value|] == value;
    AgreeingSymmetric(value, other, Min(|value|, |other|));
    AgreeingLength(value, other, Min(|value|, |other|));
  }

  /** `getScore`: the length of the similarity. */
  function GetScore(value: string, other: string): Result<nat>
  {
    var sim :- GetSimilarity(value, other);
    Ok(|sim|)
  }

  /** `new SimilarityScore(Set)`: only a set of exactly two IDs is accepted;
      the two are taken in the set's iteration order, given here as a
      sequence without repetitions. The answer is what the two share, so for
      two IDs of equal length the order does not matter. */
  function SimilarityOfSet(values: seq<string>): (r: Result<string>)
    requires forall i, j :: 0 <= i < j < |values| ==> values[i] != values[j]
    ensures |values| != 2 ==> r == Err(IllegalState)
    ensures |values| == 2 ==> (r.Ok? <==> |values[0]| <= 1 || |values[0]| <= |values[1]|)
    ensures |values| == 2 && r.Ok? ==> r.value == Agreeing(values[0], values[1]) == Agreeing(values[1], values[0])
    ensures |values| == 2 && r.Err? ==> r.error == IndexOutOfBounds
  {
    if |values| != 2 then Err(IllegalState)
    else
      GetSimilarityAgrees(values[0], values[1]);
      AgreeingSymmetric(values[0], values[1], Min(|values[0]|, |values[1]|));
      GetSimilarity(values[0], values[1])
  }

  /** The ordered pairs (i, j) of distinct indices below n, i-major. */
  function Pairs(n: nat): (r: seq<(nat, nat)>)
    ensures forall p :: p in r <==> p.0 < n && p.1 < n && p.0 != p.1
    ensures n < 2 <==> r == []
  {
    var r := PairsFrom(n, 0);
    assert n >= 2 ==> (0, 1) in r;
    r
  }

  function PairsFrom(n: nat, i: nat): (r: seq<(nat, nat)>)
    requires i <= n
    ensures forall p :: p in r <==> i <= p.0 < n && p.1 < n && p.0 != p.1
    decreases n - i
  {
    if i == n then [] else Row(n, i, 0) + PairsFrom(n, i + 1)
  }

  function Row(n: nat, i: nat, j: nat): (r: seq<(nat, nat)>)
    requires j <= n
    ensures forall p :: p in r <==> p.0 == i && j <= p.1 < n && p.1 != i
    decreases n - j
  {
    if j == n then [] else (if i != j then [(i, j)] else []) + Row(n, i, j + 1)
  }

  /** A scored pair of IDs. */
  datatype Scored = Scored(value: string, other: string, score: nat)

  /** The scores of the given pairs, in order; the first failing pair stops
      the computation. */
  function ScoreAll(ids: seq<string>, pairs: seq<(nat, nat)>): (r: Result<seq<Scored>>)
    requires forall p :: p in pairs ==> p.0 < |ids| && p.1 < |ids|
    ensures r.Ok? <==> forall p :: p in pairs ==> GetScore(ids[p.0], ids[p.1]).Ok?
    ensures r.Err? ==> r.error == IndexOutOfBounds
    ensures r.Ok? ==> |r.value| == |pairs|
    ensures r.Ok? ==> forall k :: 0 <= k < |pairs| ==>
      r.value[k] == Scored(ids[pairs[k].0], ids[pairs[k].1], GetScore(ids[pairs[k].0], ids[pairs[k].1]).value)
  {
    if |pairs| == 0 then Ok([])
    else
      var (i, j) := pairs[0];
      GetSimilarityAgrees(ids[i], ids[j]);
      match GetScore(ids[i], ids[j])
      case Err(e) => Err(e)
      case Ok(score) =>
        match ScoreAll(ids, pairs[1..])
        case Err(e) => Err(e)
        case Ok(rest) => Ok([Scored(ids[i], ids[j], score)] + rest)
  }

  /** The largest score of a non-empty list of scored pairs. */
  function BestScore(scored: seq<Scored>): (best: nat)
    requires |scored| > 0
    ensures exists k :: 0 <= k < |scored| && scored[k].score == best
    ensures forall k :: 0 <= k < |scored| ==> scored[k].score <= best
  {
    if |scored| == 1 then scored[0].score
    else Max(scored[0].score, BestScore(scored[1..]))
  }

  /** The IDs of the pairs with the given score, both IDs of each pair, in
      order: the set the score map holds for that score. */
  function WithScore(scored: seq<Scored>, score: nat): (r: seq<string>)
    ensures forall s :: s in r <==>
      exists k :: 0 <= k < |scored| && scored[k].score == score && (scored[k].value == s || scored[k].other == s)
  {
    if |scored| == 0 then []
    else
      var rest := WithScore(scored[1..], score);
      assert forall k :: 0 < k < |scored| ==> scored[k] == scored[1..][k - 1];
      (if scored[0].score == score then [scored[0].value, scored[0].other] else []) + rest
  }

  /** Part two: score every ordered pair of distinct positions, map each
      score to the set of IDs that reached it, take the set of the highest
      score and return the similarity of its two IDs. The set is enumerated
      in first-insertion order; any other order gives the same answer (see
      `PartTwoIsMostSimilar`). */
  function SolvePartTwo(ids: seq<string>): Result<string>
  {
    var scored :- ScoreAll(ids, Pairs(|ids|));
    if |scored| == 0 then Err(NoSuchElement)
    else SimilarityOfSet(Distinct(WithScore(scored, BestScore(scored))))
  }

  /** When every pair scores, the score of two IDs at distinct positions
      is the number of characters they share. */
  lemma ScoreOfPair(ids: seq<string>, i: nat, j: nat)
    requires ScoreAll(ids, Pairs(|ids|)).Ok?
    requires i < |ids| && j < |ids| && i != j
    ensures GetScore(ids[i], ids[j]) == Ok(|Agreeing(ids[i], ids[j])|)
  {
    assert (i, j) in Pairs(|ids|);
    GetSimilarityAgrees(ids[i], ids[j]);
  }

  /** The k-th scored entry is the pair at position k of `Pairs`. */
  lemma ScoredAt(ids: seq<string>, scored: seq<Scored>, k: nat)
    requires ScoreAll(ids, Pairs(|ids|)) == Ok(scored)
    requires k < |scored|
    ensures var (i, j) := Pairs(|ids|)[k];
      && i < |ids| && j < |ids| && i != j
      && scored[k] == Scored(ids[i], ids[j], |Agreeing(ids[i], ids[j])|)
  {
    var pairs := Pairs(|ids|);
    assert pairs[k] in pairs;
    ScoreOfPair(ids, pairs[k].0, pairs[k].1);
  }

  /** Every ID in the best group stands at some position of the input, and
      shares `best` characters with the ID at some other position. */
  lemma GroupMember(ids: seq<string>, scored: seq<Scored>, best: nat, s: string)
    requires ScoreAll(ids, Pairs(|ids|)) == Ok(scored)
    requires s in WithScore(scored, best)
    ensures exists i, j :: 0 <= i < |ids| && 0 <= j < |ids| && i != j && ids[i] == s
                           && |Agreeing(ids[i], ids[j])| == best && ids[j] in WithScore(scored, best)
  {
    var k :| 0 <= k < |scored| && scored[k].score == best && (scored[k].value == s || scored[k].other == s);
    ScoredAt(ids, scored, k);
    var (i, j) := Pairs(|ids|)[k];
    AgreeingSymmetric(ids[i], ids[j], Min(|ids[i]|, |ids[j]|));
    if ids[i] == s {
      assert |Agreeing(ids[i], ids[j])| == best;
    } else {
      assert ids[j] == s && |Agreeing(ids[j], ids[i])| == best;
    }
  }

  /** A pair at distinct positions lands in the group of its score. */
  lemma PairInGroup(ids: seq<string>, scored: seq<Scored>, i: nat, j: nat)
    requires ScoreAll(ids, Pairs(|ids|)) == Ok(scored)
    requires i < |ids| && j < |ids| && i != j && |scored| > 0
    ensures |Agreeing(ids[i], ids[j])| <= BestScore(scored)
    ensures |Agreeing(ids[i], ids[j])| == BestScore(scored) ==> ids[j] in WithScore(scored, BestScore(scored))
  {
    var pairs := Pairs(|ids|);
    assert (i, j) in pairs;
    var k :| 0 <= k < |pairs| && pairs[k] == (i, j);
    ScoredAt(ids, scored, k);
  }

  /** Part two fails with an index error exactly when two IDs at distinct
      positions have incompatible lengths, and with no element when there are
      fewer than two IDs. When it answers, the answer is the characters
      shared by two IDs at distinct positions, whichever way round the two
      are taken; and when the IDs are pairwise different, no other pair
      shares more. */
  lemma PartTwoIsMostSimilar(ids: seq<string>)
    ensures (exists i, j :: 0 <= i < |ids| && 0 <= j < |ids| && i != j && !(|ids[i]| <= 1 || |ids[i]| <= |ids[j]|))
            <==> SolvePartTwo(ids) == Err(IndexOutOfBounds)
    ensures |ids| < 2 ==> SolvePartTwo(ids) == Err(NoSuchElement)
    ensures SolvePartTwo(ids).Ok? ==>
      exists i, j :: 0 <= i < |ids| && 0 <= j < |ids| && i != j
        && SolvePartTwo(ids).value == Agreeing(ids[i], ids[j])
        && SolvePartTwo(ids).value == Agreeing(ids[j], ids[i])
        && ((forall i', j' :: 0 <= i' < j' < |ids| ==> ids[i'] != ids[j']) ==>
              forall i', j' :: 0 <= i' < |ids| && 0 <= j' < |ids| && i' != j' ==>
                |Agreeing(ids[i'], ids[j'])| <= |Agreeing(ids[i], ids[j])|)
  {
    var pairs := Pairs(|ids|);
    var r := ScoreAll(ids, pairs);
    if r.Err? {
      var p :| p in pairs && GetScore(ids[p.0], ids[p.1]).Err?;
      GetSimilarityAgrees(ids[p.0], ids[p.1]);
    } else {
      forall i, j | 0 <= i < |ids| && 0 <= j < |ids| && i != j
        ensures |ids[i]| <= 1 || |ids[i]| <= |ids[j]|
      {
        ScoreOfPair(ids, i, j);
        GetSimilarityAgrees(ids[i], ids[j]);
      }
      if |r.value| > 0 {
        var ia, ib := PartTwoAnswer(ids, r.value);
      }
    }
  }

  /** The answer of part two once every pair has scored: when there is
      one, the positions of the two IDs it comes from. */
  lemma PartTwoAnswer(ids: seq<string>, scored: seq<Scored>) returns (ia: nat, ib: nat)
    requires ScoreAll(ids, Pairs(|ids|)) == Ok(scored)
    requires |scored| > 0
    ensures SolvePartTwo(ids) != Err(IndexOutOfBounds)
    ensures SolvePartTwo(ids).Ok? ==>
      && ia < |ids| && ib < |ids| && ia != ib
      && SolvePartTwo(ids).value == Agreeing(ids[ia], ids[ib])
      && SolvePartTwo(ids).value == Agreeing(ids[ib], ids[ia])
      && ((forall i', j' :: 0 <= i' < j' < |ids| ==> ids[i'] != ids[j']) ==>
            forall i', j' :: 0 <= i' < |ids| && 0 <= j' < |ids| && i' != j' ==>
              |Agreeing(ids[i'], ids[j'])| <= |Agreeing(ids[ia], ids[ib])|)
  {
    var best := BestScore(scored);
    var values := Distinct(WithScore(scored, best));
    SolvedByBestGroup(ids, scored);
    ia, ib := 0, 0;
    if |values| == 2 {
      var ja: nat;
      ia, ib, ja := GroupPositions(ids, scored, best, values);
      ScoreOfPair(ids, ia, ib);
      BestBound(ids, scored);
      BestGroupAnswer(ids, values, SolvePartTwo(ids), best, ia, ib, ja);
    }
  }

  /** Positions of the two IDs of a best group of two, and of the partner
      the first was scored with. */
  lemma GroupPositions(ids: seq<string>, scored: seq<Scored>, best: nat, values: seq<string>)
    returns (ia: nat, ib: nat, ja: nat)
    requires ScoreAll(ids, Pairs(|ids|)) == Ok(scored)
    requires values == Distinct(WithScore(scored, best)) && |values| == 2
    ensures ia < |ids| && ib < |ids| && ja < |ids| && ia != ja && ia != ib
    ensures ids[ia] == values[0] && ids[ib] == values[1]
    ensures |Agreeing(ids[ia], ids[ja])| == best
    ensures ids[ja] == ids[ia] || ids[ja] == ids[ib]
  {
    var jb: nat;
    ia, ja := GroupPosition(ids, scored, best, values[0]);
    ib, jb := GroupPosition(ids, scored, best, values[1]);
    assert ids[ja] in values;
  }

  /** The answer from a best group of two is what its two IDs share, and
      with pairwise different IDs no pair shares more. */
  lemma BestGroupAnswer(ids: seq<string>, values: seq<string>, answer: Result<string>, best: nat, ia: nat, ib: nat, ja: nat)
    requires ia < |ids| && ib < |ids| && ja < |ids| && ia != ja && ia != ib
    requires |values| == 2 && values[0] != values[1] && ids[ia] == values[0] && ids[ib] == values[1]
    requires answer == SimilarityOfSet(values)
    requires GetScore(ids[ia], ids[ib]).Ok?
    requires |Agreeing(ids[ia], ids[ja])| == best
    requires ids[ja] == ids[ia] || ids[ja] == ids[ib]
    requires forall i, j :: 0 <= i < |ids| && 0 <= j < |ids| && i != j ==> |Agreeing(ids[i], ids[j])| <= best
    ensures answer == Ok(Agreeing(ids[ia], ids[ib]))
    ensures Agreeing(ids[ia], ids[ib]) == Agreeing(ids[ib], ids[ia])
    ensures (forall i', j' :: 0 <= i' < j' < |ids| ==> ids[i'] != ids[j']) ==>
              forall i', j' :: 0 <= i' < |ids| && 0 <= j' < |ids| && i' != j' ==>
                |Agreeing(ids[i'], ids[j'])| <= |Agreeing(ids[ia], ids[ib])|
  {
    assert values == [ids[ia], ids[ib]];
    BestAnswer(ids[ia], ids[ib], values, answer);
    if forall i', j' :: 0 <= i' < j' < |ids| ==> ids[i'] != ids[j'] {
      BestIsMaximal(ids, best, ia, ja, ib);
    }
  }

  /** The answer from a best group of two is what its two IDs share. */
  lemma BestAnswer(a: string, b: string, values: seq<string>, answer: Result<string>)
    requires values == [a, b] && a != b
    requires answer == SimilarityOfSet(values)
    requires GetScore(a, b).Ok?
    ensures answer == Ok(Agreeing(a, b))
    ensures Agreeing(a, b) == Agreeing(b, a)
  {
    GetSimilarityAgrees(a, b);
    AgreeingSymmetric(a, b, Min(|a|, |b|));
  }

  lemma SolvedByBestGroup(ids: seq<string>, scored: seq<Scored>)
    requires ScoreAll(ids, Pairs(|ids|)) == Ok(scored)
    requires |scored| > 0
    ensures SolvePartTwo(ids) == SimilarityOfSet(Distinct(WithScore(scored, BestScore(scored))))
  {
  }

  /** No pair at distinct positions shares more than the best score. */
  lemma BestBound(ids: seq<string>, scored: seq<Scored>)
    requires ScoreAll(ids, Pairs(|ids|)) == Ok(scored)
    requires |scored| > 0
    ensures forall i, j :: 0 <= i < |ids| && 0 <= j < |ids| && i != j ==>
              |Agreeing(ids[i], ids[j])| <= BestScore(scored)
  {
    forall i, j | 0 <= i < |ids| && 0 <= j < |ids| && i != j
      ensures |Agreeing(ids[i], ids[j])| <= BestScore(scored)
    {
      PairInGroup(ids, scored, i, j);
    }
  }

  /** `GroupMember` with the positions as results. */
  lemma GroupPosition(ids: seq<string>, scored: seq<Scored>, best: nat, s: string) returns (i: nat, j: nat)
    requires ScoreAll(ids, Pairs(|ids|)) == Ok(scored)
    requires s in WithScore(scored, best)
    ensures i < |ids| && j < |ids| && i != j && ids[i] == s && |Agreeing(ids[i], ids[j])| == best
    ensures ids[j] in WithScore(scored, best)
  {
    GroupMember(ids, scored, best, s);
    i, j :| 0 <= i < |ids| && 0 <= j < |ids| && i != j && ids[i] == s
            && |Agreeing(ids[i], ids[j])| == best && ids[j] in WithScore(scored, best);
  }

  /** With pairwise different IDs, the best partner of the first ID of a
      best group of two is the second, so no pair shares more than they do. */
  lemma BestIsMaximal(ids: seq<string>, best: nat, ia: nat, ja: nat, ib: nat)
    requires forall i', j' :: 0 <= i' < j' < |ids| ==> ids[i'] != ids[j']
    requires ia < |ids| && ja < |ids| && ib < |ids| && ia != ja
    requires |Agreeing(ids[ia], ids[ja])| == best
    requires ids[ja] == ids[ia] || ids[ja] == ids[ib]
    requires forall i', j' :: 0 <= i' < |ids| && 0 <= j' < |ids| && i' != j' ==> |Agreeing(ids[i'], ids[j'])| <= best
    ensures forall i', j' :: 0 <= i' < |ids| && 0 <= j' < |ids| && i' != j' ==>
              |Agreeing(ids[i'], ids[j'])| <= |Agreeing(ids[ia], ids[ib])|
  {
    assert ids[ja] != ids[ia] by {
      if ia < ja { assert ids[ia] != ids[ja]; } else { assert ids[ja] != ids[ia]; }
    }
  }

  // ---------------------------------------------------------------------
  // When part two answers.

  /** Every two IDs at distinct positions can be compared without an index
      error. */
  predicate LengthsCompatible(ids: seq<string>)
  {
    forall i, j :: 0 <= i < |ids| && 0 <= j < |ids| && i != j ==> |ids[i]| <= 1 || |ids[i]| <= |ids[j]|
  }

  /** The IDs at positions i < j share more characters than the IDs of any
      other pair of positions. */
  predicate UniqueBestPair(ids: seq<string>, i: int, j: int)
  {
    && 0 <= i < j < |ids|
    && forall i', j' :: 0 <= i' < j' < |ids| && (i' != i || j' != j) ==>
         |Agreeing(ids[i'], ids[j'])| < |Agreeing(ids[i], ids[j])|
  }

  /** For pairwise different IDs whose lengths let every pair be compared,
      part two answers exactly when a single pair of positions shares the
      most characters, and then answers with what that pair shares; with
      two or more IDs it otherwise fails with an IllegalStateException,
      because the best score is shared by more than two IDs. */
  lemma PartTwoUniqueBest(ids: seq<string>)
    requires NoDuplicates(ids) && LengthsCompatible(ids)
    ensures SolvePartTwo(ids).Ok? <==> exists i, j :: UniqueBestPair(ids, i, j)
    ensures forall i, j :: UniqueBestPair(ids, i, j) ==> SolvePartTwo(ids) == Ok(Agreeing(ids[i], ids[j]))
    ensures |ids| >= 2 && SolvePartTwo(ids).Err? ==> SolvePartTwo(ids).error == IllegalState
  {
    var pairs := Pairs(|ids|);
    forall p | p in pairs ensures GetScore(ids[p.0], ids[p.1]).Ok? {
      GetSimilarityAgrees(ids[p.0], ids[p.1]);
    }
    var scored := ScoreAll(ids, pairs).value;
    if |ids| >= 2 {
      forall i: int, j: int | UniqueBestPair(ids, i, j)
        ensures SolvePartTwo(ids) == Ok(Agreeing(ids[i], ids[j]))
      {
        UniqueBestGroup(ids, scored, i, j);
      }
      var values := Distinct(WithScore(scored, BestScore(scored)));
      SolvedByBestGroup(ids, scored);
      if |values| == 2 {
        BestGroupIsUnique(ids, scored);
      }
    }
  }

  /** What two IDs share does not depend on their order. */
  lemma AgreeingSwap(a: string, b: string)
    ensures Agreeing(a, b) == Agreeing(b, a)
  {
    AgreeingSymmetric(a, b, Min(|a|, |b|));
  }

  /** Pairwise different IDs are told apart by their position. */
  lemma SamePosition(ids: seq<string>, p: nat, q: nat)
    requires NoDuplicates(ids) && p < |ids| && q < |ids| && ids[p] == ids[q]
    ensures p == q
  {
  }

  /** A sequence without repetitions holding exactly two different values. */
  lemma TwoMembers(d: seq<string>, a: string, b: string)
    requires a != b && forall i, j :: 0 <= i < j < |d| ==> d[i] != d[j]
    requires forall x :: x in d <==> x == a || x == b
    ensures |d| == 2 && ((d[0] == a && d[1] == b) || (d[0] == b && d[1] == a))
  {
    assert a in d && b in d;
    if |d| >= 3 {
      ThreeOfTwo(d, a, b);
      assert false;
    }
  }

  /** Three entries drawn from two values repeat one. */
  lemma ThreeOfTwo(d: seq<string>, a: string, b: string)
    requires |d| >= 3 && forall x :: x in d ==> x == a || x == b
    ensures d[0] == d[1] || d[0] == d[2] || d[1] == d[2]
  {
    assert d[0] in d && d[1] in d && d[2] in d;
  }

  /** Any pair of positions other than the unique best pair, taken either way
      round, shares fewer characters. */
  lemma OtherPairBelow(ids: seq<string>, i: nat, j: nat, p: nat, q: nat)
    requires UniqueBestPair(ids, i, j)
    requires p < |ids| && q < |ids| && p != q && !(p == i && q == j) && !(p == j && q == i)
    ensures |Agreeing(ids[p], ids[q])| < |Agreeing(ids[i], ids[j])|
  {
    if q < p {
      AgreeingSwap(ids[p], ids[q]);
    }
  }

  /** A unique best pair reaches the best score. */
  lemma UniqueBestScore(ids: seq<string>, scored: seq<Scored>, i: nat, j: nat)
    requires ScoreAll(ids, Pairs(|ids|)) == Ok(scored)
    requires UniqueBestPair(ids, i, j)
    ensures |scored| > 0 && BestScore(scored) == |Agreeing(ids[i], ids[j])|
  {
    assert (i, j) in Pairs(|ids|);
    var best := BestScore(scored);
    var k :| 0 <= k < |scored| && scored[k].score == best;
    ScoredAt(ids, scored, k);
    var (p, q) := Pairs(|ids|)[k];
    PairInGroup(ids, scored, i, j);
    if !(p == i && q == j) && !(p == j && q == i) {
      OtherPairBelow(ids, i, j, p, q);
    }
    AgreeingSwap(ids[i], ids[j]);
  }

  /** The best group of a unique best pair holds its two IDs and no other. */
  lemma UniqueBestMembers(ids: seq<string>, scored: seq<Scored>, i: nat, j: nat)
    requires ScoreAll(ids, Pairs(|ids|)) == Ok(scored)
    requires UniqueBestPair(ids, i, j)
    ensures |scored| > 0
    ensures forall s :: s in WithScore(scored, BestScore(scored)) <==> s == ids[i] || s == ids[j]
  {
    UniqueBestScore(ids, scored, i, j);
    var best := BestScore(scored);
    var group := WithScore(scored, best);
    forall s ensures s in group <==> s == ids[i] || s == ids[j] {
      if s in group {
        var p, q := GroupPosition(ids, scored, best, s);
        if !(p == i && q == j) && !(p == j && q == i) {
          OtherPairBelow(ids, i, j, p, q);
        }
      }
      PairInGroup(ids, scored, i, j);
      AgreeingSwap(ids[i], ids[j]);
      PairInGroup(ids, scored, j, i);
    }
  }

  /** The answer from a group of exactly two compatible IDs is what they
      share. */
  lemma PairAnswer(values: seq<string>, a: string, b: string)
    requires forall i, j :: 0 <= i < j < |values| ==> values[i] != values[j]
    requires a != b && (forall x :: x in values <==> x == a || x == b)
    requires (|a| <= 1 || |a| <= |b|) && (|b| <= 1 || |b| <= |a|)
    ensures SimilarityOfSet(values) == Ok(Agreeing(a, b))
  {
    TwoMembers(values, a, b);
    AgreeingSwap(a, b);
  }

  /** A unique best pair is the best group of part two, and part two answers
      with what it shares. */
  lemma UniqueBestGroup(ids: seq<string>, scored: seq<Scored>, i: nat, j: nat)
    requires NoDuplicates(ids) && LengthsCompatible(ids)
    requires ScoreAll(ids, Pairs(|ids|)) == Ok(scored)
    requires UniqueBestPair(ids, i, j)
    ensures SolvePartTwo(ids) == Ok(Agreeing(ids[i], ids[j]))
  {
    UniqueBestMembers(ids, scored, i, j);
    var values := Distinct(WithScore(scored, BestScore(scored)));
    assert ids[i] != ids[j];
    PairAnswer(values, ids[i], ids[j]);
    SolvedByBestGroup(ids, scored);
  }

  /** In a best group of two, the only pair reaching the best score is the
      pair of its two IDs. */
  lemma OnlyGroupPair(ids: seq<string>, scored: seq<Scored>, values: seq<string>, ia: nat, ib: nat, p: nat, q: nat)
    requires NoDuplicates(ids)
    requires ScoreAll(ids, Pairs(|ids|)) == Ok(scored) && |scored| > 0
    requires ia < |ids| && ib < |ids| && p < |ids| && q < |ids| && p != q
    requires values == Distinct(WithScore(scored, BestScore(scored)))
    requires |values| == 2 && values[0] == ids[ia] && values[1] == ids[ib]
    requires |Agreeing(ids[p], ids[q])| == BestScore(scored)
    ensures (p == ia && q == ib) || (p == ib && q == ia)
  {
    assert ids[q] in values by {
      PairInGroup(ids, scored, p, q);
    }
    assert ids[p] in values by {
      AgreeingSwap(ids[p], ids[q]);
      PairInGroup(ids, scored, q, p);
    }
    InPair(ids, values, ia, ib, p);
    InPair(ids, values, ia, ib, q);
  }

  /** An ID of a group of two stands at the position of one of the two. */
  lemma InPair(ids: seq<string>, values: seq<string>, ia: nat, ib: nat, p: nat)
    requires NoDuplicates(ids) && ia < |ids| && ib < |ids| && p < |ids|
    requires |values| == 2 && values[0] == ids[ia] && values[1] == ids[ib]
    requires ids[p] in values
    ensures p == ia || p == ib
  {
    if ids[p] == ids[ia] {
      SamePosition(ids, p, ia);
    } else {
      SamePosition(ids, p, ib);
    }
  }

  /** A best group of two IDs comes from a unique best pair. */
  lemma BestGroupIsUnique(ids: seq<string>, scored: seq<Scored>)
    requires NoDuplicates(ids)
    requires ScoreAll(ids, Pairs(|ids|)) == Ok(scored) && |scored| > 0
    requires |Distinct(WithScore(scored, BestScore(scored)))| == 2
    ensures exists i, j :: UniqueBestPair(ids, i, j)
  {
    var best := BestScore(scored);
    var values := Distinct(WithScore(scored, best));
    var ia, ib, ja := GroupPositions(ids, scored, best, values);
    assert ja == ib by {
      if ids[ja] == ids[ia] {
        SamePosition(ids, ja, ia);
      }
      SamePosition(ids, ja, ib);
    }
    GroupPairIsUnique(ids, scored, values, ia, ib);
  }

  /** The two IDs of a best group of two form the unique best pair. */
  lemma GroupPairIsUnique(ids: seq<string>, scored: seq<Scored>, values: seq<string>, ia: nat, ib: nat)
    requires NoDuplicates(ids)
    requires ScoreAll(ids, Pairs(|ids|)) == Ok(scored) && |scored| > 0
    requires ia < |ids| && ib < |ids| && ia != ib
    requires values == Distinct(WithScore(scored, BestScore(scored)))
    requires |values| == 2 && values[0] == ids[ia] && values[1] == ids[ib]
    requires |Agreeing(ids[ia], ids[ib])| == BestScore(scored)
    ensures UniqueBestPair(ids, Min(ia, ib), Max(ia, ib))
  {
    var best := BestScore(scored);
    AgreeingSwap(ids[ia], ids[ib]);
    var i, j := Min(ia, ib), Max(ia, ib);
    BestBound(ids, scored);
    forall i', j' | 0 <= i' < j' < |ids| && (i' != i || j' != j)
      ensures |Agreeing(ids[i'], ids[j'])| < |Agreeing(ids[i], ids[j])|
    {
      if |Agreeing(ids[i'], ids[j'])| == best {
        OnlyGroupPair(ids, scored, values, ia, ib, i', j');
      }
    }
  }
}
