/** Frequency calibration: a list of frequency changes is applied to a
    starting frequency of zero. Part one is the resulting frequency; part two
    repeats the list until some frequency is reached for the second time. */
module PuzzleDayOne {
  import opened Common

  /** Part one: the frequency after applying every change once. */
  method SolvePartOne(changes: seq<int>) returns (frequency: int)
    ensures frequency == Sum(changes)
  {
    frequency := 0;
    var i := 0;
    while i < |changes|
      invariant i <= |changes|
      invariant frequency == Sum(changes[..i])
    {
      assert changes[..i + 1] == changes[..i] + [changes[i]];
      SumSnoc(changes[..i], changes[i]);
      frequency := frequency + changes[i];
      i := i + 1;
    }
    assert changes[..i] == changes;
  }

  /** The outcome of one pass of `calibrate`: the frequency it stopped at and
      the map from each frequency seen so far to the number of times it was
      reached. */
  datatype Calibration = Calibration(frequency: int, seen: map<int, nat>)

  /** The running frequency after the first `j` changes, from `start`. */
  ghost function Running(start: int, changes: seq<int>, j: nat): int
    requires j <= |changes|
  {
    start + Sum(changes[..j])
  }

  /** The running frequencies after changes i+1 .. k. */
  ghost function Visited(start: int, changes: seq<int>, i: nat, k: nat): set<int>
    requires i <= k <= |changes|
  {
    set j | i < j <= k :: Running(start, changes, j)
  }

  /** The running frequency after change j was already seen: either before
      the pass started or earlier in the pass. */
  ghost predicate Hit(start: int, changes: seq<int>, keys: set<int>, i: nat, j: nat)
    requires i < j <= |changes|
  {
    Running(start, changes, j) in keys + Visited(start, changes, i, j - 1)
  }

  /** What a pass that started after change i and stopped after change k did
      to the frequency and to the map of seen frequencies. */
  ghost predicate Calibrated(start: int, changes: seq<int>, seen: map<int, nat>, i: nat, k: nat, r: Calibration)
    requires i <= k <= |changes|
  {
    Stopped(start, changes, seen, i, k, r) && Recorded(start, changes, seen, i, k, r)
  }

  /** The pass stops at a prefix sum: at the first repeat, or after the last
      change. */
  ghost predicate Stopped(start: int, changes: seq<int>, seen: map<int, nat>, i: nat, k: nat, r: Calibration)
    requires i <= k <= |changes|
  {
    && r.frequency == Running(start, changes, k)
    && (i < |changes| ==> i < k)
    && (forall j :: i < j < k ==> !Hit(start, changes, seen.Keys, i, j))
    && (i < k < |changes| ==> Hit(start, changes, seen.Keys, i, k))
  }

  /** Every frequency the pass visits is recorded and no key is dropped; old
      keys keep their counts, new keys get 1, and a repeat is raised by one. */
  ghost predicate Recorded(start: int, changes: seq<int>, seen: map<int, nat>, i: nat, k: nat, r: Calibration)
    requires i <= k <= |changes|
  {
    && r.seen.Keys == seen.Keys + Visited(start, changes, i, k)
    && (forall x :: x in seen && x != r.frequency ==> r.seen[x] == seen[x])
    && (forall x :: x in r.seen && x !in seen && x != r.frequency ==> r.seen[x] == 1)
    && (i < k ==> r.frequency in r.seen)
    && (i < k && Hit(start, changes, seen.Keys, i, k) ==>
          r.frequency in r.seen && r.seen[r.frequency] == (if r.frequency in seen then seen[r.frequency] else 1) + 1)
    && (i < k && !Hit(start, changes, seen.Keys, i, k) ==> r.frequency in r.seen && r.seen[r.frequency] == 1)
    && (i == k ==> r.seen == seen)
  }

  /** `calibrate`: applies the changes from `start`, recording each running
      frequency; stops at the first one already recorded, raising its count. */
  function Calibrate(changes: seq<int>, seen: map<int, nat>, start: int): (r: Calibration)
    ensures start in seen ==> r.frequency in r.seen
  {
    CalibrateFrom(changes, 0, seen, start)
  }

  /** The loop of `calibrate` from change i on, at running frequency `freq`. */
  function CalibrateFrom(changes: seq<int>, i: nat, seen: map<int, nat>, freq: int): (r: Calibration)
    requires i <= |changes|
    ensures freq in seen ==> r.frequency in r.seen
    decreases |changes| - i
  {
    if i == |changes| then Calibration(freq, seen)
    else
      var next := freq + changes[i];
      if next !in seen then CalibrateFrom(changes, i + 1, seen[next := 1], next)
      else Calibration(next, seen[next := seen[next] + 1])
  }

  /** A pass of `calibrate` stops at the first running frequency already
      recorded, or after the last change, and records what it visits. */
  lemma CalibrateSpec(changes: seq<int>, seen: map<int, nat>, start: int)
    ensures exists k :: 0 <= k <= |changes| && Calibrated(start, changes, seen, 0, k, Calibrate(changes, seen, start))
  {
    assert changes[..0] == [];
    assert Calibrate(changes, seen, start) == CalibrateFrom(changes, 0, seen, start);
    CalibrateFromSpec(changes, start, 0, seen, start);
  }

  lemma {:induction false} CalibrateFromSpec(changes: seq<int>, start: int, i: nat, seen: map<int, nat>, freq: int)
    requires i <= |changes|
    requires freq == Running(start, changes, i)
    ensures exists k :: i <= k <= |changes| && Calibrated(start, changes, seen, i, k, CalibrateFrom(changes, i, seen, freq))
    decreases |changes| - i
  {
    if i == |changes| {
      assert Visited(start, changes, i, i) == {};
      assert CalibrateFrom(changes, i, seen, freq) == Calibration(freq, seen);
      assert Calibrated(start, changes, seen, i, i, Calibration(freq, seen));
    } else {
      var next := freq + changes[i];
      assert next == Running(start, changes, i + 1) by {
        assert changes[..i + 1] == changes[..i] + [changes[i]];
        SumSnoc(changes[..i], changes[i]);
      }
      assert Visited(start, changes, i, i) == {};
      if next !in seen {
        var seen' := seen[next := 1];
        assert CalibrateFrom(changes, i, seen, freq) == CalibrateFrom(changes, i + 1, seen', next);
        CalibrateFromSpec(changes, start, i + 1, seen', next);
        var r := CalibrateFrom(changes, i + 1, seen', next);
        var k :| i + 1 <= k <= |changes| && Calibrated(start, changes, seen', i + 1, k, r);
        CalibrateStep(start, changes, seen, seen', i, i + 1, k, r);
      } else {
        var r := Calibration(next, seen[next := seen[next] + 1]);
        assert CalibrateFrom(changes, i, seen, freq) == r;
        assert Hit(start, changes, seen.Keys, i, i + 1);
        assert Visited(start, changes, i, i + 1) == {next};
        assert Calibrated(start, changes, seen, i, i + 1, r);
      }
    }
  }

  /** A pass whose first running frequency is new behaves, relative to the
      original map, as the rest of the pass does relative to the map with
      that frequency added. */
  lemma CalibrateStep(start: int, changes: seq<int>, seen: map<int, nat>, seen': map<int, nat>, i: nat, i': nat, k: nat, r: Calibration)
    requires i < |changes| && i' == i + 1 && i' <= k <= |changes|
    requires Running(start, changes, i') !in seen
    requires seen' == seen[Running(start, changes, i') := 1]
    requires Calibrated(start, changes, seen', i', k, r)
    ensures Calibrated(start, changes, seen, i, k, r)
  {
    assert !Hit(start, changes, seen.Keys, i, i') by {
      assert Visited(start, changes, i, i) == {};
    }
    forall j | i' < j <= k
      ensures Hit(start, changes, seen.Keys, i, j) == Hit(start, changes, seen'.Keys, i', j)
    {
      HitShift(start, changes, seen, seen', i, i', j);
    }
    StoppedStep(start, changes, seen, seen', i, i', k, r);
    RecordedStep(start, changes, seen, seen', i, i', k, r);
  }

  lemma StoppedStep(start: int, changes: seq<int>, seen: map<int, nat>, seen': map<int, nat>, i: nat, i': nat, k: nat, r: Calibration)
    requires i < |changes| && i' == i + 1 && i' <= k <= |changes|
    requires !Hit(start, changes, seen.Keys, i, i')
    requires forall j :: i' < j <= k ==> Hit(start, changes, seen.Keys, i, j) == Hit(start, changes, seen'.Keys, i', j)
    requires Stopped(start, changes, seen', i', k, r)
    ensures Stopped(start, changes, seen, i, k, r)
  {
  }

  lemma RecordedStep(start: int, changes: seq<int>, seen: map<int, nat>, seen': map<int, nat>, i: nat, i': nat, k: nat, r: Calibration)
    requires i < |changes| && i' == i + 1 && i' <= k <= |changes|
    requires Running(start, changes, i') !in seen
    requires seen' == seen[Running(start, changes, i') := 1]
    requires !Hit(start, changes, seen.Keys, i, i')
    requires Hit(start, changes, seen.Keys, i, k) == (i' < k && Hit(start, changes, seen'.Keys, i', k))
    requires Recorded(start, changes, seen', i', k, r)
    requires r.frequency == Running(start, changes, k)
    ensures Recorded(start, changes, seen, i, k, r)
  {
    var next := Running(start, changes, i');
    assert r.seen.Keys == seen.Keys + Visited(start, changes, i, k) by {
      assert Visited(start, changes, i, k) == {next} + Visited(start, changes, i', k);
    }
    if k == i' {
      assert r.seen == seen';
    }
  }

  /** Moving the first new frequency of a pass into the map does not change
      which later frequencies count as repeats. */
  lemma HitShift(start: int, changes: seq<int>, seen: map<int, nat>, seen': map<int, nat>, i: nat, i': nat, j: nat)
    requires i' == i + 1 && i' < j <= |changes|
    requires seen' == seen[Running(start, changes, i') := 1]
    ensures Hit(start, changes, seen.Keys, i, j) == Hit(start, changes, seen'.Keys, i', j)
  {
    assert Visited(start, changes, i, j - 1) == {Running(start, changes, i')} + Visited(start, changes, i', j - 1);
  }

  /** Part two: start from a map that already records 0 once and call
      `calibrate` again from wherever it stopped until the frequency it
      returns has a count other than 1. The loop need not end (an empty list
      never repeats), so the model takes a bound on the number of extra
      passes and returns None when it is exhausted. */
  function SolvePartTwo(changes: seq<int>, fuel: nat): Option<int>
  {
    Search(changes, Calibrate(changes, map[0 := 1], 0), fuel)
  }

  function Search(changes: seq<int>, c: Calibration, fuel: nat): Option<int>
    requires c.frequency in c.seen
    decreases fuel
  {
    if c.seen[c.frequency] != 1 then Some(c.frequency)
    else if fuel == 0 then None
    else Search(changes, Calibrate(changes, c.seen, c.frequency), fuel - 1)
  }

  // ---------------------------------------------------------------------
  // Reference definition: the frequencies reached by cycling the list.

  /** The frequency after n changes when the list is applied over and over. */
  ghost function Frequency(changes: seq<int>, n: nat): int
    requires |changes| > 0
  {
    if n == 0 then 0 else Frequency(changes, n - 1) + changes[(n - 1) % |changes|]
  }

  /** Frequencies 0 .. n are pairwise distinct. */
  ghost predicate DistinctUpTo(changes: seq<int>, n: nat)
    requires |changes| > 0
  {
    forall a, b :: 0 <= a < b <= n ==> Frequency(changes, a) != Frequency(changes, b)
  }

  /** Step m is the first at which a frequency comes round a second time. */
  ghost predicate FirstRepeatAt(changes: seq<int>, m: nat)
    requires |changes| > 0
  {
    && m > 0
    && DistinctUpTo(changes, m - 1)
    && exists a :: 0 <= a < m && Frequency(changes, a) == Frequency(changes, m)
  }

  ghost function ReachedUpTo(changes: seq<int>, n: nat): set<int>
    requires |changes| > 0
  {
    set a | 0 <= a <= n :: Frequency(changes, a)
  }

  /** Within one round the cyclic frequency is the round's start plus a
      prefix sum of the list. */
  lemma {:induction false} WithinRound(changes: seq<int>, q: nat, j: nat)
    requires 0 < |changes| && j <= |changes|
    ensures Frequency(changes, q * |changes| + j) == Frequency(changes, q * |changes|) + Sum(changes[..j])
  {
    if j == 0 {
      assert changes[..0] == [];
    } else {
      WithinRound(changes, q, j - 1);
      var L := |changes|;
      assert (q * L + j - 1) % L == j - 1 by {
        assert q * L + j - 1 == q * L + (j - 1);
        LemmaModOffset(q, L, j - 1);
      }
      assert changes[..j] == changes[..j - 1] + [changes[j - 1]];
      SumSnoc(changes[..j - 1], changes[j - 1]);
    }
  }

  lemma LemmaModOffset(q: nat, L: nat, j: nat)
    requires j < L
    ensures (q * L + j) % L == j
  {
    var n := q * L + j;
    var d, r := n / L, n % L;
    assert n == d * L + r;
    assert (d - q) * L == j - r;
    assert (q - d) * L == r - j;
    LemmaMulAtLeast(d - q, L);
    LemmaMulAtLeast(q - d, L);
  }

  lemma LemmaMulAtLeast(x: int, L: nat)
    ensures x >= 1 ==> x * L >= L
  {
  }

  /** The map and frequency part two holds before its (q+1)-th pass: every
      frequency of the first q rounds recorded once, none repeated. */
  ghost predicate RoundStart(changes: seq<int>, q: nat, c: Calibration)
    requires |changes| > 0
  {
    && c.frequency == Frequency(changes, q * |changes|)
    && DistinctUpTo(changes, q * |changes|)
    && c.seen.Keys == ReachedUpTo(changes, q * |changes|)
    && (forall x :: x in c.seen ==> c.seen[x] == 1)
  }

  /** One pass either finds the first repeat or completes a round without
      one. */
  lemma {:induction false} Round(changes: seq<int>, q: nat, c: Calibration)
    requires |changes| > 0
    requires RoundStart(changes, q, c)
    ensures var c' := Calibrate(changes, c.seen, c.frequency);
      c'.frequency in c'.seen &&
      if c'.seen[c'.frequency] != 1
      then exists m: nat :: FirstRepeatAt(changes, m) && m <= (q + 1) * |changes| && c'.frequency == Frequency(changes, m)
      else RoundStart(changes, q + 1, c')
  {
    var start := c.frequency;
    var c' := Calibrate(changes, c.seen, start);
    CalibrateSpec(changes, c.seen, start);
    var k :| 0 <= k <= |changes| && Calibrated(start, changes, c.seen, 0, k, c');
    if Hit(start, changes, c.seen.Keys, 0, k) {
      RoundFindsRepeat(changes, q, c, k, c');
    } else {
      RoundCompletes(changes, q, c, k, c');
    }
  }

  lemma RoundFindsRepeat(changes: seq<int>, q: nat, c: Calibration, k: nat, c': Calibration)
    requires |changes| > 0 && 0 < k <= |changes|
    requires RoundStart(changes, q, c)
    requires Calibrated(c.frequency, changes, c.seen, 0, k, c')
    requires Hit(c.frequency, changes, c.seen.Keys, 0, k)
    ensures c'.frequency in c'.seen && c'.seen[c'.frequency] != 1
    ensures exists m: nat :: FirstRepeatAt(changes, m) && m <= (q + 1) * |changes| && c'.frequency == Frequency(changes, m)
  {
    var m := q * |changes| + k;
    assert m <= (q + 1) * |changes| by {
      MulSucc(q, |changes|);
    }
    DistinctBeforeStop(changes, q, c, k);
    HitIsRepeat(changes, q, c, k);
    RoundRunning(changes, q, c.frequency, k);
    var a :| 0 <= a <= m - 1 && Frequency(changes, a) == Frequency(changes, m);
    assert FirstRepeatAt(changes, m);
    assert c'.frequency in c.seen.Keys + Visited(c.frequency, changes, 0, k);
  }

  lemma MulSucc(q: nat, L: nat)
    ensures (q + 1) * L == q * L + L
  {
  }

  lemma RoundCompletes(changes: seq<int>, q: nat, c: Calibration, k: nat, c': Calibration)
    requires |changes| > 0 && 0 < k <= |changes|
    requires RoundStart(changes, q, c)
    requires Calibrated(c.frequency, changes, c.seen, 0, k, c')
    requires !Hit(c.frequency, changes, c.seen.Keys, 0, k)
    ensures c'.frequency in c'.seen && c'.seen[c'.frequency] == 1
    ensures RoundStart(changes, q + 1, c')
  {
    var L := |changes|;
    assert k == L;
    assert (q + 1) * L == q * L + L;
    RoundRunning(changes, q, c.frequency, k);
    DistinctThroughRound(changes, q, c, k);
    VisitedIsReached(changes, q, c.frequency, L);
    assert Running(c.frequency, changes, k) in Visited(c.frequency, changes, 0, k);
  }

  /** A pass of a whole round without a repeat leaves the frequencies of
      the next round start pairwise distinct. */
  lemma DistinctThroughRound(changes: seq<int>, q: nat, c: Calibration, k: nat)
    requires |changes| > 0 && k == |changes|
    requires RoundStart(changes, q, c)
    requires forall j :: 0 < j < k ==> !Hit(c.frequency, changes, c.seen.Keys, 0, j)
    requires !Hit(c.frequency, changes, c.seen.Keys, 0, k)
    ensures DistinctUpTo(changes, q * |changes| + |changes|)
  {
    var base := q * |changes|;
    DistinctBeforeStop(changes, q, c, k);
    HitIsRepeat(changes, q, c, k);
    forall a, b | 0 <= a < b <= base + k
      ensures Frequency(changes, a) != Frequency(changes, b)
    {
      if b == base + k {
        assert Frequency(changes, a) in ReachedUpTo(changes, b - 1);
      }
    }
  }

  /** A pass that starts at round q stops only at a repeat: the frequencies
      before its stopping step are pairwise distinct. */
  lemma DistinctBeforeStop(changes: seq<int>, q: nat, c: Calibration, k: nat)
    requires |changes| > 0 && 0 < k <= |changes|
    requires RoundStart(changes, q, c)
    requires forall j :: 0 < j < k ==> !Hit(c.frequency, changes, c.seen.Keys, 0, j)
    ensures DistinctUpTo(changes, q * |changes| + k - 1)
  {
    var base := q * |changes|;
    forall a, b | 0 <= a < b <= base + k - 1
      ensures Frequency(changes, a) != Frequency(changes, b)
    {
      if b > base {
        HitIsRepeat(changes, q, c, b - base);
        assert Frequency(changes, a) in ReachedUpTo(changes, b - 1);
      }
    }
  }

  /** A running frequency of a pass from round q counts as a repeat exactly
      when the cyclic frequency at that step was reached before. */
  lemma HitIsRepeat(changes: seq<int>, q: nat, c: Calibration, j: nat)
    requires |changes| > 0 && 0 < j <= |changes|
    requires RoundStart(changes, q, c)
    ensures Hit(c.frequency, changes, c.seen.Keys, 0, j)
            <==> Frequency(changes, q * |changes| + j) in ReachedUpTo(changes, q * |changes| + j - 1)
  {
    RoundRunning(changes, q, c.frequency, j);
    VisitedIsReached(changes, q, c.frequency, j - 1);
  }

  lemma RoundRunning(changes: seq<int>, q: nat, start: int, j: nat)
    requires 0 < |changes| && j <= |changes|
    requires start == Frequency(changes, q * |changes|)
    ensures Running(start, changes, j) == Frequency(changes, q * |changes| + j)
  {
    WithinRound(changes, q, j);
  }

  /** The frequencies recorded before a pass plus those it visits up to step
      j are those of cyclic steps 0 .. base + j. */
  lemma VisitedIsReached(changes: seq<int>, q: nat, start: int, j: nat)
    requires 0 < |changes| && j <= |changes|
    requires start == Frequency(changes, q * |changes|)
    ensures ReachedUpTo(changes, q * |changes|) + Visited(start, changes, 0, j) == ReachedUpTo(changes, q * |changes| + j)
  {
    var base := q * |changes|;
    forall x | x in ReachedUpTo(changes, base + j)
      ensures x in ReachedUpTo(changes, base) + Visited(start, changes, 0, j)
    {
      var a :| 0 <= a <= base + j && x == Frequency(changes, a);
      if a > base {
        RoundRunning(changes, q, start, a - base);
      }
    }
    forall x | x in Visited(start, changes, 0, j)
      ensures x in ReachedUpTo(changes, base + j)
    {
      var j' :| 0 < j' <= j && x == Running(start, changes, j');
      RoundRunning(changes, q, start, j');
    }
  }

  /** Part two, when it answers, answers with the first frequency reached
      twice while cycling through the changes from 0. */
  lemma {:induction false} PartTwoFindsFirstRepeat(changes: seq<int>, fuel: nat)
    requires SolvePartTwo(changes, fuel).Some?
    ensures |changes| > 0
    ensures exists m: nat :: FirstRepeatAt(changes, m) && m <= (fuel + 1) * |changes|
                        && SolvePartTwo(changes, fuel).value == Frequency(changes, m)
  {
    if |changes| == 0 {
      EmptyNeverRepeats(fuel);
    } else {
      var c := Calibration(0, map[0 := 1]);
      assert RoundStart(changes, 0, c) by {
        assert Frequency(changes, 0) == 0;
        assert forall x :: x in ReachedUpTo(changes, 0) <==> x == 0;
      }
      SearchFindsFirstRepeat(changes, 0, c, Calibrate(changes, c.seen, c.frequency), fuel);
    }
  }

  lemma {:induction false} SearchFindsFirstRepeat(changes: seq<int>, q: nat, c: Calibration, c': Calibration, fuel: nat)
    requires |changes| > 0
    requires RoundStart(changes, q, c)
    requires c' == Calibrate(changes, c.seen, c.frequency) && c'.frequency in c'.seen
    requires Search(changes, c', fuel).Some?
    ensures exists m: nat :: FirstRepeatAt(changes, m) && m <= (q + fuel + 1) * |changes|
                        && Search(changes, c', fuel).value == Frequency(changes, m)
    decreases fuel
  {
    Round(changes, q, c);
    if c'.seen[c'.frequency] == 1 {
      var c'' := Calibrate(changes, c'.seen, c'.frequency);
      SearchFindsFirstRepeat(changes, q + 1, c', c'', fuel - 1);
      assert (q + 1) + (fuel - 1) + 1 == q + fuel + 1;
    } else {
      var m: nat :| FirstRepeatAt(changes, m) && m <= (q + 1) * |changes| && c'.frequency == Frequency(changes, m);
      assert m <= (q + fuel + 1) * |changes| by {
        MulMonotone(q + 1, q + fuel + 1, |changes|);
      }
    }
  }

  lemma MulMonotone(a: nat, b: nat, L: nat)
    requires a <= b
    ensures a * L <= b * L
  {
  }

  /** Part two answers exactly when the first repeat comes within the
      first fuel + 1 rounds, and then answers with it. */
  lemma PartTwoAnswersWithFuel(changes: seq<int>, fuel: nat)
    ensures SolvePartTwo(changes, fuel).Some? <==>
      |changes| > 0 && exists m: nat :: FirstRepeatAt(changes, m) && m <= (fuel + 1) * |changes|
    ensures forall m: nat :: |changes| > 0 && FirstRepeatAt(changes, m) && m <= (fuel + 1) * |changes| ==>
      SolvePartTwo(changes, fuel) == Some(Frequency(changes, m))
  {
    if SolvePartTwo(changes, fuel).Some? {
      PartTwoFindsFirstRepeat(changes, fuel);
    }
    forall m: nat | |changes| > 0 && FirstRepeatAt(changes, m) && m <= (fuel + 1) * |changes|
      ensures SolvePartTwo(changes, fuel) == Some(Frequency(changes, m))
    {
      PartTwoReachesRepeat(changes, m, fuel);
      PartTwoFindsFirstRepeat(changes, fuel);
      var m' :| FirstRepeatAt(changes, m') && SolvePartTwo(changes, fuel).value == Frequency(changes, m');
      FirstRepeatUnique(changes, m, m');
    }
  }

  /** With enough passes for the first repeat, part two answers. */
  lemma PartTwoReachesRepeat(changes: seq<int>, m: nat, fuel: nat)
    requires |changes| > 0 && FirstRepeatAt(changes, m) && m <= (fuel + 1) * |changes|
    ensures SolvePartTwo(changes, fuel).Some?
  {
    var c := Calibration(0, map[0 := 1]);
    assert RoundStart(changes, 0, c) by {
      assert Frequency(changes, 0) == 0;
      assert forall x :: x in ReachedUpTo(changes, 0) <==> x == 0;
    }
    SearchReachesRepeat(changes, 0, c, Calibrate(changes, c.seen, c.frequency), m, fuel);
  }

  lemma {:induction false} SearchReachesRepeat(changes: seq<int>, q: nat, c: Calibration, c': Calibration, m: nat, fuel: nat)
    requires |changes| > 0
    requires RoundStart(changes, q, c)
    requires c' == Calibrate(changes, c.seen, c.frequency) && c'.frequency in c'.seen
    requires FirstRepeatAt(changes, m) && m <= (q + fuel + 1) * |changes|
    ensures Search(changes, c', fuel).Some?
    decreases fuel
  {
    Round(changes, q, c);
    if c'.seen[c'.frequency] == 1 {
      RepeatBeyond(changes, m, (q + 1) * |changes|);
      assert (q + fuel + 1) * |changes| == (q + 1) * |changes| + fuel * |changes|;
      assert fuel > 0;
      var c'' := Calibrate(changes, c'.seen, c'.frequency);
      assert (q + 1) + (fuel - 1) + 1 == q + fuel + 1;
      SearchReachesRepeat(changes, q + 1, c', c'', m, fuel - 1);
    }
  }

  /** No repeat comes while the frequencies are still pairwise distinct. */
  lemma RepeatBeyond(changes: seq<int>, m: nat, n: nat)
    requires |changes| > 0 && FirstRepeatAt(changes, m) && DistinctUpTo(changes, n)
    ensures m > n
  {
    var a :| 0 <= a < m && Frequency(changes, a) == Frequency(changes, m);
  }

  /** There is only one first repeat. */
  lemma FirstRepeatUnique(changes: seq<int>, m: nat, m': nat)
    requires |changes| > 0 && FirstRepeatAt(changes, m) && FirstRepeatAt(changes, m')
    ensures m == m'
  {
    RepeatBeyond(changes, m, m' - 1);
    RepeatBeyond(changes, m', m - 1);
  }

  /** With no changes the frequency never moves, so part two never answers. */
  lemma {:induction false} EmptyNeverRepeats(fuel: nat)
    ensures SolvePartTwo([], fuel) == None
  {
    var c := Calibrate([], map[0 := 1], 0);
    assert c == Calibration(0, map[0 := 1]);
    EmptySearch(c, fuel);
  }

  lemma {:induction false} EmptySearch(c: Calibration, fuel: nat)
    requires c == Calibration(0, map[0 := 1])
    ensures Search([], c, fuel) == None
    decreases fuel
  {
    if fuel > 0 {
      assert Calibrate([], c.seen, c.frequency) == c;
      EmptySearch(c, fuel - 1);
    }
  }
}
