# Advent of Code 2018 solvers, days 1–6, 10 and 11, in Dafny

This project models the puzzle solvers of the `jidoka` Advent of Code 2018
repository. Each solver class `PuzzleDayN` becomes one Dafny module of the same
name. The module models how the class reads its input lines, the data it
builds from them, and the answers of `solvePartOne` and `solvePartTwo`.

- **Day One**: frequency calibration. The sum of the changes, and the first
  frequency reached twice while the list of changes is repeated.
- **Day Two**: box IDs. The checksum, built from IDs with a letter exactly twice
  or three times, and the letters shared by the most similar pair of IDs.
- **Day Three**: fabric claims. The inches claimed more than once, and the claim
  that overlaps no other.
- **Day Four**: guard duty. Time stamps, sorting of the log, attribution of
  events to guards, minute counters, and the two "strategies".
- **Day Five**: polymer reduction, and the shortest polymer after removing one
  unit type.
- **Day Six**: Manhattan regions on a bounding box. The largest finite region,
  and the number of cells within a total distance.
- **Day Ten**: moving stars. The first second at which the sky is at most ten
  high, and the drawing of the sky then.
- **Day Eleven**: fuel cell grid. Power levels with Java `int` wrap-around, the
  best 3 × 3 square, and the best square of any size.

Shared modules:

- `Common`: `Option` and `Result`. A failure names the Java exception the
  source would throw. The module also holds sums and `ArgMax` (the first
  largest element, as `Stream.max` keeps it).
- `Decimal`: `Integer.valueOf` and `Long.valueOf` with their ranges, printing of
  numbers, and `String.trim`.
- `Template`: the source's regular expressions are all "literal text with
  capture groups of one character class". This module matches such templates,
  with soundness and completeness lemmas.

Input lines are parameters: `seq<string>` for the lines of the puzzle file.
Exceptions become `Err` values that name the exception. Loops that need not
end take a `fuel` bound.

Where the puzzle's description and the code differ, the model follows the
code:

- Day Eleven sums every square cell by cell. It does not use a prefix-sum
  table.
- Day Eleven visits corners only up to `x < 300 - size` and `y < 300 - size`.
  That gives (300 − size)² corners and none at all for size 300.
- Day Eleven's `extractHundredsDigitFrom` answers 0 for every value up to 100,
  100 included. It reads the digit from the decimal numeral.
- Day Two's part two takes the IDs with the best score from a map. It fails
  unless exactly two distinct IDs have that score. For pairwise different IDs
  whose lengths pass the index check of `getSimilarity`, this means: it
  answers exactly when one pair of IDs shares more characters than every
  other pair. Otherwise an ID longer than another, with more than one
  character, makes it fail with an index error.

## Model

| member | source | states |
|---|---|---|
| Common.ArgMax | src/main/java/be/jidoka/adventofcode/puzzle/day/PuzzleDayFour.java:22-30 | the chosen position holds a largest element and every earlier position holds a strictly smaller one, as a stable descending sort followed by `findFirst` picks it |
| Common.MapResult | src/main/java/be/jidoka/adventofcode/puzzle/day/PuzzleDaySix.java:33-36 | mapping a parser over lines succeeds iff every line parses, giving the parsed values in order; otherwise the error is that of the first failing line |
| Common.Distinct | src/main/java/be/jidoka/adventofcode/puzzle/day/PuzzleDayFive.java:78-82 | `distinct()` keeps exactly the elements of the input, each once |
| Decimal.ParseSigned | src/main/java/be/jidoka/adventofcode/puzzle/day/PuzzleDayTen.java:45-46 | `Integer.valueOf` yields a value within the type's range or a NumberFormatException |
| Decimal.ParseFormatRoundTrip | src/main/java/be/jidoka/adventofcode/puzzle/day/PuzzleDayTen.java:45-46 | every integer in range is read back from its decimal numeral |
| Decimal.Trim | src/main/java/be/jidoka/adventofcode/puzzle/day/PuzzleDayTen.java:45-46 | `trim` returns a middle slice with only control or space characters cut from both ends, and no such character at either end |
| Template.MatchSound | src/main/java/be/jidoka/adventofcode/puzzle/day/PuzzleDayThree.java:60-64 | the groups of a match rebuild the matched line exactly |
| Template.MatchComplete | src/main/java/be/jidoka/adventofcode/puzzle/day/PuzzleDayThree.java:60-64 | any line built from groups of the right character classes matches, with those groups |
| Template.MatchExact | src/main/java/be/jidoka/adventofcode/puzzle/day/PuzzleDayThree.java:60-64 | `matches()` succeeds exactly when the line has the template's shape, and the groups are then unique |
| PuzzleDayOne.SolvePartOne | src/main/java/be/jidoka/adventofcode/puzzle/day/PuzzleDayOne.java:14-17 | part one is the sum of all frequency changes |
| PuzzleDayOne.CalibrateSpec | src/main/java/be/jidoka/adventofcode/puzzle/day/PuzzleDayOne.java:38-50 | one pass of `calibrate` stops at the first running frequency already seen, or after the last change. It records every frequency it visits with count 1 and raises the count of the repeat |
| PuzzleDayOne.Round | src/main/java/be/jidoka/adventofcode/puzzle/day/PuzzleDayOne.java:26-29 | each pass of the loop either ends at the first frequency reached twice, or completes a round with every frequency so far recorded exactly once |
| PuzzleDayOne.PartTwoFindsFirstRepeat | src/main/java/be/jidoka/adventofcode/puzzle/day/PuzzleDayOne.java:19-32 | when part two answers, the answer is the first frequency reached a second time while the list of changes is applied over and over from 0, reached within the first fuel + 1 rounds |
| PuzzleDayOne.PartTwoAnswersWithFuel | src/main/java/be/jidoka/adventofcode/puzzle/day/PuzzleDayOne.java:19-32 | part two answers exactly when the list is non-empty and the first repeat comes within the first fuel + 1 rounds, and then answers with the frequency of that repeat |
| PuzzleDayOne.EmptyNeverRepeats | src/main/java/be/jidoka/adventofcode/puzzle/day/PuzzleDayOne.java:26-29 | with no changes the loop never ends: part two gives no answer for any bound |
| PuzzleDayTwo.Tally | src/main/java/be/jidoka/adventofcode/puzzle/day/PuzzleDayTwo.java:102-106 | grouping the characters of an ID counts each character exactly as often as it occurs |
| PuzzleDayTwo.AnalyzeCounts | src/main/java/be/jidoka/adventofcode/puzzle/day/PuzzleDayTwo.java:102-106 | a count is in the analysis iff some letter occurs that often (the empty ID analyses to {1}) |
| PuzzleDayTwo.MatchMeansMultiplicity | src/main/java/be/jidoka/adventofcode/puzzle/day/PuzzleDayTwo.java:75-81 | an ID has a two-letter (three-letter) match iff some letter occurs exactly twice (three times) |
| PuzzleDayTwo.CheckSumValues | src/main/java/be/jidoka/adventofcode/puzzle/day/PuzzleDayTwo.java:87-96 | an ID contributes 2 iff it has a two-letter match and 3 iff it has a three-letter match, each once, in that order |
| PuzzleDayTwo.PartOneIsChecksum | src/main/java/be/jidoka/adventofcode/puzzle/day/PuzzleDayTwo.java:22-32 | part one is (IDs with a letter twice) × (IDs with a letter three times), where a zero count drops out of the product |
| PuzzleDayTwo.GetSimilarityAgrees | src/main/java/be/jidoka/adventofcode/puzzle/day/PuzzleDayTwo.java:133-144 | the similarity is the characters of the first ID at the positions where the second agrees. It fails with an index error exactly when the second ID is shorter and the first has more than one character |
| PuzzleDayTwo.SimilarityProperties | src/main/java/be/jidoka/adventofcode/puzzle/day/PuzzleDayTwo.java:129-144 | an ID is wholly similar to itself, similarity of equal-length IDs is symmetric, and the score never exceeds the ID's length |
| PuzzleDayTwo.SimilarityOfSet | src/main/java/be/jidoka/adventofcode/puzzle/day/PuzzleDayTwo.java:119-127 | a set of other than two IDs is an IllegalStateException. Two distinct IDs give the characters on which they agree, the same whichever comes first; they fail with an index error exactly when the first has more than one character and is longer than the second |
| PuzzleDayTwo.ScoreAll | src/main/java/be/jidoka/adventofcode/puzzle/day/PuzzleDayTwo.java:39-53 | the pair loop scores every ordered pair of distinct positions, and fails iff some pair's similarity fails |
| PuzzleDayTwo.PartTwoIsMostSimilar | src/main/java/be/jidoka/adventofcode/puzzle/day/PuzzleDayTwo.java:34-63 | part two fails with an index error iff two IDs have incompatible lengths, and with no element for fewer than two IDs. An answer is what two IDs at distinct positions share (either way round), and with pairwise different IDs no pair shares more |
| PuzzleDayTwo.PartTwoUniqueBest | src/main/java/be/jidoka/adventofcode/puzzle/day/PuzzleDayTwo.java:34-63 | for pairwise different IDs whose lengths pass the index check, part two answers exactly when one pair of IDs shares more than every other pair, and then answers with what that pair shares; with two or more IDs the only other failure is IllegalState |
| PuzzleDayThree.ParseClaim | src/main/java/be/jidoka/adventofcode/puzzle/day/PuzzleDayThree.java:59-71 | a parsed claim has natural fields within `long` and `int` range; failures are IllegalState or NumberFormat |
| PuzzleDayThree.ParseClaimRejects | src/main/java/be/jidoka/adventofcode/puzzle/day/PuzzleDayThree.java:60-64 | a line is rejected as malformed exactly when the claim expression does not accept it |
| PuzzleDayThree.ParseFormatClaim | src/main/java/be/jidoka/adventofcode/puzzle/day/PuzzleDayThree.java:59-71 | every claim whose fields fit their Java types is read back from its `#id @ l,t: wxd` line |
| PuzzleDayThree.ClaimedInches | src/main/java/be/jidoka/adventofcode/puzzle/day/PuzzleDayThree.java:73-81 | the claimed inches are exactly those of the claim's rectangle, each once, width × depth of them |
| PuzzleDayThree.CountIsCoverage | src/main/java/be/jidoka/adventofcode/puzzle/day/PuzzleDayThree.java:42-45 | the count of an inch among all claimed inches is the number of claims covering it |
| PuzzleDayThree.OverlapIsTwoClaims | src/main/java/be/jidoka/adventofcode/puzzle/day/PuzzleDayThree.java:42-49 | an inch has a count above one iff two different claims cover it |
| PuzzleDayThree.PartOneCountsSharedInches | src/main/java/be/jidoka/adventofcode/puzzle/day/PuzzleDayThree.java:22-25 | part one is the number of inches covered by two different claims |
| PuzzleDayThree.ClearMeansAlone | src/main/java/be/jidoka/adventofcode/puzzle/day/PuzzleDayThree.java:87-91 | a claim contains no overlapping inch iff no other claim covers any of its inches |
| PuzzleDayThree.FirstClear | src/main/java/be/jidoka/adventofcode/puzzle/day/PuzzleDayThree.java:31-35 | `filter/findFirst/get` yields the id of the first claim passing the filter, and NoSuchElement iff none does |
| PuzzleDayThree.PartTwoFindsLoneClaim | src/main/java/be/jidoka/adventofcode/puzzle/day/PuzzleDayThree.java:27-36 | part two answers with the id of the first claim that shares no inch with another claim, and fails exactly when there is none |
| PuzzleDayFour.ResolveDateTime | src/main/java/be/jidoka/adventofcode/puzzle/day/PuzzleDayFour.java:110-112 | a time stamp fails to parse exactly when a field is out of its range (24:00 allowed); a valid one gives a minute count whose minute of the hour is the stamp's minute |
| PuzzleDayFour.EpochWithinDay | src/main/java/be/jidoka/adventofcode/puzzle/day/PuzzleDayFour.java:110-112 | within one day, times differ by the difference of hours and minutes |
| PuzzleDayFour.EventTypeFor | src/main/java/be/jidoka/adventofcode/puzzle/day/PuzzleDayFour.java:114-123 | "falls asleep" and "wakes up" are the two fixed kinds; every other description is a shift start |
| PuzzleDayFour.GuardIdRoundTrip | src/main/java/be/jidoka/adventofcode/puzzle/day/PuzzleDayFour.java:125-133 | `guardIdFor` reads back the id of every shift-start description and finds none in the other two |
| PuzzleDayFour.GuardIdForNull | src/main/java/be/jidoka/adventofcode/puzzle/day/PuzzleDayFour.java:125-133 | `guardIdFor` is null exactly when the description is not of the form "Guard #digits begins shift" |
| PuzzleDayFour.GuardIdForDigits | src/main/java/be/jidoka/adventofcode/puzzle/day/PuzzleDayFour.java:125-133 | for "Guard #digits begins shift" the id is the decimal value of the digits when there are some and it fits an `int`; otherwise a NumberFormatException |
| PuzzleDayFour.ParseEvent | src/main/java/be/jidoka/adventofcode/puzzle/day/PuzzleDayFour.java:77-88 | an event line fails only with IllegalState, DateTimeParse or NumberFormat; an event has a non-negative time |
| PuzzleDayFour.ParseEventRejects | src/main/java/be/jidoka/adventofcode/puzzle/day/PuzzleDayFour.java:77-82 | an event line is an IllegalStateException exactly when it is not "[dddd-dd-dd dd:dd] " followed by letters, digits, spaces and '#' |
| PuzzleDayFour.EventRoundTrip | src/main/java/be/jidoka/adventofcode/puzzle/day/PuzzleDayFour.java:77-88 | a line printed from a valid time stamp and a description is read back to an event at that time, of the description's kind and with its guard id; a guard id too large for an `int` is a NumberFormatException |
| PuzzleDayFour.EpochOrder | src/main/java/be/jidoka/adventofcode/puzzle/day/PuzzleDayFour.java:110-112 | for valid stamps the minute count orders times as date then time does, and equal counts mean equal stamps, so sorting by the count is sorting by `LocalDateTime` |
| PuzzleDayFour.SortEvents | src/main/java/be/jidoka/adventofcode/puzzle/day/PuzzleDayFour.java:60-64 | the events come out in time order, a permutation of the input |
| PuzzleDayFour.RosterSpec | src/main/java/be/jidoka/adventofcode/puzzle/day/PuzzleDayFour.java:43-58 | `getGuards` fails iff the first event is not a shift start. Otherwise there is one guard per started id, holding in order exactly the events of its own shifts |
| PuzzleDayFour.GuardList | src/main/java/be/jidoka/adventofcode/puzzle/day/PuzzleDayFour.java:43-58 | the guard list has each started id once, with the events of that guard's shifts |
| PuzzleDayFour.SleepsBetween | src/main/java/be/jidoka/adventofcode/puzzle/day/PuzzleDayFour.java:212-222 | every minute from falling asleep up to waking raises the counter of its minute of the hour by one |
| PuzzleDayFour.NapsPairUp | src/main/java/be/jidoka/adventofcode/puzzle/day/PuzzleDayFour.java:163-177 | a guard's naps are measured without a null `sleptAt` exactly when every wake-up has a falling-asleep before it and no other wake-up in between |
| PuzzleDayFour.CountersMatchMinutesAsleep | src/main/java/be/jidoka/adventofcode/puzzle/day/PuzzleDayFour.java:163-210 | for time-ordered events, the minute counters fail iff the minutes asleep fail, and they add up to the minutes asleep |
| PuzzleDayFour.MaximumTimesAsleep | src/main/java/be/jidoka/adventofcode/puzzle/day/PuzzleDayFour.java:179-186 | the largest minute counter, reached by some minute, or 0 when the guard never slept |
| PuzzleDayFour.MostAsleepMinute | src/main/java/be/jidoka/adventofcode/puzzle/day/PuzzleDayFour.java:188-195 | a minute whose counter is the largest, or 0 when the guard never slept |
| PuzzleDayFour.Strategy | src/main/java/be/jidoka/adventofcode/puzzle/day/PuzzleDayFour.java:22-30 | no guards is NoSuchElement; an answer is id × most-asleep minute of the first guard whose score is the largest |
| PuzzleDayFour.StrategyAnswers | src/main/java/be/jidoka/adventofcode/puzzle/day/PuzzleDayFour.java:22-41 | a strategy answers exactly when there are guards, every guard scores, and the first guard with the largest score has an id and naps that pair up; that guard is unique |
| PuzzleDayFour.PartOneSleepiestGuard | src/main/java/be/jidoka/adventofcode/puzzle/day/PuzzleDayFour.java:22-30 | part one answers for a guard asleep at least as many minutes as every other guard |
| PuzzleDayFour.PartTwoSteadiestGuard | src/main/java/be/jidoka/adventofcode/puzzle/day/PuzzleDayFour.java:33-41 | part two answers for a guard whose largest minute counter is at least every other guard's |
| PuzzleDayFour.LogAnswers | src/main/java/be/jidoka/adventofcode/puzzle/day/PuzzleDayFour.java:22-64 | a log whose lines all parse and which, in time order, opens with a shift start, names a guard in every shift start and pairs up each guard's wake-ups gets an answer from both parts |
| PuzzleDayFive.RemoveFirstReactionSpec | src/main/java/be/jidoka/adventofcode/puzzle/day/PuzzleDayFive.java:66-76 | a step deletes exactly the leftmost reacting pair, and changes nothing when no pair reacts |
| PuzzleDayFive.RemoveFirstReactionFixed | src/main/java/be/jidoka/adventofcode/puzzle/day/PuzzleDayFive.java:66-76 | a step changes nothing exactly when no two adjacent units react |
| PuzzleDayFive.ReduceIdempotent | src/main/java/be/jidoka/adventofcode/puzzle/day/PuzzleDayFive.java:54-64 | reducing twice is reducing once; a polymer is its own reduction iff nothing in it reacts |
| PuzzleDayFive.ReduceStep | src/main/java/be/jidoka/adventofcode/puzzle/day/PuzzleDayFive.java:54-64 | a reaction step does not change the final reduction |
| PuzzleDayFive.RemoveAllReactions | src/main/java/be/jidoka/adventofcode/puzzle/day/PuzzleDayFive.java:54-64 | the loop ends with the reference reduction: no reacting pair left, no longer than the input, same parity of length |
| PuzzleDayFive.AnalyzeUnitsSpec | src/main/java/be/jidoka/adventofcode/puzzle/day/PuzzleDayFive.java:78-82 | the units are distinct lower-cased units of the polymer, all of them; the empty polymer has the one empty unit |
| PuzzleDayFive.RemoveTypeSpec | src/main/java/be/jidoka/adventofcode/puzzle/day/PuzzleDayFive.java:49 | removing a unit type in both cases leaves none of it and every other unit as often as before |
| PuzzleDayFive.ShortestFormSpec | src/main/java/be/jidoka/adventofcode/puzzle/day/PuzzleDayFive.java:46-52 | the shortest form is the first shortest reduction among the unit-removed candidates |
| PuzzleDayFive.SolvePartOne | src/main/java/be/jidoka/adventofcode/puzzle/day/PuzzleDayFive.java:14-32 | no input line is IllegalArgument; otherwise the length of the reduced first line |
| PuzzleDayFive.SolvePartTwo | src/main/java/be/jidoka/adventofcode/puzzle/day/PuzzleDayFive.java:20-32 | no input line is IllegalArgument; otherwise the shortest length over all unit removals, no more than any candidate and no more than part one's answer |
| PuzzleDayFive.DeletePairIs | src/main/java/be/jidoka/adventofcode/puzzle/day/PuzzleDayFive.java:70-71 | deleting the reacting pair keeps, in order, the units before it and the units after it |
| PuzzleDayFive.ReduceAnyStep | src/main/java/be/jidoka/adventofcode/puzzle/day/PuzzleDayFive.java:54-76 | deleting any reacting pair, not only the leftmost one, leaves the final reduction unchanged |
| PuzzleDayFive.RemoveTypeReduce | src/main/java/be/jidoka/adventofcode/puzzle/day/PuzzleDayFive.java:49 | removing a unit type and then reducing gives the same polymer as reducing first, then removing the type and reducing again |
| PuzzleDayFive.RemoveUnitShorter | src/main/java/be/jidoka/adventofcode/puzzle/day/PuzzleDayFive.java:46-52 | removing a unit type never makes the reduced polymer longer |
| PuzzleDaySix.ParsePointRoundTrip | src/main/java/be/jidoka/adventofcode/puzzle/day/PuzzleDaySix.java:44-50 | a point printed as "x, y" is read back by `new Point(String)` |
| PuzzleDaySix.ParsePoint | src/main/java/be/jidoka/adventofcode/puzzle/day/PuzzleDaySix.java:44-50 | a parsed point has `int` coordinates; failures are a missing piece or a bad number |
| PuzzleDaySix.PiecesJoin | src/main/java/be/jidoka/adventofcode/puzzle/day/PuzzleDaySix.java:45 | splitting at ", " and joining again gives the line back |
| PuzzleDaySix.ManhattanMetric | src/main/java/be/jidoka/adventofcode/puzzle/day/PuzzleDaySix.java:70-72 | the distance is symmetric, zero exactly between equal points, and obeys the triangle inequality |
| PuzzleDaySix.ClosestToSpec | src/main/java/be/jidoka/adventofcode/puzzle/day/PuzzleDaySix.java:161-176 | the scan returns the point strictly closer than all others, and nothing when the least distance is shared |
| PuzzleDaySix.RegionsCount | src/main/java/be/jidoka/adventofcode/puzzle/day/PuzzleDaySix.java:121-134 | a point has a region entry iff it owns a cell, and the entry is the number of cells it owns |
| PuzzleDaySix.BorderCellsSpec | src/main/java/be/jidoka/adventofcode/puzzle/day/PuzzleDaySix.java:141-149 | the border loops visit exactly the edge cells of the box |
| PuzzleDaySix.InfiniteRegionsSpec | src/main/java/be/jidoka/adventofcode/puzzle/day/PuzzleDaySix.java:138-152 | a region is infinite iff its point owns some edge cell |
| PuzzleDaySix.BoxRegionsSpec | src/main/java/be/jidoka/adventofcode/puzzle/day/PuzzleDaySix.java:115-159 | a point keeps a region iff it owns a cell of the box and no edge cell, sized by the cells it owns |
| PuzzleDaySix.LargestRegionSpec | src/main/java/be/jidoka/adventofcode/puzzle/day/PuzzleDaySix.java:91-98 | the answer is the size of some finite region and no finite region is larger; it fails iff no finite region exists |
| PuzzleDaySix.PartOneLargestFiniteRegion | src/main/java/be/jidoka/adventofcode/puzzle/day/PuzzleDaySix.java:19-22 | part one answers iff there is a finite region, and then answers with the size of the largest finite region: some finite region has that size and none is larger |
| PuzzleDaySix.TotalDistanceSpec | src/main/java/be/jidoka/adventofcode/puzzle/day/PuzzleDaySix.java:178-184 | the total distance bounds each single distance and is zero iff every point is the cell |
| PuzzleDaySix.WithinMonotone | src/main/java/be/jidoka/adventofcode/puzzle/day/PuzzleDaySix.java:100-113 | a larger allowed distance admits at least as many cells; zero admits none, a bound above every total admits all |
| PuzzleDaySix.WithinDistance | src/main/java/be/jidoka/adventofcode/puzzle/day/PuzzleDaySix.java:100-113 | no points is NoSuchElement; otherwise the number of cells (x, y) of the box from (0, 0) to the largest coordinates whose total distance is below the allowed distance |
| PuzzleDaySix.WithinCounts | src/main/java/be/jidoka/adventofcode/puzzle/day/PuzzleDaySix.java:105-111 | over cells without repetitions, the loop's counter is the number of cells whose total distance is below the bound |
| PuzzleDaySix.BoxWithin | src/main/java/be/jidoka/adventofcode/puzzle/day/PuzzleDaySix.java:100-113 | the nested loops over the box count exactly the box cells below the bound, each once |
| PuzzleDayTen.ParseStarRejects | src/main/java/be/jidoka/adventofcode/puzzle/day/PuzzleDayTen.java:39-43 | a line is rejected as malformed exactly when the star expression does not accept it |
| PuzzleDayTen.ParseFormatStar | src/main/java/be/jidoka/adventofcode/puzzle/day/PuzzleDayTen.java:38-47 | every star whose numbers fit an `int` is read back from its `position=<x,y> velocity=<vx,vy>` line |
| PuzzleDayTen.MoveNPosition | src/main/java/be/jidoka/adventofcode/puzzle/day/PuzzleDayTen.java:53-58 | after n seconds every star sits at its start plus n times its velocity, velocity unchanged |
| PuzzleDayTen.HeightSpec | src/main/java/be/jidoka/adventofcode/puzzle/day/PuzzleDayTen.java:127-129 | the height is the largest vertical distance between two stars, reached by two of them, and 0 for an empty sky |
| PuzzleDayTen.AlignSound | src/main/java/be/jidoka/adventofcode/puzzle/day/PuzzleDayTen.java:116-125 | the loop stops at the first second the sky is at most 10 high, with the sky of that second |
| PuzzleDayTen.AlignComplete | src/main/java/be/jidoka/adventofcode/puzzle/day/PuzzleDayTen.java:107-125 | given enough steps, the loop reaches exactly the first aligned second |
| PuzzleDayTen.RenderShape | src/main/java/be/jidoka/adventofcode/puzzle/day/PuzzleDayTen.java:131-150 | the drawing is a line break then height + 1 rows of width characters, each with a line break |
| PuzzleDayTen.RenderCell | src/main/java/be/jidoka/adventofcode/puzzle/day/PuzzleDayTen.java:139-155 | a character is '#' exactly when a star sits at the matching coordinates |
| PuzzleDayTen.SolvedAtFirstAlignment | src/main/java/be/jidoka/adventofcode/puzzle/day/PuzzleDayTen.java:14-22 | part one draws the sky at its first aligned second and part two prints that second |
| PuzzleDayEleven.Int32 | src/main/java/be/jidoka/adventofcode/puzzle/day/PuzzleDayEleven.java:86-99 | an `int` operation's result is in range and congruent to the exact value modulo 2^32 |
| PuzzleDayEleven.HundredsDigitSpec | src/main/java/be/jidoka/adventofcode/puzzle/day/PuzzleDayEleven.java:101-107 | reading the third digit from the right of the numeral gives the arithmetic hundreds digit above 100, and 0 up to 100 |
| PuzzleDayEleven.PowerLevelRange | src/main/java/be/jidoka/adventofcode/puzzle/day/PuzzleDayEleven.java:86-91 | every power level lies in [-5, 4] |
| PuzzleDayEleven.PowerLevelFormula | src/main/java/be/jidoka/adventofcode/puzzle/day/PuzzleDayEleven.java:86-99 | with no overflow, the level is the hundreds digit of ((x + 10)·y + serial)·(x + 10), minus 5 |
| PuzzleDayEleven.CalculatePowerLevels | src/main/java/be/jidoka/adventofcode/puzzle/day/PuzzleDayEleven.java:49-56 | the table has 300 × 300 entries and entry [x][y] is the level of cell (x, y) |
| PuzzleDayEleven.SquarePowerClip | src/main/java/be/jidoka/adventofcode/puzzle/day/PuzzleDayEleven.java:109-128 | a square's power is the sum of its cells inside the grid; a square wholly inside is summed in full |
| PuzzleDayEleven.SquarePowerBounds | src/main/java/be/jidoka/adventofcode/puzzle/day/PuzzleDayEleven.java:109-128 | a square's power lies between -5 and 4 times its number of cells inside the grid |
| PuzzleDayEleven.Better | src/main/java/be/jidoka/adventofcode/puzzle/day/PuzzleDayEleven.java:83 | a later square replaces the kept one only when strictly more powerful |
| PuzzleDayEleven.MaximumPowerSource | src/main/java/be/jidoka/adventofcode/puzzle/day/PuzzleDayEleven.java:76-84 | there is no square exactly from size 300 on. Otherwise the result is the first square, in x-then-y order, whose power no square of that size exceeds |
| PuzzleDayEleven.BestOfSizeUnique | src/main/java/be/jidoka/adventofcode/puzzle/day/PuzzleDayEleven.java:76-84 | the first most powerful square of a size is unique |
| PuzzleDayEleven.MaximumPowerSourceOfAnySize | src/main/java/be/jidoka/adventofcode/puzzle/day/PuzzleDayEleven.java:64-74 | the result is the best square of its size, at least as powerful as every square of any size, and strictly more powerful than every square of a smaller size |
| PuzzleDayEleven.PrintReadBack | src/main/java/be/jidoka/adventofcode/puzzle/day/PuzzleDayEleven.java:149-155 | "x,y" and "x,y,size" are read back to the corner and size |
| PuzzleDayEleven.SolvePartOne | src/main/java/be/jidoka/adventofcode/puzzle/day/PuzzleDayEleven.java:14-19 | fails iff the serial cannot be read; otherwise prints the corner of the first most powerful 3 × 3 square |
| PuzzleDayEleven.SolvePartTwo | src/main/java/be/jidoka/adventofcode/puzzle/day/PuzzleDayEleven.java:21-26 | fails iff the serial cannot be read; otherwise prints corner and size of the best square of any size |

## Left out

- Reading the puzzle files, `System.out` and `peek` printing: the lines of a file are a parameter and nothing is printed.
- Java `int` and `long` overflow outside Day Eleven: sums of frequencies, Day Three's `leftMargin + width + 1`, Day Six distances and Day Four products are exact integers. Parsing does check the `int` and `long` ranges.
- PuzzleDayOne.SolvePartOne: the input is taken as numbers; reading each line with `Integer.valueOf` is `Decimal.ParseSigned`, not repeated here.
- PuzzleDayOne.PartTwoFindsFirstRepeat: the source loops until a repeat; the model bounds the number of passes by `fuel` and answers None when it runs out. `PartTwoAnswersWithFuel` states how much fuel is enough.
- PuzzleDayTen.AlignComplete: the source loops forever on a sky that never aligns; the model bounds the steps by `fuel`, and the solvers answer `Ok(None)` when it runs out.
- PuzzleDayFour.Strategy: `HashMap` iteration order decides between guards with equal scores. The model lists guards in order of their first shift and picks the first guard with the largest score in that order, which need not be the guard the source picks. Its own contract describes an answer; when there is one is stated by `StrategyAnswers`.
- PuzzleDayFour.PartOneSleepiestGuard: describes the answer when part one gives one. When that happens is stated by `StrategyAnswers` in terms of the guards, and `LogAnswers` gives a sufficient condition on the log.
- PuzzleDayFour.PartTwoSteadiestGuard: describes the answer when part two gives one; `StrategyAnswers` and `LogAnswers` state when it does, as for part one.
- PuzzleDayFour.GuardIdRoundTrip: states the null id only for the two fixed descriptions; `GuardIdForNull` states it for every description.
- PuzzleDayFour.LogAnswers: a sufficient condition only. A log can also answer when, say, one shift start names no guard and that unnamed guard is not the one chosen.
- PuzzleDayTwo.PartTwoUniqueBest: stated for pairwise different IDs whose lengths pass the index check. With duplicate IDs the score map can merge groups of pairs.
- Decimal.ParseSigned: only ASCII digits are read. `Integer.valueOf` and `Long.valueOf` go through `Character.digit`, which also accepts other Unicode decimal digits (Arabic-Indic, full-width and so on). This affects every such call in the model: Day Three claims, Day Four guard ids, Day Six points, Day Ten stars and the Day Eleven serial.
- PuzzleDayFour.MostAsleepMinute: among minutes with equal counts, the model takes the earliest rather than the one `HashMap` order yields first.
- PuzzleDayTwo.PartTwoIsMostSimilar: the "no pair shares more" part is proved only for pairwise different IDs. With duplicate IDs the score map can merge groups, and the source then throws or answers for another pair.
- PuzzleDayFour.ParseEvent: its own contract lists only the failure kinds and that times are not negative. `ParseEventRejects` states when a line is rejected, and `EventRoundTrip` what a well-formed line parses to.
- PuzzleDayFour.SortEvents: stability of the sort for equal time stamps is not stated.
- PuzzleDaySix.ClosestToSpec: stated for distances below `Integer.MAX_VALUE`, the scan's initial distance. A distance at or above it behaves differently in the source.
- Day Six point ids come from a global `AtomicInteger`. The model uses the position in the input, which is what the counter gives on one run over a fresh list.
- `Character.toLowerCase` and `String.toLowerCase` for non-ASCII letters: only A–Z are lowered.
- Java strings are sequences of UTF-16 code units, and `split("")` in Day Two (`analyze`, `getSimilarity`) and Day Five (`analyzeUnits`) cuts a character outside the Basic Multilingual Plane into its two surrogate halves. The model's `char` is a whole Unicode scalar value, so such a character stays one unit.
- `String.toLowerCase()` in Day Five's `analyzeUnits` uses the default locale. Under a Turkish locale it lowers 'I' to a dotless 'ı', so 'I' and 'i' become different units. The model lowers as the root locale does, 'I' to 'i'.
- Day Five's `replaceAll("(?i)" + unit, "")` for a unit that is a regex metacharacter: the unit is taken literally.
- PuzzleDayEleven.PrintCoordinates, PuzzleDayEleven.PrintCoordinatesWithSize, PuzzleDayEleven.SolvePartOne and PuzzleDayEleven.SolvePartTwo: `String.format("%d,%d", …)` and `String.format("%d,%d,%d", …)` at PuzzleDayEleven.java:149,153 use the default format locale, and `%d` writes each digit through that locale's zero digit (Thai digits under `th-TH-u-nu-thai`, for example). The model prints as a locale with ASCII digits does.
- Day Eleven's `.parallel()` stream: it is modelled as a sequential fold. `Stream.max` keeps the first maximum in encounter order either way.
- PuzzleDayEleven.PowerLevelFormula: concrete power levels from the puzzle's examples are not stated.
- `LocalDateTime` details beyond the "yyyy-MM-dd HH:mm" resolver: years beyond four digits and the ISO chronology's other fields are not modelled.
