/** Guard duty: each log line `[yyyy-MM-dd HH:mm] text` records a guard
    starting a shift, falling asleep or waking up. The records are sorted by
    time and attributed to the guard last on shift; part one picks the guard
    asleep the most minutes, part two the guard most often asleep in one
    minute, and both answer id × the minute that guard slept most. */
module PuzzleDayFour {
  import opened Common
  import opened Decimal
  import opened Template

  // ---------------------------------------------------------------------
  // Time stamps, as minutes since 0001-01-01 00:00 (proleptic Gregorian).

  predicate IsLeap(y: int)
  {
    y % 4 == 0 && (y % 100 != 0 || y % 400 == 0)
  }

  function MonthLength(y: int, m: int): (n: nat)
    requires 1 <= m <= 12
    ensures 28 <= n <= 31
  {
    if m == 2 then (if IsLeap(y) then 29 else 28)
    else if m == 4 || m == 6 || m == 9 || m == 11 then 30
    else 31
  }

  /** Days in the months of year y before month m. */
  function DaysBeforeMonth(y: int, m: int): (n: nat)
    requires 1 <= m <= 13
    ensures n <= 31 * (m - 1)
  {
    if m == 1 then 0 else DaysBeforeMonth(y, m - 1) + MonthLength(y, m - 1)
  }

  /** Days from 0001-01-01 to the first day of year y. */
  function DaysBeforeYear(y: int): nat
    requires y >= 1
  {
    var p := y - 1;
    365 * p + p / 4 - p / 100 + p / 400
  }

  /** The minute a valid local date-time stands for. An hour of 24 stands
      for midnight at the end of the day. */
  function Epoch(y: int, m: int, d: int, h: int, mi: int): (t: nat)
    requires y >= 1 && 1 <= m <= 12 && 1 <= d <= 31 && 0 <= h <= 24 && 0 <= mi < 60
    ensures t % 60 == mi
  {
    var days := DaysBeforeYear(y) + DaysBeforeMonth(y, m) + d - 1;
    var t := (days * 24 + h) * 60 + mi;
    assert t == 60 * (days * 24 + h) + mi;
    t
  }

  /** `LocalDateTime.parse(text, ofPattern("yyyy-MM-dd HH:mm"))` with the
      default SMART resolver, given the five numbers of a time stamp: a year
      of era of 0, a month outside 1..12, a day outside 1..31, a minute
      above 59 or an hour above 23 (except 24:00) is a
      DateTimeParseException; a day past the end of its month is moved back
      to the month's last day. */
  function ResolveDateTime(y: nat, m: nat, d: nat, h: nat, mi: nat): (r: Result<int>)
    ensures r.Err? <==> y < 1 || m < 1 || m > 12 || d < 1 || d > 31 || mi > 59 || (h > 23 && !(h == 24 && mi == 0))
    ensures r.Err? ==> r.error == DateTimeParse
    ensures r.Ok? ==> r.value >= 0 && r.value % 60 == mi
  {
    if y < 1 || m < 1 || m > 12 || d < 1 || d > 31 then Err(DateTimeParse)
    else if mi > 59 then Err(DateTimeParse)
    else if h > 23 && !(h == 24 && mi == 0) then Err(DateTimeParse)
    else Ok(Epoch(y, m, Min(d, MonthLength(y, m)), h, mi))
  }

  /** Within one day, a later hour and minute is a later time. */
  lemma EpochWithinDay(y: int, m: int, d: int, h: int, mi: int, h': int, mi': int)
    requires y >= 1 && 1 <= m <= 12 && 1 <= d <= 31 && 0 <= h <= 24 && 0 <= mi < 60
    requires 0 <= h' <= 24 && 0 <= mi' < 60
    ensures Epoch(y, m, d, h', mi') - Epoch(y, m, d, h, mi) == (h' - h) * 60 + (mi' - mi)
  {
  }

  /** A time stamp as the log writes it: a day within its month, an hour
      below 24. */
  predicate ValidStamp(y: int, m: int, d: int, h: int, mi: int)
  {
    y >= 1 && 1 <= m <= 12 && 1 <= d <= MonthLength(y, m) && 0 <= h <= 23 && 0 <= mi <= 59
  }

  /** Valid time stamps are ordered by their minutes as they are ordered by
      year, month, day, hour and minute; so sorting events by time sorts
      them by their time stamps, and two events share a minute only when
      they share a time stamp. */
  lemma EpochOrder(y: int, m: int, d: int, h: int, mi: int, y': int, m': int, d': int, h': int, mi': int)
    requires ValidStamp(y, m, d, h, mi) && ValidStamp(y', m', d', h', mi')
    ensures Epoch(y, m, d, h, mi) < Epoch(y', m', d', h', mi') <==>
      y < y' || (y == y' && (m < m' || (m == m' && (d < d' || (d == d' && (h < h' || (h == h' && mi < mi')))))))
    ensures Epoch(y, m, d, h, mi) == Epoch(y', m', d', h', mi') <==> (y, m, d, h, mi) == (y', m', d', h', mi')
  {
    if y < y' || (y == y' && (m < m' || (m == m' && d < d'))) {
      DayBefore(y, m, d, y', m', d');
    } else if y' < y || (y == y' && (m' < m || (m == m' && d' < d))) {
      DayBefore(y', m', d', y, m, d);
    }
  }

  /** Days from 0001-01-01 to a date. */
  function DayNumber(y: int, m: int, d: int): int
    requires y >= 1 && 1 <= m <= 12
  {
    DaysBeforeYear(y) + DaysBeforeMonth(y, m) + d - 1
  }

  /** An earlier valid date has a smaller day number. */
  lemma DayBefore(y: int, m: int, d: int, y': int, m': int, d': int)
    requires y >= 1 && 1 <= m <= 12 && 1 <= d <= MonthLength(y, m)
    requires y' >= 1 && 1 <= m' <= 12 && 1 <= d' <= MonthLength(y', m')
    requires y < y' || (y == y' && (m < m' || (m == m' && d < d')))
    ensures DayNumber(y, m, d) < DayNumber(y', m', d')
  {
    if y < y' {
      MonthsBefore(y, m, 13);
      YearsBefore(y + 1, y');
      YearLength(y);
    } else if m < m' {
      MonthsBefore(y, m, m');
    }
  }

  /** A month ends no later than a later month begins. */
  lemma {:induction false} MonthsBefore(y: int, m: int, m': int)
    requires 1 <= m < m' <= 13
    ensures DaysBeforeMonth(y, m) + MonthLength(y, m) <= DaysBeforeMonth(y, m')
  {
    if m' > m + 1 {
      MonthsBefore(y, m, m' - 1);
    }
  }

  /** Year y has 366 days when it is a leap year and 365 otherwise, and the
      next year begins after them. */
  lemma YearLength(y: int)
    requires y >= 1
    ensures DaysBeforeMonth(y, 13) == if IsLeap(y) then 366 else 365
    ensures DaysBeforeYear(y + 1) == DaysBeforeYear(y) + DaysBeforeMonth(y, 13)
  {
    assert DaysBeforeMonth(y, 3) == 31 + MonthLength(y, 2);
    assert DaysBeforeMonth(y, 4) == 62 + MonthLength(y, 2);
    assert DaysBeforeMonth(y, 5) == 92 + MonthLength(y, 2);
    assert DaysBeforeMonth(y, 6) == 123 + MonthLength(y, 2);
    assert DaysBeforeMonth(y, 7) == 153 + MonthLength(y, 2);
    assert DaysBeforeMonth(y, 8) == 184 + MonthLength(y, 2);
    assert DaysBeforeMonth(y, 9) == 215 + MonthLength(y, 2);
    assert DaysBeforeMonth(y, 10) == 245 + MonthLength(y, 2);
    assert DaysBeforeMonth(y, 11) == 276 + MonthLength(y, 2);
    assert DaysBeforeMonth(y, 12) == 306 + MonthLength(y, 2);
    assert DaysBeforeMonth(y, 13) == 337 + MonthLength(y, 2);
    DivStep(y);
  }

  /** Counting multiples of 4, 100 and 400 up to y instead of y - 1 adds
      one exactly for those that divide y. */
  lemma DivStep(y: int)
    requires y >= 1
    ensures y / 4 - (y - 1) / 4 == if y % 4 == 0 then 1 else 0
    ensures y / 100 - (y - 1) / 100 == if y % 100 == 0 then 1 else 0
    ensures y / 400 - (y - 1) / 400 == if y % 400 == 0 then 1 else 0
    ensures y % 400 == 0 ==> y % 100 == 0
    ensures y % 100 == 0 ==> y % 4 == 0
  {
  }

  /** Later years begin later. */
  lemma {:induction false} YearsBefore(y: int, y': int)
    requires 1 <= y <= y'
    ensures DaysBeforeYear(y) <= DaysBeforeYear(y')
    decreases y' - y
  {
    if y < y' {
      YearLength(y);
      YearsBefore(y + 1, y');
    }
  }

  // ---------------------------------------------------------------------
  // Events.

  datatype EventType = Asleep | WakesUp | StartShift

  /** A log record: its time, its kind and, for a `Guard #N begins shift`
      record, the guard's id N (None stands for Java's null). */
  datatype Event = Event(time: int, kind: EventType, guardId: Option<int>)

  /** `\[(\d{4}-\d{2}-\d{2}[ ]\d{2}:\d{2})\][ ]([a-zA-Z0-9 #]*)`, with the
      fixed digit counts checked after matching by `DigitWidthsFit`. */
  const EventPattern: Pattern :=
    Text("[", Capture(Digits, Text("-", Capture(Digits, Text("-", Capture(Digits, Text(" ",
    Capture(Digits, Text(":", Capture(Digits, Text("] ", Capture(Words, End))))))))))))

  /** `Guard #(\d*) begins shift` */
  const GuardPattern: Pattern := Text("Guard #", Capture(Digits, Text(" begins shift", End)))

  lemma EventPatternShape()
    ensures Separated(EventPattern)
    ensures Classes(EventPattern) == [Digits, Digits, Digits, Digits, Digits, Words]
  {
  }

  lemma GuardPatternShape()
    ensures Separated(GuardPattern)
    ensures Classes(GuardPattern) == [Digits]
  {
  }

  predicate DigitWidthsFit(gs: seq<string>)
    requires |gs| == 6
  {
    |gs[0]| == 4 && |gs[1]| == 2 && |gs[2]| == 2 && |gs[3]| == 2 && |gs[4]| == 2
  }

  /** `eventTypeFor`: the two fixed descriptions, anything else a shift
      start. */
  function EventTypeFor(description: string): (t: EventType)
    ensures t == Asleep <==> description == "falls asleep"
    ensures t == WakesUp <==> description == "wakes up"
  {
    if description == "falls asleep" then Asleep
    else if description == "wakes up" then WakesUp
    else StartShift
  }

  /** `guardIdFor`: the number of a `Guard #N begins shift` description,
      null for any other description; `Integer.valueOf` rejects an empty or
      too large N. */
  function GuardIdFor(description: string): (r: Result<Option<int>>)
    ensures r.Ok? && r.value.Some? ==> 0 <= r.value.value < IntBound
    ensures r.Err? ==> r.error == NumberFormat
  {
    GuardPatternShape();
    match Match(GuardPattern, description)
    case None => Ok(None)
    case Some(gs) =>
      assert AllIn(Digits, gs[0]);
      var n :- ParseSigned(gs[0], IntBound);
      assert IsDigit(gs[0][0]);
      Ok(Some(n))
  }

  /** The description a guard's shift start is logged with. */
  function ShiftStart(id: nat): string
  {
    "Guard #" + FormatNat(id) + " begins shift"
  }

  /** `guardIdFor` reads back every id it could have been logged with, and
      finds no id in the other two descriptions. */
  lemma GuardIdRoundTrip(id: nat)
    requires id < IntBound
    ensures GuardIdFor(ShiftStart(id)) == Ok(Some(id))
    ensures GuardIdFor("falls asleep") == Ok(None) && GuardIdFor("wakes up") == Ok(None)
    ensures EventTypeFor(ShiftStart(id)) == StartShift
  {
    ShiftStartMatches(id);
    ParseFormatRoundTrip(id, IntBound);
    assert ShiftStart(id)[0] == 'G';
    MatchRejectsFixed("falls asleep");
    MatchRejectsFixed("wakes up");
  }

  lemma ShiftStartMatches(id: nat)
    ensures Match(GuardPattern, ShiftStart(id)) == Some([FormatNat(id)])
  {
    GuardLineMatches(FormatNat(id));
  }

  lemma MatchRejectsFixed(s: string)
    requires |s| > 0 && s[0] != 'G'
    ensures Match(GuardPattern, s) == None
  {
    assert !("Guard #" <= s);
  }

  /** `guardIdFor` is null exactly for the descriptions that do not read
      `Guard #N begins shift` with N a run of digits. */
  lemma GuardIdForNull(description: string)
    ensures GuardIdFor(description) == Ok(None) <==> !Accepts(GuardPattern, description)
  {
    GuardPatternShape();
    MatchExact(GuardPattern, description);
  }

  /** For `Guard #N begins shift`, `guardIdFor` reads N: an empty N or one
      of 2^31 or more is a NumberFormatException. */
  lemma GuardIdForDigits(digits: string)
    requires AllDigits(digits)
    ensures GuardIdFor("Guard #" + digits + " begins shift")
            == if |digits| > 0 && DigitsValue(digits) < IntBound then Ok(Some(DigitsValue(digits) as int))
               else Err(NumberFormat)
  {
    GuardLineMatches(digits);
    ParseDigits(digits, IntBound);
  }

  lemma GuardLineMatches(digits: string)
    requires AllDigits(digits)
    ensures Match(GuardPattern, "Guard #" + digits + " begins shift") == Some([digits])
  {
    GuardPatternShape();
    var gs := [digits];
    assert AllIn(Digits, gs[0]);
    MatchComplete(GuardPattern, gs);
    var tail := Text(" begins shift", End);
    assert Fill(tail, gs[1..]) == " begins shift";
    assert Fill(Capture(Digits, tail), gs) == digits + " begins shift";
    assert Fill(GuardPattern, gs) == "Guard #" + (digits + " begins shift");
    Assoc("Guard #", digits, " begins shift");
  }

  /** `new Event(line)`: a line the expression rejects is an
      IllegalStateException; then the time stamp is resolved and the guard
      id read. */
  function ParseEvent(line: string): (r: Result<Event>)
    ensures r.Err? ==> r.error in {IllegalState, DateTimeParse, NumberFormat}
    ensures r.Ok? ==> r.value.time >= 0
  {
    EventPatternShape();
    match Match(EventPattern, line)
    case None => Err(IllegalState)
    case Some(gs) =>
      if !DigitWidthsFit(gs) then Err(IllegalState)
      else EventOfGroups(gs)
  }

  function EventOfGroups(gs: seq<string>): (r: Result<Event>)
    requires GroupsFit([Digits, Digits, Digits, Digits, Digits, Words], gs)
    ensures r.Err? ==> r.error in {DateTimeParse, NumberFormat}
    ensures r.Ok? ==> r.value.time >= 0 && r.value.kind == EventTypeFor(gs[5])
  {
    assert AllIn(Digits, gs[0]) && AllIn(Digits, gs[1]) && AllIn(Digits, gs[2])
           && AllIn(Digits, gs[3]) && AllIn(Digits, gs[4]);
    var time :- ResolveDateTime(DigitsValue(gs[0]), DigitsValue(gs[1]), DigitsValue(gs[2]),
                                DigitsValue(gs[3]), DigitsValue(gs[4]));
    var id :- GuardIdFor(gs[5]);
    Ok(Event(time, EventTypeFor(gs[5]), id))
  }

  /** The groups of a well-formed line: five runs of digits of widths 4, 2,
      2, 2 and 2, then a description. */
  predicate EventGroups(gs: seq<string>)
  {
    GroupsFit([Digits, Digits, Digits, Digits, Digits, Words], gs) && DigitWidthsFit(gs)
  }

  /** `new Event(line)` throws IllegalStateException exactly for the lines
      that `[yyyy-MM-dd HH:mm] text` does not describe; any other failure is
      a bad date-time or guard id. */
  lemma ParseEventRejects(line: string)
    ensures ParseEvent(line) == Err(IllegalState) <==>
            !exists gs :: EventGroups(gs) && Fill(EventPattern, gs) == line
  {
    EventPatternShape();
    MatchExact(EventPattern, line);
    if Match(EventPattern, line).Some? {
      MatchSound(EventPattern, line);
    }
  }

  /** A log line as the puzzle input writes it: `[yyyy-MM-dd HH:mm] text`. */
  function EventLine(y: nat, m: nat, d: nat, h: nat, mi: nat, description: string): string
  {
    "[" + Padded(y, 4) + "-" + Padded(m, 2) + "-" + Padded(d, 2) + " " + Padded(h, 2) + ":" + Padded(mi, 2)
    + "] " + description
  }

  /** Every valid time stamp and description written as a log line reads
      back as the event at that minute, of the description's kind, with the
      description's guard id. */
  lemma EventRoundTrip(y: nat, m: nat, d: nat, h: nat, mi: nat, description: string)
    requires 1 <= y <= 9999 && 1 <= m <= 12 && 1 <= d <= MonthLength(y, m) && h <= 23 && mi <= 59
    requires AllIn(Words, description)
    ensures GuardIdFor(description).Ok? ==>
      ParseEvent(EventLine(y, m, d, h, mi, description))
      == Ok(Event(Epoch(y, m, d, h, mi), EventTypeFor(description), GuardIdFor(description).value))
    ensures GuardIdFor(description).Err? ==>
      ParseEvent(EventLine(y, m, d, h, mi, description)) == Err(NumberFormat)
  {
    var gs := EventLineGroups(y, m, d, h, mi, description);
    assert ParseEvent(EventLine(y, m, d, h, mi, description)) == EventOfGroups(gs);
    assert DigitsValue(gs[0]) == y && DigitsValue(gs[1]) == m && DigitsValue(gs[2]) == d;
    assert DigitsValue(gs[3]) == h && DigitsValue(gs[4]) == mi;
    assert ResolveDateTime(y, m, d, h, mi) == Ok(Epoch(y, m, d, h, mi));
  }

  /** The groups the expression captures from a written log line. */
  lemma EventLineGroups(y: nat, m: nat, d: nat, h: nat, mi: nat, description: string) returns (gs: seq<string>)
    requires y <= 9999 && m <= 99 && d <= 99 && h <= 99 && mi <= 99
    requires AllIn(Words, description)
    ensures gs == [Padded(y, 4), Padded(m, 2), Padded(d, 2), Padded(h, 2), Padded(mi, 2), description]
    ensures EventGroups(gs)
    ensures Match(EventPattern, EventLine(y, m, d, h, mi, description)) == Some(gs)
  {
    gs := [Padded(y, 4), Padded(m, 2), Padded(d, 2), Padded(h, 2), Padded(mi, 2), description];
    FormatNatWidth(y, 4);
    FormatNatWidth(m, 2);
    FormatNatWidth(d, 2);
    FormatNatWidth(h, 2);
    FormatNatWidth(mi, 2);
    assert AllIn(Digits, gs[0]) && AllIn(Digits, gs[1]) && AllIn(Digits, gs[2]);
    assert AllIn(Digits, gs[3]) && AllIn(Digits, gs[4]);
    EventPatternShape();
    MatchComplete(EventPattern, gs);
    EventLineFill(gs, EventLine(y, m, d, h, mi, description));
  }

  /** A log line is what the expression writes from its groups. */
  lemma EventLineFill(gs: seq<string>, line: string)
    requires |gs| == 6
    requires line == "[" + gs[0] + "-" + gs[1] + "-" + gs[2] + " " + gs[3] + ":" + gs[4] + "] " + gs[5]
    ensures Fill(EventPattern, gs) == line
  {
    var a, b, c, d, e, f := gs[0], gs[1], gs[2], gs[3], gs[4], gs[5];
    var p5 := Capture(Words, End);
    var p4 := Capture(Digits, Text("] ", p5));
    var p3 := Capture(Digits, Text(":", p4));
    var p2 := Capture(Digits, Text(" ", p3));
    var p1 := Capture(Digits, Text("-", p2));
    var p0 := Capture(Digits, Text("-", p1));
    assert EventPattern == Text("[", p0);
    assert Fill(p5, gs[5..]) == f + "" == f;
    assert Fill(p4, gs[4..]) == e + ("] " + f);
    assert Fill(p3, gs[3..]) == d + (":" + (e + ("] " + f)));
    assert Fill(p2, gs[2..]) == c + (" " + (d + (":" + (e + ("] " + f)))));
    assert Fill(p1, gs[1..]) == b + ("-" + (c + (" " + (d + (":" + (e + ("] " + f)))))));
    assert Fill(p0, gs) == a + ("-" + (b + ("-" + (c + (" " + (d + (":" + (e + ("] " + f)))))))));
    Assoc("[" + a + "-" + b + "-" + c + " " + d + ":" + e, "] ", f);
    Assoc("[" + a + "-" + b + "-" + c + " " + d + ":", e, "] " + f);
    Assoc("[" + a + "-" + b + "-" + c + " " + d, ":", e + ("] " + f));
    Assoc("[" + a + "-" + b + "-" + c + " ", d, ":" + (e + ("] " + f)));
    Assoc("[" + a + "-" + b + "-" + c, " ", d + (":" + (e + ("] " + f))));
    Assoc("[" + a + "-" + b + "-", c, " " + (d + (":" + (e + ("] " + f)))));
    Assoc("[" + a + "-" + b, "-", c + (" " + (d + (":" + (e + ("] " + f))))));
    Assoc("[" + a + "-", b, "-" + (c + (" " + (d + (":" + (e + ("] " + f)))))));
    Assoc("[" + a, "-", b + ("-" + (c + (" " + (d + (":" + (e + ("] " + f))))))));
    Assoc("[", a, "-" + (b + ("-" + (c + (" " + (d + (":" + (e + ("] " + f)))))))));
    assert line == "[" + (a + ("-" + (b + ("-" + (c + (" " + (d + (":" + (e + ("] " + f))))))))));
  }

  lemma Assoc(x: string, y: string, z: string)
    ensures x + y + z == x + (y + z)
  {
  }

  // ---------------------------------------------------------------------
  // Sorting by time.

  predicate Sorted(events: seq<Event>)
  {
    forall i, j :: 0 <= i < j < |events| ==> events[i].time <= events[j].time
  }

  /** Inserts `e` after every event that is not later than it. */
  function Insert(sorted: seq<Event>, e: Event): (r: seq<Event>)
    requires Sorted(sorted)
    ensures Sorted(r)
    ensures multiset(r) == multiset(sorted) + multiset{e}
    ensures |r| == |sorted| + 1
  {
    if |sorted| == 0 then [e]
    else
      var init := sorted[..|sorted| - 1];
      var last := sorted[|sorted| - 1];
      assert sorted == init + [last];
      if e.time < last.time then
        var rest := Insert(init, e);
        InsertedBelow(sorted, e, rest);
        rest + [last]
      else
        SortedSnoc(sorted, e);
        sorted + [e]
  }

  /** Appending an event no earlier than every other keeps the order. */
  lemma SortedSnoc(s: seq<Event>, x: Event)
    requires Sorted(s)
    requires forall k :: 0 <= k < |s| ==> s[k].time <= x.time
    ensures Sorted(s + [x])
  {
  }

  /** Inserting an event earlier than the last one into the others leaves
      them all no later than the last. */
  lemma InsertedBelow(sorted: seq<Event>, e: Event, rest: seq<Event>)
    requires Sorted(sorted) && |sorted| > 0
    requires e.time < sorted[|sorted| - 1].time
    requires Sorted(rest)
    requires multiset(rest) == multiset(sorted[..|sorted| - 1]) + multiset{e}
    ensures Sorted(rest + [sorted[|sorted| - 1]])
  {
    var last := sorted[|sorted| - 1];
    forall k | 0 <= k < |rest| ensures rest[k].time <= last.time {
      assert rest[k] in multiset(rest);
      if rest[k] != e {
        assert rest[k] in multiset(sorted[..|sorted| - 1]);
        var j :| 0 <= j < |sorted| - 1 && sorted[..|sorted| - 1][j] == rest[k];
        assert sorted[j] == rest[k];
      }
    }
    SortedSnoc(rest, last);
  }

  /** `sorted(comparing(o -> o.dateTime))`: a stable sort by time. */
  function SortEvents(events: seq<Event>): (r: seq<Event>)
    ensures Sorted(r)
    ensures multiset(r) == multiset(events)
    ensures |r| == |events|
  {
    if |events| == 0 then []
    else
      var init := events[..|events| - 1];
      assert events == init + [events[|events| - 1]];
      Insert(SortEvents(init), events[|events| - 1])
  }

  // ---------------------------------------------------------------------
  // Guards.

  /** The state of `getGuards` after a prefix of the events: the id of the
      guard last on shift and the events given to each guard. */
  datatype Roster = Roster(last: Option<int>, guards: map<Option<int>, seq<Event>>)

  /** `getGuards` over the first n events. An event met before any shift
      start looks up the guard of a null id that was never added, which is a
      NullPointerException. */
  function RosterUpTo(events: seq<Event>, n: nat): Result<Roster>
    requires n <= |events|
  {
    if n == 0 then Ok(Roster(None, map[]))
    else
      var st :- RosterUpTo(events, n - 1);
      var e := events[n - 1];
      var last := if e.kind == StartShift then e.guardId else st.last;
      var guards := if e.kind == StartShift && e.guardId !in st.guards then st.guards[e.guardId := []] else st.guards;
      if last !in guards then Err(NullPointer)
      else Ok(Roster(last, guards[last := guards[last] + [e]]))
  }

  /** The id of the guard on shift at event i: that of the latest shift
      start at or before it, None when no shift has started yet. */
  ghost function OnShift(events: seq<Event>, i: nat): Option<Option<int>>
    requires i < |events|
  {
    if events[i].kind == StartShift then Some(events[i].guardId)
    else if i == 0 then None
    else OnShift(events, i - 1)
  }

  /** The events among the first n that happen during a shift of guard g. */
  ghost function EventsOf(events: seq<Event>, g: Option<int>, n: nat): seq<Event>
    requires n <= |events|
  {
    if n == 0 then []
    else EventsOf(events, g, n - 1) + (if OnShift(events, n - 1) == Some(g) then [events[n - 1]] else [])
  }

  /** The ids of the shift starts among the first n events. */
  ghost function StartedUpTo(events: seq<Event>, n: nat): set<Option<int>>
    requires n <= |events|
  {
    set i | 0 <= i < n && events[i].kind == StartShift :: events[i].guardId
  }

  /** `getGuards` fails exactly when the first event is not a shift start;
      otherwise there is one guard per id that started a shift, and each
      guard holds, in order, the events of its own shifts. */
  lemma {:induction false} RosterSpec(events: seq<Event>, n: nat)
    requires n <= |events|
    ensures RosterUpTo(events, n).Ok? <==> n == 0 || events[0].kind == StartShift
    ensures RosterUpTo(events, n).Ok? ==>
      var st := RosterUpTo(events, n).value;
      && st.guards.Keys == StartedUpTo(events, n)
      && (forall g :: g in st.guards ==> st.guards[g] == EventsOf(events, g, n))
      && (n > 0 ==> OnShift(events, n - 1) == Some(st.last))
  {
    if n > 0 {
      RosterSpec(events, n - 1);
      RosterStep(events, n);
    }
  }

  ghost predicate RosterFacts(events: seq<Event>, n: nat)
    requires n <= |events|
  {
    && (RosterUpTo(events, n).Ok? <==> n == 0 || events[0].kind == StartShift)
    && (RosterUpTo(events, n).Ok? ==>
      var st := RosterUpTo(events, n).value;
      && st.guards.Keys == StartedUpTo(events, n)
      && (forall g :: g in st.guards ==> st.guards[g] == EventsOf(events, g, n))
      && (n > 0 ==> OnShift(events, n - 1) == Some(st.last)))
  }

  /** One event of `getGuards`. */
  lemma RosterStep(events: seq<Event>, n: nat)
    requires 0 < n <= |events|
    requires RosterFacts(events, n - 1)
    ensures RosterFacts(events, n)
  {
    var e := events[n - 1];
    assert StartedUpTo(events, n) == StartedUpTo(events, n - 1) + (if e.kind == StartShift then {e.guardId} else {});
    if n == 1 {
      assert StartedUpTo(events, 0) == {};
    }
    if RosterUpTo(events, n - 1).Ok? && n > 1 {
      var st := RosterUpTo(events, n - 1).value;
      assert st.last in StartedUpTo(events, n - 1) by {
        OnShiftStarted(events, n - 2);
      }
    }
    if RosterUpTo(events, n).Ok? {
      RosterGuardsStep(events, n);
    }
  }

  lemma RosterGuardsStep(events: seq<Event>, n: nat)
    requires 0 < n <= |events|
    requires RosterFacts(events, n - 1)
    requires RosterUpTo(events, n).Ok?
    ensures var st := RosterUpTo(events, n).value;
      forall g :: g in st.guards ==> st.guards[g] == EventsOf(events, g, n)
  {
    var st := RosterUpTo(events, n).value;
    forall g | g in st.guards ensures st.guards[g] == EventsOf(events, g, n) {
      if g !in StartedUpTo(events, n - 1) {
        EventsOfUnstarted(events, g, n - 1);
      }
    }
  }

  /** The guard on shift started one. */
  lemma {:induction false} OnShiftStarted(events: seq<Event>, i: nat)
    requires i < |events|
    ensures OnShift(events, i).Some? ==> OnShift(events, i).value in StartedUpTo(events, i + 1)
    ensures OnShift(events, i).None? ==> StartedUpTo(events, i + 1) == {}
  {
    if events[i].kind != StartShift && i > 0 {
      OnShiftStarted(events, i - 1);
      assert StartedUpTo(events, i + 1) == StartedUpTo(events, i);
    }
  }

  /** A guard that has not started a shift has no events. */
  lemma {:induction false} EventsOfUnstarted(events: seq<Event>, g: Option<int>, n: nat)
    requires n <= |events|
    requires g !in StartedUpTo(events, n)
    ensures EventsOf(events, g, n) == []
  {
    if n > 0 {
      assert StartedUpTo(events, n - 1) <= StartedUpTo(events, n);
      EventsOfUnstarted(events, g, n - 1);
      OnShiftStarted(events, n - 1);
    }
  }

  /** `getGuards`. */
  function GetGuards(events: seq<Event>): Result<map<Option<int>, seq<Event>>>
  {
    var st :- RosterUpTo(events, |events|);
    Ok(st.guards)
  }

  /** The shift-start ids in log order. */
  function StartIds(events: seq<Event>): (r: seq<Option<int>>)
    ensures forall g :: g in r <==> exists i :: 0 <= i < |events| && events[i].kind == StartShift && events[i].guardId == g
  {
    if |events| == 0 then []
    else
      var init := events[..|events| - 1];
      var e := events[|events| - 1];
      assert forall i :: 0 <= i < |init| ==> events[i] == init[i];
      StartIds(init) + (if e.kind == StartShift then [e.guardId] else [])
  }

  /** A guard: its id and the events of its shifts. */
  datatype Guard = Guard(id: Option<int>, events: seq<Event>)

  /** `new ArrayList<>(guards.values())`. The HashMap's iteration order is
      not modelled: the guards come in the order of their first shift. */
  function GuardList(events: seq<Event>): (r: Result<seq<Guard>>)
    ensures r.Ok? <==> |events| == 0 || events[0].kind == StartShift
    ensures r.Ok? ==> forall k :: 0 <= k < |r.value| ==>
      r.value[k].events == EventsOf(events, r.value[k].id, |events|)
    ensures r.Ok? ==> forall g :: g in StartedUpTo(events, |events|) <==> exists k :: 0 <= k < |r.value| && r.value[k].id == g
    ensures r.Ok? ==> forall k, k' :: 0 <= k < k' < |r.value| ==> r.value[k].id != r.value[k'].id
  {
    RosterSpec(events, |events|);
    var guards :- GetGuards(events);
    var ids := Distinct(StartIds(events));
    assert forall g :: g in ids <==> g in StartedUpTo(events, |events|);
    var r := seq(|ids|, k requires 0 <= k < |ids| => Guard(ids[k], guards[ids[k]]));
    assert forall k :: 0 <= k < |ids| ==> r[k].id == ids[k];
    Ok(r)
  }

  // ---------------------------------------------------------------------
  // Sleep of one guard.

  /** A stretch of sleep from the minute of falling asleep up to, not
      including, the minute of waking. */
  datatype Nap = Nap(sleptAt: int, wakesAt: int)

  /** The naps in a guard's events: each wake-up ends the sleep begun at the
      latest falling-asleep since the previous wake-up. A wake-up with no
      such falling-asleep measures from a null time, which is a
      NullPointerException. */
  function Naps(events: seq<Event>, sleptAt: Option<int>): Result<seq<Nap>>
  {
    if |events| == 0 then Ok([])
    else
      var e := events[0];
      match e.kind
      case Asleep => Naps(events[1..], Some(e.time))
      case StartShift => Naps(events[1..], sleptAt)
      case WakesUp =>
        if sleptAt.None? then Err(NullPointer)
        else
          var rest :- Naps(events[1..], None);
          Ok([Nap(sleptAt.value, e.time)] + rest)
  }

  /** In time order, no nap ends before it starts. */
  lemma {:induction false} NapsForward(events: seq<Event>, sleptAt: Option<int>)
    requires Sorted(events)
    requires sleptAt.Some? && |events| > 0 ==> sleptAt.value <= events[0].time
    ensures Naps(events, sleptAt).Ok? ==> forall k :: 0 <= k < |Naps(events, sleptAt).value| ==>
      Naps(events, sleptAt).value[k].sleptAt <= Naps(events, sleptAt).value[k].wakesAt
  {
    if |events| > 0 {
      var e := events[0];
      assert Sorted(events[1..]);
      assert |events| > 1 ==> e.time <= events[1].time;
      match e.kind
      case Asleep => NapsForward(events[1..], Some(e.time));
      case StartShift => NapsForward(events[1..], sleptAt);
      case WakesUp => NapsForward(events[1..], None);
    }
  }

  /** Just before event i, counting from event k on, the guard is asleep:
      a falling-asleep in [k, i) has no wake-up after it before i, or the
      guard was asleep already (`sleptAt`) and has not woken since k. */
  ghost predicate AsleepBefore(events: seq<Event>, k: nat, i: nat, sleptAt: Option<int>)
    requires k <= i <= |events|
  {
    || (exists j :: k <= j < i && events[j].kind == Asleep && forall l :: j < l < i ==> events[l].kind != WakesUp)
    || (sleptAt.Some? && forall l :: k <= l < i ==> events[l].kind != WakesUp)
  }

  /** Every wake-up ends a sleep: a falling-asleep comes before it, with no
      other wake-up in between. */
  ghost predicate PairedUp(events: seq<Event>)
  {
    forall i :: 0 <= i < |events| && events[i].kind == WakesUp ==> AsleepBefore(events, 0, i, None)
  }

  /** The naps of a guard are found exactly when its wake-ups pair up with
      falling-asleeps. */
  lemma NapsPairUp(events: seq<Event>)
    ensures Naps(events, None).Ok? <==> PairedUp(events)
  {
    NapsFrom(events, 0, None);
    assert events[0..] == events;
  }

  /** `Naps` over the events from k on, in the state `sleptAt`. */
  lemma {:induction false} NapsFrom(events: seq<Event>, k: nat, sleptAt: Option<int>)
    requires k <= |events|
    ensures Naps(events[k..], sleptAt).Ok? <==>
      forall i :: k <= i < |events| && events[i].kind == WakesUp ==> AsleepBefore(events, k, i, sleptAt)
    decreases |events| - k
  {
    if k < |events| {
      var e := events[k];
      assert events[k..][0] == e && events[k..][1..] == events[k + 1..];
      match e.kind
      case Asleep =>
        NapsFrom(events, k + 1, Some(e.time));
        AsleepAfterAsleep(events, k, sleptAt);
      case StartShift =>
        NapsFrom(events, k + 1, sleptAt);
        AsleepAfterStart(events, k, sleptAt);
      case WakesUp =>
        if sleptAt.Some? {
          NapsFrom(events, k + 1, None);
          AsleepAfterWake(events, k, sleptAt);
          assert AsleepBefore(events, k, k, sleptAt);
        } else {
          assert !AsleepBefore(events, k, k, sleptAt);
        }
    }
  }

  /** Past a falling-asleep, the guard is asleep from there on. */
  lemma AsleepAfterAsleep(events: seq<Event>, k: nat, sleptAt: Option<int>)
    requires k < |events| && events[k].kind == Asleep
    ensures forall i :: k < i <= |events| ==>
      (AsleepBefore(events, k, i, sleptAt) <==> AsleepBefore(events, k + 1, i, Some(events[k].time)))
  {
    forall i | k < i <= |events|
      ensures AsleepBefore(events, k, i, sleptAt) <==> AsleepBefore(events, k + 1, i, Some(events[k].time))
    {
      if AsleepBefore(events, k, i, sleptAt) {
        if exists j :: k <= j < i && events[j].kind == Asleep && forall l :: j < l < i ==> events[l].kind != WakesUp {
          var j :| k <= j < i && events[j].kind == Asleep && forall l :: j < l < i ==> events[l].kind != WakesUp;
          if j == k {
            assert forall l :: k + 1 <= l < i ==> events[l].kind != WakesUp;
          } else {
            assert k + 1 <= j < i;
          }
        }
      }
      if AsleepBefore(events, k + 1, i, Some(events[k].time)) {
        if forall l :: k + 1 <= l < i ==> events[l].kind != WakesUp {
          assert k <= k < i && events[k].kind == Asleep && forall l :: k < l < i ==> events[l].kind != WakesUp;
        } else {
          var j :| k + 1 <= j < i && events[j].kind == Asleep && forall l :: j < l < i ==> events[l].kind != WakesUp;
          assert k <= j < i;
        }
      }
    }
  }

  /** A shift start changes nothing about sleep. */
  lemma AsleepAfterStart(events: seq<Event>, k: nat, sleptAt: Option<int>)
    requires k < |events| && events[k].kind == StartShift
    ensures forall i :: k < i <= |events| ==>
      (AsleepBefore(events, k, i, sleptAt) <==> AsleepBefore(events, k + 1, i, sleptAt))
  {
    forall i | k < i <= |events|
      ensures AsleepBefore(events, k, i, sleptAt) <==> AsleepBefore(events, k + 1, i, sleptAt)
    {
      if exists j :: k <= j < i && events[j].kind == Asleep && forall l :: j < l < i ==> events[l].kind != WakesUp {
        var j :| k <= j < i && events[j].kind == Asleep && forall l :: j < l < i ==> events[l].kind != WakesUp;
        assert k + 1 <= j;
      }
      if sleptAt.Some? && forall l :: k + 1 <= l < i ==> events[l].kind != WakesUp {
        assert forall l :: k <= l < i ==> events[l].kind != WakesUp;
      }
    }
  }

  /** Past a wake-up, the guard is awake until it falls asleep again. */
  lemma AsleepAfterWake(events: seq<Event>, k: nat, sleptAt: Option<int>)
    requires k < |events| && events[k].kind == WakesUp
    ensures forall i :: k < i <= |events| ==>
      (AsleepBefore(events, k, i, sleptAt) <==> AsleepBefore(events, k + 1, i, None))
  {
    forall i | k < i <= |events|
      ensures AsleepBefore(events, k, i, sleptAt) <==> AsleepBefore(events, k + 1, i, None)
    {
      if exists j :: k <= j < i && events[j].kind == Asleep && forall l :: j < l < i ==> events[l].kind != WakesUp {
        var j :| k <= j < i && events[j].kind == Asleep && forall l :: j < l < i ==> events[l].kind != WakesUp;
        assert k + 1 <= j;
      }
      assert !(forall l :: k <= l < i ==> events[l].kind != WakesUp) by {
        assert events[k].kind == WakesUp;
      }
    }
  }

  function Duration(naps: seq<Nap>): int
  {
    if |naps| == 0 then 0 else naps[0].wakesAt - naps[0].sleptAt + Duration(naps[1..])
  }

  /** `getMinutesAsleep`: the minutes between falling asleep and waking,
      added over all naps. */
  function MinutesAsleep(events: seq<Event>): Result<int>
  {
    var naps :- Naps(events, None);
    Ok(Duration(naps))
  }

  /** The counter of a minute of the hour; a minute never asleep has none. */
  function Count(m: map<int, nat>, k: int): nat
  {
    if k in m then m[k] else 0
  }

  /** The keys of a counter map are minutes of the hour with a positive
      count. */
  predicate MinuteCounters(m: map<int, nat>)
  {
    forall k :: k in m ==> 0 <= k < 60 && m[k] >= 1
  }

  /** How many minutes t in [s, w) fall on minute k of their hour. */
  function Hits(s: int, w: int, k: int): nat
    decreases w - s
  {
    if s >= w then 0 else (if s % 60 == k then 1 else 0) + Hits(s + 1, w, k)
  }

  /** `sleepsBetween`: adds one to the counter of minute t mod 60 for each
      minute t from falling asleep up to waking. */
  function SleepsBetween(s: int, w: int, m: map<int, nat>): (r: map<int, nat>)
    requires MinuteCounters(m)
    ensures MinuteCounters(r)
    ensures forall k :: Count(r, k) == Count(m, k) + Hits(s, w, k)
    decreases w - s
  {
    if s >= w then m
    else
      var k := s % 60;
      SleepsBetween(s + 1, w, m[k := Count(m, k) + 1])
  }

  /** `timesAsleepInMinutes`: the counters after all naps. */
  function TimesAsleep(events: seq<Event>): (r: Result<map<int, nat>>)
    ensures r.Ok? ==> MinuteCounters(r.value)
    ensures r.Ok? <==> Naps(events, None).Ok?
  {
    var naps :- Naps(events, None);
    Ok(Counters(naps))
  }

  function Counters(naps: seq<Nap>): (r: map<int, nat>)
    ensures MinuteCounters(r)
  {
    if |naps| == 0 then map[]
    else SleepsBetween(naps[|naps| - 1].sleptAt, naps[|naps| - 1].wakesAt, Counters(naps[..|naps| - 1]))
  }

  /** The counters of minutes k of the hour below n, added up. */
  function TotalBelow(m: map<int, nat>, n: nat): nat
  {
    if n == 0 then 0 else TotalBelow(m, n - 1) + Count(m, n - 1)
  }

  /** Exactly one minute of the hour is hit by each minute of a nap. */
  lemma {:induction false} HitsTotal(s: int, w: int, n: nat)
    requires n <= 60
    ensures HitsBelow(s, w, n) == (if s >= w then 0 else HitsBelow(s + 1, w, n) + (if s % 60 < n then 1 else 0))
  {
    if n > 0 {
      HitsTotal(s, w, n - 1);
    }
  }

  function HitsBelow(s: int, w: int, n: nat): nat
  {
    if n == 0 then 0 else HitsBelow(s, w, n - 1) + Hits(s, w, n - 1)
  }

  /** A nap hits as many minutes of the hour as it lasts. */
  lemma {:induction false} HitsBelowHour(s: int, w: int)
    ensures HitsBelow(s, w, 60) == if s <= w then w - s else 0
    decreases w - s
  {
    HitsTotal(s, w, 60);
    if s < w {
      HitsBelowHour(s + 1, w);
    }
  }

  /** Counting up a sum of map counters is counting up the parts. */
  lemma {:induction false} TotalOfSleeps(s: int, w: int, m: map<int, nat>, n: nat)
    requires MinuteCounters(m)
    ensures TotalBelow(SleepsBetween(s, w, m), n) == TotalBelow(m, n) + HitsBelow(s, w, n)
  {
    if n > 0 {
      TotalOfSleeps(s, w, m, n - 1);
    }
  }

  /** The counters of a guard add up to the minutes the guard slept, when
      no nap ends before it starts. */
  lemma {:induction false} CountersSumToDuration(naps: seq<Nap>)
    requires forall k :: 0 <= k < |naps| ==> naps[k].sleptAt <= naps[k].wakesAt
    ensures TotalBelow(Counters(naps), 60) == Duration(naps)
  {
    if |naps| == 0 {
      NothingCounted(60);
    } else {
      var init := naps[..|naps| - 1];
      var last := naps[|naps| - 1];
      assert forall k :: 0 <= k < |init| ==> init[k] == naps[k];
      CountersSumToDuration(init);
      assert Counters(naps) == SleepsBetween(last.sleptAt, last.wakesAt, Counters(init));
      TotalOfSleeps(last.sleptAt, last.wakesAt, Counters(init), 60);
      assert TotalBelow(Counters(naps), 60) == Duration(init) + HitsBelow(last.sleptAt, last.wakesAt, 60);
      HitsBelowHour(last.sleptAt, last.wakesAt);
      assert HitsBelow(last.sleptAt, last.wakesAt, 60) == last.wakesAt - last.sleptAt;
      DurationSnoc(init, last);
      assert naps == init + [last];
      assert Duration(naps) == Duration(init) + last.wakesAt - last.sleptAt;
    }
  }

  lemma {:induction false} NothingCounted(n: nat)
    ensures TotalBelow(map[], n) == 0
  {
    if n > 0 {
      NothingCounted(n - 1);
    }
  }

  lemma {:induction false} DurationSnoc(naps: seq<Nap>, n: Nap)
    ensures Duration(naps + [n]) == Duration(naps) + n.wakesAt - n.sleptAt
  {
    if |naps| > 0 {
      assert (naps + [n])[1..] == naps[1..] + [n];
      DurationSnoc(naps[1..], n);
    }
  }

  /** For a guard whose events are in time order, `timesAsleepInMinutes`
      fails exactly when `getMinutesAsleep` does, and its counters add up to
      the minutes asleep. */
  lemma CountersMatchMinutesAsleep(events: seq<Event>)
    requires Sorted(events)
    ensures TimesAsleep(events).Ok? <==> MinutesAsleep(events).Ok?
    ensures TimesAsleep(events).Ok? ==> TotalBelow(TimesAsleep(events).value, 60) == MinutesAsleep(events).value
  {
    NapsForward(events, None);
    if Naps(events, None).Ok? {
      CountersSumToDuration(Naps(events, None).value);
    }
  }

  /** The largest counter of minutes below n. */
  function MaxBelow(m: map<int, nat>, n: nat): (r: nat)
    ensures forall k :: 0 <= k < n ==> Count(m, k) <= r
    ensures n > 0 ==> exists k :: 0 <= k < n && Count(m, k) == r
  {
    if n == 0 then 0 else Max(MaxBelow(m, n - 1), Count(m, n - 1))
  }

  /** `getMaximumTimesAsleepInAMinute`: the largest counter, 0 when the
      guard never slept. */
  function MaximumTimesAsleep(m: map<int, nat>): (r: nat)
    requires MinuteCounters(m)
    ensures forall k :: k in m ==> m[k] <= r
    ensures (exists k :: k in m) ==> exists k :: k in m && m[k] == r
    ensures (forall k :: k !in m) ==> r == 0
  {
    var r := MaxBelow(m, 60);
    assert forall k :: k in m ==> m[k] == Count(m, k) <= r;
    if exists k :: k in m then
      var k0 :| k0 in m;
      assert Count(m, k0) >= 1;
      var k :| 0 <= k < 60 && Count(m, k) == r;
      assert k in m;
      r
    else
      assert forall k :: 0 <= k < 60 ==> Count(m, k) == 0;
      r
  }

  /** The first minute below n whose counter is c, or n. */
  function FirstWith(m: map<int, nat>, c: nat, n: nat, k: nat): (r: nat)
    requires k <= n
    ensures k <= r <= n
    ensures r < n ==> Count(m, r) == c
    ensures forall j :: k <= j < r ==> Count(m, j) != c
    decreases n - k
  {
    if k == n || Count(m, k) == c then k else FirstWith(m, c, n, k + 1)
  }

  /** `getMostAsleepInMinute`: a minute whose counter is the largest, 0 when
      the guard never slept. Which of several such minutes the HashMap
      yields first is not modelled: this takes the earliest. */
  function MostAsleepMinute(m: map<int, nat>): (k: int)
    requires MinuteCounters(m)
    ensures (exists j :: j in m) ==> k in m && m[k] == MaximumTimesAsleep(m)
    ensures (exists j :: j in m) ==> forall j :: j in m ==> m[j] <= m[k]
    ensures (forall j :: j !in m) ==> k == 0
  {
    if !exists j :: j in m then 0
    else
      var best := MaximumTimesAsleep(m);
      var j :| j in m && m[j] == best;
      assert Count(m, j) == best;
      FirstWith(m, best, 60, 0)
  }

  // ---------------------------------------------------------------------
  // The two strategies.

  /** Sort the guards by `score`, largest first, and answer id × most
      asleep minute for the first. With two or more guards the sort scores
      every guard, and with one the printout does, so any guard whose score
      fails fails the strategy; so does a guard with a null id, whose id is
      unboxed; `findFirst` on no guards is a NoSuchElementException. */
  function Strategy(guards: seq<Guard>, score: seq<Event> -> Result<int>): (r: Result<int>)
    ensures |guards| == 0 ==> r == Err(NoSuchElement)
    ensures r.Ok? ==> exists i :: 0 <= i < |guards| && Chosen(guards, score, i)
                        && guards[i].id.Some? && TimesAsleep(guards[i].events).Ok?
                        && r.value == guards[i].id.value * MostAsleepMinute(TimesAsleep(guards[i].events).value)
  {
    if |guards| == 0 then Err(NoSuchElement)
    else
      var scores :- MapResult(guards, (g: Guard) => score(g.events));
      assert forall j :: 0 <= j < |guards| ==>
        score(guards[j].events).Ok? && scores[j] == score(guards[j].events).value;
      var i := ArgMax(scores);
      var times :- TimesAsleep(guards[i].events);
      if guards[i].id.None? then Err(NullPointer)
      else
        assert Chosen(guards, score, i);
        Ok(guards[i].id.value * MostAsleepMinute(times))
  }

  /** Guard i has a score at least that of every guard, all of which
      score, and is the first such guard: the stable sort keeps it ahead of
      later guards with an equal score. */
  ghost predicate Chosen(guards: seq<Guard>, score: seq<Event> -> Result<int>, i: nat)
    requires i < |guards|
  {
    && (forall j :: 0 <= j < |guards| ==> score(guards[j].events).Ok?)
    && (forall j :: 0 <= j < |guards| ==> score(guards[j].events).value <= score(guards[i].events).value)
    && (forall j :: 0 <= j < i ==> score(guards[j].events).value < score(guards[i].events).value)
  }

  /** The strategy answers exactly when there are guards, every guard
      scores, and the chosen guard has an id and naps that pair up; when
      every guard scores, some guard is chosen. */
  lemma StrategyAnswers(guards: seq<Guard>, score: seq<Event> -> Result<int>)
    ensures Strategy(guards, score).Ok? <==>
      && |guards| > 0
      && (forall j :: 0 <= j < |guards| ==> score(guards[j].events).Ok?)
      && exists i :: 0 <= i < |guards| && Chosen(guards, score, i)
                     && guards[i].id.Some? && TimesAsleep(guards[i].events).Ok?
    ensures |guards| > 0 && (forall j :: 0 <= j < |guards| ==> score(guards[j].events).Ok?) ==>
      exists i :: 0 <= i < |guards| && Chosen(guards, score, i)
  {
    if |guards| > 0 && forall j :: 0 <= j < |guards| ==> score(guards[j].events).Ok? {
      var scores := MapResult(guards, (g: Guard) => score(g.events)).value;
      var a := ArgMax(scores);
      assert Chosen(guards, score, a);
      forall i | 0 <= i < |guards| && Chosen(guards, score, i) ensures i == a {
        ChosenUnique(guards, score, i, a);
      }
    }
  }

  /** Only one guard is chosen. */
  lemma ChosenUnique(guards: seq<Guard>, score: seq<Event> -> Result<int>, i: nat, k: nat)
    requires i < |guards| && k < |guards|
    requires Chosen(guards, score, i) && Chosen(guards, score, k)
    ensures i == k
  {
    assert score(guards[i].events).value == score(guards[k].events).value;
  }

  /** Part two's score: `getMaximumTimesAsleepInAMinute`. */
  function MaximumTimesAsleepOf(events: seq<Event>): Result<int>
  {
    var times :- TimesAsleep(events);
    Ok(MaximumTimesAsleep(times))
  }

  /** The guards of a log. */
  function Guards(lines: seq<string>): Result<seq<Guard>>
  {
    var events :- MapResult(lines, ParseEvent);
    GuardList(SortEvents(events))
  }

  function SolvePartOne(lines: seq<string>): Result<int>
  {
    var guards :- Guards(lines);
    Strategy(guards, MinutesAsleep)
  }

  function SolvePartTwo(lines: seq<string>): Result<int>
  {
    var guards :- Guards(lines);
    Strategy(guards, MaximumTimesAsleepOf)
  }

  /** The guard `Strategy` answers with. */
  lemma StrategyPick(guards: seq<Guard>, score: seq<Event> -> Result<int>) returns (i: nat)
    requires Strategy(guards, score).Ok?
    ensures i < |guards| && Chosen(guards, score, i)
    ensures guards[i].id.Some? && TimesAsleep(guards[i].events).Ok?
    ensures Strategy(guards, score).value == guards[i].id.value * MostAsleepMinute(TimesAsleep(guards[i].events).value)
  {
    i :| 0 <= i < |guards| && Chosen(guards, score, i)
         && guards[i].id.Some? && TimesAsleep(guards[i].events).Ok?
         && Strategy(guards, score).value == guards[i].id.value * MostAsleepMinute(TimesAsleep(guards[i].events).value);
  }

  /** Part one answers with the guard who slept the most minutes: its id
      times a minute in which it slept most often. */
  lemma PartOneSleepiestGuard(lines: seq<string>)
    requires SolvePartOne(lines).Ok?
    ensures var guards := Guards(lines).value;
      exists i :: 0 <= i < |guards| && guards[i].id.Some? && MinutesAsleep(guards[i].events).Ok?
        && (forall j :: 0 <= j < |guards| ==>
              MinutesAsleep(guards[j].events).Ok?
              && MinutesAsleep(guards[j].events).value <= MinutesAsleep(guards[i].events).value)
        && SolvePartOne(lines).value == guards[i].id.value * MostAsleepMinute(TimesAsleep(guards[i].events).value)
  {
    var guards := Guards(lines).value;
    assert SolvePartOne(lines) == Strategy(guards, MinutesAsleep);
    var i := StrategyPick(guards, MinutesAsleep);
  }

  /** Part two answers with the guard most often asleep in one minute: its
      id times that minute. */
  lemma PartTwoSteadiestGuard(lines: seq<string>)
    requires SolvePartTwo(lines).Ok?
    ensures var guards := Guards(lines).value;
      exists i :: 0 <= i < |guards| && guards[i].id.Some? && TimesAsleep(guards[i].events).Ok?
        && (forall j :: 0 <= j < |guards| ==>
              TimesAsleep(guards[j].events).Ok?
              && MaximumTimesAsleep(TimesAsleep(guards[j].events).value)
                 <= MaximumTimesAsleep(TimesAsleep(guards[i].events).value))
        && SolvePartTwo(lines).value == guards[i].id.value * MostAsleepMinute(TimesAsleep(guards[i].events).value)
  {
    var guards := Guards(lines).value;
    assert SolvePartTwo(lines) == Strategy(guards, MaximumTimesAsleepOf);
    var i := StrategyPick(guards, MaximumTimesAsleepOf);
    SteadiestScores(guards, i);
  }

  lemma SteadiestScores(guards: seq<Guard>, i: nat)
    requires i < |guards| && Chosen(guards, MaximumTimesAsleepOf, i)
    ensures forall j :: 0 <= j < |guards| ==>
              TimesAsleep(guards[j].events).Ok?
              && MaximumTimesAsleep(TimesAsleep(guards[j].events).value)
                 <= MaximumTimesAsleep(TimesAsleep(guards[i].events).value)
  {
    forall j | 0 <= j < |guards|
      ensures TimesAsleep(guards[j].events).Ok?
      ensures MaximumTimesAsleep(TimesAsleep(guards[j].events).value)
              <= MaximumTimesAsleep(TimesAsleep(guards[i].events).value)
    {
      assert MaximumTimesAsleepOf(guards[j].events).Ok?;
    }
  }

  // ---------------------------------------------------------------------
  // When both strategies answer.

  /** A log that, in time order, opens with a shift start, names a guard in
      every shift start, and in which each guard's wake-ups pair up with
      falling-asleeps. */
  ghost predicate WellFormedLog(events: seq<Event>)
  {
    && |events| > 0 && events[0].kind == StartShift
    && (forall i :: 0 <= i < |events| && events[i].kind == StartShift ==> events[i].guardId.Some?)
    && (forall g :: g in StartedUpTo(events, |events|) ==> PairedUp(EventsOf(events, g, |events|)))
  }

  /** Every line of a well-formed log parses into an event, and then both
      strategies answer. */
  lemma LogAnswers(lines: seq<string>)
    requires forall i :: 0 <= i < |lines| ==> ParseEvent(lines[i]).Ok?
    requires WellFormedLog(SortEvents(MapResult(lines, ParseEvent).value))
    ensures SolvePartOne(lines).Ok? && SolvePartTwo(lines).Ok?
  {
    var events := SortEvents(MapResult(lines, ParseEvent).value);
    assert Guards(lines) == GuardList(events);
    var guards := GuardList(events).value;
    WellFormedGuards(events, guards);
    GuardsAnswer(guards);
    assert SolvePartOne(lines) == Strategy(guards, MinutesAsleep);
    assert SolvePartTwo(lines) == Strategy(guards, MaximumTimesAsleepOf);
  }

  /** Both strategies answer for guards that all have ids and naps that
      pair up. */
  lemma GuardsAnswer(guards: seq<Guard>)
    requires |guards| > 0
    requires forall k :: 0 <= k < |guards| ==>
      && guards[k].id.Some?
      && MinutesAsleep(guards[k].events).Ok?
      && MaximumTimesAsleepOf(guards[k].events).Ok?
      && TimesAsleep(guards[k].events).Ok?
    ensures Strategy(guards, MinutesAsleep).Ok? && Strategy(guards, MaximumTimesAsleepOf).Ok?
  {
    StrategyAnswers(guards, MinutesAsleep);
    StrategyAnswers(guards, MaximumTimesAsleepOf);
  }

  /** The guards of a well-formed log: at least one, each with an id and
      with naps that pair up. */
  lemma WellFormedGuards(events: seq<Event>, guards: seq<Guard>)
    requires WellFormedLog(events)
    requires GuardList(events) == Ok(guards)
    ensures |guards| > 0
    ensures forall k :: 0 <= k < |guards| ==>
      && guards[k].id.Some?
      && MinutesAsleep(guards[k].events).Ok?
      && MaximumTimesAsleepOf(guards[k].events).Ok?
      && TimesAsleep(guards[k].events).Ok?
  {
    var n := |events|;
    assert events[0].guardId in StartedUpTo(events, n);
    forall k | 0 <= k < |guards|
      ensures guards[k].id.Some? && Naps(guards[k].events, None).Ok?
    {
      var g := guards[k].id;
      assert g in StartedUpTo(events, n);
      var i :| 0 <= i < n && events[i].kind == StartShift && events[i].guardId == g;
      NapsPairUp(guards[k].events);
    }
  }
}
