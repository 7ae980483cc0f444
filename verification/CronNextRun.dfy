/** The bounded forward search for the next run (internal/cron/cron.go, NextRun), and exactly when it gives up. */
module CronNextRun {
  import opened Text
  import opened Calendar
  import opened CronSchedule

  const NANOS_PER_MINUTE := 60_000_000_000

  datatype Outcome = At(minute: int) | BadSchedule | NeverFires

  /** The minute after the one an instant falls in. Instants are nanoseconds since the start of day 0. */
  function FirstCandidate(after: int): int { after / NANOS_PER_MINUTE + 1 }

  function MinuteAt(day: int, inDay: int): int { day * MINUTES_PER_DAY + inDay }

  /** AddDate(5, 0, 0): the same date five years on; 29 February runs into 1 March. */
  function FiveYearsOn(minute: int): int {
    var d := DateOf(minute / MINUTES_PER_DAY);
    MinuteAt(DayNumber(d.year + 5, d.month, d.day), minute % MINUTES_PER_DAY)
  }

  /** `r` is the least minute strictly after `after` at which the schedule fires, if there is one within five years. */
  ghost predicate IsNextRun(expression: string, after: int, r: Outcome) {
    var c := FirstCandidate(after);
    match ScheduleOf(expression)
    case None => r == BadSchedule
    case Some(s) =>
      match r
      case BadSchedule => false
      case At(m) => c <= m < FiveYearsOn(c) && Matches(s, m) && forall k | c <= k < m :: !Matches(s, k)
      case NeverFires => forall k | c <= k < FiveYearsOn(c) :: !Matches(s, k)
  }

  method NextRun(expression: string, after: int) returns (r: Outcome)
    ensures IsNextRun(expression, after, r)
    ensures forall k | after < k * NANOS_PER_MINUTE && r.At? && k < r.minute :: !DueNow(expression, k)
    ensures r.At? ==> after < r.minute * NANOS_PER_MINUTE && DueNow(expression, r.minute)
  {
    hide FiveYearsOn, ScheduleOf, Matches;
    var schedule := ParseSchedule(expression);
    if schedule.None? {
      return BadSchedule;
    }
    var candidate := FirstCandidate(after);
    var limit := FiveYearsOn(candidate);
    while candidate < limit
      invariant FirstCandidate(after) <= candidate
      invariant forall k | FirstCandidate(after) <= k < candidate :: !Matches(schedule.value, k)
      decreases limit - candidate
    {
      if Matches(schedule.value, candidate) {
        return At(candidate);
      }
      candidate := candidate + 1;
    }
    return NeverFires;
  }

  // ---------- which days can come round ----------

  predicate AllowsPair(s: Schedule, m: int, d: int) { m in s.months && d in s.daysOfMonth }

  /** Year 1 is a common year and year 4 a leap year. */
  predicate InCommonYears(m: int, d: int) { ValidDate(Date(1, m, d)) }
  predicate InLeapYears(m: int, d: int) { ValidDate(Date(4, m, d)) }

  predicate OnlyDayOfMonth(s: Schedule) { s.dayOfMonthRestricted && !s.dayOfWeekRestricted }

  predicate LeapDay(day: int) { DateOf(day).month == 2 && DateOf(day).day == 29 }

  ghost predicate NoCommonPair(s: Schedule) {
    OnlyDayOfMonth(s) && forall m, d :: AllowsPair(s, m, d) ==> !InCommonYears(m, d)
  }

  /** Every allowed day is one no year has, such as 30 February or 31 April. */
  ghost predicate Impossible(s: Schedule) {
    OnlyDayOfMonth(s) && forall m, d :: AllowsPair(s, m, d) ==> !InLeapYears(m, d)
  }

  /** A minute of a 29 February, at an hour and minute the schedule allows. */
  predicate LeapMinute(s: Schedule, k: int) {
    var inDay := k % MINUTES_PER_DAY;
    LeapDay(k / MINUTES_PER_DAY) && inDay % 60 in s.minutes && inDay / 60 in s.hours
  }

  ghost predicate LeapMinuteWithin(s: Schedule, from: int, to: int) {
    exists k :: from <= k < to && LeapMinute(s, k)
  }

  /** What parsing guarantees: each field starts with a value inside its limits. */
  predicate Parsed(s: Schedule) {
    && |s.minutes| > 0 && 0 <= s.minutes[0] <= 59
    && |s.hours| > 0 && 0 <= s.hours[0] <= 23
    && |s.daysOfMonth| > 0 && 1 <= s.daysOfMonth[0] <= 31
    && |s.months| > 0 && 1 <= s.months[0] <= 12
    && |s.daysOfWeek| > 0 && 0 <= s.daysOfWeek[0] <= 6
  }

  lemma ParsedSchedules(expression: string)
    ensures ScheduleOf(expression).Some? ==> Parsed(ScheduleOf(expression).value)
  {
  }

  lemma SplitMinute(day: int, hour: int, min: int)
    requires 0 <= hour <= 23 && 0 <= min <= 59
    ensures var k := MinuteAt(day, hour * 60 + min);
            k / MINUTES_PER_DAY == day && k % MINUTES_PER_DAY / 60 == hour && k % MINUTES_PER_DAY % 60 == min
  {
  }

  /** A day the schedule accepts has a minute at which it fires. */
  lemma FiresOnDay(s: Schedule, day: int) returns (k: int)
    requires Parsed(s) && DateOf(day).month in s.months && DayMatches(s, day)
    ensures Matches(s, k) && k / MINUTES_PER_DAY == day
    ensures LeapDay(day) ==> LeapMinute(s, k)
  {
    k := MinuteAt(day, s.hours[0] * 60 + s.minutes[0]);
    SplitMinute(day, s.hours[0], s.minutes[0]);
  }

  /** Among the first seven days of a month there is one on each weekday. */
  lemma WeekdayInMonth(y: int, m: int, w: int) returns (day: int)
    requires 1 <= m <= 12 && 0 <= w <= 6
    ensures DateOf(day).year == y && DateOf(day).month == m && Weekday(day) == w
  {
    hide DaysBeforeYear, DaysBeforeMonth, DateOf;
    var first := DayNumber(y, m, 1);
    var shift := (w - Weekday(first)) % 7;
    day := first + shift;
    DayNumberRoundTrip(Date(y, m, 1 + shift));
    assert DayNumber(y, m, 1 + shift) == day;
  }

  /** Unless only the day of the month is restricted, to days a common year lacks, every year has a day that fires. */
  lemma FiresInYear(s: Schedule, y: int) returns (k: int)
    requires Parsed(s) && !NoCommonPair(s)
    ensures Matches(s, k) && DateOf(k / MINUTES_PER_DAY).year == y
  {
    var m := s.months[0];
    var day;
    if s.dayOfWeekRestricted {
      day := WeekdayInMonth(y, m, s.daysOfWeek[0]);
    } else if s.dayOfMonthRestricted {
      var mm, d :| AllowsPair(s, mm, d) && InCommonYears(mm, d);
      day := DayNumber(y, mm, d);
      DayNumberRoundTrip(Date(y, mm, d));
    } else {
      day := DayNumber(y, m, 1);
      DayNumberRoundTrip(Date(y, m, 1));
    }
    k := FiresOnDay(s, day);
  }

  /** The four calendar years after the first candidate's lie wholly inside the window. */
  lemma WindowHoldsYears(c: int, k: int)
    requires var y := DateOf(c / MINUTES_PER_DAY).year; y < DateOf(k / MINUTES_PER_DAY).year < y + 5
    ensures c <= k < FiveYearsOn(c)
  {
    hide DaysBeforeYear, YearOf, MonthOf;
    var dc, dk := c / MINUTES_PER_DAY, k / MINUTES_PER_DAY;
    var y, z := YearOf(dc), YearOf(dk);
    YearOfBounds(dc);
    YearOfBounds(dk);
    YearsGrow(y + 1, z);
    YearsGrow(z + 1, y + 5);
    DateRoundTrip(dc);
    assert dc < dk < DayNumber(y + 5, DateOf(dc).month, DateOf(dc).day);
  }

  /** Where a match can come from when only the day of the month is restricted. */
  lemma MatchIsLeapDay(s: Schedule, k: int)
    requires NoCommonPair(s) && Matches(s, k)
    ensures LeapMinute(s, k) && AllowsPair(s, 2, 29)
  {
    var d := DateOf(k / MINUTES_PER_DAY);
    DateRoundTrip(k / MINUTES_PER_DAY);
    assert AllowsPair(s, d.month, d.day);
  }

  /** NextRun gives up exactly when only the day of the month is restricted, no allowed day exists in a common
      year, and the window has no minute of a 29 February that the schedule allows. */
  lemma NeverFiresExactly(expression: string, after: int, r: Outcome, s: Schedule)
    requires IsNextRun(expression, after, r) && ScheduleOf(expression) == Some(s)
    ensures var c := FirstCandidate(after);
            r.NeverFires? <==>
              NoCommonPair(s) && !(AllowsPair(s, 2, 29) && LeapMinuteWithin(s, c, FiveYearsOn(c)))
  {
    hide DateOf, ScheduleOf;
    ParsedSchedules(expression);
    var c := FirstCandidate(after);
    var limit := FiveYearsOn(c);
    if !NoCommonPair(s) {
      var k := FiresInYear(s, DateOf(c / MINUTES_PER_DAY).year + 1);
      WindowHoldsYears(c, k);
    } else {
      if AllowsPair(s, 2, 29) && LeapMinuteWithin(s, c, limit) {
        var k :| c <= k < limit && LeapMinute(s, k);
        assert Matches(s, k);
      }
      if r.At? {
        MatchIsLeapDay(s, r.minute);
      }
    }
  }

  /** "Never fires" is true for all time exactly when every allowed day is one no year has. */
  lemma NeverForAllTime(s: Schedule)
    requires Parsed(s)
    ensures (forall k :: !Matches(s, k)) <==> Impossible(s)
  {
    if Impossible(s) {
      forall k ensures !Matches(s, k) {
        DateRoundTrip(k / MINUTES_PER_DAY);
        var d := DateOf(k / MINUTES_PER_DAY);
        assert AllowsPair(s, d.month, d.day) ==> !InLeapYears(d.month, d.day);
      }
    } else if !NoCommonPair(s) {
      var k := FiresInYear(s, 1);
    } else {
      var m, d :| AllowsPair(s, m, d) && InLeapYears(m, d);
      assert m == 2 && d == 29;
      DayNumberRoundTrip(Date(4, 2, 29));
      var k := FiresOnDay(s, DayNumber(4, 2, 29));
    }
  }

  /** One of the four calendar years after the instant's own is a leap year. It is so for every year but those
      just before a century year that is not a leap year. */
  predicate LeapYearAhead(after: int) {
    var y := DateOf(FirstCandidate(after) / MINUTES_PER_DAY).year;
    Leap(y + 1) || Leap(y + 2) || Leap(y + 3) || Leap(y + 4)
  }

  /** With a leap year ahead, giving up means that the schedule never fires at all. */
  lemma HorizonSuffices(expression: string, after: int, r: Outcome, s: Schedule)
    requires IsNextRun(expression, after, r) && ScheduleOf(expression) == Some(s)
    requires LeapYearAhead(after)
    ensures r.NeverFires? <==> Impossible(s)
    ensures r.NeverFires? <==> forall k :: !Matches(s, k)
  {
    hide DateOf, ScheduleOf, DayMatches, FiveYearsOn, DayNumber;
    ParsedSchedules(expression);
    NeverFiresExactly(expression, after, r, s);
    NeverForAllTime(s);
    var c := FirstCandidate(after);
    var y := DateOf(c / MINUTES_PER_DAY).year;
    if NoCommonPair(s) && !Impossible(s) {
      var m, d :| AllowsPair(s, m, d) && InLeapYears(m, d);
      assert m == 2 && d == 29;
      var z := if Leap(y + 1) then y + 1 else if Leap(y + 2) then y + 2 else if Leap(y + 3) then y + 3 else y + 4;
      DayNumberRoundTrip(Date(z, 2, 29));
      var k := FiresOnDay(s, DayNumber(z, 2, 29));
      WindowHoldsYears(c, k);
    } else if Impossible(s) {
      assert forall m, d :: InCommonYears(m, d) ==> InLeapYears(m, d);
    }
  }

  /** A time of day the schedule allows, at which 29 February of a leap year falls inside [from, to). */
  ghost predicate LeapTimeIn(s: Schedule, year: int, from: int, to: int) {
    Leap(year) && exists t :: AllowedTime(s, t) && from <= MinuteAt(DayNumber(year, 2, 29), t) < to
  }

  predicate AllowedTime(s: Schedule, t: int) { 0 <= t < MINUTES_PER_DAY && t % 60 in s.minutes && t / 60 in s.hours }

  /** The window reaches a 29 February the schedule allows: one in a leap year ahead, what is left of one in the year
      the search starts in, or what it still covers of one five years on. */
  ghost predicate ReachesLeapDay(s: Schedule, after: int) {
    var c := FirstCandidate(after);
    var y := DateOf(c / MINUTES_PER_DAY).year;
    || LeapYearAhead(after)
    || LeapTimeIn(s, y, c, FiveYearsOn(c))
    || LeapTimeIn(s, y + 5, c, FiveYearsOn(c))
  }

  lemma LaterYear(a: int, b: int)
    requires a <= b
    ensures YearOf(a) <= YearOf(b)
  {
    hide DaysBeforeYear, YearOf;
    YearOfBounds(a);
    YearOfBounds(b);
    if YearOf(b) < YearOf(a) {
      YearsGrow(YearOf(b) + 1, YearOf(a));
    }
  }

  /** The years a window can touch. */
  lemma WindowYears(c: int, k: int)
    requires c <= k < FiveYearsOn(c)
    ensures var y := DateOf(c / MINUTES_PER_DAY).year; y <= DateOf(k / MINUTES_PER_DAY).year <= y + 5
  {
    hide DaysBeforeYear, YearOf, MonthOf, DaysBeforeMonth;
    var dc, dk := c / MINUTES_PER_DAY, k / MINUTES_PER_DAY;
    var d := DateOf(dc);
    LaterYear(dc, dk);
    DateRoundTrip(dc);
    var last := DayNumber(d.year + 5, d.month, d.day);
    assert dk <= last;
    LaterYear(dk, last);
    SameYear(d.year + 5, d.month, d.day);
  }

  /** 29 February five years on runs into 1 March of the same year. */
  lemma SameYear(y: int, m: int, d: int)
    requires ValidDate(Date(y, m, d)) || (m == 2 && d == 29)
    ensures YearOf(DayNumber(y, m, d)) == y
  {
    hide YearOf, DaysBeforeYear;
    YearLength(y);
    YearOfUnique(DayNumber(y, m, d), y);
  }

  lemma LeapMinuteAt(s: Schedule, year: int, t: int)
    requires Leap(year) && AllowedTime(s, t)
    ensures LeapMinute(s, MinuteAt(DayNumber(year, 2, 29), t))
  {
    hide DateOf, DayNumber;
    DayNumberRoundTrip(Date(year, 2, 29));
  }

  lemma LeapMinuteIs(s: Schedule, k: int)
    requires LeapMinute(s, k)
    ensures var year := DateOf(k / MINUTES_PER_DAY).year;
            Leap(year) && AllowedTime(s, k % MINUTES_PER_DAY)
            && MinuteAt(DayNumber(year, 2, 29), k % MINUTES_PER_DAY) == k
  {
    hide DateOf, DayNumber;
    DateRoundTrip(k / MINUTES_PER_DAY);
  }

  lemma ReachMeans(s: Schedule, after: int)
    requires Parsed(s)
    ensures var c := FirstCandidate(after); LeapMinuteWithin(s, c, FiveYearsOn(c)) <==> ReachesLeapDay(s, after)
  {
    hide DateOf, DayNumber, FiveYearsOn, LeapMinute, Leap;
    var c := FirstCandidate(after);
    var limit := FiveYearsOn(c);
    var y := DateOf(c / MINUTES_PER_DAY).year;
    if LeapMinuteWithin(s, c, limit) {
      var k :| c <= k < limit && LeapMinute(s, k);
      WindowYears(c, k);
      LeapMinuteIs(s, k);
    }
    if LeapYearAhead(after) {
      var z := if Leap(y + 1) then y + 1 else if Leap(y + 2) then y + 2 else if Leap(y + 3) then y + 3 else y + 4;
      var t := s.hours[0] * 60 + s.minutes[0];
      LeapMinuteAt(s, z, t);
      var k := MinuteAt(DayNumber(z, 2, 29), t);
      YearOfLeapDay(z, t);
      WindowHoldsYears(c, k);
    } else if ReachesLeapDay(s, after) {
      var z := if LeapTimeIn(s, y, c, limit) then y else y + 5;
      var t :| AllowedTime(s, t) && c <= MinuteAt(DayNumber(z, 2, 29), t) < limit;
      LeapMinuteAt(s, z, t);
    }
  }

  lemma YearOfLeapDay(year: int, t: int)
    requires Leap(year) && 0 <= t < MINUTES_PER_DAY
    ensures DateOf(MinuteAt(DayNumber(year, 2, 29), t) / MINUTES_PER_DAY).year == year
  {
    hide DateOf, DayNumber;
    DayNumberRoundTrip(Date(year, 2, 29));
  }

  /** Giving up means that the schedule never fires at all, exactly unless the schedule fires on 29 February alone and
      the window reaches none that it allows. */
  lemma HorizonExactly(expression: string, after: int, r: Outcome, s: Schedule)
    requires IsNextRun(expression, after, r) && ScheduleOf(expression) == Some(s)
    ensures (r.NeverFires? <==> forall k :: !Matches(s, k)) <==>
            (NoCommonPair(s) && AllowsPair(s, 2, 29) ==> ReachesLeapDay(s, after))
  {
    hide DateOf, ScheduleOf, DayMatches, FiveYearsOn, Matches, LeapMinuteWithin, IsNextRun, ReachesLeapDay;
    ParsedSchedules(expression);
    NeverFiresExactly(expression, after, r, s);
    NeverForAllTime(s);
    ReachMeans(s, after);
    assert Impossible(s) <==> NoCommonPair(s) && !AllowsPair(s, 2, 29);
  }

  // ---------- plain numbers ----------

  /** A field that is one number holds that number. */
  lemma PlainNumber(text: string, low: int, high: int)
    requires text != "" && Digits(text) && Limits(low, high) && low <= Value(text) <= high
    ensures ReadPart(text, low, high) == Some(From(Value(text), 1))
    ensures FieldValues(text, low, high) == Some([Value(text)])
  {
    assert forall c :: c in text ==> IsDigit(c);
    assert text[..|text|] == text;
    assert Split(text, ',') == [text];
    SameParts([text], [From(Value(text), 1)], low, high);
    OnePart(From(Value(text), 1), low, high);
  }

  // ---------- the gap the horizon misses ----------

  const LEAP_DAY_EXPRESSION := "0 0 29 2 *"
  const LEAP_DAY_SCHEDULE := Schedule([0], [0], [29], [2], RangeFrom(0, 7, 1)[7 := 0], true, false)

  lemma LeapDayFields()
    ensures Fields(LEAP_DAY_EXPRESSION) == ["0", "0", "29", "2", "*"]
  {
    hide Fields, Join;
    JoinFive("0", "0", "29", "2", "*", " ");
    assert "0" + " " + ("0" + " " + ("29" + " " + ("2" + " " + "*"))) == LEAP_DAY_EXPRESSION;
    FieldsJoin(["0", "0", "29", "2", "*"]);
  }

  lemma LeapDayParses()
    ensures ScheduleOf(LEAP_DAY_EXPRESSION) == Some(LEAP_DAY_SCHEDULE)
  {
    hide Fields, FieldParts, TextsValues, RangeFrom, FoldSunday;
    LeapDayFields();
    assert Value("29") == 29 by { assert "29"[..1] == "2"; assert Value("2") == 2; }
    PlainNumber("0", 0, 59);
    PlainNumber("0", 0, 23);
    PlainNumber("29", 1, 31);
    PlainNumber("2", 1, 12);
    StarField(0, 7);
    WholeWeek();
  }

  lemma WholeWeek()
    ensures RangeFrom(0, 7, 1) == [0, 1, 2, 3, 4, 5, 6, 7]
    ensures FoldSunday(RangeFrom(0, 7, 1)) == RangeFrom(0, 7, 1)[7 := 0]
  {
    assert RangeFrom(7, 7, 1) == [7];
    assert RangeFrom(5, 7, 1) == [5, 6, 7];
    assert RangeFrom(3, 7, 1) == [3, 4, 5, 6, 7];
    assert RangeFrom(1, 7, 1) == [1, 2, 3, 4, 5, 6, 7];
  }

  /** From the end of 29 February 2096 the search gives up on a schedule that fires on 29 February 2104: 2100 is
      not a leap year, so five years do not cover the longest gap. */
  lemma EightYearGap()
    ensures var after := MinuteAt(DayNumber(2096, 2, 29), 1439) * NANOS_PER_MINUTE;
            IsNextRun(LEAP_DAY_EXPRESSION, after, NeverFires)
    ensures DueNow(LEAP_DAY_EXPRESSION, MinuteAt(DayNumber(2104, 2, 29), 0))
  {
    hide DateOf, DayNumber, ScheduleOf;
    LeapDayParses();
    var s := LEAP_DAY_SCHEDULE;
    var c := MinuteAt(DayNumber(2096, 3, 1), 0);
    DayNumberRoundTrip(Date(2096, 3, 1));
    SplitMinute(DayNumber(2096, 3, 1), 0, 0);
    DayAfterLeapDay();
    assert FiveYearsOn(c) == MinuteAt(DayNumber(2101, 3, 1), 0);
    forall k | c <= k < FiveYearsOn(c) ensures !Matches(s, k) {
      NoLeapDayBetween(k / MINUTES_PER_DAY);
    }
    DayNumberRoundTrip(Date(2104, 2, 29));
    SplitMinute(DayNumber(2104, 2, 29), 0, 0);
  }

  lemma DayAfterLeapDay()
    ensures DayNumber(2096, 3, 1) == DayNumber(2096, 2, 29) + 1
  {
  }

  lemma NoLeapDayBetween(day: int)
    requires DayNumber(2096, 3, 1) <= day < DayNumber(2101, 3, 1)
    ensures !LeapDay(day)
  {
    hide DateOf;
    var d := DateOf(day);
    DateRoundTrip(day);
    if LeapDay(day) {
      if d.year < 2096 {
        YearsGrow(d.year + 1, 2096);
        YearLength(d.year);
      } else if d.year > 2101 {
        YearsGrow(2102, d.year);
      }
    }
  }
}
