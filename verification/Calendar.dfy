/** The proleptic Gregorian calendar that Go's `time` package reads an instant in UTC with.
    Day 0 is Monday, 1 January of year 1; a minute is counted from the start of day 0. */
module Calendar {
  const MINUTES_PER_DAY := 1440

  datatype Date = Date(year: int, month: int, day: int)

  predicate Leap(y: int) {
    y % 4 == 0 && (y % 100 != 0 || y % 400 == 0)
  }

  function LeapDays(y: int): int { if Leap(y) then 1 else 0 }

  /** Days from day 0 to 1 January of year `y`. */
  function DaysBeforeYear(y: int): int {
    365 * (y - 1) + (y - 1) / 4 - (y - 1) / 100 + (y - 1) / 400
  }

  function DaysBeforeMonth(y: int, m: int): int
    requires 1 <= m <= 13
  {
    var l := LeapDays(y);
    if m == 1 then 0 else if m == 2 then 31 else if m == 3 then 59 + l else if m == 4 then 90 + l
    else if m == 5 then 120 + l else if m == 6 then 151 + l else if m == 7 then 181 + l
    else if m == 8 then 212 + l else if m == 9 then 243 + l else if m == 10 then 273 + l
    else if m == 11 then 304 + l else if m == 12 then 334 + l else 365 + l
  }

  function DaysIn(y: int, m: int): int
    requires 1 <= m <= 12
  {
    if m == 2 then 28 + LeapDays(y) else if m in {4, 6, 9, 11} then 30 else 31
  }

  predicate ValidDate(d: Date) {
    1 <= d.month <= 12 && 1 <= d.day <= DaysIn(d.year, d.month)
  }

  /** time.Date: a day beyond the end of its month runs into the next one. */
  function DayNumber(y: int, m: int, d: int): int
    requires 1 <= m <= 12
  {
    DaysBeforeYear(y) + DaysBeforeMonth(y, m) + d - 1
  }

  /** How many whole 400-, 100-, 4- and 1-year cycles lie before a day, and the days left over. */
  datatype Cycles = Cycles(n400: int, n100: int, n4: int, n1: int, rest: int)

  function CyclesBefore(day: int): (c: Cycles)
    ensures 0 <= c.n100 <= 3 && 0 <= c.n4 <= 24 && 0 <= c.n1 <= 3 && 0 <= c.rest <= 365
    ensures day == 146097 * c.n400 + 36524 * c.n100 + 1461 * c.n4 + 365 * c.n1 + c.rest
    ensures c.rest == 365 ==> c.n1 == 3 && (c.n4 < 24 || c.n100 == 3)
  {
    var r400 := day % 146097;
    var n100 := if r400 / 36524 > 3 then 3 else r400 / 36524;
    var r100 := r400 - 36524 * n100;
    var r4 := r100 % 1461;
    var n1 := if r4 / 365 > 3 then 3 else r4 / 365;
    Cycles(day / 146097, n100, r100 / 1461, n1, r4 - 365 * n1)
  }

  function YearOf(day: int): int {
    var c := CyclesBefore(day);
    400 * c.n400 + 100 * c.n100 + 4 * c.n4 + c.n1 + 1
  }

  function MonthOf(y: int, yearDay: int): int {
    var l := LeapDays(y);
    if yearDay < 31 then 1 else if yearDay < 59 + l then 2 else if yearDay < 90 + l then 3
    else if yearDay < 120 + l then 4 else if yearDay < 151 + l then 5 else if yearDay < 181 + l then 6
    else if yearDay < 212 + l then 7 else if yearDay < 243 + l then 8 else if yearDay < 273 + l then 9
    else if yearDay < 304 + l then 10 else if yearDay < 334 + l then 11 else 12
  }

  function DateOf(day: int): (d: Date)
    ensures 1 <= d.month <= 12
  {
    var y := YearOf(day);
    var yearDay := day - DaysBeforeYear(y);
    var m := MonthOf(y, yearDay);
    Date(y, m, yearDay - DaysBeforeMonth(y, m) + 1)
  }

  /** time.Weekday: Sunday is 0. */
  function Weekday(day: int): (w: int)
    ensures 0 <= w <= 6
  {
    (day + 1) % 7
  }

  lemma YearLength(y: int)
    ensures DaysBeforeYear(y + 1) == DaysBeforeYear(y) + 365 + LeapDays(y)
  {
    Step(y, 4);
    Step(y, 100);
    Step(y, 400);
    LeapDivisors(y);
  }

  lemma LeapDivisors(y: int)
    ensures y % 400 == 0 ==> y % 100 == 0
    ensures y % 100 == 0 ==> y % 4 == 0
  {
    if y % 400 == 0 {
      Centuries(y / 400);
    }
    if y % 100 == 0 {
      Fours(y / 100);
    }
  }

  lemma Centuries(q: int)
    ensures (400 * q) % 100 == 0
  {
    assert 400 * q == 100 * (4 * q);
  }

  lemma Fours(q: int)
    ensures (100 * q) % 4 == 0
  {
    assert 100 * q == 4 * (25 * q);
  }

  lemma Step(y: int, n: int)
    requires n in {4, 100, 400}
    ensures y / n == (y - 1) / n + if y % n == 0 then 1 else 0
  {
  }

  lemma {:induction false} YearsGrow(y: int, z: int)
    requires y <= z
    ensures DaysBeforeYear(z) >= DaysBeforeYear(y) + 365 * (z - y)
    decreases z - y
  {
    if y < z {
      YearLength(z - 1);
      YearsGrow(y, z - 1);
    }
  }

  lemma YearOfBounds(day: int)
    ensures DaysBeforeYear(YearOf(day)) <= day < DaysBeforeYear(YearOf(day) + 1)
  {
    var c := CyclesBefore(day);
    CycleStart(c.n400, c.n100, c.n4, c.n1);
    CycleLeap(c.n400, c.n100, c.n4, c.n1);
    YearLength(YearOf(day));
  }

  lemma CycleStart(n400: int, n100: int, n4: int, n1: int)
    requires 0 <= n100 <= 3 && 0 <= n4 <= 24 && 0 <= n1 <= 3
    ensures DaysBeforeYear(400 * n400 + 100 * n100 + 4 * n4 + n1 + 1)
         == 146097 * n400 + 36524 * n100 + 1461 * n4 + 365 * n1
  {
    var y := 400 * n400 + 100 * n100 + 4 * n4 + n1;
    assert y / 4 == 100 * n400 + 25 * n100 + n4;
    assert y / 100 == 4 * n400 + n100;
    assert y / 400 == n400;
  }

  lemma CycleLeap(n400: int, n100: int, n4: int, n1: int)
    requires 0 <= n100 <= 3 && 0 <= n4 <= 24 && 0 <= n1 <= 3
    ensures Leap(400 * n400 + 100 * n100 + 4 * n4 + n1 + 1) <==> n1 == 3 && (n4 < 24 || n100 == 3)
  {
    var y := 400 * n400 + 100 * n100 + 4 * n4 + n1 + 1;
    if n1 < 3 {
      Remainder4(100 * n400 + 25 * n100 + n4, n1 + 1);
    } else if n4 < 24 {
      Remainder4(100 * n400 + 25 * n100 + n4 + 1, 0);
      Remainder100(4 * n400 + n100, 4 * (n4 + 1));
    } else if n100 < 3 {
      Remainder400(n400, 100 * (n100 + 1));
      Remainder100(4 * n400 + n100 + 1, 0);
    } else {
      Remainder400(n400 + 1, 0);
      Remainder4(100 * (n400 + 1), 0);
    }
  }

  lemma Remainder4(q: int, r: int)
    requires 0 <= r < 4
    ensures (4 * q + r) % 4 == r
  {
  }

  lemma Remainder100(q: int, r: int)
    requires 0 <= r < 100
    ensures (100 * q + r) % 100 == r
  {
  }

  lemma Remainder400(q: int, r: int)
    requires 0 <= r < 400
    ensures (400 * q + r) % 400 == r
  {
  }

  /** Two years cannot both contain a day. */
  lemma YearOfUnique(day: int, y: int)
    requires DaysBeforeYear(y) <= day < DaysBeforeYear(y + 1)
    ensures YearOf(day) == y
  {
    var z := YearOf(day);
    YearOfBounds(day);
    if z < y {
      YearsGrow(z + 1, y);
    } else if y < z {
      YearsGrow(y + 1, z);
    }
  }

  lemma DateRoundTrip(day: int)
    ensures ValidDate(DateOf(day))
    ensures var d := DateOf(day); DayNumber(d.year, d.month, d.day) == day
  {
    YearOfBounds(day);
    YearLength(YearOf(day));
  }

  lemma DayNumberRoundTrip(d: Date)
    requires ValidDate(d)
    ensures DateOf(DayNumber(d.year, d.month, d.day)) == d
  {
    YearLength(d.year);
    YearOfUnique(DayNumber(d.year, d.month, d.day), d.year);
  }
}
