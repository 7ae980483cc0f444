/** Rewriting an expression's weekday field into one spelling (internal/cron/cron.go, Canonical and joinValues). */
module CronCanonical {
  import opened Text
  import opened Calendar
  import opened CronSchedule
  import opened CronNextRun

  // ---------- sorted, without repeats ----------

  predicate Ascending(s: seq<int>) { forall i, j :: 0 <= i < j < |s| ==> s[i] < s[j] }

  lemma AscendingTail(s: seq<int>)
    requires s != [] && Ascending(s)
    ensures Ascending(s[1..]) && forall x :: x in s[1..] ==> s[0] < x
  {
    var t := s[1..];
    forall i, j | 0 <= i < j < |t| ensures t[i] < t[j] {
      assert t[i] == s[i + 1] && t[j] == s[j + 1];
    }
  }

  lemma AscendingCons(x: int, s: seq<int>)
    requires Ascending(s) && forall y :: y in s ==> x < y
    ensures Ascending([x] + s)
  {
    var t := [x] + s;
    forall i, j | 0 <= i < j < |t| ensures t[i] < t[j] {
      assert t[j] == s[j - 1] && t[j] in s;
    }
  }

  function Insert(v: int, s: seq<int>): (r: seq<int>) {
    if s == [] then [v] else if v <= s[0] then [v] + s else [s[0]] + Insert(v, s[1..])
  }

  lemma {:induction false} InsertMeans(v: int, s: seq<int>)
    ensures forall x :: x in Insert(v, s) <==> x == v || x in s
    ensures Ascending(s) && v !in s ==> Ascending(Insert(v, s))
  {
    if s != [] {
      assert s == [s[0]] + s[1..] && s[0] in s;
      InsertMeans(v, s[1..]);
      if Ascending(s) && v !in s {
        AscendingTail(s);
        if v <= s[0] {
          AscendingCons(v, s);
        } else {
          AscendingCons(s[0], Insert(v, s[1..]));
        }
      }
    }
  }

  /** slices.Sort, on values without repeats. */
  function Sort(s: seq<int>): seq<int> {
    if s == [] then [] else Insert(s[0], Sort(s[1..]))
  }

  lemma {:induction false} SortMeans(s: seq<int>)
    ensures forall x :: x in Sort(s) <==> x in s
    ensures AllDifferent(s) ==> Ascending(Sort(s))
  {
    if s != [] {
      assert s == [s[0]] + s[1..];
      SortMeans(s[1..]);
      InsertMeans(s[0], Sort(s[1..]));
      if AllDifferent(s) {
        assert forall i :: 0 < i < |s| ==> s[0] != s[i];
        assert s[0] !in s[1..];
      }
    }
  }

  predicate AllDifferent(s: seq<int>) { forall i, j :: 0 <= i < j < |s| ==> s[i] != s[j] }

  function Distinct(s: seq<int>): (r: seq<int>)
    ensures AllDifferent(r)
    ensures forall x :: x in r <==> x in s
  {
    if s == [] then []
    else
      var front := Distinct(s[..|s| - 1]);
      var last := s[|s| - 1];
      assert s == s[..|s| - 1] + [last];
      if last in front then front else front + [last]
  }

  /** A field's values, sorted and without repeats. */
  function Tidy(values: seq<int>): seq<int> { Sort(Distinct(values)) }

  lemma TidyMeans(values: seq<int>)
    ensures Ascending(Tidy(values))
    ensures Elements(Tidy(values)) == Elements(values)
  {
    hide Sort, Distinct;
    SortMeans(Distinct(values));
    forall x ensures x in Elements(Tidy(values)) <==> x in Elements(values) {
      assert x in Sort(Distinct(values)) <==> x in Distinct(values);
    }
  }

  lemma {:induction false} AscendingUnique(s: seq<int>, t: seq<int>)
    requires Ascending(s) && Ascending(t) && Elements(s) == Elements(t)
    ensures s == t
  {
    assert s != [] ==> s[0] in Elements(s);
    assert t != [] ==> t[0] in Elements(t);
    if s != [] {
      AscendingTail(s);
      AscendingTail(t);
      assert s == [s[0]] + s[1..] && t == [t[0]] + t[1..];
      assert s[0] in Elements(t) && t[0] in Elements(s);
      assert Elements(s[1..]) == Elements(s) - {s[0]};
      assert Elements(t[1..]) == Elements(t) - {t[0]};
      AscendingUnique(s[1..], t[1..]);
    }
  }

  // ---------- joinValues ----------

  function Texts(values: seq<int>): (r: seq<string>)
    ensures |r| == |values| && forall i :: 0 <= i < |r| ==> r[i] == Itoa(values[i])
  {
    seq(|values|, i requires 0 <= i < |values| => Itoa(values[i]))
  }

  function Rendered(values: seq<int>): string { Join(Texts(Tidy(values)), ",") }

  method JoinValues(values: seq<int>) returns (text: string)
    ensures text == Rendered(values)
  {
    hide Sort, Distinct, Itoa, Join;
    var distinct := DropRepeats(values);
    var sorted := Sort(distinct);
    var parts: seq<string> := [];
    for i := 0 to |sorted|
      invariant |parts| == i
      invariant forall k :: 0 <= k < i ==> parts[k] == Itoa(sorted[k])
    {
      parts := parts + [Itoa(sorted[i])];
    }
    assert parts == Texts(sorted);
    text := Join(parts, ",");
  }

  method DropRepeats(values: seq<int>) returns (distinct: seq<int>)
    ensures distinct == Distinct(values)
  {
    var seen: set<int> := {};
    distinct := [];
    for i := 0 to |values|
      invariant distinct == Distinct(values[..i])
      invariant forall x :: x in seen <==> x in distinct
    {
      assert values[..i + 1][..i] == values[..i];
      if values[i] !in seen {
        seen := seen + {values[i]};
        distinct := distinct + [values[i]];
      }
    }
    assert values[..|values|] == values;
  }

  // ---------- Canonical ----------

  function CanonicalOf(expression: string): Option<string> {
    var s := ScheduleOf(expression);
    if s.None? then None
    else
      var f := Fields(expression);
      Some(Join(if f[4] == "*" then f else f[4 := Rendered(s.value.daysOfWeek)], " "))
  }

  method Canonical(expression: string) returns (r: Option<string>)
    ensures r == CanonicalOf(expression)
  {
    var schedule := ParseSchedule(expression);
    if schedule.None? {
      return None;
    }
    var fields := Fields(expression);
    if fields[4] == "*" {
      return Some(Join(fields, " "));
    }
    var days := JoinValues(schedule.value.daysOfWeek);
    fields := fields[4 := days];
    return Some(Join(fields, " "));
  }

  /** The weekday field of an accepted expression has no part that wraps around 64 bits. */
  ghost predicate WeekdayExact(expression: string)
    requires ScheduleOf(expression).Some?
  {
    forall p :: p in FieldParts(Fields(expression)[4], 0, 7).value ==> Exact(p, 0)
  }

  /** A field of characters other than white space, commas aside, rendered from numbers. */
  lemma {:induction false} NumbersAreAWord(texts: seq<string>)
    requires |texts| > 0
    requires forall i :: 0 <= i < |texts| ==> exists n :: texts[i] == Itoa(n)
    ensures Word(Join(texts, ","))
    ensures Join(texts, ",") != "*"
  {
    var n :| texts[0] == Itoa(n);
    assert forall c :: c in texts[0] ==> c == '-' || IsDigit(c);
    assert texts[0] != "";
    if |texts| > 1 {
      NumbersAreAWord(texts[1..]);
    }
  }

  lemma NoCommas(values: seq<int>)
    ensures forall t :: t in Texts(values) ==> ',' !in t
  {
  }

  /** A rendered list of weekdays 0 to 6 reads back as the same list. */
  lemma RenderedReadsBack(values: seq<int>)
    requires |values| > 0 && forall v :: v in values ==> 0 <= v <= 6
    ensures FieldValues(Join(Texts(values), ","), 0, 7) == Some(values)
    ensures FieldParts(Join(Texts(values), ","), 0, 7).Some?
    ensures forall p :: p in FieldParts(Join(Texts(values), ","), 0, 7).value ==> Exact(p, 0)
  {
    hide Split, Join, ReadPart, ReadParts, PartsValues;
    var texts := Texts(values);
    NoCommas(values);
    SplitJoin(texts, ',');
    var parts := seq(|values|, i requires 0 <= i < |values| => From(values[i], 1));
    forall i | 0 <= i < |values| ensures ReadPart(texts[i], 0, 7) == Some(parts[i]) {
      assert values[i] in values;
      ValueNatText(values[i]);
      PlainNumber(texts[i], 0, 7);
    }
    SameParts(texts, parts, 0, 7);
    SingleValues(values, parts, 0, 7);
  }

  lemma {:induction false} SingleValues(values: seq<int>, parts: seq<Part>, low: int, high: int)
    requires Limits(low, high) && |parts| == |values|
    requires forall i :: 0 <= i < |values| ==> low <= values[i] <= high && parts[i] == From(values[i], 1)
    ensures PartsValues(parts, low, high) == values
  {
    if values != [] {
      SingleValues(values[1..], parts[1..], low, high);
    }
  }

  /** A rendered list that starts below zero is refused: its first part is read as a range without a start. */
  lemma NegativeIsRefused(values: seq<int>)
    requires |values| > 0 && values[0] < 0
    ensures FieldValues(Join(Texts(values), ","), 0, 7).None?
  {
    hide Split, Join, ReadParts;
    var texts := Texts(values);
    NoCommas(values);
    SplitJoin(texts, ',');
    var t := texts[0];
    assert t == "-" + NatText(-values[0]);
    assert '/' !in t;
    assert IndexOf(t, '/') == |t| && t[..|t|] == t;
    assert t[0] == '-' && IndexOf(t, '-') == 0;
    assert t[..0] == "" && Atoi("").None?;
    assert ReadPart(t, 0, 7).None?;
    RefusedPart(texts, 0, 0, 7);
  }

  lemma WeekdayValues(expression: string)
    requires ScheduleOf(expression).Some?
    ensures |Fields(expression)| == 5
    ensures var parts := FieldParts(Fields(expression)[4], 0, 7);
            parts.Some? && ScheduleOf(expression).value.daysOfWeek == FoldSunday(PartsValues(parts.value, 0, 7))
  {
    hide ReadParts, PartsValues, Split, Fields, FoldSunday;
  }

  lemma WeekdaysOf(expression: string)
    requires ScheduleOf(expression).Some?
    ensures var s := ScheduleOf(expression).value;
            && |s.daysOfWeek| > 0
            && (WeekdayExact(expression) ==> forall d :: d in s.daysOfWeek ==> 0 <= d <= 6)
            && (!WeekdayExact(expression) ==> exists d :: d in s.daysOfWeek && d < 0)
  {
    hide ScheduleOf, FieldParts, PartsValues, Fields;
    WeekdayValues(expression);
    var parts := FieldParts(Fields(expression)[4], 0, 7).value;
    var days := PartsValues(parts, 0, 7);
    var folded := ScheduleOf(expression).value.daysOfWeek;
    FieldMeansUnion(parts, 0, 7);
    ParsedSchedules(expression);
    if WeekdayExact(expression) {
      forall i | 0 <= i < |folded| ensures 0 <= folded[i] <= 6 {
        assert days[i] in Elements(days);
      }
      assert forall d :: d in folded ==> 0 <= d <= 6;
    } else {
      assert exists p :: p in parts && !Exact(p, 0);
      var x :| x in days && x < 0;
      var i :| 0 <= i < |days| && days[i] == x;
      assert folded[i] == x && folded[i] in folded;
    }
  }

  /** Reading five words back gives the same five fields. */
  lemma ScheduleOfWords(f: seq<string>)
    requires |f| == 5 && forall w :: w in f ==> Word(w)
    ensures Fields(Join(f, " ")) == f
    ensures ScheduleOf(Join(f, " ")) ==
      var minutes, hours := FieldValues(f[0], 0, 59), FieldValues(f[1], 0, 23);
      var daysOfMonth, months := FieldValues(f[2], 1, 31), FieldValues(f[3], 1, 12);
      var daysOfWeek := FieldValues(f[4], 0, 7);
      if minutes.None? || hours.None? || daysOfMonth.None? || months.None? || daysOfWeek.None? then None
      else Some(Schedule(minutes.value, hours.value, daysOfMonth.value, months.value,
                         FoldSunday(daysOfWeek.value), f[2] != "*", f[4] != "*"))
  {
    hide Fields, Join, FieldValues;
    FieldsJoin(f);
  }

  /** The words of the canonical form. */
  function CanonicalWords(expression: string): (f: seq<string>)
    requires ScheduleOf(expression).Some?
    ensures |f| == 5
  {
    var f := Fields(expression);
    if f[4] == "*" then f else f[4 := Rendered(ScheduleOf(expression).value.daysOfWeek)]
  }

  lemma CanonicalWordsAreWords(expression: string)
    requires ScheduleOf(expression).Some?
    ensures forall w :: w in CanonicalWords(expression) ==> Word(w)
    ensures CanonicalWords(expression)[4] == "*" <==> Fields(expression)[4] == "*"
  {
    hide FieldValues, Fields, Tidy;
    WeekdaysOf(expression);
    var days := ScheduleOf(expression).value.daysOfWeek;
    TidyMeans(days);
    assert days[0] in Elements(Tidy(days));
    NumbersAreAWord(Texts(Tidy(days)));
    var f, g := Fields(expression), CanonicalWords(expression);
    forall w | w in g ensures Word(w) {
      var i :| 0 <= i < |g| && g[i] == w;
      assert g[i] == f[i] || i == 4;
    }
  }

  /** The canonical form of an accepted expression is itself accepted exactly when no part of the weekday field
      wraps around 64 bits. It then fires at the same minutes, spells its weekdays as "*" or as strictly
      increasing numbers from 0 to 6, and is its own canonical form. */
  lemma CanonicalMeansTheSame(expression: string)
    requires ScheduleOf(expression).Some?
    ensures CanonicalOf(expression).Some?
    ensures var c := CanonicalOf(expression).value;
            && (ScheduleOf(c).Some? <==> WeekdayExact(expression))
            && (WeekdayExact(expression) ==>
                  && (forall k :: DueNow(c, k) <==> DueNow(expression, k))
                  && CanonicalOf(c) == Some(c)
                  && var field := Fields(c)[4];
                     field == "*" || exists days :: Ascending(days) && field == Join(Texts(days), ",")
                                                 && forall d :: d in days ==> 0 <= d <= 6)
  {
    hide ScheduleOf, Fields, Rendered, Join, DueNow, WeekdayExact;
    WeekdayValues(expression);
    if Fields(expression)[4] == "*" {
      CanonicalStar(expression);
    } else if WeekdayExact(expression) {
      CanonicalExact(expression);
    } else {
      CanonicalWraps(expression);
    }
  }

  lemma CanonicalStar(expression: string)
    requires ScheduleOf(expression).Some? && Fields(expression)[4] == "*"
    ensures WeekdayExact(expression)
    ensures var c := CanonicalOf(expression).value;
            && ScheduleOf(c) == ScheduleOf(expression) && Fields(c) == Fields(expression)
            && CanonicalOf(c) == Some(c)
            && forall k :: DueNow(c, k) <==> DueNow(expression, k)
  {
    hide Matches, FieldValues, Fields, Join;
    StarIsExact(expression);
    ScheduleOfWords(Fields(expression));
  }

  lemma CanonicalWraps(expression: string)
    requires ScheduleOf(expression).Some? && Fields(expression)[4] != "*" && !WeekdayExact(expression)
    ensures ScheduleOf(CanonicalOf(expression).value).None?
  {
    hide FieldValues, Fields, Tidy, Join, WeekdayExact;
    CanonicalWordsAreWords(expression);
    ScheduleOfWords(CanonicalWords(expression));
    WeekdaysOf(expression);
    var given := ScheduleOf(expression).value.daysOfWeek;
    var days := Tidy(given);
    TidyMeans(given);
    var d :| d in given && d < 0;
    assert d in Elements(days);
    var i :| 0 <= i < |days| && days[i] == d;
    NegativeIsRefused(days);
  }

  /** The weekdays of an expression without wrap-around, tidied, are what its canonical form reads back as. */
  lemma TidyReadsBack(expression: string)
    requires ScheduleOf(expression).Some? && WeekdayExact(expression)
    ensures var days := Tidy(ScheduleOf(expression).value.daysOfWeek);
            && Ascending(days) && (forall d :: d in days ==> 0 <= d <= 6)
            && FieldValues(Join(Texts(days), ","), 0, 7) == Some(days)
            && FoldSunday(days) == days && Tidy(days) == days
            && Elements(days) == Elements(ScheduleOf(expression).value.daysOfWeek)
  {
    hide ScheduleOf, FieldValues, Tidy, Join, WeekdayExact;
    var given := ScheduleOf(expression).value.daysOfWeek;
    var days := Tidy(given);
    WeekdaysOf(expression);
    TidyMeans(given);
    assert given[0] in Elements(days);
    forall d | d in days ensures 0 <= d <= 6 { assert d in Elements(days); }
    RenderedReadsBack(days);
    assert forall i :: 0 <= i < |days| ==> days[i] in days && SundayAsZero(days[i]) == days[i];
    assert FoldSunday(days) == days;
    TidyMeans(days);
    AscendingUnique(Tidy(days), days);
  }

  lemma CanonicalSchedule(expression: string)
    requires ScheduleOf(expression).Some? && Fields(expression)[4] != "*" && WeekdayExact(expression)
    ensures CanonicalOf(expression).Some?
    ensures var c, s := CanonicalOf(expression).value, ScheduleOf(expression).value;
            && c == Join(Fields(c), " ") && |Fields(c)| == 5 && Fields(c)[4] == Rendered(s.daysOfWeek)
            && ScheduleOf(c) == Some(s.(daysOfWeek := Tidy(s.daysOfWeek)))
  {
    hide FieldValues, Fields, Tidy, Join, WeekdayExact;
    TidyReadsBack(expression);
    CanonicalWordsAreWords(expression);
    ScheduleOfWords(CanonicalWords(expression));
  }

  lemma CanonicalExact(expression: string)
    requires ScheduleOf(expression).Some? && Fields(expression)[4] != "*" && WeekdayExact(expression)
    ensures var c, days := CanonicalOf(expression).value, Tidy(ScheduleOf(expression).value.daysOfWeek);
            && ScheduleOf(c).Some?
            && (forall k :: DueNow(c, k) <==> DueNow(expression, k))
            && CanonicalOf(c) == Some(c)
            && Ascending(days) && Fields(c)[4] == Join(Texts(days), ",") && forall d :: d in days ==> 0 <= d <= 6
  {
    hide ScheduleOf, Fields, Tidy, Join, WeekdayExact, Matches, CanonicalOf;
    TidyReadsBack(expression);
    CanonicalSchedule(expression);
    var c, s := CanonicalOf(expression).value, ScheduleOf(expression).value;
    var t := ScheduleOf(c).value;
    forall k ensures Matches(t, k) <==> Matches(s, k) {
      SameWeekdays(s, t, k);
    }
    CanonicalAgain(c);
  }

  lemma CanonicalAgain(c: string)
    requires ScheduleOf(c).Some? && c == Join(Fields(c), " ")
    requires |Fields(c)| == 5 && Fields(c)[4] == Rendered(ScheduleOf(c).value.daysOfWeek)
    ensures CanonicalOf(c) == Some(c)
  {
    hide ScheduleOf, Fields, Rendered, Join;
    assert Fields(c)[4 := Fields(c)[4]] == Fields(c);
  }

  lemma StarIsExact(expression: string)
    requires ScheduleOf(expression).Some? && Fields(expression)[4] == "*"
    ensures WeekdayExact(expression)
  {
    hide ScheduleOf, Fields, FieldParts;
    LoneStar(0, 7);
  }

  lemma SameWeekdays(s: Schedule, t: Schedule, k: int)
    requires t == s.(daysOfWeek := t.daysOfWeek) && Elements(t.daysOfWeek) == Elements(s.daysOfWeek)
    ensures Matches(s, k) <==> Matches(t, k)
  {
    hide DateOf;
    var w := Weekday(k / MINUTES_PER_DAY);
    assert w in s.daysOfWeek <==> w in Elements(s.daysOfWeek);
    assert w in t.daysOfWeek <==> w in Elements(t.daysOfWeek);
  }

  /** "0 3 * * 7/9223372036854775807" is accepted, fires on Fridays as well as on the Sunday it names, and has a
      canonical form that is refused. */
  lemma SundayStepWraps()
    ensures var e := "0 3 * * 7/" + Itoa(MAX_INT);
            && ScheduleOf(e).Some? && 5 in ScheduleOf(e).value.daysOfWeek
            && CanonicalOf(e).Some? && ScheduleOf(CanonicalOf(e).value).None?
  {
    hide ScheduleOf, CanonicalOf, Itoa, Fields, Join;
    var steps := Itoa(MAX_INT);
    var e := "0 3 * * 7/" + steps;
    AtoiItoa(MAX_INT);
    ItoaDigits(MAX_INT);
    WrapParses(steps, MAX_INT);
    WrapRange();
    assert FoldSunday(RangeFrom(7, 7, MAX_INT))[2] == 5;
    CanonicalMeansTheSame(e);
    assert From(7, MAX_INT) in FieldParts(Fields(e)[4], 0, 7).value;
  }

  lemma ItoaDigits(n: nat)
    ensures Itoa(n) != "" && Digits(Itoa(n))
  {
  }

  lemma WrapRange()
    ensures |RangeFrom(7, 7, MAX_INT)| > 2 && RangeFrom(7, 7, MAX_INT)[2] == 5
  {
    var second := Add64(7, MAX_INT);
    assert Add64(second, MAX_INT) == 5;
    assert RangeFrom(7, 7, MAX_INT) == [7] + ([second] + RangeFrom(5, 7, MAX_INT));
  }

  /** How "0 3 * * 7/n" reads, for any step above 1. */
  lemma WrapParses(steps: string, n: int)
    requires steps != "" && Digits(steps) && Atoi(steps) == Some(n) && n > 1
    ensures var e, s := "0 3 * * 7/" + steps, ScheduleOf("0 3 * * 7/" + steps);
            && s.Some? && s.value.daysOfWeek == FoldSunday(RangeFrom(7, 7, n))
            && |Fields(e)| == 5 && Fields(e)[4] == "7/" + steps
            && FieldParts("7/" + steps, 0, 7) == Some([From(7, n)])
  {
    hide Fields, Join, FieldValues, RangeFrom, Atoi;
    WrapFields(steps);
    WrapWeekday(steps, n);
    ScheduleOfWords(["0", "3", "*", "*", "7/" + steps]);
    assert Value("0") == 0 && Value("3") == 3;
    PlainNumber("0", 0, 59);
    PlainNumber("3", 0, 23);
    StarField(1, 31);
    StarField(1, 12);
  }

  lemma WrapFields(steps: string)
    requires Digits(steps)
    ensures var words := ["0", "3", "*", "*", "7/" + steps];
            "0 3 * * 7/" + steps == Join(words, " ") && forall w :: w in words ==> Word(w)
  {
    hide Join;
    var last := "7/" + steps;
    assert forall c :: c in last ==> c == '/' || IsDigit(c);
    JoinFive("0", "3", "*", "*", last, " ");
  }

  lemma WrapWeekday(steps: string, n: int)
    requires steps != "" && Digits(steps) && Atoi(steps) == Some(n) && n > 1
    ensures FieldParts("7/" + steps, 0, 7) == Some([From(7, n)])
    ensures FieldValues("7/" + steps, 0, 7) == Some(RangeFrom(7, 7, n))
  {
    hide RangeFrom, Split, ReadPart, ReadParts;
    var text := "7/" + steps;
    assert forall c :: c in text ==> c == '/' || IsDigit(c);
    StepPart(steps, n);
    SplitJoin([text], ',');
    SameParts([text], [From(7, n)], 0, 7);
    OnePart(From(7, n), 0, 7);
  }

  lemma StepPart(steps: string, n: int)
    requires Atoi(steps) == Some(n) && n > 1
    ensures ReadPart("7/" + steps, 0, 7) == Some(From(7, n))
  {
    hide Atoi, IndexOf;
    var text := "7/" + steps;
    IndexOfAppend("7", '/', steps);
    assert "7" + ['/'] + steps == text;
    assert text[..1] == "7" && text[2..] == steps;
    assert Atoi("7") == Some(7) by { AtoiItoa(7); assert Itoa(7) == "7"; }
    assert ReadBase("7", n, 0, 7) == Some(From(7, n));
  }
}
