/** What the text of a schedule means, field by field and day by day (internal/cron/cron.go). */
module CronMeaning {
  import opened Text
  import opened Calendar
  import opened CronSchedule
  import opened CronNextRun
  import opened CronCanonical

  // ---------- weekdays ----------

  /** 1 January 1970 was a Thursday, and the weekdays go round from there. */
  lemma WeekdaysGoRound(day: int)
    ensures Weekday(DayNumber(1970, 1, 1)) == 4
    ensures Weekday(day + 1) == (Weekday(day) + 1) % 7
  {
  }

  // ---------- the parts of a field ----------

  /** A number without a sign, in 64 bits. */
  predicate Number(text: string) { text != "" && Digits(text) && Value(text) <= MAX_INT }

  lemma ReadsNumber(text: string)
    requires Number(text)
    ensures Atoi(text) == Some(Value(text)) && '/' !in text && '-' !in text && ',' !in text
  {
    assert forall c :: c in text ==> IsDigit(c);
  }

  /** The step after a slash, which must be a number of at least one. */
  lemma SteppedPart(base: string, step: string, low: int, high: int)
    requires '/' !in base && Number(step)
    ensures ReadPart(base + "/" + step, low, high) ==
              if Value(step) < 1 then None else ReadBase(base, Value(step), low, high)
  {
    hide IndexOf, ReadBase, Value, Atoi;
    ReadsNumber(step);
    IndexOfAppend(base, '/', step);
    var text := base + "/" + step;
    assert text == base + ['/'] + step;
    assert text[..|base|] == base && text[|base| + 1..] == step;
  }

  lemma PlainPart(base: string, low: int, high: int)
    requires '/' !in base
    ensures ReadPart(base, low, high) == ReadBase(base, 1, low, high)
  {
    hide ReadBase;
    assert base[..|base|] == base;
  }

  /** `a-b` is accepted exactly when it runs upwards inside the field's limits, and is that span. */
  lemma ReadsSpan(a: string, b: string, step: int, low: int, high: int)
    requires Number(a) && Number(b) && 1 <= step <= MAX_INT
    ensures ReadBase(a + "-" + b, step, low, high) ==
              if low <= Value(a) <= Value(b) <= high then Some(Span(Value(a), Value(b), step)) else None
    ensures '/' !in a + "-" + b && ',' !in a + "-" + b
  {
    hide IndexOf, Value, Atoi;
    ReadsNumber(a);
    ReadsNumber(b);
    var text := a + "-" + b;
    IndexOfAppend(a, '-', b);
    assert text == a + ['-'] + b;
    assert text[..|a|] == a && text[|a| + 1..] == b;
    assert text[|a|] == '-' && '-' in text && text != "*";
    assert forall c :: c in text <==> c in a || c == '-' || c in b;
  }

  /** A number is accepted exactly when it is inside the limits. */
  lemma ReadsStart(a: string, step: int, low: int, high: int)
    requires Number(a) && 1 <= step <= MAX_INT
    ensures ReadBase(a, step, low, high) ==
              if low <= Value(a) <= high then Some(From(Value(a), step)) else None
  {
    hide Value, Atoi;
    ReadsNumber(a);
    assert IsDigit(a[0]) && a != "*";
  }

  // ---------- whole fields ----------

  lemma FieldOfPart(text: string, p: Part, low: int, high: int)
    requires Limits(low, high) && ',' !in text && ReadPart(text, low, high) == Some(p)
    ensures FieldValues(text, low, high) == Some(PartValues(p, low, high))
  {
    hide ReadPart, ReadParts, PartValues;
    assert Split(text, ',') == [text] by { SplitJoin([text], ','); }
    SameParts([text], [p], low, high);
    OnePart(p, low, high);
  }

  /** A field `a-b/s` holds every s-th value from a to b. */
  lemma SpanField(a: string, b: string, step: string, low: int, high: int)
    requires Limits(low, high) && Number(a) && Number(b) && Number(step)
    requires low <= Value(a) <= Value(b) <= high && 1 <= Value(step) && Value(a) + Value(step) <= MAX_INT
    ensures var r := FieldValues(a + "-" + b + "/" + step, low, high);
            r.Some? && Elements(r.value) == Stepped(Value(a), Value(b), Value(step))
  {
    hide Value, ReadPart, ReadBase, FieldValues, Elements, Stepped;
    var base, p := a + "-" + b, Span(Value(a), Value(b), Value(step));
    ReadsSpan(a, b, Value(step), low, high);
    SteppedPart(base, step, low, high);
    NoComma(base, step);
    FieldOfPart(base + "/" + step, p, low, high);
    PartMeans(p, low, high);
  }

  /** A field `*` with a step holds every s-th value of the field. */
  lemma StarStepField(step: string, low: int, high: int)
    requires Limits(low, high) && Number(step) && 1 <= Value(step) && low + Value(step) <= MAX_INT
    ensures var r := FieldValues("*/" + step, low, high);
            r.Some? && Elements(r.value) == Stepped(low, high, Value(step))
  {
    hide Value, ReadPart, FieldValues, Elements, Stepped;
    var p := Every(Value(step));
    SteppedPart("*", step, low, high);
    assert "*" + "/" + step == "*/" + step;
    NoComma("*", step);
    FieldOfPart("*/" + step, p, low, high);
    PartMeans(p, low, high);
  }

  /** A field `a/s`, with s above one, holds every s-th value from a to the end of the field. */
  lemma StartStepField(a: string, step: string, low: int, high: int)
    requires Limits(low, high) && Number(a) && Number(step)
    requires low <= Value(a) <= high && 1 < Value(step) && Value(a) + Value(step) <= MAX_INT
    ensures var r := FieldValues(a + "/" + step, low, high);
            r.Some? && Elements(r.value) == Stepped(Value(a), high, Value(step))
  {
    hide Value, ReadPart, ReadBase, FieldValues, Elements, Stepped;
    var p := From(Value(a), Value(step));
    ReadsNumber(a);
    ReadsStart(a, Value(step), low, high);
    SteppedPart(a, step, low, high);
    NoComma(a, step);
    FieldOfPart(a + "/" + step, p, low, high);
    PartMeans(p, low, high);
  }

  lemma NoComma(base: string, step: string)
    requires ',' !in base && Number(step)
    ensures ',' !in base + "/" + step
  {
    ReadsNumber(step);
    assert forall c :: c in base + "/" + step <==> c in base || c == '/' || c in step;
  }

  // ---------- when a schedule is due ----------

  predicate Words(f: seq<string>) { |f| == 5 && forall w :: w in f ==> Word(w) }

  predicate Allows(field: string, low: int, high: int, v: int)
    requires Limits(low, high)
  {
    var r := FieldValues(field, low, high);
    r.Some? && v in r.value
  }

  /** Sunday is 0 or 7. */
  ghost predicate AllowsWeekday(field: string, w: int) {
    Allows(field, 0, 7, w) || (w == 0 && Allows(field, 0, 7, 7))
  }

  /** The day fields: a star says nothing; a field that says something must hold, and of two that do either is enough.
      */
  ghost predicate AllowsDay(f: seq<string>, d: int, w: int)
    requires |f| == 5
  {
    if f[2] == "*" && f[4] == "*" then true
    else (f[2] != "*" && Allows(f[2], 1, 31, d)) || (f[4] != "*" && AllowsWeekday(f[4], w))
  }

  lemma WeekdayAllowed(field: string, w: int)
    requires FieldValues(field, 0, 7).Some? && 0 <= w <= 6
    ensures w in FoldSunday(FieldValues(field, 0, 7).value) <==> AllowsWeekday(field, w)
  {
    hide FieldValues;
    var given := FieldValues(field, 0, 7).value;
    var folded := FoldSunday(given);
    if w in folded {
      var i :| 0 <= i < |folded| && folded[i] == w;
      assert given[i] in given;
    }
    if AllowsWeekday(field, w) {
      var v := if w in given then w else 7;
      var i :| 0 <= i < |given| && given[i] == v;
      assert folded[i] == w;
    }
  }

  /** For every date and time: an accepted expression is due exactly when its minute, hour and month fields allow them
      and its day fields allow the day. */
  lemma DueByFields(f: seq<string>, date: Date, hour: int, minute: int)
    requires Words(f) && ScheduleOf(Join(f, " ")).Some?
    requires ValidDate(date) && 0 <= hour <= 23 && 0 <= minute <= 59
    ensures var day := DayNumber(date.year, date.month, date.day);
            DueNow(Join(f, " "), MinuteAt(day, hour * 60 + minute)) <==>
              && Allows(f[0], 0, 59, minute) && Allows(f[1], 0, 23, hour) && Allows(f[3], 1, 12, date.month)
              && AllowsDay(f, date.day, Weekday(day))
  {
    hide Join, FieldValues, DateOf, DayNumber;
    ScheduleOfWords(f);
    DayNumberRoundTrip(date);
    var day := DayNumber(date.year, date.month, date.day);
    SplitMinute(day, hour, minute);
    WeekdayAllowed(f[4], Weekday(day));
  }

  lemma StillWords(f: seq<string>, i: nat)
    requires Words(f) && i < 5
    ensures Words(f[i := "*"])
  {
    assert Word("*");
    forall w | w in f[i := "*"] ensures Word(w) {
      assert w == "*" || w in f;
    }
  }

  /** With both day fields restricted, a schedule is due exactly when it would be due with either of them alone. */
  lemma EitherDay(f: seq<string>, k: int)
    requires Words(f) && ScheduleOf(Join(f, " ")).Some? && f[2] != "*" && f[4] != "*"
    ensures DueNow(Join(f, " "), k) <==>
            DueNow(Join(f[4 := "*"], " "), k) || DueNow(Join(f[2 := "*"], " "), k)
  {
    hide Join, FieldValues, DateOf;
    StillWords(f, 4);
    StillWords(f, 2);
    ScheduleOfWords(f);
    ScheduleOfWords(f[4 := "*"]);
    ScheduleOfWords(f[2 := "*"]);
    StarField(0, 7);
    StarField(1, 31);
  }

  /** An expression is accepted exactly when it has five fields and each reads within its limits. */
  lemma AcceptedExactly(expression: string)
    ensures var f := Fields(expression);
            ScheduleOf(expression).Some? <==>
              && |f| == 5 && FieldValues(f[0], 0, 59).Some? && FieldValues(f[1], 0, 23).Some?
              && FieldValues(f[2], 1, 31).Some? && FieldValues(f[3], 1, 12).Some? && FieldValues(f[4], 0, 7).Some?
  {
    hide Fields, FieldValues;
  }

  /** The canonical form keeps every field but the weekdays as it was written, and a star there too. */
  lemma CanonicalKeepsFields(expression: string)
    requires ScheduleOf(expression).Some?
    ensures var f, c := Fields(expression), Fields(CanonicalOf(expression).value);
            && |f| == 5 && |c| == 5 && c[..4] == f[..4] && (f[4] == "*" ==> c[4] == "*")
  {
    hide Fields, Join, FieldValues;
    CanonicalWordsAreWords(expression);
    ScheduleOfWords(CanonicalWords(expression));
  }
}
