/** Parsing and matching five-field schedules (internal/cron/cron.go). */
module CronSchedule {
  import opened Text
  import opened Calendar

  /** The values each field allows, and whether each day field was anything but "*". */
  datatype Schedule = Schedule(
    minutes: seq<int>, hours: seq<int>, daysOfMonth: seq<int>, months: seq<int>, daysOfWeek: seq<int>,
    dayOfMonthRestricted: bool, dayOfWeekRestricted: bool)

  // ---------- ranges ----------

  /** 64-bit addition of a positive step. */
  function Add64(v: int, step: int): (r: int)
    requires MIN_INT <= v <= MAX_INT && 1 <= step <= MAX_INT
    ensures MIN_INT <= r <= MAX_INT
  {
    if v + step > MAX_INT then v + step - 0x1_0000_0000_0000_0000 else v + step
  }

  predicate FieldBound(high: int) { 0 <= high <= 59 }

  /** How many more turns the range loop can take from `v`. A step so large that it wraps brings the counter
      back below zero and then to a value at least two smaller than before. */
  function TurnsLeft(v: int, high: int, step: int): nat
    requires MIN_INT <= v <= MAX_INT && FieldBound(high) && 1 <= step <= MAX_INT
  {
    if v > high then 0
    else if high + step <= MAX_INT then high - v + 1
    else if v >= 0 then 2 * v + 4
    else if v + step > high then 1
    else if v + step < 0 then 2
    else 2 * (v + step) + 5
  }

  /** What `for v := low; v <= high; v += step` collects from `v` on, 64-bit wrap-around included. */
  function RangeFrom(v: int, high: int, step: int): (out: seq<int>)
    requires MIN_INT <= v <= MAX_INT && FieldBound(high) && 1 <= step <= MAX_INT
    ensures v <= high ==> |out| > 0 && out[0] == v
    decreases TurnsLeft(v, high, step)
  {
    if v > high then [] else [v] + RangeFrom(Add64(v, step), high, step)
  }

  method RangeOf(low: int, high: int, step: int) returns (out: seq<int>)
    requires MIN_INT <= low <= MAX_INT && FieldBound(high) && 1 <= step <= MAX_INT
    ensures out == RangeFrom(low, high, step)
  {
    out := [];
    var v := low;
    while v <= high
      invariant MIN_INT <= v <= MAX_INT
      invariant out + RangeFrom(v, high, step) == RangeFrom(low, high, step)
      decreases TurnsLeft(v, high, step)
    {
      out := out + [v];
      v := Add64(v, step);
    }
  }

  /** `x` is one of low, low + step, low + 2 * step, ... */
  predicate OnStep(x: int, low: int, step: int)
    requires step >= 1
    ensures OnStep(x, low, step) ==> x >= low
    decreases x - low
  {
    x == low || (x > low && OnStep(x - step, low, step))
  }

  /** What a stepped range means. */
  ghost function Stepped(low: int, high: int, step: int): set<int>
    requires step >= 1
  {
    set x | low <= x <= high && OnStep(x, low, step)
  }

  ghost function Elements(s: seq<int>): set<int> { set x | x in s }

  /** The range loop collects exactly the stepped range if and only if its first addition stays in 64 bits. */
  lemma RangeMeansStepped(low: int, high: int, step: int)
    requires 0 <= low <= high && FieldBound(high) && 1 <= step <= MAX_INT
    ensures Elements(RangeFrom(low, high, step)) == Stepped(low, high, step) <==> low + step <= MAX_INT
  {
    if low + step <= MAX_INT {
      StraightRange(low, high, step, low);
    } else {
      var wrapped := Add64(low, step);
      var rest := RangeFrom(wrapped, high, step);
      assert rest[0] == wrapped && wrapped < low;
      assert RangeFrom(low, high, step) == [low] + rest;
      assert ([low] + rest)[1] == wrapped;
      assert wrapped in Elements(RangeFrom(low, high, step)) && wrapped !in Stepped(low, high, step);
    }
  }

  lemma {:induction false} StraightRange(low: int, high: int, step: int, v: int)
    requires 0 <= low <= v && FieldBound(high) && 1 <= step <= MAX_INT && low + step <= MAX_INT
    requires v <= MAX_INT && OnStep(v, low, step)
    ensures forall x :: x in RangeFrom(v, high, step) <==> v <= x <= high && OnStep(x, low, step)
    decreases TurnsLeft(v, high, step)
  {
    if v <= high {
      if low < v {
        StepsApart(low, step, low, v);
      }
      StraightRange(low, high, step, v + step);
      forall x | v < x <= high && OnStep(x, low, step) ensures v + step <= x {
        StepsApart(low, step, v, x);
      }
    }
  }

  /** Two values of a stepped range are at least one step apart. */
  lemma {:induction false} StepsApart(low: int, step: int, v: int, x: int)
    requires step >= 1 && low <= v < x && OnStep(v, low, step) && OnStep(x, low, step)
    ensures v + step <= x
    decreases x - low + v - low
  {
    if x - step > v {
      StepsApart(low, step, v, x - step);
    } else if x - step < v {
      StepsApart(low, step, x - step, v);
    }
  }

  // ---------- one field ----------

  /** What one comma-separated part of a field says, before it is turned into values. */
  datatype Part =
    | Every(step: int)
    | Span(first: int, last: int, step: int)
    | From(first: int, step: int)

  /** The syntax of one part, checked against its field's limits. */
  function ReadPart(text: string, low: int, high: int): (r: Option<Part>)
    ensures r.Some? ==> 1 <= r.value.step <= MAX_INT
    ensures r.Some? && r.value.Span? ==> low <= r.value.first <= r.value.last <= high
    ensures r.Some? && r.value.From? ==> low <= r.value.first <= high
  {
    var slash := IndexOf(text, '/');
    var step := if slash < |text| then Atoi(text[slash + 1..]) else Some(1);
    if step.None? || step.value < 1 then None
    else ReadBase(text[..slash], step.value, low, high)
  }

  function ReadBase(base: string, step: int, low: int, high: int): (r: Option<Part>)
    requires 1 <= step <= MAX_INT
    ensures r.Some? ==> r.value.step == step
    ensures r.Some? && r.value.Span? ==> low <= r.value.first <= r.value.last <= high
    ensures r.Some? && r.value.From? ==> low <= r.value.first <= high
  {
    if base == "*" then Some(Every(step))
    else if '-' in base then
      var dash := IndexOf(base, '-');
      var first, last := Atoi(base[..dash]), Atoi(base[dash + 1..]);
      if first.None? || last.None? then None
      else if first.value < low || last.value > high || first.value > last.value then None
      else Some(Span(first.value, last.value, step))
    else
      var first := Atoi(base);
      if first.None? || first.value < low || first.value > high then None
      else Some(From(first.value, step))
  }

  predicate Limits(low: int, high: int) { 0 <= low <= high <= 59 }

  predicate PartFits(p: Part, low: int, high: int) {
    && 1 <= p.step <= MAX_INT
    && (p.Span? ==> low <= p.first <= p.last <= high)
    && (p.From? ==> low <= p.first <= high)
  }

  function PartValues(p: Part, low: int, high: int): (out: seq<int>)
    requires Limits(low, high) && PartFits(p, low, high)
    ensures |out| > 0 && low <= out[0] <= high
  {
    match p
    case Every(step) => RangeFrom(low, high, step)
    case Span(first, last, step) => RangeFrom(first, last, step)
    case From(first, step) => if step > 1 then RangeFrom(first, high, step) else [first]
  }

  /** What a part denotes. `a/1` is the value `a` alone, while `a/s` runs to the end of the field. */
  ghost function Denotes(p: Part, low: int, high: int): set<int>
    requires p.step >= 1
  {
    match p
    case Every(step) => Stepped(low, high, step)
    case Span(first, last, step) => Stepped(first, last, step)
    case From(first, step) => if step > 1 then Stepped(first, high, step) else {first}
  }

  /** A part whose range does not wrap around 64 bits. */
  predicate Exact(p: Part, low: int) {
    match p
    case Every(step) => low + step <= MAX_INT
    case Span(first, _, step) => first + step <= MAX_INT
    case From(first, step) => step > 1 ==> first + step <= MAX_INT
  }

  function ReadParts(texts: seq<string>, low: int, high: int): (r: Option<seq<Part>>)
    ensures r.Some? ==> |r.value| == |texts| && forall p :: p in r.value ==> PartFits(p, low, high)
    ensures r.Some? ==> forall i :: 0 <= i < |texts| ==> ReadPart(texts[i], low, high) == Some(r.value[i])
    ensures r.None? ==> exists i :: 0 <= i < |texts| && ReadPart(texts[i], low, high).None?
  {
    if texts == [] then Some([])
    else
      var p := ReadPart(texts[0], low, high);
      if p.None? then None
      else
        var rest := ReadParts(texts[1..], low, high);
        if rest.None? then
          var i :| 0 <= i < |texts[1..]| && ReadPart(texts[1..][i], low, high).None?;
          assert ReadPart(texts[i + 1], low, high).None?;
          None
        else Some([p.value] + rest.value)
  }

  /** The parts of a field; a lone "*" is one of them. */
  function FieldParts(field: string, low: int, high: int): (r: Option<seq<Part>>)
    ensures r.Some? ==> forall p :: p in r.value ==> PartFits(p, low, high)
  {
    ReadParts(Split(field, ','), low, high)
  }

  function PartsValues(parts: seq<Part>, low: int, high: int): (out: seq<int>)
    requires Limits(low, high) && forall p :: p in parts ==> PartFits(p, low, high)
    ensures parts != [] ==> |out| > 0 && low <= out[0] <= high
  {
    if parts == [] then [] else PartValues(parts[0], low, high) + PartsValues(parts[1..], low, high)
  }

  function TextsValues(texts: seq<string>, low: int, high: int): Option<seq<int>>
    requires Limits(low, high)
  {
    var parts := ReadParts(texts, low, high);
    if parts.None? then None else Some(PartsValues(parts.value, low, high))
  }

  function FieldValues(field: string, low: int, high: int): (r: Option<seq<int>>)
    requires Limits(low, high)
    ensures r.Some? ==> |r.value| > 0 && low <= r.value[0] <= high
  {
    TextsValues(Split(field, ','), low, high)
  }

  lemma LoneStar(low: int, high: int)
    requires Limits(low, high)
    ensures FieldParts("*", low, high) == Some([Every(1)])
  {
    assert Split("*", ',') == ["*"];
    assert IndexOf("*", '/') == 1;
    assert "*"[..1] == "*";
    assert ReadPart("*", low, high) == Some(Every(1));
    SameParts(["*"], [Every(1)], low, high);
  }

  lemma OnePart(p: Part, low: int, high: int)
    requires Limits(low, high) && PartFits(p, low, high)
    ensures PartsValues([p], low, high) == PartValues(p, low, high)
  {
    assert [p][1..] == [];
  }

  lemma SameParts(texts: seq<string>, parts: seq<Part>, low: int, high: int)
    requires |parts| == |texts|
    requires forall i :: 0 <= i < |texts| ==> ReadPart(texts[i], low, high) == Some(parts[i])
    ensures ReadParts(texts, low, high) == Some(parts)
  {
    var read := ReadParts(texts, low, high);
    assert read.Some?;
    assert forall i :: 0 <= i < |texts| ==> Some(read.value[i]) == ReadPart(texts[i], low, high);
    assert read.value == parts;
  }

  /** The values one part appends. */
  method ExpandPart(p: Part, low: int, high: int) returns (values: seq<int>)
    requires Limits(low, high) && PartFits(p, low, high)
    ensures values == PartValues(p, low, high)
  {
    match p
    case Every(step) =>
      values := RangeOf(low, high, step);
    case Span(first, last, step) =>
      values := RangeOf(first, last, step);
    case From(first, step) =>
      if step > 1 {
        values := RangeOf(first, high, step);
      } else {
        values := [first];
      }
  }

  lemma StarField(low: int, high: int)
    requires Limits(low, high)
    ensures FieldValues("*", low, high) == Some(RangeFrom(low, high, 1))
  {
    LoneStar(low, high);
    OnePart(Every(1), low, high);
  }

  lemma RefusedPart(texts: seq<string>, i: nat, low: int, high: int)
    requires i < |texts| && ReadPart(texts[i], low, high).None?
    ensures ReadParts(texts, low, high).None?
  {
  }

  /** parseField's loop over the comma-separated parts. */
  method ParseParts(texts: seq<string>, low: int, high: int) returns (r: Option<seq<int>>)
    requires Limits(low, high)
    ensures r == TextsValues(texts, low, high)
  {
    hide ReadPart, ReadParts, PartValues;
    var out: seq<int> := [];
    ghost var read: seq<Part> := [];
    for i := 0 to |texts|
      invariant |read| == i && forall p :: p in read ==> PartFits(p, low, high)
      invariant forall k :: 0 <= k < i ==> ReadPart(texts[k], low, high) == Some(read[k])
      invariant out == PartsValues(read, low, high)
    {
      var part := ReadPart(texts[i], low, high);
      if part.None? {
        RefusedPart(texts, i, low, high);
        return None;
      }
      var values := ExpandPart(part.value, low, high);
      PartsValuesAppend(read, part.value, low, high);
      read := read + [part.value];
      out := out + values;
    }
    SameParts(texts, read, low, high);
    return Some(out);
  }

  method ParseField(field: string, low: int, high: int) returns (r: Option<seq<int>>)
    requires Limits(low, high)
    ensures r == FieldValues(field, low, high)
  {
    if field == "*" {
      StarField(low, high);
      var all := RangeOf(low, high, 1);
      return Some(all);
    }
    r := ParseParts(Split(field, ','), low, high);
    if r.Some? && |r.value| == 0 {
      return None;
    }
  }

  lemma {:induction false} PartsValuesAppend(parts: seq<Part>, p: Part, low: int, high: int)
    requires Limits(low, high) && PartFits(p, low, high) && forall q :: q in parts ==> PartFits(q, low, high)
    ensures PartsValues(parts + [p], low, high) == PartsValues(parts, low, high) + PartValues(p, low, high)
  {
    if parts == [] {
      assert ([p])[1..] == [];
    } else {
      assert (parts + [p])[1..] == parts[1..] + [p];
      PartsValuesAppend(parts[1..], p, low, high);
    }
  }

  ghost function UnionOf(parts: seq<Part>, low: int, high: int): set<int>
    requires forall p :: p in parts ==> p.step >= 1
  {
    if parts == [] then {} else Denotes(parts[0], low, high) + UnionOf(parts[1..], low, high)
  }

  lemma PartMeans(p: Part, low: int, high: int)
    requires Limits(low, high) && PartFits(p, low, high)
    ensures Exact(p, low) ==> Elements(PartValues(p, low, high)) == Denotes(p, low, high)
    ensures !Exact(p, low) ==> exists x :: x in PartValues(p, low, high) && x < 0
    ensures forall x :: x in Denotes(p, low, high) ==> low <= x <= high
    ensures exists x :: x in Denotes(p, low, high)
  {
    var (a, b) := match p case Every(_) => (low, high) case Span(x, y, _) => (x, y) case From(x, _) => (x, high);
    assert a in Denotes(p, low, high);
    if !(p.From? && p.step == 1) {
      RangeMeansStepped(a, b, p.step);
      if a + p.step > MAX_INT {
        var rest := RangeFrom(Add64(a, p.step), b, p.step);
        assert RangeFrom(a, b, p.step) == [a] + rest;
        assert ([a] + rest)[1] == rest[0] == Add64(a, p.step) < 0;
        assert Add64(a, p.step) in PartValues(p, low, high);
      }
    }
  }

  /** An accepted field holds the union of what its parts denote, non-empty and inside its limits, if and only if
      no part wraps around 64 bits. A part that wraps brings in a value below zero. */
  lemma {:induction false} FieldMeansUnion(parts: seq<Part>, low: int, high: int)
    requires Limits(low, high) && forall p :: p in parts ==> PartFits(p, low, high)
    ensures Elements(PartsValues(parts, low, high)) == UnionOf(parts, low, high)
       <==> forall p :: p in parts ==> Exact(p, low)
    ensures (exists p :: p in parts && !Exact(p, low)) ==> exists x :: x in PartsValues(parts, low, high) && x < 0
    ensures forall x :: x in UnionOf(parts, low, high) ==> low <= x <= high
    ensures parts != [] ==> UnionOf(parts, low, high) != {}
  {
    if parts != [] {
      var p, rest := parts[0], parts[1..];
      assert parts == [p] + rest;
      PartMeans(p, low, high);
      FieldMeansUnion(rest, low, high);
      var head, tail := PartValues(p, low, high), PartsValues(rest, low, high);
      assert Elements(head + tail) == Elements(head) + Elements(tail);
      if !Exact(p, low) {
        var x :| x in head && x < 0;
        assert x in Elements(head + tail) && x !in UnionOf(parts, low, high);
      } else if exists q :: q in rest && !Exact(q, low) {
        var x :| x in tail && x < 0;
        assert x in Elements(head + tail) && x !in UnionOf(parts, low, high);
      }
    }
  }

  // ---------- a schedule ----------

  /** Sunday is accepted as both 0 and 7. */
  function SundayAsZero(d: int): int { if d == 7 then 0 else d }

  function FoldSunday(days: seq<int>): (out: seq<int>)
    ensures |out| == |days| && forall i :: 0 <= i < |out| ==> out[i] == SundayAsZero(days[i])
  {
    seq(|days|, i requires 0 <= i < |days| => SundayAsZero(days[i]))
  }

  method RewriteSunday(parsed: seq<int>) returns (days: seq<int>)
    ensures days == FoldSunday(parsed)
  {
    days := parsed;
    for i := 0 to |days|
      invariant |days| == |parsed|
      invariant forall k :: 0 <= k < i ==> days[k] == SundayAsZero(parsed[k])
      invariant forall k :: i <= k < |days| ==> days[k] == parsed[k]
    {
      if days[i] == 7 {
        days := days[i := 0];
      }
    }
  }

  function ScheduleOf(expression: string): Option<Schedule> {
    var f := Fields(expression);
    if |f| != 5 then None else
      var minutes, hours := FieldValues(f[0], 0, 59), FieldValues(f[1], 0, 23);
      var daysOfMonth, months := FieldValues(f[2], 1, 31), FieldValues(f[3], 1, 12);
      var daysOfWeek := FieldValues(f[4], 0, 7);
      if minutes.None? || hours.None? || daysOfMonth.None? || months.None? || daysOfWeek.None? then None
      else Some(Schedule(minutes.value, hours.value, daysOfMonth.value, months.value,
                         FoldSunday(daysOfWeek.value), f[2] != "*", f[4] != "*"))
  }

  method ParseSchedule(expression: string) returns (r: Option<Schedule>)
    ensures r == ScheduleOf(expression)
  {
    var fields := Fields(expression);
    if |fields| != 5 { return None; }
    var minutes := ParseField(fields[0], 0, 59);
    if minutes.None? { return None; }
    var hours := ParseField(fields[1], 0, 23);
    if hours.None? { return None; }
    var daysOfMonth := ParseField(fields[2], 1, 31);
    if daysOfMonth.None? { return None; }
    var months := ParseField(fields[3], 1, 12);
    if months.None? { return None; }
    var daysOfWeek := ParseField(fields[4], 0, 7);
    if daysOfWeek.None? { return None; }
    var days := RewriteSunday(daysOfWeek.value);
    return Some(Schedule(minutes.value, hours.value, daysOfMonth.value, months.value, days,
                         fields[2] != "*", fields[4] != "*"));
  }

  /** Whether a schedule fires on a day, by the two day fields alone. With both restricted, either is enough. */
  predicate DayMatches(s: Schedule, day: int) {
    var dayOfMonth := DateOf(day).day in s.daysOfMonth;
    var dayOfWeek := Weekday(day) in s.daysOfWeek;
    if s.dayOfMonthRestricted && s.dayOfWeekRestricted then dayOfMonth || dayOfWeek
    else if s.dayOfMonthRestricted then dayOfMonth
    else if s.dayOfWeekRestricted then dayOfWeek
    else true
  }

  predicate Matches(s: Schedule, minute: int) {
    var day, inDay := minute / MINUTES_PER_DAY, minute % MINUTES_PER_DAY;
    && inDay % 60 in s.minutes
    && inDay / 60 in s.hours
    && DateOf(day).month in s.months
    && DayMatches(s, day)
  }

  /** DueNow: an expression that does not parse is never due. */
  predicate DueNow(expression: string, minute: int) {
    var s := ScheduleOf(expression);
    s.Some? && Matches(s.value, minute)
  }
}
