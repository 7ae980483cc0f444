/** The minute tick and its catch-up batches (internal/serverapp/serverapp.go, minutesAfter; internal/backup/manager.go,
    RunScheduledAt). */
module Scheduler {
  import opened Text
  import opened CronSchedule
  import opened CronNextRun

  datatype Policy = Policy(schedule: string, target: string)

  // ---------- one batch ----------

  ghost predicate DueInBatch(p: Policy, minutes: seq<int>) {
    exists i :: 0 <= i < |minutes| && DueNow(p.schedule, minutes[i])
  }

  /** The targets of the policies a batch runs, in order. */
  ghost function Attempts(policies: seq<Policy>, minutes: seq<int>): seq<string> {
    if policies == [] then []
    else
      Attempts(policies[..|policies| - 1], minutes) +
      if DueInBatch(policies[|policies| - 1], minutes) then [policies[|policies| - 1].target] else []
  }

  /** The manager, with the backups it has attempted. */
  class Manager {
    var attempted: seq<string>

    constructor ()
      ensures attempted == []
    {
      attempted := [];
    }

    /** `policies` is None when the enabled policies cannot be listed. */
    method RunScheduledAt(policies: Option<seq<Policy>>, minutes: seq<int>)
      modifies this
      ensures attempted == old(attempted) + if policies.None? then [] else Attempts(policies.value, minutes)
    {
      hide DueNow;
      if policies.None? {
        return;
      }
      for i := 0 to |policies.value|
        invariant attempted == old(attempted) + Attempts(policies.value[..i], minutes)
      {
        var due := false;
        for j := 0 to |minutes|
          invariant due <==> exists k :: 0 <= k < j && DueNow(policies.value[i].schedule, minutes[k])
          invariant attempted == old(attempted) + Attempts(policies.value[..i], minutes)
        {
          if DueNow(policies.value[i].schedule, minutes[j]) {
            due := true;
            break;
          }
        }
        assert policies.value[..i + 1][..i] == policies.value[..i];
        if due {
          attempted := attempted + [policies.value[i].target];
        }
      }
      assert policies.value[..|policies.value|] == policies.value;
    }
  }

  /** Minutes `last + 1` to `now`, newest first. */
  function Batch(last: int, now: int): (b: seq<int>)
    requires last <= now
    ensures |b| == now - last && forall i :: 0 <= i < |b| ==> b[i] == now - i
  {
    seq(now - last, i => now - i)
  }

  /** Over a contiguous batch inside the search horizon, a policy is attempted exactly when its next run after the
      batch's start falls in the batch. A policy appears once in the attempts however many minutes it matches. */
  lemma BatchFollowsNextRun(p: Policy, last: int, now: int, r: Outcome)
    requires last < now < FiveYearsOn(last + 1)
    requires IsNextRun(p.schedule, last * NANOS_PER_MINUTE, r)
    ensures DueInBatch(p, Batch(last, now)) <==> r.At? && r.minute <= now
    ensures Attempts([p], Batch(last, now)) == if r.At? && r.minute <= now then [p.target] else []
  {
    hide FiveYearsOn, ScheduleOf, Matches;
    var b := Batch(last, now);
    assert FirstCandidate(last * NANOS_PER_MINUTE) == last + 1;
    if r.At? && r.minute <= now {
      assert b[now - r.minute] == r.minute;
    }
    assert [p][..0] == [] && [p][0] == p;
    assert Attempts([], b) == [];
  }

  // ---------- minutesAfter ----------

  const CATCH_UP_LIMIT := 5

  function Earliest(last: int, now: int): int {
    if now <= last then now - 1 else if now - last > CATCH_UP_LIMIT then now - CATCH_UP_LIMIT else last
  }

  method MinutesAfter(last: int, now: int) returns (minutes: seq<int>)
    ensures minutes == Batch(Earliest(last, now), now)
  {
    if now <= last {
      return [now];
    }
    minutes := [];
    var at := now;
    while at > last && |minutes| < CATCH_UP_LIMIT
      invariant at == now - |minutes| && at >= last && |minutes| <= CATCH_UP_LIMIT
      invariant forall i :: 0 <= i < |minutes| ==> minutes[i] == now - i
      decreases at - last
    {
      minutes := minutes + [at];
      at := at - 1;
    }
  }

  // ---------- a run of ticks ----------

  /** How often minute `m` is evaluated by ticks at the given minutes, after a tick that evaluated minute `last`. */
  ghost function Evaluations(last: int, ticks: seq<int>, m: int): nat
    decreases |ticks|
  {
    if ticks == [] then 0
    else (if m in Batch(Earliest(last, ticks[0]), ticks[0]) then 1 else 0) + Evaluations(ticks[0], ticks[1..], m)
  }

  predicate ClockAdvances(last: int, ticks: seq<int>)
    decreases |ticks|
  {
    ticks == [] || (last <= ticks[0] && ClockAdvances(ticks[0], ticks[1..]))
  }

  /** Each tick comes in a later minute than the one before it, by no more than five. */
  predicate Steady(last: int, ticks: seq<int>)
    decreases |ticks|
  {
    ticks == [] || (last < ticks[0] <= last + 5 && Steady(ticks[0], ticks[1..]))
  }

  function Final(last: int, ticks: seq<int>): int { if ticks == [] then last else ticks[|ticks| - 1] }

  ghost predicate EachOnce(last: int, ticks: seq<int>) {
    && Evaluations(last, ticks, last) == 0
    && forall m :: last < m <= Final(last, ticks) ==> Evaluations(last, ticks, m) == 1
  }

  lemma InBatch(last: int, now: int, m: int)
    requires last <= now
    ensures m in Batch(last, now) <==> last < m <= now
  {
    if last < m <= now {
      assert Batch(last, now)[now - m] == m;
    }
  }

  lemma {:induction false} NothingBefore(last: int, ticks: seq<int>, m: int)
    requires ClockAdvances(last, ticks) && m < last
    ensures Evaluations(last, ticks, m) == 0
    decreases |ticks|
  {
    if ticks != [] {
      InBatch(Earliest(last, ticks[0]), ticks[0], m);
      NothingBefore(ticks[0], ticks[1..], m);
    }
  }

  lemma {:induction false} FinalGrows(last: int, ticks: seq<int>)
    requires ClockAdvances(last, ticks)
    ensures last <= Final(last, ticks)
    ensures ticks != [] ==> Final(last, ticks) == Final(ticks[0], ticks[1..])
    decreases |ticks|
  {
    if ticks != [] {
      FinalGrows(ticks[0], ticks[1..]);
    }
  }

  /** On a clock that does not go back, every minute after the start up to the last tick is evaluated exactly once,
      and minute `last` not again, if and only if the ticks are steady: a longer silence loses minutes, and two
      ticks in one minute run its policies twice. */
  lemma {:induction false} EveryMinuteOnce(last: int, ticks: seq<int>)
    requires ClockAdvances(last, ticks)
    ensures EachOnce(last, ticks) <==> Steady(last, ticks)
    decreases |ticks|
  {
    if ticks != [] {
      var now, rest := ticks[0], ticks[1..];
      var from := Earliest(last, now);
      FinalGrows(last, ticks);
      FinalGrows(now, rest);
      EveryMinuteOnce(now, rest);
      forall m ensures m in Batch(from, now) <==> from < m <= now { InBatch(from, now, m); }
      forall m | m < now ensures Evaluations(now, rest, m) == 0 { NothingBefore(now, rest, m); }
      if now == last {
        assert last in Batch(from, now);
      } else if now > last + CATCH_UP_LIMIT {
        assert Evaluations(last, ticks, last + 1) == 0;
      } else {
        assert Evaluations(last, ticks, last) == 0;
        assert forall m :: last < m < now ==> Evaluations(last, ticks, m) == 1;
        assert Evaluations(last, ticks, now) == 1 + Evaluations(now, rest, now);
        assert forall m :: now < m ==> Evaluations(last, ticks, m) == Evaluations(now, rest, m);
        if EachOnce(last, ticks) {
          forall m | now < m <= Final(now, rest) ensures Evaluations(now, rest, m) == 1 {
            assert Evaluations(last, ticks, m) == 1;
          }
          assert EachOnce(now, rest);
        }
        if EachOnce(now, rest) {
          forall m | last < m <= Final(last, ticks) ensures Evaluations(last, ticks, m) == 1 {
            assert m > now ==> Evaluations(now, rest, m) == 1;
          }
          assert EachOnce(last, ticks);
        }
      }
    }
  }

  /** Policies are attempted one after another, each by itself. */
  lemma {:induction false} AttemptsAppend(a: seq<Policy>, b: seq<Policy>, minutes: seq<int>)
    ensures Attempts(a + b, minutes) == Attempts(a, minutes) + Attempts(b, minutes)
  {
    hide DueInBatch;
    if b == [] {
      assert a + b == a;
    } else {
      assert (a + b)[..|a + b| - 1] == a + b[..|b| - 1];
      AttemptsAppend(a, b[..|b| - 1], minutes);
    }
  }
}
