/** The sign-in rate limit (internal/auth/service.go, checkLockout and recordFailure; internal/store/users.go), with the
    check and the record of an attempt as separate steps that other attempts may come between. */
module Lockout {
  import opened Text

  /** `window` is in seconds. */
  datatype Limits = Limits(window: nat, maxPerAccount: nat, maxPerAddress: nat)

  const SECOND := 1_000_000_000

  // ---------- stored times ----------

  /** The end of a time in RFC3339Nano form: the fraction without its trailing zeros, and the zone. */
  function FractionText(nanos: nat): string {
    if nanos == 0 then "Z" else "." + TrimRight(FixedDigits(nanos, 9), {'0'}) + "Z"
  }

  /** `at > since` as the database compares the stored texts. Whole seconds have a fixed width, fractions do not, so
      within one second the order of the texts is not the order of the times. */
  predicate Later(at: int, since: int) {
    if at / SECOND != since / SECOND then at / SECOND > since / SECOND
    else Less(FractionText(since % SECOND), FractionText(at % SECOND))
  }

  /** A full second later is later in text too. */
  lemma SecondLater(at: int, since: int)
    requires at >= since + SECOND
    ensures Later(at, since)
  {
    assert (since + SECOND) / SECOND == since / SECOND + 1;
    assert at / SECOND >= (since + SECOND) / SECOND by { DivGrows(since + SECOND, at); }
  }

  lemma DivGrows(a: int, b: int)
    requires a <= b
    ensures a / SECOND <= b / SECOND
  {
  }

  /** Every time inside a second reads as before the start of that second. */
  lemma FractionsReadEarlier(second: int, nanos: nat)
    requires 0 < nanos < SECOND
    ensures !Later(second * SECOND + nanos, second * SECOND)
  {
    var at, since := second * SECOND + nanos, second * SECOND;
    assert at / SECOND == second && since / SECOND == second;
    assert at % SECOND == nanos && since % SECOND == 0;
    var text := FractionText(nanos);
    assert text[0] == '.';
  }

  // ---------- attempts ----------

  datatype Attempt = Attempt(account: string, address: string)

  datatype Failure = Failure(attempt: Attempt, at: int)

  /** What a limit is counted for. */
  datatype Key = Account(account: string) | Address(address: string)

  predicate Of(a: Attempt, key: Key) {
    match key
    case Account(account) => a.account == account
    case Address(address) => a.address == address
  }

  function Max(limits: Limits, key: Key): nat {
    if key.Account? then limits.maxPerAccount else limits.maxPerAddress
  }

  /** Failures of a key that are later than a time, as the store counts them. */
  function CountLater(failures: seq<Failure>, key: Key, since: int): nat {
    if failures == [] then 0
    else
      var last := failures[|failures| - 1];
      CountLater(failures[..|failures| - 1], key, since)
        + if Of(last.attempt, key) && Later(last.at, since) then 1 else 0
  }

  /** An empty account or address is not counted at all. */
  predicate Named(key: Key) { if key.Account? then key.account != "" else key.address != "" }

  function Counted(failures: seq<Failure>, key: Key, since: int): nat {
    if Named(key) then CountLater(failures, key, since) else 0
  }

  predicate Full(limits: Limits, failures: seq<Failure>, key: Key, since: int) {
    Counted(failures, key, since) >= Max(limits, key)
  }

  /** An attempt whose account has been counted and whose address has not, and the start of the window for both. */
  datatype Asked = Asked(attempt: Attempt, since: int)

  /** The clock, the failures on record, the attempts between the two counts of the check, and those that have passed it
      and not ended. */
  datatype State = State(now: int, failures: seq<Failure>, asking: seq<Asked>, inFlight: seq<Attempt>)

  datatype Step =
    | Wait(until: int)
    | AskAccount(attempt: Attempt)   // the first count of the check; refused attempts leave no trace
    | AskAddress(i: nat)             // the second
    | Fail(i: nat)                   // an attempt in flight is recorded as a failure
    | Leave(i: nat)                  // an attempt ends without a record, as when a second factor is asked for
    | Succeed(i: nat)                // an attempt succeeds and its account's failures are cleared

  function Without<T>(s: seq<T>, i: nat): seq<T>
    requires i < |s|
  {
    s[..i] + s[i + 1..]
  }

  function Cleared(failures: seq<Failure>, account: string): seq<Failure> {
    if failures == [] then []
    else
      var last := failures[|failures| - 1];
      Cleared(failures[..|failures| - 1], account) + if last.attempt.account == account then [] else [last]
  }

  predicate Enabled(s: State, step: Step) {
    match step
    case Wait(until) => s.now <= until
    case AskAccount(_) => true
    case AskAddress(i) => i < |s.asking|
    case Fail(i) => i < |s.inFlight|
    case Leave(i) => i < |s.inFlight|
    case Succeed(i) => i < |s.inFlight|
  }

  function Do(limits: Limits, s: State, step: Step): State
    requires Enabled(s, step)
  {
    match step
    case Wait(until) => s.(now := until)
    case AskAccount(a) =>
      var since := s.now - limits.window * SECOND;
      if Full(limits, s.failures, Account(a.account), since) then s else s.(asking := s.asking + [Asked(a, since)])
    case AskAddress(i) =>
      var q := s.asking[i];
      var t := s.(asking := Without(s.asking, i));
      if Full(limits, s.failures, Address(q.attempt.address), q.since) then t
      else t.(inFlight := s.inFlight + [q.attempt])
    case Fail(i) => s.(failures := s.failures + [Failure(s.inFlight[i], s.now)], inFlight := Without(s.inFlight, i))
    case Leave(i) => s.(inFlight := Without(s.inFlight, i))
    case Succeed(i) => s.(failures := Cleared(s.failures, s.inFlight[i].account), inFlight := Without(s.inFlight, i))
  }

  // ---------- the service ----------

  /** Emails are compared in lower case. */
  function Lower(s: string): string {
    if s == "" then "" else Lower(s[..|s| - 1]) + [LowerChar(s[|s| - 1])]
  }

  function LowerChar(c: char): char { if 'A' <= c <= 'Z' then (c as int + 32) as char else c }

  class Service {
    const limits: Limits
    var now: int
    var failures: seq<Failure>
    var asking: seq<Asked>
    var inFlight: seq<Attempt>

    ghost function View(): State
      reads this
    {
      State(now, failures, asking, inFlight)
    }

    constructor (limits: Limits, now: int)
      ensures this.limits == limits && View() == State(now, [], [], [])
    {
      this.limits, this.now, this.failures, this.asking, this.inFlight := limits, now, [], [], [];
    }

    /** SELECT COUNT(*) over the failures of one key. */
    method CountFailed(key: Key, since: int) returns (n: nat)
      ensures n == Counted(failures, key, since)
    {
      hide Later;
      if !Named(key) {
        return 0;
      }
      n := 0;
      for i := 0 to |failures|
        invariant n == CountLater(failures[..i], key, since)
      {
        assert failures[..i + 1][..i] == failures[..i];
        if Of(failures[i].attempt, key) && Later(failures[i].at, since) {
          n := n + 1;
        }
      }
      assert failures[..|failures|] == failures;
    }

    /** The first half of checkLockout, up to the count for the account. */
    method BeginCheck(email: string, ip: string) returns (passed: bool)
      modifies this`asking
      ensures View() == Do(limits, old(View()), AskAccount(Attempt(Lower(email), ip)))
      ensures passed <==> !Full(limits, failures, Account(Lower(email)), now - limits.window * SECOND)
      ensures passed ==> |asking| == |old(asking)| + 1
    {
      hide Lower, Counted;
      var since := now - limits.window * SECOND;
      var byAccount := CountFailed(Account(Lower(email)), since);
      passed := byAccount < limits.maxPerAccount;
      if passed {
        asking := asking + [Asked(Attempt(Lower(email), ip), since)];
      }
    }

    /** The second half, from the count for the address on. */
    method EndCheck(i: nat) returns (admitted: bool)
      requires i < |asking|
      modifies this`asking, this`inFlight
      ensures View() == Do(limits, old(View()), AskAddress(i))
      ensures var q := old(asking)[i]; admitted <==> !Full(limits, failures, Address(q.attempt.address), q.since)
    {
      hide Counted;
      var q := asking[i];
      var byAddress := CountFailed(Address(q.attempt.address), q.since);
      asking := Without(asking, i);
      admitted := byAddress < limits.maxPerAddress;
      if admitted {
        inFlight := inFlight + [q.attempt];
      }
    }

    /** Both halves with nothing in between: an attempt is admitted exactly when neither limit is reached. */
    method CheckLockout(email: string, ip: string) returns (admitted: bool)
      modifies this`asking, this`inFlight
      ensures var since := now - limits.window * SECOND;
              admitted <==>
                !Full(limits, failures, Account(Lower(email)), since) && !Full(limits, failures, Address(ip), since)
      ensures asking == old(asking)
      ensures inFlight == old(inFlight) + if admitted then [Attempt(Lower(email), ip)] else []
    {
      hide Lower, Full;
      admitted := BeginCheck(email, ip);
      if admitted {
        assert asking[|asking| - 1].attempt == Attempt(Lower(email), ip);
        admitted := EndCheck(|asking| - 1);
      }
    }

    method RecordFailure(i: nat)
      requires i < |inFlight|
      modifies this`failures, this`inFlight
      ensures View() == Do(limits, old(View()), Fail(i))
    {
      failures := failures + [Failure(inFlight[i], now)];
      inFlight := Without(inFlight, i);
    }

    method Succeeded(i: nat)
      requires i < |inFlight|
      modifies this`failures, this`inFlight
      ensures View() == Do(limits, old(View()), Succeed(i))
    {
      var account := inFlight[i].account;
      var kept: seq<Failure> := [];
      for j := 0 to |failures|
        invariant kept == Cleared(failures[..j], account)
      {
        assert failures[..j + 1][..j] == failures[..j];
        if failures[j].attempt.account != account {
          kept := kept + [failures[j]];
        }
      }
      assert failures[..|failures|] == failures;
      failures := kept;
      inFlight := Without(inFlight, i);
    }
  }

  // ---------- runs ----------

  ghost predicate IsRun(limits: Limits, run: seq<State>, steps: seq<Step>) {
    && |run| == |steps| + 1
    && forall i :: 0 <= i < |steps| ==> Enabled(run[i], steps[i]) && run[i + 1] == Do(limits, run[i], steps[i])
  }

  function Flying(inFlight: seq<Attempt>, key: Key): nat {
    if inFlight == [] then 0
    else Flying(inFlight[..|inFlight| - 1], key) + if Of(inFlight[|inFlight| - 1], key) then 1 else 0
  }

  function Attempts(asking: seq<Asked>): (r: seq<Attempt>)
    ensures |r| == |asking| && forall i :: 0 <= i < |r| ==> r[i] == asking[i].attempt
  {
    seq(|asking|, i requires 0 <= i < |asking| => asking[i].attempt)
  }

  /** The attempts of a key that its limit can no longer stop. */
  function Admitted(s: State, key: Key): nat {
    Flying(s.inFlight, key) + if key.Account? then Flying(Attempts(s.asking), key) else 0
  }

  /** All attempts of a key between the start of their check and their end. */
  function Underway(s: State, key: Key): nat { Flying(s.inFlight, key) + Flying(Attempts(s.asking), key) }

  /** No window that is being counted starts later than one that would be counted now. */
  ghost predicate AskedInTime(limits: Limits, s: State) {
    forall q :: q in s.asking ==> q.since <= s.now - limits.window * SECOND
  }

  /** Failures of a key strictly after a time, by the times themselves. */
  function CountAfter(failures: seq<Failure>, key: Key, after: int): nat {
    if failures == [] then 0
    else
      var last := failures[|failures| - 1];
      CountAfter(failures[..|failures| - 1], key, after) + if Of(last.attempt, key) && last.at > after then 1 else 0
  }

  /** The longest stretch of time over which the limit is certain: a second short of the window, but for the
      nanosecond that a clock reading takes. */
  function Span(limits: Limits): int { limits.window * SECOND - SECOND + 1 }

  lemma {:induction false} StoreCountsThem(failures: seq<Failure>, key: Key, since: int)
    ensures CountAfter(failures, key, since + SECOND - 1) <= CountLater(failures, key, since)
  {
    hide Later;
    if failures != [] {
      var last := failures[|failures| - 1];
      StoreCountsThem(failures[..|failures| - 1], key, since);
      if last.at >= since + SECOND {
        SecondLater(last.at, since);
      }
    }
  }

  lemma {:induction false} FewerLater(failures: seq<Failure>, key: Key, a: int, b: int)
    requires a <= b
    ensures CountAfter(failures, key, b) <= CountAfter(failures, key, a)
  {
    if failures != [] {
      FewerLater(failures[..|failures| - 1], key, a, b);
    }
  }

  lemma {:induction false} ClearingOnlyRemoves(failures: seq<Failure>, account: string, key: Key, after: int)
    ensures CountAfter(Cleared(failures, account), key, after) <= CountAfter(failures, key, after)
  {
    if failures != [] {
      var front, last := failures[..|failures| - 1], failures[|failures| - 1];
      ClearingOnlyRemoves(front, account, key, after);
      if last.attempt.account != account {
        var kept := Cleared(front, account) + [last];
        assert kept[..|kept| - 1] == Cleared(front, account);
      } else {
        assert Cleared(failures, account) == Cleared(front, account);
      }
    }
  }

  lemma {:induction false} FlyingAppend(a: seq<Attempt>, b: seq<Attempt>, key: Key)
    ensures Flying(a + b, key) == Flying(a, key) + Flying(b, key)
  {
    if b == [] {
      assert a + b == a;
    } else {
      assert (a + b)[..|a + b| - 1] == a + b[..|b| - 1];
      FlyingAppend(a, b[..|b| - 1], key);
    }
  }

  lemma FlyingWithout(inFlight: seq<Attempt>, i: nat, key: Key)
    requires i < |inFlight|
    ensures Flying(Without(inFlight, i), key) == Flying(inFlight, key) - if Of(inFlight[i], key) then 1 else 0
    ensures Of(inFlight[i], key) ==> Flying(inFlight, key) >= 1
  {
    var a, x, b := inFlight[..i], [inFlight[i]], inFlight[i + 1..];
    assert inFlight == a + x + b;
    FlyingAppend(a + x, b, key);
    FlyingAppend(a, x, key);
    FlyingAppend(a, b, key);
    assert x[..0] == [];
  }

  /** Failures of a key in a stretch of time, its start excluded. */
  function CountWithin(failures: seq<Failure>, key: Key, start: int, length: int): nat {
    if failures == [] then 0
    else
      var last := failures[|failures| - 1];
      CountWithin(failures[..|failures| - 1], key, start, length)
        + if Of(last.attempt, key) && start < last.at <= start + length then 1 else 0
  }

  lemma {:induction false} WithinIsAfter(failures: seq<Failure>, key: Key, start: int, length: int)
    ensures CountWithin(failures, key, start, length) <= CountAfter(failures, key, start)
  {
    if failures != [] {
      WithinIsAfter(failures[..|failures| - 1], key, start, length);
    }
  }

  lemma {:induction false} ClearingRemovesWithin(failures: seq<Failure>, account: string, key: Key, start: int,
                                                 length: int)
    ensures CountWithin(Cleared(failures, account), key, start, length) <= CountWithin(failures, key, start, length)
  {
    if failures != [] {
      var front, last := failures[..|failures| - 1], failures[|failures| - 1];
      ClearingRemovesWithin(front, account, key, start, length);
      if last.attempt.account != account {
        var kept := Cleared(front, account) + [last];
        assert kept[..|kept| - 1] == Cleared(front, account);
      } else {
        assert Cleared(failures, account) == Cleared(front, account);
      }
    }
  }

  /** Once a stretch that is still open holds the maximum, only attempts already in flight can be added to it. */
  ghost predicate OpenBound(limits: Limits, s: State, key: Key, k: nat) {
    forall start :: s.now - Span(limits) <= start ==> OpenAt(limits, s, key, k, start)
  }

  ghost predicate OpenAt(limits: Limits, s: State, key: Key, k: nat, start: int) {
    var n := CountAfter(s.failures, key, start);
    n >= Max(limits, key) ==> n + Admitted(s, key) <= Max(limits, key) - 1 + k
  }

  /** No stretch holds more than max - 1 + k. */
  ghost predicate Bounded(limits: Limits, failures: seq<Failure>, key: Key, k: nat) {
    forall start :: CountWithin(failures, key, start, Span(limits)) <= Max(limits, key) - 1 + k
  }

  /** Neither count admits anybody once the stretch is full, however long ago its window was fixed. */
  lemma FullStops(limits: Limits, s: State, key: Key, since: int, start: int)
    requires Named(key) && since <= s.now - limits.window * SECOND && s.now - Span(limits) <= start
    requires !Full(limits, s.failures, key, since)
    ensures CountAfter(s.failures, key, start) < Max(limits, key)
  {
    hide CountAfter, CountLater;
    StoreCountsThem(s.failures, key, since);
    FewerLater(s.failures, key, since + SECOND - 1, start);
  }

  lemma AccountKeepsBound(limits: Limits, s: State, a: Attempt, key: Key, k: nat)
    requires Named(key) && OpenBound(limits, s, key, k)
    ensures OpenBound(limits, Do(limits, s, AskAccount(a)), key, k)
  {
    hide CountAfter, Counted, Flying;
    var t := Do(limits, s, AskAccount(a));
    var since := s.now - limits.window * SECOND;
    FlyingAppend(Attempts(s.asking), [a], key);
    assert Attempts(s.asking + [Asked(a, since)]) == Attempts(s.asking) + [a];
    FlyingOne(a, key);
    forall start | t.now - Span(limits) <= start ensures OpenAt(limits, t, key, k, start) {
      assert OpenAt(limits, s, key, k, start);
      if !Full(limits, s.failures, Account(a.account), since) && key == Account(a.account) {
        FullStops(limits, s, key, since, start);
      }
    }
  }

  lemma AddressKeepsBound(limits: Limits, s: State, i: nat, key: Key, k: nat)
    requires Named(key) && i < |s.asking| && OpenBound(limits, s, key, k) && AskedInTime(limits, s)
    ensures OpenBound(limits, Do(limits, s, AskAddress(i)), key, k)
  {
    hide CountAfter, Counted, Flying;
    var t, q := Do(limits, s, AskAddress(i)), s.asking[i];
    assert q in s.asking;
    assert Attempts(Without(s.asking, i)) == Without(Attempts(s.asking), i);
    FlyingWithout(Attempts(s.asking), i, key);
    FlyingAppend(s.inFlight, [q.attempt], key);
    FlyingOne(q.attempt, key);
    forall start | t.now - Span(limits) <= start ensures OpenAt(limits, t, key, k, start) {
      assert OpenAt(limits, s, key, k, start);
      if !Full(limits, s.failures, Address(q.attempt.address), q.since) && key == Address(q.attempt.address) {
        FullStops(limits, s, key, q.since, start);
      }
    }
  }

  lemma FlyingOne(a: Attempt, key: Key)
    ensures Flying([a], key) == if Of(a, key) then 1 else 0
  {
    assert [a][..0] == [];
  }

  lemma FailKeepsBound(limits: Limits, s: State, i: nat, key: Key, k: nat)
    requires i < |s.inFlight| && OpenBound(limits, s, key, k) && Admitted(s, key) <= k && k >= 1
    requires Bounded(limits, s.failures, key, k)
    ensures OpenBound(limits, Do(limits, s, Fail(i)), key, k)
    ensures Bounded(limits, Do(limits, s, Fail(i)).failures, key, k)
  {
    hide Flying;
    var t := Do(limits, s, Fail(i));
    FlyingWithout(s.inFlight, i, key);
    assert t.failures[..|t.failures| - 1] == s.failures;
    forall start | t.now - Span(limits) <= start ensures OpenAt(limits, t, key, k, start) {
      assert OpenAt(limits, s, key, k, start);
    }
    forall start ensures CountWithin(t.failures, key, start, Span(limits)) <= Max(limits, key) - 1 + k {
      assert CountWithin(s.failures, key, start, Span(limits)) <= Max(limits, key) - 1 + k;
      if s.now <= start + Span(limits) {
        assert OpenAt(limits, t, key, k, start);
        WithinIsAfter(t.failures, key, start, Span(limits));
      }
    }
  }

  lemma SucceedKeepsBound(limits: Limits, s: State, i: nat, key: Key, k: nat)
    requires i < |s.inFlight| && OpenBound(limits, s, key, k) && Bounded(limits, s.failures, key, k)
    ensures OpenBound(limits, Do(limits, s, Succeed(i)), key, k)
    ensures Bounded(limits, Do(limits, s, Succeed(i)).failures, key, k)
  {
    hide Flying, CountAfter, Cleared, CountWithin;
    var t := Do(limits, s, Succeed(i));
    var account := s.inFlight[i].account;
    FlyingWithout(s.inFlight, i, key);
    forall start | t.now - Span(limits) <= start ensures OpenAt(limits, t, key, k, start) {
      assert OpenAt(limits, s, key, k, start);
      ClearingOnlyRemoves(s.failures, account, key, start);
    }
    forall start ensures CountWithin(t.failures, key, start, Span(limits)) <= Max(limits, key) - 1 + k {
      ClearingRemovesWithin(s.failures, account, key, start, Span(limits));
    }
  }

  lemma LeaveKeepsBound(limits: Limits, s: State, i: nat, key: Key, k: nat)
    requires i < |s.inFlight| && OpenBound(limits, s, key, k)
    ensures OpenBound(limits, Do(limits, s, Leave(i)), key, k)
  {
    hide Flying, CountAfter;
    var t := Do(limits, s, Leave(i));
    FlyingWithout(s.inFlight, i, key);
    forall start | t.now - Span(limits) <= start ensures OpenAt(limits, t, key, k, start) {
      assert OpenAt(limits, s, key, k, start);
    }
  }

  lemma WaitKeepsBound(limits: Limits, s: State, until: int, key: Key, k: nat)
    requires s.now <= until && OpenBound(limits, s, key, k)
    ensures OpenBound(limits, Do(limits, s, Wait(until)), key, k)
  {
    hide Flying, CountAfter;
    var t := Do(limits, s, Wait(until));
    forall start | t.now - Span(limits) <= start ensures OpenAt(limits, t, key, k, start) {
      assert OpenAt(limits, s, key, k, start);
    }
  }

  lemma StepKeepsBound(limits: Limits, s: State, step: Step, key: Key, k: nat)
    requires Named(key) && Enabled(s, step) && Underway(s, key) <= k && k >= 1
    requires OpenBound(limits, s, key, k) && Bounded(limits, s.failures, key, k) && AskedInTime(limits, s)
    ensures OpenBound(limits, Do(limits, s, step), key, k)
    ensures Bounded(limits, Do(limits, s, step).failures, key, k)
  {
    hide Flying, Full, Cleared, OpenBound, Bounded, AskedInTime, Attempts;
    match step
    case Wait(until) => WaitKeepsBound(limits, s, until, key, k);
    case AskAccount(a) => AccountKeepsBound(limits, s, a, key, k);
    case AskAddress(i) => AddressKeepsBound(limits, s, i, key, k);
    case Fail(i) => FailKeepsBound(limits, s, i, key, k);
    case Leave(i) => LeaveKeepsBound(limits, s, i, key, k);
    case Succeed(i) => SucceedKeepsBound(limits, s, i, key, k);
  }

  lemma StepKeepsTime(limits: Limits, s: State, step: Step)
    requires Enabled(s, step) && AskedInTime(limits, s)
    ensures AskedInTime(limits, Do(limits, s, step))
  {
    hide Full, Cleared;
  }

  /** In every run with at most `k` attempts of a key under way at once, starting with no failures on record, every
      stretch a second short of the window holds at most max - 1 + k failures of that key on record: the configured
      maximum when attempts come one at a time. */
  lemma {:induction false} LockoutHolds(limits: Limits, run: seq<State>, steps: seq<Step>, key: Key, k: nat, i: nat)
    requires IsRun(limits, run, steps) && i < |run| && Fresh(run[0])
    requires Named(key) && k >= 1 && Max(limits, key) >= 1
    requires forall j :: 0 <= j < |run| ==> Underway(run[j], key) <= k
    ensures OpenBound(limits, run[i], key, k)
    ensures Bounded(limits, run[i].failures, key, k) && AskedInTime(limits, run[i])
  {
    if i == 0 {
      NothingRecorded(limits, run[0], key, k);
    } else {
      hide Do, OpenBound, Bounded, Underway, AskedInTime;
      LockoutHolds(limits, run, steps, key, k, i - 1);
      assert Enabled(run[i - 1], steps[i - 1]) && run[i - 1 + 1] == Do(limits, run[i - 1], steps[i - 1]);
      StepKeepsBound(limits, run[i - 1], steps[i - 1], key, k);
      StepKeepsTime(limits, run[i - 1], steps[i - 1]);
    }
  }

  /** Nothing on record and nothing under way. */
  predicate Fresh(s: State) { s.failures == [] && s.asking == [] && s.inFlight == [] }

  lemma NothingRecorded(limits: Limits, s: State, key: Key, k: nat)
    requires Fresh(s) && k >= 1 && Max(limits, key) >= 1
    ensures AskedInTime(limits, s)
    ensures OpenBound(limits, s, key, k) && Bounded(limits, s.failures, key, k)
  {
  }

  /** Failures of an account leave the record only when that account signs in. */
  lemma {:induction false} OnlyOwnSuccessClears(failures: seq<Failure>, account: string, key: Key, start: int,
                                                length: int)
    requires key.Account? && key.account != account
    ensures CountWithin(Cleared(failures, account), key, start, length) == CountWithin(failures, key, start, length)
  {
    if failures != [] {
      var front, last := failures[..|failures| - 1], failures[|failures| - 1];
      OnlyOwnSuccessClears(front, account, key, start, length);
      if last.attempt.account != account {
        var kept := Cleared(front, account) + [last];
        assert kept[..|kept| - 1] == Cleared(front, account);
      } else {
        assert Cleared(failures, account) == Cleared(front, account);
      }
    }
  }

  /** A success removes the failures of its account and no others. */
  lemma {:induction false} ClearedMembers(failures: seq<Failure>, account: string)
    ensures forall f :: f in Cleared(failures, account) <==> f in failures && f.attempt.account != account
  {
    if failures != [] {
      var front, last := failures[..|failures| - 1], failures[|failures| - 1];
      ClearedMembers(front, account);
      assert failures == front + [last];
      assert forall f :: f in failures <==> f in front || f == last;
    }
  }

  lemma {:induction false} NoneOfAccount(failures: seq<Failure>, account: string, since: int)
    requires forall f :: f in failures ==> f.attempt.account != account
    ensures CountLater(failures, Account(account), since) == 0
  {
    hide Later;
    if failures != [] {
      var front := failures[..|failures| - 1];
      assert failures[|failures| - 1] in failures;
      forall f | f in front ensures f in failures {
        var i :| 0 <= i < |front| && front[i] == f;
        assert failures[i] == f;
      }
      NoneOfAccount(front, account, since);
    }
  }

  /** After a success the account starts again from nothing. */
  lemma SuccessClears(failures: seq<Failure>, account: string, since: int)
    ensures CountLater(Cleared(failures, account), Account(account), since) == 0
  {
    hide CountLater, Cleared;
    ClearedMembers(failures, account);
    NoneOfAccount(Cleared(failures, account), account, since);
  }

  /** Two ASCII letters that differ in case, or the same character. */
  predicate SameLetter(a: char, b: char) {
    a == b || ('A' <= a <= 'Z' && b as int == a as int + 32) || ('A' <= b <= 'Z' && a as int == b as int + 32)
  }

  lemma {:induction false} LowerAt(s: string, i: nat)
    requires i <= |s|
    ensures |Lower(s)| == |s|
    ensures i < |s| ==> Lower(s)[i] == LowerChar(s[i])
  {
    hide LowerChar;
    if s != "" {
      LowerAt(s[..|s| - 1], if i < |s| - 1 then i else 0);
    }
  }

  lemma OneLetter(a: char, b: char)
    ensures LowerChar(a) == LowerChar(b) <==> SameLetter(a, b)
  {
  }

  /** Two spellings of an email are one account exactly when they differ in case alone. */
  lemma OneAccount(s: string, t: string)
    ensures Lower(s) == Lower(t) <==> |s| == |t| && forall i :: 0 <= i < |s| ==> SameLetter(s[i], t[i])
  {
    hide Lower, LowerChar, SameLetter;
    LowerAt(s, |s|);
    LowerAt(t, |t|);
    var u, v := Lower(s), Lower(t);
    forall i | 0 <= i < |s| && i < |t| ensures u[i] == v[i] <==> SameLetter(s[i], t[i]) {
      LowerAt(s, i);
      LowerAt(t, i);
      OneLetter(s[i], t[i]);
    }
    assert u == v <==> |u| == |v| && forall i :: 0 <= i < |u| ==> u[i] == v[i];
  }

  /** The two limits by name. */
  lemma LimitsByName(limits: Limits, run: seq<State>, steps: seq<Step>, k: nat, i: nat, account: string,
                     address: string, start: int)
    requires IsRun(limits, run, steps) && i < |run| && Fresh(run[0]) && k >= 1
    requires account != "" && address != "" && limits.maxPerAccount >= 1 && limits.maxPerAddress >= 1
    requires forall j :: 0 <= j < |run| ==> Underway(run[j], Account(account)) <= k
    requires forall j :: 0 <= j < |run| ==> Underway(run[j], Address(address)) <= k
    ensures CountWithin(run[i].failures, Account(account), start, Span(limits)) <= limits.maxPerAccount - 1 + k
    ensures CountWithin(run[i].failures, Address(address), start, Span(limits)) <= limits.maxPerAddress - 1 + k
  {
    hide CountWithin, OpenBound, AskedInTime, Do, Underway;
    LockoutHolds(limits, run, steps, Account(account), k, i);
    LockoutHolds(limits, run, steps, Address(address), k, i);
  }

  // ---------- where the limit does not hold ----------

  /** No more than `k` attempts are ever under way. */
  ghost predicate AtMost(run: seq<State>, k: nat) {
    forall i :: 0 <= i < |run| ==> |run[i].asking| + |run[i].inFlight| <= k
  }

  /** Every attempt of a run comes from some address. */
  ghost predicate Addressed(steps: seq<Step>) {
    forall i :: 0 <= i < |steps| && steps[i].AskAccount? ==> steps[i].attempt.address != ""
  }

  /** Attempts on one account, each from an address of its own. */
  function Nth(account: string, i: nat): Attempt { Attempt(account, NatText(i)) }

  function Failures(account: string, n: nat, now: int): (r: seq<Failure>)
    ensures |r| == n && forall i :: 0 <= i < n ==> r[i] == Failure(Nth(account, i), now)
  {
    seq(n, i requires 0 <= i < n => Failure(Nth(account, i), now))
  }

  /** An address that has not been used has no failures to count. */
  lemma {:induction false} NewAddress(account: string, n: nat, now: int, i: nat, since: int)
    requires n <= i
    ensures CountLater(Failures(account, n, now), Address(NatText(i)), since) == 0
  {
    hide Later;
    if n > 0 {
      var all := Failures(account, n, now);
      assert all[..n - 1] == Failures(account, n - 1, now);
      NewAddress(account, n - 1, now, i, since);
      if NatText(n - 1) == NatText(i) {
        NatTextInjective(n - 1, i);
      }
    }
  }

  lemma NewAddressIsNotFull(limits: Limits, account: string, n: nat, now: int, i: nat, since: int)
    requires n <= i && limits.maxPerAddress >= 1
    ensures !Full(limits, Failures(account, n, now), Address(NatText(i)), since)
  {
    hide CountLater, Failures;
    NewAddress(account, n, now, i, since);
  }

  /** Failures of an empty account are not counted for it: from addresses enough, one instant can hold any number of
      them, one attempt at a time. */
  lemma {:induction false} UnnamedIsUnlimited(limits: Limits, now: int, n: nat)
      returns (run: seq<State>, steps: seq<Step>)
    requires limits.maxPerAccount >= 1 && limits.maxPerAddress >= 1
    ensures IsRun(limits, run, steps) && run[0] == State(now, [], [], []) && AtMost(run, 1) && Addressed(steps)
    ensures run[|run| - 1] == State(now, Failures("", n, now), [], [])
  {
    hide Full, Do, Enabled;
    run, steps := [State(now, [], [], [])], [];
    if n > 0 {
      run, steps := UnnamedIsUnlimited(limits, now, n - 1);
      var since := now - limits.window * SECOND;
      NeverFull(limits, run[|run| - 1].failures, since);
      NewAddressIsNotFull(limits, "", n - 1, now, n - 1, since);
      run, steps := OneMore(limits, run, steps, Nth("", n - 1), 1);
      assert Failures("", n - 1, now) + [Failure(Nth("", n - 1), now)] == Failures("", n, now);
    }
  }

  lemma NeverFull(limits: Limits, failures: seq<Failure>, since: int)
    requires limits.maxPerAccount >= 1
    ensures !Full(limits, failures, Account(""), since)
  {
  }

  /** Fewer failures than the maximum do not fill it. */
  lemma FewAreNotFull(limits: Limits, failures: seq<Failure>, account: string, since: int)
    requires |failures| < limits.maxPerAccount
    ensures !Full(limits, failures, Account(account), since)
  {
    hide CountLater;
    AtMostAll(failures, Account(account), since);
  }

  /** Attempts one at a time, all failing at one instant, up to the maximum. */
  lemma {:induction false} Burst(limits: Limits, account: string, now: int, n: nat)
      returns (run: seq<State>, steps: seq<Step>)
    requires n <= limits.maxPerAccount && limits.maxPerAddress >= 1
    ensures IsRun(limits, run, steps) && run[0] == State(now, [], [], []) && AtMost(run, 1) && Addressed(steps)
    ensures run[|run| - 1] == State(now, Failures(account, n, now), [], [])
  {
    hide Full, Do, Enabled;
    run, steps := [State(now, [], [], [])], [];
    if n > 0 {
      run, steps := Burst(limits, account, now, n - 1);
      var since := now - limits.window * SECOND;
      FewAreNotFull(limits, run[|run| - 1].failures, account, since);
      NewAddressIsNotFull(limits, account, n - 1, now, n - 1, since);
      run, steps := OneMore(limits, run, steps, Nth(account, n - 1), 1);
      assert Failures(account, n - 1, now) + [Failure(Nth(account, n - 1), now)] == Failures(account, n, now);
    }
  }

  /** Both counts of a check, one after the other, that let an attempt in. */
  lemma Pass(limits: Limits, run: seq<State>, steps: seq<Step>, a: Attempt)
      returns (run': seq<State>, steps': seq<Step>)
    requires IsRun(limits, run, steps) && run[|run| - 1].asking == []
    requires var s := run[|run| - 1];
             var since := s.now - limits.window * SECOND;
             && !Full(limits, s.failures, Account(a.account), since)
             && !Full(limits, s.failures, Address(a.address), since)
    ensures IsRun(limits, run', steps') && |run'| == |run| + 2 && run'[..|run|] == run
    ensures Addressed(steps) && a.address != "" ==> Addressed(steps')
    ensures |run'[|run|].asking| == 1 && run'[|run|].inFlight == run[|run| - 1].inFlight
    ensures run'[|run| + 1] == run[|run| - 1].(inFlight := run[|run| - 1].inFlight + [a])
  {
    hide Full;
    var s := run[|run| - 1];
    var s1 := Do(limits, s, AskAccount(a));
    assert s1.asking == [Asked(a, s.now - limits.window * SECOND)];
    var s2 := Do(limits, s1, AskAddress(0));
    assert s2.asking == [];
    run', steps' := run + [s1, s2], steps + [AskAccount(a), AskAddress(0)];
  }

  /** One more attempt that is admitted and fails. */
  lemma OneMore(limits: Limits, run: seq<State>, steps: seq<Step>, a: Attempt, k: nat)
      returns (run': seq<State>, steps': seq<Step>)
    requires IsRun(limits, run, steps) && run[|run| - 1].inFlight == [] && run[|run| - 1].asking == []
    requires var s := run[|run| - 1];
             var since := s.now - limits.window * SECOND;
             && !Full(limits, s.failures, Account(a.account), since)
             && !Full(limits, s.failures, Address(a.address), since)
    requires k >= 1 && AtMost(run, k)
    ensures IsRun(limits, run', steps') && run'[0] == run[0] && AtMost(run', k)
    ensures Addressed(steps) && a.address != "" ==> Addressed(steps')
    ensures var s := run[|run| - 1];
            run'[|run'| - 1] == s.(failures := s.failures + [Failure(a, s.now)])
  {
    hide Full;
    var s := run[|run| - 1];
    run', steps' := Pass(limits, run, steps, a);
    var s2 := run'[|run| + 1];
    assert s2.inFlight == [a];
    StillAtMost(run, run', k);
    var s3 := Do(limits, s2, Fail(0));
    assert s3.inFlight == [];
    run', steps' := run' + [s3], steps' + [Fail(0)];
  }

  lemma {:induction false} AtMostAll(failures: seq<Failure>, key: Key, since: int)
    ensures CountLater(failures, key, since) <= |failures|
  {
    hide Later;
    if failures != [] {
      AtMostAll(failures[..|failures| - 1], key, since);
    }
  }

  lemma {:induction false} NoneLater(failures: seq<Failure>, key: Key, since: int)
    requires forall f :: f in failures ==> !Later(f.at, since)
    ensures CountLater(failures, key, since) == 0
  {
    hide Later;
    if failures != [] {
      NoneLater(failures[..|failures| - 1], key, since);
      assert failures[|failures| - 1] in failures;
    }
  }

  lemma {:induction false} AllWithin(failures: seq<Failure>, key: Key, start: int, length: int)
    requires forall f :: f in failures ==> Of(f.attempt, key) && start < f.at <= start + length
    ensures CountWithin(failures, key, start, length) == |failures|
  {
    if failures != [] {
      AllWithin(failures[..|failures| - 1], key, start, length);
      assert failures[|failures| - 1] in failures;
    }
  }

  /** The bound is met: with `k` attempts admitted together, one instant can hold max - 1 + k failures of an account. */
  lemma BoundIsMet(limits: Limits, account: string, now: int, k: nat) returns (run: seq<State>, steps: seq<Step>)
    requires limits.maxPerAccount >= 1 && limits.maxPerAddress >= 1
    ensures IsRun(limits, run, steps) && run[0] == State(now, [], [], []) && Addressed(steps)
    ensures run[|run| - 1] == State(now, Failures(account, limits.maxPerAccount - 1 + k, now), [], [])
    ensures k >= 1 ==> AtMost(run, k)
  {
    hide Full, Do, Enabled, IsRun, Addressed;
    var n := limits.maxPerAccount - 1;
    run, steps := Burst(limits, account, now, n);
    assert k >= 1 ==> AtMost(run, k);
    run, steps := Admit(limits, run, steps, account, n, k, k);
    run, steps := FailAll(limits, run, steps, account, n, k, k);
  }

  function Crowd(account: string, first: nat, k: nat): (r: seq<Attempt>)
    ensures |r| == k && forall i :: 0 <= i < k ==> r[i] == Nth(account, first + i)
  {
    seq(k, i requires 0 <= i < k => Nth(account, first + i))
  }

  lemma {:induction false} Admit(limits: Limits, run: seq<State>, steps: seq<Step>, account: string, n: nat, k: nat,
                                 most: nat)
      returns (run': seq<State>, steps': seq<Step>)
    requires IsRun(limits, run, steps) && n < limits.maxPerAccount && limits.maxPerAddress >= 1 && k <= most
    requires var s := run[|run| - 1];
             s.inFlight == [] && s.asking == [] && s.failures == Failures(account, n, s.now)
    ensures IsRun(limits, run', steps') && run'[0] == run[0] && (AtMost(run, most) ==> AtMost(run', most))
    ensures Addressed(steps) ==> Addressed(steps')
    ensures run'[|run'| - 1] == run[|run| - 1].(inFlight := Crowd(account, n, k))
  {
    hide Full, Do, Enabled, Addressed;
    run', steps' := run, steps;
    if k > 0 {
      run', steps' := Admit(limits, run, steps, account, n, k - 1, most);
      ghost var before := run';
      var s := run'[|run'| - 1];
      var since := s.now - limits.window * SECOND;
      FewAreNotFull(limits, s.failures, account, since);
      NewAddressIsNotFull(limits, account, n, s.now, n + k - 1, since);
      run', steps' := Pass(limits, run', steps', Nth(account, n + k - 1));
      assert Crowd(account, n, k - 1) + [Nth(account, n + k - 1)] == Crowd(account, n, k);
      StillAtMost(before, run', most);
    }
  }

  /** Attempts from one address, each on an account of its own. */
  function Spray(address: string, n: nat, now: int): (r: seq<Failure>)
    ensures |r| == n && forall i :: 0 <= i < n ==> r[i] == Failure(Attempt(NatText(i), address), now)
  {
    seq(n, i requires 0 <= i < n => Failure(Attempt(NatText(i), address), now))
  }

  lemma {:induction false} NewAccount(address: string, n: nat, now: int, i: nat, since: int)
    requires n <= i
    ensures CountLater(Spray(address, n, now), Account(NatText(i)), since) == 0
  {
    hide Later;
    if n > 0 {
      var all := Spray(address, n, now);
      assert all[..n - 1] == Spray(address, n - 1, now);
      NewAccount(address, n - 1, now, i, since);
      if NatText(n - 1) == NatText(i) {
        NatTextInjective(n - 1, i);
      }
    }
  }

  lemma SprayIsNotFull(limits: Limits, address: string, n: nat, now: int, since: int)
    requires n < limits.maxPerAddress && limits.maxPerAccount >= 1
    ensures !Full(limits, Spray(address, n, now), Account(NatText(n)), since)
    ensures !Full(limits, Spray(address, n, now), Address(address), since)
  {
    hide CountLater;
    NewAccount(address, n, now, n, since);
    AtMostAll(Spray(address, n, now), Address(address), since);
  }

  /** The limit for an address is met too, by attempts on as many accounts, and is for nothing less. */
  lemma {:induction false} SprayIsMet(limits: Limits, address: string, now: int, n: nat)
      returns (run: seq<State>, steps: seq<Step>)
    requires n <= limits.maxPerAddress && limits.maxPerAccount >= 1
    ensures IsRun(limits, run, steps) && run[0] == State(now, [], [], []) && AtMost(run, 1)
    ensures run[|run| - 1] == State(now, Spray(address, n, now), [], [])
  {
    hide Do, Enabled, Full;
    run, steps := [State(now, [], [], [])], [];
    if n > 0 {
      run, steps := SprayIsMet(limits, address, now, n - 1);
      var since := now - limits.window * SECOND;
      var a := Attempt(NatText(n - 1), address);
      SprayIsNotFull(limits, address, n - 1, now, since);
      run, steps := OneMore(limits, run, steps, a, 1);
      assert Spray(address, n - 1, now) + [Failure(a, now)] == Spray(address, n, now);
    }
  }

  lemma StillAtMost(run: seq<State>, run': seq<State>, k: nat)
    requires |run'| == |run| + 2 && run'[..|run|] == run
    requires forall i :: |run| <= i < |run'| ==> |run'[i].asking| + |run'[i].inFlight| <= k
    ensures AtMost(run, k) ==> AtMost(run', k)
  {
    assert forall i :: 0 <= i < |run| ==> run'[i] == run[i];
  }

  lemma {:induction false} FailAll(limits: Limits, run: seq<State>, steps: seq<Step>, account: string, n: nat, k: nat,
                                   most: nat)
      returns (run': seq<State>, steps': seq<Step>)
    requires IsRun(limits, run, steps) && k <= most
    requires var s := run[|run| - 1];
             s.inFlight == Crowd(account, n, k) && s.asking == [] && s.failures == Failures(account, n, s.now)
    ensures IsRun(limits, run', steps') && run'[0] == run[0] && (AtMost(run, most) ==> AtMost(run', most))
    ensures Addressed(steps) ==> Addressed(steps')
    ensures var s := run[|run| - 1]; run'[|run'| - 1] == State(s.now, Failures(account, n + k, s.now), [], [])
    decreases k
  {
    run', steps' := run, steps;
    var s := run[|run| - 1];
    if k > 0 {
      var t := Do(limits, s, Fail(0));
      assert t.inFlight == Crowd(account, n + 1, k - 1);
      assert t.failures == Failures(account, n + 1, s.now);
      assert AtMost(run, most) ==> AtMost(run + [t], most);
      run', steps' := FailAll(limits, run + [t], steps + [Fail(0)], account, n + 1, k - 1, most);
    }
  }

  // ---------- how long a stretch the limit holds for ----------

  /** A run from an empty record with at most `k` attempts under way at once. */
  ghost predicate FromEmpty(limits: Limits, run: seq<State>, steps: seq<Step>, k: nat) {
    IsRun(limits, run, steps) && Fresh(run[0]) && AtMost(run, k)
  }

  /** No stretch of the given length holds more than max - 1 + k failures of any account or address. */
  ghost predicate Holds(limits: Limits, failures: seq<Failure>, k: nat, length: int) {
    forall key, start :: Named(key) ==>
      CountWithin(failures, key, start, length) <= Max(limits, key) - 1 + k
  }

  /** Failures just inside the end of a second are forgotten as soon as the window's start reaches the beginning of that
      second, so a stretch any longer can hold one failure more. */
  lemma LongerStretch(limits: Limits, account: string, k: nat, length: int)
      returns (run: seq<State>, steps: seq<Step>)
    requires limits.window >= 1 && limits.maxPerAccount >= 1 && limits.maxPerAddress >= 1 && k >= 1
    requires length > Span(limits)
    ensures FromEmpty(limits, run, steps, k) && Addressed(steps)
    ensures CountWithin(run[|run| - 1].failures, Account(account), SECOND - 2, length) == limits.maxPerAccount + k
  {
    hide Later, Full, CountLater, CountWithin, Addressed;
    var n := limits.maxPerAccount - 1 + k;
    var window := limits.window * SECOND;
    run, steps := BoundIsMet(limits, account, SECOND - 1, k);
    var late := run[|run| - 1].(now := window);
    Waited(steps, window);
    run, steps := run + [late], steps + [Wait(window)];
    FractionsReadEarlier(0, SECOND - 1);
    NoneLater(late.failures, Account(account), 0);
    Forgotten(limits, late.failures, account);
    NewAddressIsNotFull(limits, account, n, SECOND - 1, n, 0);
    run, steps := OneMore(limits, run, steps, Nth(account, n), k);
    AllWithin(run[|run| - 1].failures, Account(account), SECOND - 2, length);
  }

  lemma Waited(steps: seq<Step>, until: int)
    ensures Addressed(steps) ==> Addressed(steps + [Wait(until)])
  {
  }

  lemma Forgotten(limits: Limits, failures: seq<Failure>, account: string)
    requires limits.maxPerAccount >= 1
    requires CountLater(failures, Account(account), 0) == 0
    ensures !Full(limits, failures, Account(account), 0)
  {
    hide CountLater;
  }

  lemma {:induction false} FewerFlying(inFlight: seq<Attempt>, key: Key)
    ensures Flying(inFlight, key) <= |inFlight|
  {
    if inFlight != [] {
      FewerFlying(inFlight[..|inFlight| - 1], key);
    }
  }

  /** A shorter stretch holds no more. */
  lemma {:induction false} ShorterHoldsLess(failures: seq<Failure>, key: Key, start: int, a: int, b: int)
    requires a <= b
    ensures CountWithin(failures, key, start, a) <= CountWithin(failures, key, start, b)
  {
    if failures != [] {
      ShorterHoldsLess(failures[..|failures| - 1], key, start, a, b);
    }
  }

  lemma ShortStretch(limits: Limits, run: seq<State>, steps: seq<Step>, k: nat, length: int)
    requires FromEmpty(limits, run, steps, k) && length <= Span(limits)
    requires limits.maxPerAccount >= 1 && limits.maxPerAddress >= 1 && k >= 1
    ensures Holds(limits, run[|run| - 1].failures, k, length)
  {
    hide CountWithin, Do, Flying, OpenBound, AskedInTime;
    var failures := run[|run| - 1].failures;
    forall key, start | Named(key) ensures CountWithin(failures, key, start, length) <= Max(limits, key) - 1 + k {
      forall j | 0 <= j < |run| ensures Underway(run[j], key) <= k {
        FewerFlying(run[j].inFlight, key);
        FewerFlying(Attempts(run[j].asking), key);
      }
      LockoutHolds(limits, run, steps, key, k, |run| - 1);
      ShorterHoldsLess(failures, key, start, length, Span(limits));
    }
  }

  /** The limit holds over stretches of a given length, in every run with at most `k` attempts under way and an
      address to each, exactly when the length is at most a second short of the window. The stored times are compared
      as text, and that costs the last second. */
  lemma SpanIsExact(limits: Limits, k: nat, length: int)
    requires limits.window >= 1 && limits.maxPerAccount >= 1 && limits.maxPerAddress >= 1 && k >= 1
    ensures (forall run: seq<State>, steps :: FromEmpty(limits, run, steps, k) && Addressed(steps) ==>
              Holds(limits, run[|run| - 1].failures, k, length))
       <==> length <= Span(limits)
  {
    hide CountWithin, Do, Flying, Addressed;
    if length <= Span(limits) {
      forall run: seq<State>, steps | FromEmpty(limits, run, steps, k) && Addressed(steps)
        ensures Holds(limits, run[|run| - 1].failures, k, length)
      {
        ShortStretch(limits, run, steps, k, length);
      }
    } else {
      var run, steps := LongerStretch(limits, "a", k, length);
      assert Named(Account("a"));
      assert !Holds(limits, run[|run| - 1].failures, k, length);
    }
  }
}
