/** One-time codes and recovery codes (internal/auth/totp.go; internal/auth/service.go, ConfirmTOTP and
    spendSecondFactor; internal/store/users.go, SpendTOTPCounter and UseRecoveryCode). */
module SecondFactor {
  import opened Text
  import opened Writes

  /** HMAC-SHA-1 and the token hash, left uninterpreted. */
  datatype Crypto = Crypto(mac: (string, nat) -> seq<int>, hash: string -> string)

  ghost predicate GoodMac(c: Crypto) {
    forall key, counter :: |c.mac(key, counter)| == 20 &&
      forall i :: 0 <= i < 20 ==> 0 <= c.mac(key, counter)[i] <= 255
  }

  const PERIOD := 30
  const DIGITS := 6
  const TWO64 := 0x1_0000_0000_0000_0000

  // ---------- codes ----------

  /** Dynamic truncation, section 5.3 of RFC 4226: 31 bits from an offset the last byte gives, as six digits. */
  function Truncate(sum: seq<int>): string
    requires |sum| == 20 && forall i :: 0 <= i < 20 ==> 0 <= sum[i] <= 255
  {
    var offset := sum[19] % 16;
    var high := sum[offset] % 128 * 0x100_0000 + sum[offset + 1] * 0x1_0000;
    var value := high + sum[offset + 2] * 0x100 + sum[offset + 3];
    FixedDigits(value, DIGITS)
  }

  function CodeAt(c: Crypto, key: string, counter: nat): string
    requires GoodMac(c)
  {
    Truncate(c.mac(key, counter))
  }

  /** The time step an instant falls in, in 64 bits; `now` is in seconds since 1970. */
  function TimeStep(now: int): nat { now % TWO64 / PERIOD }

  /** A step next to another, in 64-bit unsigned arithmetic. */
  function Nearby(step: nat, delta: int): nat
    requires step < TWO64 && -1 <= delta <= 1
  {
    (step + delta) % TWO64
  }

  function DropSpaces(s: string): string {
    if s == "" then "" else DropSpaces(s[..|s| - 1]) + if s[|s| - 1] == ' ' then "" else [s[|s| - 1]]
  }

  function Tidied(code: string): string { TrimSpace(DropSpaces(code)) }

  /** The step a code belongs to: the earliest of the last, the current and the next that shows it. `key` is None when
      the secret does not decode. */
  function Verified(c: Crypto, key: Option<string>, code: string, now: int): (r: Option<nat>)
    requires GoodMac(c)
    ensures r.Some? ==> key.Some? && exists delta :: -1 <= delta <= 1 && r.value == Nearby(TimeStep(now), delta)
    ensures r.Some? ==> CodeAt(c, key.value, r.value) == Tidied(code)
  {
    var text, step := Tidied(code), TimeStep(now);
    if |text| != DIGITS || key.None? then None
    else if CodeAt(c, key.value, Nearby(step, -1)) == text then Some(Nearby(step, -1))
    else if CodeAt(c, key.value, Nearby(step, 0)) == text then Some(Nearby(step, 0))
    else if CodeAt(c, key.value, Nearby(step, 1)) == text then Some(Nearby(step, 1))
    else None
  }

  /** An accepted step is within one of the current step, except in the first step of 1970, and every 2^64 seconds after
      it, where the step before wraps to the largest there is. */
  lemma WithinOneStep(c: Crypto, key: Option<string>, code: string, now: int)
    requires GoodMac(c) && Verified(c, key, code, now).Some?
    ensures var step, v := TimeStep(now), Verified(c, key, code, now).value;
            step - 1 <= v <= step + 1 <==> !(step == 0 && v == TWO64 - 1)
    ensures 0 <= now < TWO64 ==> TimeStep(now) == now / PERIOD
  {
    hide Tidied, CodeAt;
    var step := TimeStep(now);
    assert 0 <= step && step + 1 < TWO64 - 1;
  }

  /** A code is accepted exactly when the last, the current or the next step shows it, and belongs to the earliest of
      them that does. */
  lemma ShownIsAccepted(c: Crypto, key: string, code: string, now: int)
    requires GoodMac(c)
    ensures var shown := set d | -1 <= d <= 1 && CodeAt(c, key, Nearby(TimeStep(now), d)) == Tidied(code);
            && (Verified(c, Some(key), code, now).Some? <==> shown != {})
            && (forall d :: d in shown && (forall e :: e in shown ==> d <= e) ==>
                  Verified(c, Some(key), code, now) == Some(Nearby(TimeStep(now), d)))
  {
    hide Tidied, Truncate, Nearby, TimeStep;
    var text, step := Tidied(code), TimeStep(now);
    assert step < TWO64 by { StepIsSmall(now); }
    CodesAreSixDigits(c, key, Nearby(step, -1));
    CodesAreSixDigits(c, key, Nearby(step, 0));
    CodesAreSixDigits(c, key, Nearby(step, 1));
    var shown := set d | -1 <= d <= 1 && CodeAt(c, key, Nearby(step, d)) == text;
    assert -1 in shown <==> CodeAt(c, key, Nearby(step, -1)) == text;
    assert 0 in shown <==> CodeAt(c, key, Nearby(step, 0)) == text;
    assert 1 in shown <==> CodeAt(c, key, Nearby(step, 1)) == text;
  }

  lemma StepIsSmall(now: int)
    ensures TimeStep(now) < TWO64
  {
  }

  lemma CodesAreSixDigits(c: Crypto, key: string, counter: nat)
    requires GoodMac(c)
    ensures |CodeAt(c, key, counter)| == DIGITS
  {
    var sum := c.mac(key, counter);
    var offset := sum[19] % 16;
    FixedLength(sum[offset] % 128 * 0x100_0000 + sum[offset + 1] * 0x1_0000 + sum[offset + 2] * 0x100
                + sum[offset + 3], DIGITS);
  }

  lemma {:induction false} FixedLength(n: nat, width: nat)
    ensures |FixedDigits(n, width)| == width
  {
    if width > 0 { FixedLength(n / 10, width - 1); }
  }

  /** The example of section 5.4 of RFC 4226. */
  lemma TruncationExample()
    ensures Truncate([0x1f, 0x86, 0x98, 0x69, 0x0e, 0x02, 0xca, 0x16, 0x61, 0x85,
                      0x50, 0xef, 0x7f, 0x19, 0xda, 0x8e, 0x94, 0x5b, 0x55, 0x5a]) == "872921"
  {
    var sum := [0x1f, 0x86, 0x98, 0x69, 0x0e, 0x02, 0xca, 0x16, 0x61, 0x85,
                0x50, 0xef, 0x7f, 0x19, 0xda, 0x8e, 0x94, 0x5b, 0x55, 0x5a];
    hide Truncate;
    TruncateMeans(sum, 10);
    LastSixDigits();
  }

  /** Four bytes from the offset that the last byte gives, without their sign bit. */
  lemma TruncateMeans(sum: seq<int>, offset: nat)
    requires |sum| == 20 && (forall i :: 0 <= i < 20 ==> 0 <= sum[i] <= 255) && offset == sum[19] % 16
    ensures var v := sum[offset] % 128 * 16777216 + sum[offset + 1] * 65536 + sum[offset + 2] * 256 + sum[offset + 3];
            Truncate(sum) == FixedDigits(v, 6)
  {
    hide FixedDigits;
  }

  lemma LastSixDigits()
    ensures FixedDigits(1357872921, 6) == "872921"
  {
    assert FixedDigits(1357, 0) == "";
    assert FixedDigits(13578, 1) == "8";
    assert FixedDigits(135787, 2) == "87";
    assert FixedDigits(1357872, 3) == "872";
    assert FixedDigits(13578729, 4) == "8729";
    assert FixedDigits(135787292, 5) == "87292";
  }

  /** Spaces in a typed code make no difference, and its digits do. */
  lemma TypedWithSpaces(a: string, b: string)
    ensures Tidied(a + " " + b) == Tidied(a + b)
    ensures Digits(a) ==> Tidied(a) == a
  {
    hide DropSpaces;
    assert a + " " + b == (a + " ") + b;
    DropAppend(a + " ", b);
    DropAppend(a, " ");
    DropAppend(a, b);
    DropOne();
    assert DropSpaces(a) + "" == DropSpaces(a);
    if Digits(a) {
      DropKeeps(a);
      assert a != "" ==> IsDigit(a[0]) && IsDigit(a[|a| - 1]);
    }
  }

  lemma DropOne()
    ensures DropSpaces(" ") == ""
  {
    assert " "[..0] == "";
  }

  lemma {:induction false} DropAppend(a: string, b: string)
    ensures DropSpaces(a + b) == DropSpaces(a) + DropSpaces(b)
  {
    if b == "" {
      assert a + b == a;
    } else {
      assert (a + b)[..|a + b| - 1] == a + b[..|b| - 1];
      DropAppend(a, b[..|b| - 1]);
    }
  }

  lemma {:induction false} DropKeeps(a: string)
    requires Digits(a)
    ensures DropSpaces(a) == a
  {
    if a != "" {
      DropKeeps(a[..|a| - 1]);
      assert a == a[..|a| - 1] + [a[|a| - 1]] && IsDigit(a[|a| - 1]);
    }
  }

  // ---------- recovery codes ----------

  /** strings.ToUpper as far as it can produce an ASCII capital. */
  function Upper(c: char): char {
    if 'a' <= c <= 'z' then (c as int - 32) as char
    else if c == '\U{131}' then 'I'
    else if c == '\U{17F}' then 'S'
    else c
  }

  predicate Counts(c: char) { 'A' <= Upper(c) <= 'Z' || '2' <= c <= '7' }

  function Letters(s: string): string {
    if s == "" then "" else Letters(s[..|s| - 1]) + if Counts(s[|s| - 1]) then [Upper(s[|s| - 1])] else ""
  }

  method NormaliseRecoveryCode(code: string) returns (text: string)
    ensures text == Letters(code)
  {
    var trimmed := TrimSpace(code);
    text := "";
    for i := 0 to |trimmed|
      invariant text == Letters(trimmed[..i])
    {
      assert trimmed[..i + 1][..i] == trimmed[..i];
      if Counts(trimmed[i]) {
        text := text + [Upper(trimmed[i])];
      }
    }
    assert trimmed[..|trimmed|] == trimmed;
    TrimmingIsMoot(code);
  }

  lemma {:induction false} LettersAppend(a: string, b: string)
    ensures Letters(a + b) == Letters(a) + Letters(b)
  {
    hide Counts;
    if b == "" {
      assert a + b == a;
    } else {
      assert (a + b)[..|a + b| - 1] == a + b[..|b| - 1];
      LettersAppend(a, b[..|b| - 1]);
    }
  }

  lemma {:induction false} TrimStartIsMoot(s: string)
    ensures Letters(TrimStart(s)) == Letters(s)
  {
    if s != "" && IsSpace(s[0]) {
      TrimStartIsMoot(s[1..]);
      assert s == [s[0]] + s[1..] && [s[0]][..0] == "";
      LettersAppend([s[0]], s[1..]);
      assert Letters([s[0]]) == "";
    }
  }

  lemma {:induction false} TrimEndIsMoot(s: string)
    ensures Letters(TrimEnd(s)) == Letters(s)
  {
    if s != "" && IsSpace(s[|s| - 1]) {
      TrimEndIsMoot(s[..|s| - 1]);
    }
  }

  lemma TrimmingIsMoot(s: string)
    ensures Letters(TrimSpace(s)) == Letters(s)
  {
    TrimStartIsMoot(s);
    TrimEndIsMoot(TrimStart(s));
  }

  /** A typed code and the same code with a character retyped in the other case, or with a dash, space or any other
      character that is not a letter or one of 2 to 7 put in, are the same code. */
  lemma Retyped(a: string, c: char, d: char, b: string)
    ensures Upper(c) == Upper(d) && (Counts(c) <==> Counts(d)) ==> Letters(a + [c] + b) == Letters(a + [d] + b)
    ensures !Counts(d) ==> Letters(a + [d] + b) == Letters(a + b)
  {
    hide Counts, Upper;
    LettersAppend(a + [c], b);
    LettersAppend(a, [c]);
    LettersAppend(a + [d], b);
    LettersAppend(a, [d]);
    LettersAppend(a, b);
    assert [c][..0] == "" && [d][..0] == "";
  }

  /** A code of capital letters and the digits 2 to 7, as they are made, is kept whole. */
  lemma {:induction false} LettersKeep(code: string)
    requires forall i :: 0 <= i < |code| ==> 'A' <= code[i] <= 'Z' || '2' <= code[i] <= '7'
    ensures Letters(code) == code
  {
    if code != "" {
      var front := code[..|code| - 1];
      LettersKeep(front);
      assert code == front + [code[|code| - 1]];
      assert front + [code[|code| - 1]] == code;
      LettersAppend(front, [code[|code| - 1]]);
      LettersOne(code[|code| - 1]);
    }
  }

  lemma LettersOne(c: char)
    requires 'A' <= c <= 'Z' || '2' <= c <= '7'
    ensures Letters([c]) == [c]
  {
    assert [c][1..] == "" && [c][..0] == "";
  }

  // ---------- one account ----------

  /** `used` holds the unused and used recovery codes by hash. */
  datatype State = State(key: Option<string>, enabled: bool, lastCounter: nat, used: map<string, bool>)

  datatype Step =
    | Confirm(code: string, now: int, spend: Write, update: Write)   // turning two-factor on
    | Enter(code: string, now: int, spend: Write)                    // signing in or stepping up
    | Setup(key: Option<string>)           // a new secret, not yet confirmed
    | Disable
    | Replace(hashes: set<string>)         // a fresh set of recovery codes

  datatype Pass =
    | ByCode(counter: nat)
    | ByRecovery(hash: string)
    | Confirmed(counter: nat)
    | NoPass

  /** SpendTOTPCounter: None for a counter the database driver refuses or a write that reports an error, else whether
      the counter was later than the last. */
  function Spend(s: State, counter: nat, w: Write): (State, Option<bool>) {
    if counter >= TWO64 / 2 || !Lands(w) then (s, None)
    else
      var t := if s.lastCounter < counter then s.(lastCounter := counter) else s;
      (t, if Reports(w) then None else Some(s.lastCounter < counter))
  }

  function RecoveryHash(c: Crypto, code: string): string { c.hash("recovery:" + Letters(code)) }

  function SpendSecondFactor(c: Crypto, s: State, code: string, now: int, w: Write): (State, Pass)
    requires GoodMac(c)
  {
    var counter := Verified(c, s.key, code, now);
    if counter.Some? then
      var (t, spent) := Spend(s, counter.value, w);
      if spent == Some(true) then (t, ByCode(counter.value)) else (t, NoPass)
    else
      var h := RecoveryHash(c, code);
      if h in s.used && !s.used[h] && Lands(w) then
        (s.(used := s.used[h := true]), if Reports(w) then NoPass else ByRecovery(h))
      else (s, NoPass)
  }

  /** The step that confirms is spent whether or not it was still unspent, and before two-factor is on. */
  function ConfirmTOTP(c: Crypto, s: State, code: string, now: int, w: Write, update: Write): (State, Pass)
    requires GoodMac(c)
  {
    var counter := Verified(c, s.key, code, now);
    if counter.None? then (s, NoPass)
    else
      var (t, spent) := Spend(s, counter.value, w);
      if spent.None? then (t, NoPass)
      else
        var pass := if Reports(update) then NoPass else Confirmed(counter.value);
        (if Lands(update) then t.(enabled := true) else t, pass)
  }

  function Do(c: Crypto, s: State, step: Step): (State, Pass)
    requires GoodMac(c)
  {
    match step
    case Confirm(code, now, spend, update) => ConfirmTOTP(c, s, code, now, spend, update)
    case Enter(code, now, spend) => if s.enabled then SpendSecondFactor(c, s, code, now, spend) else (s, NoPass)
    case Setup(key) => (s.(key := key, enabled := false), NoPass)
    case Disable => (s.(key := None, enabled := false, used := map[]), NoPass)
    case Replace(hashes) => (s.(used := map h | h in hashes :: false), NoPass)
  }

  class Account {
    const crypto: Crypto
    var key: Option<string>
    var enabled: bool
    var lastCounter: nat
    var used: map<string, bool>

    ghost function View(): State
      reads this
    {
      State(key, enabled, lastCounter, used)
    }

    constructor (crypto: Crypto)
      ensures this.crypto == crypto && View() == State(None, false, 0, map[])
    {
      this.crypto, this.key, this.enabled, this.lastCounter, this.used := crypto, None, false, 0, map[];
    }

    /** The loop over the three steps. */
    method VerifyTOTP(code: string, now: int) returns (r: Option<nat>)
      requires GoodMac(crypto)
      ensures r == Verified(crypto, key, code, now)
    {
      hide Truncate, Tidied;
      var text := Tidied(code);
      if |text| != DIGITS || key.None? {
        return None;
      }
      var step := TimeStep(now);
      for delta := -1 to 2
        invariant forall d :: -1 <= d < delta ==> CodeAt(crypto, key.value, Nearby(step, d)) != text
      {
        if CodeAt(crypto, key.value, Nearby(step, delta)) == text {
          return Some(Nearby(step, delta));
        }
      }
      assert CodeAt(crypto, key.value, Nearby(step, -1)) != text;
      assert CodeAt(crypto, key.value, Nearby(step, 0)) != text;
      assert CodeAt(crypto, key.value, Nearby(step, 1)) != text;
      return None;
    }

    method SpendCounter(counter: nat, w: Write) returns (spent: Option<bool>)
      modifies this`lastCounter
      ensures (View(), spent) == Spend(old(View()), counter, w)
    {
      if counter >= TWO64 / 2 || !Lands(w) {
        return None;
      }
      var later := lastCounter < counter;
      if later {
        lastCounter := counter;
      }
      return if Reports(w) then None else Some(later);
    }

    method UseRecoveryCode(h: string, w: Write) returns (usedUp: bool)
      modifies this`used
      ensures usedUp <==> h in old(used) && !old(used)[h] && w.Done?
      ensures used == if h in old(used) && !old(used)[h] && Lands(w) then old(used)[h := true] else old(used)
    {
      if h !in used || used[h] || !Lands(w) {
        return false;
      }
      used := used[h := true];
      return !Reports(w);
    }

    method SpendFactor(code: string, now: int, w: Write) returns (pass: Pass)
      requires GoodMac(crypto)
      modifies this`lastCounter, this`used
      ensures (View(), pass) == SpendSecondFactor(crypto, old(View()), code, now, w)
    {
      hide Verified, Letters;
      var counter := VerifyTOTP(code, now);
      if counter.Some? {
        var spent := SpendCounter(counter.value, w);
        if spent == Some(true) {
          return ByCode(counter.value);
        }
        return NoPass;
      }
      var normal := NormaliseRecoveryCode(code);
      var h := crypto.hash("recovery:" + normal);
      var usedUp := UseRecoveryCode(h, w);
      return if usedUp then ByRecovery(h) else NoPass;
    }

    method Confirm(code: string, now: int, w: Write, update: Write) returns (pass: Pass)
      requires GoodMac(crypto)
      modifies this`lastCounter, this`enabled
      ensures (View(), pass) == ConfirmTOTP(crypto, old(View()), code, now, w, update)
    {
      hide Verified;
      var counter := VerifyTOTP(code, now);
      if counter.None? {
        return NoPass;
      }
      var spent := SpendCounter(counter.value, w);
      if spent.None? {
        return NoPass;
      }
      if Lands(update) {
        enabled := true;
      }
      return if Reports(update) then NoPass else Confirmed(counter.value);
    }
  }

  // ---------- runs ----------

  ghost predicate IsRun(c: Crypto, run: seq<State>, steps: seq<Step>, passes: seq<Pass>)
    requires GoodMac(c)
  {
    && |run| == |steps| + 1 && |passes| == |steps|
    && forall i :: 0 <= i < |steps| ==> (run[i + 1], passes[i]) == Do(c, run[i], steps[i])
  }

  lemma StepAdvances(c: Crypto, s: State, step: Step)
    requires GoodMac(c)
    ensures var (t, p) := Do(c, s, step);
            && s.lastCounter <= t.lastCounter
            && (p.ByCode? ==> s.lastCounter < p.counter == t.lastCounter)
            && (p.Confirmed? ==> p.counter <= t.lastCounter)
  {
    hide Verified, RecoveryHash;
  }

  /** A step that gets past, or that confirms, is within one of the step of the clock, whatever the clock reads: the
      database refuses the one that wraps. */
  lemma PassesAreNear(c: Crypto, s: State, step: Step)
    requires GoodMac(c)
    ensures var p := Do(c, s, step).1;
            (p.ByCode? || p.Confirmed?) ==>
              && (step.Enter? || step.Confirm?)
              && TimeStep(step.now) - 1 <= p.counter <= TimeStep(step.now) + 1
  {
    hide Verified, RecoveryHash;
    if (step.Enter? || step.Confirm?) && Verified(c, s.key, step.code, step.now).Some? {
      WithinOneStep(c, s.key, step.code, step.now);
    }
  }

  lemma {:induction false} CounterGrows(c: Crypto, run: seq<State>, steps: seq<Step>, passes: seq<Pass>, i: nat, j: nat)
    requires GoodMac(c) && IsRun(c, run, steps, passes) && i <= j < |run|
    ensures run[i].lastCounter <= run[j].lastCounter
    decreases j - i
  {
    hide Do;
    if i < j {
      CounterGrows(c, run, steps, passes, i, j - 1);
      assert (run[j - 1 + 1], passes[j - 1]) == Do(c, run[j - 1], steps[j - 1]);
      StepAdvances(c, run[j - 1], steps[j - 1]);
    }
  }

  /** In every run, a time step gets past the second factor only if it is later than every step used before it, to get
      past or to confirm: at most once each, and not at all after confirming. */
  lemma StepsAreSpentOnce(c: Crypto, run: seq<State>, steps: seq<Step>, passes: seq<Pass>, i: nat, j: nat)
    requires GoodMac(c) && IsRun(c, run, steps, passes) && i < j < |passes|
    requires (passes[i].ByCode? || passes[i].Confirmed?) && passes[j].ByCode?
    ensures passes[i].counter < passes[j].counter
  {
    hide Do;
    assert (run[i + 1], passes[i]) == Do(c, run[i], steps[i]);
    assert (run[j + 1], passes[j]) == Do(c, run[j], steps[j]);
    StepAdvances(c, run[i], steps[i]);
    StepAdvances(c, run[j], steps[j]);
    CounterGrows(c, run, steps, passes, i + 1, j);
  }

  /** When the database does as it is told, an account with two-factor on lets a step past that is later than any used,
      and a recovery code that is unused; and turning it on succeeds with any step that is shown. */
  lemma GoodCodesPass(c: Crypto, s: State, code: string, now: int)
    requires GoodMac(c) && s.enabled
    ensures var v := Verified(c, s.key, code, now);
            var h := RecoveryHash(c, code);
            && (v.Some? && s.lastCounter < v.value < TWO64 / 2 ==>
                  Do(c, s, Enter(code, now, Done)) == (s.(lastCounter := v.value), ByCode(v.value)))
            && (v.None? && h in s.used && !s.used[h] ==>
                  Do(c, s, Enter(code, now, Done)) == (s.(used := s.used[h := true]), ByRecovery(h)))
            && (v.Some? && v.value < TWO64 / 2 ==>
                  var (t, p) := Do(c, s.(enabled := false), Confirm(code, now, Done, Done));
                  p == Confirmed(v.value) && t.enabled && t.used == s.used && t.key == s.key)
  {
    hide Verified, RecoveryHash;
  }

  /** Turning two-factor off forgets the secret and every recovery code, but not which steps were used; and without it
      no code lets anybody past. */
  lemma DisableForgets(c: Crypto, s: State, code: string, now: int, w: Write)
    requires GoodMac(c)
    ensures var t := Do(c, s, Disable).0;
            t.key.None? && !t.enabled && t.used == map[] && t.lastCounter == s.lastCounter
    ensures !s.enabled ==> Do(c, s, Enter(code, now, w)) == (s, NoPass)
    ensures forall key :: !Do(c, s, Setup(key)).0.enabled && Do(c, s, Setup(key)).0.lastCounter == s.lastCounter
  {
    hide Verified;
  }

  lemma SpentStaysSpent(c: Crypto, s: State, step: Step, h: string)
    requires GoodMac(c) && (h !in s.used || s.used[h])
    requires step.Replace? ==> h !in step.hashes
    ensures var (t, p) := Do(c, s, step); (h !in t.used || t.used[h]) && p != ByRecovery(h)
  {
    hide Verified, RecoveryHash;
  }

  /** Between two uses of a recovery code there is a fresh set that holds it again: each code works once, however it is
      typed. */
  lemma RecoveryCodesWorkOnce(c: Crypto, run: seq<State>, steps: seq<Step>, passes: seq<Pass>, i: nat, j: nat,
                              h: string)
    requires GoodMac(c) && IsRun(c, run, steps, passes) && i < j < |passes|
    requires passes[i] == ByRecovery(h)
    requires forall k :: i < k < j && steps[k].Replace? ==> h !in steps[k].hashes
    ensures passes[j] != ByRecovery(h)
  {
    hide Do;
    assert (run[i + 1], passes[i]) == Do(c, run[i], steps[i]);
    UsedUp(c, run[i], steps[i], h);
    StillUsed(c, run, steps, passes, i + 1, j, h);
    assert (run[j + 1], passes[j]) == Do(c, run[j], steps[j]);
    if passes[j] == ByRecovery(h) {
      RecoveryIsEnter(c, run[j], steps[j], h);
      SpentStaysSpent(c, run[j], steps[j], h);
    }
  }

  lemma UsedUp(c: Crypto, s: State, step: Step, h: string)
    requires GoodMac(c) && Do(c, s, step).1 == ByRecovery(h)
    ensures h in Do(c, s, step).0.used && Do(c, s, step).0.used[h]
  {
    hide Verified, RecoveryHash;
  }

  lemma RecoveryIsEnter(c: Crypto, s: State, step: Step, h: string)
    requires GoodMac(c) && Do(c, s, step).1 == ByRecovery(h)
    ensures step.Enter?
  {
    hide Verified, RecoveryHash;
  }

  lemma {:induction false} StillUsed(c: Crypto, run: seq<State>, steps: seq<Step>, passes: seq<Pass>, i: nat, j: nat,
                                     h: string)
    requires GoodMac(c) && IsRun(c, run, steps, passes) && i <= j < |run|
    requires h !in run[i].used || run[i].used[h]
    requires forall k :: i <= k < j && steps[k].Replace? ==> h !in steps[k].hashes
    ensures h !in run[j].used || run[j].used[h]
    decreases j - i
  {
    hide Do;
    if i < j {
      StillUsed(c, run, steps, passes, i, j - 1, h);
      assert (run[j - 1 + 1], passes[j - 1]) == Do(c, run[j - 1], steps[j - 1]);
      SpentStaysSpent(c, run[j - 1], steps[j - 1], h);
    }
  }
}
