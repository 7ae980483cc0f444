/** Sessions: issue, authenticate and slide (internal/auth/service.go, issueSession and Authenticate;
    internal/store/users.go, CreateSession, GetSessionByHash and TouchSession). Times are in nanoseconds. Requests of
    one session may overlap: each looks its row up, decides by what it saw and by the clock, and then writes. */
module Sessions {
  import opened Text
  import opened Writes

  const SECOND := 1_000_000_000
  const MAX_LIFE := 30 * 24 * 3600 * SECOND
  const REFRESH_EVERY := 60 * SECOND

  /** `created` is None for a row whose time does not parse. */
  datatype Session = Session(user: string, created: Option<int>, lastSeen: int, expires: int)

  /** The readings of the clock one request takes before it writes, in order. */
  datatype Clock = Clock(atLookup: int, atCeiling: int, atSlide: int, atNext: int)

  predicate Between(from: int, c: Clock, to: int) {
    from <= c.atLookup <= c.atCeiling <= c.atSlide <= c.atNext <= to
  }

  datatype Verdict = LetThrough | TurnedAway

  /** The one write a request may make. `reading` is the time a new expiry was counted from. */
  datatype Op = NoOp | Delete | Touch(expires: int, reading: int)

  predicate PastCeiling(s: Session, at: int) { s.created.Some? && s.created.value + MAX_LIFE < at }

  /** Whether a request that saw this row is let in, and what it writes. */
  function Decided(ttl: int, s: Session, disabled: bool, c: Clock): (Verdict, Op) {
    if c.atLookup > s.expires then (TurnedAway, NoOp)
    else if disabled || PastCeiling(s, c.atCeiling) then (TurnedAway, Delete)
    else if c.atSlide - s.lastSeen > REFRESH_EVERY then
      var next := c.atNext + ttl;
      var capped := if PastCeiling(s, next) then s.created.value + MAX_LIFE else next;
      (LetThrough, Touch(capped, c.atNext))
    else (LetThrough, NoOp)
  }

  /** The row after a write; None is a deleted row, which no write brings back. The code does not look at what became of
      the write. */
  function Applied(row: Option<Session>, op: Op, at: int, w: Write): Option<Session> {
    if row.None? || !Lands(w) then row
    else
      match op
      case NoOp => row
      case Delete => None
      case Touch(expires, _) => Some(row.value.(lastSeen := at, expires := expires))
  }

  /** A new session: the service reads the clock for the expiry, the store for the row's times. */
  function Issued(ttl: int, user: string, issuedAt: int, storedAt: int): Session {
    Session(user, Some(storedAt), storedAt, issuedAt + ttl)
  }

  /** The sessions table, by token hash. */
  class Service {
    const ttl: int
    const hash: string -> string
    var sessions: map<string, Session>
    var disabled: set<string>

    constructor (ttl: int, hash: string -> string)
      ensures this.ttl == ttl && this.hash == hash && sessions == map[] && disabled == {}
    {
      this.ttl, this.hash, this.sessions, this.disabled := ttl, hash, map[], {};
    }

    method IssueSession(user: string, token: string, issuedAt: int, storedAt: int)
      modifies this`sessions
      ensures sessions == old(sessions)[hash(token) := Issued(ttl, user, issuedAt, storedAt)]
    {
      sessions := sessions[hash(token) := Session(user, Some(storedAt), storedAt, issuedAt + ttl)];
    }

    /** A request with nothing in between its parts. `c` and then `at` are the readings of the clock in order. */
    method Authenticate(token: string, c: Clock, at: int, w: Write) returns (v: Verdict)
      modifies this`sessions
      ensures var h := hash(token);
              if h !in old(sessions) then v == TurnedAway && sessions == old(sessions)
              else
                var s := old(sessions)[h];
                var (verdict, op) := Decided(ttl, s, s.user in disabled, c);
                var row := Applied(Some(s), op, at, w);
                v == verdict && sessions == if row.Some? then old(sessions)[h := row.value] else old(sessions) - {h}
    {
      var h := hash(token);
      if h !in sessions {
        return TurnedAway;
      }
      var s := sessions[h];
      assert sessions[h := s] == sessions;
      if c.atLookup > s.expires {
        return TurnedAway;
      }
      if s.user in disabled {
        DeleteSession(h, w);
        return TurnedAway;
      }
      if s.created.Some? && c.atCeiling > s.created.value + MAX_LIFE {
        DeleteSession(h, w);
        return TurnedAway;
      }
      if c.atSlide - s.lastSeen > REFRESH_EVERY {
        var next := c.atNext + ttl;
        if s.created.Some? && next > s.created.value + MAX_LIFE {
          next := s.created.value + MAX_LIFE;
        }
        if Lands(w) {
          sessions := sessions[h := s.(lastSeen := at, expires := next)];
        }
      }
      return LetThrough;
    }

    method DeleteSession(h: string, w: Write)
      modifies this`sessions
      ensures sessions == if Lands(w) then old(sessions) - {h} else old(sessions)
    {
      if Lands(w) {
        sessions := sessions - {h};
      }
    }
  }

  // ---------- overlapping requests of one session ----------

  /** A request that has seen a row and not decided, or has decided and not written. */
  datatype Stage = Looked(s: Session, at: int) | Writing(op: Op)

  /** The clock, the row, the reading its expiry was counted from, and the requests under way. */
  datatype State = State(now: int, row: Option<Session>, countedFrom: int, open: seq<Stage>)

  datatype Step =
    | Wait(until: int)
    | Look                                          // a request finds the row, or is turned away when there is none
    | Decide(i: nat, disabled: bool, clock: Clock)  // by readings taken since it looked
    | Write(i: nat, at: int, w: Write)

  predicate Enabled(s: State, step: Step) {
    match step
    case Wait(until) => s.now <= until
    case Look => true
    case Decide(i, _, c) => i < |s.open| && s.open[i].Looked? && Between(s.open[i].at, c, s.now)
    case Write(i, at, _) => i < |s.open| && s.open[i].Writing? && at <= s.now
  }

  function Do(ttl: int, s: State, step: Step): State
    requires Enabled(s, step)
  {
    match step
    case Wait(until) => s.(now := until)
    case Look => if s.row.None? then s else s.(open := s.open + [Looked(s.row.value, s.now)])
    case Decide(i, disabled, c) => s.(open := s.open[i := Writing(Decided(ttl, s.open[i].s, disabled, c).1)])
    case Write(i, at, w) =>
      var op := s.open[i].op;
      s.(row := Applied(s.row, op, at, w),
         countedFrom := if op.Touch? && s.row.Some? && Lands(w) then op.reading else s.countedFrom,
         open := s.open[..i] + s.open[i + 1..])
  }

  ghost predicate IsRun(ttl: int, run: seq<State>, steps: seq<Step>) {
    && |run| == |steps| + 1
    && forall i :: 0 <= i < |steps| ==> Enabled(run[i], steps[i]) && run[i + 1] == Do(ttl, run[i], steps[i])
  }

  ghost predicate LetsIn(ttl: int, s: State, step: Step) {
    step.Decide? && Enabled(s, step) && Decided(ttl, s.open[step.i].s, step.disabled, step.clock).0.LetThrough?
  }

  function Start(ttl: int, user: string, issuedAt: int, storedAt: int): State {
    State(storedAt, Some(Issued(ttl, user, issuedAt, storedAt)), issuedAt, [])
  }

  // ---------- the ceiling ----------

  /** A new expiry counted from a reading of the clock. */
  function Expiry(ttl: int, storedAt: int, reading: int): int {
    if reading + ttl > storedAt + MAX_LIFE then storedAt + MAX_LIFE else reading + ttl
  }

  /** What every state of a session's life keeps: its row and the rows its requests saw were made when it was, its
      expiry and those about to be written were counted from readings of the clock, and all but the first stay under
      the ceiling. */
  ghost predicate Good(ttl: int, issuedAt: int, storedAt: int, s: State) {
    && issuedAt <= storedAt <= s.now && s.countedFrom <= s.now
    && (s.row.Some? ==> s.row.value.created == Some(storedAt))
    && (s.row.Some? ==> || s.row.value.expires == Expiry(ttl, storedAt, s.countedFrom)
                        || (s.countedFrom == issuedAt && s.row.value.expires == issuedAt + ttl))
    && forall stage :: stage in s.open ==> GoodStage(ttl, storedAt, s.now, stage)
  }

  ghost predicate GoodStage(ttl: int, storedAt: int, now: int, stage: Stage) {
    match stage
    case Looked(s, at) => s.created == Some(storedAt) && at <= now
    case Writing(op) => op.Touch? ==> op.expires == Expiry(ttl, storedAt, op.reading) && op.reading <= now
  }

  lemma StepStaysGood(ttl: int, issuedAt: int, storedAt: int, s: State, step: Step)
    requires Good(ttl, issuedAt, storedAt, s) && Enabled(s, step)
    ensures Good(ttl, issuedAt, storedAt, Do(ttl, s, step))
  {
    var t := Do(ttl, s, step);
    forall stage | stage in t.open ensures GoodStage(ttl, storedAt, t.now, stage) {
      var j :| 0 <= j < |t.open| && t.open[j] == stage;
      if stage !in s.open && step.Decide? {
        assert s.open[step.i] in s.open;
      }
    }
    if step.Write? {
      assert s.open[step.i] in s.open;
    }
  }

  /** Over every life of a session, however its requests overlap and whatever its time to live, no request is let in
      later than 30 days after it was made, and every expiry but the first stays at or below that ceiling. */
  lemma {:induction false} SessionsEnd(ttl: int, user: string, issuedAt: int, storedAt: int, run: seq<State>,
                                       steps: seq<Step>, i: nat)
    requires IsRun(ttl, run, steps) && run[0] == Start(ttl, user, issuedAt, storedAt) && issuedAt <= storedAt
    requires i < |run|
    ensures Good(ttl, issuedAt, storedAt, run[i])
    ensures i < |steps| && LetsIn(ttl, run[i], steps[i]) ==> steps[i].clock.atCeiling <= storedAt + MAX_LIFE
    ensures run[i].row.Some? ==> || run[i].row.value.expires <= storedAt + MAX_LIFE
                                 || (run[i].countedFrom == issuedAt && run[i].row.value.expires == issuedAt + ttl)
  {
    if i > 0 {
      hide Do, Enabled, Good;
      SessionsEnd(ttl, user, issuedAt, storedAt, run, steps, i - 1);
      assert Enabled(run[i - 1], steps[i - 1]) && run[i - 1 + 1] == Do(ttl, run[i - 1], steps[i - 1]);
      StepStaysGood(ttl, issuedAt, storedAt, run[i - 1], steps[i - 1]);
    }
    CeilingHolds(ttl, issuedAt, storedAt, run[i]);
    if i < |steps| && LetsIn(ttl, run[i], steps[i]) {
      LetInUnderCeiling(ttl, issuedAt, storedAt, run[i], steps[i]);
    }
  }

  lemma CeilingHolds(ttl: int, issuedAt: int, storedAt: int, s: State)
    requires Good(ttl, issuedAt, storedAt, s)
    ensures s.row.Some? ==> || s.row.value.expires <= storedAt + MAX_LIFE
                            || (s.countedFrom == issuedAt && s.row.value.expires == issuedAt + ttl)
  {
  }

  lemma LetInUnderCeiling(ttl: int, issuedAt: int, storedAt: int, s: State, step: Step)
    requires Good(ttl, issuedAt, storedAt, s) && LetsIn(ttl, s, step)
    ensures step.clock.atCeiling <= storedAt + MAX_LIFE
  {
    assert s.open[step.i] in s.open;
  }

  // ---------- what one request does ----------

  /** A request is let in exactly when the row has not expired, its user is not disabled, and it is not 30 days old. */
  lemma LetInExactly(ttl: int, s: Session, disabled: bool, c: Clock)
    ensures Decided(ttl, s, disabled, c).0.LetThrough? <==>
            && c.atLookup <= s.expires && !disabled
            && (s.created.Some? ==> c.atCeiling <= s.created.value + 2_592_000 * SECOND)
  {
  }

  /** A request that is let in refreshes the expiry exactly when the row was last seen more than a minute ago, to its
      time to live from then, or to the ceiling if that is nearer. One that is turned away deletes the row unless it
      had expired. */
  lemma WritesExactly(ttl: int, s: Session, disabled: bool, c: Clock)
    ensures var (v, op) := Decided(ttl, s, disabled, c);
            && (v.LetThrough? ==> (op.Touch? <==> c.atSlide - s.lastSeen > 60_000_000_000) && !op.Delete?)
            && (v.LetThrough? && op.Touch? && s.created.Some? ==>
                  op.expires == Expiry(ttl, s.created.value, c.atNext) && op.reading == c.atNext)
            && (v.LetThrough? && op.Touch? && s.created.None? ==> op == Touch(c.atNext + ttl, c.atNext))
            && (v.TurnedAway? ==> !op.Touch? && (op.Delete? <==> c.atLookup <= s.expires))
  {
  }

  /** A refresh that takes effect changes when the row was last seen and when it expires, and so holds off the next one
      for a minute. */
  lemma RefreshHoldsOff(ttl: int, s: Session, op: Op, at: int, w: Write, disabled: bool, c: Clock)
    requires op.Touch? && Lands(w)
    ensures var row := Applied(Some(s), op, at, w);
            && row == Some(Session(s.user, s.created, at, op.expires))
            && (c.atSlide <= at + 60_000_000_000 ==> !Decided(ttl, row.value, disabled, c).1.Touch?)
  {
  }

  // ---------- when a refresh shortens ----------

  /** With a time to live of at most 30 days, a refresh brings the expiry forward if and only if it was counted from an
      earlier reading than the expiry it replaces, and ends below the ceiling; and then by no more than the time since
      that reading. Only requests that overlap do that. */
  lemma WriteShortensExactly(ttl: int, issuedAt: int, storedAt: int, s: State, step: Step)
    requires Good(ttl, issuedAt, storedAt, s) && ttl <= MAX_LIFE
    requires step.Write? && Enabled(s, step) && s.open[step.i].op.Touch? && s.row.Some? && Lands(step.w)
    ensures var before, after, op := s.row.value.expires, Do(ttl, s, step).row.value.expires, s.open[step.i].op;
            && (after < before <==> op.reading < s.countedFrom && op.reading + ttl < storedAt + MAX_LIFE)
            && before - after <= s.now - op.reading
  {
    assert s.open[step.i] in s.open;
  }

  /** Two requests a second apart, of which the earlier writes last: the expiry comes forward by that second. */
  lemma OverlapShortens(user: string) returns (run: seq<State>, steps: seq<Step>)
    ensures var ttl := 600 * SECOND;
            && IsRun(ttl, run, steps) && run[0] == Start(ttl, user, 0, 0) && |run| > 1
            && run[|run| - 1].row.Some? && run[|run| - 2].row.Some?
            && run[|run| - 1].row.value.expires == run[|run| - 2].row.value.expires - SECOND
  {
    hide IsRun;
    var ttl, a, b := 600 * SECOND, 61 * SECOND, 62 * SECOND;
    var s0 := Start(ttl, user, 0, 0);
    var early, late := Writing(Touch(a + ttl, a)), Writing(Touch(b + ttl, b));
    run, steps := OneRequest(ttl, [s0], [], a);
    assert run[|run| - 1] == s0.(now := a, open := [early]);
    run, steps := OneRequest(ttl, run, steps, b);
    var s := run[|run| - 1];
    assert s == s0.(now := b, open := [early, late]);
    run, steps := Extend(ttl, run, steps, Write(1, b, Done));
    assert run[|run| - 1].open == [early];
    run, steps := Extend(ttl, run, steps, Write(0, b, Done));
  }

  lemma Extend(ttl: int, run: seq<State>, steps: seq<Step>, step: Step) returns (run': seq<State>, steps': seq<Step>)
    requires (IsRun(ttl, run, steps) || (|run| == 1 && steps == [])) && |run| > 0 && Enabled(run[|run| - 1], step)
    ensures IsRun(ttl, run', steps') && |run'| == |run| + 1 && run'[..|run|] == run && run'[0] == run[0]
    ensures run'[|run|] == Do(ttl, run[|run| - 1], step) && run'[|run| - 1] == run[|run| - 1]
  {
    hide Do, Enabled;
    run', steps' := run + [Do(ttl, run[|run| - 1], step)], steps + [step];
  }

  /** A request that comes at a time, looks and decides. */
  lemma OneRequest(ttl: int, run: seq<State>, steps: seq<Step>, at: int) returns (run': seq<State>, steps': seq<Step>)
    requires (IsRun(ttl, run, steps) || (|run| == 1 && steps == [])) && |run| > 0
    requires run[|run| - 1].row.Some? && run[|run| - 1].now <= at
    ensures IsRun(ttl, run', steps') && |run'| > 0 && run'[0] == run[0]
    ensures var s := run[|run| - 1];
            var op := Decided(ttl, s.row.value, false, Clock(at, at, at, at)).1;
            run'[|run'| - 1] == s.(now := at, open := s.open + [Writing(op)])
  {
    hide IsRun, Decided;
    var s := run[|run| - 1];
    run', steps' := Extend(ttl, run, steps, Wait(at));
    run', steps' := Extend(ttl, run', steps', Look);
    var t := run'[|run'| - 1];
    assert t.open == s.open + [Looked(s.row.value, at)];
    run', steps' := Extend(ttl, run', steps', Decide(|s.open|, false, Clock(at, at, at, at)));
    assert t.open[|s.open| := Writing(Decided(ttl, s.row.value, false, Clock(at, at, at, at)).1)] ==
           s.open + [Writing(Decided(ttl, s.row.value, false, Clock(at, at, at, at)).1)];
  }

  /** No reading that will be written is earlier than the one the expiry was counted from. */
  ghost predicate InOrder(s: State) {
    forall stage :: stage in s.open ==>
      match stage
      case Looked(_, at) => s.countedFrom <= at
      case Writing(op) => op.Touch? ==> s.countedFrom <= op.reading
  }

  /** When the requests of a session do not overlap, no refresh ever brings its expiry forward. */
  lemma {:induction false} SerialNeverShortens(ttl: int, user: string, issuedAt: int, storedAt: int, run: seq<State>,
                                               steps: seq<Step>, i: nat)
    requires IsRun(ttl, run, steps) && run[0] == Start(ttl, user, issuedAt, storedAt) && issuedAt <= storedAt
    requires ttl <= MAX_LIFE && i < |run| && forall j :: 0 <= j < |run| ==> |run[j].open| <= 1
    ensures InOrder(run[i])
    ensures i > 0 && run[i - 1].row.Some? && run[i].row.Some? ==>
              run[i - 1].row.value.expires <= run[i].row.value.expires
  {
    if i > 0 {
      var s, step := run[i - 1], steps[i - 1];
      SerialNeverShortens(ttl, user, issuedAt, storedAt, run, steps, i - 1);
      SessionsEnd(ttl, user, issuedAt, storedAt, run, steps, i - 1);
      assert Enabled(s, step) && run[i - 1 + 1] == Do(ttl, s, step);
      SerialStep(ttl, issuedAt, storedAt, s, step);
      if step.Write? {
        assert s.open[step.i] in s.open;
        if s.open[step.i].op.Touch? && s.row.Some? && Lands(step.w) {
          WriteShortensExactly(ttl, issuedAt, storedAt, s, step);
        }
      }
    }
  }

  lemma SerialStep(ttl: int, issuedAt: int, storedAt: int, s: State, step: Step)
    requires Good(ttl, issuedAt, storedAt, s) && Enabled(s, step) && InOrder(s)
    requires |s.open| <= 1 && |Do(ttl, s, step).open| <= 1
    ensures InOrder(Do(ttl, s, step))
  {
    var t := Do(ttl, s, step);
    if step.Decide? || step.Write? {
      assert step.i == 0 && s.open == [s.open[0]] && s.open[0] in s.open;
    }
    assert forall stage :: stage in t.open ==> stage == t.open[0];
  }

  // ---------- turned away for good ----------

  /** Past its expiry or past its ceiling. */
  predicate Over(s: Session, at: int) { s.expires < at || PastCeiling(s, at) }

  /** Some request can still be let in: the row is not over, or a request under way saw one that was not, or is about to
      write an expiry that has not come. */
  ghost predicate Alive(s: State) {
    || (s.row.Some? && !Over(s.row.value, s.now))
    || (exists stage :: stage in s.open && Hopeful(s, stage))
  }

  predicate Hopeful(s: State, stage: Stage) {
    match stage
    case Looked(seen, at) => !Over(seen, at)
    case Writing(op) => op.Touch? && s.row.Some? && s.now <= op.expires
  }

  /** A run from a state in which some request is let in. */
  ghost predicate Returns(ttl: int, s: State, run: seq<State>, steps: seq<Step>) {
    IsRun(ttl, run, steps) && run[0] == s && |steps| > 0 && LetsIn(ttl, run[|steps| - 1], steps[|steps| - 1])
  }

  lemma DeadStep(ttl: int, s: State, step: Step)
    requires !Alive(s) && Enabled(s, step)
    ensures !Alive(Do(ttl, s, step)) && !LetsIn(ttl, s, step)
  {
    var t := Do(ttl, s, step);
    if step.Decide? || step.Write? {
      assert s.open[step.i] in s.open && !Hopeful(s, s.open[step.i]);
    }
    forall stage | stage in t.open ensures !Hopeful(t, stage) {
      assert stage in s.open ==> !Hopeful(s, stage);
    }
  }

  lemma {:induction false} DeadStays(ttl: int, run: seq<State>, steps: seq<Step>, i: nat)
    requires IsRun(ttl, run, steps) && !Alive(run[0]) && i < |run|
    ensures !Alive(run[i])
  {
    if i > 0 {
      hide Alive, Do, Enabled;
      DeadStays(ttl, run, steps, i - 1);
      assert Enabled(run[i - 1], steps[i - 1]) && run[i - 1 + 1] == Do(ttl, run[i - 1], steps[i - 1]);
      DeadStep(ttl, run[i - 1], steps[i - 1]);
    }
  }

  /** A request that looks at a row that is not over, and decides at once. */
  lemma LookAndEnter(ttl: int, s: State) returns (run: seq<State>, steps: seq<Step>)
    requires s.row.Some? && !Over(s.row.value, s.now)
    ensures Returns(ttl, s, run, steps)
  {
    var look, decide := Look, Decide(|s.open|, false, Clock(s.now, s.now, s.now, s.now));
    var t := Do(ttl, s, look);
    steps, run := [look, decide], [s, t, Do(ttl, t, decide)];
  }

  lemma Revive(ttl: int, issuedAt: int, storedAt: int, s: State) returns (run: seq<State>, steps: seq<Step>)
    requires Good(ttl, issuedAt, storedAt, s) && Alive(s)
    ensures Returns(ttl, s, run, steps)
  {
    if s.row.Some? && !Over(s.row.value, s.now) {
      run, steps := LookAndEnter(ttl, s);
    } else {
      var stage :| stage in s.open && Hopeful(s, stage);
      var i :| 0 <= i < |s.open| && s.open[i] == stage;
      assert GoodStage(ttl, storedAt, s.now, stage);
      if stage.Looked? {
        var decide := Decide(i, false, Clock(stage.at, stage.at, stage.at, stage.at));
        steps, run := [decide], [s, Do(ttl, s, decide)];
      } else {
        var write := Write(i, s.now, Done);
        var t := Do(ttl, s, write);
        run, steps := LookAndEnter(ttl, t);
        run, steps := [s] + run, [write] + steps;
        StillRun(ttl, s, write, run, steps);
      }
    }
  }

  lemma StillRun(ttl: int, s: State, step: Step, run: seq<State>, steps: seq<Step>)
    requires |run| > 1 && |steps| > 1 && run[0] == s && steps[0] == step && Enabled(s, step)
    requires Returns(ttl, Do(ttl, s, step), run[1..], steps[1..])
    ensures Returns(ttl, s, run, steps)
  {
    hide Do, Enabled, LetsIn;
    var r, t := run[1..], steps[1..];
    forall i | 0 <= i < |steps| ensures Enabled(run[i], steps[i]) && run[i + 1] == Do(ttl, run[i], steps[i]) {
      if i > 0 {
        assert Enabled(r[i - 1], t[i - 1]) && r[i - 1 + 1] == Do(ttl, r[i - 1], t[i - 1]);
      }
    }
    assert t[|t| - 1] == steps[|steps| - 1] && r[|t| - 1] == run[|steps| - 1];
  }

  /** A session is never let in again, in whatever run follows, if and only if its row is over and no request under
      way saw it before or is about to refresh it. A request that is turned away is no sign of that by itself: its
      user may be enabled again when the delete had no effect, and a slow refresh may still come. */
  lemma RefusedForGood(ttl: int, issuedAt: int, storedAt: int, s: State)
    requires Good(ttl, issuedAt, storedAt, s)
    ensures (exists run, steps :: Returns(ttl, s, run, steps)) <==> Alive(s)
  {
    hide Alive, Good;
    if Alive(s) {
      var run, steps := Revive(ttl, issuedAt, storedAt, s);
    } else if exists run, steps :: Returns(ttl, s, run, steps) {
      NoReturn(ttl, s);
    }
  }

  lemma NoReturn(ttl: int, s: State)
    requires !Alive(s)
    ensures !exists run, steps :: Returns(ttl, s, run, steps)
  {
    hide Alive, Do, Enabled, LetsIn;
    forall run, steps ensures !Returns(ttl, s, run, steps) {
      if Returns(ttl, s, run, steps) {
        var last := |steps| - 1;
        DeadStays(ttl, run, steps, last);
        assert Enabled(run[last], steps[last]);
        DeadStep(ttl, run[last], steps[last]);
      }
    }
  }

  /** A session whose user is disabled and whose delete had no effect works again as soon as the user is enabled. */
  lemma SparedComesBack(ttl: int, s: Session, at: int)
    requires !Over(s, at)
    ensures var c := Clock(at, at, at, at);
            && Decided(ttl, s, true, c) == (TurnedAway, Delete) && Applied(Some(s), Delete, at, Refused) == Some(s)
            && Decided(ttl, s, false, c).0 == LetThrough
  {
  }

  /** A longer time to live does shorten: the first refresh brings the expiry down to the ceiling. */
  lemma LongTimeToLiveIsCut(ttl: int, user: string, at: int)
    requires ttl > MAX_LIFE
    ensures var s := Issued(ttl, user, at, at);
            var later := at + REFRESH_EVERY + 1;
            var (v, op) := Decided(ttl, s, false, Clock(later, later, later, later));
            v.LetThrough? && op.Touch? && op.expires == at + MAX_LIFE < s.expires
  {
  }
}
