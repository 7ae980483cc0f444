/** What wakes the log handler (internal/api/stream_handlers.go, handleAppLogs): one goroutine reads the log into a
    channel of lines and a channel for an error, and the handler's select takes from whichever of them is ready. */
module LogPipe {
  import opened Text
  import opened EventStream

  const ROOM := 64

  /** A log: its lines, and the error that ends it, if one does. */
  datatype Log = Log(lines: seq<string>, error: Option<string>)

  datatype Ended = Going | ByError | ByClose | ByClient | ByWrite

  /** How many lines were put in the channel and taken out, whether the error was put in its own and the first was
      closed, whether the client went away, how the handler ended, and what woke it. */
  datatype State = State(sent: nat, taken: nat, errorSent: bool, closed: bool, gone: bool, ended: Ended,
                         wakes: seq<Wake>)

  const START_STATE := State(0, 0, false, false, false, Going, [])

  datatype Step =
    | Send | SendError | Close | Abort          // the reading goroutine; it aborts when the client is gone
    | Leave                                     // the client goes away
    | TakeLine | TakeError | SeeClosed | SeeGone | Beat   // the select
    | WriteFails                                // the last frame could not be written

  predicate Enabled(log: Log, s: State, step: Step) {
    match step
    case Send => !s.closed && s.sent < |log.lines| && s.sent - s.taken < ROOM
    case SendError => !s.closed && s.sent == |log.lines| && log.error.Some? && !s.errorSent
    case Close => !s.closed && s.sent == |log.lines| && (log.error.Some? ==> s.errorSent)
    case Abort => s.gone && !s.closed
    case Leave => true
    case TakeLine => s.ended.Going? && s.taken < s.sent
    case TakeError => s.ended.Going? && s.errorSent
    case SeeClosed => s.ended.Going? && s.closed && s.taken == s.sent
    case SeeGone => s.ended.Going? && s.gone
    case Beat => s.ended.Going?
    case WriteFails => s.ended.Going?
  }

  function Do(log: Log, s: State, step: Step): State
    requires Enabled(log, s, step) && Consistent(log, s)
  {
    match step
    case Send => s.(sent := s.sent + 1)
    case SendError => s.(errorSent := true)
    case Close => s.(closed := true)
    case Abort => s.(closed := true)
    case Leave => s.(gone := true)
    case TakeLine => s.(taken := s.taken + 1, wakes := s.wakes + [Line(log.lines[s.taken])])
    case TakeError => s.(ended := ByError, wakes := s.wakes + [ReadError(log.error.value)])
    case SeeClosed => s.(ended := ByClose, wakes := s.wakes + [Closed])
    case SeeGone => s.(ended := ByClient, wakes := s.wakes + [Gone])
    case Beat => s.(wakes := s.wakes + [Heartbeat])
    case WriteFails => s.(ended := ByWrite)
  }

  predicate Consistent(log: Log, s: State) {
    && s.taken <= s.sent <= |log.lines| && s.sent - s.taken <= ROOM
    && (s.errorSent ==> log.error.Some? && s.sent == |log.lines|)
  }

  ghost predicate IsRun(log: Log, run: seq<State>, steps: seq<Step>) {
    && |run| == |steps| + 1 && run[0] == START_STATE
    && forall i :: 0 <= i < |steps| ==>
         Consistent(log, run[i]) && Enabled(log, run[i], steps[i]) && run[i + 1] == Do(log, run[i], steps[i])
  }

  // ---------- what the wakes amount to ----------

  function Logs(lines: seq<string>): seq<Event> {
    if lines == [] then [] else Logs(lines[..|lines| - 1]) + [Event("log", Quoted(lines[|lines| - 1]))]
  }

  function ErrorEvent(error: Option<string>): seq<Event> {
    if error.None? then [] else [Event("error", Quoted(error.value))]
  }

  /** Everything the log has to say. */
  function Everything(log: Log): seq<Event> { Logs(log.lines) + ErrorEvent(log.error) }

  ghost predicate Open(wakes: seq<Wake>) { forall w :: w in wakes ==> !Last(w) }

  lemma {:induction false} ExpectedSnoc(wakes: seq<Wake>, w: Wake)
    requires Open(wakes)
    ensures Expected(wakes + [w]) == Expected(wakes) + FrameEvents(w)
  {
    hide FrameEvents;
    if wakes == [] {
      assert [w][1..] == [] && [] + [w] == [w];
    } else {
      assert wakes[0] in wakes;
      assert (wakes + [w])[1..] == wakes[1..] + [w];
      ExpectedSnoc(wakes[1..], w);
    }
  }

  lemma {:induction false} LogsLength(lines: seq<string>)
    ensures |Logs(lines)| == |lines|
  {
    if lines != [] { LogsLength(lines[..|lines| - 1]); }
  }

  /** What every state keeps: the events written are those of the lines taken, in order, and of the error if it was
      taken; and the handler ends by the end of the channel only when all lines were taken, or the client is gone. */
  ghost predicate Good(log: Log, s: State) {
    && Consistent(log, s) && (s.ended.Going? ==> Open(s.wakes))
    && Expected(s.wakes) == Logs(log.lines[..s.taken]) + (if s.ended.ByError? then ErrorEvent(log.error) else [])
    && (s.closed && !s.gone ==> s.sent == |log.lines|)
    && (s.ended.ByError? ==> s.errorSent)
    && (s.ended.ByClose? ==> s.closed && s.taken == s.sent)
  }

  lemma StepStaysGood(log: Log, s: State, step: Step)
    requires Good(log, s) && Enabled(log, s, step)
    ensures Good(log, Do(log, s, step))
  {
    hide Expected, Logs, Quoted;
    if step.TakeLine? {
      LogsSnoc(log.lines, s.taken);
      ExpectedSnoc(s.wakes, Line(log.lines[s.taken]));
    } else if step.TakeError? {
      ExpectedSnoc(s.wakes, ReadError(log.error.value));
    } else if step.SeeClosed? {
      ExpectedSnoc(s.wakes, Closed);
    } else if step.SeeGone? {
      ExpectedSnoc(s.wakes, Gone);
    } else if step.Beat? {
      ExpectedSnoc(s.wakes, Heartbeat);
    }
  }

  lemma LogsSnoc(lines: seq<string>, n: nat)
    requires n < |lines|
    ensures Logs(lines[..n + 1]) == Logs(lines[..n]) + [Event("log", Quoted(lines[n]))]
  {
    assert lines[..n + 1][..n] == lines[..n];
  }

  /** In every run, the lines written are a prefix of the log, in order, with none twice and none left out between, and
      an error comes after them only if it is the log's. */
  lemma {:induction false} LinesInOrder(log: Log, run: seq<State>, steps: seq<Step>, i: nat)
    requires IsRun(log, run, steps) && i < |run|
    ensures Good(log, run[i])
  {
    hide Good, Do, Enabled;
    if i == 0 {
      StartIsGood(log);
    } else {
      LinesInOrder(log, run, steps, i - 1);
      assert Enabled(log, run[i - 1], steps[i - 1]) && run[i - 1 + 1] == Do(log, run[i - 1], steps[i - 1]);
      StepStaysGood(log, run[i - 1], steps[i - 1]);
    }
  }

  lemma StartIsGood(log: Log)
    ensures Good(log, START_STATE)
  {
    assert log.lines[..0] == [];
  }

  /** When a handler ends, and neither the client nor a write ended it, everything the log had to say was written if and
      only if it ended by the error with no line waiting in the channel, or by the end of a log that has no error. */
  lemma EverythingArrives(log: Log, run: seq<State>, steps: seq<Step>, i: nat)
    requires IsRun(log, run, steps) && i < |run|
    requires run[i].ended in {ByError, ByClose} && !run[i].gone
    ensures var s := run[i];
            Expected(s.wakes) == Everything(log) <==>
            (s.ended.ByError? && s.taken == s.sent) || (s.ended.ByClose? && log.error.None?)
  {
    hide Expected, Logs;
    LinesInOrder(log, run, steps, i);
    var s := run[i];
    LogsLength(log.lines);
    LogsLength(log.lines[..s.taken]);
    assert log.lines[..|log.lines|] == log.lines;
  }

  /** The end of a log without an error loses nothing, in whatever order the select takes what is ready. */
  lemma CleanEndLosesNothing(log: Log, run: seq<State>, steps: seq<Step>, i: nat)
    requires IsRun(log, run, steps) && i < |run| && log.error.None?
    requires run[i].ended !in {Going, ByClient, ByWrite} && !run[i].gone
    ensures Expected(run[i].wakes) == Everything(log)
  {
    hide Expected, Everything;
    LinesInOrder(log, run, steps, i);
    EverythingArrives(log, run, steps, i);
  }

  lemma Extend(log: Log, run: seq<State>, steps: seq<Step>, step: Step) returns (run': seq<State>, steps': seq<Step>)
    requires IsRun(log, run, steps) && Enabled(log, run[|run| - 1], step)
    ensures IsRun(log, run', steps') && |run'| == |run| + 1 && Consistent(log, run[|run| - 1])
    ensures run'[|run'| - 1] == Do(log, run[|run| - 1], step)
  {
    LinesInOrder(log, run, steps, |run| - 1);
    hide Do, Enabled, Expected, Logs;
    run', steps' := run + [Do(log, run[|run| - 1], step)], steps + [step];
  }

  /** The line and the error are both waiting. */
  lemma BothWaiting(line: string, error: string) returns (run: seq<State>, steps: seq<Step>)
    ensures IsRun(Log([line], Some(error)), run, steps)
    ensures run[|run| - 1] == START_STATE.(sent := 1, errorSent := true)
  {
    var log := Log([line], Some(error));
    run, steps := [START_STATE], [];
    assert IsRun(log, run, steps);
    hide IsRun;
    run, steps := Extend(log, run, steps, Send);
    run, steps := Extend(log, run, steps, SendError);
  }

  /** An error can overtake the lines before it, which are then lost. */
  lemma ErrorOvertakesLines(line: string, error: string) returns (run: seq<State>, steps: seq<Step>)
    ensures IsRun(Log([line], Some(error)), run, steps) && run[|run| - 1].ended == ByError
    ensures Expected(run[|run| - 1].wakes) == ErrorEvent(Some(error))
  {
    hide IsRun, Expected;
    var log := Log([line], Some(error));
    run, steps := BothWaiting(line, error);
    run, steps := Extend(log, run, steps, TakeError);
    LinesInOrder(log, run, steps, |run| - 1);
    assert log.lines[..0] == [] && Logs([]) == [];
  }

  /** And it can be overtaken by the end of the channel, and be lost. */
  lemma EndOvertakesError(line: string, error: string) returns (run: seq<State>, steps: seq<Step>)
    ensures IsRun(Log([line], Some(error)), run, steps) && run[|run| - 1].ended == ByClose
    ensures Expected(run[|run| - 1].wakes) == Logs([line])
  {
    hide IsRun, Expected;
    var log := Log([line], Some(error));
    run, steps := BothWaiting(line, error);
    run, steps := Extend(log, run, steps, Close);
    run, steps := Extend(log, run, steps, TakeLine);
    run, steps := Extend(log, run, steps, SeeClosed);
    LinesInOrder(log, run, steps, |run| - 1);
    assert log.lines[..1] == [line];
  }
}
