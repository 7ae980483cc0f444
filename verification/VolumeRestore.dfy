/** Putting a volume back (internal/backup/volumerestore.go, runVolumeRestore): a fixed plan of calls, any of which may
    fail, with two actions deferred to the end of the run. */
module VolumeRestore {

  datatype Call =
    | ScaleDown | WaitForNoPods                                    // stop
    | LoadStorage | PresignGet | ApplySecret | BuildJob            // restore
    | DeleteOldJob | ApplyJob | WaitForJob
    | ScaleUp | WaitForRollout                                     // start
    | DeleteSecret | ScaleBack                                     // deferred

  /** A call that was made, and whether it succeeded. */
  datatype Did = Did(call: Call, ok: bool)

  datatype Status = Pending | Running | Succeeded | Failed

  /** The three steps of the operation and the operation itself. */
  datatype Progress = Progress(stop: Status, restore: Status, start: Status, operation: Status)

  const PLAN: seq<Call> := [ScaleDown, WaitForNoPods, LoadStorage, PresignGet, ApplySecret, BuildJob, DeleteOldJob,
                            ApplyJob, WaitForJob, ScaleUp, WaitForRollout]

  /** The replica count a call asks for, for the calls that ask for one. */
  function Requested(call: Call, was: nat): int {
    match call
    case ScaleDown => 0
    case ScaleUp => was
    case ScaleBack => was
    case _ => -1
  }

  /** Removing an earlier job of the same name is tried and its result ignored. */
  predicate Stops(call: Call, faults: set<Call>) { call in faults && call != DeleteOldJob }

  class Run {
    const was: nat
    const faults: set<Call>
    var log: seq<Did>
    var progress: Progress

    constructor (was: nat, faults: set<Call>)
      ensures this.was == was && this.faults == faults
      ensures log == [] && progress == Progress(Pending, Pending, Pending, Pending)
    {
      this.was, this.faults := was, faults;
      this.log, this.progress := [], Progress(Pending, Pending, Pending, Pending);
    }

    method Make(call: Call) returns (ok: bool)
      modifies this`log
      ensures ok <==> call !in faults
      ensures log == old(log) + [Did(call, ok)]
    {
      ok := call !in faults;
      log := log + [Did(call, ok)];
    }

    /** The whole run. */
    method Restore() returns (n: nat)
      requires log == [] && progress == Progress(Pending, Pending, Pending, Pending)
      modifies this
      ensures RanTo(faults, n) && log == LogOf(faults, n) && progress == ProgressOf(n)
    {
      hide LogOf;
      progress := progress.(operation := Running, stop := Running);
      var ok := Make(ScaleDown);
      if !ok {
        progress := progress.(stop := Failed, operation := Failed);
        StoppedAt(faults, 0, log);
        return 0;
      }
      n := WithAppStopped();
      ok := Make(ScaleBack);
      Deferred(faults, n, log);
    }

    /** What runs between scaling down and the deferred scaling back. */
    method WithAppStopped() returns (n: nat)
      requires log == Made(faults, 1) && ScaleDown !in faults
      requires progress == Progress(Running, Pending, Pending, Running)
      modifies this
      ensures 1 <= n && RanTo(faults, n) && progress == ProgressOf(n)
      ensures log == Attempted(faults, n) + if n > 3 then [Did(DeleteSecret, DeleteSecret !in faults)] else []
    {
      var ok := Make(WaitForNoPods);
      if !ok {
        progress := progress.(stop := Failed, operation := Failed);
        return 1;
      }
      progress := progress.(stop := Succeeded, restore := Running);
      ok := Make(LoadStorage);
      if !ok {
        progress := progress.(restore := Failed, operation := Failed);
        return 2;
      }
      ok := Make(PresignGet);
      if !ok {
        progress := progress.(restore := Failed, operation := Failed);
        return 3;
      }
      n := WithSecret();
      ok := Make(DeleteSecret);
    }

    /** What runs before the deferred removal of the secret. */
    method WithSecret() returns (n: nat)
      requires log == Made(faults, 4) && RanOk(faults, 4)
      requires progress == Progress(Succeeded, Running, Pending, Running)
      modifies this
      ensures 4 <= n && RanTo(faults, n) && progress == ProgressOf(n) && log == Attempted(faults, n)
    {
      hide RanOk, Made, RanTo, ProgressOf;
      n := Unpack();
      if n < 9 {
        RestoreFailed(faults, n);
        progress := progress.(restore := Failed, operation := Failed);
        return n;
      }
      progress := progress.(restore := Succeeded, start := Running);
      n := Start();
      StartEnded(faults, n);
      if n < 11 {
        progress := progress.(start := Failed, operation := Failed);
        return n;
      }
      progress := progress.(start := Succeeded, operation := Succeeded);
    }

    /** The calls of the restore step from the secret on; 9 when none of them stopped it. */
    method Unpack() returns (n: nat)
      requires log == Made(faults, 4) && RanOk(faults, 4)
      modifies this`log
      ensures 4 <= n <= 9 && RanOk(faults, n) && (n < 9 ==> Stops(PLAN[n], faults))
      ensures log == if n < 9 then Attempted(faults, n) else Made(faults, 9)
    {
      var ok := Make(ApplySecret);
      if !ok { return 4; }
      ok := Make(BuildJob);
      if !ok { return 5; }
      var ignored := Make(DeleteOldJob);
      ok := Make(ApplyJob);
      if !ok { return 7; }
      ok := Make(WaitForJob);
      if !ok { return 8; }
      return 9;
    }

    /** The calls of the start step. */
    method Start() returns (n: nat)
      requires log == Made(faults, 9) && RanOk(faults, 9)
      modifies this`log
      ensures 9 <= n <= 11 && RanOk(faults, n) && (n < 11 ==> Stops(PLAN[n], faults)) && log == Attempted(faults, n)
    {
      var ok := Make(ScaleUp);
      if !ok { return 9; }
      ok := Make(WaitForRollout);
      if !ok { return 10; }
      return 11;
    }
  }

  lemma RestoreFailed(faults: set<Call>, n: nat)
    requires 4 <= n < 9 && RanOk(faults, n) && Stops(PLAN[n], faults)
    ensures RanTo(faults, n) && ProgressOf(n) == Progress(Succeeded, Failed, Pending, Failed)
  {
  }

  lemma StartEnded(faults: set<Call>, n: nat)
    requires 9 <= n <= 11 && RanOk(faults, n) && (n < 11 ==> Stops(PLAN[n], faults))
    ensures RanTo(faults, n)
    ensures ProgressOf(n) == if n < 11 then Progress(Succeeded, Succeeded, Failed, Failed)
                             else Progress(Succeeded, Succeeded, Succeeded, Succeeded)
  {
  }

  // ---------- what a run amounts to ----------

  predicate RanOk(faults: set<Call>, n: nat)
    requires n <= |PLAN|
  {
    forall i :: 0 <= i < n ==> !Stops(PLAN[i], faults)
  }

  /** The plan ran to its first failing call, or to its end. */
  predicate RanTo(faults: set<Call>, n: nat) {
    n <= |PLAN| && RanOk(faults, n) && (n < |PLAN| ==> Stops(PLAN[n], faults))
  }

  function Made(faults: set<Call>, n: nat): (made: seq<Did>)
    requires n <= |PLAN|
    ensures |made| == n && forall i :: 0 <= i < n ==> made[i] == Did(PLAN[i], PLAN[i] !in faults)
  {
    seq(n, i requires 0 <= i < n => Did(PLAN[i], PLAN[i] !in faults))
  }

  /** The calls made, the failing one included. */
  function Attempted(faults: set<Call>, n: nat): seq<Did>
    requires n <= |PLAN|
  {
    Made(faults, if n < |PLAN| then n + 1 else n)
  }

  /** The last deferred action registered runs first. */
  function LogOf(faults: set<Call>, n: nat): seq<Did>
    requires n <= |PLAN|
  {
    Attempted(faults, n)
      + (if n > 3 then [Did(DeleteSecret, DeleteSecret !in faults)] else [])
      + (if n > 0 then [Did(ScaleBack, ScaleBack !in faults)] else [])
  }

  function ProgressOf(n: nat): Progress {
    if n <= 1 then Progress(Failed, Pending, Pending, Failed)
    else if n <= 8 then Progress(Succeeded, Failed, Pending, Failed)
    else if n <= 10 then Progress(Succeeded, Succeeded, Failed, Failed)
    else Progress(Succeeded, Succeeded, Succeeded, Succeeded)
  }

  lemma StoppedAt(faults: set<Call>, n: nat, log: seq<Did>)
    requires n == 0 && log == [] + [Did(ScaleDown, false)] && ScaleDown in faults
    ensures RanTo(faults, 0) && log == LogOf(faults, 0)
  {
    assert LogOf(faults, 0) == [Did(PLAN[0], false)];
  }

  lemma Deferred(faults: set<Call>, n: nat, log: seq<Did>)
    requires 0 < n <= |PLAN|
    requires log == Attempted(faults, n) + (if n > 3 then [Did(DeleteSecret, DeleteSecret !in faults)] else [])
                  + [Did(ScaleBack, ScaleBack !in faults)]
    ensures log == LogOf(faults, n)
  {
  }

  // ---------- what every run keeps ----------

  /** For every choice of failing calls, the unpack job is asked for only after the app was scaled to zero and its pods
      were seen gone, with no request for instances in between. */
  lemma JobNeedsStoppedApp(faults: set<Call>, n: nat, j: nat, was: nat)
    requires RanTo(faults, n) && j < |LogOf(faults, n)| && LogOf(faults, n)[j].call == ApplyJob
    ensures exists i :: 0 <= i < j && LogOf(faults, n)[i] == Did(ScaleDown, true)
    ensures exists i :: 0 <= i < j && LogOf(faults, n)[i] == Did(WaitForNoPods, true)
    ensures forall i :: 0 <= i < j ==> Requested(LogOf(faults, n)[i].call, was) in {-1, 0}
  {
    var log := LogOf(faults, n);
    assert j == 7;
    assert log[0] == Did(PLAN[0], true) && log[1] == Did(PLAN[1], true);
  }

  /** Before the end of the run, instances are asked for again only after the job finished. */
  lemma ScaleUpNeedsFinishedJob(faults: set<Call>, n: nat, j: nat)
    requires RanTo(faults, n) && j < |LogOf(faults, n)| && LogOf(faults, n)[j].call == ScaleUp
    ensures exists i :: 0 <= i < j && LogOf(faults, n)[i] == Did(WaitForJob, true)
  {
    assert j == 9;
    assert LogOf(faults, n)[8] == Did(PLAN[8], true);
  }

  /** The last replica count a run asks for. */
  ghost function LastRequest(log: seq<Did>, was: nat): int {
    if log == [] then -1
    else
      var last := Requested(log[|log| - 1].call, was);
      if last >= 0 then last else LastRequest(log[..|log| - 1], was)
  }

  /** The last request restores the original count exactly when the first one succeeded, or the app had no instances to
      begin with: a first request that reports an error is not taken back. */
  lemma LastRequestRestores(faults: set<Call>, n: nat, was: nat)
    requires RanTo(faults, n)
    ensures LastRequest(LogOf(faults, n), was) == was <==> ScaleDown !in faults || was == 0
    ensures ScaleDown in faults ==> LastRequest(LogOf(faults, n), was) == 0
  {
    var log := LogOf(faults, n);
    assert ScaleDown in faults <==> n == 0 by { assert PLAN[0] == ScaleDown; }
    if n == 0 {
      assert log == [Did(PLAN[0], false)];
    } else {
      assert log[|log| - 1].call == ScaleBack;
    }
  }

  /** Exactly one step failed, every step before it succeeded and none after it begun. */
  predicate OneFailed(p: Progress) {
    || (p.stop == Failed && p.restore == Pending && p.start == Pending)
    || (p.stop == Succeeded && p.restore == Failed && p.start == Pending)
    || (p.stop == Succeeded && p.restore == Succeeded && p.start == Failed)
  }

  /** A run ends with every step and the operation succeeded, when no call failed, or with the operation failed and
      one step failed. */
  lemma EndsCleanly(faults: set<Call>, n: nat)
    requires RanTo(faults, n)
    ensures var p := ProgressOf(n);
            && (n == |PLAN| <==> p == Progress(Succeeded, Succeeded, Succeeded, Succeeded))
            && (n == |PLAN| <==> forall i :: 0 <= i < |PLAN| ==> !Stops(PLAN[i], faults))
            && (n < |PLAN| ==> p.operation == Failed)
            && (n < |PLAN| ==> OneFailed(p))
  {
    assert n < |PLAN| ==> Stops(PLAN[n], faults);
  }

  /** The secret with the download address is removed in every run that may have created it, before the app comes
      back. */
  lemma SecretIsRemoved(faults: set<Call>, n: nat, j: nat)
    requires RanTo(faults, n) && j < |LogOf(faults, n)| && LogOf(faults, n)[j].call == ApplySecret
    ensures var log := LogOf(faults, n);
            |log| - 2 > j && log[|log| - 2].call == DeleteSecret && log[|log| - 1].call == ScaleBack
  {
    assert j == 4;
  }

  /** `a` was made and succeeded before place `j` of a log. */
  ghost predicate DoneBefore(log: seq<Did>, j: nat, a: Call)
    requires j <= |log|
  {
    exists i :: 0 <= i < j && log[i] == Did(a, true)
  }

  /** Every call that needs the result of another comes after that one succeeded: the address needs the storage, the
      secret the address, the job its secret and an attempt to clear an earlier one of its name, the waits what they
      wait for. */
  lemma CallsInOrder(faults: set<Call>, n: nat, j: nat)
    requires RanTo(faults, n) && j < |LogOf(faults, n)|
    ensures var log, call := LogOf(faults, n), LogOf(faults, n)[j].call;
            && (forall a :: a in Needs(call) ==> DoneBefore(log, j, a))
            && (call == ApplyJob ==> exists i :: 0 <= i < j && log[i].call == DeleteOldJob)
  {
    assert n <= |PLAN|;
    hide DoneBefore, LogOf, RanTo, Needs;
    CallAt(faults, n, j);
    var log, call := LogOf(faults, n), LogOf(faults, n)[j].call;
    forall a | a in Needs(call) ensures DoneBefore(log, j, a) {
      var i := PlaceOf(j, call, a);
      EarlierDone(faults, n, j, i);
    }
    if call == ApplyJob {
      assert PLAN[7] == ApplyJob && PLAN[6] == DeleteOldJob && j == 7;
      EarlierDone(faults, n, j, 6);
    }
  }

  /** What must have succeeded before a call. */
  function Needs(call: Call): set<Call> {
    match call
    case WaitForNoPods => {ScaleDown}
    case LoadStorage => {WaitForNoPods}
    case PresignGet => {LoadStorage}
    case ApplySecret => {PresignGet}
    case ApplyJob => {ApplySecret, BuildJob}
    case WaitForJob => {ApplyJob}
    case WaitForRollout => {ScaleUp}
    case _ => {}
  }

  lemma PlaceOf(j: nat, call: Call, a: Call) returns (i: nat)
    requires a in Needs(call) && (call in {DeleteSecret, ScaleBack} || (j < |PLAN| && call == PLAN[j]))
    ensures i < j < |PLAN| && PLAN[i] == a != DeleteOldJob && call == PLAN[j]
  {
    i := if a == BuildJob then 5 else if a == ApplySecret then 4 else j - 1;
  }

  /** A call of the plan is made at its place, and the deferred ones are not of the plan. */
  lemma CallAt(faults: set<Call>, n: nat, j: nat)
    requires RanTo(faults, n) && j < |LogOf(faults, n)|
    ensures var call := LogOf(faults, n)[j].call; call in {DeleteSecret, ScaleBack} || (j < |PLAN| && call == PLAN[j])
  {
    var made := if n < |PLAN| then n + 1 else n;
    assert j < made ==> LogOf(faults, n)[j] == Made(faults, made)[j];
  }

  lemma EarlierDone(faults: set<Call>, n: nat, j: nat, i: nat)
    requires RanTo(faults, n) && i < j < |LogOf(faults, n)| && j < |PLAN| && LogOf(faults, n)[j].call == PLAN[j]
    ensures PLAN[i] != DeleteOldJob ==> DoneBefore(LogOf(faults, n), j, PLAN[i])
    ensures LogOf(faults, n)[i].call == PLAN[i]
  {
    var made := if n < |PLAN| then n + 1 else n;
    assert PLAN[j] !in {DeleteSecret, ScaleBack};
    assert j < made;
    assert LogOf(faults, n)[i] == Made(faults, made)[i];
    assert !Stops(PLAN[i], faults);
  }
}
