/** The supervision loop of the Rust version (src/main.rs, `run_command`
    and `restart`): the recursion through `restart` is a fold over the trace
    of runs the child produces. */
module RustSupervisor {
  import opened Common
  import opened RustRetry
  import RustCommand

  /** How one launch of the child ended. */
  datatype RunResult =
    | SpawnFailed                 // `spawn` returned an error and `expect` panics
    | WaitFailed                  // `wait` returned an error and the supervisor returns
    | Exited(code: Option<int>)   // the exit status; no code when killed by a signal

  /** One launch of the child and the clock reading, in seconds, taken when
      its exit was handled. */
  datatype Run = Run(result: RunResult, now: nat)

  /** How supervision ends. */
  datatype Outcome =
    | Clean      // the child exited successfully
    | Halted     // too many crashes inside the window
    | Aborted    // waiting for the child failed
    | Panicked   // the command had no token, or spawning failed

  /** What `run_command` does after one run: relaunch after a delay, or stop. */
  datatype Next = Relaunch(delay: nat) | Stop(outcome: Outcome)

  /** `ExitStatus::success`: exit code zero. */
  predicate Success(result: RunResult) {
    result == Exited(Some(0))
  }

  /** An exit that is not a success: a non-zero code or a signal. */
  predicate Crashed(result: RunResult) {
    result.Exited? && result.code != Some(0)
  }

  /** One call of `run_command`: spawn (panicking on a command without a
      token or a failed spawn), wait, and on a crash push, prune and check.
      Anything but a crash leaves the state alone; a relaunch follows only
      a crash that leaves the history below the threshold, and a halt only
      one that does not. */
  function RunCommand(retry: Retry, run: Run): (r: (Retry, Next))
    ensures !Crashed(run.result) ==> r.0 == retry
    ensures r.1.Relaunch? ==>
      Crashed(run.result) && r.1.delay == retry.restartDelay && |r.0.history| < retry.maxRetries
    ensures r.1 == Stop(Halted) ==> Crashed(run.result) && |r.0.history| >= retry.maxRetries
  {
    if !RustCommand.HasProgram(retry.command) then
      (retry, Stop(Panicked))
    else
      match run.result
      case SpawnFailed => (retry, Stop(Panicked))
      case WaitFailed => (retry, Stop(Aborted))
      case Exited(code) =>
        if code == Some(0) then
          (retry, Stop(Clean))
        else
          var retry' := retry.(history := Unexpired(PushHistory(retry.history, run.now, retry.timespan), run.now));
          if CheckHistory(retry'.history, retry.maxRetries) then
            (retry', Relaunch(retry.restartDelay))
          else
            (retry', Stop(Halted))
  }

  /** The ways a run ends supervision without a crash: a command without
      a program or a failed spawn panics, a failed wait returns, and a
      successful exit ends cleanly. */
  lemma RunCommandStops(retry: Retry, run: Run)
    ensures !RustCommand.HasProgram(retry.command) ==> RunCommand(retry, run).1 == Stop(Panicked)
    ensures RustCommand.HasProgram(retry.command) ==>
      && (run.result == SpawnFailed ==> RunCommand(retry, run).1 == Stop(Panicked))
      && (run.result == WaitFailed ==> RunCommand(retry, run).1 == Stop(Aborted))
      && (Success(run.result) ==> RunCommand(retry, run).1 == Stop(Clean))
  {
  }

  /** A crash: the history becomes the older unexpired entries followed by
      the new expiry time, nothing else in the state changes, and the
      policy relaunches exactly when that leaves fewer than `max_retries`
      entries. */
  lemma RunCommandCrash(retry: Retry, run: Run)
    requires RustCommand.HasProgram(retry.command)
    requires retry.timespan > 0
    requires Crashed(run.result)
    ensures RunCommand(retry, run).0
      == retry.(history := Unexpired(retry.history, run.now) + [run.now + retry.timespan])
    ensures RunCommand(retry, run).1 == Relaunch(retry.restartDelay)
      <==> |Unexpired(retry.history, run.now)| + 1 < retry.maxRetries
    ensures RunCommand(retry, run).1 == Stop(Halted)
      <==> |Unexpired(retry.history, run.now)| + 1 >= retry.maxRetries
  {
    PushThenPrune(retry.history, run.now, retry.timespan);
  }

  /** The end of supervision over a trace of runs: how it ended (`None` when
      the trace ran out while a relaunch was due), how many runs of the
      trace were used, and the final state. `launches` counts every run
      consumed, so a run that ends in `Panicked` counts as one even when no
      child was ever started. */
  datatype Report = Report(outcome: Option<Outcome>, launches: nat, retry: Retry)

  /** `run_command` followed by `restart` as long as the policy relaunches. */
  function Supervise(retry: Retry, trace: seq<Run>): (r: Report)
    ensures r.launches <= |trace|
    ensures r.outcome == None ==> r.launches == |trace|
    ensures r.outcome != None ==> r.launches >= 1
    ensures r.retry == retry.(history := r.retry.history)
    ensures forall i :: 0 <= i < r.launches - 1 ==> Crashed(trace[i].result)
    ensures r.outcome == Some(Clean) ==> Success(trace[r.launches - 1].result)
    ensures r.outcome == Some(Halted) ==>
      Crashed(trace[r.launches - 1].result) && |r.retry.history| >= retry.maxRetries
    decreases |trace|
  {
    if trace == [] then Report(None, 0, retry)
    else
      var (retry', next) := RunCommand(retry, trace[0]);
      match next
      case Stop(outcome) => Report(Some(outcome), 1, retry')
      case Relaunch(_) =>
        var rest := Supervise(retry', trace[1..]);
        assert forall i :: 1 <= i < rest.launches ==> trace[i] == trace[1..][i - 1];
        Report(rest.outcome, rest.launches + 1, rest.retry)
  }

  /** A clean exit leaves the history as it was and is never followed by
      a relaunch, whatever the rest of the trace holds. */
  lemma CleanExitStops(retry: Retry, trace: seq<Run>)
    requires trace != [] && Success(trace[0].result)
    requires RustCommand.HasProgram(retry.command)
    ensures Supervise(retry, trace) == Report(Some(Clean), 1, retry)
  {
  }

  /** While the history is below the threshold before each launch, a halt
      leaves exactly `max_retries` entries: the message about crashing
      "more than" that many times is printed after exactly that many
      unexpired crashes. */
  lemma {:induction false} HaltAtThreshold(retry: Retry, trace: seq<Run>)
    requires retry.timespan > 0
    requires |retry.history| < retry.maxRetries
    ensures Supervise(retry, trace).outcome == Some(Halted) ==>
      |Supervise(retry, trace).retry.history| == retry.maxRetries
    decreases |trace|
  {
    if trace != [] && RustCommand.HasProgram(retry.command) && Crashed(trace[0].result) {
      var (retry', next) := RunCommand(retry, trace[0]);
      if next.Relaunch? {
        HaltAtThreshold(retry', trace[1..]);
      }
    }
  }

  /** A crash while every recorded crash is still unexpired keeps them all
      and adds the new one. */
  lemma CrashWithinWindow(retry: Retry, run: Run)
    requires RustCommand.HasProgram(retry.command)
    requires retry.timespan > 0
    requires Crashed(run.result)
    requires forall j :: 0 <= j < |retry.history| ==> run.now < retry.history[j]
    ensures RunCommand(retry, run).0.history == retry.history + [run.now + retry.timespan]
  {
    RunCommandCrash(retry, run);
    UnexpiredOfFresh(retry.history, run.now);
  }

  /** Crashes bunched inside one window all count: from a history of
      unexpired entries, the policy relaunches until the history reaches
      `max_retries` entries and halts at the crash that reaches it. */
  lemma {:induction false} CrashBurst(retry: Retry, trace: seq<Run>)
    requires RustCommand.HasProgram(retry.command)
    requires retry.timespan > 0
    requires |retry.history| < retry.maxRetries <= |retry.history| + |trace|
    requires forall i :: 0 <= i < |trace| ==> Crashed(trace[i].result)
    requires forall i, j :: 0 <= i < |trace| && 0 <= j < |retry.history| ==>
      trace[i].now < retry.history[j]
    requires forall i, j :: 0 <= i <= j < |trace| ==>
      trace[i].now <= trace[j].now < trace[i].now + retry.timespan
    ensures Supervise(retry, trace).outcome == Some(Halted)
    ensures Supervise(retry, trace).launches == retry.maxRetries - |retry.history|
    decreases |trace|
  {
    var run := trace[0];
    CrashWithinWindow(retry, run);
    var step := RunCommand(retry, run);
    var retry' := step.0;
    if step.1.Relaunch? {
      var rest := trace[1..];
      assert forall i :: 0 <= i < |rest| ==> rest[i] == trace[i + 1];
      forall i, j | 0 <= i < |rest| && 0 <= j < |retry'.history|
        ensures rest[i].now < retry'.history[j]
      {
        if j == |retry.history| {
          assert trace[0].now <= trace[i + 1].now < trace[0].now + retry.timespan;
        }
      }
      CrashBurst(retry', rest);
    }
  }

  /** The threshold of a fresh configuration: when the first `max_retries`
      runs all crash within one window, the child is launched exactly
      `max_retries` times and supervision halts. */
  lemma FreshCrashBurst(args: Arguments, trace: seq<Run>)
    requires RustCommand.HasProgram(args.command)
    requires |trace| >= SelectRetry(args).maxRetries
    requires forall i :: 0 <= i < |trace| ==> Crashed(trace[i].result)
    requires forall i, j :: 0 <= i <= j < |trace| ==>
      trace[i].now <= trace[j].now < trace[i].now + SelectRetry(args).timespan
    ensures Supervise(SelectRetry(args), trace).outcome == Some(Halted)
    ensures Supervise(SelectRetry(args), trace).launches == SelectRetry(args).maxRetries
  {
    CrashBurst(SelectRetry(args), trace);
  }

}
