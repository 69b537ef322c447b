/** The configuration and the exit handling of the JavaScript version
    (src/index.js): the settings chosen from `--rpm` / `--rph`, `handleExit`,
    and the chain of `runCommand` calls as a fold over a trace of runs. */
module JsSupervisor {
  import opened Common
  import opened JsHistory
  import opened JsLogs

  const SecondsInAMinute: nat := 60
  const SecondsInAHour: nat := 60 * 60

  /** The parsed command line: positional words and the two limits. */
  datatype Argv = Argv(positional: seq<string>, rpm: int, rph: int)

  datatype Config = Config(
    command: string,
    args: seq<string>,
    historyMax: int,
    seconds: nat,
    restartName: string)

  /** What the script does before the first launch. */
  datatype Setup =
    | ShowHelp        // no command: print usage, launch nothing
    | BothLimits      // `--rpm` and `--rph` both set: print an error, launch nothing
    | Ready(config: Config)

  /** The command is falsy when it is missing or empty. */
  predicate HasCommand(argv: Argv) {
    argv.positional != [] && argv.positional[0] != ""
  }

  /** The top-level set-up: help without a command, an error when both
      limits are non-zero, else the per-minute limit, the per-hour limit or
      the default of 4 per minute. A per-minute limit keeps the name
      "minute"; only a per-hour limit switches window and name. */
  function SelectConfig(argv: Argv): (r: Setup)
    ensures r == ShowHelp <==> !HasCommand(argv)
    ensures r == BothLimits <==> HasCommand(argv) && argv.rpm != 0 && argv.rph != 0
    ensures r.Ready? ==>
      && [r.config.command] + r.config.args == argv.positional
      && r.config.command != ""
    ensures r.Ready? && argv.rpm != 0 ==>
      r.config.historyMax == argv.rpm && r.config.seconds == 60 && r.config.restartName == "minute"
    ensures r.Ready? && argv.rpm == 0 && argv.rph != 0 ==>
      r.config.historyMax == argv.rph && r.config.seconds == 3600 && r.config.restartName == "hour"
    ensures r.Ready? && argv.rpm == 0 && argv.rph == 0 ==>
      r.config.historyMax == 4 && r.config.seconds == 60 && r.config.restartName == "minute"
  {
    if !HasCommand(argv) then ShowHelp
    else
      var default := Config(argv.positional[0], argv.positional[1..], 4, SecondsInAMinute, "minute");
      if argv.rpm != 0 && argv.rph != 0 then BothLimits
      else if argv.rpm != 0 then Ready(default.(historyMax := argv.rpm))
      else if argv.rph != 0 then
        Ready(default.(historyMax := argv.rph, seconds := SecondsInAHour, restartName := "hour"))
      else Ready(default)
  }

  /** The state `handleExit` works on: the history and the run's log buffer. */
  datatype State = State(history: History, logs: seq<string>)

  /** What follows an exit. */
  datatype Decision = Done | Restart | Halt

  /** `handleExit`: on any exit code other than 0 (a signal gives none),
      store the buffer's text under `now`, empty the buffer, prune and check.
      Exit code 0 changes nothing and ends supervision. */
  function HandleExit(config: Config, state: State, exitCode: Option<int>, now: nat): (r: (State, Decision))
    ensures exitCode == Some(0) ==> r == (state, Done)
    ensures exitCode != Some(0) ==> r.0.logs == []
    ensures r.1 == Restart <==> exitCode != Some(0) && |r.0.history| <= config.historyMax
    ensures r.1 == Halt <==> exitCode != Some(0) && |r.0.history| > config.historyMax
  {
    if exitCode != Some(0) then
      var pushed := PushHistory(state.history, now, GetLogs(state.logs));
      var history := KeysUpTo(pushed, now + config.seconds);
      var state' := State(history, []);
      if CheckHistory(history, config.historyMax) then (state', Restart) else (state', Halt)
    else
      (state, Done)
  }

  /** What a crash does to the history: the buffer's text is stored under
      `now`, and every other entry stays, with its value, exactly when its
      key is not after `now + seconds`. */
  lemma HandleExitCrash(config: Config, state: State, exitCode: Option<int>, now: nat)
    requires exitCode != Some(0)
    ensures var history := HandleExit(config, state, exitCode, now).0.history;
      && now in history && history[now] == GetLogs(state.logs)
      && (forall k :: k in history && k != now ==>
            k in state.history && k <= now + config.seconds && history[k] == state.history[k])
      && (forall k :: k in state.history && k != now && k <= now + config.seconds ==> k in history)
  {
  }

  /** One launch: the output chunks in arrival order, the exit code, and
      the millisecond clock reading when the exit is handled. */
  datatype Run = Run(chunks: seq<Chunk>, exitCode: Option<int>, now: nat)

  datatype Outcome = Clean | Halted

  /** One `runCommand`: a fresh buffer fed with the run's chunks through
      `handleOut`, then `handleExit`. */
  function RunOnce(config: Config, history: History, run: Run): (r: (State, Decision))
    ensures run.exitCode == Some(0) ==> r.1 == Done && r.0.history == history
    ensures run.exitCode != Some(0) ==> r.1 != Done && r.0.logs == [] && run.now in r.0.history
  {
    HandleExit(config, State(history, HandleAll([], run.chunks)), run.exitCode, run.now)
  }

  /** The end of supervision over a trace: how it ended (`None` when the
      trace ran out while a restart was due), how many runs were used, and
      the final history. */
  datatype Report = Report(outcome: Option<Outcome>, launches: nat, history: History)

  /** `runCommand`, repeated while `handleExit` restarts. */
  function Supervise(config: Config, history: History, trace: seq<Run>): (r: Report)
    ensures r.launches <= |trace|
    ensures r.outcome == None ==> r.launches == |trace|
    ensures r.outcome != None ==> r.launches >= 1
    ensures forall i :: 0 <= i < r.launches - 1 ==> trace[i].exitCode != Some(0)
    ensures r.outcome == Some(Clean) ==> trace[r.launches - 1].exitCode == Some(0)
    ensures r.outcome == Some(Halted) ==>
      trace[r.launches - 1].exitCode != Some(0) && |r.history| > config.historyMax
    decreases |trace|
  {
    if trace == [] then Report(None, 0, history)
    else
      var (state, decision) := RunOnce(config, history, trace[0]);
      match decision
      case Done => Report(Some(Clean), 1, state.history)
      case Halt => Report(Some(Halted), 1, state.history)
      case Restart =>
        var rest := Supervise(config, state.history, trace[1..]);
        assert forall i :: 1 <= i < rest.launches ==> trace[i] == trace[1..][i - 1];
        Report(rest.outcome, rest.launches + 1, rest.history)
  }

  /** A crashed run records its newest log entries (at most 5000, oldest
      first, joined by newlines) under the crash's millisecond, and leaves
      the buffer empty. */
  lemma CrashRecordsLogs(config: Config, history: History, run: Run)
    requires run.exitCode != Some(0)
    ensures var state := RunOnce(config, history, run).0;
      && run.now in state.history
      && state.history[run.now] == GetLogs(LastN(Entries(run.chunks), MaxLogEntries))
      && state.logs == []
  {
    FreshBufferKeepsNewest(run.chunks);
    HandleExitCrash(config, State(history, HandleAll([], run.chunks)), run.exitCode, run.now);
  }

  /** A crash later than every recorded one adds one entry and removes none. */
  lemma LateCrashAddsOne(config: Config, history: History, run: Run)
    requires run.exitCode != Some(0)
    requires forall k :: k in history ==> k < run.now
    ensures var h := RunOnce(config, history, run).0.history;
      && |h| == |history| + 1
      && (forall k :: k in h ==> k <= run.now)
  {
    var logs := GetLogs(HandleAll([], run.chunks));
    var pushed := PushHistory(history, run.now, logs);
    PushHistoryStores(history, run.now, logs);
    PruneKeepsPast(pushed, run.now, config.seconds);
  }

  /** With clock readings that only move forward, nothing is ever pruned:
      every crash counts no matter how far apart the crashes are, and the
      run that brings the history past `historyMax` halts. The window of
      `--rpm` / `--rph` plays no part. */
  lemma {:induction false} EveryCrashCounts(config: Config, history: History, trace: seq<Run>)
    requires |history| <= config.historyMax < |history| + |trace|
    requires forall i :: 0 <= i < |trace| ==> trace[i].exitCode != Some(0)
    requires forall k :: k in history ==> trace != [] && k < trace[0].now
    requires forall i, j :: 0 <= i < j < |trace| ==> trace[i].now < trace[j].now
    ensures Supervise(config, history, trace).outcome == Some(Halted)
    ensures Supervise(config, history, trace).launches == config.historyMax + 1 - |history|
    ensures |Supervise(config, history, trace).history| == config.historyMax + 1
    decreases |trace|
  {
    var run := trace[0];
    LateCrashAddsOne(config, history, run);
    var step := RunOnce(config, history, run);
    if step.1 == Restart {
      var rest := trace[1..];
      assert forall i :: 0 <= i < |rest| ==> rest[i] == trace[i + 1];
      EveryCrashCounts(config, step.0.history, rest);
    }
  }

  /** From a fresh start, with `historyMax` at least 0 and increasing clock
      readings, supervision halts at run `historyMax + 1`, even when the
      crashes are spread over much more than the window. */
  lemma FreshCrashCount(config: Config, trace: seq<Run>)
    requires 0 <= config.historyMax < |trace|
    requires forall i :: 0 <= i < |trace| ==> trace[i].exitCode != Some(0)
    requires forall i, j :: 0 <= i < j < |trace| ==> trace[i].now < trace[j].now
    ensures Supervise(config, map[], trace).outcome == Some(Halted)
    ensures Supervise(config, map[], trace).launches == config.historyMax + 1
  {
    EveryCrashCounts(config, map[], trace);
  }

  /** Two crashes in the same millisecond share one entry: the second
      overwrites the first's logs and the count does not grow. */
  lemma SameMillisecondOverwrites(config: Config, state: State, code1: int, code2: int, logs: seq<string>, now: nat)
    requires code1 != 0 && code2 != 0
    ensures var s1 := HandleExit(config, state, Some(code1), now).0;
      var s2 := HandleExit(config, s1.(logs := logs), Some(code2), now).0;
      s2.history.Keys == s1.history.Keys && s2.history[now] == GetLogs(logs)
  {
    var s1 := HandleExit(config, state, Some(code1), now).0;
    var s2 := HandleExit(config, s1.(logs := logs), Some(code2), now).0;
    HandleExitCrash(config, state, Some(code1), now);
    HandleExitCrash(config, s1.(logs := logs), Some(code2), now);
  }

}
