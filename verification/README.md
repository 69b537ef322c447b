# keep-running: the restart decision, modelled in Dafny

keep-running is a small process supervisor. It launches a command, waits
for it to exit, and relaunches it after a crash, until too many crashes
happen inside a time window. The repository holds two versions of the same
tool, one in Rust (`src/main.rs`) and one in JavaScript (`src/index.js`).
This project models the restart-decision core of each version as its own
family of Dafny modules. The clock reading is a parameter. Launching and
waiting for the child become a *trace of runs*. Supervision is a fold over
that trace, and it reports how many runs were used and how supervision
ended.

Rust version:

- `RustCommand`: the whitespace split of the command string into program
  and arguments (`split_whitespace`, element 0, the rest as arguments).
- `RustRetry`: the `Retry` configuration chosen in `main`, and the history
  operations `push_history`, `update_history` and `check_history`. The
  history is a `seq<nat>` of expiry times in seconds.
- `RustSupervisor`: one `run_command` (`RunCommand`), and the recursion
  through `restart` as the fold `Supervise`.

JavaScript version:

- `JsLogs`: the per-run log buffer built from `pushLog`, `trimLog`,
  `getLogs` and `handleOut`. It is capped at 5000 entries and evicts one
  entry, the oldest, per append.
- `JsHistory`: the crash history, a `map<nat, string>` from millisecond
  timestamps to captured logs, with `pushHistory`, `updateHistory` and
  `checkHistory`.
- `JsSupervisor`: the set-up of lines 22-41, `handleExit`, and the chain of
  `runCommand` calls as the fold `Supervise`.

`Common` holds the `Option` type. An absent exit code stands for a child
killed by a signal.

Node emits a child's `close` event only after its stdout and stderr
streams have ended, so all of a run's output chunks arrive before its
`close`. The model relies on this: `JsSupervisor.RunOnce` feeds every chunk
to the buffer and then handles the exit.

The two versions disagree in several places. The model keeps each
version's behaviour and proves what follows from it:

- Threshold. Rust relaunches while `len < max_retries`, so it halts at the
  `max_retries`-th unexpired crash (`RustSupervisor.CrashBurst`,
  `RustSupervisor.HaltAtThreshold`). JavaScript relaunches while
  `count <= historyMax`, so it halts at crash `historyMax + 1`
  (`JsSupervisor.EveryCrashCounts`).
- Pruning. Rust drops every expiry time `<= now`. JavaScript drops the keys
  greater than `now + seconds`, where `now` is in milliseconds and
  `seconds` is the window in seconds. With the clock moving forward it
  never drops anything, so every crash counts, however old it is
  (`JsHistory.PruneKeepsPast`, `JsSupervisor.FreshCrashCount`).
- Duplicates. The Rust `Vec` keeps two crashes with the same expiry time as
  two entries (`RustRetry.UnexpiredCounts`). The JavaScript object keys
  crashes by millisecond, so a second crash in the same millisecond
  overwrites the first (`JsSupervisor.SameMillisecondOverwrites`).
- Names. With only `--rpm` set, JavaScript keeps the name "minute". A
  missing command shows help before the `--rpm`/`--rph` conflict is
  checked.

## Model

| member | source | states |
|---|---|---|
| RustRetry.SelectRetry | src/main.rs:38-53 | a positive `per_minute` gives that many retries per 60 s ("minute"); otherwise a positive `per_hour` gives that many per 3600 s ("hour"); otherwise 4 per 60 s; the history starts empty and the delay is the `delay` option; the threshold is never 0 |
| RustRetry.PushHistory | src/main.rs:65-67 | exactly one element, `now + timespan`, is appended at the end, and every earlier element is unchanged |
| RustRetry.Unexpired | src/main.rs:69-81 | the reference prune: every remaining expiry time is strictly greater than `now`, and the history never grows |
| RustRetry.UpdateHistory | src/main.rs:69-81 | `update_history` as written (collect the times `<= now`, then `retain` each one away) yields exactly the reference prune |
| RustRetry.RetainOthers | src/main.rs:79 | one `retain` leaves no copy of the given time, never grows the history, and leaves a history without that time as it was |
| RustRetry.UnexpiredCounts | src/main.rs:69-81 | the prune keeps every time `> now` with all its duplicates and drops every time `<= now` |
| RustRetry.UnexpiredAppend | src/main.rs:69-81 | the prune keeps relative order: pruning a concatenation is concatenating the pruned parts |
| RustRetry.UnexpiredIdempotent | src/main.rs:69-81 | pruning twice at the same instant is the same as pruning once |
| RustRetry.UnexpiredLater | src/main.rs:69-81 | pruning at an earlier instant and then at a later one is the same as pruning once at the later one |
| RustRetry.CheckAfterCrash | src/main.rs:83-85 | after a crash is pushed and the history pruned, `check_history` passes exactly when the older unexpired entries plus the new one number fewer than `max_retries` |
| RustRetry.PushThenPrune | src/main.rs:117-118 | the crash just pushed always survives the prune that follows, as the last entry after the older survivors |
| RustCommand.SplitYieldsTokens | src/main.rs:88-92 | every piece of the split is non-empty and contains no whitespace |
| RustCommand.SplitWhitespace | src/main.rs:88-92 | `split_whitespace` never yields more pieces than the command has characters; what the pieces are is stated by the lemmas below |
| RustCommand.SplitKeepsNonWhitespace | src/main.rs:88-92 | the pieces, concatenated, are exactly the command's non-whitespace characters, in order |
| RustCommand.SplitCollapsesWhitespace | src/main.rs:88-92 | the pieces joined by single spaces are the command with leading and trailing whitespace dropped and every inner whitespace run replaced by one space, so the split cuts at whitespace and nowhere else |
| RustCommand.SplitUnique | src/main.rs:88-92 | any sequence of tokens that rejoins with single spaces to the command's collapsed form is exactly the split |
| RustCommand.SplitJoinRoundTrip | src/main.rs:88-92 | splitting tokens joined by single spaces gives back the same tokens in order |
| RustCommand.HasProgramSplit | src/main.rs:94 | the split has an element 0 exactly when the command has a non-whitespace character |
| RustCommand.SpawnCommand | src/main.rs:88-96 | the program is the first token and the arguments are the remaining tokens in order; a command with a token is required |
| RustCommand.SpawnCommandOfJoin | src/main.rs:88-96 | the command line `program arg1 arg2 …` is spawned as `program` with exactly those arguments |
| RustSupervisor.RunCommand | src/main.rs:101-126 | anything but a crash leaves the state unchanged; a relaunch follows only a crash, carries the configured delay, and leaves fewer than `max_retries` entries; a halt follows only a crash that leaves at least `max_retries` |
| RustSupervisor.RunCommandStops | src/main.rs:101-114 | a command without a token or a failed spawn panics, a failed wait ends supervision, and a successful exit ends it cleanly |
| RustSupervisor.RunCommandCrash | src/main.rs:115-124 | after a crash the history is the older unexpired entries plus `now + timespan`, and the supervisor relaunches exactly when the unexpired entries plus the new one number fewer than `max_retries`, otherwise it halts |
| RustSupervisor.Supervise | src/main.rs:101-132 | the fold over runs never uses more runs than given; every run before the last one crashed; a clean end follows a successful exit; a halt follows a crash with at least `max_retries` entries; the configuration never changes |
| RustSupervisor.CleanExitStops | src/main.rs:113-114 | a successful exit ends supervision after one run, with the history unchanged |
| RustSupervisor.HaltAtThreshold | src/main.rs:117-124 | starting below the threshold, a halt leaves exactly `max_retries` entries in the history |
| RustSupervisor.CrashWithinWindow | src/main.rs:117-118 | a crash while every recorded expiry is still in the future keeps all of them and appends the new one |
| RustSupervisor.CrashBurst | src/main.rs:117-124 | crashes bunched inside one window relaunch until the history reaches `max_retries` entries, and halt at the crash that reaches it |
| RustSupervisor.FreshCrashBurst | src/main.rs:117-124 | from the configuration built in `main`, `max_retries` crashes inside one window give exactly `max_retries` launches and then a halt |
| JsSupervisor.SelectConfig | src/index.js:22-41 | a missing or empty command shows help; otherwise non-zero `rpm` and `rph` together are an error; `rpm` alone gives `historyMax = rpm`, 60 s, "minute"; `rph` alone gives `historyMax = rph`, 3600 s, "hour"; neither gives 4, 60 s, "minute"; command and arguments are the positional words in order |
| JsHistory.PushHistoryStores | src/index.js:51 | the logs are stored under `now`; an existing key is overwritten and the count does not grow; a new key adds one; every other entry is unchanged |
| JsHistory.PushHistory | src/index.js:51 | the logs are stored under the crash's millisecond |
| JsHistory.UpdateHistory | src/index.js:53-64 | `updateHistory` as written deletes exactly the keys greater than `now + seconds` and keeps every other key with its value |
| JsHistory.PruneKeepsPast | src/index.js:53-64 | when every key is at most `now`, the prune removes nothing |
| JsHistory.CheckAfterCrash | src/index.js:66 | after a crash at or after every recorded one is pushed and the history pruned, `checkHistory` passes exactly when the entries, with the crash's millisecond counted once, are at most `historyMax` |
| JsLogs.EntryInjective | src/index.js:85 | the entry `[type]\tmessage` determines its channel and message |
| JsLogs.Entry | src/index.js:85 | the entry ends with the message, after a non-empty tag |
| JsLogs.PushLog | src/index.js:74 | exactly the entry is appended at the end, and every earlier entry is unchanged |
| JsLogs.TrimLog | src/index.js:76-78 | at most one entry is removed, and a buffer at most one entry over the 5000 cap is brought back within it |
| JsLogs.HandleOut | src/index.js:84-87 | the chunk's entry is the last one, and a buffer within the 5000 cap stays within it |
| JsLogs.HandleOutBounded | src/index.js:74-87 | after `handleOut` the new entry is last, at most one entry (the oldest) is shifted out, and a buffer of at most 5000 entries stays at most 5000 |
| JsLogs.HandleOutIsLastN | src/index.js:84-87 | from within the cap, one `handleOut` leaves the newest 5000 entries of the buffer plus the new one |
| JsLogs.HandleAllKeepsNewest | src/index.js:74-87 | starting within the cap, after any sequence of chunks the buffer equals the last min(n, 5000) entries in push order |
| JsLogs.FreshBufferKeepsNewest | src/index.js:72-87 | a run's buffer, which starts empty, always holds the newest min(n, 5000) entries and never more than 5000 |
| JsLogs.GetLogs | src/index.js:82 | an empty buffer gives the empty text; otherwise the text starts with the first entry, followed by a newline when a second entry exists |
| JsLogs.SplitGetLogs | src/index.js:82 | `getLogs` joins with newlines in order: for a non-empty buffer whose entries contain no newline, cutting the text at each newline gives back the buffer (an empty buffer gives `""`, which cuts to one empty line) |
| JsSupervisor.HandleExit | src/index.js:89-106 | exit code 0 changes neither history nor buffer and never restarts; any other exit, including a signal, empties the buffer and restarts exactly when the history has at most `historyMax` entries, otherwise halts |
| JsSupervisor.HandleExitCrash | src/index.js:91-94 | on a crash the buffer's joined text is stored under `now`, and every other entry stays with its value exactly when its key is at most `now + seconds` |
| JsSupervisor.RunOnce | src/index.js:68-112 | exit code 0 ends the chain with the history unchanged; any other exit leaves an entry under the run's millisecond, empties the buffer, and restarts or halts |
| JsSupervisor.Supervise | src/index.js:68-112 | the chain of runs never uses more runs than given; every run before the last crashed; a clean end follows exit code 0; a halt leaves more than `historyMax` entries |
| JsSupervisor.CrashRecordsLogs | src/index.js:72-94 | a crashed run stores its newest (at most 5000) entries, joined by newlines, under the crash's millisecond, and leaves an empty buffer |
| JsSupervisor.LateCrashAddsOne | src/index.js:51-64 | a crash later than every recorded one adds one entry and removes none |
| JsSupervisor.EveryCrashCounts | src/index.js:89-104 | with increasing clock readings every crash counts, whatever the time between them, and the run that takes the history past `historyMax` halts with `historyMax + 1` entries |
| JsSupervisor.FreshCrashCount | src/index.js:89-104 | from an empty history, `historyMax + 1` crashes halt at run `historyMax + 1`, even when spread over far more than the window |
| JsSupervisor.SameMillisecondOverwrites | src/index.js:51 | two crashes in the same millisecond leave one entry, holding the second crash's logs |

## Left out

- Spawning and waiting for the child, its output streams and exit events are operating-system I/O. Each run is given as a `Run` value instead: its exit status and, for JavaScript, its output chunks in order.
- The clock (`get_now`, `new Date().getTime()`) is a parameter of each run.
- RustSupervisor.RunCommand: uses one clock reading for both `push_history` and `update_history`. The source reads the clock twice, a moment apart.
- JsSupervisor.HandleExit: uses one clock reading for both `pushHistory` and `updateHistory`, for the same reason.
- The restart delay (`sleep`) is a timing side effect. It is only carried, as the value in `Relaunch(delay)`.
- RustRetry.PushHistory: `now + timespan` is an unbounded `nat`, not a `u64`. Overflow would need a clock near 2^64 seconds.
- Option parsing (clap, yargs), `conflicts_with`, and the help and usage text are library behaviour. The model starts from the parsed values. clap already refuses `--per-minute` together with `--per-hour`, before `main` runs.
- JsSupervisor.SelectConfig: `rpm` and `rph` are integers, with non-zero as truthy. NaN, fractional numbers and a numeric positional command (which yargs may produce) are not modelled.
- All console output is left out: the `[CRASH]` line, "Restarting...", the halt messages, and the listing of stored crashes on a halt.
- The `toString().trim()` of each output chunk is left out. Messages are opaque strings.
- The interleaving of stdout and stderr chunks is event-loop concurrency. A run's chunks are one sequence, in the order they arrive.
- The recursion `run_command` → `restart` → `run_command` (src/main.rs:121, 131) adds stack frames on every relaunch, since Rust does not guarantee tail calls. The fold `RustSupervisor.Supervise` uses no stack, so a stack overflow after very many relaunches is not modelled.
- A spawn failure in the JavaScript version (an `error` event) is not modelled. Its runs end only with an exit code or a signal.
- The enumeration order of `for … in` over the history object is left out. `JsHistory.UpdateHistory` picks keys in any order, and its result does not depend on that order.
