/** The `Retry` policy of the Rust version (src/main.rs): the configuration
    chosen from the parsed options, and the crash history, a vector of
    expiry times in seconds. */
module RustRetry {

  /** Rust `u8`, the type of every count and delay option. */
  type U8 = x: int | 0 <= x < 256

  const SecondsInAMinute: nat := 60
  const SecondsInAHour: nat := 60 * 60

  /** The options after command-line parsing. */
  datatype Arguments = Arguments(perMinute: U8, perHour: U8, delay: U8, command: string)

  /** The supervisor's state: the configuration and the crash history. */
  datatype Retry = Retry(
    command: string,
    history: seq<nat>,
    maxRetries: U8,
    timespan: nat,
    restartDelay: U8,
    restartName: string)

  /** What `SelectRetry` can produce: a positive threshold, and a window
      of a minute or of an hour with the matching name. */
  predicate ValidRetry(retry: Retry) {
    && retry.maxRetries > 0
    && ((retry.timespan == SecondsInAMinute && retry.restartName == "minute")
        || (retry.timespan == SecondsInAHour && retry.restartName == "hour"))
  }

  /** The configuration built in `main`: a per-minute limit wins, then a
      per-hour limit, and otherwise four restarts per minute. The option
      parser already refuses both limits together; if both did arrive, the
      per-minute one would be used. */
  function SelectRetry(args: Arguments): (r: Retry)
    ensures ValidRetry(r)
    ensures r.command == args.command && r.history == [] && r.restartDelay == args.delay
    ensures args.perMinute > 0 ==>
      r.maxRetries == args.perMinute && r.timespan == 60 && r.restartName == "minute"
    ensures args.perMinute == 0 && args.perHour > 0 ==>
      r.maxRetries == args.perHour && r.timespan == 3600 && r.restartName == "hour"
    ensures args.perMinute == 0 && args.perHour == 0 ==>
      r.maxRetries == 4 && r.timespan == 60 && r.restartName == "minute"
  {
    var default := Retry(args.command, [], 4, SecondsInAMinute, args.delay, "minute");
    if args.perMinute > 0 then
      default.(maxRetries := args.perMinute)
    else if args.perHour > 0 then
      default.(maxRetries := args.perHour, timespan := SecondsInAHour, restartName := "hour")
    else
      default
  }

  /** `push_history`: record a crash at `now` by its expiry time. */
  function PushHistory(history: seq<nat>, now: nat, timespan: nat): (r: seq<nat>)
    ensures |r| == |history| + 1
    ensures r[..|history|] == history
    ensures r[|history|] == now + timespan
  {
    history + [now + timespan]
  }

  /** Reference meaning of the prune: the expiry times still in the future,
      duplicates included, in their original order. */
  function Unexpired(history: seq<nat>, now: nat): (r: seq<nat>)
    ensures |r| <= |history|
    ensures forall i :: 0 <= i < |r| ==> r[i] > now
  {
    if history == [] then []
    else if history[0] > now then [history[0]] + Unexpired(history[1..], now)
      else Unexpired(history[1..], now)
  }

  /** `Vec::retain(|&h| h != time)`: drop every copy of `time`. */
  function RetainOthers(s: seq<nat>, time: nat): (r: seq<nat>)
    ensures |r| <= |s|
    ensures time !in r
    ensures time !in s ==> r == s
  {
    if s == [] then []
    else if s[0] != time then [s[0]] + RetainOthers(s[1..], time)
    else RetainOthers(s[1..], time)
  }

  /** The elements of `s` outside `cleared`, in order. */
  function Without(s: seq<nat>, cleared: set<nat>): seq<nat> {
    if s == [] then []
    else if s[0] !in cleared then [s[0]] + Without(s[1..], cleared)
    else Without(s[1..], cleared)
  }

  lemma {:induction false} RetainOthersWithout(s: seq<nat>, cleared: set<nat>, time: nat)
    ensures RetainOthers(Without(s, cleared), time) == Without(s, cleared + {time})
    decreases |s|
  {
    if s != [] {
      RetainOthersWithout(s[1..], cleared, time);
    }
  }

  lemma {:induction false} WithoutExpired(s: seq<nat>, cleared: set<nat>, now: nat)
    requires forall i :: 0 <= i < |s| ==> (s[i] in cleared <==> s[i] <= now)
    ensures Without(s, cleared) == Unexpired(s, now)
    decreases |s|
  {
    if s != [] {
      WithoutExpired(s[1..], cleared, now);
    }
  }

  /** `update_history` as written: first collect every expiry time that is
      not after `now`, then `retain` away each of them in turn. Its result
      is the reference prune. */
  method UpdateHistory(history: seq<nat>, now: nat) returns (r: seq<nat>)
    ensures r == Unexpired(history, now)
  {
    var clearTimes: seq<nat> := [];
    var i := 0;
    while i < |history|
      invariant 0 <= i <= |history|
      invariant forall k :: 0 <= k < |clearTimes| ==> clearTimes[k] <= now
      invariant forall j :: 0 <= j < i && history[j] <= now ==> history[j] in clearTimes
    {
      if history[i] <= now {
        clearTimes := clearTimes + [history[i]];
      }
      i := i + 1;
    }
    r := history;
    var k := 0;
    ghost var cleared: set<nat> := {};
    WithoutNothing(history);
    while k < |clearTimes|
      invariant 0 <= k <= |clearTimes|
      invariant cleared == set t | t in clearTimes[..k]
      invariant r == Without(history, cleared)
    {
      RetainOthersWithout(history, cleared, clearTimes[k]);
      assert clearTimes[..k + 1] == clearTimes[..k] + [clearTimes[k]];
      r := RetainOthers(r, clearTimes[k]);
      cleared := cleared + {clearTimes[k]};
      k := k + 1;
    }
    assert clearTimes[..k] == clearTimes;
    WithoutExpired(history, cleared, now);
  }

  lemma {:induction false} WithoutNothing(s: seq<nat>)
    ensures Without(s, {}) == s
    decreases |s|
  {
    if s != [] {
      WithoutNothing(s[1..]);
    }
  }

  /** `check_history`: a restart is allowed while the history holds fewer
      entries than `max_retries`. */
  function CheckHistory(history: seq<nat>, maxRetries: U8): bool
  {
    |history| < maxRetries
  }

  /** Pruning keeps relative order: it distributes over concatenation. */
  lemma {:induction false} UnexpiredAppend(a: seq<nat>, b: seq<nat>, now: nat)
    ensures Unexpired(a + b, now) == Unexpired(a, now) + Unexpired(b, now)
    decreases |a|
  {
    if a == [] {
      assert a + b == b;
    } else {
      assert (a + b)[1..] == a[1..] + b;
      UnexpiredAppend(a[1..], b, now);
    }
  }

  /** The prune keeps every unexpired expiry time with all its duplicates
      and drops every expired one. */
  lemma {:induction false} UnexpiredCounts(history: seq<nat>, now: nat)
    ensures forall x ::
      multiset(Unexpired(history, now))[x] == if x > now then multiset(history)[x] else 0
    decreases |history|
  {
    if history != [] {
      assert history == [history[0]] + history[1..];
      UnexpiredCounts(history[1..], now);
    }
  }

  /** A history whose entries all lie after `now` is left as it is. */
  lemma {:induction false} UnexpiredOfFresh(history: seq<nat>, now: nat)
    requires forall i :: 0 <= i < |history| ==> history[i] > now
    ensures Unexpired(history, now) == history
    decreases |history|
  {
    if history != [] {
      UnexpiredOfFresh(history[1..], now);
    }
  }

  /** Pruning twice at the same instant is pruning once. */
  lemma UnexpiredIdempotent(history: seq<nat>, now: nat)
    ensures Unexpired(Unexpired(history, now), now) == Unexpired(history, now)
  {
    UnexpiredOfFresh(Unexpired(history, now), now);
  }

  /** Pruning at an earlier instant and then at a later one is the same as
      pruning once at the later one. */
  lemma {:induction false} UnexpiredLater(history: seq<nat>, earlier: nat, later: nat)
    requires earlier <= later
    ensures Unexpired(Unexpired(history, earlier), later) == Unexpired(history, later)
    decreases |history|
  {
    if history != [] {
      UnexpiredLater(history[1..], earlier, later);
    }
  }

  /** The crash just pushed always survives the prune that follows it, so
      the pruned history is the older survivors plus the new entry, last. */
  lemma PushThenPrune(history: seq<nat>, now: nat, timespan: nat)
    requires timespan > 0
    ensures Unexpired(PushHistory(history, now, timespan), now)
      == Unexpired(history, now) + [now + timespan]
  {
    UnexpiredAppend(history, [now + timespan], now);
  }

  /** What the check decides after a crash: `check_history` on the pushed
      and pruned history passes exactly when the older unexpired entries
      plus the new one number fewer than `max_retries`. */
  lemma CheckAfterCrash(history: seq<nat>, now: nat, timespan: nat, maxRetries: U8)
    requires timespan > 0
    ensures CheckHistory(Unexpired(PushHistory(history, now, timespan), now), maxRetries)
      <==> |Unexpired(history, now)| + 1 < maxRetries
  {
    PushThenPrune(history, now, timespan);
  }

}
