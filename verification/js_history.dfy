/** The crash history of the JavaScript version (src/index.js): an object
    whose keys are the millisecond timestamps of crashes and whose values
    are the logs captured for each crash. */
module JsHistory {

  /** The history, keyed by millisecond timestamp. */
  type History = map<nat, string>

  /** `pushHistory`: store the logs under the current millisecond. */
  function PushHistory(history: History, now: nat, logs: string): (r: History)
    ensures now in r && r[now] == logs
  {
    history[now := logs]
  }

  /** The logs are stored under `now`; a crash in a millisecond that
      already has an entry overwrites it, and then the number of entries
      does not grow. Every other entry is untouched. */
  lemma PushHistoryStores(history: History, now: nat, logs: string)
    ensures var r := PushHistory(history, now, logs);
      && now in r && r[now] == logs
      && (forall k :: k in history && k != now ==> k in r && r[k] == history[k])
      && (forall k :: k in r ==> k in history || k == now)
      && |r| == if now in history then |history| else |history| + 1
  {
    var r := PushHistory(history, now, logs);
    if now in history {
      assert r.Keys == history.Keys;
    } else {
      assert r.Keys == history.Keys + {now};
      assert |r.Keys| == |history.Keys| + 1;
    }
  }

  /** Reference meaning of `updateHistory`: the entries whose key is not
      after `maxAge`, with their values. */
  function KeysUpTo(history: History, maxAge: nat): History {
    map k | k in history && k <= maxAge :: history[k]
  }

  /** `updateHistory` as written: collect the keys greater than
      `now + seconds`, where `now` is in milliseconds and `seconds` is the
      window in seconds, then delete them one by one. */
  method UpdateHistory(history: History, now: nat, seconds: nat) returns (r: History)
    ensures r == KeysUpTo(history, now + seconds)
  {
    var maxAge := now + seconds;
    var clearKeys: seq<nat> := [];
    var pending := history.Keys;
    while pending != {}
      invariant pending <= history.Keys
      invariant forall i :: 0 <= i < |clearKeys| ==> clearKeys[i] in history && clearKeys[i] > maxAge
      invariant forall k :: k in history && k !in pending && k > maxAge ==> k in clearKeys
      decreases pending
    {
      var k :| k in pending;
      if k > maxAge {
        clearKeys := clearKeys + [k];
      }
      pending := pending - {k};
    }
    r := history;
    var i := 0;
    ghost var deleted: set<nat> := {};
    while i < |clearKeys|
      invariant 0 <= i <= |clearKeys|
      invariant deleted == set j | 0 <= j < i :: clearKeys[j]
      invariant r == history - deleted
    {
      r := r - {clearKeys[i]};
      deleted := deleted + {clearKeys[i]};
      i := i + 1;
    }
    assert forall k :: k in deleted <==> k in history && k > maxAge by {
      forall k ensures k in deleted <==> k in history && k > maxAge {
        if k in history && k > maxAge {
          var j :| 0 <= j < |clearKeys| && clearKeys[j] == k;
        }
      }
    }
  }

  /** With millisecond keys that all lie in the past, the prune removes
      nothing: it compares against `now` plus a number of seconds, not minus. */
  lemma PruneKeepsPast(history: History, now: nat, seconds: nat)
    requires forall k :: k in history ==> k <= now
    ensures KeysUpTo(history, now + seconds) == history
  {
    assert KeysUpTo(history, now + seconds).Keys == history.Keys;
  }

  /** `checkHistory`: a restart is allowed while the number of entries is
      at most `historyMax`. */
  function CheckHistory(history: History, historyMax: int): bool
  {
    |history| <= historyMax
  }

  /** What the check decides after a crash at or after every recorded one:
      `checkHistory` on the pushed and pruned history passes exactly when
      the entries, counting the new millisecond once, are at most
      `historyMax`. */
  lemma CheckAfterCrash(history: History, now: nat, seconds: nat, logs: string, historyMax: int)
    requires forall k :: k in history ==> k <= now
    ensures CheckHistory(KeysUpTo(PushHistory(history, now, logs), now + seconds), historyMax)
      <==> (if now in history then |history| else |history| + 1) <= historyMax
  {
    var pushed := PushHistory(history, now, logs);
    PushHistoryStores(history, now, logs);
    PruneKeepsPast(pushed, now, seconds);
  }

}
