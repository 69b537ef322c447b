/** The per-run log buffer of the JavaScript version (src/index.js, the
    closures `pushLog`, `trimLog`, `clearLogs`, `getLogs` and `handleOut`
    inside `runCommand`). */
module JsLogs {

  /** The buffer never grows past this many entries through `handleOut`. */
  const MaxLogEntries: nat := 5000

  /** The output stream a chunk came from. */
  datatype Channel = Stdout | Stderr

  function ChannelName(channel: Channel): string {
    match channel
    case Stdout => "stdout"
    case Stderr => "stderr"
  }

  /** The entry stored for one output chunk: its channel in brackets, a
      tab, then the (already trimmed) message. */
  function Entry(channel: Channel, message: string): (e: string)
    ensures |message| < |e| && e[|e| - |message|..] == message
  {
    "[" + ChannelName(channel) + "]\t" + message
  }

  /** An entry determines the chunk it was made from: the channel tag and
      the message can be read back. */
  lemma EntryInjective(c1: Channel, m1: string, c2: Channel, m2: string)
    requires Entry(c1, m1) == Entry(c2, m2)
    ensures c1 == c2 && m1 == m2
  {
    var e := Entry(c1, m1);
    assert e[4] == Entry(c2, m2)[4];
    assert c1 == c2;
    var k := |ChannelName(c1)| + 3;
    assert m1 == e[k..];
    assert m2 == Entry(c2, m2)[k..];
  }

  /** `pushLog`. */
  function PushLog(logs: seq<string>, entry: string): (r: seq<string>)
    ensures |r| == |logs| + 1
    ensures r[..|logs|] == logs && r[|logs|] == entry
  {
    logs + [entry]
  }

  /** `trimLog`: drop the single oldest entry once the buffer is over the cap. */
  function TrimLog(logs: seq<string>): (r: seq<string>)
    ensures |r| <= |logs| <= |r| + 1
    ensures |logs| <= MaxLogEntries + 1 ==> |r| <= MaxLogEntries
  {
    if |logs| > MaxLogEntries then logs[1..] else logs
  }

  /** `handleOut`: append the entry for a chunk, then trim. */
  function HandleOut(logs: seq<string>, channel: Channel, message: string): (r: seq<string>)
    ensures r != [] && r[|r| - 1] == Entry(channel, message)
    ensures |logs| <= MaxLogEntries ==> |r| <= MaxLogEntries
  {
    TrimLog(PushLog(logs, Entry(channel, message)))
  }

  /** The new entry is last, at most one old entry is evicted (the oldest),
      and a buffer within the cap stays within it. */
  lemma HandleOutBounded(logs: seq<string>, channel: Channel, message: string)
    ensures var r := HandleOut(logs, channel, message);
      && r != [] && r[|r| - 1] == Entry(channel, message)
      && (|logs| <= MaxLogEntries ==> |r| <= MaxLogEntries)
      && (|r| == |logs| + 1 || |r| == |logs|)
      && (|r| == |logs| + 1 ==> r[..|logs|] == logs)
      && (|r| == |logs| ==> r[..|logs| - 1] == logs[1..])
  {
  }

  /** One output chunk as delivered to a `data` handler. */
  datatype Chunk = Chunk(channel: Channel, message: string)

  /** The buffer after the chunks of a run, delivered in order. */
  function HandleAll(logs: seq<string>, chunks: seq<Chunk>): seq<string>
    decreases |chunks|
  {
    if chunks == [] then logs
    else HandleAll(HandleOut(logs, chunks[0].channel, chunks[0].message), chunks[1..])
  }

  /** The entries the chunks produce, in order. */
  function Entries(chunks: seq<Chunk>): seq<string> {
    if chunks == [] then [] else [Entry(chunks[0].channel, chunks[0].message)] + Entries(chunks[1..])
  }

  /** The last `n` elements of `s` (all of them when there are fewer). */
  function LastN(s: seq<string>, n: nat): (r: seq<string>)
    ensures |r| == if |s| <= n then |s| else n
    ensures r == s[|s| - |r|..]
  {
    if |s| <= n then s else s[|s| - n..]
  }

  /** The ring-buffer property: starting within the cap, the buffer always
      holds exactly the most recent entries, at most 5000 of them, in the
      order they were pushed. */
  lemma {:induction false} HandleAllKeepsNewest(logs: seq<string>, chunks: seq<Chunk>)
    requires |logs| <= MaxLogEntries
    ensures HandleAll(logs, chunks) == LastN(logs + Entries(chunks), MaxLogEntries)
    decreases |chunks|
  {
    if chunks == [] {
      assert logs + Entries(chunks) == logs;
    } else {
      var e := Entry(chunks[0].channel, chunks[0].message);
      var rest := chunks[1..];
      HandleOutIsLastN(logs, chunks[0].channel, chunks[0].message);
      HandleAllKeepsNewest(HandleOut(logs, chunks[0].channel, chunks[0].message), rest);
      LastNAppend(logs + [e], Entries(rest), MaxLogEntries);
      EntriesCons(logs, chunks);
    }
  }

  lemma EntriesCons(logs: seq<string>, chunks: seq<Chunk>)
    requires chunks != []
    ensures logs + Entries(chunks)
      == (logs + [Entry(chunks[0].channel, chunks[0].message)]) + Entries(chunks[1..])
  {
  }

  /** One `handleOut` from within the cap keeps the newest 5000 entries. */
  lemma HandleOutIsLastN(logs: seq<string>, channel: Channel, message: string)
    requires |logs| <= MaxLogEntries
    ensures HandleOut(logs, channel, message) == LastN(logs + [Entry(channel, message)], MaxLogEntries)
  {
  }

  lemma LastNAppend(a: seq<string>, b: seq<string>, n: nat)
    ensures LastN(LastN(a, n) + b, n) == LastN(a + b, n)
  {
    var a' := LastN(a, n);
    var lhs := LastN(a' + b, n);
    var rhs := LastN(a + b, n);
    assert |lhs| == |rhs|;
    forall i | 0 <= i < |lhs| ensures lhs[i] == rhs[i] {
      var k := |a' + b| - |lhs| + i;
      var k' := |a + b| - |rhs| + i;
      if k < |a'| {
        assert (a' + b)[k] == a'[k] == a[|a| - |a'| + k];
        assert k' == |a| - |a'| + k;
      } else {
        assert (a' + b)[k] == b[k - |a'|];
      }
    }
  }

  /** A buffer filled from empty holds min(n, 5000) entries: the last ones. */
  lemma FreshBufferKeepsNewest(chunks: seq<Chunk>)
    ensures HandleAll([], chunks) == LastN(Entries(chunks), MaxLogEntries)
    ensures |HandleAll([], chunks)| <= MaxLogEntries
  {
    HandleAllKeepsNewest([], chunks);
    assert [] + Entries(chunks) == Entries(chunks);
  }

  /** `getLogs`: the entries joined with newlines, oldest first. Reading the
      buffer does not change it (the buffer is an immutable value here). */
  function GetLogs(logs: seq<string>): (r: string)
    ensures logs == [] ==> r == []
    ensures logs != [] ==> |logs[0]| <= |r| && r[..|logs[0]|] == logs[0]
    ensures |logs| > 1 ==> |logs[0]| < |r| && r[|logs[0]|] == '\n'
  {
    if logs == [] then ""
    else if |logs| == 1 then logs[0]
    else logs[0] + "\n" + GetLogs(logs[1..])
  }

  /** Position of the first newline, or the length when there is none. */
  function IndexOfNewline(s: string): (i: nat)
    ensures i <= |s|
    ensures i < |s| ==> s[i] == '\n'
    ensures forall j :: 0 <= j < i ==> s[j] != '\n'
  {
    if s == [] || s[0] == '\n' then 0 else 1 + IndexOfNewline(s[1..])
  }

  /** The text cut at every newline: the inverse of `GetLogs` for entries
      without newlines. */
  function SplitLines(s: string): seq<string>
    decreases |s|
  {
    var i := IndexOfNewline(s);
    if i == |s| then [s] else [s[..i]] + SplitLines(s[i + 1..])
  }

  predicate NoNewline(s: string) {
    forall j :: 0 <= j < |s| ==> s[j] != '\n'
  }

  lemma IndexOfNewlineAfterLine(line: string, rest: string)
    requires NoNewline(line)
    requires rest == [] || rest[0] == '\n'
    ensures IndexOfNewline(line + rest) == |line|
  {
    var s := line + rest;
    assert forall j :: 0 <= j < |line| ==> s[j] == line[j];
    assert |line| < |s| ==> s[|line|] == rest[0];
  }

  /** Round trip: a non-empty buffer whose entries hold no newline is read
      back entry by entry from its `getLogs` text. */
  lemma {:induction false} SplitGetLogs(logs: seq<string>)
    requires logs != []
    requires forall k :: 0 <= k < |logs| ==> NoNewline(logs[k])
    ensures SplitLines(GetLogs(logs)) == logs
    decreases |logs|
  {
    var line := logs[0];
    if |logs| == 1 {
      assert line + "" == line;
      IndexOfNewlineAfterLine(line, "");
    } else {
      var rest := logs[1..];
      assert forall k :: 0 <= k < |rest| ==> NoNewline(rest[k]) by {
        forall k | 0 <= k < |rest| ensures NoNewline(rest[k]) {
          assert rest[k] == logs[k + 1];
        }
      }
      var tail := GetLogs(rest);
      var s := GetLogs(logs);
      assert s == line + ("\n" + tail);
      IndexOfNewlineAfterLine(line, "\n" + tail);
      assert s[..|line|] == line;
      assert s[|line| + 1..] == tail;
      SplitGetLogs(rest);
      assert logs == [line] + rest;
    }
  }

}
