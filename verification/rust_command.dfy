/** The split of the configured command string into a program and its
    arguments, as done with `split_whitespace` before spawning the child
    (src/main.rs, `spawn_process`). */
module RustCommand {

  /** Rust's `char::is_whitespace`: the Unicode White_Space property. */
  predicate IsWhitespace(c: char) {
    var n := c as int;
    || (9 <= n <= 13)
    || n == 0x20 || n == 0x85 || n == 0xA0 || n == 0x1680
    || (0x2000 <= n <= 0x200A)
    || n == 0x2028 || n == 0x2029 || n == 0x202F || n == 0x205F || n == 0x3000
  }

  predicate NoWhitespace(s: string) {
    forall i :: 0 <= i < |s| ==> !IsWhitespace(s[i])
  }

  /** The command holds at least one non-whitespace character, so that its
      split has an element 0. */
  predicate HasProgram(s: string) {
    exists i :: 0 <= i < |s| && !IsWhitespace(s[i])
  }

  /** A token as produced by the split: non-empty and free of whitespace. */
  predicate IsToken(s: string) {
    s != [] && NoWhitespace(s)
  }

  /** The input with its leading whitespace removed. */
  function SkipWhitespace(s: string): (r: string)
    ensures |r| <= |s|
    ensures r == [] || !IsWhitespace(r[0])
  {
    if s != [] && IsWhitespace(s[0]) then SkipWhitespace(s[1..]) else s
  }

  /** What was skipped is whitespace, and what is left is a suffix. */
  lemma {:induction false} SkipWhitespaceSuffix(s: string)
    ensures SkipWhitespace(s) == s[|s| - |SkipWhitespace(s)|..]
    ensures forall i :: 0 <= i < |s| - |SkipWhitespace(s)| ==> IsWhitespace(s[i])
    decreases |s|
  {
    if s != [] && IsWhitespace(s[0]) {
      SkipWhitespaceSuffix(s[1..]);
      assert forall i :: 1 <= i < |s| - |SkipWhitespace(s)| ==> s[i] == s[1..][i - 1];
    }
  }

  /** Length of the longest whitespace-free prefix. */
  function WordLength(s: string): (n: nat)
    ensures n <= |s|
    ensures s != [] && !IsWhitespace(s[0]) ==> n >= 1
  {
    if s == [] || IsWhitespace(s[0]) then 0 else 1 + WordLength(s[1..])
  }

  /** The prefix measured is whitespace-free and is followed by whitespace
      or by the end of the input. */
  lemma {:induction false} WordLengthMaximal(s: string)
    ensures forall i :: 0 <= i < WordLength(s) ==> !IsWhitespace(s[i])
    ensures WordLength(s) < |s| ==> IsWhitespace(s[WordLength(s)])
    decreases |s|
  {
    if s != [] && !IsWhitespace(s[0]) {
      WordLengthMaximal(s[1..]);
      assert forall i :: 1 <= i <= WordLength(s) && i < |s| ==> s[i] == s[1..][i - 1];
    }
  }

  /** `str::split_whitespace`: the maximal runs of non-whitespace, in order. */
  function SplitWhitespace(s: string): (r: seq<string>)
    ensures |r| <= |s|
    decreases |s|
  {
    var t := SkipWhitespace(s);
    if t == [] then []
    else
      var n := WordLength(t);
      [t[..n]] + SplitWhitespace(t[n..])
  }

  lemma LeadingWordIsToken(t: string)
    requires t != [] && !IsWhitespace(t[0])
    ensures IsToken(t[..WordLength(t)])
  {
    WordLengthMaximal(t);
  }

  /** Every piece of the split is a token: non-empty, without whitespace. */
  lemma {:induction false} SplitYieldsTokens(s: string)
    ensures forall i :: 0 <= i < |SplitWhitespace(s)| ==> IsToken(SplitWhitespace(s)[i])
    decreases |s|
  {
    var t := SkipWhitespace(s);
    if t != [] {
      var n := WordLength(t);
      SplitYieldsTokens(t[n..]);
      LeadingWordIsToken(t);
      var tokens := SplitWhitespace(s);
      assert tokens == [t[..n]] + SplitWhitespace(t[n..]);
      forall i | 0 <= i < |tokens| ensures IsToken(tokens[i]) {
        if i > 0 {
          assert tokens[i] == SplitWhitespace(t[n..])[i - 1];
        }
      }
    }
  }

  /** The characters of `s` that are not whitespace, in order. */
  function NonWhitespace(s: string): string {
    if s == [] then []
    else if IsWhitespace(s[0]) then NonWhitespace(s[1..])
    else [s[0]] + NonWhitespace(s[1..])
  }

  function Concat(tokens: seq<string>): string {
    if tokens == [] then [] else tokens[0] + Concat(tokens[1..])
  }

  /** The tokens joined with single spaces: the shape of a command line. */
  function JoinWithSpaces(tokens: seq<string>): string {
    if tokens == [] then []
    else if |tokens| == 1 then tokens[0]
    else tokens[0] + " " + JoinWithSpaces(tokens[1..])
  }

  /** The program and argument list handed to `Command::new` / `args`.
      `spawn_process` indexes element 0 of the split, which panics for a command
      without any token; callers check that first. */
  function SpawnCommand(command: string): (r: (string, seq<string>))
    requires HasProgram(command)
    ensures IsToken(r.0)
    ensures [r.0] + r.1 == SplitWhitespace(command)
  {
    HasProgramSplit(command);
    SplitYieldsTokens(command);
    var parts := SplitWhitespace(command);
    (parts[0], parts[1..])
  }

  lemma {:induction false} NonWhitespaceAppend(a: string, b: string)
    ensures NonWhitespace(a + b) == NonWhitespace(a) + NonWhitespace(b)
    decreases |a|
  {
    if a == [] {
      assert a + b == b;
    } else {
      assert (a + b)[1..] == a[1..] + b;
      NonWhitespaceAppend(a[1..], b);
    }
  }

  lemma {:induction false} NonWhitespaceOfWord(w: string)
    requires NoWhitespace(w)
    ensures NonWhitespace(w) == w
    decreases |w|
  {
    if w != [] {
      NonWhitespaceOfWord(w[1..]);
    }
  }

  lemma {:induction false} NonWhitespaceOfBlank(s: string)
    requires forall i :: 0 <= i < |s| ==> IsWhitespace(s[i])
    ensures NonWhitespace(s) == []
    decreases |s|
  {
    if s != [] {
      NonWhitespaceOfBlank(s[1..]);
    }
  }

  /** Skipping leading whitespace loses no other character. */
  lemma SkipKeepsNonWhitespace(s: string)
    ensures NonWhitespace(SkipWhitespace(s)) == NonWhitespace(s)
  {
    SkipWhitespaceSuffix(s);
    var t := SkipWhitespace(s);
    var k := |s| - |t|;
    assert s == s[..k] + t;
    NonWhitespaceAppend(s[..k], t);
    NonWhitespaceOfBlank(s[..k]);
  }

  /** The leading word's characters are kept as they are. */
  lemma WordKeepsNonWhitespace(t: string, n: nat)
    requires n <= |t| && NoWhitespace(t[..n])
    ensures NonWhitespace(t) == t[..n] + NonWhitespace(t[n..])
  {
    assert t == t[..n] + t[n..];
    NonWhitespaceAppend(t[..n], t[n..]);
    NonWhitespaceOfWord(t[..n]);
  }

  /** Splitting loses exactly the whitespace: the tokens, concatenated, are
      the non-whitespace characters of the command in their original order. */
  lemma {:induction false} SplitKeepsNonWhitespace(s: string)
    ensures Concat(SplitWhitespace(s)) == NonWhitespace(s)
    decreases |s|
  {
    var t := SkipWhitespace(s);
    SkipKeepsNonWhitespace(s);
    if t != [] {
      var n := WordLength(t);
      WordLengthMaximal(t);
      WordKeepsNonWhitespace(t, n);
      SplitKeepsNonWhitespace(t[n..]);
      assert SplitWhitespace(s) == [t[..n]] + SplitWhitespace(t[n..]);
    }
  }

  lemma SplitAfterSpace(x: string)
    ensures SplitWhitespace(" " + x) == SplitWhitespace(x)
  {
    assert (" " + x)[1..] == x;
  }

  lemma WordLengthOfJoin(w: string, rest: string)
    requires IsToken(w)
    requires rest == [] || IsWhitespace(rest[0])
    ensures WordLength(w + rest) == |w|
  {
    var s := w + rest;
    WordLengthMaximal(s);
    assert forall i :: 0 <= i < |w| ==> s[i] == w[i];
    assert |w| < |s| ==> s[|w|] == rest[0];
  }

  /** A token followed by nothing or by whitespace is split off first. */
  lemma SplitOfLeadingToken(w: string, rest: string)
    requires IsToken(w)
    requires rest == [] || IsWhitespace(rest[0])
    ensures SplitWhitespace(w + rest) == [w] + SplitWhitespace(rest)
  {
    var s := w + rest;
    assert s[0] == w[0];
    assert SkipWhitespace(s) == s;
    WordLengthOfJoin(w, rest);
    assert s[..|w|] == w;
    assert s[|w|..] == rest;
  }

  /** Round trip: splitting a command line built from tokens joined by
      single spaces gives back exactly those tokens, in order. */
  lemma {:induction false} SplitJoinRoundTrip(tokens: seq<string>)
    requires forall i :: 0 <= i < |tokens| ==> IsToken(tokens[i])
    ensures SplitWhitespace(JoinWithSpaces(tokens)) == tokens
    decreases |tokens|
  {
    if |tokens| == 1 {
      SplitOfLeadingToken(tokens[0], "");
      assert tokens[0] + "" == tokens[0];
    } else if |tokens| > 1 {
      var rest := tokens[1..];
      assert tokens == [tokens[0]] + rest;
      assert forall i :: 0 <= i < |rest| ==> IsToken(rest[i]) by {
        forall i | 0 <= i < |rest| ensures IsToken(rest[i]) {
          assert rest[i] == tokens[i + 1];
        }
      }
      var tail := JoinWithSpaces(rest);
      assert JoinWithSpaces(tokens) == tokens[0] + " " + tail;
      assert tokens[0] + " " + tail == tokens[0] + (" " + tail);
      SplitOfLeadingToken(tokens[0], " " + tail);
      SplitAfterSpace(tail);
      SplitJoinRoundTrip(rest);
    }
  }

  /** Whitespace collapsed one character at a time. `started` records that
      a non-whitespace character has been emitted, `pending` that whitespace
      has been read since then, so that one space is owed before the next
      non-whitespace character. */
  function Squeeze(s: string, started: bool, pending: bool): string
    decreases |s|
  {
    if s == [] then []
    else if IsWhitespace(s[0]) then Squeeze(s[1..], started, started)
    else (if pending then " " else "") + [s[0]] + Squeeze(s[1..], true, false)
  }

  /** The command with leading and trailing whitespace dropped and every
      inner run of whitespace replaced by a single space. */
  function CollapseWhitespace(s: string): string {
    Squeeze(s, false, false)
  }

  lemma {:induction false} SqueezeSkip(s: string, b: bool)
    ensures Squeeze(s, b, b) == Squeeze(SkipWhitespace(s), b, b)
    decreases |s|
  {
    if s != [] && IsWhitespace(s[0]) {
      SqueezeSkip(s[1..], b);
    }
  }

  /** A token is copied as it is, after the space owed before it. */
  lemma {:induction false} SqueezeWord(w: string, rest: string, started: bool, pending: bool)
    requires IsToken(w)
    ensures Squeeze(w + rest, started, pending)
      == (if pending then " " else "") + w + Squeeze(rest, true, false)
    decreases |w|
  {
    var s := w + rest;
    assert s[0] == w[0];
    assert s[1..] == w[1..] + rest;
    if |w| > 1 {
      assert IsToken(w[1..]) by {
        forall i | 0 <= i < |w[1..]| ensures !IsWhitespace(w[1..][i]) {
          assert w[1..][i] == w[i + 1];
        }
      }
      SqueezeWord(w[1..], rest, true, false);
      assert w == [w[0]] + w[1..];
    } else {
      assert w == [w[0]];
    }
  }

  lemma SqueezeGap(r: string)
    requires r == [] || IsWhitespace(r[0])
    ensures Squeeze(r, true, false) == Squeeze(r, true, true)
  {
  }

  /** One step of the split: the leading word, then the split of the rest. */
  lemma SplitStep(s: string)
    ensures var t := SkipWhitespace(s);
      && (t == [] <==> SplitWhitespace(s) == [])
      && (t != [] ==> SplitWhitespace(s) == [t[..WordLength(t)]] + SplitWhitespace(t[WordLength(t)..]))
  {
  }

  lemma JoinCons(w: string, tail: seq<string>)
    ensures JoinWithSpaces([w] + tail) == if tail == [] then w else w + " " + JoinWithSpaces(tail)
  {
    if tail != [] {
      assert ([w] + tail)[1..] == tail;
    }
  }

  /** A token followed by a gap: the token is copied after the owed space,
      and the gap continues as the collapsed rest. */
  lemma SqueezeWordThenRest(b: bool, w: string, rest: string, tail: seq<string>)
    requires IsToken(w)
    requires rest == [] || IsWhitespace(rest[0])
    requires Squeeze(rest, true, true) == if tail == [] then [] else " " + JoinWithSpaces(tail)
    ensures Squeeze(w + rest, b, b) == (if b then " " else "") + JoinWithSpaces([w] + tail)
  {
    var pre: string := if b then " " else "";
    SqueezeWord(w, rest, b, b);
    SqueezeGap(rest);
    JoinCons(w, tail);
    if tail != [] {
      var j := JoinWithSpaces(tail);
      assert pre + w + (" " + j) == pre + (w + " " + j);
    }
  }

  lemma {:induction false} SqueezeSplit(s: string, b: bool)
    ensures Squeeze(s, b, b) == if SplitWhitespace(s) == [] then []
      else (if b then " " else "") + JoinWithSpaces(SplitWhitespace(s))
    decreases |s|
  {
    SqueezeSkip(s, b);
    SplitStep(s);
    var t := SkipWhitespace(s);
    if t != [] {
      var n := WordLength(t);
      WordLengthMaximal(t);
      LeadingWordIsToken(t);
      var w := t[..n];
      var rest := t[n..];
      assert t == w + rest;
      assert rest == [] || IsWhitespace(rest[0]) by {
        if rest != [] {
          assert rest[0] == t[n];
        }
      }
      SqueezeSplit(rest, true);
      SqueezeWordThenRest(b, w, rest, SplitWhitespace(rest));
    }
  }

  /** The split cuts at whitespace and nowhere else: its pieces joined by
      single spaces are the command with its whitespace collapsed. */
  lemma SplitCollapsesWhitespace(s: string)
    ensures JoinWithSpaces(SplitWhitespace(s)) == CollapseWhitespace(s)
  {
    SqueezeSplit(s, false);
  }

  /** The split is the only cut of the command into tokens that rejoin, with
      single spaces, to the command's collapsed form. */
  lemma SplitUnique(s: string, tokens: seq<string>)
    requires forall i :: 0 <= i < |tokens| ==> IsToken(tokens[i])
    requires JoinWithSpaces(tokens) == CollapseWhitespace(s)
    ensures tokens == SplitWhitespace(s)
  {
    SplitJoinRoundTrip(tokens);
    SplitCollapsesWhitespace(s);
    SplitYieldsTokens(s);
    SplitJoinRoundTrip(SplitWhitespace(s));
  }

  /** A command line with a single program and arguments is spawned as that
      program with those arguments. */
  lemma SpawnCommandOfJoin(program: string, args: seq<string>)
    requires IsToken(program)
    requires forall i :: 0 <= i < |args| ==> IsToken(args[i])
    ensures HasProgram(JoinWithSpaces([program] + args))
    ensures SpawnCommand(JoinWithSpaces([program] + args)) == (program, args)
  {
    var tokens := [program] + args;
    assert forall i :: 0 <= i < |tokens| ==> IsToken(tokens[i]) by {
      forall i | 0 <= i < |tokens| ensures IsToken(tokens[i]) {
        if i > 0 { assert tokens[i] == args[i - 1]; }
      }
    }
    SplitJoinRoundTrip(tokens);
    HasProgramSplit(JoinWithSpaces(tokens));
    assert tokens[1..] == args;
  }

  /** The split is empty exactly when the command is all whitespace. */
  lemma HasProgramSplit(s: string)
    ensures HasProgram(s) <==> SplitWhitespace(s) != []
  {
    var t := SkipWhitespace(s);
    SkipWhitespaceSuffix(s);
    if t != [] {
      assert s[|s| - |t|] == t[0];
    }
  }

}
