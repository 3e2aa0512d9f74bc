/** Windows command lines: the writer that quotes each argument, and the reader
    that a child process applies to the line. */
module WinArgs {
  const BACKSLASH: char := '\\'
  const QUOTE: char := '\"'

  function Backslashes(n: nat): (r: string)
    ensures |r| == n && forall i :: 0 <= i < n ==> r[i] == BACKSLASH
  {
    if n == 0 then "" else [BACKSLASH] + Backslashes(n - 1)
  }

  // -------------------------------------------------------------- the writer

  /** Space, tab, newline, vertical tab or a quote: what makes a word need quotes. */
  predicate Special(c: char) {
    c == ' ' || c == '\t' || c == '\n' || c == 11 as char || c == QUOTE
  }

  predicate Plain(s: string) {
    forall i :: 0 <= i < |s| ==> !Special(s[i])
  }

  /** The text between the quotes, `n` backslashes having been seen so far. */
  function Body(s: string, n: nat): string {
    if s == "" then Backslashes(2 * n)
    else if s[0] == BACKSLASH then Body(s[1..], n + 1)
    else if s[0] == QUOTE then Backslashes(2 * n + 1) + [QUOTE] + Body(s[1..], 0)
    else Backslashes(n) + [s[0]] + Body(s[1..], 0)
  }

  function Quoted(arg: string): string {
    if arg != "" && Plain(arg) then arg else [QUOTE] + Body(arg, 0) + [QUOTE]
  }

  function CommandLine(argv: seq<string>): string {
    if argv == [] then ""
    else if |argv| == 1 then Quoted(argv[0])
    else Quoted(argv[0]) + " " + CommandLine(argv[1..])
  }

  // -------------------------------------------------------------- the reader

  predicate Delimiter(c: char) {
    c == ' ' || c == '\t'
  }

  /** One word, and what follows it. `n` is the length of the current run of
      backslashes and `q` says whether the reader is between quotes: half of the
      backslashes before a quote count, an odd one makes the quote literal, and a
      doubled quote between quotes is a literal one. */
  function ReadWord(s: string, n: nat, q: bool, acc: string): (r: (string, string))
    ensures |r.1| <= |s|
    ensures s != "" && !Delimiter(s[0]) ==> |r.1| < |s|
    decreases |s|
  {
    if s == "" then (acc + Backslashes(n), "")
    else if s[0] == BACKSLASH then ReadWord(s[1..], n + 1, q, acc)
    else if s[0] == QUOTE then
      if n % 2 == 1 then ReadWord(s[1..], 0, q, acc + Backslashes(n / 2) + [QUOTE])
      else if q && |s| > 1 && s[1] == QUOTE then ReadWord(s[2..], 0, q, acc + Backslashes(n / 2) + [QUOTE])
      else ReadWord(s[1..], 0, !q, acc + Backslashes(n / 2))
    else if !q && Delimiter(s[0]) then (acc + Backslashes(n), s)
    else ReadWord(s[1..], 0, q, acc + Backslashes(n) + [s[0]])
  }

  function ReadArgs(s: string): seq<string>
    decreases |s|
  {
    if s == "" then []
    else if Delimiter(s[0]) then ReadArgs(s[1..])
    else
      var (word, rest) := ReadWord(s, 0, false, "");
      [word] + ReadArgs(rest)
  }

  // ---------------------------------------------------- reading undoes writing

  /** A word ends here: nothing follows, or a delimiter does. */
  predicate AtEnd(rest: string) {
    rest == "" || Delimiter(rest[0])
  }

  lemma {:induction false} JoinRuns(m: nat, n: nat)
    ensures Backslashes(m) + Backslashes(n) == Backslashes(m + n)
  {
  }

  lemma {:induction false} ReadRun(k: nat, t: string, n: nat, q: bool, acc: string)
    ensures ReadWord(Backslashes(k) + t, n, q, acc) == ReadWord(t, n + k, q, acc)
    decreases k
  {
    if k == 0 {
      assert Backslashes(k) + t == t;
    } else {
      var s := Backslashes(k) + t;
      assert s[1..] == Backslashes(k - 1) + t;
      ReadRun(k - 1, t, n + 1, q, acc);
    }
  }

  lemma ReadOther(c: char, t: string, n: nat, acc: string)
    requires c != BACKSLASH && c != QUOTE
    ensures ReadWord([c] + t, n, true, acc) == ReadWord(t, 0, true, acc + Backslashes(n) + [c])
  {
    assert ([c] + t)[1..] == t;
  }

  lemma ReadLiteralQuote(t: string, n: nat, q: bool, acc: string)
    requires n % 2 == 1
    ensures ReadWord([QUOTE] + t, n, q, acc) == ReadWord(t, 0, q, acc + Backslashes(n / 2) + [QUOTE])
  {
    assert ([QUOTE] + t)[1..] == t;
  }

  lemma ReadToggle(t: string, n: nat, q: bool, acc: string)
    requires n % 2 == 0 && (q ==> AtEnd(t))
    ensures ReadWord([QUOTE] + t, n, q, acc) == ReadWord(t, 0, !q, acc + Backslashes(n / 2))
  {
    assert ([QUOTE] + t)[1..] == t;
  }

  lemma ReadEnd(rest: string, n: nat, acc: string)
    requires AtEnd(rest)
    ensures ReadWord(rest, n, false, acc) == (acc + Backslashes(n), rest)
  {
  }

  /** Reading the quoted text up to its closing quote gives back the word. */
  lemma {:induction false} ReadBody(s: string, n: nat, rest: string, acc: string)
    requires AtEnd(rest)
    ensures ReadWord(Body(s, n) + [QUOTE] + rest, 0, true, acc) == (acc + Backslashes(n) + s, rest)
    decreases |s|
  {
    hide ReadWord;
    hide Backslashes;
    var close := [QUOTE] + rest;
    assert Body(s, n) + [QUOTE] + rest == Body(s, n) + close;
    if s == "" {
      ReadRun(2 * n, close, 0, true, acc);
      ReadToggle(rest, 2 * n, true, acc);
      ReadEnd(rest, 0, acc + Backslashes(n));
      Empty(acc + Backslashes(n));
    } else if s[0] == BACKSLASH {
      ReadBody(s[1..], n + 1, rest, acc);
      OneMore(n);
      assert acc + Backslashes(n + 1) + s[1..] == acc + Backslashes(n) + s;
    } else {
      var more := Body(s[1..], 0) + close;
      assert more == Body(s[1..], 0) + [QUOTE] + rest;
      var got := acc + Backslashes(n) + [s[0]];
      if s[0] == QUOTE {
        assert Body(s, n) + close == Backslashes(2 * n + 1) + ([QUOTE] + more);
        ReadRun(2 * n + 1, [QUOTE] + more, 0, true, acc);
        ReadLiteralQuote(more, 2 * n + 1, true, acc);
      } else {
        assert Body(s, n) + close == Backslashes(n) + ([s[0]] + more);
        ReadRun(n, [s[0]] + more, 0, true, acc);
        ReadOther(s[0], more, n, acc);
      }
      ReadBody(s[1..], 0, rest, got);
      Empty(got);
      assert got + s[1..] == acc + Backslashes(n) + s;
    }
  }

  lemma Empty(s: string)
    ensures s + Backslashes(0) == s
  {
  }

  lemma OneMore(n: nat)
    ensures Backslashes(n + 1) == Backslashes(n) + [BACKSLASH]
  {
    JoinRuns(n, 1);
  }

  /** A word without special characters reads back as it stands. */
  lemma {:induction false} ReadPlain(s: string, n: nat, rest: string, acc: string)
    requires Plain(s) && AtEnd(rest)
    ensures ReadWord(s + rest, n, false, acc) == (acc + Backslashes(n) + s, rest)
    decreases |s|
  {
    hide Backslashes;
    if s == "" {
      assert s + rest == rest;
      ReadEnd(rest, n, acc);
      assert acc + Backslashes(n) + s == acc + Backslashes(n);
    } else {
      assert (s + rest)[1..] == s[1..] + rest;
      if s[0] == BACKSLASH {
        ReadPlain(s[1..], n + 1, rest, acc);
        OneMore(n);
        assert acc + Backslashes(n + 1) + s[1..] == acc + Backslashes(n) + s;
      } else {
        var got := acc + Backslashes(n) + [s[0]];
        ReadPlain(s[1..], 0, rest, got);
        Empty(got);
        assert got + s[1..] == acc + Backslashes(n) + s;
      }
    }
  }

  lemma ReadQuoted(arg: string, rest: string)
    requires AtEnd(rest)
    ensures ReadWord(Quoted(arg) + rest, 0, false, "") == (arg, rest)
    ensures Quoted(arg) != "" && !Delimiter(Quoted(arg)[0])
  {
    hide ReadWord, Body, Backslashes;
    Empty("");
    assert "" + Backslashes(0) + arg == arg;
    if arg != "" && Plain(arg) {
      ReadPlain(arg, 0, rest, "");
    } else {
      var text := Body(arg, 0) + [QUOTE] + rest;
      assert Quoted(arg) + rest == [QUOTE] + text;
      ReadToggle(text, 0, false, "");
      ReadBody(arg, 0, rest, "");
    }
  }

  lemma ReadFirst(arg: string, rest: string)
    requires AtEnd(rest)
    ensures ReadArgs(Quoted(arg) + rest) == [arg] + ReadArgs(rest)
  {
    hide ReadWord, Quoted;
    ReadQuoted(arg, rest);
  }

  lemma ReadAfterSpace(s: string)
    ensures ReadArgs(" " + s) == ReadArgs(s) && ReadArgs("") == []
  {
    assert (" " + s)[1..] == s;
  }

  /** Reading a written command line gives back the words, whatever they are. */
  lemma {:induction false} RoundTrip(argv: seq<string>)
    ensures ReadArgs(CommandLine(argv)) == argv
  {
    hide ReadArgs, Quoted;
    if |argv| <= 1 {
      ReadAfterSpace("");
    }
    if |argv| == 1 {
      ReadFirst(argv[0], "");
      assert Quoted(argv[0]) + "" == Quoted(argv[0]);
    } else if |argv| > 1 {
      var rest := " " + CommandLine(argv[1..]);
      RoundTrip(argv[1..]);
      ReadFirst(argv[0], rest);
      ReadAfterSpace(CommandLine(argv[1..]));
      assert Quoted(argv[0]) + rest == CommandLine(argv);
    }
  }

  // --------------------------------------------------------- the program name

  /** The reader treats the first word of a line, the program name, without the
      backslash rules: up to the next quote when it starts with one, otherwise up
      to a delimiter. */
  function ReadProgram(s: string): (string, string) {
    if s != "" && s[0] == QUOTE then
      var e := FindQuote(s, 1);
      (s[1..e], if e == |s| then "" else s[e + 1..])
    else
      var e := FindDelimiter(s, 0);
      (s[..e], s[e..])
  }

  function FindQuote(s: string, i: nat): (e: nat)
    requires i <= |s|
    ensures i <= e <= |s| && (e < |s| ==> s[e] == QUOTE)
    ensures forall k :: i <= k < e ==> s[k] != QUOTE
    decreases |s| - i
  {
    if i == |s| || s[i] == QUOTE then i else FindQuote(s, i + 1)
  }

  function FindDelimiter(s: string, i: nat): (e: nat)
    requires i <= |s|
    ensures i <= e <= |s| && (e < |s| ==> Delimiter(s[e]))
    ensures forall k :: i <= k < e ==> !Delimiter(s[k])
    decreases |s| - i
  {
    if i == |s| || Delimiter(s[i]) then i else FindDelimiter(s, i + 1)
  }

  /** A program name that needs quotes must neither contain one nor end in a backslash. */
  predicate FitsProgramName(arg: string) {
    (arg != "" && Plain(arg)) || (QUOTE !in arg && (arg == "" || arg[|arg| - 1] != BACKSLASH))
  }

  lemma {:induction false} BodyUnchanged(s: string, n: nat)
    requires QUOTE !in s
    ensures Body(s, n) == Backslashes(n) + s + Backslashes(Trailing(s, n))
    decreases |s|
  {
    hide Backslashes;
    if s == "" {
      JoinRuns(n, n);
    } else if s[0] == BACKSLASH {
      BodyUnchanged(s[1..], n + 1);
      OneMore(n);
    } else {
      BodyUnchanged(s[1..], 0);
      Empty("");
    }
  }

  /** The length of the final run of backslashes, `n` of them standing before `s`. */
  function Trailing(s: string, n: nat): nat {
    if s == "" then n else if s[0] == BACKSLASH then Trailing(s[1..], n + 1) else Trailing(s[1..], 0)
  }

  lemma {:induction false} TrailingExact(s: string, n: nat)
    requires s != ""
    ensures Trailing(s, n) > 0 <==> s[|s| - 1] == BACKSLASH
  {
    if |s| > 1 {
      TrailingExact(s[1..], if s[0] == BACKSLASH then n + 1 else 0);
    }
  }

  lemma {:induction false} QuoteFoundAt(s: string, i: nat, e: nat)
    requires i <= e < |s| && s[e] == QUOTE && forall k :: i <= k < e ==> s[k] != QUOTE
    ensures FindQuote(s, i) == e
    decreases e - i
  {
    if i < e {
      QuoteFoundAt(s, i + 1, e);
    }
  }

  lemma {:induction false} DelimiterFoundAt(s: string, i: nat, e: nat)
    requires i <= e <= |s| && (e < |s| ==> Delimiter(s[e])) && forall k :: i <= k < e ==> !Delimiter(s[k])
    ensures FindDelimiter(s, i) == e
    decreases e - i
  {
    if i < e {
      DelimiterFoundAt(s, i + 1, e);
    }
  }

  /** What the program-name rule reads when the name needs quotes and has none. */
  lemma ReadQuotedProgram(arg: string, rest: string)
    requires QUOTE !in arg && (arg == "" || !Plain(arg))
    ensures ReadProgram(Quoted(arg) + rest) == (arg + Backslashes(Trailing(arg, 0)), rest)
  {
    hide Backslashes, Trailing, FindQuote, Body, Plain;
    var word := arg + Backslashes(Trailing(arg, 0));
    BodyUnchanged(arg, 0);
    Empty("");
    assert Body(arg, 0) == word;
    var line := [QUOTE] + word + [QUOTE] + rest;
    assert Quoted(arg) + rest == line;
    assert forall k :: 1 <= k < |word| + 1 ==> line[k] == word[k - 1];
    QuoteFoundAt(line, 1, |word| + 1);
    assert line[1..|word| + 1] == word && line[|word| + 2..] == rest;
  }

  /** The program name reads back exactly when it fits the rule for program names. */
  lemma ProgramNameExact(arg: string, rest: string)
    requires AtEnd(rest)
    ensures FitsProgramName(arg) ==> ReadProgram(Quoted(arg) + rest) == (arg, rest)
    ensures !FitsProgramName(arg) ==> ReadProgram(Quoted(arg) + rest).0 != arg
  {
    hide Backslashes, Trailing, FindQuote, Body, FindDelimiter;
    var line := Quoted(arg) + rest;
    if arg != "" && Plain(arg) {
      DelimiterFoundAt(line, 0, |arg|);
    } else if QUOTE in arg {
      assert line[0] == QUOTE;
      assert QUOTE !in ReadProgram(line).0;
    } else {
      ReadQuotedProgram(arg, rest);
      if arg == "" {
        NoTrail();
      } else {
        TrailingExact(arg, 0);
      }
      assert |arg + Backslashes(Trailing(arg, 0))| == |arg| + Trailing(arg, 0);
      if Trailing(arg, 0) == 0 {
        Empty(arg);
      }
    }
  }

  lemma NoTrail()
    ensures Trailing("", 0) == 0
  {
  }

  /** So a whole line, read as a program name and then arguments, gives the vector
      back exactly when its program name fits. */
  lemma WholeLineExact(argv: seq<string>)
    requires argv != []
    ensures var (program, rest) := ReadProgram(CommandLine(argv));
      ([program] + ReadArgs(rest) == argv) <==> FitsProgramName(argv[0])
  {
    hide ReadProgram, Quoted, FitsProgramName, ReadArgs;
    var rest := if |argv| == 1 then "" else " " + CommandLine(argv[1..]);
    assert CommandLine(argv) == Quoted(argv[0]) + rest;
    ProgramNameExact(argv[0], rest);
    if |argv| > 1 {
      ReadAfterSpace(CommandLine(argv[1..]));
      RoundTrip(argv[1..]);
    } else {
      ReadAfterSpace("");
    }
    assert argv == [argv[0]] + argv[1..];
  }

  /** A word is left as it is exactly if it is not empty and holds none of space, tab,
      newline, vertical tab and quote; any other one stands between quotes. */
  lemma QuotedExact(arg: string)
    ensures Quoted(arg) == arg <==> arg != "" && forall c :: c in arg ==> c !in [' ', '\t', '\n', '\U{000B}', '"']
    ensures Quoted(arg) != arg ==> |Quoted(arg)| >= 2 && Quoted(arg)[0] == '"' && Quoted(arg)[|Quoted(arg)| - 1] == '"'
  {
    hide Body;
    assert forall i :: 0 <= i < |arg| ==> arg[i] in arg;
    BodyIsLong(arg, 0);
  }

  lemma {:induction false} BodyIsLong(s: string, n: nat)
    ensures |Body(s, n)| >= |s| + n
  {
    if s != "" {
      if s[0] == BACKSLASH {
        BodyIsLong(s[1..], n + 1);
      } else {
        BodyIsLong(s[1..], 0);
      }
    }
  }

  // ------------------------------------------------------------------ the loop

  /** `quote_windows_arg`. */
  method QuoteWindowsArg(arg: string) returns (out: string)
    ensures out == Quoted(arg)
  {
    hide Body, Backslashes;
    if arg != "" && Plain(arg) {
      return arg;
    }
    out := [QUOTE];
    BodyStep("", 0);
    Empty("");
    assert arg[0..] == arg && arg[|arg|..] == "";
    var i := 0;
    while i < |arg|
      invariant 0 <= i <= |arg|
      invariant out + Body(arg[i..], 0) == [QUOTE] + Body(arg, 0)
    {
      ghost var start := i;
      var backslashes := 0;
      while i < |arg| && arg[i] == BACKSLASH
        invariant start <= i <= |arg| && backslashes == i - start
        invariant Body(arg[start..], 0) == Body(arg[i..], backslashes)
      {
        BodyStep(arg[i..], backslashes);
        assert arg[i..][1..] == arg[i + 1..];
        backslashes := backslashes + 1;
        i := i + 1;
      }
      BodyStep(arg[i..], backslashes);
      if i == |arg| {
        out := out + Backslashes(2 * backslashes);
        break;
      }
      assert arg[i..][1..] == arg[i + 1..];
      if arg[i] == QUOTE {
        out := out + Backslashes(2 * backslashes + 1);
        out := out + [QUOTE];
      } else {
        out := out + Backslashes(backslashes);
        out := out + [arg[i]];
      }
      i := i + 1;
    }
    out := out + [QUOTE];
  }

  lemma BodyStep(s: string, n: nat)
    ensures Body(s, n) ==
      if s == "" then Backslashes(2 * n)
      else if s[0] == BACKSLASH then Body(s[1..], n + 1)
      else if s[0] == QUOTE then Backslashes(2 * n + 1) + [QUOTE] + Body(s[1..], 0)
      else Backslashes(n) + [s[0]] + Body(s[1..], 0)
  {
  }

  /** The command line that `run_process` builds. */
  method BuildCommandLine(argv: seq<string>) returns (line: string)
    ensures line == CommandLine(argv)
    ensures ReadArgs(line) == argv
  {
    hide Quoted, ReadArgs, CommandLine, Remaining;
    RemainingEnds(argv);
    line := "";
    var i := 0;
    while i < |argv|
      invariant 0 <= i <= |argv|
      invariant line + Remaining(argv, i) == CommandLine(argv)
    {
      RemainingStep(argv, i);
      if i > 0 {
        line := line + " ";
      }
      var word := QuoteWindowsArg(argv[i]);
      assert line + (word + Remaining(argv, i + 1)) == CommandLine(argv);
      line := line + word;
      i := i + 1;
    }
    RoundTrip(argv);
  }

  /** What is still to be written when `i` words have been. */
  ghost function Remaining(argv: seq<string>, i: nat): string
    requires i <= |argv|
  {
    if i == |argv| then "" else (if i > 0 then " " else "") + CommandLine(argv[i..])
  }

  lemma RemainingEnds(argv: seq<string>)
    ensures Remaining(argv, 0) == CommandLine(argv) && Remaining(argv, |argv|) == ""
  {
    hide Quoted;
    assert argv[0..] == argv;
  }

  lemma RemainingStep(argv: seq<string>, i: nat)
    requires i < |argv|
    ensures Remaining(argv, i) == (if i > 0 then " " else "") + (Quoted(argv[i]) + Remaining(argv, i + 1))
  {
    hide Quoted;
    assert argv[i..][1..] == argv[i + 1..];
  }
}
