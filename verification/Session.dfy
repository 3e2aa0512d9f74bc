/** The systemd user unit of a service: what is written, and what systemd reads. */
module SessionUnit {
  import opened Prelude
  import opened IniText
  import opened Identity

  const BACKSLASH: char := '\\'
  const QUOTE: char := '\"'

  // -------------------------------------------------------------- the writer

  /** `strip_control`: line ends and NUL become spaces, other controls go. */
  function Strip(c: char): string {
    if c == '\n' || c == '\r' || c == '\0' then " "
    else if c < 0x20 as char || c == 0x7F as char then "" else [c]
  }

  function StripControl(s: string): string {
    Transcribe(Strip, s)
  }

  function Specifier(c: char): string {
    if c == '%' then "%%" else [c]
  }

  function ExecChar(c: char): string {
    if c == BACKSLASH then [BACKSLASH, BACKSLASH]
    else if c == QUOTE then [BACKSLASH, QUOTE]
    else if c == '$' then "$$" else if c == '%' then "%%" else [c]
  }

  function EnvChar(c: char): string {
    if c == BACKSLASH then [BACKSLASH, BACKSLASH]
    else if c == QUOTE then [BACKSLASH, QUOTE]
    else if c == '%' then "%%" else [c]
  }

  function UnitValue(s: string): string {
    Transcribe(Specifier, StripControl(s))
  }

  function ExecWord(s: string): string {
    [QUOTE] + Transcribe(ExecChar, StripControl(s)) + [QUOTE]
  }

  function EnvAssignment(name: string, value: string): string {
    [QUOTE] + (name + "=") + Transcribe(EnvChar, StripControl(value)) + [QUOTE]
  }

  datatype LaunchMode = Gui | Console | Service

  datatype Inputs = Inputs(id: string, name: string, application: bool, mode: LaunchMode, runtime: string, home: string)

  predicate IsSessionManageable(i: Inputs) {
    i.application && i.mode.Service?
  }

  function ExecStart(i: Inputs): string {
    ExecWord(i.runtime) + " run " + ExecWord(i.id) + " --wait"
  }

  function Display(i: Inputs): string {
    if i.name == "" then i.id else i.name
  }

  const NOTICE: seq<string> := [
    " Generated by .LEXE. Do not edit.",
    "",
    " `lexe doctor` records this " + "file's content hash and will " + "report it as modified",
    " if it changes; `lexe doctor " + "--repair` rewrites it. " + "Change the application,"]

  /** How to remove the unit. */
  function Removal(id: string): string {
    " not the unit. Remove it with " + "`lexe service disable " + id + "`."
  }

  function Comments(texts: seq<string>): seq<Line> {
    seq(|texts|, k requires 0 <= k < |texts| => Comment(texts[k]))
  }

  function Directives(ps: seq<(string, string)>): seq<Line> {
    seq(|ps|, k requires 0 <= k < |ps| => Directive(ps[k].0, ps[k].1))
  }

  function UnitPairs(i: Inputs): seq<(string, string)> {
    [("Description", UnitValue(Display(i)) + " (.LEXE)"), ("Documentation", "man:lexe(1)"),
     ("PartOf", "graphical-session.target")]
  }

  function ServicePairs(i: Inputs): seq<(string, string)> {
    [("Type", "simple"), ("ExecStart", ExecStart(i)), ("Restart", "on-failure"), ("RestartSec", "5s"),
     ("TimeoutStopSec", "20s")]
  }

  function HomePairs(i: Inputs): seq<(string, string)> {
    if i.home == "" then [] else [("Environment", EnvAssignment("LEXE_HOME", i.home))]
  }

  const INSTALL_PAIRS: seq<(string, string)> := [("WantedBy", "default.target")]

  function UnitDoc(i: Inputs): seq<Line> {
    Comments(NOTICE + [Removal(i.id)])
    + [Blank, Section("Unit")] + Directives(UnitPairs(i))
    + [Blank, Section("Service")] + Directives(ServicePairs(i) + HomePairs(i))
    + [Blank, Section("Install")] + Directives(INSTALL_PAIRS)
  }

  /** `unit_text`; None where it throws. */
  function UnitText(i: Inputs): Option<string> {
    if !IsSessionManageable(i) || i.runtime == "" then None else Some(Text(UnitDoc(i)))
  }

  // ------------------------------------------------------- what systemd reads

  /** A line that ends in a backslash goes on in the next one. */
  function Logical(ls: seq<string>): seq<string>
    decreases |ls|
  {
    if ls == [] then []
    else if |ls| > 1 && Continues(ls[0]) then Logical([ls[0][..|ls[0]| - 1] + " " + ls[1]] + ls[2..])
    else [ls[0]] + Logical(ls[1..])
  }

  predicate Continues(l: string) {
    l != "" && l[|l| - 1] == BACKSLASH
  }

  function ReadUnit(text: string): seq<Line> {
    ParseLines(Logical(Lines(text)))
  }

  predicate IsSpace(c: char) {
    c == ' ' || c == '\t'
  }

  function TrimLeft(s: string): string {
    if s != "" && IsSpace(s[0]) then TrimLeft(s[1..]) else s
  }

  /** The C-style escapes of one letter. */
  function Unescape(c: char): Option<char> {
    if c == BACKSLASH || c == QUOTE || c == '\'' then Some(c)
    else if c == 'a' then Some(7 as char) else if c == 'b' then Some(8 as char) else if c == 't' then Some('\t')
    else if c == 'n' then Some('\n') else if c == 'v' then Some(11 as char) else if c == 'f' then Some(12 as char)
    else if c == 'r' then Some('\r') else if c == 's' then Some(' ') else None
  }

  /** One word and the rest of the line; `q` is the open quote, or NUL. */
  function ReadWord(s: string, q: char, acc: string): (r: Option<(string, string)>)
    ensures r.Some? ==> |r.value.1| <= |s| && (s != "" && !IsSpace(s[0]) ==> |r.value.1| < |s|)
    decreases |s|
  {
    if s == "" then if q == '\0' then Some((acc, "")) else None
    else if s[0] == BACKSLASH then
      if |s| < 2 || Unescape(s[1]).None? then None else ReadWord(s[2..], q, acc + [Unescape(s[1]).value])
    else if q != '\0' then if s[0] == q then ReadWord(s[1..], '\0', acc) else ReadWord(s[1..], q, acc + [s[0]])
    else if IsSpace(s[0]) then Some((acc, s))
    else if s[0] == QUOTE || s[0] == '\'' then ReadWord(s[1..], s[0], acc)
    else ReadWord(s[1..], '\0', acc + [s[0]])
  }

  function ReadWords(s: string): Option<seq<string>>
    decreases |s|
  {
    if s == "" then Some([])
    else if IsSpace(s[0]) then ReadWords(s[1..])
    else
      match ReadWord(s, '\0', "")
      case None => None
      case Some((word, rest)) =>
        var more := ReadWords(rest);
        if more.None? then None else Some([word] + more.value)
  }

  /** A doubled `c` stands for one; a single one stands for something else. */
  function Undouble(c: char, s: string): Option<string>
    decreases |s|
  {
    if s == "" then Some("")
    else if s[0] != c then
      var r := Undouble(c, s[1..]);
      if r.None? then None else Some([s[0]] + r.value)
    else if |s| > 1 && s[1] == c then
      var r := Undouble(c, s[2..]);
      if r.None? then None else Some([c] + r.value)
    else None
  }

  /** Specifiers, then variables, word by word. */
  function ExpandWord(w: string): Option<string> {
    var s := Undouble('%', w);
    if s.None? then None else Undouble('$', s.value)
  }

  function ExpandAll(ws: seq<string>): Option<seq<string>> {
    if ws == [] then Some([])
    else
      var w, rest := ExpandWord(ws[0]), ExpandAll(ws[1..]);
      if w.None? || rest.None? then None else Some([w.value] + rest.value)
  }

  /** Before the executable these characters say how to start it. */
  predicate ExecPrefix(c: char) {
    c == '@' || c == '-' || c == ':' || c == '+' || c == '!'
  }

  function WithoutPrefix(word: string): string {
    if word != "" && ExecPrefix(word[0]) then WithoutPrefix(word[1..]) else word
  }

  /** The command that an `ExecStart=` value stands for. */
  function ReadCommand(value: string): Option<seq<string>> {
    var ws := ReadWords(TrimLeft(value));
    if ws.None? || ws.value == [] then None else ExpandAll([WithoutPrefix(ws.value[0])] + ws.value[1..])
  }

  // ---------------------------------------------------- reading undoes writing

  function Double(c: char): char -> string {
    x => if x == c then [c, c] else [x]
  }

  lemma {:induction false} UndoubleUndoes(c: char, s: string)
    ensures Undouble(c, Transcribe(Double(c), s)) == Some(s)
  {
    if s != "" {
      UndoubleUndoes(c, s[1..]);
      var t := Transcribe(Double(c), s[1..]);
      assert s == [s[0]] + s[1..];
      if s[0] == c {
        assert Transcribe(Double(c), s) == [c, c] + t;
        assert ([c, c] + t)[2..] == t;
      } else {
        assert ([s[0]] + t)[1..] == t;
      }
    }
  }

  /** What is left of an escaped word once quotes and backslashes are read. */
  function Doubled(c: char): string {
    if c == '$' then "$$" else if c == '%' then "%%" else [c]
  }

  lemma ReadOne(c: char, rest: string, acc: string)
    ensures ReadWord(ExecChar(c) + rest, QUOTE, acc) == ReadWord(rest, QUOTE, acc + Doubled(c))
  {
    if c == BACKSLASH || c == QUOTE {
      assert (ExecChar(c) + rest)[2..] == rest;
    } else if c == '$' || c == '%' {
      var s := ExecChar(c) + rest;
      assert s[1..] == [c] + rest && ([c] + rest)[1..] == rest;
      assert ReadWord(s, QUOTE, acc) == ReadWord([c] + rest, QUOTE, acc + [c]);
      assert acc + [c] + [c] == acc + Doubled(c);
    } else {
      assert ([c] + rest)[1..] == rest;
    }
  }

  lemma {:induction false} ReadEscaped(t: string, rest: string, acc: string)
    ensures ReadWord(Transcribe(ExecChar, t) + rest, QUOTE, acc) == ReadWord(rest, QUOTE, acc + Transcribe(Doubled, t))
    decreases |t|
  {
    hide ReadWord, ExecChar, Doubled;
    if t == "" {
      assert Transcribe(ExecChar, t) + rest == rest && acc + Transcribe(Doubled, t) == acc;
    } else {
      var more := Transcribe(ExecChar, t[1..]) + rest;
      assert Transcribe(ExecChar, t) + rest == ExecChar(t[0]) + more;
      ReadOne(t[0], more, acc);
      ReadEscaped(t[1..], rest, acc + Doubled(t[0]));
      assert acc + Doubled(t[0]) + Transcribe(Doubled, t[1..]) == acc + Transcribe(Doubled, t);
    }
  }

  predicate AtEnd(rest: string) {
    rest == "" || IsSpace(rest[0])
  }

  lemma ReadClose(rest: string, acc: string)
    requires AtEnd(rest)
    ensures ReadWord([QUOTE] + rest, QUOTE, acc) == Some((acc, rest))
  {
    assert ([QUOTE] + rest)[1..] == rest;
  }

  lemma ReadOpen(rest: string)
    ensures ReadWord([QUOTE] + rest, '\0', "") == ReadWord(rest, QUOTE, "")
  {
    assert ([QUOTE] + rest)[1..] == rest;
  }

  lemma ReadExecWord(s: string, rest: string)
    requires AtEnd(rest)
    ensures ReadWord(ExecWord(s) + rest, '\0', "") == Some((Transcribe(Doubled, StripControl(s)), rest))
  {
    hide ReadWord, Transcribe;
    var t := StripControl(s);
    var close := [QUOTE] + rest;
    assert ExecWord(s) + rest == [QUOTE] + (Transcribe(ExecChar, t) + close);
    ReadOpen(Transcribe(ExecChar, t) + close);
    ReadEscaped(t, close, "");
    assert "" + Transcribe(Doubled, t) == Transcribe(Doubled, t);
    ReadClose(rest, Transcribe(Doubled, t));
  }

  lemma {:induction false} DoubledTwice(t: string)
    ensures Transcribe(Doubled, t) == Transcribe(Double('%'), Transcribe(Double('$'), t))
  {
    if t != "" {
      DoubledTwice(t[1..]);
      TranscribeAppends(Double('%'), Double('$')(t[0]), Transcribe(Double('$'), t[1..]));
      DoubledOne(t[0]);
    }
  }

  lemma DoubledOne(c: char)
    ensures Doubled(c) == Transcribe(Double('%'), Double('$')(c))
  {
    if c == '$' {
      TranscribeFirst(Double('%'), c, "$");
      TranscribeFirst(Double('%'), c, "");
      assert "$" == ['$'] + "" && "$$" == ['$'] + "$";
    } else {
      TranscribeFirst(Double('%'), c, "");
      assert [c] == [c] + "";
    }
  }

  /** A quoted word comes out as the text it was made of. */
  lemma WordReads(t: string)
    ensures ExpandWord(Transcribe(Doubled, t)) == Some(t)
  {
    hide Transcribe, Undouble;
    DoubledTwice(t);
    UndoubleUndoes('%', Transcribe(Double('$'), t));
    UndoubleUndoes('$', t);
  }

  lemma {:induction false} PrefixIsPlain(t: string)
    ensures WithoutPrefix(Transcribe(Doubled, t)) == Transcribe(Doubled, WithoutPrefix(t))
  {
    if t != "" {
      var d := Transcribe(Doubled, t);
      assert d == Doubled(t[0]) + Transcribe(Doubled, t[1..]) && d[0] == t[0];
      if ExecPrefix(t[0]) {
        assert d[1..] == Transcribe(Doubled, t[1..]);
        PrefixIsPlain(t[1..]);
      }
    }
  }

  lemma {:induction false} PrefixExact(t: string)
    ensures |WithoutPrefix(t)| <= |t| && (WithoutPrefix(t) == t <==> t == "" || !ExecPrefix(t[0]))
  {
    if t != "" && ExecPrefix(t[0]) {
      PrefixExact(t[1..]);
    }
  }

  predicate PlainChar(c: char) {
    !IsSpace(c) && c != BACKSLASH && c != QUOTE && c != '\'' && c != '%' && c != '$'
  }

  lemma {:induction false} ReadPlainWord(w: string, rest: string, acc: string)
    requires AtEnd(rest) && forall c | c in w :: PlainChar(c)
    ensures ReadWord(w + rest, '\0', acc) == Some((acc + w, rest))
    decreases |w|
  {
    if w == "" {
      assert w + rest == rest && acc + w == acc;
    } else {
      assert (w + rest)[1..] == w[1..] + rest && (w + rest)[0] == w[0] && w[0] in w;
      ReadPlainWord(w[1..], rest, acc + [w[0]]);
      assert acc + [w[0]] + w[1..] == acc + w;
    }
  }

  lemma {:induction false} NothingDoubled(c: char, s: string)
    requires c !in s
    ensures Undouble(c, s) == Some(s)
  {
    if s != "" {
      NothingDoubled(c, s[1..]);
      assert s == [s[0]] + s[1..];
    }
  }

  /** The first word of a line, and after a space the others. */
  lemma WordsStep(s: string, word: string, rest: string)
    requires s != "" && !IsSpace(s[0]) && ReadWord(s, '\0', "") == Some((word, rest))
    ensures rest == "" ==> ReadWords(s) == Some([word])
    ensures rest != "" && IsSpace(rest[0]) ==>
      ReadWords(s) == if ReadWords(rest[1..]).None? then None else Some([word] + ReadWords(rest[1..]).value)
  {
    hide ReadWord;
    if rest == "" {
      assert ReadWords(rest) == Some([]) && [word] + [] == [word];
    }
  }

  lemma PlainStep(w: string, rest: string)
    requires w != "" && forall c | c in w :: PlainChar(c)
    ensures ReadWords(w) == Some([w])
    ensures ReadWords(w + " " + rest) == if ReadWords(rest).None? then None else Some([w] + ReadWords(rest).value)
  {
    hide ReadWord, ReadWords;
    ReadPlainWord(w, "", "");
    assert PlainChar(w[0]) by { assert w[0] in w; }
    assert w + "" == w && "" + w == w;
    WordsStep(w, w, "");
    ReadPlainWord(w, " " + rest, "");
    assert w + " " + rest == w + (" " + rest) && (" " + rest)[1..] == rest;
    WordsStep(w + " " + rest, w, " " + rest);
  }

  lemma QuotedStep(s: string, rest: string)
    ensures ReadWords(ExecWord(s) + " " + rest) ==
      if ReadWords(rest).None? then None else Some([Transcribe(Doubled, StripControl(s))] + ReadWords(rest).value)
  {
    hide ReadWord, ReadWords, Transcribe;
    ReadExecWord(s, " " + rest);
    assert ExecWord(s) + " " + rest == ExecWord(s) + (" " + rest) && (" " + rest)[1..] == rest;
    WordsStep(ExecWord(s) + " " + rest, Transcribe(Doubled, StripControl(s)), " " + rest);
  }

  lemma PlainExpands(w: string)
    requires forall c | c in w :: PlainChar(c)
    ensures ExpandWord(w) == Some(w)
  {
    NothingDoubled('%', w);
    NothingDoubled('$', w);
  }

  /** `ExecStart=` stands for four words: the runtime path without its controls, `run`,
      the id and `--wait`, whatever the path holds; but characters at its head that are
      prefixes to systemd are lost. An absolute path has none. */
  lemma ExecStartReads(i: Inputs)
    ensures var path := StripControl(i.runtime);
      && ReadCommand(ExecStart(i)) == Some([WithoutPrefix(path), "run", StripControl(i.id), "--wait"])
      && (ReadCommand(ExecStart(i)) == Some([path, "run", StripControl(i.id), "--wait"])
          <==> path == "" || !ExecPrefix(path[0]))
  {
    hide ReadWords, ExpandWord, StripControl, Transcribe, ExpandAll, WithoutPrefix, ExecPrefix;
    var x, y := StripControl(i.runtime), StripControl(i.id);
    var w, v := Transcribe(Doubled, x), Transcribe(Doubled, y);
    PlainStep("--wait", "");
    QuotedStep(i.id, "--wait");
    var tail := ExecWord(i.id) + " " + "--wait";
    PlainStep("run", tail);
    QuotedStep(i.runtime, "run" + " " + tail);
    assert ExecStart(i) == ExecWord(i.runtime) + " " + ("run" + " " + tail);
    assert ExecStart(i)[0] == QUOTE;
    var words := [w] + (["run"] + ([v] + ["--wait"]));
    assert ReadWords(ExecStart(i)) == Some(words);
    assert words[1..] == ["run"] + ([v] + (["--wait"] + []));
    PrefixIsPlain(x);
    PrefixExact(x);
    var z := WithoutPrefix(x);
    WordReads(z);
    WordReads(y);
    PlainExpands("run");
    PlainExpands("--wait");
    ExpandFour(Transcribe(Doubled, z), "run", v, "--wait");
    assert [z] + (["run"] + ([y] + (["--wait"] + []))) == [z, "run", y, "--wait"];
    assert [z, "run", y, "--wait"] == [x, "run", y, "--wait"] <==> z == x by {
      assert [z, "run", y, "--wait"][0] == z && [x, "run", y, "--wait"][0] == x;
    }
  }

  lemma ExpandCons(w: string, rest: seq<string>)
    ensures ExpandAll([]) == Some([])
    ensures ExpandAll([w] + rest) ==
      if ExpandWord(w).None? || ExpandAll(rest).None? then None else Some([ExpandWord(w).value] + ExpandAll(rest).value)
  {
    assert ([w] + rest)[1..] == rest;
  }

  lemma ExpandFour(a: string, b: string, c: string, d: string)
    requires ExpandWord(a).Some? && ExpandWord(b).Some? && ExpandWord(c).Some? && ExpandWord(d).Some?
    ensures ExpandAll([a] + ([b] + ([c] + ([d] + [])))) ==
      Some([ExpandWord(a).value] + ([ExpandWord(b).value] + ([ExpandWord(c).value] + ([ExpandWord(d).value] + []))))
  {
    hide ExpandWord, ExpandAll;
    ExpandCons(d, []);
    ExpandCons(c, [d] + []);
    ExpandCons(b, [c] + ([d] + []));
    ExpandCons(a, [b] + ([c] + ([d] + [])));
  }

  // ------------------------------------------------------------- the whole unit

  lemma {:induction false} PrintableStays(s: string)
    requires forall c | c in s :: Strip(c) == [c]
    ensures StripControl(s) == s
  {
    if s != "" {
      PrintableStays(s[1..]);
      assert s == [s[0]] + s[1..];
    }
  }

  lemma IdStays(id: string)
    requires ValidId(id)
    ensures StripControl(id) == id && '\n' !in id
  {
    IdChars(id);
    PrintableStays(id);
  }

  lemma {:induction false} StripHasNoNewline(s: string)
    ensures '\n' !in StripControl(s)
  {
    TranscribeFree(Strip, s, '\n');
  }

  lemma ValuesHaveNoNewline(s: string)
    ensures '\n' !in UnitValue(s) && '\n' !in ExecWord(s) && '\n' !in EnvAssignment("LEXE_HOME", s)
  {
    hide Transcribe;
    var t := StripControl(s);
    StripHasNoNewline(s);
    TranscribeFree(Specifier, t, '\n');
    TranscribeFree(ExecChar, t, '\n');
    TranscribeFree(EnvChar, t, '\n');
  }

  /** The line is one line, and is read as what it is. */
  predicate Fine(l: Line) {
    WellFormed(l) && !Continues(Render(l))
  }

  predicate AllFine(doc: seq<Line>) {
    forall l | l in doc :: Fine(l)
  }

  lemma FineDirective(key: string, value: string)
    requires WellFormed(Directive(key, "")) && '\n' !in value && value != "" && value[|value| - 1] != BACKSLASH
    ensures Fine(Directive(key, value))
  {
    var l := Render(Directive(key, value));
    assert l[|l| - 1] == value[|value| - 1];
  }

  lemma FineComment(text: string)
    requires '\n' !in text && (text != "" ==> text[|text| - 1] != BACKSLASH)
    ensures Fine(Comment(text))
  {
    var l := Render(Comment(text));
    assert text != "" ==> l[|l| - 1] == text[|text| - 1];
  }

  lemma FineSection(name: string)
    requires '\n' !in name
    ensures Fine(Section(name)) && Fine(Blank)
  {
  }

  predicate FinePair(p: (string, string)) {
    && WellFormed(Directive(p.0, "")) && '\n' !in p.1 && p.1 != "" && p.1[|p.1| - 1] != BACKSLASH
  }

  lemma DirectivesAreFine(ps: seq<(string, string)>)
    requires forall k :: 0 <= k < |ps| ==> FinePair(ps[k])
    ensures AllFine(Directives(ps))
  {
    hide Fine;
    forall l | l in Directives(ps)
      ensures Fine(l)
    {
      var k :| 0 <= k < |ps| && l == Directive(ps[k].0, ps[k].1);
      FineDirective(ps[k].0, ps[k].1);
    }
  }

  predicate FineText(t: string) {
    '\n' !in t && (t != "" ==> t[|t| - 1] != BACKSLASH)
  }

  lemma CommentsAreFine(texts: seq<string>)
    requires forall k :: 0 <= k < |texts| ==> FineText(texts[k])
    ensures AllFine(Comments(texts))
  {
    hide Fine;
    forall l | l in Comments(texts)
      ensures Fine(l)
    {
      var k :| 0 <= k < |texts| && l == Comment(texts[k]);
      FineComment(texts[k]);
    }
  }

  lemma Pieces(a: string, b: string, c: string)
    requires FineText(a) && FineText(b) && FineText(c) && c != ""
    ensures FineText(a + b + c)
  {
  }

  lemma FixedPieces()
    ensures FineText(" `lexe doctor` records this ") && FineText("file's content hash and will ")
    ensures FineText("report it as modified")
  {
  }

  lemma MorePieces()
    ensures FineText(" if it changes; `lexe doctor ") && FineText("--repair` rewrites it. ")
    ensures FineText("Change the application,")
  {
  }

  lemma NoticeIsFine()
    ensures forall k :: 0 <= k < |NOTICE| ==> FineText(NOTICE[k])
  {
    hide FineText;
    FixedPieces();
    MorePieces();
    Pieces(" `lexe doctor` records this ", "file's content hash and will ", "report it as modified");
    Pieces(" if it changes; `lexe doctor ", "--repair` rewrites it. ", "Change the application,");
    FirstLines();
  }

  lemma FirstLines()
    ensures FineText(" Generated by .LEXE. Do not edit.") && FineText("")
  {
  }

  lemma RemovalIsFine(id: string)
    requires '\n' !in id
    ensures FineText(Removal(id))
  {
    var a, b := " not the unit. Remove it with ", "`lexe service disable ";
    assert FineText(a);
    assert FineText(b);
    assert '\n' !in a + b + id;
  }

  lemma UnitPairsAreFine(i: Inputs)
    ensures forall k :: 0 <= k < |UnitPairs(i)| ==> FinePair(UnitPairs(i)[k])
  {
    hide UnitValue, FinePair;
    DescriptionIsFine(i);
    FixedUnitPairs();
  }

  lemma DescriptionIsFine(i: Inputs)
    ensures FinePair(("Description", UnitValue(Display(i)) + " (.LEXE)"))
  {
    hide UnitValue;
    ValuesHaveNoNewline(Display(i));
    var mark := " (.LEXE)";
    assert '\n' !in mark;
  }

  lemma FixedUnitPairs()
    ensures FinePair(("Documentation", "man:lexe(1)"))
    ensures FinePair(("PartOf", "graphical-session.target"))
  {
  }

  lemma FixedServicePairs()
    ensures FinePair(("Type", "simple")) && FinePair(("Restart", "on-failure"))
  {
  }

  lemma FixedTimes()
    ensures FinePair(("RestartSec", "5s")) && FinePair(("TimeoutStopSec", "20s"))
  {
  }

  lemma ServicePairsAreFine(i: Inputs)
    ensures forall k :: 0 <= k < |ServicePairs(i)| ==> FinePair(ServicePairs(i)[k])
  {
    hide ExecStart, FinePair;
    ExecStartIsFine(i);
    FixedServicePairs();
    FixedTimes();
  }

  lemma ExecStartIsFine(i: Inputs)
    ensures FinePair(("ExecStart", ExecStart(i)))
  {
    hide ExecWord;
    ValuesHaveNoNewline(i.runtime);
    ValuesHaveNoNewline(i.id);
  }

  lemma HomePairsAreFine(i: Inputs)
    ensures forall k :: 0 <= k < |HomePairs(i)| ==> FinePair(HomePairs(i)[k])
  {
    hide Transcribe;
    ValuesHaveNoNewline(i.home);
  }

  lemma UnitIsFine(i: Inputs)
    requires ValidId(i.id)
    ensures AllFine(UnitDoc(i))
  {
    hide ValidId, FinePair, Fine, FineText, Directives, Comments, UnitPairs, ServicePairs, HomePairs;
    IdStays(i.id);
    NoticeIsFine();
    RemovalIsFine(i.id);
    CommentsAreFine(NOTICE + [Removal(i.id)]);
    UnitPairsAreFine(i);
    DirectivesAreFine(UnitPairs(i));
    ServicePairsAreFine(i);
    HomePairsAreFine(i);
    DirectivesAreFine(ServicePairs(i) + HomePairs(i));
    assert FinePair(INSTALL_PAIRS[0]) by { FixedPair(); }
    DirectivesAreFine(INSTALL_PAIRS);
    FineSection("Unit");
    FineSection("Service");
    FineSection("Install");
  }

  lemma FixedPair()
    ensures FinePair(INSTALL_PAIRS[0])
  {
  }

  lemma {:induction false} NothingContinues(ls: seq<string>)
    requires forall k :: 0 <= k < |ls| ==> !Continues(ls[k])
    ensures Logical(ls) == ls
  {
    hide Continues;
    if ls != [] {
      NothingContinues(ls[1..]);
    }
  }

  /** Whatever the name, the runtime path and the home are, the unit is read as exactly
      the directives it was meant to have. */
  lemma UnitReads(i: Inputs)
    requires ValidId(i.id) && UnitText(i).Some?
    ensures ReadUnit(UnitText(i).value) == UnitDoc(i)
  {
    hide ValidId, UnitDoc, WellFormed, Render, Continues, Lines, Logical, ParseLines, Text;
    UnitIsFine(i);
    var doc := UnitDoc(i);
    assert forall k :: 0 <= k < |doc| ==> doc[k] in doc && Fine(doc[k]);
    DocumentReads(doc);
    NothingContinues(Lines(Text(doc)));
  }

  // ------------------------------------------------------------- the environment

  lemma ReadOneEnv(c: char, rest: string, acc: string)
    ensures ReadWord(EnvChar(c) + rest, QUOTE, acc) == ReadWord(rest, QUOTE, acc + Double('%')(c))
  {
    if c == '$' {
      assert ([c] + rest)[1..] == rest;
    } else {
      ReadOne(c, rest, acc);
    }
  }

  lemma {:induction false} ReadEscapedEnv(t: string, rest: string, acc: string)
    ensures ReadWord(Transcribe(EnvChar, t) + rest, QUOTE, acc) == ReadWord(rest, QUOTE, acc + Transcribe(Double('%'), t))
    decreases |t|
  {
    hide ReadWord, EnvChar, Double;
    if t == "" {
      assert Transcribe(EnvChar, t) + rest == rest && acc + Transcribe(Double('%'), t) == acc;
    } else {
      var more := Transcribe(EnvChar, t[1..]) + rest;
      assert Transcribe(EnvChar, t) + rest == EnvChar(t[0]) + more;
      ReadOneEnv(t[0], more, acc);
      ReadEscapedEnv(t[1..], rest, acc + Double('%')(t[0]));
      assert acc + Double('%')(t[0]) + Transcribe(Double('%'), t[1..]) == acc + Transcribe(Double('%'), t);
    }
  }

  /** `Environment=`: assignments, with specifiers expanded and nothing else. */
  function ReadEnvironment(value: string): Option<seq<string>> {
    var ws := ReadWords(TrimLeft(value));
    if ws.None? then None else UndoubleAll(ws.value)
  }

  function UndoubleAll(ws: seq<string>): Option<seq<string>> {
    if ws == [] then Some([])
    else
      var w, rest := Undouble('%', ws[0]), UndoubleAll(ws[1..]);
      if w.None? || rest.None? then None else Some([w.value] + rest.value)
  }

  lemma {:induction false} ReadInQuotes(w: string, rest: string, acc: string)
    requires forall c | c in w :: PlainChar(c)
    ensures ReadWord(w + rest, QUOTE, acc) == ReadWord(rest, QUOTE, acc + w)
    decreases |w|
  {
    if w == "" {
      assert w + rest == rest && acc + w == acc;
    } else {
      assert (w + rest)[1..] == w[1..] + rest && (w + rest)[0] == w[0] && w[0] in w;
      ReadInQuotes(w[1..], rest, acc + [w[0]]);
      assert acc + [w[0]] + w[1..] == acc + w;
    }
  }

  /** `Environment=` makes one assignment, of the home without its controls. */
  lemma EnvironmentReads(home: string)
    ensures ReadEnvironment(EnvAssignment("LEXE_HOME", home)) == Some(["LEXE_HOME=" + StripControl(home)])
  {
    hide ReadWord, ReadWords, Transcribe, Undouble, StripControl;
    var t, name := StripControl(home), "LEXE_HOME=";
    var d := Transcribe(Double('%'), t);
    var value := EnvAssignment("LEXE_HOME", home);
    var tail := Transcribe(EnvChar, t) + [QUOTE];
    assert "LEXE_HOME" + "=" == name;
    assert value == [QUOTE] + (name + tail);
    ReadOpen(name + tail);
    ReadInQuotes(name, tail, "");
    assert "" + name == name;
    ReadEscapedEnv(t, [QUOTE], name);
    assert [QUOTE] + "" == [QUOTE];
    ReadClose("", name + d);
    WordsStep(value, name + d, "");
    assert TrimLeft(value) == value;
    TranscribePlain(Double('%'), name);
    TranscribeAppends(Double('%'), name, t);
    UndoubleUndoes('%', name + t);
    OneUndoubled(name + d);
    assert [name + t] + [] == [name + t];
  }

  lemma OneUndoubled(w: string)
    requires Undouble('%', w).Some?
    ensures UndoubleAll([w]) == Some([Undouble('%', w).value])
  {
    hide Undouble;
    assert [w][1..] == [] && UndoubleAll([]) == Some([]);
    assert [Undouble('%', w).value] + [] == [Undouble('%', w).value];
  }

  lemma {:induction false} TranscribePlain(f: char -> string, s: string)
    requires forall c | c in s :: f(c) == [c]
    ensures Transcribe(f, s) == s
  {
    if s != "" {
      TranscribePlain(f, s[1..]);
      assert s == [s[0]] + s[1..] && s[0] in s;
    }
  }

  /** `Description=` shows the name without its controls; leading space goes, as in
      every value. */
  lemma DescriptionReads(name: string)
    ensures Undouble('%', UnitValue(name) + " (.LEXE)") == Some(StripControl(name) + " (.LEXE)")
  {
    hide Transcribe, Undouble, StripControl;
    var t, mark := StripControl(name), " (.LEXE)";
    SpecifierDoubles(t);
    TranscribePlain(Double('%'), mark);
    TranscribeAppends(Double('%'), t, mark);
    UndoubleUndoes('%', t + mark);
  }

  lemma {:induction false} SpecifierDoubles(t: string)
    ensures Transcribe(Specifier, t) == Transcribe(Double('%'), t)
  {
    if t != "" {
      SpecifierDoubles(t[1..]);
    }
  }

  // ------------------------------------------------------------ what the unit sets

  lemma {:induction false} PairsSet(ps: seq<(string, string)>, section: string)
    ensures Settings(Directives(ps), section) ==
      seq(|ps|, k requires 0 <= k < |ps| => Setting(section, ps[k].0, ps[k].1))
    ensures LastSection(Directives(ps), section) == section
  {
    if ps != [] {
      PairsSet(ps[1..], section);
      assert Directives(ps)[1..] == Directives(ps[1..]);
    }
  }

  /** A service that is shown by its name, started by the runtime, restarted when it fails,
      given a home where there is one, and bound to the session and to its begin. */
  ghost predicate IsService(settings: seq<Setting>, i: Inputs) {
    exists description, command, home :: IsServiceWith(settings, i, description, command, home)
  }

  predicate IsServiceWith(settings: seq<Setting>, i: Inputs, description: string, command: string, home: string) {
    var name := if i.name == "" then i.id else i.name;
    var path := WithoutPrefix(StripControl(i.runtime));
    && settings ==
         [Setting("Unit", "Description", description), Setting("Unit", "Documentation", "man:lexe(1)"),
          Setting("Unit", "PartOf", "graphical-session.target")]
         + [Setting("Service", "Type", "simple"), Setting("Service", "ExecStart", command),
            Setting("Service", "Restart", "on-failure"), Setting("Service", "RestartSec", "5s"),
            Setting("Service", "TimeoutStopSec", "20s")]
         + (if i.home == "" then [] else [Setting("Service", "Environment", home)])
         + [Setting("Install", "WantedBy", "default.target")]
    && Undouble('%', description) == Some(StripControl(name) + " (.LEXE)")
    && ReadCommand(command) == Some([path, "run", i.id, "--wait"])
    && (i.home != "" ==> ReadEnvironment(home) == Some(["LEXE_HOME=" + StripControl(i.home)]))
  }

  lemma DocSets(i: Inputs)
    ensures Settings(UnitDoc(i), "") ==
      Settings(Directives(UnitPairs(i)), "Unit") + Settings(Directives(ServicePairs(i) + HomePairs(i)), "Service")
      + Settings(Directives(INSTALL_PAIRS), "Install")
  {
    hide Settings, LastSection, Comments, Directives, UnitPairs, ServicePairs, HomePairs, NOTICE, INSTALL_PAIRS;
    var c := Comments(NOTICE + [Removal(i.id)]);
    var u, v, n := Directives(UnitPairs(i)), Directives(ServicePairs(i) + HomePairs(i)), Directives(INSTALL_PAIRS);
    var a, b, d := [Blank, Section("Unit")], [Blank, Section("Service")], [Blank, Section("Install")];
    SettingsAppend(c + a + u + b + v + d, n, "");
    SettingsAppend(c + a + u + b + v, d, "");
    SettingsAppend(c + a + u + b, v, "");
    SettingsAppend(c + a + u, b, "");
    SettingsAppend(c + a, u, "");
    SettingsAppend(c, a, "");
    CommentsSetNothing(NOTICE + [Removal(i.id)], "");
    SectionBegins("Unit", "");
    SectionBegins("Service", "Unit");
    SectionBegins("Install", "Service");
    PairsSet(UnitPairs(i), "Unit");
    PairsSet(ServicePairs(i) + HomePairs(i), "Service");
  }

  lemma CommentsSetNothing(texts: seq<string>, section: string)
    ensures Settings(Comments(texts), section) == [] && LastSection(Comments(texts), section) == section
  {
    OnlyComments(Comments(texts), section);
  }

  lemma PairsAre(i: Inputs)
    ensures var description := UnitValue(Display(i)) + " (.LEXE)";
      Settings(Directives(UnitPairs(i)), "Unit") ==
        [Setting("Unit", "Description", description), Setting("Unit", "Documentation", "man:lexe(1)"),
         Setting("Unit", "PartOf", "graphical-session.target")]
    ensures Settings(Directives(ServicePairs(i) + HomePairs(i)), "Service") ==
        [Setting("Service", "Type", "simple"), Setting("Service", "ExecStart", ExecStart(i)),
         Setting("Service", "Restart", "on-failure"), Setting("Service", "RestartSec", "5s"),
         Setting("Service", "TimeoutStopSec", "20s")]
        + (if i.home == "" then [] else [Setting("Service", "Environment", EnvAssignment("LEXE_HOME", i.home))])
    ensures Settings(Directives(INSTALL_PAIRS), "Install") == [Setting("Install", "WantedBy", "default.target")]
  {
    hide Settings, Directives, UnitValue, ExecStart, EnvAssignment;
    PairsSet(UnitPairs(i), "Unit");
    PairsSet(ServicePairs(i) + HomePairs(i), "Service");
    PairsSet(INSTALL_PAIRS, "Install");
  }

  /** A unit is written exactly for a service with a runtime path, and what systemd reads
      of it are always these settings, whatever the name, the path and the home are. */
  lemma UnitSettings(i: Inputs)
    ensures UnitText(i).Some? <==> i.application && i.mode == Service && i.runtime != ""
    ensures ValidId(i.id) && UnitText(i).Some? ==> IsService(Settings(ReadUnit(UnitText(i).value), ""), i)
  {
    hide Settings, ReadUnit, UnitDoc, Text, ReadCommand, ReadEnvironment, Undouble, ValidId, Directives, UnitPairs,
         ServicePairs, HomePairs, INSTALL_PAIRS, UnitValue, ExecStart, EnvAssignment, StripControl;
    if ValidId(i.id) && UnitText(i).Some? {
      UnitReads(i);
      DocSets(i);
      PairsAre(i);
      IdStays(i.id);
      ExecStartReads(i);
      DescriptionReads(Display(i));
      EnvironmentReads(i.home);
      assert IsServiceWith(Settings(UnitDoc(i), ""), i, UnitValue(Display(i)) + " (.LEXE)", ExecStart(i),
                           EnvAssignment("LEXE_HOME", i.home));
    }
  }

  /** What becomes of the controls: line ends and NUL are spaces, the others are gone, and
      every other character is kept; and so for each character of a text. */
  lemma StripExact(a: string, c: char, b: string)
    ensures var middle := if c in ['\n', '\r', '\0'] then " " else if c as int < 32 || c as int == 127 then "" else [c];
      StripControl(a + [c] + b) == StripControl(a) + middle + StripControl(b)
    ensures StripControl("") == ""
  {
    hide Transcribe;
    TranscribeNone(Strip);
    TranscribeAppends(Strip, a + [c], b);
    TranscribeAppends(Strip, a, [c]);
    TranscribeFirst(Strip, c, "");
    assert [c] + "" == [c] && Strip(c) + "" == Strip(c);
  }

  // ------------------------------------------------------------------ the loops

  /** `unit_exec_word`. */
  method UnitExecWord(text: string) returns (out: string)
    ensures out == ExecWord(text)
  {
    var clean := AppendEach(Strip, text);
    var word := AppendEach(ExecChar, clean);
    out := [QUOTE] + word + [QUOTE];
  }

  /** `unit_env_assignment`. */
  method UnitEnvAssignment(name: string, value: string) returns (out: string)
    ensures out == EnvAssignment(name, value)
  {
    var clean := AppendEach(Strip, value);
    var word := AppendEach(EnvChar, clean);
    out := [QUOTE] + (name + "=") + word + [QUOTE];
  }
}
