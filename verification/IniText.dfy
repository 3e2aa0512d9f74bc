/** Line-based `key=value` files, as systemd units and desktop entries are. */
module IniText {

  datatype Line = Blank | Comment(text: string) | Section(name: string) | Directive(key: string, value: string) | Other(text: string)

  function Render(l: Line): string {
    match l
    case Blank => ""
    case Comment(text) => "#" + text
    case Section(name) => "[" + name + "]"
    case Directive(key, value) => key + "=" + value
    case Other(text) => text
  }

  function FindChar(s: string, c: char): (d: nat)
    ensures d <= |s| && (d < |s| ==> s[d] == c) && c !in s[..d]
  {
    if s == "" || s[0] == c then 0 else
      var d := FindChar(s[1..], c) + 1;
      assert s[..d] == [s[0]] + s[1..][..d - 1];
      d
  }

  lemma {:induction false} CharFoundAt(x: string, c: char, y: string)
    requires c !in x
    ensures FindChar(x + [c] + y, c) == |x|
  {
    var s := x + [c] + y;
    if x != "" {
      assert s[0] == x[0] && s[1..] == x[1..] + [c] + y;
      CharFoundAt(x[1..], c, y);
    }
  }

  /** How a line is read. */
  function ParseLine(s: string): Line {
    if s == "" then Blank
    else if s[0] == '#' || s[0] == ';' then Comment(s[1..])
    else if s[0] == '[' && s[|s| - 1] == ']' && |s| >= 2 then Section(s[1..|s| - 1])
    else
      var e := FindChar(s, '=');
      if e == |s| then Other(s) else Directive(s[..e], s[e + 1..])
  }

  predicate WellFormed(l: Line) {
    match l
    case Blank => true
    case Comment(text) => '\n' !in text
    case Section(name) => '\n' !in name
    case Directive(key, value) =>
      && key != "" && key[0] != '#' && key[0] != ';' && key[0] != '[' && '=' !in key && '\n' !in key
      && '\n' !in value
    case Other(_) => false
  }

  lemma LineReads(l: Line)
    requires WellFormed(l)
    ensures ParseLine(Render(l)) == l && '\n' !in Render(l)
  {
    match l
    case Directive(key, value) =>
      CharFoundAt(key, '=', value);
      assert Render(l) == key + "=" + value && Render(l)[0] == key[0];
      assert Render(l)[..|key|] == key && Render(l)[|key| + 1..] == value;
    case Comment(text) =>
      assert Render(l)[1..] == text;
    case Section(name) =>
      assert Render(l)[1..|name| + 1] == name;
    case Blank =>
  }

  function Text(doc: seq<Line>): string {
    if doc == [] then "" else Render(doc[0]) + "\n" + Text(doc[1..])
  }

  function Lines(s: string): seq<string>
    decreases |s|
  {
    if s == "" then []
    else
      var e := FindChar(s, '\n');
      if e == |s| then [s] else [s[..e]] + Lines(s[e + 1..])
  }

  function ParseLines(ls: seq<string>): seq<Line> {
    if ls == [] then [] else [ParseLine(ls[0])] + ParseLines(ls[1..])
  }

  /** The lines of a document are read back as they were meant, whatever the values. */
  lemma {:induction false} DocumentReads(doc: seq<Line>)
    requires forall i :: 0 <= i < |doc| ==> WellFormed(doc[i])
    ensures ParseLines(Lines(Text(doc))) == doc
    ensures |Lines(Text(doc))| == |doc| && forall i :: 0 <= i < |doc| ==> Lines(Text(doc))[i] == Render(doc[i])
  {
    hide ParseLine, Render, WellFormed;
    if doc != [] {
      var l, rest := Render(doc[0]), Text(doc[1..]);
      LineReads(doc[0]);
      DocumentReads(doc[1..]);
      CharFoundAt(l, '\n', rest);
      var s := l + "\n" + rest;
      assert Text(doc) == s && s[..|l|] == l && s[|l| + 1..] == rest;
      var ls := Lines(s);
      assert ls == [l] + Lines(rest);
      assert ls[1..] == Lines(rest);
    }
  }

  // ------------------------------------------------------------ what a file sets

  datatype Setting = Setting(section: string, key: string, value: string)

  /** The keys with their values, in order, each in the section that it is under. */
  function Settings(doc: seq<Line>, section: string): seq<Setting> {
    if doc == [] then []
    else
      match doc[0]
      case Section(name) => Settings(doc[1..], name)
      case Directive(key, value) => [Setting(section, key, value)] + Settings(doc[1..], section)
      case _ => Settings(doc[1..], section)
  }

  function LastSection(doc: seq<Line>, section: string): string {
    if doc == [] then section else LastSection(doc[1..], if doc[0].Section? then doc[0].name else section)
  }

  lemma {:induction false} SettingsAppend(a: seq<Line>, b: seq<Line>, section: string)
    ensures Settings(a + b, section) == Settings(a, section) + Settings(b, LastSection(a, section))
    ensures LastSection(a + b, section) == LastSection(b, LastSection(a, section))
    decreases |a|
  {
    if a == [] {
      assert a + b == b;
    } else {
      assert (a + b)[1..] == a[1..] + b && (a + b)[0] == a[0];
      SettingsAppend(a[1..], b, if a[0].Section? then a[0].name else section);
    }
  }

  lemma NothingSet(section: string)
    ensures Settings([], section) == [] && LastSection([], section) == section
  {
  }

  lemma {:induction false} OnlyComments(doc: seq<Line>, section: string)
    requires forall k :: 0 <= k < |doc| ==> doc[k].Comment? || doc[k].Blank?
    ensures Settings(doc, section) == [] && LastSection(doc, section) == section
  {
    if doc != [] {
      OnlyComments(doc[1..], section);
    }
  }

  lemma SectionBegins(name: string, section: string)
    ensures Settings([Blank, Section(name)], section) == [] && LastSection([Blank, Section(name)], section) == name
  {
    assert [Blank, Section(name)][1..] == [Section(name)] && [Section(name)][1..] == [];
    NothingSet(name);
  }

  // --------------------------------------------------- character by character

  /** Every character replaced by a text. */
  function Transcribe(f: char -> string, s: string): string {
    if s == "" then "" else f(s[0]) + Transcribe(f, s[1..])
  }

  lemma TranscribeFirst(f: char -> string, c: char, s: string)
    ensures Transcribe(f, [c] + s) == f(c) + Transcribe(f, s)
  {
    assert ([c] + s)[1..] == s;
  }

  lemma {:induction false} TranscribeAppends(f: char -> string, a: string, b: string)
    ensures Transcribe(f, a + b) == Transcribe(f, a) + Transcribe(f, b)
  {
    if a == "" {
      assert a + b == b;
    } else {
      TranscribeAppends(f, a[1..], b);
      assert (a + b)[1..] == a[1..] + b;
    }
  }

  lemma {:induction false} TranscribeFree(f: char -> string, s: string, c: char)
    requires forall x | x in s :: c !in f(x)
    ensures c !in Transcribe(f, s)
  {
    if s != "" {
      TranscribeFree(f, s[1..], c);
    }
  }

  /** The loop that every escaping function is: append, character by character. */
  method AppendEach(f: char -> string, s: string) returns (out: string)
    ensures out == Transcribe(f, s)
  {
    hide Transcribe;
    out := "";
    var i := 0;
    assert s[0..] == s;
    TranscribeNone(f);
    while i < |s|
      invariant 0 <= i <= |s|
      invariant out + Transcribe(f, s[i..]) == Transcribe(f, s)
    {
      assert s[i..] == [s[i]] + s[i + 1..];
      TranscribeFirst(f, s[i], s[i + 1..]);
      assert out + (f(s[i]) + Transcribe(f, s[i + 1..])) == (out + f(s[i])) + Transcribe(f, s[i + 1..]);
      out := out + f(s[i]);
      i := i + 1;
    }
    assert s[i..] == "";
  }

  lemma TranscribeNone(f: char -> string)
    ensures Transcribe(f, "") == ""
  {
  }
}
