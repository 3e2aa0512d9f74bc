/** Desktop entries (section 4 of the Desktop Entry Specification): escaped values and
    lists, how they are read, and the entry of an installed application. */
module DesktopEntry {
  import opened Prelude
  import opened IniText
  import Identity
  import SessionUnit

  const BACKSLASH: char := '\\'

  function EscapeChar(c: char): string {
    if c == BACKSLASH then [BACKSLASH, BACKSLASH]
    else if c == '\n' then [BACKSLASH, 'n'] else if c == '\t' then [BACKSLASH, 't']
    else if c == '\r' then [BACKSLASH, 'r'] else [c]
  }

  function SemicolonChar(c: char): string {
    if c == ';' then [BACKSLASH, ';'] else [c]
  }

  /** `desktop_escape`. */
  function Escape(s: string): string {
    Transcribe(EscapeChar, s)
  }

  /** `desktop_escape_list_element`. */
  function ListElement(s: string): string {
    Transcribe(SemicolonChar, Escape(s))
  }

  function ListValue(xs: seq<string>): string {
    if xs == [] then "" else ListElement(xs[0]) + ";" + ListValue(xs[1..])
  }

  // -------------------------------------------------------------- the reader

  /** Space after the equals sign does not belong to the value. */
  function SkipSpaces(s: string): string {
    if s != "" && s[0] == ' ' then SkipSpaces(s[1..]) else s
  }

  function Meaning(c: char): Option<char> {
    if c == BACKSLASH then Some(BACKSLASH) else if c == 'n' then Some('\n') else if c == 't' then Some('\t')
    else if c == 'r' then Some('\r') else if c == 's' then Some(' ') else None
  }

  function Unescape(s: string): Option<string>
    decreases |s|
  {
    if s == "" then Some("")
    else if s[0] != BACKSLASH then
      var r := Unescape(s[1..]);
      if r.None? then None else Some([s[0]] + r.value)
    else if |s| < 2 || Meaning(s[1]).None? then None
    else
      var r := Unescape(s[2..]);
      if r.None? then None else Some([Meaning(s[1]).value] + r.value)
  }

  function ReadValue(text: string): Option<string> {
    Unescape(SkipSpaces(text))
  }

  /** One list element up to its semicolon, and the rest. */
  function ReadElement(s: string, acc: string): (r: Option<(string, string)>)
    ensures r.Some? && s != "" ==> |r.value.1| < |s|
    decreases |s|
  {
    if s == "" then Some((acc, ""))
    else if s[0] == ';' then Some((acc, s[1..]))
    else if s[0] != BACKSLASH then ReadElement(s[1..], acc + [s[0]])
    else if |s| < 2 then None
    else if s[1] == ';' then ReadElement(s[2..], acc + ";")
    else if Meaning(s[1]).None? then None
    else ReadElement(s[2..], acc + [Meaning(s[1]).value])
  }

  function ReadElements(s: string): Option<seq<string>>
    decreases |s|
  {
    if s == "" then Some([])
    else
      match ReadElement(s, "")
      case None => None
      case Some((x, rest)) =>
        var more := ReadElements(rest);
        if more.None? then None else Some([x] + more.value)
  }

  function ReadList(text: string): Option<seq<string>> {
    ReadElements(SkipSpaces(text))
  }

  // ---------------------------------------------------- reading undoes writing

  lemma {:induction false} UnescapeUndoes(s: string)
    ensures Unescape(Escape(s)) == Some(s)
  {
    if s != "" {
      UnescapeUndoes(s[1..]);
      var t := Escape(s[1..]);
      assert s == [s[0]] + s[1..];
      assert Escape(s) == EscapeChar(s[0]) + t;
      UnescapeFirst(s[0], t);
    }
  }

  lemma UnescapeFirst(c: char, t: string)
    ensures Unescape(EscapeChar(c) + t) == if Unescape(t).None? then None else Some([c] + Unescape(t).value)
  {
    var s := EscapeChar(c) + t;
    if |EscapeChar(c)| == 2 {
      assert s[2..] == t;
    } else {
      assert s[1..] == t;
    }
  }

  lemma {:induction false} SpacesSkipBoth(s: string)
    ensures SkipSpaces(Escape(s)) == Escape(SkipSpaces(s))
  {
    if s != "" {
      var t := Escape(s[1..]);
      assert Escape(s) == EscapeChar(s[0]) + t;
      if s[0] == ' ' {
        SpacesSkipBoth(s[1..]);
        assert Escape(s)[1..] == t;
      } else {
        assert EscapeChar(s[0])[0] != ' ' && Escape(s)[0] == EscapeChar(s[0])[0];
      }
    }
  }

  lemma {:induction false} SkipExact(s: string)
    ensures |SkipSpaces(s)| <= |s| && (SkipSpaces(s) == s <==> s == "" || s[0] != ' ')
  {
    if s != "" && s[0] == ' ' {
      SkipExact(s[1..]);
    }
  }

  /** A value is read back exactly when it does not begin with a space: those are lost,
      and nothing else is. */
  lemma ValueReadsBack(s: string)
    ensures ReadValue(Escape(s)) == Some(SkipSpaces(s))
    ensures ReadValue(Escape(s)) == Some(s) <==> s == "" || s[0] != ' '
  {
    hide Escape, Unescape, SkipSpaces;
    SpacesSkipBoth(s);
    UnescapeUndoes(SkipSpaces(s));
    SkipExact(s);
  }

  lemma ElementFirst(c: char, t: string)
    ensures Transcribe(SemicolonChar, EscapeChar(c) + t) == ElementChar(c) + Transcribe(SemicolonChar, t)
  {
    hide Transcribe;
    TranscribeAppends(SemicolonChar, EscapeChar(c), t);
    ElementOne(c);
  }

  /** Both escapes of one character. */
  function ElementChar(c: char): string {
    if c == ';' then [BACKSLASH, ';'] else EscapeChar(c)
  }

  lemma ElementOne(c: char)
    ensures Transcribe(SemicolonChar, EscapeChar(c)) == ElementChar(c)
  {
    hide Transcribe;
    TranscribeNone(SemicolonChar);
    var e := EscapeChar(c);
    if |e| == 1 {
      assert e == [c] + "";
      TranscribeFirst(SemicolonChar, c, "");
    } else {
      assert e == [e[0]] + ([e[1]] + "");
      TranscribeFirst(SemicolonChar, e[0], [e[1]] + "");
      TranscribeFirst(SemicolonChar, e[1], "");
    }
  }

  lemma ReadFirst(c: char, rest: string, acc: string)
    ensures ReadElement(ElementChar(c) + rest, acc) == ReadElement(rest, acc + [c])
  {
    var s := ElementChar(c) + rest;
    if |ElementChar(c)| == 2 {
      assert s[2..] == rest;
    } else {
      assert s[1..] == rest;
    }
  }

  lemma {:induction false} ReadWritten(x: string, rest: string, acc: string)
    ensures ReadElement(ListElement(x) + ";" + rest, acc) == Some((acc + x, rest))
    decreases |x|
  {
    hide ReadElement, EscapeChar, SemicolonChar, ElementChar;
    if x == "" {
      assert ListElement(x) + ";" + rest == ";" + rest && acc + x == acc;
      ReadEnd(rest, acc);
    } else {
      ElementFirst(x[0], Escape(x[1..]));
      assert Escape(x) == EscapeChar(x[0]) + Escape(x[1..]);
      var more := ListElement(x[1..]) + ";" + rest;
      assert ListElement(x) + ";" + rest == ElementChar(x[0]) + more;
      ReadFirst(x[0], more, acc);
      ReadWritten(x[1..], rest, acc + [x[0]]);
      assert acc + [x[0]] + x[1..] == acc + x;
    }
  }

  lemma ReadEnd(rest: string, acc: string)
    ensures ReadElement(";" + rest, acc) == Some((acc, rest))
  {
    assert (";" + rest)[1..] == rest;
  }

  lemma {:induction false} ElementsRead(xs: seq<string>)
    ensures ReadElements(ListValue(xs)) == Some(xs)
  {
    hide ReadElement, ListElement;
    if xs != [] {
      ElementsRead(xs[1..]);
      ReadWritten(xs[0], ListValue(xs[1..]), "");
      assert "" + xs[0] == xs[0];
      assert xs == [xs[0]] + xs[1..];
    }
  }

  /** A list whose first element has lost its leading spaces. */
  function SkipInFirst(xs: seq<string>): seq<string> {
    if xs == [] then [] else [SkipSpaces(xs[0])] + xs[1..]
  }

  lemma {:induction false} SpacesSkipElement(x: string, rest: string)
    ensures SkipSpaces(ListElement(x) + ";" + rest) == ListElement(SkipSpaces(x)) + ";" + rest
    decreases |x|
  {
    hide EscapeChar, SemicolonChar;
    if x == "" {
      assert ListElement(x) + ";" + rest == ";" + rest;
    } else {
      ElementFirst(x[0], Escape(x[1..]));
      assert Escape(x) == EscapeChar(x[0]) + Escape(x[1..]);
      var more := ListElement(x[1..]) + ";" + rest;
      var s := ListElement(x) + ";" + rest;
      assert s == ElementChar(x[0]) + more;
      SpaceStarts(x[0]);
      assert s[0] == ElementChar(x[0])[0];
      if x[0] == ' ' {
        assert s[1..] == more;
        SpacesSkipElement(x[1..], rest);
      }
    }
  }

  lemma SpaceStarts(c: char)
    ensures ElementChar(c) != "" && (ElementChar(c)[0] == ' ' <==> c == ' ') && (c == ' ' ==> ElementChar(c) == " ")
  {
  }

  /** A list is read back exactly when its first element does not begin with a space. */
  lemma ListReadsBack(xs: seq<string>)
    ensures ReadList(ListValue(xs)) == Some(SkipInFirst(xs))
    ensures ReadList(ListValue(xs)) == Some(xs) <==> xs == [] || xs[0] == "" || xs[0][0] != ' '
  {
    hide ReadElements, ListElement, SkipSpaces;
    ElementsRead(SkipInFirst(xs));
    if xs == [] {
      NoSpaces();
    } else {
      SpacesSkipElement(xs[0], ListValue(xs[1..]));
      SkipExact(xs[0]);
      assert SkipInFirst(xs)[1..] == xs[1..] && SkipInFirst(xs)[0] == SkipSpaces(xs[0]);
      assert xs == [xs[0]] + xs[1..];
    }
  }

  lemma NoSpaces()
    ensures SkipSpaces("") == ""
  {
  }

  // ------------------------------------------------------------- the entry

  datatype Association = Association(mimeType: string, extension: string)

  datatype Manifest = Manifest(id: string, name: string, categories: seq<string>, associations: seq<Association>)

  /** The elements in order of first appearance. */
  function Distinct(xs: seq<string>, seen: seq<string>): seq<string> {
    if xs == [] then seen else Distinct(xs[1..], if xs[0] in seen then seen else seen + [xs[0]])
  }

  lemma {:induction false} DistinctExact(xs: seq<string>, seen: seq<string>)
    requires NoRepeats(seen)
    ensures NoRepeats(Distinct(xs, seen)) && seen <= Distinct(xs, seen)
    ensures forall x :: x in Distinct(xs, seen) <==> x in xs || x in seen
    decreases |xs|
  {
    if xs != [] {
      DistinctExact(xs[1..], if xs[0] in seen then seen else seen + [xs[0]]);
      assert forall x :: x in xs <==> x == xs[0] || x in xs[1..];
    }
  }

  function MimeTypes(m: Manifest): seq<string> {
    Distinct(seq(|m.associations|, i requires 0 <= i < |m.associations| => m.associations[i].mimeType), [])
  }

  function ListLine(key: string, xs: seq<string>): seq<Line> {
    if xs == [] then [] else [Directive(key, ListValue(xs))]
  }

  function EntryDoc(m: Manifest): seq<Line> {
    [Section("Desktop Entry"), Directive("Type", "Application"), Directive("Name", Escape(m.name))]
    + [Directive("Exec", "lexe run " + m.id), Directive("Icon", "lexe-" + m.id), Directive("Terminal", "false")]
    + ListLine("Categories", m.categories) + ListLine("MimeType", MimeTypes(m)) + [Directive("X-Lexe-Id", m.id)]
  }

  /** `desktop_entry_text`. */
  function EntryText(m: Manifest): string {
    Text(EntryDoc(m))
  }

  lemma EscapeHasNoNewline(s: string)
    ensures '\n' !in Escape(s)
  {
    TranscribeFree(EscapeChar, s, '\n');
  }

  lemma {:induction false} ListHasNoNewline(xs: seq<string>)
    ensures '\n' !in ListValue(xs)
  {
    hide Transcribe, EscapeChar;
    if xs != [] {
      EscapeHasNoNewline(xs[0]);
      TranscribeFree(SemicolonChar, Escape(xs[0]), '\n');
      ListHasNoNewline(xs[1..]);
    }
  }

  lemma FirstLinesWellFormed(m: Manifest)
    ensures WellFormed(Section("Desktop Entry")) && WellFormed(Directive("Type", "Application"))
    ensures WellFormed(Directive("Name", Escape(m.name))) && WellFormed(Directive("Terminal", "false"))
  {
    hide Escape;
    EscapeHasNoNewline(m.name);
  }

  lemma IdLinesWellFormed(m: Manifest)
    requires Identity.ValidId(m.id)
    ensures WellFormed(Directive("Exec", "lexe run " + m.id)) && WellFormed(Directive("Icon", "lexe-" + m.id))
    ensures WellFormed(Directive("X-Lexe-Id", m.id))
  {
    hide Identity.ValidId;
    SessionUnit.IdStays(m.id);
  }

  lemma ListLinesWellFormed(m: Manifest)
    ensures WellFormed(Directive("Categories", ListValue(m.categories)))
    ensures WellFormed(Directive("MimeType", ListValue(MimeTypes(m))))
  {
    hide ListValue, MimeTypes;
    ListHasNoNewline(m.categories);
    ListHasNoNewline(MimeTypes(m));
  }

  /** Whatever the name, the categories and the types hold, the entry is read as exactly
      the keys it was meant to have. */
  lemma EntryReads(m: Manifest)
    requires Identity.ValidId(m.id)
    ensures ParseLines(Lines(EntryText(m))) == EntryDoc(m)
  {
    hide Identity.ValidId, WellFormed, Lines, ParseLines, Text, MimeTypes, ListValue, Escape;
    FirstLinesWellFormed(m);
    IdLinesWellFormed(m);
    ListLinesWellFormed(m);
    var doc := EntryDoc(m);
    assert forall l | l in doc :: WellFormed(l);
    assert forall i :: 0 <= i < |doc| ==> doc[i] in doc;
    DocumentReads(doc);
  }

  lemma FirstComesFirst(xs: seq<string>, seen: seq<string>, j: nat)
    requires xs != [] && NoRepeats(seen) && |seen| < j < |Distinct(xs, seen)|
    ensures Distinct(xs, seen)[j] != xs[0]
    ensures xs[0] !in seen ==> Distinct(xs, seen)[|seen|] == xs[0]
  {
    var d, x := Distinct(xs, seen), xs[0];
    var seen' := if x in seen then seen else seen + [x];
    DistinctExact(xs, seen);
    DistinctExact(xs[1..], seen');
    var k :| 0 <= k < |seen'| && seen'[k] == x;
    assert d[k] == x && k <= |seen|;
  }

  /** In the order of first appearance: what comes earlier has appeared earlier. */
  lemma {:induction false} DistinctOrder(xs: seq<string>, seen: seq<string>, i: nat, j: nat, q: nat)
    requires NoRepeats(seen) && |seen| <= i < j < |Distinct(xs, seen)|
    requires q < |xs| && xs[q] == Distinct(xs, seen)[j]
    ensures exists p :: 0 <= p < q && xs[p] == Distinct(xs, seen)[i]
    decreases |xs|
  {
    var d, x := Distinct(xs, seen), xs[0];
    var seen' := if x in seen then seen else seen + [x];
    FirstComesFirst(xs, seen, j);
    if i == |seen| && x !in seen {
      assert xs[0] == d[i];
    } else {
      assert xs[q] == xs[1..][q - 1];
      DistinctOrder(xs[1..], seen', i, j, q - 1);
      var p :| 0 <= p < q - 1 && xs[1..][p] == d[i];
      assert xs[p + 1] == d[i];
    }
  }

  // ------------------------------------------------------------ what the entry sets

  function Set(key: string, value: string): Setting {
    Setting("Desktop Entry", key, value)
  }

  /** An application that is shown by its name and started by its id, with its categories
      and types where it has any. */
  ghost predicate IsEntry(settings: seq<Setting>, m: Manifest) {
    exists name, categories, types :: IsEntryWith(settings, m, name, categories, types)
  }

  predicate IsEntryWith(settings: seq<Setting>, m: Manifest, name: string, categories: string, types: string) {
    && settings ==
         [Set("Type", "Application"), Set("Name", name), Set("Exec", "lexe run " + m.id), Set("Icon", "lexe-" + m.id),
          Set("Terminal", "false")]
         + (if m.categories == [] then [] else [Set("Categories", categories)])
         + (if m.associations == [] then [] else [Set("MimeType", types)]) + [Set("X-Lexe-Id", m.id)]
    && ReadValue(name) == Some(SkipSpaces(m.name))
    && ReadList(categories) == Some(SkipInFirst(m.categories))
    && ReadList(types) == Some(SkipInFirst(MimeTypes(m)))
  }

  lemma NoTypes(m: Manifest)
    ensures MimeTypes(m) == [] <==> m.associations == []
  {
    hide Distinct;
    var all := seq(|m.associations|, i requires 0 <= i < |m.associations| => m.associations[i].mimeType);
    DistinctExact(all, []);
    if m.associations != [] {
      assert all[0] in all;
    } else {
      DistinctStep(all, []);
    }
  }

  lemma OneSet(key: string, value: string, rest: seq<Line>, section: string)
    ensures Settings([Directive(key, value)] + rest, section) == [Setting(section, key, value)] + Settings(rest, section)
    ensures Settings([], section) == []
  {
    assert ([Directive(key, value)] + rest)[1..] == rest;
  }

  lemma ListSet(key: string, xs: seq<string>, rest: seq<Line>, section: string)
    ensures Settings(ListLine(key, xs) + rest, section) ==
      (if xs == [] then [] else [Setting(section, key, ListValue(xs))]) + Settings(rest, section)
  {
    hide Settings, ListValue;
    if xs == [] {
      assert [] + rest == rest;
    } else {
      OneSet(key, ListValue(xs), rest, section);
    }
  }

  lemma EntrySet(m: Manifest)
    ensures Settings(EntryDoc(m), "") ==
      [Set("Type", "Application"), Set("Name", Escape(m.name)), Set("Exec", "lexe run " + m.id), Set("Icon", "lexe-" + m.id),
       Set("Terminal", "false")]
      + (if m.categories == [] then [] else [Set("Categories", ListValue(m.categories))])
      + (if MimeTypes(m) == [] then [] else [Set("MimeType", ListValue(MimeTypes(m)))]) + [Set("X-Lexe-Id", m.id)]
  {
    hide Settings, ListLine, ListValue, Escape, MimeTypes;
    var e := "Desktop Entry";
    var last := [Directive("X-Lexe-Id", m.id)] + [];
    var types := ListLine("MimeType", MimeTypes(m)) + last;
    var lists := ListLine("Categories", m.categories) + types;
    var d5 := [Directive("Terminal", "false")] + lists;
    var d4 := [Directive("Icon", "lexe-" + m.id)] + d5;
    var d3 := [Directive("Exec", "lexe run " + m.id)] + d4;
    var d2 := [Directive("Name", Escape(m.name))] + d3;
    var d1 := [Directive("Type", "Application")] + d2;
    assert EntryDoc(m) == [Section(e)] + d1;
    EntryBegins(d1);
    OneSet("Type", "Application", d2, e);
    OneSet("Name", Escape(m.name), d3, e);
    OneSet("Exec", "lexe run " + m.id, d4, e);
    OneSet("Icon", "lexe-" + m.id, d5, e);
    OneSet("Terminal", "false", lists, e);
    ListSet("Categories", m.categories, types, e);
    ListSet("MimeType", MimeTypes(m), last, e);
    OneSet("X-Lexe-Id", m.id, [], e);
  }

  lemma EntryBegins(rest: seq<Line>)
    ensures Settings([Section("Desktop Entry")] + rest, "") == Settings(rest, "Desktop Entry")
  {
    assert ([Section("Desktop Entry")] + rest)[1..] == rest;
  }

  /** What a desktop reads of the entry are always these settings, whatever the name, the
      categories and the types hold. */
  lemma EntrySettings(m: Manifest)
    requires Identity.ValidId(m.id)
    ensures IsEntry(Settings(ParseLines(Lines(EntryText(m))), ""), m)
  {
    hide Settings, ParseLines, Lines, EntryText, Identity.ValidId, ReadValue, ReadList, Escape, ListValue, MimeTypes,
         SkipInFirst, SkipSpaces, EntryDoc;
    EntryReads(m);
    EntrySet(m);
    NoTypes(m);
    ValueReadsBack(m.name);
    ListReadsBack(m.categories);
    ListReadsBack(MimeTypes(m));
    assert IsEntryWith(Settings(EntryDoc(m), ""), m, Escape(m.name), ListValue(m.categories), ListValue(MimeTypes(m)));
  }

  // ------------------------------------------------------------------ the loops

  /** The loop that collects the types. */
  method CollectTypes(associations: seq<Association>) returns (types: seq<string>)
    ensures types == Distinct(seq(|associations|, i requires 0 <= i < |associations| => associations[i].mimeType), [])
    ensures NoRepeats(types)
  {
    hide Distinct;
    var all := seq(|associations|, i requires 0 <= i < |associations| => associations[i].mimeType);
    types := [];
    DistinctExact(all, []);
    assert all[0..] == all;
    for i := 0 to |associations|
      invariant Distinct(all[i..], types) == Distinct(all, [])
    {
      DistinctStep(all[i..], types);
      assert all[i..][1..] == all[i + 1..];
      if associations[i].mimeType !in types {
        types := types + [associations[i].mimeType];
      }
    }
    DistinctStep(all[|all|..], types);
  }

  lemma DistinctStep(xs: seq<string>, seen: seq<string>)
    ensures Distinct(xs, seen) == if xs == [] then seen else Distinct(xs[1..], if xs[0] in seen then seen else seen + [xs[0]])
  {
  }

  /** The loop that writes a list. */
  method WriteList(xs: seq<string>) returns (text: string)
    ensures text == ListValue(xs)
  {
    hide ListValue, Transcribe;
    text := "";
    assert xs[0..] == xs;
    for i := 0 to |xs|
      invariant text + ListValue(xs[i..]) == ListValue(xs)
    {
      var escaped := AppendEach(EscapeChar, xs[i]);
      var element := AppendEach(SemicolonChar, escaped);
      ListStep(xs, i);
      assert text + (element + ";" + ListValue(xs[i + 1..])) == (text + element + ";") + ListValue(xs[i + 1..]);
      text := text + element + ";";
    }
    ListStep(xs, |xs|);
  }

  lemma ListStep(xs: seq<string>, i: nat)
    requires i <= |xs|
    ensures ListValue(xs[i..]) == if i == |xs| then "" else ListElement(xs[i]) + ";" + ListValue(xs[i + 1..])
  {
    if i < |xs| {
      assert xs[i..][1..] == xs[i + 1..];
    }
  }
}
