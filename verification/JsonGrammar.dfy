/** Concrete syntax: a value as it is written, white space included. The recursive
    reading accepts exactly this grammar and undoes its printer. */
module JsonGrammar {
  import opened Json

  datatype Cst =
    | CScalar(t: Token)
    | CArr0(inner: seq<char>)
    | CArr(items: Items)
    | CObj0(inner: seq<char>)
    | CObj(members: Members)

  datatype Items =
    | LastItem(before: seq<char>, value: Cst, after: seq<char>)
    | MoreItems(before: seq<char>, value: Cst, after: seq<char>, rest: Items)

  datatype Members =
    | LastMember(before: seq<char>, key: string, afterKey: seq<char>, beforeValue: seq<char>,
                 value: Cst, after: seq<char>)
    | MoreMembers(before: seq<char>, key: string, afterKey: seq<char>, beforeValue: seq<char>,
                  value: Cst, after: seq<char>, rest: Members)

  /** The tokens that are values by themselves, and which. */
  predicate IsScalar(t: Token) {
    t.Str? || t.Num? || t.TrueT? || t.FalseT? || t.NullT?
  }

  function ScalarValue(t: Token): Value {
    if t.Str? then JStr(t.s) else if t.Num? then JNum(t.n) else if t == NullT then JNull else JBool(t == TrueT)
  }

  /** The value that is written; the last of several equal keys wins. */
  function Tree(c: Cst): Value {
    match c
    case CScalar(t) => ScalarValue(t)
    case CArr0(_) => JArr([])
    case CArr(items) => JArr(Trees(items))
    case CObj0(_) => JObj(map[])
    case CObj(members) => JObj(Fold(members, map[]))
  }

  function Trees(items: Items): seq<Value> {
    [Tree(items.value)] + if items.LastItem? then [] else Trees(items.rest)
  }

  function Fold(m: Members, acc: map<string, Value>): map<string, Value> {
    var acc' := acc[m.key := Tree(m.value)];
    if m.LastMember? then acc' else Fold(m.rest, acc')
  }

  /** The keys that repeat, in the order in which they are met. */
  function Dups(c: Cst): seq<string> {
    match c
    case CArr(items) => DupsOfItems(items)
    case CObj(members) => DupsOfMembers(members, {})
    case _ => []
  }

  function DupsOfItems(items: Items): seq<string> {
    Dups(items.value) + if items.LastItem? then [] else DupsOfItems(items.rest)
  }

  function DupsOfMembers(m: Members, seen: set<string>): seq<string> {
    Dups(m.value) + (if m.key in seen then [m.key] else [])
    + if m.LastMember? then [] else DupsOfMembers(m.rest, seen + {m.key})
  }

  // ------------------------------------------------------------- the grammar

  function Len(c: Cst): nat {
    match c
    case CScalar(_) => 1
    case CArr0(inner) => |inner| + 2
    case CArr(items) => 1 + ItemsLen(items)
    case CObj0(inner) => |inner| + 2
    case CObj(members) => 1 + MembersLen(members)
  }

  /** The items and the closing bracket. */
  function ItemsLen(x: Items): nat {
    |x.before| + Len(x.value) + |x.after| + 1 + if x.LastItem? then 0 else ItemsLen(x.rest)
  }

  function MembersLen(m: Members): nat {
    |m.before| + 1 + |m.afterKey| + 1 + |m.beforeValue| + Len(m.value) + |m.after| + 1
    + if m.LastMember? then 0 else MembersLen(m.rest)
  }

  predicate SpaceAt(t: seq<Token>, i: nat, w: seq<char>)
    decreases |w|
  {
    w == [] || (TokenAt(t, i, Ws(w[0])) && SpaceAt(t, i + 1, w[1..]))
  }

  /** The tokens from `i` on spell `c` by the grammar. */
  predicate Spells(c: Cst, t: seq<Token>, i: nat) {
    match c
    case CScalar(x) => IsScalar(x) && TokenAt(t, i, x)
    case CArr0(inner) => TokenAt(t, i, LBracket) && SpaceAt(t, i + 1, inner) && TokenAt(t, i + 1 + |inner|, RBracket)
    case CArr(items) => TokenAt(t, i, LBracket) && SpellsItems(items, t, i + 1)
    case CObj0(inner) => TokenAt(t, i, LBrace) && SpaceAt(t, i + 1, inner) && TokenAt(t, i + 1 + |inner|, RBrace)
    case CObj(members) => TokenAt(t, i, LBrace) && SpellsMembers(members, t, i + 1)
  }

  predicate SpellsItems(x: Items, t: seq<Token>, i: nat) {
    var v := i + |x.before|;
    var a := v + Len(x.value);
    var k := a + |x.after|;
    && SpaceAt(t, i, x.before) && Spells(x.value, t, v) && SpaceAt(t, a, x.after)
    && if x.LastItem? then TokenAt(t, k, RBracket) else TokenAt(t, k, Comma) && SpellsItems(x.rest, t, k + 1)
  }

  predicate SpellsMembers(m: Members, t: seq<Token>, i: nat) {
    var p := i + |m.before|;
    var c := p + 1 + |m.afterKey|;
    var v := c + 1 + |m.beforeValue|;
    var a := v + Len(m.value);
    var k := a + |m.after|;
    && SpaceAt(t, i, m.before) && TokenAt(t, p, Str(m.key)) && SpaceAt(t, p + 1, m.afterKey)
    && TokenAt(t, c, Colon) && SpaceAt(t, c + 1, m.beforeValue) && Spells(m.value, t, v) && SpaceAt(t, a, m.after)
    && if m.LastMember? then TokenAt(t, k, RBrace) else TokenAt(t, k, Comma) && SpellsMembers(m.rest, t, k + 1)
  }

  // ------------------------------------------------- everything spelled is read

  lemma {:induction false} SkipSpace(t: seq<Token>, i: nat, w: seq<char>)
    requires SpaceAt(t, i, w) && i + |w| < |t| && !t[i + |w|].Ws?
    ensures SkipWs(t, i) == i + |w|
    decreases |w|
  {
    if w != [] {
      SkipSpace(t, i + 1, w[1..]);
    }
  }

  lemma SpellsHead(c: Cst, t: seq<Token>, i: nat)
    requires Spells(c, t, i)
    ensures i < |t| && !t[i].Ws? && !t[i].RBracket? && !t[i].RBrace?
  {
  }

  /** Where the space around the first item leads, and what follows it. */
  lemma ItemSpace(x: Items, t: seq<Token>, i: nat) returns (v: nat, a: nat, k: nat)
    requires SpellsItems(x, t, i)
    ensures v == i + |x.before| && a == v + Len(x.value) && k == a + |x.after|
    ensures i <= |t| && a <= |t| && SkipWs(t, i) == v && SkipWs(t, a) == k
    ensures v < |t| && !t[v].RBracket? && Spells(x.value, t, v)
    ensures if x.LastItem? then TokenAt(t, k, RBracket) else TokenAt(t, k, Comma) && SpellsItems(x.rest, t, k + 1)
  {
    hide Spells, SkipWs, SpellsMembers, Len, SpaceAt;
    v := i + |x.before|;
    a := v + Len(x.value);
    k := a + |x.after|;
    SpellsHead(x.value, t, v);
    SkipSpace(t, i, x.before);
    SkipSpace(t, a, x.after);
  }

  lemma MemberSpace(m: Members, t: seq<Token>, i: nat) returns (p: nat, c: nat, v: nat, a: nat, k: nat)
    requires SpellsMembers(m, t, i)
    ensures p == i + |m.before| && c == p + 1 + |m.afterKey| && v == c + 1 + |m.beforeValue|
    ensures a == v + Len(m.value) && k == a + |m.after|
    ensures i <= |t| && a <= |t| && SkipWs(t, i) == p && SkipWs(t, a) == k
    ensures TokenAt(t, p, Str(m.key)) && ReadKey(t, p) == c + 1 && SkipWs(t, c + 1) == v
    ensures Spells(m.value, t, v)
    ensures if m.LastMember? then TokenAt(t, k, RBrace) else TokenAt(t, k, Comma) && SpellsMembers(m.rest, t, k + 1)
  {
    p := i + |m.before|;
    c := p + 1 + |m.afterKey|;
    v := c + 1 + |m.beforeValue|;
    a := v + Len(m.value);
    k := a + |m.after|;
    MemberTokens(m, t, i, p, c, v, a, k);
    SpellsHead(m.value, t, v);
    MemberSkips(m, t, i, p, c, v, a, k);
    hide SpellsMembers, Spells, SkipWs;
    KeyThenColon(t, p, c);
  }

  lemma MemberSkips(m: Members, t: seq<Token>, i: nat, p: nat, c: nat, v: nat, a: nat, k: nat)
    requires p == i + |m.before| && c == p + 1 + |m.afterKey| && v == c + 1 + |m.beforeValue| && k == a + |m.after|
    requires SpaceAt(t, i, m.before) && TokenAt(t, p, Str(m.key)) && SpaceAt(t, p + 1, m.afterKey)
    requires TokenAt(t, c, Colon) && SpaceAt(t, c + 1, m.beforeValue) && v < |t| && !t[v].Ws?
    requires SpaceAt(t, a, m.after) && k < |t| && !t[k].Ws?
    ensures SkipWs(t, i) == p && SkipWs(t, p + 1) == c && SkipWs(t, c + 1) == v && SkipWs(t, a) == k
  {
    hide SkipWs, SpaceAt;
    SkipSpace(t, i, m.before);
    SkipSpace(t, p + 1, m.afterKey);
    SkipSpace(t, c + 1, m.beforeValue);
    SkipSpace(t, a, m.after);
  }

  lemma KeyThenColon(t: seq<Token>, p: nat, c: nat)
    requires p < |t| && t[p].Str? && c == SkipWs(t, p + 1) && TokenAt(t, c, Colon)
    ensures ReadKey(t, p) == c + 1
  {
    hide SkipWs;
  }

  lemma MemberTokens(m: Members, t: seq<Token>, i: nat, p: nat, c: nat, v: nat, a: nat, k: nat)
    requires SpellsMembers(m, t, i)
    requires p == i + |m.before| && c == p + 1 + |m.afterKey| && v == c + 1 + |m.beforeValue|
    requires a == v + Len(m.value) && k == a + |m.after|
    ensures SpaceAt(t, i, m.before) && TokenAt(t, p, Str(m.key)) && SpaceAt(t, p + 1, m.afterKey)
    ensures TokenAt(t, c, Colon) && SpaceAt(t, c + 1, m.beforeValue) && Spells(m.value, t, v)
    ensures SpaceAt(t, a, m.after)
    ensures if m.LastMember? then TokenAt(t, k, RBrace) else TokenAt(t, k, Comma) && SpellsMembers(m.rest, t, k + 1)
  {
    hide Spells, SpaceAt;
  }

  lemma SkipTwice(t: seq<Token>, i: nat)
    requires i <= |t|
    ensures ReadValue(t, i) == ReadValue(t, SkipWs(t, i))
  {
  }

  /** One element of an array, as the reader sees it. */
  lemma ItemStep(t: seq<Token>, i: nat, acc: seq<Value>, dups: seq<string>, v: Result, k: nat)
    requires i <= |t| && v == ReadValue(t, SkipWs(t, i)) && v.Ok? && k == SkipWs(t, v.next)
    ensures TokenAt(t, k, Comma) ==>
      ReadItems(t, i, acc, dups) == ReadItems(t, k + 1, acc + [v.value], dups + v.dups)
    ensures TokenAt(t, k, RBracket) ==> ReadItems(t, i, acc, dups) == Ok(JArr(acc + [v.value]), dups + v.dups, k + 1)
  {
    SkipTwice(t, i);
  }

  lemma MemberStep(t: seq<Token>, p: nat, acc: map<string, Value>, dups: seq<string>, v: Result, k: nat)
    requires p <= |t| && ReadKey(t, p) != 0
    requires v == ReadValue(t, SkipWs(t, ReadKey(t, p))) && v.Ok? && k == SkipWs(t, v.next)
    ensures var dups' := dups + v.dups + Repeat(t[p].s, acc);
      && (TokenAt(t, k, Comma) ==>
            ReadMembers(t, p, acc, dups) == ReadMembers(t, SkipWs(t, k + 1), acc[t[p].s := v.value], dups'))
      && (TokenAt(t, k, RBrace) ==>
            ReadMembers(t, p, acc, dups) == Ok(JObj(acc[t[p].s := v.value]), dups', k + 1))
  {
    hide ReadValue, ReadKey, SkipWs;
    SkipTwice(t, ReadKey(t, p));
  }

  lemma EmptyContainer(t: seq<Token>, i: nat, inner: seq<char>)
    requires i + 1 + |inner| < |t| && SpaceAt(t, i + 1, inner)
    ensures t[i].LBracket? && t[i + 1 + |inner|].RBracket? ==> ReadValue(t, i) == Ok(JArr([]), [], i + |inner| + 2)
    ensures t[i].LBrace? && t[i + 1 + |inner|].RBrace? ==> ReadValue(t, i) == Ok(JObj(map[]), [], i + |inner| + 2)
  {
    if !t[i + 1 + |inner|].Ws? {
      SkipSpace(t, i + 1, inner);
    }
  }

  lemma OpenContainer(t: seq<Token>, i: nat)
    requires i + 1 <= |t|
    ensures t[i].LBracket? && !TokenAt(t, SkipWs(t, i + 1), RBracket) ==> ReadValue(t, i) == ReadItems(t, i + 1, [], [])
    ensures t[i].LBrace? && !TokenAt(t, SkipWs(t, i + 1), RBrace) ==>
      ReadValue(t, i) == ReadMembers(t, SkipWs(t, i + 1), map[], [])
  {
    if t[i].LBracket? {
      SkipTwice(t, i + 1);
    }
  }

  lemma ScalarIsRead(x: Token, t: seq<Token>, i: nat)
    requires IsScalar(x) && TokenAt(t, i, x)
    ensures ReadValue(t, i) == Ok(ScalarValue(x), [], i + 1)
  {
  }

  lemma {:induction false} SpelledIsRead(c: Cst, t: seq<Token>, i: nat)
    requires Spells(c, t, i)
    ensures i <= |t| && ReadValue(t, i) == Ok(Tree(c), Dups(c), i + Len(c))
    decreases c
  {
    hide ReadValue, ReadItems, ReadMembers, SpellsItems, SpellsMembers, SkipWs, SpaceAt;
    match c
    case CScalar(x) => ScalarIsRead(x, t, i);
    case CArr0(inner) => EmptyContainer(t, i, inner);
    case CObj0(inner) => EmptyContainer(t, i, inner);
    case CArr(items) =>
      ItemsRead(items, t, i + 1, [], []);
      var v, a, k := ItemSpace(items, t, i + 1);
      OpenContainer(t, i);
      assert [] + Trees(items) == Trees(items) && [] + DupsOfItems(items) == DupsOfItems(items);
    case CObj(members) =>
      MembersRead(members, t, i + 1, map[], []);
      OpenContainer(t, i);
      var none: map<string, Value> := map[];
      assert none.Keys == {};
      assert [] + DupsOfMembers(members, {}) == DupsOfMembers(members, {});
  }

  lemma {:induction false} ItemsRead(x: Items, t: seq<Token>, i: nat, acc: seq<Value>, dups: seq<string>)
    requires SpellsItems(x, t, i)
    ensures i <= |t| && ReadItems(t, i, acc, dups)
      == Ok(JArr(acc + Trees(x)), dups + DupsOfItems(x), i + ItemsLen(x))
    decreases x
  {
    hide Spells, SpellsItems, ReadValue, ReadItems, SkipWs;
    var v, a, k := ItemSpace(x, t, i);
    SpelledIsRead(x.value, t, v);
    ItemStep(t, i, acc, dups, ReadValue(t, v), k);
    var acc', dups' := acc + [Tree(x.value)], dups + Dups(x.value);
    if x.MoreItems? {
      ItemsRead(x.rest, t, k + 1, acc', dups');
      assert acc' + Trees(x.rest) == acc + Trees(x);
      assert dups' + DupsOfItems(x.rest) == dups + DupsOfItems(x);
    } else {
      assert acc' == acc + Trees(x) && dups' == dups + DupsOfItems(x);
    }
  }

  lemma {:induction false} MembersRead(m: Members, t: seq<Token>, i: nat, acc: map<string, Value>, dups: seq<string>)
    requires SpellsMembers(m, t, i)
    ensures i <= |t| && ReadMembers(t, SkipWs(t, i), acc, dups)
      == Ok(JObj(Fold(m, acc)), dups + DupsOfMembers(m, acc.Keys), i + MembersLen(m))
    ensures SkipWs(t, i) < |t| && t[SkipWs(t, i)].Str?
    decreases m
  {
    hide Spells, SpellsMembers, ReadValue, ReadMembers, ReadKey, SkipWs;
    var p, c, v, a, k := MemberSpace(m, t, i);
    SpelledIsRead(m.value, t, v);
    MemberStep(t, p, acc, dups, ReadValue(t, v), k);
    var acc', dups' := acc[m.key := Tree(m.value)], dups + Dups(m.value) + Repeat(m.key, acc);
    assert acc'.Keys == acc.Keys + {m.key};
    if m.MoreMembers? {
      MembersRead(m.rest, t, k + 1, acc', dups');
      assert dups' + DupsOfMembers(m.rest, acc'.Keys) == dups + DupsOfMembers(m, acc.Keys);
    } else {
      assert dups' == dups + DupsOfMembers(m, acc.Keys);
    }
  }

  // ------------------------------------------------- everything read is spelled

  lemma {:induction false} SkippedSpace(t: seq<Token>, i: nat) returns (w: seq<char>)
    requires i <= |t|
    ensures SpaceAt(t, i, w) && i + |w| == SkipWs(t, i)
    decreases |t| - i
  {
    if i < |t| && t[i].Ws? {
      var rest := SkippedSpace(t, i + 1);
      w := [t[i].c] + rest;
      assert w[1..] == rest;
    } else {
      w := [];
    }
  }

  /** A successful reading: the space before the value, and its concrete syntax. */
  lemma {:induction false} ReadIsSpelled(t: seq<Token>, i: nat) returns (w: seq<char>, c: Cst)
    requires i <= |t| && ReadValue(t, i).Ok?
    ensures SpaceAt(t, i, w) && Spells(c, t, i + |w|)
    ensures ReadValue(t, i) == Ok(Tree(c), Dups(c), i + |w| + Len(c))
    decreases |t| - i, 1
  {
    w := SkippedSpace(t, i);
    var k := i + |w|;
    SkipTwice(t, i);
    if t[k].LBracket? {
      c := ArrayIsSpelled(t, k);
    } else if t[k].LBrace? {
      c := ObjectIsSpelled(t, k);
    } else {
      c := CScalar(t[k]);
    }
    hide ReadValue, SkipWs, Len;
    SpelledIsRead(c, t, k);
  }

  lemma {:induction false} ArrayIsSpelled(t: seq<Token>, k: nat) returns (c: Cst)
    requires k < |t| && t[k].LBracket? && ReadValue(t, k).Ok?
    ensures Spells(c, t, k)
    decreases |t| - k, 0
  {
    var inner := SkippedSpace(t, k + 1);
    if TokenAt(t, SkipWs(t, k + 1), RBracket) {
      c := CArr0(inner);
    } else {
      OpenContainer(t, k);
      var x := ItemsAreSpelled(t, k + 1, [], []);
      c := CArr(x);
    }
  }

  lemma {:induction false} ObjectIsSpelled(t: seq<Token>, k: nat) returns (c: Cst)
    requires k < |t| && t[k].LBrace? && ReadValue(t, k).Ok?
    ensures Spells(c, t, k)
    decreases |t| - k, 0
  {
    var inner := SkippedSpace(t, k + 1);
    if TokenAt(t, SkipWs(t, k + 1), RBrace) {
      c := CObj0(inner);
    } else {
      OpenContainer(t, k);
      var m := MembersAreSpelled(t, k + 1, map[], []);
      c := CObj(m);
    }
  }

  lemma {:induction false} ItemsAreSpelled(t: seq<Token>, i: nat, acc: seq<Value>, dups: seq<string>)
    returns (x: Items)
    requires i <= |t| && ReadItems(t, i, acc, dups).Ok?
    ensures SpellsItems(x, t, i)
    decreases |t| - i, 2
  {
    hide Spells, SpellsItems, ReadValue, ReadItems, SkipWs, SpaceAt, Len, Tree, Dups;
    ItemsGoOn(t, i, acc, dups);
    var v := ReadValue(t, i);
    var before, value := ReadIsSpelled(t, i);
    var after := SkippedSpace(t, v.next);
    var k := SkipWs(t, v.next);
    if TokenAt(t, k, Comma) {
      var rest := ItemsAreSpelled(t, k + 1, acc + [v.value], dups + v.dups);
      x := MoreItems(before, value, after, rest);
    } else {
      x := LastItem(before, value, after);
    }
    MakeItems(x, t, i);
  }

  lemma ItemsGoOn(t: seq<Token>, i: nat, acc: seq<Value>, dups: seq<string>)
    requires i <= |t| && ReadItems(t, i, acc, dups).Ok?
    ensures ReadValue(t, i).Ok?
    ensures var v := ReadValue(t, i); var k := SkipWs(t, v.next);
      && (TokenAt(t, k, Comma) || TokenAt(t, k, RBracket))
      && (TokenAt(t, k, Comma) ==> ReadItems(t, k + 1, acc + [v.value], dups + v.dups).Ok?)
  {
    hide ReadValue, SkipWs;
  }

  lemma MakeItems(x: Items, t: seq<Token>, i: nat)
    requires SpaceAt(t, i, x.before) && Spells(x.value, t, i + |x.before|)
    requires var a := i + |x.before| + Len(x.value); var k := a + |x.after|;
      SpaceAt(t, a, x.after)
      && if x.LastItem? then TokenAt(t, k, RBracket) else TokenAt(t, k, Comma) && SpellsItems(x.rest, t, k + 1)
    ensures SpellsItems(x, t, i)
  {
    hide Spells, SpaceAt, Len;
  }

  lemma MembersGoOn(t: seq<Token>, p: nat, acc: map<string, Value>, dups: seq<string>)
    requires p <= |t| && ReadMembers(t, p, acc, dups).Ok?
    ensures ReadKey(t, p) != 0 && ReadValue(t, ReadKey(t, p)).Ok?
    ensures var v := ReadValue(t, ReadKey(t, p)); var k := SkipWs(t, v.next);
      && (TokenAt(t, k, Comma) || TokenAt(t, k, RBrace))
      && (TokenAt(t, k, Comma) ==>
            ReadMembers(t, SkipWs(t, k + 1), acc[t[p].s := v.value], dups + v.dups + Repeat(t[p].s, acc)).Ok?)
  {
    hide ReadValue, SkipWs, ReadKey;
  }

  lemma KeyIsSpelled(t: seq<Token>, p: nat) returns (afterKey: seq<char>)
    requires p <= |t| && ReadKey(t, p) != 0
    ensures SpaceAt(t, p + 1, afterKey) && TokenAt(t, p + 1 + |afterKey|, Colon) && TokenAt(t, p, Str(t[p].s))
    ensures ReadKey(t, p) == p + 1 + |afterKey| + 1
  {
    hide SkipWs, SpaceAt;
    afterKey := SkippedSpace(t, p + 1);
  }

  lemma {:induction false} MembersAreSpelled(t: seq<Token>, i: nat, acc: map<string, Value>, dups: seq<string>)
    returns (m: Members)
    requires i <= |t| && ReadMembers(t, SkipWs(t, i), acc, dups).Ok?
    ensures SpellsMembers(m, t, i)
    decreases |t| - i, 2
  {
    hide Spells, SpellsMembers, ReadValue, ReadMembers, ReadKey, SkipWs, SpaceAt, Len, Tree, Dups;
    var p := SkipWs(t, i);
    MembersGoOn(t, p, acc, dups);
    var before := SkippedSpace(t, i);
    var afterKey := KeyIsSpelled(t, p);
    var at := ReadKey(t, p);
    var v := ReadValue(t, at);
    var beforeValue, value := ReadIsSpelled(t, at);
    var after := SkippedSpace(t, v.next);
    var k := SkipWs(t, v.next);
    if TokenAt(t, k, Comma) {
      var rest := MembersAreSpelled(t, k + 1, acc[t[p].s := v.value], dups + v.dups + Repeat(t[p].s, acc));
      m := MoreMembers(before, t[p].s, afterKey, beforeValue, value, after, rest);
    } else {
      m := LastMember(before, t[p].s, afterKey, beforeValue, value, after);
    }
    MakeMembers(m, t, i, p, p + 1 + |afterKey|, at + |beforeValue|, v.next, k);
  }

  lemma MakeMembers(m: Members, t: seq<Token>, i: nat, p: nat, c: nat, v: nat, a: nat, k: nat)
    requires p == i + |m.before| && c == p + 1 + |m.afterKey| && v == c + 1 + |m.beforeValue|
    requires a == v + Len(m.value) && k == a + |m.after|
    requires SpaceAt(t, i, m.before) && TokenAt(t, p, Str(m.key)) && SpaceAt(t, p + 1, m.afterKey)
    requires TokenAt(t, c, Colon) && SpaceAt(t, c + 1, m.beforeValue) && Spells(m.value, t, v)
    requires SpaceAt(t, a, m.after)
    requires if m.LastMember? then TokenAt(t, k, RBrace) else TokenAt(t, k, Comma) && SpellsMembers(m.rest, t, k + 1)
    ensures SpellsMembers(m, t, i)
  {
    hide Spells, SpaceAt, Len;
  }

  // ------------------------------------------------------------ the documents

  /** `strict_json`: white space, one value, white space, and nothing else. */
  function ParseDocument(t: seq<Token>): Result {
    var r := ReadValue(t, SkipWs(t, 0));
    if r.Ok? && SkipWs(t, r.next) == |t| then r else Fail
  }

  /** The whole document spells `c`, with space around it. */
  predicate IsText(t: seq<Token>, before: seq<char>, c: Cst, after: seq<char>) {
    SpaceAt(t, 0, before) && Spells(c, t, |before|)
    && SpaceAt(t, |before| + Len(c), after) && |before| + Len(c) + |after| == |t|
  }

  lemma {:induction false} SkipToEnd(t: seq<Token>, i: nat, w: seq<char>)
    requires SpaceAt(t, i, w) && i + |w| == |t|
    ensures SkipWs(t, i) == |t|
    decreases |w|
  {
    if w != [] {
      SkipToEnd(t, i + 1, w[1..]);
    }
  }

  /** A written document is accepted, with the tree and the repeats of its syntax. */
  lemma TextIsAccepted(t: seq<Token>, before: seq<char>, c: Cst, after: seq<char>)
    requires IsText(t, before, c, after)
    ensures ParseDocument(t) == Ok(Tree(c), Dups(c), |before| + Len(c))
  {
    hide ReadValue, SkipWs, Spells, SpaceAt, Len, Tree, Dups;
    SpellsHead(c, t, |before|);
    SkipSpace(t, 0, before);
    SpelledIsRead(c, t, |before|);
    SkipToEnd(t, |before| + Len(c), after);
  }

  /** What is accepted is exactly the grammar. */
  lemma AcceptedIffText(t: seq<Token>)
    ensures ParseDocument(t).Ok? <==> exists before, c, after :: IsText(t, before, c, after)
  {
    hide ReadValue, SkipWs, Spells, SpaceAt, Len, Tree, Dups;
    if before, c, after :| IsText(t, before, c, after) {
      TextIsAccepted(t, before, c, after);
    }
    if ParseDocument(t).Ok? {
      SkipTwice(t, 0);
      var before, c := ReadIsSpelled(t, 0);
      var after := SkippedSpace(t, ReadValue(t, 0).next);
      assert IsText(t, before, c, after);
    }
  }

  // ------------------------------------------------------------ repeated keys

  predicate KeyIn(key: string, m: Members) {
    m.key == key || (m.MoreMembers? && KeyIn(key, m.rest))
  }

  /** No object, at any depth, has two members with the same key. */
  predicate KeysDistinct(c: Cst) {
    match c
    case CArr(items) => ItemsDistinct(items)
    case CObj(members) => MembersDistinct(members)
    case _ => true
  }

  predicate ItemsDistinct(x: Items) {
    KeysDistinct(x.value) && (x.MoreItems? ==> ItemsDistinct(x.rest))
  }

  predicate MembersDistinct(m: Members) {
    KeysDistinct(m.value) && (m.MoreMembers? ==> !KeyIn(m.key, m.rest) && MembersDistinct(m.rest))
  }

  /** The list of duplicates is empty exactly when no object repeats a key. */
  lemma {:induction false} DupsExact(c: Cst)
    ensures Dups(c) == [] <==> KeysDistinct(c)
  {
    match c
    case CArr(items) => ItemDupsExact(items);
    case CObj(members) => MemberDupsExact(members, {});
    case _ =>
  }

  lemma {:induction false} ItemDupsExact(x: Items)
    ensures DupsOfItems(x) == [] <==> ItemsDistinct(x)
  {
    DupsExact(x.value);
    if x.MoreItems? {
      ItemDupsExact(x.rest);
    }
  }

  lemma {:induction false} MemberDupsExact(m: Members, seen: set<string>)
    ensures DupsOfMembers(m, seen) == [] <==> MembersDistinct(m) && forall k :: k in seen ==> !KeyIn(k, m)
  {
    DupsExact(m.value);
    if m.MoreMembers? {
      MemberDupsExact(m.rest, seen + {m.key});
      assert |DupsOfMembers(m, seen)| == |Dups(m.value)| + |if m.key in seen then [m.key] else []|
        + |DupsOfMembers(m.rest, seen + {m.key})|;
      assert (forall k :: k in seen + {m.key} ==> !KeyIn(k, m.rest))
        <==> !KeyIn(m.key, m.rest) && forall k :: k in seen ==> !KeyIn(k, m.rest) by {
        assert m.key in seen + {m.key};
        assert forall k :: k in seen ==> k in seen + {m.key};
      }
      assert m.key !in seen ==>
        ((forall k :: k in seen ==> !KeyIn(k, m)) <==> (forall k :: k in seen ==> !KeyIn(k, m.rest)));
    } else {
      assert |DupsOfMembers(m, seen)| == |Dups(m.value)| + |if m.key in seen then [m.key] else []|;
    }
  }

  // -------------------------------------------------------------- the printer

  function Space(w: seq<char>): (r: seq<Token>)
    ensures |r| == |w|
  {
    if w == [] then [] else [Ws(w[0])] + Space(w[1..])
  }

  function Print(c: Cst): seq<Token> {
    match c
    case CScalar(x) => [x]
    case CArr0(inner) => [LBracket] + Space(inner) + [RBracket]
    case CArr(items) => [LBracket] + PrintItems(items)
    case CObj0(inner) => [LBrace] + Space(inner) + [RBrace]
    case CObj(members) => [LBrace] + PrintMembers(members)
  }

  function PrintItems(x: Items): seq<Token> {
    Space(x.before) + Print(x.value) + Space(x.after)
    + if x.LastItem? then [RBracket] else [Comma] + PrintItems(x.rest)
  }

  function PrintMembers(m: Members): seq<Token> {
    Space(m.before) + [Str(m.key)] + Space(m.afterKey) + [Colon] + Space(m.beforeValue)
    + Print(m.value) + Space(m.after)
    + if m.LastMember? then [RBrace] else [Comma] + PrintMembers(m.rest)
  }

  /** Only scalar tokens stand for scalars. */
  predicate Wf(c: Cst) {
    match c
    case CScalar(x) => IsScalar(x)
    case CArr(items) => WfItems(items)
    case CObj(members) => WfMembers(members)
    case _ => true
  }

  predicate WfItems(x: Items) {
    Wf(x.value) && (x.MoreItems? ==> WfItems(x.rest))
  }

  predicate WfMembers(m: Members) {
    Wf(m.value) && (m.MoreMembers? ==> WfMembers(m.rest))
  }

  /** The tokens of `s` stand at `i`. */
  predicate Follows(t: seq<Token>, i: nat, s: seq<Token>)
    decreases |s|
  {
    s == [] || (TokenAt(t, i, s[0]) && Follows(t, i + 1, s[1..]))
  }

  lemma {:induction false} FollowsSplit(t: seq<Token>, i: nat, a: seq<Token>, b: seq<Token>)
    requires Follows(t, i, a + b)
    ensures Follows(t, i, a) && Follows(t, i + |a|, b)
    decreases |a|
  {
    if a == [] {
      assert a + b == b;
    } else {
      assert (a + b)[1..] == a[1..] + b;
      FollowsSplit(t, i + 1, a[1..], b);
    }
  }

  lemma FollowsOne(t: seq<Token>, i: nat, x: Token)
    requires Follows(t, i, [x])
    ensures TokenAt(t, i, x)
  {
  }

  lemma {:induction false} FollowsSpace(t: seq<Token>, i: nat, w: seq<char>)
    requires Follows(t, i, Space(w))
    ensures SpaceAt(t, i, w)
    decreases |w|
  {
    if w != [] {
      assert Space(w)[1..] == Space(w[1..]);
      FollowsSpace(t, i + 1, w[1..]);
    }
  }

  lemma {:induction false} FollowsItself(t: seq<Token>, i: nat)
    requires i <= |t|
    ensures Follows(t, i, t[i..])
    decreases |t| - i
  {
    if i < |t| {
      FollowsItself(t, i + 1);
      assert t[i..][1..] == t[i + 1..];
    }
  }

  lemma {:induction false} PrintLen(c: Cst)
    ensures |Print(c)| == Len(c)
    decreases c
  {
    match c
    case CArr(items) => PrintItemsLen(items);
    case CObj(members) => PrintMembersLen(members);
    case _ =>
  }

  lemma {:induction false} PrintItemsLen(x: Items)
    ensures |PrintItems(x)| == ItemsLen(x)
    decreases x
  {
    PrintLen(x.value);
    if x.MoreItems? {
      PrintItemsLen(x.rest);
    }
  }

  lemma {:induction false} PrintMembersLen(m: Members)
    ensures |PrintMembers(m)| == MembersLen(m)
    decreases m
  {
    PrintLen(m.value);
    if m.MoreMembers? {
      PrintMembersLen(m.rest);
    }
  }

  /** A printed value spells its syntax wherever it is put. */
  lemma {:induction false} PrintSpells(c: Cst, t: seq<Token>, i: nat)
    requires Wf(c) && Follows(t, i, Print(c))
    ensures Spells(c, t, i)
    decreases c
  {
    hide Follows, SpaceAt, SpellsItems, SpellsMembers, PrintItems, PrintMembers;
    match c
    case CScalar(x) =>
      FollowsOne(t, i, x);
    case CArr0(inner) =>
      FollowsSplit(t, i, [LBracket] + Space(inner), [RBracket]);
      FollowsSplit(t, i, [LBracket], Space(inner));
      FollowsOne(t, i, LBracket);
      FollowsSpace(t, i + 1, inner);
      FollowsOne(t, i + 1 + |inner|, RBracket);
    case CArr(items) =>
      FollowsSplit(t, i, [LBracket], PrintItems(items));
      FollowsOne(t, i, LBracket);
      ItemsSpell(items, t, i + 1);
    case CObj0(inner) =>
      FollowsSplit(t, i, [LBrace] + Space(inner), [RBrace]);
      FollowsSplit(t, i, [LBrace], Space(inner));
      FollowsOne(t, i, LBrace);
      FollowsSpace(t, i + 1, inner);
      FollowsOne(t, i + 1 + |inner|, RBrace);
    case CObj(members) =>
      FollowsSplit(t, i, [LBrace], PrintMembers(members));
      FollowsOne(t, i, LBrace);
      MembersSpell(members, t, i + 1);
  }

  lemma {:induction false} ItemsSpell(x: Items, t: seq<Token>, i: nat)
    requires WfItems(x) && Follows(t, i, PrintItems(x))
    ensures SpellsItems(x, t, i)
    decreases x
  {
    hide Follows, SpaceAt, Spells, SpellsItems, Space, Print, Len, Wf;
    var b, v, a := Space(x.before), Print(x.value), Space(x.after);
    var tail := if x.LastItem? then [RBracket] else [Comma] + PrintItems(x.rest);
    PrintLen(x.value);
    FollowsSplit(t, i, b + v + a, tail);
    FollowsSplit(t, i, b + v, a);
    FollowsSplit(t, i, b, v);
    FollowsSpace(t, i, x.before);
    PrintSpells(x.value, t, i + |b|);
    FollowsSpace(t, i + |b| + |v|, x.after);
    var k := i + |b| + |v| + |a|;
    if x.LastItem? {
      FollowsOne(t, k, RBracket);
    } else {
      FollowsSplit(t, k, [Comma], PrintItems(x.rest));
      FollowsOne(t, k, Comma);
      ItemsSpell(x.rest, t, k + 1);
    }
    MakeItems(x, t, i);
  }

  lemma {:induction false} MembersSpell(m: Members, t: seq<Token>, i: nat)
    requires WfMembers(m) && Follows(t, i, PrintMembers(m))
    ensures SpellsMembers(m, t, i)
    decreases m
  {
    hide Follows, SpaceAt, Spells, SpellsMembers, Space, Print, Len, Wf;
    var b, s, f, g := Space(m.before), [Str(m.key)], Space(m.afterKey), Space(m.beforeValue);
    var v, a := Print(m.value), Space(m.after);
    var tail := if m.LastMember? then [RBrace] else [Comma] + PrintMembers(m.rest);
    PrintLen(m.value);
    FollowsSplit(t, i, b + s + f + [Colon] + g + v + a, tail);
    FollowsSplit(t, i, b + s + f + [Colon] + g + v, a);
    FollowsSplit(t, i, b + s + f + [Colon] + g, v);
    FollowsSplit(t, i, b + s + f + [Colon], g);
    FollowsSplit(t, i, b + s + f, [Colon]);
    FollowsSplit(t, i, b + s, f);
    FollowsSplit(t, i, b, s);
    var p := i + |b|;
    var c := p + 1 + |f|;
    var at := c + 1 + |g|;
    var k := at + |v| + |a|;
    FollowsSpace(t, i, m.before);
    FollowsOne(t, p, Str(m.key));
    FollowsSpace(t, p + 1, m.afterKey);
    FollowsOne(t, c, Colon);
    FollowsSpace(t, c + 1, m.beforeValue);
    PrintSpells(m.value, t, at);
    FollowsSpace(t, at + |v|, m.after);
    if m.LastMember? {
      FollowsOne(t, k, RBrace);
    } else {
      FollowsSplit(t, k, [Comma], PrintMembers(m.rest));
      FollowsOne(t, k, Comma);
      MembersSpell(m.rest, t, k + 1);
    }
    MakeMembers(m, t, i, p, c, at, at + |v|, k);
  }

  lemma PrintedParts(t: seq<Token>, before: seq<Token>, p: seq<Token>, after: seq<Token>)
    requires t == before + p + after
    ensures Follows(t, 0, before) && Follows(t, |before|, p) && Follows(t, |before| + |p|, after)
  {
    FollowsItself(t, 0);
    assert t[0..] == t;
    hide Follows;
    FollowsSplit(t, 0, before + p, after);
    FollowsSplit(t, 0, before, p);
  }

  /** Reading undoes printing, whatever the white space; so documents that print
      the same read as the same tree. */
  lemma PrintReads(c: Cst, before: seq<char>, after: seq<char>)
    requires Wf(c)
    ensures ParseDocument(Space(before) + Print(c) + Space(after)) == Ok(Tree(c), Dups(c), |before| + Len(c))
  {
    hide Follows, Spells, SpaceAt, Space, Print, Len, ParseDocument, Tree, Dups;
    var t := Space(before) + Print(c) + Space(after);
    PrintedParts(t, Space(before), Print(c), Space(after));
    PrintLen(c);
    FollowsSpace(t, 0, before);
    PrintSpells(c, t, |before|);
    FollowsSpace(t, |before| + Len(c), after);
    TextIsAccepted(t, before, c, after);
  }
}
