/** Strict JSON over tokens: the recursive reading of sections 2 to 5 of RFC 8259,
    and the validator's parser with an explicit stack, both listing repeated keys.
    String and number tokens are abstract. */
module Json {

  datatype Token =
    | LBrace | RBrace | LBracket | RBracket | Colon | Comma
    | Str(s: string) | Num(n: string) | TrueT | FalseT | NullT
    | Ws(c: char) | Bad

  datatype Value =
    | JNull | JBool(b: bool) | JNum(n: string) | JStr(s: string)
    | JArr(items: seq<Value>) | JObj(members: map<string, Value>)

  datatype Result = Fail | Ok(value: Value, dups: seq<string>, next: nat)

  function SkipWs(t: seq<Token>, i: nat): (k: nat)
    requires i <= |t|
    ensures i <= k <= |t| && (k < |t| ==> !t[k].Ws?)
    decreases |t| - i
  {
    if i < |t| && t[i].Ws? then SkipWs(t, i + 1) else i
  }

  predicate TokenAt(t: seq<Token>, i: nat, x: Token) {
    i < |t| && t[i] == x
  }

  function Scalar(x: Token): Result {
    match x
    case Str(s) => Ok(JStr(s), [], 1)
    case Num(n) => Ok(JNum(n), [], 1)
    case TrueT => Ok(JBool(true), [], 1)
    case FalseT => Ok(JBool(false), [], 1)
    case NullT => Ok(JNull, [], 1)
    case _ => Fail
  }

  /** `value` of section 3, with whitespace before it. */
  function ReadValue(t: seq<Token>, i: nat): (r: Result)
    requires i <= |t|
    ensures r.Ok? ==> i < r.next <= |t|
    decreases |t| - i, 1
  {
    var k := SkipWs(t, i);
    if k == |t| then Fail
    else if t[k].LBrace? then
      var m := SkipWs(t, k + 1);
      if TokenAt(t, m, RBrace) then Ok(JObj(map[]), [], m + 1) else ReadMembers(t, m, map[], [])
    else if t[k].LBracket? then
      var m := SkipWs(t, k + 1);
      if TokenAt(t, m, RBracket) then Ok(JArr([]), [], m + 1) else ReadItems(t, m, [], [])
    else if Scalar(t[k]).Ok? then Scalar(t[k]).(next := k + 1)
    else Fail
  }

  /** The rest of an array from an element on. */
  function ReadItems(t: seq<Token>, i: nat, acc: seq<Value>, dups: seq<string>): (r: Result)
    requires i <= |t|
    ensures r.Ok? ==> i < r.next <= |t|
    decreases |t| - i, 2
  {
    var v := ReadValue(t, i);
    if v.Fail? then Fail
    else
      var k := SkipWs(t, v.next);
      if TokenAt(t, k, Comma) then ReadItems(t, k + 1, acc + [v.value], dups + v.dups)
      else if TokenAt(t, k, RBracket) then Ok(JArr(acc + [v.value]), dups + v.dups, k + 1)
      else Fail
  }

  /** A key and its colon; where the value starts. */
  function ReadKey(t: seq<Token>, i: nat): (r: nat)
    requires i <= |t|
    ensures r > 0 ==> i + 1 < r <= |t| && t[i].Str?
  {
    if i < |t| && t[i].Str? then
      var k := SkipWs(t, i + 1);
      if TokenAt(t, k, Colon) then k + 1 else 0
    else 0
  }

  function Repeat(key: string, members: map<string, Value>): seq<string> {
    if key in members then [key] else []
  }

  /** The rest of an object from a key on. */
  function ReadMembers(t: seq<Token>, i: nat, acc: map<string, Value>, dups: seq<string>): (r: Result)
    requires i <= |t|
    ensures r.Ok? ==> i < r.next <= |t|
    decreases |t| - i, 0
  {
    var at := ReadKey(t, i);
    if at == 0 then Fail
    else
      var v := ReadValue(t, at);
      if v.Fail? then Fail
      else
        var k, dups' := SkipWs(t, v.next), dups + v.dups + Repeat(t[i].s, acc);
        if TokenAt(t, k, Comma) then ReadMembers(t, SkipWs(t, k + 1), acc[t[i].s := v.value], dups')
        else if TokenAt(t, k, RBrace) then Ok(JObj(acc[t[i].s := v.value]), dups', k + 1)
        else Fail
  }

  // ------------------------------------------------- the parser with a stack

  datatype Frame = FArr(items: seq<Value>) | FObj(members: map<string, Value>, key: string)

  function Then(t: seq<Token>, stack: seq<Frame>, r: Result): Result
    requires r.Ok? ==> r.next <= |t|
    decreases |stack|, 1
  {
    if r.Fail? then Fail else Resume(t, stack, r.value, r.dups, r.next)
  }

  /** What is left to read once a value is complete: its open containers. */
  function Resume(t: seq<Token>, stack: seq<Frame>, v: Value, dups: seq<string>, i: nat): Result
    requires i <= |t|
    decreases |stack|, 0
  {
    if stack == [] then Ok(v, dups, i)
    else
      var rest, k := stack[..|stack| - 1], SkipWs(t, i);
      match stack[|stack| - 1]
      case FArr(items) =>
        if TokenAt(t, k, Comma) then Then(t, rest, ReadItems(t, k + 1, items + [v], dups))
        else if TokenAt(t, k, RBracket) then Resume(t, rest, JArr(items + [v]), dups, k + 1)
        else Fail
      case FObj(members, key) =>
        var dups' := dups + Repeat(key, members);
        if TokenAt(t, k, Comma) then
          Then(t, rest, ReadMembers(t, SkipWs(t, k + 1), members[key := v], dups'))
        else if TokenAt(t, k, RBrace) then Resume(t, rest, JObj(members[key := v]), dups', k + 1)
        else Fail
  }

  function Listing(p: seq<string>, r: Result): Result {
    if r.Fail? then Fail else r.(dups := p + r.dups)
  }

  /** Reading a value at `i` inside the open containers of `stack`. */
  function Continue(t: seq<Token>, stack: seq<Frame>, dups: seq<string>, i: nat): Result
    requires i <= |t|
  {
    Then(t, stack, Listing(dups, ReadValue(t, i)))
  }

  lemma {:induction false} ItemsListing(t: seq<Token>, i: nat, acc: seq<Value>, p: seq<string>, d: seq<string>)
    requires i <= |t|
    ensures ReadItems(t, i, acc, p + d) == Listing(p, ReadItems(t, i, acc, d))
    decreases |t| - i
  {
    var v := ReadValue(t, i);
    if v.Ok? {
      assert p + d + v.dups == p + (d + v.dups);
      var k := SkipWs(t, v.next);
      if TokenAt(t, k, Comma) {
        ItemsListing(t, k + 1, acc + [v.value], p, d + v.dups);
      }
    }
  }

  lemma {:induction false} MembersListing(t: seq<Token>, i: nat, acc: map<string, Value>, p: seq<string>, d: seq<string>)
    requires i <= |t|
    ensures ReadMembers(t, i, acc, p + d) == Listing(p, ReadMembers(t, i, acc, d))
    decreases |t| - i
  {
    hide ReadValue, ReadKey;
    var at := ReadKey(t, i);
    if at != 0 && ReadValue(t, at).Ok? {
      var v, r := ReadValue(t, at), Repeat(t[i].s, acc);
      assert p + d + v.dups + r == p + (d + v.dups + r);
      var k := SkipWs(t, v.next);
      if TokenAt(t, k, Comma) {
        var m, acc' := SkipWs(t, k + 1), acc[t[i].s := v.value];
        assert ReadMembers(t, i, acc, d) == ReadMembers(t, m, acc', d + v.dups + r);
        assert ReadMembers(t, i, acc, p + d) == ReadMembers(t, m, acc', p + d + v.dups + r);
        MembersListing(t, m, acc', p, d + v.dups + r);
      }
    }
  }

  lemma OpenArray(t: seq<Token>, stack: seq<Frame>, dups: seq<string>, i: nat)
    requires i <= |t|
    ensures Continue(t, stack + [FArr([])], dups, i) == Then(t, stack, Listing(dups, ReadItems(t, i, [], [])))
  {
    AfterComma(t, stack, FArr([]), dups, i);
    assert dups + [] == dups;
    ItemsListing(t, i, [], dups, []);
  }

  /** Reading on inside the innermost container. */
  lemma AfterComma(t: seq<Token>, stack: seq<Frame>, f: Frame, dups: seq<string>, i: nat)
    requires i <= |t| && f.FArr?
    ensures Continue(t, stack + [f], dups, i) == Then(t, stack, ReadItems(t, i, f.items, dups))
  {
    var v, full := ReadValue(t, i), stack + [f];
    assert full[..|full| - 1] == stack;
    if v.Ok? {
      ResumeTop(t, stack, f, v.value, dups + v.dups, v.next);
    }
  }

  lemma AfterKey(t: seq<Token>, stack: seq<Frame>, members: map<string, Value>, dups: seq<string>, i: nat)
    requires i <= |t| && ReadKey(t, i) != 0
    ensures Continue(t, stack + [FObj(members, t[i].s)], dups, ReadKey(t, i))
         == Then(t, stack, ReadMembers(t, i, members, dups))
  {
    hide ReadValue, ReadItems, Resume;
    var v := ReadValue(t, ReadKey(t, i));
    if v.Ok? {
      ResumeTop(t, stack, FObj(members, t[i].s), v.value, dups + v.dups, v.next);
    }
  }

  function Attach(f: Frame, v: Value): Frame {
    match f
    case FArr(items) => FArr(items + [v])
    case FObj(members, key) => FObj(members[key := v], key)
  }

  function Closed(f: Frame): Value {
    if f.FArr? then JArr(f.items) else JObj(f.members)
  }

  function Repeated(f: Frame): seq<string> {
    if f.FArr? then [] else Repeat(f.key, f.members)
  }

  function Closer(f: Frame): Token {
    if f.FArr? then RBracket else RBrace
  }

  function ReadOn(t: seq<Token>, f: Frame, dups: seq<string>, i: nat): (r: Result)
    requires i <= |t|
    ensures r.Ok? ==> r.next <= |t|
  {
    if f.FArr? then ReadItems(t, i, f.items, dups) else ReadMembers(t, SkipWs(t, i), f.members, dups)
  }

  /** `Resume` on a stack whose top is known. */
  lemma ResumeTop(t: seq<Token>, stack: seq<Frame>, f: Frame, v: Value, dups: seq<string>, i: nat)
    requires i <= |t|
    ensures var k := SkipWs(t, i);
      Resume(t, stack + [f], v, dups, i) ==
        if TokenAt(t, k, Comma) then Then(t, stack, ReadOn(t, Attach(f, v), dups + Repeated(f), k + 1))
        else if TokenAt(t, k, Closer(f)) then Resume(t, stack, Closed(Attach(f, v)), dups + Repeated(f), k + 1)
        else Fail
  {
    var full := stack + [f];
    assert full[..|full| - 1] == stack && full[|full| - 1] == f;
    assert dups + [] == dups;
  }

  /** Where the parser stands: about to read a value, holding one, or done. */
  datatype Step = Read(stack: seq<Frame>, dups: seq<string>, at: nat)
                | Hold(stack: seq<Frame>, held: Value, dups: seq<string>, at: nat)
                | Done(result: Result)

  predicate Within(t: seq<Token>, s: Step) {
    s.Done? || s.at <= |t|
  }

  function Answer(t: seq<Token>, s: Step): Result
    requires Within(t, s)
  {
    match s
    case Read(stack, dups, i) => Continue(t, stack, dups, i)
    case Hold(stack, v, dups, i) => Resume(t, stack, v, dups, i)
    case Done(r) => r
  }

  /** The upper half of the outer loop: one token, or the head of a container. */
  method StartValue(t: seq<Token>, stack: seq<Frame>, dups: seq<string>, start: nat) returns (s: Step)
    requires start <= |t|
    ensures Within(t, s) && Answer(t, s) == Continue(t, stack, dups, start)
    ensures !s.Done? ==> start < s.at
  {
    var i := SkipWs(t, start);
    assert dups + [] == dups;
    if i == |t| {
      return Done(Fail);
    } else if t[i].LBrace? {
      i := SkipWs(t, i + 1);
      if TokenAt(t, i, RBrace) {
        return Hold(stack, JObj(map[]), dups, i + 1);
      }
      MembersListing(t, i, map[], dups, []);
      var at := ReadKey(t, i);
      if at == 0 {
        return Done(Fail);
      }
      AfterKey(t, stack, map[], dups, i);
      return Read(stack + [FObj(map[], t[i].s)], dups, at);
    } else if t[i].LBracket? {
      i := SkipWs(t, i + 1);
      if TokenAt(t, i, RBracket) {
        return Hold(stack, JArr([]), dups, i + 1);
      }
      OpenArray(t, stack, dups, i);
      return Read(stack + [FArr([])], dups, i);
    } else if Scalar(t[i]).Ok? {
      return Hold(stack, Scalar(t[i]).value, dups, i + 1);
    }
    return Done(Fail);
  }

  lemma NoKeyFails(t: seq<Token>, stack: seq<Frame>, members: map<string, Value>, dups: seq<string>, i: nat)
    requires i <= |t| && ReadKey(t, i) == 0
    ensures Then(t, stack, ReadMembers(t, i, members, dups)) == Fail
  {
  }

  lemma NothingOpen(t: seq<Token>, v: Value, dups: seq<string>, i: nat)
    requires i <= |t|
    ensures Resume(t, [], v, dups, i) == Ok(v, dups, i)
  {
  }

  /** One round of the inner loop: the value goes into the innermost container. */
  method AttachValue(t: seq<Token>, stack: seq<Frame>, value: Value, dups: seq<string>, start: nat) returns (s: Step)
    requires start <= |t|
    ensures Within(t, s) && Answer(t, s) == Resume(t, stack, value, dups, start)
    ensures !s.Done? ==> start < s.at
  {
    hide ReadValue, ReadItems, ReadMembers, Resume, Then, Continue, Repeated, Closed;
    if stack == [] {
      NothingOpen(t, value, dups, start);
      return Done(Ok(value, dups, start));
    }
    var frame, rest := stack[|stack| - 1], stack[..|stack| - 1];
    assert stack == rest + [frame];
    ResumeTop(t, rest, frame, value, dups, start);
    var i := SkipWs(t, start);
    var dups', filled := dups + Repeated(frame), Attach(frame, value);
    if TokenAt(t, i, Closer(frame)) {
      return Hold(rest, Closed(filled), dups', i + 1);
    }
    if !TokenAt(t, i, Comma) {
      return Done(Fail);
    }
    if frame.FArr? {
      AfterComma(t, rest, filled, dups', i + 1);
      return Read(rest + [filled], dups', i + 1);
    }
    i := SkipWs(t, i + 1);
    var at := ReadKey(t, i);
    if at == 0 {
      NoKeyFails(t, rest, filled.members, dups', i);
      return Done(Fail);
    }
    AfterKey(t, rest, filled.members, dups', i);
    return Read(rest + [FObj(filled.members, t[i].s)], dups', at);
  }

  /** `_iterative_parse`: an explicit stack, no recursion, and the same answer. */
  method IterativeParse(t: seq<Token>, start: nat) returns (r: Result)
    requires start <= |t|
    ensures r == ReadValue(t, start)
  {
    var s := Read([], [], start);
    assert forall r: Result :: r.Ok? ==> Listing([], r) == r by {
      assert forall d: seq<string> :: [] + d == d;
    }
    while s.Read?
      invariant !s.Hold? && Within(t, s) && Answer(t, s) == ReadValue(t, start)
      decreases if s.Done? then 0 else |t| - s.at + 1
    {
      ghost var before := s.at;
      s := StartValue(t, s.stack, s.dups, s.at);
      while s.Hold?
        invariant Within(t, s) && Answer(t, s) == ReadValue(t, start)
        invariant !s.Done? ==> before < s.at
        decreases if s.Done? then 0 else |t| - s.at + 1
      {
        s := AttachValue(t, s.stack, s.held, s.dups, s.at);
      }
    }
    r := s.result;
  }
}
