/** The event handler that the C++ side runs over a document first: a stack of key
    sets, and a refusal at the first key that is already in the top one. */
module JsonStrict {
  import opened Json
  import opened JsonGrammar

  datatype Event = ScalarEvent | StartObject | Key(key: string) | EndObject | StartArray | EndArray

  /** The events of a value, in document order. */
  function Events(c: Cst): seq<Event> {
    match c
    case CScalar(_) => [ScalarEvent]
    case CArr0(_) => [StartArray, EndArray]
    case CArr(items) => [StartArray] + ItemEvents(items)
    case CObj0(_) => [StartObject, EndObject]
    case CObj(members) => [StartObject] + MemberEvents(members)
  }

  function ItemEvents(x: Items): seq<Event> {
    Events(x.value) + if x.LastItem? then [EndArray] else ItemEvents(x.rest)
  }

  function MemberEvents(m: Members): seq<Event> {
    [Key(m.key)] + (Events(m.value) + if m.LastMember? then [EndObject] else MemberEvents(m.rest))
  }

  datatype Outcome = Accepted(open: seq<set<string>>) | Repeated(key: string) | Underflow

  /** The handler on a list of events: what is open after them, or where it stops. */
  function Detect(events: seq<Event>, open: seq<set<string>>): Outcome {
    if events == [] then Accepted(open)
    else
      var top := |open| - 1;
      match events[0]
      case StartObject => Detect(events[1..], open + [{}])
      case Key(k) =>
        if open == [] then Underflow
        else if k in open[top] then Repeated(k)
        else Detect(events[1..], open[..top] + [open[top] + {k}])
      case EndObject => if open == [] then Underflow else Detect(events[1..], open[..top])
      case _ => Detect(events[1..], open)
  }

  class DuplicateKeyDetector {
    var objectKeys: seq<set<string>>
    var error: string

    constructor ()
      ensures objectKeys == [] && error == ""
    {
      objectKeys, error := [], "";
    }

    method OnStartObject()
      modifies this
      ensures objectKeys == old(objectKeys) + [{}] && error == old(error)
    {
      objectKeys := objectKeys + [{}];
    }

    method OnKey(key: string) returns (go: bool)
      requires objectKeys != []
      modifies this
      ensures var top := |old(objectKeys)| - 1;
        && (go <==> key !in old(objectKeys)[top])
        && objectKeys == old(objectKeys)[..top] + [old(objectKeys)[top] + {key}]
        && error == if go then old(error) else "duplicate object key \"" + key + "\""
    {
      var top := |objectKeys| - 1;
      go := key !in objectKeys[top];
      objectKeys := objectKeys[..top] + [objectKeys[top] + {key}];
      if !go {
        error := "duplicate object key \"" + key + "\"";
      }
    }

    method OnEndObject()
      requires objectKeys != []
      modifies this
      ensures objectKeys == old(objectKeys)[..|old(objectKeys)| - 1] && error == old(error)
    {
      objectKeys := objectKeys[..|objectKeys| - 1];
    }

    /** `sax_parse` over the events of a document, until the handler refuses. */
    method Run(events: seq<Event>) returns (ok: bool)
      requires objectKeys == [] && !Detect(events, []).Underflow?
      modifies this
      ensures ok <==> Detect(events, []).Accepted?
      ensures ok ==> Detect(events, []) == Accepted(objectKeys)
    {
      assert events[0..] == events;
      for i := 0 to |events|
        invariant Detect(events[i..], objectKeys) == Detect(events, [])
      {
        assert events[i..][1..] == events[i + 1..];
        match events[i] {
          case StartObject => OnStartObject();
          case Key(k) =>
            var go := OnKey(k);
            if !go {
              return false;
            }
          case EndObject => OnEndObject();
          case _ =>
        }
      }
      ok := true;
    }
  }

  /** A value in the middle of a document leaves the stack as it found it, or the
      run stops at a repeated key: the stack never underflows. */
  lemma {:induction false} DetectValue(c: Cst, rest: seq<Event>, open: seq<set<string>>)
    ensures if KeysDistinct(c) then Detect(Events(c) + rest, open) == Detect(rest, open)
            else Detect(Events(c) + rest, open).Repeated?
    decreases c
  {
    var all := Events(c) + rest;
    match c
    case CScalar(_) => assert all[1..] == rest;
    case CArr0(_) =>
      assert all[1..] == [EndArray] + rest;
      assert all[1..][1..] == rest;
    case CArr(items) =>
      assert all[1..] == ItemEvents(items) + rest;
      DetectItems(items, rest, open);
    case CObj0(_) =>
      assert all[1..] == [EndObject] + rest;
      assert all[1..][1..] == rest && (open + [{}])[..|open|] == open;
    case CObj(members) =>
      assert all[1..] == MemberEvents(members) + rest;
      DetectMembers(members, rest, open, {});
  }

  lemma {:induction false} DetectItems(x: Items, rest: seq<Event>, open: seq<set<string>>)
    ensures if ItemsDistinct(x) then Detect(ItemEvents(x) + rest, open) == Detect(rest, open)
            else Detect(ItemEvents(x) + rest, open).Repeated?
    decreases x
  {
    if x.LastItem? {
      DetectValue(x.value, [EndArray] + rest, open);
      assert ItemEvents(x) + rest == Events(x.value) + ([EndArray] + rest);
      assert ([EndArray] + rest)[1..] == rest;
    } else {
      DetectValue(x.value, ItemEvents(x.rest) + rest, open);
      assert ItemEvents(x) + rest == Events(x.value) + (ItemEvents(x.rest) + rest);
      DetectItems(x.rest, rest, open);
    }
  }

  lemma {:induction false} DetectMembers(m: Members, rest: seq<Event>, open: seq<set<string>>, seen: set<string>)
    ensures var ok := MembersDistinct(m) && forall k :: k in seen ==> !KeyIn(k, m);
      if ok then Detect(MemberEvents(m) + rest, open + [seen]) == Detect(rest, open)
      else Detect(MemberEvents(m) + rest, open + [seen]).Repeated?
    decreases m
  {
    var stack := open + [seen];
    assert stack[..|stack| - 1] == open && stack[|stack| - 1] == seen;
    var tail := if m.LastMember? then [EndObject] else MemberEvents(m.rest);
    var all := MemberEvents(m) + rest;
    assert all[0] == Key(m.key) && all[1..] == Events(m.value) + (tail + rest);
    if m.key !in seen {
      var next := open + [seen + {m.key}];
      assert Detect(all, stack) == Detect(all[1..], next);
      DetectValue(m.value, tail + rest, next);
      if m.LastMember? {
        assert ([EndObject] + rest)[1..] == rest && next[..|next| - 1] == open;
      } else {
        DetectMembers(m.rest, rest, open, seen + {m.key});
        assert (forall k :: k in seen + {m.key} ==> !KeyIn(k, m.rest))
          <==> !KeyIn(m.key, m.rest) && forall k :: k in seen ==> !KeyIn(k, m.rest) by {
          assert m.key in seen + {m.key};
          assert forall k :: k in seen ==> k in seen + {m.key};
        }
      }
    } else {
      assert KeyIn(m.key, m);
    }
  }

  /** Both sides reject the same trees: the C++ handler refuses exactly the
      documents for which the validator lists a duplicate, and it never reads or
      pops an empty stack. */
  lemma SidesAgree(c: Cst)
    ensures Detect(Events(c), []).Accepted? <==> Dups(c) == []
    ensures !Detect(Events(c), []).Underflow?
  {
    DetectValue(c, [], []);
    assert Events(c) + [] == Events(c);
    DupsExact(c);
  }
}
