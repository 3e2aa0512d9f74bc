/** The class that runs the walk, and the sorted report. */
module DepEngine {
  import opened Prelude
  import opened DepResolve
  import opened DepWalk
  import opened DepReport
  import Lex

  class Resolver {
    const w: World
    const o: Options
    var deps: seq<Dependency>
    var index: map<string, nat>
    var onPath: set<string>
    var cycles: seq<(string, string)>
    ghost var objects: map<Node, Object>
    ghost var stack: seq<Node>
    ghost var finished: seq<Node>

    ghost function Abs(): Walk
      reads this
    {
      Walk(deps, onPath, cycles, objects, stack, finished)
    }

    /** The index says where each soname is listed. */
    ghost predicate Valid()
      reads this
    {
      forall soname :: Find(deps, soname) == if soname in index then Some(index[soname]) else None
    }

    constructor (w: World, o: Options, ghost root: Object)
      ensures Valid() && Abs() == Start(root) && this.w == w && this.o == o
    {
      this.w, this.o := w, o;
      deps, index, onPath, cycles := [], map[], {ROOT}, [];
      objects, stack, finished := map[Root := root], [Root], [];
    }

    method Visit(obj: Object, self: string, ghost node: Node)
      requires Valid() && self == Label(node)
      modifies this
      ensures Valid() && Abs() == DepWalk.Visit(w, o, old(Abs()), node, obj)
      decreases if |deps| < o.maxNodes then o.maxNodes - |deps| else 0, 1
    {
      if |deps| >= o.maxNodes {
        return;
      }
      for i := 0 to |obj.info.needed|
        invariant Valid() && |deps| >= old(|deps|)
        invariant VisitFrom(w, o, Abs(), node, obj, i) == VisitFrom(w, o, old(Abs()), node, obj, 0)
      {
        var full := Need(obj, self, i, node);
        if full {
          return;
        }
      }
    }

    /** One needed soname; `full` when the node cap ends the visit. */
    method Need(obj: Object, self: string, i: nat, ghost node: Node) returns (full: bool)
      requires Valid() && self == Label(node) && i < |obj.info.needed|
      modifies this
      ensures Valid() && |deps| >= old(|deps|)
      ensures VisitFrom(w, o, old(Abs()), node, obj, i)
           == if full then Abs() else VisitFrom(w, o, Abs(), node, obj, i + 1)
      decreases if |deps| < o.maxNodes then o.maxNodes - |deps| else 0, 0
    {
      var soname := obj.info.needed[i];
      assert Find(deps, soname).Some? <==> soname in index;
      if soname in index {
        MeetAgain(index[soname], self, node);
        return false;
      }
      if |deps| >= o.maxNodes {
        return true;
      }
      var d := Discover(w, o, obj, soname, self);
      OpenEntry(d);
      if Walked(o, d) {
        Visit(ObjectOf(w, d), soname, Lib(soname));
        CloseEntry(soname);
      }
      full := false;
    }

    method OpenEntry(d: Dependency)
      requires Valid() && d.soname !in index
      modifies this
      ensures Valid() && Abs() == Open(w, o, old(Abs()), d)
    {
      hide Find, ObjectOf;
      FindAppended(deps, d);
      index := index[d.soname := |deps|];
      deps := deps + [d];
      if Walked(o, d) {
        onPath := onPath + {d.soname};
        objects, stack := objects[Lib(d.soname) := ObjectOf(w, d)], stack + [Lib(d.soname)];
      }
    }

    method CloseEntry(soname: string)
      requires Valid()
      modifies this
      ensures Valid() && Abs() == Leave(old(Abs()), soname)
    {
      onPath := onPath - {soname};
      finished, stack := finished + [Lib(soname)], if stack == [] then [] else stack[..|stack| - 1];
    }

    method MeetAgain(at: nat, self: string, ghost node: Node)
      requires Valid() && at < |deps| && self == Label(node)
      modifies `deps, `cycles
      ensures Valid() && Abs() == DepWalk.MeetAgain(old(Abs()), at, node)
    {
      var soname := deps[at].soname;
      UpdateKeepsFind(deps, at, AddOnce(deps[at].neededBy, self));
      deps := deps[at := deps[at].(neededBy := AddOnce(deps[at].neededBy, self))];
      if soname in onPath {
        cycles := cycles + [(self, soname)];
      }
    }
  }

  lemma FindAppended(deps: seq<Dependency>, d: Dependency)
    ensures forall x :: Find(deps + [d], x) == if x == d.soname then Some(|deps|) else Find(deps, x)
  {
    assert (deps + [d])[..|deps|] == deps;
  }

  lemma {:induction false} UpdateKeepsFind(deps: seq<Dependency>, at: nat, by': seq<string>)
    requires at < |deps|
    ensures forall x :: Find(deps[at := deps[at].(neededBy := by')], x) == Find(deps, x)
  {
    var k, new' := |deps| - 1, deps[at := deps[at].(neededBy := by')];
    if at < k {
      UpdateKeepsFind(deps[..k], at, by');
      assert new'[..k] == deps[..k][at := deps[..k][at].(neededBy := by')];
    } else {
      assert new'[..k] == deps[..k];
    }
  }

  // ------------------------------------------------------------------ the report

  predicate Sorted(deps: seq<Dependency>) {
    forall i, j :: 0 <= i < j < |deps| ==> Lex.Compare(deps[i].soname, deps[j].soname) <= 0
  }

  function Insert(d: Dependency, s: seq<Dependency>): (r: seq<Dependency>)
    ensures multiset(r) == multiset(s) + multiset{d}
  {
    if s == [] || Lex.Compare(d.soname, s[0].soname) <= 0 then [d] + s
    else
      assert s == [s[0]] + s[1..];
      [s[0]] + Insert(d, s[1..])
  }

  /** `std::sort` by soname. */
  function SortDeps(s: seq<Dependency>): (r: seq<Dependency>)
    ensures multiset(r) == multiset(s)
  {
    if s == [] then []
    else
      assert s == [s[0]] + s[1..];
      Insert(s[0], SortDeps(s[1..]))
  }

  lemma {:induction false} InsertSorted(d: Dependency, s: seq<Dependency>)
    requires Sorted(s)
    ensures Sorted(Insert(d, s))
  {
    hide Lex.Compare;
    if s != [] {
      if Lex.Compare(d.soname, s[0].soname) <= 0 {
        forall j | 0 <= j < |s| ensures Lex.Compare(d.soname, s[j].soname) <= 0 {
          if j > 0 { Lex.CompareTransitive(d.soname, s[0].soname, s[j].soname); }
        }
      } else {
        Lex.CompareFlips(d.soname, s[0].soname);
        InsertSorted(d, s[1..]);
        var r := Insert(d, s[1..]);
        forall j | 0 <= j < |r| ensures Lex.Compare(s[0].soname, r[j].soname) <= 0 {
          assert r[j] in multiset(r);
          assert r[j] == d || r[j] in s[1..];
        }
      }
    }
  }

  lemma {:induction false} SortDepsSorts(s: seq<Dependency>)
    ensures Sorted(SortDeps(s))
  {
    if s != [] {
      SortDepsSorts(s[1..]);
      InsertSorted(s[0], SortDeps(s[1..]));
    }
  }

  datatype Report = Report(root: ElfInfo, dependencies: seq<Dependency>, cycles: seq<(string, string)>)

  /** The entry says of its soname what the search from that object of the walk finds. */
  ghost predicate IsEntryOf(w: World, o: Options, r: Walk, n: Node, d: Dependency) {
    n in r.objects && IsEntryFor(w, o, r.objects[n], d)
  }

  lemma EntriesSorted(w: World, o: Options, r: Walk)
    requires EntriesAre(w, o, r)
    ensures forall d :: d in SortDeps(r.deps) ==> exists n :: IsEntryOf(w, o, r, n, d)
  {
    hide IsEntryFor;
    forall d | d in SortDeps(r.deps)
      ensures exists n :: IsEntryOf(w, o, r, n, d)
    {
      assert d in multiset(SortDeps(r.deps));
      var i :| 0 <= i < |r.deps| && r.deps[i] == d;
      var n :| n in r.objects && IsEntryFor(w, o, r.objects[n], r.deps[i]);
      assert IsEntryOf(w, o, r, n, d);
    }
  }

  /** `analyze_dependencies`, with no language hook registered. */
  method Analyze(w: World, o: Options, root: Object) returns (r: Report)
    ensures r.root == root.info
    ensures !root.info.isElf ==> r.dependencies == [] && r.cycles == []
    ensures root.info.isElf ==>
              && multiset(r.dependencies) == multiset(WalkFrom(w, o, root).deps)
              && Sorted(r.dependencies)
              && r.cycles == WalkFrom(w, o, root).cycles
    ensures root.info.isElf ==>
      && ObjectsAre(w, o, root, WalkFrom(w, o, root))
      && forall d :: d in r.dependencies ==> exists n :: IsEntryOf(w, o, WalkFrom(w, o, root), n, d)
  {
    hide IsEntryFor, EntriesAre, ObjectsAre, HostName, DriverName;
    if !root.info.isElf {
      return Report(root.info, [], []);
    }
    var resolver := new Resolver(w, o, root);
    resolver.Visit(root, ROOT, Root);
    SortDepsSorts(resolver.deps);
    EntriesExact(w, o, root);
    EntriesSorted(w, o, WalkFrom(w, o, root));
    r := Report(root.info, SortDeps(resolver.deps), resolver.cycles);
  }
}
