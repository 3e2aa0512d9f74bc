/** The depth-first walk over an untrusted dependency graph: node cap, the list
    of dependants of every soname, and cycle reports. `VisitFrom` is the
    specification the class `Resolver` refines. */
module DepWalk {
  import opened Prelude
  import opened DepResolve
  import Lex

  const ROOT := "<root>"

  /** A walked object: the executable, or the library found for a soname. The
      source has only labels for them, and the label of the root is a string a
      soname could also be. */
  datatype Node = Root | Lib(soname: string)

  function Label(n: Node): string {
    if n.Root? then ROOT else n.soname
  }

  /** The resolver's fields, plus what it has in hand while it recurses: the
      objects it entered, the stack of open ones, the closed ones in order. */
  datatype Walk = Walk(
    deps: seq<Dependency>, onPath: set<string>, cycles: seq<(string, string)>,
    objects: map<Node, Object>, stack: seq<Node>, finished: seq<Node>)

  function Find(deps: seq<Dependency>, soname: string): (r: Option<nat>)
    ensures r.Some? ==> r.value < |deps| && deps[r.value].soname == soname
    ensures r.None? ==> forall i :: 0 <= i < |deps| ==> deps[i].soname != soname
  {
    if deps == [] then None
    else if deps[|deps| - 1].soname == soname then Some(|deps| - 1)
    else Find(deps[..|deps| - 1], soname)
  }

  function AddOnce(s: seq<string>, x: string): seq<string> {
    if x in s then s else s + [x]
  }

  /** A needed soname that is listed already: one more dependant, and a cycle if
      it is an ancestor. */
  function MeetAgain(s: Walk, at: nat, node: Node): Walk
    requires at < |s.deps|
  {
    var d := s.deps[at];
    s.(deps := s.deps[at := d.(neededBy := AddOnce(d.neededBy, Label(node)))],
       cycles := if d.soname in s.onPath then s.cycles + [(Label(node), d.soname)] else s.cycles)
  }

  function DirOf(w: World, f: File): string {
    if f.dir == "" then w.cwd else f.dir
  }

  predicate Walked(o: Options, d: Dependency) {
    o.recurse && d.resolved.Some? && d.kind.Bundle?
  }

  function ObjectOf(w: World, d: Dependency): Object
    requires d.resolved.Some?
  {
    Object(DirOf(w, d.resolved.value), w.read(d.resolved.value))
  }

  /** A new entry; the library behind it is entered if it is to be walked. */
  function Open(w: World, o: Options, s: Walk, d: Dependency): Walk {
    var s1 := s.(deps := s.deps + [d]);
    if Walked(o, d) then
      s1.(onPath := s.onPath + {d.soname}, objects := s.objects[Lib(d.soname) := ObjectOf(w, d)],
          stack := s.stack + [Lib(d.soname)])
    else s1
  }

  function Leave(s: Walk, soname: string): Walk {
    s.(onPath := s.onPath - {soname}, finished := s.finished + [Lib(soname)],
       stack := if s.stack == [] then [] else s.stack[..|s.stack| - 1])
  }

  /** The needed list of `obj` from entry `i` on. */
  ghost function VisitFrom(w: World, o: Options, s: Walk, node: Node, obj: Object, i: nat): (r: Walk)
    requires i <= |obj.info.needed|
    ensures |s.deps| <= |r.deps|
    decreases if |s.deps| < o.maxNodes then o.maxNodes - |s.deps| else 0, |obj.info.needed| - i
  {
    if i == |obj.info.needed| then s
    else
      var soname := obj.info.needed[i];
      var at := Find(s.deps, soname);
      if at.Some? then
        VisitFrom(w, o, MeetAgain(s, at.value, node), node, obj, i + 1)
      else if |s.deps| >= o.maxNodes then s
      else
        var d := Discover(w, o, obj, soname, Label(node));
        var s1 := Open(w, o, s, d);
        var s2 := if Walked(o, d) then Leave(Visit(w, o, s1, Lib(soname), ObjectOf(w, d)), soname) else s1;
        VisitFrom(w, o, s2, node, obj, i + 1)
  }

  ghost function Visit(w: World, o: Options, s: Walk, node: Node, obj: Object): (r: Walk)
    ensures |s.deps| <= |r.deps|
    decreases if |s.deps| < o.maxNodes then o.maxNodes - |s.deps| else 0, |obj.info.needed| + 1
  {
    if |s.deps| >= o.maxNodes then s else VisitFrom(w, o, s, node, obj, 0)
  }

  function Start(root: Object): Walk {
    Walk([], {ROOT}, [], map[Root := root], [Root], [])
  }

  /** The whole walk, before the report is sorted. */
  ghost function WalkFrom(w: World, o: Options, root: Object): Walk {
    var r := Visit(w, o, Start(root), Root, root);
    r.(stack := [], finished := r.finished + [Root])
  }

  // ------------------------------------------------------------- what is kept

  predicate Needs(s: Walk, n: Node, soname: string) {
    n in s.objects && soname in s.objects[n].info.needed
  }

  predicate Listed(s: Walk, soname: string) {
    exists i :: 0 <= i < |s.deps| && s.deps[i].soname == soname
  }

  predicate ListedFor(s: Walk, soname: string, n: Node) {
    exists i :: 0 <= i < |s.deps| && s.deps[i].soname == soname && Label(n) in s.deps[i].neededBy
  }

  /** No soname is spelled like the label of the root. */
  predicate RootIsUnique(s: Walk) {
    !Listed(s, ROOT)
  }

  predicate Edge(s: Walk, a: Node, b: Node) {
    b.Lib? && b in s.objects && Needs(s, a, b.soname)
  }

  ghost predicate IsPath(s: Walk, p: seq<Node>) {
    |p| > 0 && p[0] in s.objects && forall i :: 0 <= i < |p| - 1 ==> Edge(s, p[i], p[i + 1])
  }

  /** A closed path through walked objects. */
  ghost predicate Cyclic(s: Walk) {
    exists p :: IsPath(s, p) && |p| > 1 && p[0] == p[|p| - 1]
  }

  /** Some report names a library that was walked. */
  predicate NamesWalked(s: Walk) {
    exists i :: 0 <= i < |s.cycles| && Lib(s.cycles[i].1) in s.objects
  }

  ghost predicate DistinctSonames(deps: seq<Dependency>) {
    forall i, j :: 0 <= i < j < |deps| ==> deps[i].soname != deps[j].soname
  }

  ghost predicate DepsSound(w: World, o: Options, s: Walk) {
    && |s.deps| <= o.maxNodes
    && DistinctSonames(s.deps)
    && (forall i :: 0 <= i < |s.deps| ==> DependencySound(w, o, s, s.deps[i]))
  }

  /** An entry is what the resolver finds for its first dependant, its list of
      dependants has no repeats and only objects that need it. */
  ghost predicate DependencySound(w: World, o: Options, s: Walk, d: Dependency) {
    && NoRepeats(d.neededBy)
    && (exists n :: Needs(s, n, d.soname)
          && d == Discover(w, o, s.objects[n], d.soname, Label(n)).(neededBy := d.neededBy))
    && (forall l :: l in d.neededBy ==> exists n :: Label(n) == l && Needs(s, n, d.soname))
    && (Walked(o, d) ==> Lib(d.soname) in s.objects && s.objects[Lib(d.soname)] == ObjectOf(w, d))
  }

  predicate WalkedEntry(o: Options, deps: seq<Dependency>, soname: string) {
    exists i :: 0 <= i < |deps| && deps[i].soname == soname && Walked(o, deps[i])
  }

  ghost predicate NodesSound(o: Options, s: Walk) {
    && NoRepeats(s.stack) && NoRepeats(s.finished)
    && (forall n :: n in s.objects <==> n in s.stack || n in s.finished)
    && (forall n :: n in s.stack ==> n !in s.finished)
    && (forall n :: n in s.objects && n.Lib? ==> WalkedEntry(o, s.deps, n.soname))
  }

  ghost predicate PathSound(s: Walk) {
    && (forall i :: 0 <= i < |s.stack| - 1 ==> Edge(s, s.stack[i], s.stack[i + 1]))
    && (forall l :: l in s.onPath <==> OnPath(s, l))
    && (forall i :: 0 <= i < |s.cycles| ==> Report(s, s.cycles[i]))
  }

  /** The path holds the open libraries, and the label of the root until a library
      of that name is entered: leaving it takes the label away. */
  predicate OnPath(s: Walk, soname: string) {
    Lib(soname) in s.stack || (soname == ROOT && Lib(ROOT) !in s.objects)
  }

  /** A reported pair that names a walked library is a back edge; any other names
      the label of the root. */
  ghost predicate Report(s: Walk, c: (string, string)) {
    Listed(s, c.1) && if Lib(c.1) in s.objects then BackEdge(s, c) else c.1 == ROOT
  }

  /** A reported pair is an edge to a library from which its source is reached. */
  ghost predicate BackEdge(s: Walk, c: (string, string)) {
    exists p :: IsPath(s, p) && p[0] == Lib(c.1) && Label(p[|p| - 1]) == c.0 && Needs(s, p[|p| - 1], c.1)
  }

  /** Below the cap: what a closed object needs is listed with it as a dependant,
      and was closed before it, or the edge was reported. */
  ghost predicate Closed(s: Walk, i: nat)
    requires i < |s.finished|
  {
    var n := s.finished[i];
    forall soname :: Needs(s, n, soname) ==>
      && ListedFor(s, soname, n)
      && (Lib(soname) in s.objects ==> Lib(soname) in s.finished[..i] || (Label(n), soname) in s.cycles)
  }

  ghost predicate Inv(w: World, o: Options, s: Walk) {
    && DepsSound(w, o, s) && NodesSound(o, s) && PathSound(s)
    && (|s.deps| < o.maxNodes ==> forall i :: 0 <= i < |s.finished| ==> Closed(s, i))
  }

  /** The first `i` needed names of the open object are dealt with. */
  ghost predicate Processed(s: Walk, n: Node, i: nat) {
    n in s.objects && i <= |s.objects[n].info.needed|
    && forall j :: 0 <= j < i ==> Processed1(s, n, s.objects[n].info.needed[j])
  }

  ghost predicate Processed1(s: Walk, n: Node, soname: string) {
    && ListedFor(s, soname, n)
    && (Lib(soname) in s.objects ==> Lib(soname) in s.finished || (Label(n), soname) in s.cycles)
  }

  predicate GrownDependency(d: Dependency, d': Dependency) {
    d' == d.(neededBy := d'.neededBy) && d.neededBy <= d'.neededBy
  }

  /** How a walk grows: nothing that was found, entered, closed or reported is lost. */
  ghost predicate Grows(s: Walk, r: Walk) {
    && |s.deps| <= |r.deps|
    && (forall i :: 0 <= i < |s.deps| ==> GrownDependency(s.deps[i], r.deps[i]))
    && (forall n :: n in s.objects ==> n in r.objects && r.objects[n] == s.objects[n])
    && s.finished <= r.finished && s.cycles <= r.cycles
  }

  lemma GrowsTransitive(s: Walk, r: Walk, t: Walk)
    requires Grows(s, r) && Grows(r, t)
    ensures Grows(s, t)
  {
    forall i | 0 <= i < |s.deps| ensures GrownDependency(s.deps[i], t.deps[i]) {
      assert GrownDependency(s.deps[i], r.deps[i]) && GrownDependency(r.deps[i], t.deps[i]);
    }
  }

  lemma GrowsListed(s: Walk, r: Walk, soname: string)
    requires Grows(s, r)
    ensures Listed(s, soname) ==> Listed(r, soname)
    ensures forall n :: ListedFor(s, soname, n) ==> ListedFor(r, soname, n)
  {
    forall x | Listed(s, x) ensures Listed(r, x) {
      var i :| 0 <= i < |s.deps| && s.deps[i].soname == x;
      assert GrownDependency(s.deps[i], r.deps[i]) && r.deps[i].soname == x;
    }
    forall n | ListedFor(s, soname, n) ensures ListedFor(r, soname, n) {
      var i :| 0 <= i < |s.deps| && s.deps[i].soname == soname && Label(n) in s.deps[i].neededBy;
      assert GrownDependency(s.deps[i], r.deps[i]) && r.deps[i].soname == soname;
    }
  }

  /** What was listed and not walked is not walked later. */
  ghost predicate StaysUnwalked(s: Walk, r: Walk) {
    forall x :: Listed(s, x) && Lib(x) in r.objects ==> Lib(x) in s.objects
  }

  lemma WalkedEntryWas(o: Options, was: seq<Dependency>, now: seq<Dependency>, i: nat)
    requires DistinctSonames(now) && i < |was| <= |now| && GrownDependency(was[i], now[i])
    requires WalkedEntry(o, now, was[i].soname)
    ensures Walked(o, was[i])
  {
    var j :| 0 <= j < |now| && now[j].soname == was[i].soname && Walked(o, now[j]);
    assert now[i].soname == now[j].soname;
  }

  lemma WalkedOnDiscovery(w: World, o: Options, s: Walk, r: Walk)
    requires DepsSound(w, o, s) && DepsSound(w, o, r) && NodesSound(o, r) && Grows(s, r)
    ensures StaysUnwalked(s, r)
  {
    forall x | Listed(s, x) && Lib(x) in r.objects ensures Lib(x) in s.objects {
      var i :| 0 <= i < |s.deps| && s.deps[i].soname == x;
      assert WalkedEntry(o, r.deps, x) && GrownDependency(s.deps[i], r.deps[i]);
      WalkedEntryWas(o, s.deps, r.deps, i);
      assert DependencySound(w, o, s, s.deps[i]);
    }
  }

  lemma Processed1Grows(s: Walk, r: Walk, n: Node, soname: string)
    requires Grows(s, r) && StaysUnwalked(s, r) && Processed1(s, n, soname)
    ensures Processed1(r, n, soname)
  {
    GrowsListed(s, r, soname);
    assert Listed(s, soname);
  }

  lemma ProcessedGrows(s: Walk, r: Walk, n: Node, i: nat)
    requires Grows(s, r) && StaysUnwalked(s, r) && Processed(s, n, i)
    ensures Processed(r, n, i)
  {
    forall j | 0 <= j < i ensures Processed1(r, n, r.objects[n].info.needed[j]) {
      Processed1Grows(s, r, n, s.objects[n].info.needed[j]);
    }
  }

  lemma ClosedGrows(s: Walk, r: Walk, i: nat)
    requires Grows(s, r) && StaysUnwalked(s, r)
    requires i < |s.finished| && s.finished[i] in s.objects && Closed(s, i)
    ensures Closed(r, i)
  {
    var n := s.finished[i];
    assert r.finished[i] == n && r.finished[..i] == s.finished[..i];
    forall soname | Needs(r, n, soname)
      ensures ListedFor(r, soname, n)
      ensures Lib(soname) in r.objects ==> Lib(soname) in r.finished[..i] || (Label(n), soname) in r.cycles
    {
      assert Needs(s, n, soname);
      GrowsListed(s, r, soname);
      assert Listed(s, soname);
    }
  }

  lemma BackEdgeGrows(s: Walk, r: Walk, c: (string, string))
    requires Grows(s, r) && BackEdge(s, c)
    ensures BackEdge(r, c)
  {
    var p :| IsPath(s, p) && p[0] == Lib(c.1) && Label(p[|p| - 1]) == c.0 && Needs(s, p[|p| - 1], c.1);
    forall i | 0 <= i < |p| - 1 ensures Edge(r, p[i], p[i + 1]) {
      assert Edge(s, p[i], p[i + 1]);
    }
    assert IsPath(r, p);
  }

  lemma ReportGrows(s: Walk, r: Walk, c: (string, string))
    requires Grows(s, r) && Report(s, c) && (Lib(c.1) in r.objects ==> Lib(c.1) in s.objects)
    ensures Report(r, c)
  {
    GrowsListed(s, r, c.1);
    if Lib(c.1) in s.objects {
      BackEdgeGrows(s, r, c);
    }
  }

  lemma DependencySoundGrows(w: World, o: Options, s: Walk, r: Walk, d: Dependency)
    requires Grows(s, r) && DependencySound(w, o, s, d)
    ensures DependencySound(w, o, r, d)
  {
    var n :| Needs(s, n, d.soname)
      && d == Discover(w, o, s.objects[n], d.soname, Label(n)).(neededBy := d.neededBy);
    assert Needs(r, n, d.soname);
    forall l | l in d.neededBy ensures exists m :: Label(m) == l && Needs(r, m, d.soname) {
      var m :| Label(m) == l && Needs(s, m, d.soname);
      assert Needs(r, m, d.soname);
    }
  }

  // ------------------------------------------------------- one needed soname

  /** `node` is the object being visited, and its first `i` needs are dealt with. */
  ghost predicate AtWork(w: World, o: Options, s: Walk, node: Node, obj: Object, i: nat) {
    && Inv(w, o, s)
    && s.stack != [] && s.stack[|s.stack| - 1] == node
    && node in s.objects && s.objects[node] == obj && i <= |obj.info.needed|
    && (|s.deps| < o.maxNodes ==> Processed(s, node, i))
  }

  lemma MeetAgainGrows(s: Walk, at: nat, node: Node)
    requires at < |s.deps|
    ensures Grows(s, MeetAgain(s, at, node))
  {
  }

  lemma InvFromParts(w: World, o: Options, s: Walk, r: Walk)
    requires Inv(w, o, s) && Grows(s, r) && r.finished == s.finished
    requires DepsSound(w, o, r) && NodesSound(o, r) && PathSound(r)
    ensures Inv(w, o, r)
    ensures StaysUnwalked(s, r)
  {
    WalkedOnDiscovery(w, o, s, r);
    if |r.deps| < o.maxNodes {
      forall i | 0 <= i < |r.finished| ensures Closed(r, i) {
        assert Closed(s, i) && s.finished[i] in s.finished;
        ClosedGrows(s, r, i);
      }
    }
  }

  lemma AddDependantSound(w: World, o: Options, s: Walk, d: Dependency, node: Node)
    requires DependencySound(w, o, s, d) && Needs(s, node, d.soname)
    ensures DependencySound(w, o, s, d.(neededBy := AddOnce(d.neededBy, Label(node))))
  {
    var d' := d.(neededBy := AddOnce(d.neededBy, Label(node)));
    var n :| Needs(s, n, d.soname)
      && d == Discover(w, o, s.objects[n], d.soname, Label(n)).(neededBy := d.neededBy);
    assert Needs(s, n, d'.soname)
      && d' == Discover(w, o, s.objects[n], d'.soname, Label(n)).(neededBy := d'.neededBy);
    forall l | l in d'.neededBy ensures exists m :: Label(m) == l && Needs(s, m, d'.soname) {
      if l in d.neededBy {
        var m :| Label(m) == l && Needs(s, m, d.soname);
        assert Label(m) == l && Needs(s, m, d'.soname);
      } else {
        assert Label(node) == l && Needs(s, node, d'.soname);
      }
    }
  }

  lemma WalkedEntryGrows(o: Options, s: Walk, r: Walk, soname: string)
    requires Grows(s, r) && WalkedEntry(o, s.deps, soname)
    ensures WalkedEntry(o, r.deps, soname)
  {
    var j :| 0 <= j < |s.deps| && s.deps[j].soname == soname && Walked(o, s.deps[j]);
    assert GrownDependency(s.deps[j], r.deps[j]);
  }

  lemma MeetAgainSound(w: World, o: Options, s: Walk, at: nat, node: Node, i: nat)
    requires DepsSound(w, o, s) && at < |s.deps| && Needs(s, node, s.deps[at].soname) && i < |s.deps|
    ensures DependencySound(w, o, MeetAgain(s, at, node), MeetAgain(s, at, node).deps[i])
  {
    var r := MeetAgain(s, at, node);
    MeetAgainGrows(s, at, node);
    assert DependencySound(w, o, s, s.deps[i]);
    DependencySoundGrows(w, o, s, r, s.deps[i]);
    if i == at {
      AddDependantSound(w, o, r, s.deps[at], node);
    }
  }

  lemma MeetAgainDeps(w: World, o: Options, s: Walk, at: nat, node: Node)
    requires DepsSound(w, o, s) && NodesSound(o, s) && at < |s.deps| && Needs(s, node, s.deps[at].soname)
    ensures DepsSound(w, o, MeetAgain(s, at, node)) && NodesSound(o, MeetAgain(s, at, node))
  {
    hide DependencySound, WalkedEntry, Grows;
    var r := MeetAgain(s, at, node);
    MeetAgainGrows(s, at, node);
    forall i | 0 <= i < |r.deps| ensures DependencySound(w, o, r, r.deps[i]) {
      MeetAgainSound(w, o, s, at, node, i);
    }
    assert DistinctSonames(r.deps) by {
      assert forall i :: 0 <= i < |s.deps| ==> r.deps[i].soname == s.deps[i].soname;
    }
    forall n | n in r.objects && n.Lib? ensures WalkedEntry(o, r.deps, n.soname) {
      WalkedEntryGrows(o, s, r, n.soname);
    }
  }

  /** A library on the stack is an ancestor of the node on top. */
  lemma OpenIsAncestor(s: Walk, node: Node, soname: string)
    requires PathSound(s) && Lib(soname) in s.stack
    requires forall n :: n in s.stack ==> n in s.objects
    requires s.stack != [] && s.stack[|s.stack| - 1] == node && Needs(s, node, soname)
    ensures BackEdge(s, (Label(node), soname))
  {
    hide BackEdge, Edge;
    var k :| 0 <= k < |s.stack| && s.stack[k] == Lib(soname);
    var p := s.stack[k..];
    forall i | 0 <= i < |p| - 1 ensures Edge(s, p[i], p[i + 1]) {
      assert Edge(s, s.stack[k + i], s.stack[k + i + 1]);
    }
    assert IsPath(s, p) && p[|p| - 1] == node;
    PathBack(s, p, soname);
  }

  lemma PathBack(s: Walk, p: seq<Node>, soname: string)
    requires IsPath(s, p) && p[0] == Lib(soname) && Needs(s, p[|p| - 1], soname)
    ensures BackEdge(s, (Label(p[|p| - 1]), soname))
  {
  }

  lemma ProcessedNext(s: Walk, n: Node, i: nat)
    requires Processed(s, n, i) && i < |s.objects[n].info.needed|
    requires Processed1(s, n, s.objects[n].info.needed[i])
    ensures Processed(s, n, i + 1)
  {
  }

  lemma MeetAgainInv(w: World, o: Options, s: Walk, node: Node, at: nat)
    requires Inv(w, o, s) && at < |s.deps| && Needs(s, node, s.deps[at].soname)
    requires s.stack != [] && s.stack[|s.stack| - 1] == node
    ensures Inv(w, o, MeetAgain(s, at, node)) && StaysUnwalked(s, MeetAgain(s, at, node))
  {
    MeetAgainGrows(s, at, node);
    MeetAgainDeps(w, o, s, at, node);
    MeetAgainPath(s, at, node);
    InvFromParts(w, o, s, MeetAgain(s, at, node));
  }

  lemma MeetAgainKeeps(w: World, o: Options, s: Walk, node: Node, obj: Object, i: nat, at: nat)
    requires AtWork(w, o, s, node, obj, i) && i < |obj.info.needed|
    requires at < |s.deps| && s.deps[at].soname == obj.info.needed[i]
    ensures AtWork(w, o, MeetAgain(s, at, node), node, obj, i + 1)
    ensures Grows(s, MeetAgain(s, at, node))
  {
    var r := MeetAgain(s, at, node);
    MeetAgainGrows(s, at, node);
    assert Needs(s, node, obj.info.needed[i]);
    MeetAgainInv(w, o, s, node, at);
    if |r.deps| < o.maxNodes {
      ProcessedGrows(s, r, node, i);
      MeetAgainProcesses(s, at, node);
      ProcessedNext(r, node, i);
    }
  }

  lemma MeetAgainPath(s: Walk, at: nat, node: Node)
    requires PathSound(s) && at < |s.deps| && Needs(s, node, s.deps[at].soname)
    requires forall n :: n in s.stack ==> n in s.objects
    requires s.stack != [] && s.stack[|s.stack| - 1] == node
    ensures PathSound(MeetAgain(s, at, node))
  {
    hide BackEdge, Edge;
    var r, x := MeetAgain(s, at, node), s.deps[at].soname;
    MeetAgainGrows(s, at, node);
    assert Listed(s, x);
    forall i | 0 <= i < |r.cycles| ensures Report(r, r.cycles[i]) {
      if i == |s.cycles| {
        assert OnPath(s, x);
        if Lib(x) in s.stack {
          OpenIsAncestor(s, node, x);
        }
        ReportGrows(s, r, (Label(node), x));
      } else {
        ReportGrows(s, r, s.cycles[i]);
      }
    }
    forall i | 0 <= i < |r.stack| - 1 ensures Edge(r, r.stack[i], r.stack[i + 1]) {
      assert Edge(s, s.stack[i], s.stack[i + 1]);
      EdgeGrows(s, r, s.stack[i], s.stack[i + 1]);
    }
  }

  lemma EdgeGrows(s: Walk, r: Walk, a: Node, b: Node)
    requires Grows(s, r) && Edge(s, a, b)
    ensures Edge(r, a, b)
  {
  }

  lemma MeetAgainProcesses(s: Walk, at: nat, node: Node)
    requires PathSound(s) && at < |s.deps|
    requires forall n :: n in s.objects <==> n in s.stack || n in s.finished
    ensures Processed1(MeetAgain(s, at, node), node, s.deps[at].soname)
  {
    var r, x := MeetAgain(s, at, node), s.deps[at].soname;
    assert r.deps[at].soname == x && Label(node) in r.deps[at].neededBy;
    if Lib(x) in s.stack {
      assert OnPath(s, x);
      assert r.cycles[|r.cycles| - 1] == (Label(node), x);
    }
  }

  // ------------------------------------------------------------ a new soname

  lemma UnlistedIsNew(o: Options, s: Walk, soname: string)
    requires NodesSound(o, s) && !Listed(s, soname)
    ensures Lib(soname) !in s.objects && Lib(soname) !in s.stack && Lib(soname) !in s.finished
  {
    forall n | n in s.objects && n.Lib? ensures Listed(s, n.soname) {
      assert WalkedEntry(o, s.deps, n.soname);
    }
  }

  lemma OpenGrows(w: World, o: Options, s: Walk, d: Dependency)
    requires NodesSound(o, s) && !Listed(s, d.soname)
    ensures Grows(s, Open(w, o, s, d))
  {
    UnlistedIsNew(o, s, d.soname);
    forall i | 0 <= i < |s.deps| ensures GrownDependency(s.deps[i], Open(w, o, s, d).deps[i]) {
    }
  }

  lemma OpenDeps(w: World, o: Options, s: Walk, node: Node, d: Dependency)
    requires DepsSound(w, o, s) && NodesSound(o, s) && |s.deps| < o.maxNodes && !Listed(s, d.soname)
    requires Needs(s, node, d.soname) && d == Discover(w, o, s.objects[node], d.soname, Label(node))
    ensures DepsSound(w, o, Open(w, o, s, d))
  {
    hide DependencySound, NodesSound, Grows, Discover;
    var r := Open(w, o, s, d);
    OpenGrows(w, o, s, d);
    forall i | 0 <= i < |r.deps| ensures DependencySound(w, o, r, r.deps[i]) {
      if i < |s.deps| {
        assert DependencySound(w, o, s, s.deps[i]);
        DependencySoundGrows(w, o, s, r, s.deps[i]);
      } else {
        OpenedSound(w, o, s, node, d);
      }
    }
  }

  lemma OpenedSound(w: World, o: Options, s: Walk, node: Node, d: Dependency)
    requires NodesSound(o, s) && !Listed(s, d.soname)
    requires Needs(s, node, d.soname) && d == Discover(w, o, s.objects[node], d.soname, Label(node))
    ensures DependencySound(w, o, Open(w, o, s, d), d)
  {
    var r := Open(w, o, s, d);
    OpenGrows(w, o, s, d);
    assert Needs(r, node, d.soname) && d == d.(neededBy := d.neededBy);
  }

  lemma OpenNodes(w: World, o: Options, s: Walk, d: Dependency)
    requires NodesSound(o, s) && !Listed(s, d.soname)
    ensures NodesSound(o, Open(w, o, s, d))
  {
    var r := Open(w, o, s, d);
    OpenGrows(w, o, s, d);
    UnlistedIsNew(o, s, d.soname);
    forall n | n in r.objects && n.Lib? ensures WalkedEntry(o, r.deps, n.soname) {
      if n in s.objects {
        WalkedEntryGrows(o, s, r, n.soname);
      } else {
        assert r.deps[|s.deps|] == d;
      }
    }
  }

  lemma OpenPath(w: World, o: Options, s: Walk, node: Node, d: Dependency)
    requires PathSound(s) && NodesSound(o, s) && !Listed(s, d.soname) && Needs(s, node, d.soname)
    requires s.stack != [] && s.stack[|s.stack| - 1] == node
    ensures PathSound(Open(w, o, s, d))
  {
    var r := Open(w, o, s, d);
    OpenGrows(w, o, s, d);
    UnlistedIsNew(o, s, d.soname);
    forall i | 0 <= i < |r.stack| - 1 ensures Edge(r, r.stack[i], r.stack[i + 1]) {
      if i < |s.stack| - 1 {
        assert Edge(s, s.stack[i], s.stack[i + 1]);
      } else {
        assert Needs(r, node, d.soname);
      }
    }
    forall i | 0 <= i < |r.cycles| ensures Report(r, r.cycles[i]) {
      assert Report(s, s.cycles[i]);
      ReportGrows(s, r, s.cycles[i]);
    }
    forall l ensures l in r.onPath <==> OnPath(r, l) {
      assert l in s.onPath <==> OnPath(s, l);
    }
  }

  lemma OpenInv(w: World, o: Options, s: Walk, node: Node, d: Dependency)
    requires Inv(w, o, s) && |s.deps| < o.maxNodes && !Listed(s, d.soname)
    requires Needs(s, node, d.soname) && d == Discover(w, o, s.objects[node], d.soname, Label(node))
    requires s.stack != [] && s.stack[|s.stack| - 1] == node
    ensures Inv(w, o, Open(w, o, s, d)) && Grows(s, Open(w, o, s, d)) && StaysUnwalked(s, Open(w, o, s, d))
  {
    OpenGrows(w, o, s, d);
    OpenDeps(w, o, s, node, d);
    OpenNodes(w, o, s, d);
    OpenPath(w, o, s, node, d);
    InvFromParts(w, o, s, Open(w, o, s, d));
  }

  // ------------------------------------------------------ closing an object

  lemma LeaveGrows(s: Walk, soname: string)
    requires s.stack != []
    ensures Grows(s, Leave(s, soname))
  {
    forall i | 0 <= i < |s.deps| ensures GrownDependency(s.deps[i], Leave(s, soname).deps[i]) {
    }
  }

  lemma LeaveNodes(o: Options, s: Walk, soname: string)
    requires NodesSound(o, s) && s.stack != [] && s.stack[|s.stack| - 1] == Lib(soname)
    ensures NodesSound(o, Leave(s, soname))
  {
    var r, k := Leave(s, soname), |s.stack| - 1;
    assert s.stack == s.stack[..k] + [Lib(soname)];
    assert s.stack[k] in s.stack && Lib(soname) !in s.finished;
    assert NoRepeats(r.finished) && NoRepeats(r.stack);
    assert Lib(soname) !in r.stack;
  }

  lemma LeavePath(o: Options, s: Walk, soname: string)
    requires NodesSound(o, s) && PathSound(s) && Listed(s, soname)
    requires s.stack != [] && s.stack[|s.stack| - 1] == Lib(soname)
    ensures PathSound(Leave(s, soname))
  {
    hide Edge, Report, Grows, WalkedEntry, Listed;
    var r, k := Leave(s, soname), |s.stack| - 1;
    LeaveGrows(s, soname);
    assert s.stack == s.stack[..k] + [Lib(soname)];
    forall i | 0 <= i < |r.stack| - 1 ensures Edge(r, r.stack[i], r.stack[i + 1]) {
      assert Edge(s, s.stack[i], s.stack[i + 1]);
      EdgeGrows(s, r, s.stack[i], s.stack[i + 1]);
    }
    forall i | 0 <= i < |r.cycles| ensures Report(r, r.cycles[i]) {
      assert Report(s, s.cycles[i]);
      ReportGrows(s, r, s.cycles[i]);
    }
    assert s.stack[k] in s.stack && Lib(soname) in s.objects;
    assert Lib(soname) !in r.stack;
    forall l ensures l in r.onPath <==> OnPath(r, l) {
      assert l in s.onPath <==> OnPath(s, l);
      assert l != soname ==> (Lib(l) in r.stack <==> Lib(l) in s.stack);
    }
  }

  lemma LeaveClosed(s: Walk, soname: string)
    requires Lib(soname) in s.objects && Processed(s, Lib(soname), |s.objects[Lib(soname)].info.needed|)
    requires s.stack != [] && s.stack[|s.stack| - 1] == Lib(soname)
    ensures Closed(Leave(s, soname), |s.finished|)
  {
    var r, n := Leave(s, soname), Lib(soname);
    LeaveGrows(s, soname);
    assert r.finished[|s.finished|] == n && r.finished[..|s.finished|] == s.finished;
    forall x | Needs(r, n, x)
      ensures ListedFor(r, x, n)
      ensures Lib(x) in r.objects ==> Lib(x) in r.finished[..|s.finished|] || (Label(n), x) in r.cycles
    {
      var j :| 0 <= j < |s.objects[n].info.needed| && s.objects[n].info.needed[j] == x;
      assert Processed1(s, n, x);
    }
  }

  lemma LeaveDeps(w: World, o: Options, s: Walk, soname: string)
    requires DepsSound(w, o, s) && s.stack != []
    ensures DepsSound(w, o, Leave(s, soname))
  {
    LeaveGrows(s, soname);
    forall i | 0 <= i < |s.deps| ensures DependencySound(w, o, Leave(s, soname), s.deps[i]) {
      assert DependencySound(w, o, s, s.deps[i]);
      DependencySoundGrows(w, o, s, Leave(s, soname), s.deps[i]);
    }
  }

  lemma LeaveInv(w: World, o: Options, s: Walk, soname: string)
    requires Inv(w, o, s) && Listed(s, soname) && Lib(soname) in s.objects
    requires s.stack != [] && s.stack[|s.stack| - 1] == Lib(soname)
    requires |s.deps| < o.maxNodes ==> Processed(s, Lib(soname), |s.objects[Lib(soname)].info.needed|)
    ensures Inv(w, o, Leave(s, soname)) && Grows(s, Leave(s, soname))
  {
    hide DepsSound, NodesSound, PathSound, Grows, Closed, Processed;
    var r := Leave(s, soname);
    LeaveGrows(s, soname);
    LeaveDeps(w, o, s, soname);
    LeaveNodes(o, s, soname);
    LeavePath(o, s, soname);
    WalkedOnDiscovery(w, o, s, r);
    if |r.deps| < o.maxNodes {
      forall i | 0 <= i < |r.finished| ensures Closed(r, i) {
        if i < |s.finished| {
          assert Closed(s, i) && s.finished[i] in s.finished;
          ClosedGrows(s, r, i);
        } else {
          LeaveClosed(s, soname);
        }
      }
    }
  }

  // ------------------------------------------------------------- the whole walk

  ghost predicate Kept(w: World, o: Options, s: Walk, r: Walk, node: Node, obj: Object) {
    && Inv(w, o, r) && Grows(s, r) && r.stack == s.stack
    && (|r.deps| < o.maxNodes ==> Processed(r, node, |obj.info.needed|))
  }

  lemma GrowsReflexive(s: Walk)
    ensures Grows(s, s)
  {
    forall i | 0 <= i < |s.deps| ensures GrownDependency(s.deps[i], s.deps[i]) {
    }
  }

  lemma KeptAtEnd(w: World, o: Options, s: Walk, node: Node, obj: Object, i: nat)
    requires AtWork(w, o, s, node, obj, i) && (i == |obj.info.needed| || |s.deps| >= o.maxNodes)
    ensures Kept(w, o, s, s, node, obj)
  {
    GrowsReflexive(s);
  }

  lemma KeptLater(w: World, o: Options, s: Walk, s2: Walk, r: Walk, node: Node, obj: Object)
    requires Grows(s, s2) && s2.stack == s.stack && Kept(w, o, s2, r, node, obj)
    ensures Kept(w, o, s, r, node, obj)
  {
    GrowsTransitive(s, s2, r);
  }

  lemma {:induction false} VisitFromKeeps(w: World, o: Options, s: Walk, node: Node, obj: Object, i: nat)
    requires i <= |obj.info.needed| && AtWork(w, o, s, node, obj, i)
    ensures Kept(w, o, s, VisitFrom(w, o, s, node, obj, i), node, obj)
    decreases if |s.deps| < o.maxNodes then o.maxNodes - |s.deps| else 0, |obj.info.needed| - i
  {
    if i == |obj.info.needed| {
      KeptAtEnd(w, o, s, node, obj, i);
      return;
    }
    var at := Find(s.deps, obj.info.needed[i]);
    if at.None? && |s.deps| >= o.maxNodes {
      KeptAtEnd(w, o, s, node, obj, i);
      return;
    }
    var s2;
    if at.Some? {
      s2 := MeetAgain(s, at.value, node);
      MeetAgainKeeps(w, o, s, node, obj, i, at.value);
    } else {
      s2 := DiscoverKeeps(w, o, s, node, obj, i);
    }
    VisitFromKeeps(w, o, s2, node, obj, i + 1);
    KeptLater(w, o, s, s2, VisitFrom(w, o, s2, node, obj, i + 1), node, obj);
  }

  lemma {:induction false} VisitKeeps(w: World, o: Options, s: Walk, node: Node, obj: Object)
    requires AtWork(w, o, s, node, obj, 0)
    ensures Kept(w, o, s, Visit(w, o, s, node, obj), node, obj)
    decreases if |s.deps| < o.maxNodes then o.maxNodes - |s.deps| else 0, |obj.info.needed| + 1
  {
    if |s.deps| < o.maxNodes {
      VisitFromKeeps(w, o, s, node, obj, 0);
    } else {
      KeptAtEnd(w, o, s, node, obj, 0);
    }
  }

  lemma OpenAtWork(w: World, o: Options, s: Walk, node: Node, obj: Object, i: nat, d: Dependency)
    requires AtWork(w, o, s, node, obj, i) && i < |obj.info.needed| && |s.deps| < o.maxNodes
    requires d == Discover(w, o, obj, obj.info.needed[i], Label(node)) && !Listed(s, d.soname)
    ensures var s1 := Open(w, o, s, d);
      && Inv(w, o, s1) && Grows(s, s1) && Listed(s1, d.soname)
      && (Walked(o, d) ==> AtWork(w, o, s1, Lib(d.soname), ObjectOf(w, d), 0))
  {
    assert Needs(s, node, d.soname);
    OpenInv(w, o, s, node, d);
    assert Open(w, o, s, d).deps[|s.deps|] == d;
  }

  lemma CloseKeeps(w: World, o: Options, s: Walk, s1: Walk, r: Walk, d: Dependency)
    requires Walked(o, d) && s1 == Open(w, o, s, d) && Grows(s, s1) && Listed(s1, d.soname)
    requires Kept(w, o, s1, r, Lib(d.soname), ObjectOf(w, d))
    ensures var s2 := Leave(r, d.soname);
      Inv(w, o, s2) && Grows(s1, s2) && Grows(s, s2) && s2.stack == s.stack && Lib(d.soname) in s2.finished
  {
    GrowsListed(s1, r, d.soname);
    LeaveInv(w, o, r, d.soname);
    GrowsTransitive(s1, r, Leave(r, d.soname));
    GrowsTransitive(s, s1, Leave(r, d.soname));
  }

  /** Discovery of `obj.info.needed[i]`, with everything below it. */
  lemma {:induction false} DiscoverKeeps(w: World, o: Options, s: Walk, node: Node, obj: Object, i: nat)
    returns (s2: Walk)
    requires AtWork(w, o, s, node, obj, i) && i < |obj.info.needed| && |s.deps| < o.maxNodes
    requires Find(s.deps, obj.info.needed[i]).None?
    ensures var d := Discover(w, o, obj, obj.info.needed[i], Label(node)); var s1 := Open(w, o, s, d);
      s2 == if Walked(o, d) then Leave(Visit(w, o, s1, Lib(d.soname), ObjectOf(w, d)), d.soname) else s1
    ensures AtWork(w, o, s2, node, obj, i + 1) && Grows(s, s2) && |s.deps| < |s2.deps| && s2.stack == s.stack
    decreases if |s.deps| < o.maxNodes then o.maxNodes - |s.deps| else 0, 0
  {
    var d := Discover(w, o, obj, obj.info.needed[i], Label(node));
    var s1 := Open(w, o, s, d);
    OpenAtWork(w, o, s, node, obj, i, d);
    s2 := s1;
    if Walked(o, d) {
      VisitKeeps(w, o, s1, Lib(d.soname), ObjectOf(w, d));
      var r := Visit(w, o, s1, Lib(d.soname), ObjectOf(w, d));
      CloseKeeps(w, o, s, s1, r, d);
      s2 := Leave(r, d.soname);
    } else {
      GrowsReflexive(s1);
    }
    DiscoverProcesses(w, o, s, s1, s2, node, obj, i);
  }

  lemma DiscoverProcesses(w: World, o: Options, s: Walk, s1: Walk, s2: Walk, node: Node, obj: Object, i: nat)
    requires AtWork(w, o, s, node, obj, i) && i < |obj.info.needed|
    requires var d := Discover(w, o, obj, obj.info.needed[i], Label(node));
      && s1 == Open(w, o, s, d)
      && (if Walked(o, d) then Lib(d.soname) in s2.finished else s2 == s1)
    requires Inv(w, o, s2) && Grows(s1, s2) && Grows(s, s2) && s2.stack == s.stack
    requires !Listed(s, obj.info.needed[i])
    ensures AtWork(w, o, s2, node, obj, i + 1)
  {
    var x := obj.info.needed[i];
    if |s2.deps| < o.maxNodes {
      WalkedOnDiscovery(w, o, s, s2);
      ProcessedGrows(s, s2, node, i);
      var d := Discover(w, o, obj, x, Label(node));
      assert s1.deps[|s.deps|] == d;
      assert ListedFor(s1, x, node);
      GrowsListed(s1, s2, x);
      UnlistedIsNew(o, s, x);
      assert Processed1(s2, node, x);
      ProcessedNext(s2, node, i);
    }
  }

  // ------------------------------------------------------------ the theorems

  lemma StartAtWork(w: World, o: Options, root: Object)
    ensures AtWork(w, o, Start(root), Root, root, 0)
  {
    var s := Start(root);
    assert forall l :: l in s.onPath <==> OnPath(s, l);
  }

  /** Every object but the root is that of an entry. */
  predicate LibrariesListed(o: Options, r: Walk) {
    forall n :: n in r.objects && n.Lib? ==> WalkedEntry(o, r.deps, n.soname)
  }

  /** A finished walk: nothing is open, everything entered is closed in order. */
  ghost predicate Complete(w: World, o: Options, r: Walk) {
    && DepsSound(w, o, r)
    && NoRepeats(r.finished) && (forall n :: n in r.objects <==> n in r.finished)
    && LibrariesListed(o, r)
    && (forall i :: 0 <= i < |r.cycles| ==> Report(r, r.cycles[i]))
    && (|r.deps| < o.maxNodes ==> forall i :: 0 <= i < |r.finished| ==> Closed(r, i))
  }

  lemma CloseRoot(w: World, o: Options, s: Walk, r: Walk)
    requires Inv(w, o, s) && s.stack == [Root] && Root in s.objects
    requires |s.deps| < o.maxNodes ==> Processed(s, Root, |s.objects[Root].info.needed|)
    requires r == s.(stack := [], finished := s.finished + [Root])
    ensures DepsSound(w, o, r)
    ensures forall i :: 0 <= i < |r.cycles| ==> Report(r, r.cycles[i])
    ensures |r.deps| < o.maxNodes ==> forall i :: 0 <= i < |r.finished| ==> Closed(r, i)
  {
    assert Grows(s, r) by { GrowsReflexive(s); }
    forall i | 0 <= i < |s.deps| ensures DependencySound(w, o, r, r.deps[i]) {
      assert DependencySound(w, o, s, s.deps[i]);
      DependencySoundGrows(w, o, s, r, s.deps[i]);
    }
    forall i | 0 <= i < |r.cycles| ensures Report(r, r.cycles[i]) {
      assert Report(s, s.cycles[i]);
      ReportGrows(s, r, s.cycles[i]);
    }
    assert StaysUnwalked(s, r);
    forall i | |r.deps| < o.maxNodes && 0 <= i < |r.finished| ensures Closed(r, i) {
      if i < |s.finished| {
        assert Closed(s, i) && s.finished[i] in s.finished;
        ClosedGrows(s, r, i);
      } else {
        RootClosed(s, r);
      }
    }
  }

  lemma RootClosed(s: Walk, r: Walk)
    requires Root in s.objects && Processed(s, Root, |s.objects[Root].info.needed|) && Grows(s, r)
    requires r == s.(stack := [], finished := s.finished + [Root])
    ensures Closed(r, |s.finished|)
  {
    assert r.finished[..|s.finished|] == s.finished;
    forall x | Needs(r, Root, x)
      ensures ListedFor(r, x, Root)
      ensures Lib(x) in r.objects ==> Lib(x) in r.finished[..|s.finished|] || (Label(Root), x) in r.cycles
    {
      var j :| 0 <= j < |s.objects[Root].info.needed| && s.objects[Root].info.needed[j] == x;
      assert Processed1(s, Root, x);
    }
  }

  lemma WalkIsComplete(w: World, o: Options, root: Object)
    ensures Complete(w, o, WalkFrom(w, o, root))
    ensures var r := WalkFrom(w, o, root); Root in r.objects && r.objects[Root] == root
  {
    StartAtWork(w, o, root);
    VisitKeeps(w, o, Start(root), Root, root);
    var s, r := Visit(w, o, Start(root), Root, root), WalkFrom(w, o, root);
    assert s.stack == [Root] && Root in s.stack;
    assert Root in s.objects && s.objects[Root] == root;
    CloseRoot(w, o, s, r);
    assert NoRepeats(r.finished);
    forall n ensures n in r.objects <==> n in r.finished {
      assert n in r.objects <==> n in s.stack || n in s.finished;
    }
  }

  /** The cap holds and every soname is listed once, whatever the graph. */
  lemma CapHolds(w: World, o: Options, root: Object)
    ensures var r := WalkFrom(w, o, root);
      |r.deps| <= o.maxNodes && forall i, j :: 0 <= i < j < |r.deps| ==> r.deps[i].soname != r.deps[j].soname
  {
    WalkIsComplete(w, o, root);
  }

  /** Below the cap the list is closed: it holds exactly what the root and the
      walked libraries need, and the dependants of an entry are exactly those
      that need it, each once. */
  lemma ListIsExact(w: World, o: Options, root: Object)
    requires |WalkFrom(w, o, root).deps| < o.maxNodes
    ensures var r := WalkFrom(w, o, root);
      && (forall soname :: Listed(r, soname) <==> exists n :: Needs(r, n, soname))
      && (forall i :: 0 <= i < |r.deps| ==>
            && NoRepeats(r.deps[i].neededBy)
            && forall l :: l in r.deps[i].neededBy <==> exists n :: Label(n) == l && Needs(r, n, r.deps[i].soname))
      && (forall i :: 0 <= i < |r.deps| && Walked(o, r.deps[i]) ==>
            Lib(r.deps[i].soname) in r.objects
            && r.objects[Lib(r.deps[i].soname)] == ObjectOf(w, r.deps[i]))
  {
    WalkIsComplete(w, o, root);
    var r := WalkFrom(w, o, root);
    forall soname ensures Listed(r, soname) <==> exists n :: Needs(r, n, soname) {
      if Listed(r, soname) {
        var i :| 0 <= i < |r.deps| && r.deps[i].soname == soname;
        assert DependencySound(w, o, r, r.deps[i]);
      }
      if n :| Needs(r, n, soname) {
        NeedIsListed(w, o, r, n, soname);
      }
    }
    forall i | 0 <= i < |r.deps|
      ensures NoRepeats(r.deps[i].neededBy)
      ensures forall l :: l in r.deps[i].neededBy <==> exists n :: Label(n) == l && Needs(r, n, r.deps[i].soname)
      ensures Walked(o, r.deps[i]) ==>
                (Lib(r.deps[i].soname) in r.objects && r.objects[Lib(r.deps[i].soname)] == ObjectOf(w, r.deps[i]))
    {
      assert DependencySound(w, o, r, r.deps[i]);
      forall l | exists n :: Label(n) == l && Needs(r, n, r.deps[i].soname) ensures l in r.deps[i].neededBy {
        var n :| Label(n) == l && Needs(r, n, r.deps[i].soname);
        NeedIsListed(w, o, r, n, r.deps[i].soname);
      }
    }
  }

  lemma NeedIsListed(w: World, o: Options, r: Walk, n: Node, soname: string)
    requires Complete(w, o, r) && |r.deps| < o.maxNodes && Needs(r, n, soname)
    ensures Listed(r, soname)
    ensures forall i :: 0 <= i < |r.deps| && r.deps[i].soname == soname ==> Label(n) in r.deps[i].neededBy
  {
    hide LibrariesListed, DependencySound, Report;
    var k :| 0 <= k < |r.finished| && r.finished[k] == n;
    assert Closed(r, k);
    var j :| 0 <= j < |r.deps| && r.deps[j].soname == soname && Label(n) in r.deps[j].neededBy;
    forall i | 0 <= i < |r.deps| && r.deps[i].soname == soname ensures i == j {
      assert DistinctSonames(r.deps);
    }
  }

  function Rank(s: seq<Node>, n: Node): (k: nat)
    requires n in s
    ensures k < |s| && s[k] == n
  {
    if s[0] == n then 0 else 1 + Rank(s[1..], n)
  }

  lemma EdgeDescends(w: World, o: Options, r: Walk, a: Node, b: Node)
    requires Complete(w, o, r) && |r.deps| < o.maxNodes && !NamesWalked(r) && Edge(r, a, b)
    ensures a in r.finished && b in r.finished && Rank(r.finished, b) < Rank(r.finished, a)
  {
    hide LibrariesListed, DependencySound, Report;
    var k := Rank(r.finished, a);
    assert Closed(r, k) && Lib(b.soname) == b;
    assert b in r.finished[..k];
    var j :| 0 <= j < k && r.finished[j] == b;
    assert j == Rank(r.finished, b);
  }

  lemma {:induction false} PathDescends(w: World, o: Options, r: Walk, p: seq<Node>, k: nat)
    requires Complete(w, o, r) && |r.deps| < o.maxNodes && !NamesWalked(r)
    requires IsPath(r, p) && k < |p|
    ensures p[0] in r.finished && p[k] in r.finished && Rank(r.finished, p[k]) + k <= Rank(r.finished, p[0])
  {
    if k > 0 {
      PathDescends(w, o, r, p, k - 1);
      assert Edge(r, p[k - 1], p[k]);
      EdgeDescends(w, o, r, p[k - 1], p[k]);
    }
  }

  /** Every reported pair that names a walked library is an edge back to an ancestor
      and closes a cycle; any other names an unwalked `<root>`. */
  lemma ReportsAreCycles(w: World, o: Options, root: Object)
    ensures var r := WalkFrom(w, o, root);
      && (forall i :: 0 <= i < |r.cycles| ==>
            if Lib(r.cycles[i].1) in r.objects then BackEdge(r, r.cycles[i]) else r.cycles[i].1 == ROOT)
      && (NamesWalked(r) ==> Cyclic(r))
  {
    hide WalkFrom, BackEdge;
    WalkIsComplete(w, o, root);
    var r := WalkFrom(w, o, root);
    forall i | 0 <= i < |r.cycles|
      ensures if Lib(r.cycles[i].1) in r.objects then BackEdge(r, r.cycles[i]) else r.cycles[i].1 == ROOT
    {
      assert Report(r, r.cycles[i]);
    }
    if NamesWalked(r) {
      var i :| 0 <= i < |r.cycles| && Lib(r.cycles[i].1) in r.objects;
      BackEdgeIsCycle(r, r.cycles[i]);
    }
  }

  lemma BackEdgeIsCycle(r: Walk, c: (string, string))
    requires BackEdge(r, c)
    ensures Cyclic(r)
  {
    var p :| IsPath(r, p) && p[0] == Lib(c.1) && Label(p[|p| - 1]) == c.0 && Needs(r, p[|p| - 1], c.1);
    var q := p + [Lib(c.1)];
    forall i | 0 <= i < |q| - 1 ensures Edge(r, q[i], q[i + 1]) {
      if i < |p| - 1 {
        assert Edge(r, p[i], p[i + 1]);
      }
    }
    assert IsPath(r, q) && q[0] == q[|q| - 1];
  }

  /** Below the cap, whatever the names: some report names a walked library if and
      only if the graph of walked objects has a cycle. */
  lemma NamedReportsExact(w: World, o: Options, root: Object)
    requires |WalkFrom(w, o, root).deps| < o.maxNodes
    ensures NamesWalked(WalkFrom(w, o, root)) <==> Cyclic(WalkFrom(w, o, root))
  {
    hide WalkFrom;
    var r := WalkFrom(w, o, root);
    ReportsAreCycles(w, o, root);
    WalkIsComplete(w, o, root);
    if Cyclic(r) && !NamesWalked(r) {
      var p :| IsPath(r, p) && |p| > 1 && p[0] == p[|p| - 1];
      PathDescends(w, o, r, p, |p| - 1);
      assert false;
    }
  }

  // ------------------------------------------ how often `<root>` is reported

  function Mentions(needed: seq<string>): nat {
    if needed == [] then 0 else (if needed[0] == ROOT then 1 else 0) + Mentions(needed[1..])
  }

  /** How often the needed lists of these objects name `<root>`. */
  function AllMentions(objects: map<Node, Object>, nodes: seq<Node>): nat {
    if nodes == [] then 0
    else
      var n := nodes[|nodes| - 1];
      AllMentions(objects, nodes[..|nodes| - 1]) + if n in objects then Mentions(objects[n].info.needed) else 0
  }

  function RootReports(cycles: seq<(string, string)>): nat {
    if cycles == [] then 0
    else RootReports(cycles[..|cycles| - 1]) + if cycles[|cycles| - 1].1 == ROOT then 1 else 0
  }

  /** Every mention of an unwalked `<root>` but the first is reported. */
  function Tally(s: Walk): nat {
    RootReports(s.cycles) + if Listed(s, ROOT) then 1 else 0
  }

  lemma {:induction false} AllMentionsAppend(objects: map<Node, Object>, a: seq<Node>, b: seq<Node>)
    ensures AllMentions(objects, a + b) == AllMentions(objects, a) + AllMentions(objects, b)
  {
    if b == [] {
      assert a + b == a;
    } else {
      assert (a + b)[..|a + b| - 1] == a + b[..|b| - 1];
      AllMentionsAppend(objects, a, b[..|b| - 1]);
    }
  }

  lemma {:induction false} AllMentionsGrow(was: map<Node, Object>, now: map<Node, Object>, nodes: seq<Node>)
    requires forall n :: n in nodes ==> n in was && n in now && now[n] == was[n]
    ensures AllMentions(now, nodes) == AllMentions(was, nodes)
  {
    if nodes != [] {
      AllMentionsGrow(was, now, nodes[..|nodes| - 1]);
    }
  }

  /** What was closed between two states. */
  function ClosedSince(s: Walk, r: Walk): seq<Node> {
    if |s.finished| <= |r.finished| then r.finished[|s.finished|..] else []
  }

  lemma SinceThen(s: Walk, s2: Walk, r: Walk)
    requires Grows(s, s2) && Grows(s2, r) && forall n :: n in s2.finished ==> n in s2.objects
    ensures AllMentions(r.objects, ClosedSince(s, r)) ==
      AllMentions(s2.objects, ClosedSince(s, s2)) + AllMentions(r.objects, ClosedSince(s2, r))
  {
    var a, b := ClosedSince(s, s2), ClosedSince(s2, r);
    assert r.finished[..|s2.finished|] == s2.finished;
    assert ClosedSince(s, r) == a + b;
    AllMentionsAppend(r.objects, a, b);
    AllMentionsGrow(s2.objects, r.objects, a);
  }

  lemma MeetAgainTally(s: Walk, at: nat, node: Node)
    requires PathSound(s) && at < |s.deps| && Lib(ROOT) !in s.objects
    ensures Tally(MeetAgain(s, at, node)) == Tally(s) + if s.deps[at].soname == ROOT then 1 else 0
  {
    var r, x := MeetAgain(s, at, node), s.deps[at].soname;
    assert x in s.onPath <==> OnPath(s, x);
    assert Listed(r, ROOT) <==> Listed(s, ROOT) by {
      assert forall i :: 0 <= i < |s.deps| ==> r.deps[i].soname == s.deps[i].soname;
    }
    if x in s.onPath {
      assert r.cycles[..|r.cycles| - 1] == s.cycles;
    }
  }

  lemma OpenTally(w: World, o: Options, s: Walk, d: Dependency)
    requires !Listed(s, d.soname)
    ensures Tally(Open(w, o, s, d)) == Tally(s) + if d.soname == ROOT then 1 else 0
  {
    var r := Open(w, o, s, d);
    assert r.deps[|s.deps|] == d;
    assert forall i :: 0 <= i < |s.deps| ==> r.deps[i] == s.deps[i];
  }

  lemma LeaveTally(s: Walk, r: Walk, soname: string)
    requires s.finished <= r.finished && Lib(soname) in r.objects
    ensures var t := Leave(r, soname);
      && Tally(t) == Tally(r)
      && AllMentions(t.objects, ClosedSince(s, t)) ==
           AllMentions(r.objects, ClosedSince(s, r)) + Mentions(r.objects[Lib(soname)].info.needed)
  {
    var t := Leave(r, soname);
    assert ClosedSince(s, t)[..|ClosedSince(s, t)| - 1] == ClosedSince(s, r);
  }

  lemma NothingClosed(s: Walk, r: Walk)
    requires s.finished == r.finished
    ensures AllMentions(r.objects, ClosedSince(s, r)) == 0
  {
  }

  /** Where a library `<root>` is never walked, the walk from entry `i` on reports it
      once for each mention it meets, but for the one that lists it. */
  lemma {:induction false} VisitFromTally(w: World, o: Options, s: Walk, node: Node, obj: Object, i: nat)
    requires i <= |obj.info.needed| && AtWork(w, o, s, node, obj, i)
    requires var r := VisitFrom(w, o, s, node, obj, i); |r.deps| < o.maxNodes && Lib(ROOT) !in r.objects
    ensures var r := VisitFrom(w, o, s, node, obj, i);
      Tally(r) == Tally(s) + Mentions(obj.info.needed[i..]) + AllMentions(r.objects, ClosedSince(s, r))
    decreases if |s.deps| < o.maxNodes then o.maxNodes - |s.deps| else 0, |obj.info.needed| - i
  {
    hide Tally, AtWork, Kept, Inv, Grows, AllMentions, Visit;
    VisitFromKeeps(w, o, s, node, obj, i);
    var r := VisitFrom(w, o, s, node, obj, i);
    if i == |obj.info.needed| {
      NothingClosed(s, r);
      return;
    }
    assert obj.info.needed[i..][1..] == obj.info.needed[i + 1..];
    var x, at := obj.info.needed[i], Find(s.deps, obj.info.needed[i]);
    var s2;
    if at.Some? {
      s2 := MeetAgain(s, at.value, node);
      MeetAgainKeeps(w, o, s, node, obj, i, at.value);
      Subwalk(w, o, s, s2, r, node, obj, i);
      WorkIsSound(w, o, s, node, obj, i);
      MeetAgainTally(s, at.value, node);
      NothingClosed(s, s2);
    } else {
      s2 := DiscoverKeeps(w, o, s, node, obj, i);
      Subwalk(w, o, s, s2, r, node, obj, i);
      DiscoverTally(w, o, s, s2, node, obj, i);
    }
    VisitFromTally(w, o, s2, node, obj, i + 1);
    SinceThen(s, s2, r);
  }

  lemma WorkIsSound(w: World, o: Options, s: Walk, node: Node, obj: Object, i: nat)
    requires AtWork(w, o, s, node, obj, i)
    ensures PathSound(s) && forall n :: n in s.finished ==> n in s.objects
  {
  }

  /** What the rest of a visit keeps of the state after one need. */
  lemma Subwalk(w: World, o: Options, s: Walk, s2: Walk, r: Walk, node: Node, obj: Object, i: nat)
    requires i < |obj.info.needed| && AtWork(w, o, s2, node, obj, i + 1) && Grows(s, s2)
    requires r == VisitFrom(w, o, s2, node, obj, i + 1)
    ensures Grows(s2, r) && forall n :: n in s2.finished ==> n in s2.objects
    ensures Lib(ROOT) !in r.objects ==> Lib(ROOT) !in s2.objects && Lib(ROOT) !in s.objects
  {
    hide VisitFrom, Inv;
    VisitFromKeeps(w, o, s2, node, obj, i + 1);
    WorkIsSound(w, o, s2, node, obj, i + 1);
  }

  lemma {:induction false} DiscoverTally(w: World, o: Options, s: Walk, s2: Walk, node: Node, obj: Object, i: nat)
    requires AtWork(w, o, s, node, obj, i) && i < |obj.info.needed| && |s.deps| < o.maxNodes
    requires Find(s.deps, obj.info.needed[i]).None?
    requires var d := Discover(w, o, obj, obj.info.needed[i], Label(node)); var s1 := Open(w, o, s, d);
      s2 == if Walked(o, d) then Leave(Visit(w, o, s1, Lib(d.soname), ObjectOf(w, d)), d.soname) else s1
    requires |s2.deps| < o.maxNodes && Lib(ROOT) !in s2.objects
    ensures Tally(s2) == Tally(s) + (if obj.info.needed[i] == ROOT then 1 else 0)
      + AllMentions(s2.objects, ClosedSince(s, s2))
    decreases if |s.deps| < o.maxNodes then o.maxNodes - |s.deps| else 0, 0
  {
    hide Tally, AtWork, Inv, Grows, AllMentions, Visit, Discover, Mentions;
    var d := Discover(w, o, obj, obj.info.needed[i], Label(node));
    DiscoverNames(w, o, obj, obj.info.needed[i], Label(node));
    var s1 := Open(w, o, s, d);
    OpenAtWork(w, o, s, node, obj, i, d);
    OpenTally(w, o, s, d);
    if Walked(o, d) {
      var child, r := ObjectOf(w, d), Visit(w, o, s1, Lib(d.soname), ObjectOf(w, d));
      VisitKeeps(w, o, s1, Lib(d.soname), child);
      VisitTally(w, o, s1, Lib(d.soname), child);
      ChildIsKept(w, o, s1, r, Lib(d.soname), child);
      LeaveTally(s1, r, d.soname);
    } else {
      NothingClosed(s, s1);
    }
  }

  lemma DiscoverNames(w: World, o: Options, obj: Object, soname: string, self: string)
    ensures Discover(w, o, obj, soname, self).soname == soname
  {
  }

  lemma ChildIsKept(w: World, o: Options, s: Walk, r: Walk, node: Node, obj: Object)
    requires AtWork(w, o, s, node, obj, 0) && Kept(w, o, s, r, node, obj)
    ensures node in r.objects && r.objects[node] == obj && s.finished <= r.finished
  {
  }

  lemma {:induction false} VisitTally(w: World, o: Options, s: Walk, node: Node, obj: Object)
    requires AtWork(w, o, s, node, obj, 0)
    requires var r := Visit(w, o, s, node, obj); |r.deps| < o.maxNodes && Lib(ROOT) !in r.objects
    ensures var r := Visit(w, o, s, node, obj);
      Tally(r) == Tally(s) + Mentions(obj.info.needed) + AllMentions(r.objects, ClosedSince(s, r))
    decreases if |s.deps| < o.maxNodes then o.maxNodes - |s.deps| else 0, |obj.info.needed| + 1
  {
    hide Tally, AtWork, AllMentions, VisitFrom, Mentions;
    assert obj.info.needed[0..] == obj.info.needed;
    VisitFromTally(w, o, s, node, obj, 0);
  }

  /** Below the cap, where no library `<root>` is walked: the number of reports that
      name it is the number of its mentions in the needed lists, less one. */
  lemma RootReportsExact(w: World, o: Options, root: Object)
    requires var r := WalkFrom(w, o, root); |r.deps| < o.maxNodes && Lib(ROOT) !in r.objects
    ensures var r := WalkFrom(w, o, root); var m := AllMentions(r.objects, r.finished);
      RootReports(r.cycles) == if m == 0 then 0 else m - 1
  {
    hide Tally, AtWork, Kept, Inv, AllMentions, Visit, Mentions, Listed, WalkFrom;
    var s, v, r := Start(root), Visit(w, o, Start(root), Root, root), WalkFrom(w, o, root);
    WalkEnds(w, o, root);
    StartAtWork(w, o, root);
    VisitKeeps(w, o, s, Root, root);
    VisitTally(w, o, s, Root, root);
    ChildIsKept(w, o, s, v, Root, root);
    WalkTally(w, o, s, v, r, root);
    MentionsExact(w, o, root);
    TallyParts(r);
  }

  lemma WalkEnds(w: World, o: Options, root: Object)
    ensures var v := Visit(w, o, Start(root), Root, root);
      WalkFrom(w, o, root) == v.(stack := [], finished := v.finished + [Root])
    ensures Tally(Start(root)) == 0
  {
  }

  lemma TallyParts(r: Walk)
    ensures Tally(r) == RootReports(r.cycles) + if Listed(r, ROOT) then 1 else 0
  {
  }

  lemma WalkTally(w: World, o: Options, s: Walk, v: Walk, r: Walk, root: Object)
    requires s == Start(root) && r == v.(stack := [], finished := v.finished + [Root])
    requires Tally(v) == Tally(s) + Mentions(root.info.needed) + AllMentions(v.objects, ClosedSince(s, v))
    requires Root in v.objects && v.objects[Root] == root
    ensures Tally(r) == AllMentions(r.objects, r.finished)
  {
    assert ClosedSince(s, v) == v.finished && r.finished[..|r.finished| - 1] == v.finished;
    assert Tally(r) == Tally(v);
  }

  lemma {:induction false} MentionsPositive(needed: seq<string>)
    ensures Mentions(needed) > 0 <==> ROOT in needed
  {
    if needed != [] {
      MentionsPositive(needed[1..]);
    }
  }

  lemma {:induction false} AllMentionsPositive(objects: map<Node, Object>, nodes: seq<Node>)
    ensures AllMentions(objects, nodes) > 0 <==> exists n :: n in nodes && n in objects && ROOT in objects[n].info.needed
  {
    if nodes != [] {
      var k := |nodes| - 1;
      AllMentionsPositive(objects, nodes[..k]);
      if nodes[k] in objects {
        MentionsPositive(objects[nodes[k]].info.needed);
      }
      assert nodes == nodes[..k] + [nodes[k]];
    }
  }

  lemma MentionsExact(w: World, o: Options, root: Object)
    requires |WalkFrom(w, o, root).deps| < o.maxNodes
    ensures var r := WalkFrom(w, o, root); AllMentions(r.objects, r.finished) > 0 <==> Listed(r, ROOT)
  {
    hide WalkFrom, AllMentions, Listed, DepsSound, Closed, Report, ListedFor;
    var r := WalkFrom(w, o, root);
    WalkIsComplete(w, o, root);
    ListIsExact(w, o, root);
    AllMentionsPositive(r.objects, r.finished);
    if Listed(r, ROOT) {
      var n :| Needs(r, n, ROOT);
      assert n in r.finished && n in r.objects && ROOT in r.objects[n].info.needed;
    }
    if n :| n in r.finished && n in r.objects && ROOT in r.objects[n].info.needed {
      assert Needs(r, n, ROOT);
    }
  }

  lemma {:induction false} OnlyRootReports(cycles: seq<(string, string)>)
    ensures RootReports(cycles) <= |cycles|
    ensures (forall i :: 0 <= i < |cycles| ==> cycles[i].1 == ROOT) ==> RootReports(cycles) == |cycles|
  {
    if cycles != [] {
      OnlyRootReports(cycles[..|cycles| - 1]);
    }
  }

  /** Below the cap, the report is empty exactly for acyclic graphs if and only if the
      graph has a cycle, or a library `<root>` is walked, or the needed lists of the
      walked objects mention `<root>` at most once. */
  lemma CyclesExact(w: World, o: Options, root: Object)
    requires |WalkFrom(w, o, root).deps| < o.maxNodes
    ensures var r := WalkFrom(w, o, root);
      (r.cycles == [] <==> !Cyclic(r)) <==>
      (Cyclic(r) || Lib(ROOT) in r.objects || AllMentions(r.objects, r.finished) <= 1)
    ensures var r := WalkFrom(w, o, root); RootIsUnique(r) ==> (r.cycles == [] <==> !Cyclic(r))
  {
    hide WalkFrom, Cyclic, AllMentions, RootReports, Listed, BackEdge;
    var r := WalkFrom(w, o, root);
    NamedReportsExact(w, o, root);
    ReportsAreCycles(w, o, root);
    MentionsExact(w, o, root);
    if !NamesWalked(r) {
      assert forall i :: 0 <= i < |r.cycles| ==> Lib(r.cycles[i].1) !in r.objects && r.cycles[i].1 == ROOT;
      if r.cycles != [] {
        assert Lib(r.cycles[0].1) !in r.objects;
      }
    }
    if Lib(ROOT) !in r.objects {
      RootReportsExact(w, o, root);
      OnlyRootReports(r.cycles);
    }
  }

  // --------------------------------------------- why the label must be unique

  /** Only "a" exists; it needs the soname "<root>", and so does the executable. */
  function RootNameWorld(): World {
    World((f: File) => f.name == "a",
          (f: File) => ElfInfo(true, Unknown, if f.name == "a" then [ROOT] else [], [], [], []),
          (p: string) => Components(p), "/")
  }

  const ROOT_NAME_OBJECT := Object("/", ElfInfo(true, Unknown, [ROOT, "a"], [], [], []))

  lemma RootNameDiscover(w: World, o: Options)
    requires w == RootNameWorld() && o == Options([], [], true, true, 4096)
    ensures var d := Discover(w, o, ROOT_NAME_OBJECT, ROOT, ROOT); d.soname == ROOT && !Walked(o, d)
    ensures var d := Discover(w, o, ROOT_NAME_OBJECT, "a", ROOT);
      d.soname == "a" && Walked(o, d) && ObjectOf(w, d).info.needed == [ROOT]
  {
    var dirs := SearchDirs(o, ROOT_NAME_OBJECT);
    NothingFound(w, ROOT, dirs);
    assert dirs != [] by { assert |dirs| >= 5; }
    assert Resolve(w, "a", dirs) == Some(File(dirs[0], "a"));
    assert Classify("a", Some(File(dirs[0], "a"))).Bundle? by {
      assert forall i :: 0 <= i < |DRIVER_PREFIXES| ==> |DRIVER_PREFIXES[i]| > 1;
    }
  }

  lemma RootNameVisitsChild(w: World, o: Options, d0: Dependency, d1: Dependency)
    requires w == RootNameWorld() && o == Options([], [], true, true, 4096)
    requires d0 == Discover(w, o, ROOT_NAME_OBJECT, ROOT, ROOT) && d1 == Discover(w, o, ROOT_NAME_OBJECT, "a", ROOT)
    ensures !Walked(o, d0) && Walked(o, d1)
    ensures var s := Open(w, o, Open(w, o, Start(ROOT_NAME_OBJECT), d0), d1);
      Visit(w, o, s, Lib("a"), ObjectOf(w, d1)) == MeetAgain(s, 0, Lib("a"))
  {
    RootNameDiscover(w, o);
    var s := Open(w, o, Open(w, o, Start(ROOT_NAME_OBJECT), d0), d1);
    assert s.deps == [d0, d1] && s.deps[..1] == [d0];
    assert Find(s.deps, ROOT) == Some(0);
    var r := MeetAgain(s, 0, Lib("a"));
    assert VisitFrom(w, o, r, Lib("a"), ObjectOf(w, d1), 1) == r;
  }

  lemma RootNameWalk(w: World, o: Options) returns (d0: Dependency, d1: Dependency, r: Walk)
    requires w == RootNameWorld() && o == Options([], [], true, true, 4096)
    ensures r == WalkFrom(w, o, ROOT_NAME_OBJECT)
    ensures Walked(o, d1) && ObjectOf(w, d1).info.needed == [ROOT]
    ensures r.objects == map[Root := ROOT_NAME_OBJECT, Lib("a") := ObjectOf(w, d1)]
    ensures r.cycles == [("a", ROOT)] && |r.deps| == 2
  {
    var root := ROOT_NAME_OBJECT;
    RootNameDiscover(w, o);
    d0, d1 := Discover(w, o, root, ROOT, ROOT), Discover(w, o, root, "a", ROOT);
    RootNameVisitsChild(w, o, d0, d1);
    var s0 := Start(root);
    var s1 := Open(w, o, s0, d0);
    var s4 := Leave(MeetAgain(Open(w, o, s1, d1), 0, Lib("a")), "a");
    assert s1.deps == [d0] && [d0][..0] == [] && Find(s1.deps, "a").None?;
    assert VisitFrom(w, o, s4, Root, root, 2) == s4;
    assert VisitFrom(w, o, s1, Root, root, 1) == s4;
    assert VisitFrom(w, o, s0, Root, root, 0) == s4;
    r := WalkFrom(w, o, root);
  }

  /** A soname spelled "<root>" is enough for a cycle that is not there. */
  lemma RootNameExample()
    ensures var w, o := RootNameWorld(), Options([], [], true, true, 4096);
      var r := WalkFrom(w, o, ROOT_NAME_OBJECT);
      r.cycles == [("a", ROOT)] && !Cyclic(r) && |r.deps| < o.maxNodes
  {
    var d0, d1, r := RootNameWalk(RootNameWorld(), Options([], [], true, true, 4096));
    forall a, b | Edge(r, a, b) ensures a == Root && b == Lib("a") {
    }
    forall p | IsPath(r, p) && |p| > 1 ensures p[0] != p[|p| - 1] {
      assert Edge(r, p[0], p[1]) && Edge(r, p[|p| - 2], p[|p| - 1]);
    }
  }
}
