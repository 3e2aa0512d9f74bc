/** Verification against a runtime profile. */
module Tux32 {
  import opened Prelude
  import Decimal
  import Versions
  import opened DepResolve
  import opened Glibc

  datatype Profile = Profile(id: string, architectures: seq<string>, ceiling: Pair)

  /** The analysed executable: its file name, what its headers say and the closure. */
  datatype Target = Target(
    name: string, isElf: bool, hasInterpreter: bool, isDynamic: bool, arch: string,
    needs: seq<string>, dependencies: seq<Dependency>)

  datatype Verdict =
    | Conformant | ConformantWithNotes | SymbolCeilingExceeded | UnresolvedDependency | ForbiddenDependency
    | UnsupportedArchitecture | UnsupportedExecutable | InvalidInput | IncompleteClosure

  datatype Offender = Offender(name: string, version: Pair)

  datatype Outcome = Outcome(
    verdict: Verdict, required: string, offenders: seq<Offender>, bundle: seq<string>, host: seq<string>,
    forbidden: seq<string>, unresolved: seq<string>, notes: nat)

  /** `within_glibc_ceiling`. */
  predicate Within(p: Profile, v: Pair) {
    v.0 < p.ceiling.0 || (v.0 == p.ceiling.0 && v.1 <= p.ceiling.1)
  }

  function Names(deps: seq<Dependency>, kind: Kind): seq<string> {
    if deps == [] then []
    else (if deps[0].kind == kind then [deps[0].soname] else []) + Names(deps[1..], kind)
  }

  lemma {:induction false} NamesExact(deps: seq<Dependency>, kind: Kind)
    ensures Names(deps, kind) == [] <==> forall i :: 0 <= i < |deps| ==> deps[i].kind != kind
  {
    if deps != [] {
      NamesExact(deps[1..], kind);
      assert forall i :: 1 <= i < |deps| ==> deps[i] == deps[1..][i - 1];
    }
  }

  /** The executable under its own name, and every bundled library. */
  function Package(t: Target): seq<Needer> {
    [Needer(if t.name == "" then "the executable" else t.name, t.needs)] + Bundled(t.dependencies)
  }

  function Offence(p: Profile, o: Needer): seq<Offender> {
    var best := Fold(ProperNeed, o.needs, NOTHING);
    if best.0 >= 0 && !Within(p, best) then [Offender(o.name, best)] else []
  }

  function Offenders(p: Profile, objects: seq<Needer>): seq<Offender> {
    if objects == [] then [] else Offence(p, objects[0]) + Offenders(p, objects[1..])
  }

  lemma BestIsProper(needs: seq<string>)
    ensures var b := Fold(ProperNeed, needs, NOTHING); b == NOTHING || (b.0 >= 0 && b.1 >= 0)
  {
    BestAgrees(needs);
  }

  /** Some object is above the ceiling exactly when the requirement of the whole
      package is. */
  lemma {:induction false} OffendersExact(p: Profile, objects: seq<Needer>)
    ensures var b := ProfileBest(objects); Offenders(p, objects) != [] <==> b.0 >= 0 && !Within(p, b)
  {
    hide Fold, ProperNeed;
    if objects == [] {
      FoldNone(ProperNeed, NOTHING);
    } else {
      var needs, rest := objects[0].needs, AllNeeds(objects[1..]);
      OffendersExact(p, objects[1..]);
      FoldAppends(ProperNeed, needs, rest, NOTHING);
      BestIsProper(needs);
      BestIsProper(rest);
      FoldFrom(ProperNeed, rest, Fold(ProperNeed, needs, NOTHING));
    }
  }

  /** `needs` are those of the executable, or of a bundled library of that name. */
  predicate IsObject(t: Target, name: string, needs: seq<string>) {
    || (name == (if t.name == "" then "the executable" else t.name) && needs == t.needs)
    || exists i :: 0 <= i < |t.dependencies| && IsBundledAs(t.dependencies[i], name, needs)
  }

  predicate IsBundledAs(d: Dependency, name: string, needs: seq<string>) {
    d.kind == Bundle && d.soname == name && d.versionNeeds == needs
  }

  /** Some need is read as this version. */
  predicate IsRead(needs: seq<string>, v: Pair) {
    exists i :: 0 <= i < |needs| && ProperNeed(needs[i]) == Some(v)
  }

  /** The version is read, and no higher one. */
  ghost predicate IsTop(needs: seq<string>, v: Pair) {
    && IsRead(needs, v)
    && forall w: Pair :: IsRead(needs, w) ==> w.0 < v.0 || (w.0 == v.0 && w.1 <= v.1)
  }

  /** Every version read from an object of the package is at most the ceiling. */
  ghost predicate AllBelow(ceiling: Pair, t: Target) {
    forall name, needs, major, minor :: IsObject(t, name, needs) && IsRead(needs, (major, minor)) ==>
      major < ceiling.0 || (major == ceiling.0 && minor <= ceiling.1)
  }

  predicate Has(t: Target, kind: Kind) {
    exists i :: 0 <= i < |t.dependencies| && t.dependencies[i].kind == kind
  }

  /** The six conditions of the profile. */
  ghost predicate Satisfies(p: Profile, t: Target) {
    && t.isElf && t.hasInterpreter && t.isDynamic && t.arch in p.architectures
    && AllBelow(p.ceiling, t) && !Has(t, Forbidden) && !Has(t, Unresolved)
  }

  /** Every verdict exactly, each where all that comes before it is in order. */
  ghost predicate IsVerdict(p: Profile, t: Target, v: Verdict) {
    var dynamic := t.isElf && t.hasInterpreter && t.isDynamic;
    var supported := dynamic && t.arch in p.architectures;
    var below := supported && AllBelow(p.ceiling, t);
    && (v == InvalidInput <==> !t.isElf)
    && (v == UnsupportedExecutable <==> t.isElf && !dynamic)
    && (v == UnsupportedArchitecture <==> dynamic && !supported)
    && (v == SymbolCeilingExceeded <==> supported && !below)
    && (v == ForbiddenDependency <==> below && Has(t, Forbidden))
    && (v == UnresolvedDependency <==> below && !Has(t, Forbidden) && Has(t, Unresolved))
    && (v == Conformant <==> below && !Has(t, Forbidden) && !Has(t, Unresolved))
    && v != ConformantWithNotes && v != IncompleteClosure
  }

  /** The offenders are the objects with a top version above the ceiling, with it. */
  ghost predicate AreOffenders(p: Profile, t: Target, offenders: seq<Offender>) {
    forall o: Offender :: o in offenders <==>
      (exists needs :: IsObject(t, o.name, needs) && IsTop(needs, o.version))
      && !(o.version.0 < p.ceiling.0 || (o.version.0 == p.ceiling.0 && o.version.1 <= p.ceiling.1))
  }

  function VerdictOf(p: Profile, t: Target): Verdict {
    if !t.isElf then InvalidInput
    else if !(t.hasInterpreter && t.isDynamic) then UnsupportedExecutable
    else if t.arch !in p.architectures then UnsupportedArchitecture
    else if Offenders(p, Package(t)) != [] then SymbolCeilingExceeded
    else if Names(t.dependencies, Forbidden) != [] then ForbiddenDependency
    else if Names(t.dependencies, Unresolved) != [] then UnresolvedDependency
    else Conformant
  }

  /** The objects of the package, as a list. */
  lemma {:induction false} PackageExact(deps: seq<Dependency>, o: Needer)
    ensures o in Bundled(deps) <==> exists i :: 0 <= i < |deps| && IsBundledAs(deps[i], o.name, o.needs)
  {
    if deps != [] {
      PackageExact(deps[1..], o);
      assert forall i :: 0 < i < |deps| ==> deps[i] == deps[1..][i - 1];
      assert IsBundledAs(deps[0], o.name, o.needs) <==>
        deps[0].kind.Bundle? && o == Needer(deps[0].soname, deps[0].versionNeeds);
    }
  }

  lemma ObjectsExact(t: Target, name: string, needs: seq<string>)
    ensures IsObject(t, name, needs) <==> Needer(name, needs) in Package(t)
  {
    hide Bundled, IsBundledAs;
    PackageExact(t.dependencies, Needer(name, needs));
  }

  /** What the search for the highest version finds in one list of needs. */
  lemma BestExact(needs: seq<string>)
    ensures var best := Fold(ProperNeed, needs, NOTHING);
      && (best.0 >= 0 ==> forall v :: IsTop(needs, v) <==> v == best)
      && (best.0 < 0 ==> forall v :: !IsRead(needs, v))
  {
    hide Fold, AnyNeed;
    var best := Fold(ProperNeed, needs, NOTHING);
    FoldIsHighest(ProperNeed, needs, NOTHING);
    BestIsProper(needs);
    forall v | IsRead(needs, v)
      ensures best.0 >= 0 && (v.0 < best.0 || (v.0 == best.0 && v.1 <= best.1))
    {
      var i :| 0 <= i < |needs| && ProperNeed(needs[i]) == Some(v);
      assert !Less(best, ProperNeed(needs[i]).value);
    }
    if best.0 >= 0 {
      assert IsRead(needs, best);
    }
  }

  /** An object offends with its top version, where that is above the ceiling. */
  lemma OffenceExact(p: Profile, o: Needer, v: Pair)
    ensures Offender(o.name, v) in Offence(p, o) <==>
      IsTop(o.needs, v) && !(v.0 < p.ceiling.0 || (v.0 == p.ceiling.0 && v.1 <= p.ceiling.1))
    ensures forall x :: x in Offence(p, o) ==> x.name == o.name
  {
    hide Fold, ProperNeed, IsTop;
    BestExact(o.needs);
    if Fold(ProperNeed, o.needs, NOTHING).0 < 0 {
      NoTop(o.needs, v);
    }
  }

  lemma NoTop(needs: seq<string>, v: Pair)
    requires forall w :: !IsRead(needs, w)
    ensures !IsTop(needs, v)
  {
  }

  lemma {:induction false} OffendersListed(p: Profile, objects: seq<Needer>, x: Offender)
    ensures x in Offenders(p, objects) <==>
      (exists needs :: Needer(x.name, needs) in objects && IsTop(needs, x.version))
      && !(x.version.0 < p.ceiling.0 || (x.version.0 == p.ceiling.0 && x.version.1 <= p.ceiling.1))
  {
    hide Offence, IsTop;
    if objects != [] {
      OffendersListed(p, objects[1..], x);
      OffenceExact(p, objects[0], x.version);
      assert forall o :: o in objects <==> o == objects[0] || o in objects[1..];
      if x.name == objects[0].name && IsTop(objects[0].needs, x.version) {
        assert Needer(x.name, objects[0].needs) in objects;
      }
    }
  }

  lemma OffendersAre(p: Profile, t: Target)
    ensures AreOffenders(p, t, Offenders(p, Package(t)))
  {
    hide IsTop, Offenders, Package, IsObject;
    forall x: Offender
      ensures x in Offenders(p, Package(t)) <==>
        (exists needs :: IsObject(t, x.name, needs) && IsTop(needs, x.version))
        && !(x.version.0 < p.ceiling.0 || (x.version.0 == p.ceiling.0 && x.version.1 <= p.ceiling.1))
    {
      OffendersListed(p, Package(t), x);
      forall needs ensures IsObject(t, x.name, needs) <==> Needer(x.name, needs) in Package(t) {
        ObjectsExact(t, x.name, needs);
      }
    }
  }

  /** No object offends exactly if every version read is at most the ceiling. */
  lemma NoOffenderExact(p: Profile, t: Target)
    ensures Offenders(p, Package(t)) == [] <==> AllBelow(p.ceiling, t)
  {
    hide IsObject, IsRead, Package;
    OffendersAre(p, t);
    var xs := Offenders(p, Package(t));
    if xs != [] {
      assert xs[0] in xs;
      var needs :| IsObject(t, xs[0].name, needs) && IsTop(needs, xs[0].version);
    }
    forall name, needs, major, minor | IsObject(t, name, needs) && IsRead(needs, (major, minor)) && xs == []
      ensures major < p.ceiling.0 || (major == p.ceiling.0 && minor <= p.ceiling.1)
    {
      var best := TopOf(needs, (major, minor));
      assert Offender(name, best) !in xs;
    }
  }

  lemma TopOf(needs: seq<string>, v: Pair) returns (best: Pair)
    requires IsRead(needs, v)
    ensures IsTop(needs, best) && (v.0 < best.0 || (v.0 == best.0 && v.1 <= best.1))
  {
    hide Fold, ProperNeed;
    BestExact(needs);
    best := Fold(ProperNeed, needs, NOTHING);
  }

  /** Every verdict is given exactly under its own condition, in the documented order;
      conformant exactly under the six conditions; the verdicts "with notes" and
      "incomplete closure" are never given. */
  lemma VerdictExact(p: Profile, t: Target)
    ensures IsVerdict(p, t, VerdictOf(p, t))
    ensures VerdictOf(p, t) == Conformant <==> Satisfies(p, t)
  {
    hide Offenders, Names, Package, AllBelow;
    NoOffenderExact(p, t);
    NamesExact(t.dependencies, Forbidden);
    NamesExact(t.dependencies, Unresolved);
  }

  /** A higher ceiling never loses conformance. */
  lemma CeilingIsMonotone(p: Profile, q: Profile, t: Target)
    requires q.architectures == p.architectures && !Less(q.ceiling, p.ceiling)
    requires VerdictOf(p, t) == Conformant
    ensures VerdictOf(q, t) == Conformant
  {
    hide VerdictOf, IsObject, IsRead, IsVerdict;
    VerdictExact(p, t);
    VerdictExact(q, t);
  }

  // ------------------------------------------------------------------ the loops

  /** The classification of the closure. */
  method Classified(deps: seq<Dependency>) returns (host: seq<string>, bundle: seq<string>, forbidden: seq<string>, unresolved: seq<string>)
    ensures host == Names(deps, HostInterface) && bundle == Names(deps, Bundle)
    ensures forbidden == Names(deps, Forbidden) && unresolved == Names(deps, Unresolved)
  {
    hide Names;
    host, bundle, forbidden, unresolved := [], [], [], [];
    NamesFrom(deps, 0);
    NamesFrom(deps, |deps|);
    var i := 0;
    while i < |deps|
      invariant 0 <= i <= |deps|
      invariant host + Names(deps[i..], HostInterface) == Names(deps, HostInterface)
      invariant bundle + Names(deps[i..], Bundle) == Names(deps, Bundle)
      invariant forbidden + Names(deps[i..], Forbidden) == Names(deps, Forbidden)
      invariant unresolved + Names(deps[i..], Unresolved) == Names(deps, Unresolved)
    {
      NamesFrom(deps, i);
      match deps[i].kind {
        case HostInterface => host := host + [deps[i].soname];
        case Bundle => bundle := bundle + [deps[i].soname];
        case Forbidden => forbidden := forbidden + [deps[i].soname];
        case Unresolved => unresolved := unresolved + [deps[i].soname];
        case LanguageRuntime =>
      }
      i := i + 1;
    }
  }

  lemma NamesFrom(deps: seq<Dependency>, i: nat)
    requires i <= |deps|
    ensures i == 0 ==> deps[i..] == deps
    ensures i == |deps| ==> forall kind :: Names(deps[i..], kind) == []
    ensures i < |deps| ==> Names(deps[i..], deps[i].kind) == [deps[i].soname] + Names(deps[i + 1..], deps[i].kind)
    ensures i < |deps| ==> forall kind | kind != deps[i].kind :: Names(deps[i..], kind) == Names(deps[i + 1..], kind)
  {
    if i < |deps| {
      assert deps[i..][1..] == deps[i + 1..];
    }
  }

  /** The requirement and the offenders, object by object. */
  method Symbols(p: Profile, objects: seq<Needer>) returns (required: Pair, offenders: seq<Offender>)
    ensures required == ProfileBest(objects) && offenders == Offenders(p, objects)
  {
    hide Fold, ProperNeed, Offenders, AllNeeds;
    required, offenders := NOTHING, [];
    var i := 0;
    ObjectsFrom(p, objects, 0);
    ObjectsFrom(p, objects, |objects|);
    while i < |objects|
      invariant 0 <= i <= |objects| && !Less(required, NOTHING)
      invariant Fold(ProperNeed, AllNeeds(objects[i..]), required) == ProfileBest(objects)
      invariant offenders + Offenders(p, objects[i..]) == Offenders(p, objects)
    {
      ObjectsFrom(p, objects, i);
      var o := objects[i];
      FoldAppends(ProperNeed, o.needs, AllNeeds(objects[i + 1..]), required);
      FoldFrom(ProperNeed, o.needs, required);
      BestIsProper(o.needs);
      var best := Consider(ProperNeed, o.needs, NOTHING);
      assert offenders + (Offence(p, o) + Offenders(p, objects[i + 1..])) == (offenders + Offence(p, o)) + Offenders(p, objects[i + 1..]);
      if best.0 >= 0 {
        if best.0 > required.0 || (best.0 == required.0 && best.1 > required.1) {
          required := best;
        }
        if !Within(p, best) {
          offenders := offenders + [Offender(o.name, best)];
        }
      }
      i := i + 1;
    }
    FoldNone(ProperNeed, required);
  }

  lemma ObjectsFrom(p: Profile, objects: seq<Needer>, i: nat)
    requires i <= |objects|
    ensures i == 0 ==> objects[i..] == objects
    ensures i == |objects| ==> AllNeeds(objects[i..]) == [] && Offenders(p, objects[i..]) == []
    ensures i < |objects| ==> AllNeeds(objects[i..]) == objects[i].needs + AllNeeds(objects[i + 1..])
    ensures i < |objects| ==> Offenders(p, objects[i..]) == Offence(p, objects[i]) + Offenders(p, objects[i + 1..])
  {
    if i < |objects| {
      assert objects[i..][1..] == objects[i + 1..];
    }
  }

  /** The text of the highest version read from any object of the package, if there is one. */
  ghost predicate IsRequirement(t: Target, text: string) {
    && (forall major: nat, minor: nat :: IsPackageTop(t, (major, minor)) ==>
          text == Decimal.Digits(major) + ("." + Decimal.Digits(minor)))
    && ((forall name, needs, v :: IsObject(t, name, needs) ==> !IsRead(needs, v)) ==> text == "")
  }

  ghost predicate IsPackageTop(t: Target, v: Pair) {
    && (exists name, needs :: IsObject(t, name, needs) && IsRead(needs, v))
    && forall name, needs, w: Pair :: IsObject(t, name, needs) && IsRead(needs, w) ==> w.0 < v.0 || (w.0 == v.0 && w.1 <= v.1)
  }

  lemma {:induction false} AllNeedsRead(objects: seq<Needer>, v: Pair)
    ensures IsRead(AllNeeds(objects), v) <==> exists o :: o in objects && IsRead(o.needs, v)
  {
    hide IsRead;
    if objects == [] {
      NothingRead(v);
    } else {
      AllNeedsRead(objects[1..], v);
      ReadOfBoth(objects[0].needs, AllNeeds(objects[1..]), v);
      assert forall o :: o in objects <==> o == objects[0] || o in objects[1..];
    }
  }

  lemma NothingRead(v: Pair)
    ensures !IsRead([], v)
  {
  }

  lemma ReadOfBoth(a: seq<string>, b: seq<string>, v: Pair)
    ensures IsRead(a + b, v) <==> IsRead(a, v) || IsRead(b, v)
  {
    hide ProperNeed;
    var c := a + b;
    forall i | 0 <= i < |a| ensures c[i] == a[i] {
    }
    forall i | 0 <= i < |b| ensures c[i + |a|] == b[i] {
    }
    if IsRead(b, v) {
      var i :| 0 <= i < |b| && ProperNeed(b[i]) == Some(v);
      assert ProperNeed(c[i + |a|]) == Some(v);
    }
    if IsRead(c, v) {
      var i :| 0 <= i < |c| && ProperNeed(c[i]) == Some(v);
      assert i >= |a| ==> ProperNeed(b[i - |a|]) == Some(v);
    }
  }

  lemma PackageReads(t: Target, v: Pair)
    ensures IsRead(AllNeeds(Package(t)), v) <==> exists name, needs :: IsObject(t, name, needs) && IsRead(needs, v)
  {
    hide IsRead, Package, IsObject;
    AllNeedsRead(Package(t), v);
    forall name, needs ensures IsObject(t, name, needs) <==> Needer(name, needs) in Package(t) {
      ObjectsExact(t, name, needs);
    }
    if o :| o in Package(t) && IsRead(o.needs, v) {
      assert o == Needer(o.name, o.needs);
    }
  }

  lemma PackageTop(t: Target, v: Pair)
    ensures IsPackageTop(t, v) <==> IsTop(AllNeeds(Package(t)), v)
  {
    hide IsRead, Package, IsObject, AllNeeds;
    var needs := AllNeeds(Package(t));
    forall w ensures IsRead(needs, w) <==> exists name, ns :: IsObject(t, name, ns) && IsRead(ns, w) {
      PackageReads(t, w);
    }
  }

  lemma NothingTops(t: Target)
    requires forall name, needs, v :: IsObject(t, name, needs) ==> !IsRead(needs, v)
    ensures ProfileBest(Package(t)).0 < 0
  {
    hide IsRead, Package, IsObject, AllNeeds, Fold;
    BestExact(AllNeeds(Package(t)));
    var best := ProfileBest(Package(t));
    if best.0 >= 0 {
      assert IsTop(AllNeeds(Package(t)), best);
      PackageReads(t, best);
    }
  }

  lemma RequirementExact(t: Target)
    ensures IsRequirement(t, VersionText(ProfileBest(Package(t))))
  {
    hide IsPackageTop, IsTop, IsRead, Package, IsObject, Fold;
    var best := ProfileBest(Package(t));
    BestExact(AllNeeds(Package(t)));
    forall major: nat, minor: nat | IsPackageTop(t, (major, minor))
      ensures VersionText(best) == Decimal.Digits(major) + ("." + Decimal.Digits(minor))
    {
      PackageTop(t, (major, minor));
      IsReadOf(AllNeeds(Package(t)), (major, minor));
      assert best == (major, minor);
      assert Decimal.Digits(major) + "." + Decimal.Digits(minor) == Decimal.Digits(major) + ("." + Decimal.Digits(minor));
    }
    if forall name, needs, v :: IsObject(t, name, needs) ==> !IsRead(needs, v) {
      NothingTops(t);
      NegativeHasNoText(best);
    }
  }

  lemma IsReadOf(needs: seq<string>, v: Pair)
    requires IsTop(needs, v)
    ensures IsRead(needs, v)
  {
  }

  /** The list names exactly the entries of that kind. */
  ghost predicate AreNames(t: Target, kind: Kind, names: seq<string>) {
    forall s :: s in names <==> exists i :: 0 <= i < |t.dependencies| && t.dependencies[i].kind == kind && t.dependencies[i].soname == s
  }

  lemma {:induction false} NamesAre(deps: seq<Dependency>, kind: Kind, s: string)
    ensures s in Names(deps, kind) <==> exists i :: 0 <= i < |deps| && deps[i].kind == kind && deps[i].soname == s
  {
    if deps != [] {
      NamesAre(deps[1..], kind, s);
      assert forall i :: 0 < i < |deps| ==> deps[i] == deps[1..][i - 1];
    }
  }

  lemma ListsAre(t: Target)
    ensures forall kind :: AreNames(t, kind, Names(t.dependencies, kind))
  {
    hide Names;
    forall kind, s
      ensures s in Names(t.dependencies, kind) <==>
        exists i :: 0 <= i < |t.dependencies| && t.dependencies[i].kind == kind && t.dependencies[i].soname == s
    {
      NamesAre(t.dependencies, kind, s);
    }
  }

  /** `verify_against_profile`. */
  method VerifyAgainstProfile(t: Target, p: Profile) returns (r: Outcome)
    ensures r.verdict == VerdictOf(p, t) && IsVerdict(p, t, r.verdict)
    ensures r.required == VersionText(ProfileBest(Package(t))) && IsRequirement(t, r.required)
    ensures r.offenders == Offenders(p, Package(t)) && AreOffenders(p, t, r.offenders)
    ensures r.host == Names(t.dependencies, HostInterface) && AreNames(t, HostInterface, r.host)
    ensures r.bundle == Names(t.dependencies, Bundle) && AreNames(t, Bundle, r.bundle)
    ensures r.forbidden == Names(t.dependencies, Forbidden) && AreNames(t, Forbidden, r.forbidden)
    ensures r.unresolved == Names(t.dependencies, Unresolved) && AreNames(t, Unresolved, r.unresolved)
    ensures r.notes == if Has(t, Unresolved) then 1 else 0
  {
    hide IsVerdict, IsRequirement, AreOffenders, AreNames, Offenders, Names, Package, AllBelow;
    VerdictExact(p, t);
    RequirementExact(t);
    OffendersAre(p, t);
    ListsAre(t);
    NamesExact(t.dependencies, Unresolved);
    var host, bundle, forbidden, unresolved := Classified(t.dependencies);
    var required, offenders := Symbols(p, Package(t));
    var text := if required.0 >= 0 then VersionText(required) else "";
    var notes := if unresolved != [] then 1 else 0;
    var verdict;
    if !t.isElf {
      verdict := InvalidInput;
    } else if !(t.hasInterpreter && t.isDynamic) {
      verdict := UnsupportedExecutable;
    } else if t.arch !in p.architectures {
      verdict := UnsupportedArchitecture;
    } else if offenders != [] {
      verdict := SymbolCeilingExceeded;
    } else if forbidden != [] {
      verdict := ForbiddenDependency;
    } else if unresolved != [] {
      verdict := UnresolvedDependency;
    } else {
      verdict := if notes == 0 then Conformant else ConformantWithNotes;
    }
    r := Outcome(verdict, text, offenders, bundle, host, forbidden, unresolved, notes);
  }

  // ------------------------------------------------------------------ Core 1

  const TUX32_CORE_1 := Profile("tux32-core-1", ["x86_64"], (2, 31))

  /** What meets Core 1: a dynamic executable for x86_64 that needs nothing above 2.31,
      nor does a library bundled with it, and no driver, and nothing that is missing. */
  lemma CoreOneExact(t: Target)
    ensures VerdictOf(TUX32_CORE_1, t) == Conformant <==>
      && t.isElf && t.hasInterpreter && t.isDynamic && t.arch == "x86_64"
      && (forall name, needs, major, minor :: IsObject(t, name, needs) && IsRead(needs, (major, minor)) ==>
            major < 2 || (major == 2 && minor <= 31))
      && !Has(t, Forbidden) && !Has(t, Unresolved)
  {
    hide VerdictOf, IsObject, IsRead, Has, IsVerdict;
    VerdictExact(TUX32_CORE_1, t);
  }

  /** An executable without libraries that needs just glibc 2.31 meets it, and one that
      needs 2.32 offends with that. */
  lemma CeilingExample(minor: nat)
    requires minor in {31, 32}
    ensures var need := "GLIBC_" + (Decimal.Digits(2) + ("." + Decimal.Digits(minor)));
      var t := Target("app", true, true, true, "x86_64", [need], []);
      && VerdictOf(TUX32_CORE_1, t) == (if minor == 31 then Conformant else SymbolCeilingExceeded)
      && Offenders(TUX32_CORE_1, Package(t)) == if minor == 31 then [] else [Offender("app", (2, 32))]
  {
    hide ProperNeed;
    var need := "GLIBC_" + (Decimal.Digits(2) + ("." + Decimal.Digits(minor)));
    var t := Target("app", true, true, true, "x86_64", [need], []);
    WrittenVersion(2, minor);
    FoldOne(ProperNeed, need, NOTHING);
    assert Package(t) == [Needer("app", [need])];
    assert Package(t)[1..] == [];
    var o := Needer("app", [need]);
    assert o.needs == [need] && Fold(ProperNeed, o.needs, NOTHING) == (2, minor);
    assert Offence(TUX32_CORE_1, o) == if minor == 31 then [] else [Offender("app", (2, 32))];
    assert Offenders(TUX32_CORE_1, [o]) == Offence(TUX32_CORE_1, o) + Offenders(TUX32_CORE_1, [o][1..]) == Offence(TUX32_CORE_1, o);
    assert TUX32_CORE_1.architectures[0] == "x86_64";
  }

  // ---------------------------------------------------------- where they differ

  /** A need of glibc 3.-1 beside one of 2.4: the report asks for 3.-1, the profile
      verifier for 2.4. */
  lemma NegativeMinorExample()
    ensures var objects := [Needer("app", ["GLIBC_2.4", "GLIBC_3.-1"])];
      ReportBest(objects) == (3, -1) && ProfileBest(objects) == (2, 4) && TopIsNegative(AllNeeds(objects))
  {
    hide AnyNeed, Fold;
    var needs := ["GLIBC_2.4", "GLIBC_3.-1"];
    var objects := [Needer("app", needs)];
    assert objects[1..] == [];
    assert AllNeeds(objects) == needs + [] == needs;
    assert needs == ["GLIBC_2.4"] + ["GLIBC_3.-1"];
    OneNeed("2", "4", 2, 4);
    OneNeed("3", "-1", 3, -1);
    assert "GLIBC_" + "2" + "." + "4" == "GLIBC_2.4" && "GLIBC_" + "3" + "." + "-1" == "GLIBC_3.-1";
    FoldAppends(AnyNeed, ["GLIBC_2.4"], ["GLIBC_3.-1"], NOTHING);
    FoldAppends(ProperNeed, ["GLIBC_2.4"], ["GLIBC_3.-1"], NOTHING);
    FoldOne(AnyNeed, "GLIBC_2.4", NOTHING);
    FoldOne(ProperNeed, "GLIBC_2.4", NOTHING);
    FoldOne(AnyNeed, "GLIBC_3.-1", (2, 4));
    FoldOne(ProperNeed, "GLIBC_3.-1", (2, 4));
    assert AnyNeed("GLIBC_2.4") == Some((2, 4)) && AnyNeed("GLIBC_3.-1") == Some((3, -1));
    assert Fold(AnyNeed, needs, NOTHING) == (3, -1);
    TopIsBest(needs);
  }

  lemma FoldOne(read: string -> Option<Pair>, v: string, best: Pair)
    ensures Fold(read, [v], best) == Raise(best, read(v))
  {
    FoldNone(read, Raise(best, read(v)));
    assert [v][1..] == [];
  }

  lemma OneNeed(x: string, y: string, major: int, minor: int)
    requires '.' !in x && '.' !in y
    requires |x| == 1 && Decimal.IsDigit(x[0]) && major == Decimal.DigitOf(x[0])
    requires || (|y| == 1 && Decimal.IsDigit(y[0]) && minor == Decimal.DigitOf(y[0]))
             || (|y| == 2 && y[0] == '-' && Decimal.IsDigit(y[1]) && minor == -Decimal.DigitOf(y[1]))
    ensures AnyNeed("GLIBC_" + x + "." + y) == Some((major, minor))
  {
    hide Stoi, Versions.FindDot;
    var num := x + "." + y;
    assert ("GLIBC_" + x + "." + y)[6..] == num;
    assert num[0..1] == x && num[..1] == x && num[2..] == y;
    Versions.DotFoundAt(num, 0, 1);
    StoiDigit(x);
    if |y| == 1 {
      StoiDigit(y);
    } else {
      StoiMinus(y);
    }
  }

  lemma StoiDigit(s: string)
    requires |s| == 1 && Decimal.IsDigit(s[0])
    ensures Stoi(s) == Some(Decimal.DigitOf(s[0]))
  {
    assert LeadingDigits(s[1..]) == "";
    assert [s[0]] + "" == s;
    assert Decimal.Value(s) == 10 * Decimal.Value("") + Decimal.DigitOf(s[0]);
  }

  lemma StoiMinus(s: string)
    requires |s| == 2 && s[0] == '-' && Decimal.IsDigit(s[1])
    ensures Stoi(s) == Some(-Decimal.DigitOf(s[1]))
  {
    var t := s[1..];
    StoiDigit(t);
    assert LeadingDigits(t[1..]) == "";
    assert [t[0]] + "" == t;
    assert Decimal.Value(t) == 10 * Decimal.Value("") + Decimal.DigitOf(t[0]);
  }
}
