/** The highest glibc version a package needs, computed in two places: by the
    dependency report and by the profile verifier, which also gives the verdict. */
module Glibc {
  import opened Prelude
  import opened DepResolve
  import Decimal
  import Versions

  type Pair = (int, int)

  const NOTHING: Pair := (-1, -1)

  predicate Less(a: Pair, b: Pair) {
    a.0 < b.0 || (a.0 == b.0 && a.1 < b.1)
  }

  // ------------------------------------------------------------ reading a need

  predicate IsSpace(c: char) {
    c == ' ' || 9 <= c as int <= 13
  }

  function SkipSpace(s: string): string {
    if s != "" && IsSpace(s[0]) then SkipSpace(s[1..]) else s
  }

  function LeadingDigits(s: string): (r: string)
    ensures r <= s && forall i :: 0 <= i < |r| ==> Decimal.IsDigit(r[i])
  {
    if s != "" && Decimal.IsDigit(s[0]) then [s[0]] + LeadingDigits(s[1..]) else ""
  }

  /** `std::stoi`: white space, a sign, digits, and whatever follows is ignored;
      it throws without a digit or outside the 32-bit range. */
  function Stoi(s: string): Option<int> {
    var t := SkipSpace(s);
    var negative := t != "" && t[0] == '-';
    var digits := LeadingDigits(if t != "" && (t[0] == '-' || t[0] == '+') then t[1..] else t);
    var n := if negative then -Decimal.Value(digits) else Decimal.Value(digits);
    if digits == "" || n < -0x8000_0000 || n > 0x7FFF_FFFF then None else Some(n)
  }

  const PREFIX: string := "GLIBC_"

  function ReadVersion(num: string): Option<Pair> {
    var d := Versions.FindDot(num, 0);
    if d == |num| then None
    else
      var major, minor := Stoi(num[..d]), Stoi(num[d + 1..]);
      if major.None? || minor.None? then None else Some((major.value, minor.value))
  }

  /** A need as `max_glibc_version` reads it. */
  function AnyNeed(v: string): Option<Pair> {
    if PREFIX <= v then ReadVersion(v[|PREFIX|..]) else None
  }

  /** A need as `max_glibc_of` reads it: `parse_glibc_version` turns negative parts away. */
  function ProperNeed(v: string): Option<Pair> {
    var p := AnyNeed(v);
    if p.Some? && p.value.0 >= 0 && p.value.1 >= 0 then p else None
  }

  // ------------------------------------------------- what is read, and from what

  /** White space, a sign, digits, and anything that is no further digit; the number is
      that of the digits with the sign, in 32 bits. */
  ghost predicate IsInt(s: string, n: int) {
    -2147483648 <= n <= 2147483647 && exists space, sign, digits, rest :: IsIntAs(s, n, space, sign, digits, rest)
  }

  predicate IsIntAs(s: string, n: int, space: string, sign: string, digits: string, rest: string) {
    && s == space + (sign + (digits + rest))
    && (forall c :: c in space ==> c == ' ' || '\t' <= c <= '\r')
    && (sign == "" || sign == "-" || sign == "+")
    && digits != "" && (forall c :: c in digits ==> '0' <= c <= '9')
    && (rest == "" || !('0' <= rest[0] <= '9'))
    && n == if sign == "-" then -Decimal.Value(digits) else Decimal.Value(digits)
  }

  lemma {:induction false} SkipsSpace(space: string, t: string)
    requires forall c :: c in space ==> c == ' ' || '\t' <= c <= '\r'
    requires t == "" || !(t[0] == ' ' || '\t' <= t[0] <= '\r')
    ensures SkipSpace(space + t) == t
  {
    if space == "" {
      assert space + t == t;
    } else {
      assert (space + t)[1..] == space[1..] + t;
      assert space[0] in space && forall c :: c in space[1..] ==> c in space;
      SkipsSpace(space[1..], t);
    }
  }

  lemma {:induction false} TakesDigits(digits: string, rest: string)
    requires forall c :: c in digits ==> '0' <= c <= '9'
    requires rest == "" || !('0' <= rest[0] <= '9')
    ensures LeadingDigits(digits + rest) == digits
  {
    if digits == "" {
      assert digits + rest == rest;
    } else {
      assert (digits + rest)[1..] == digits[1..] + rest;
      assert digits[0] in digits && forall c :: c in digits[1..] ==> c in digits;
      TakesDigits(digits[1..], rest);
      assert digits == [digits[0]] + digits[1..];
    }
  }

  lemma {:induction false} SpaceSplit(s: string) returns (space: string)
    ensures s == space + SkipSpace(s)
    ensures forall c :: c in space ==> c == ' ' || '\t' <= c <= '\r'
    ensures SkipSpace(s) == "" || !(SkipSpace(s)[0] == ' ' || '\t' <= SkipSpace(s)[0] <= '\r')
  {
    if s != "" && IsSpace(s[0]) {
      var more := SpaceSplit(s[1..]);
      space := [s[0]] + more;
      assert s == [s[0]] + s[1..];
    } else {
      space := "";
    }
  }

  lemma {:induction false} DigitsSplit(s: string) returns (rest: string)
    ensures s == LeadingDigits(s) + rest && (rest == "" || !('0' <= rest[0] <= '9'))
    ensures forall c :: c in LeadingDigits(s) ==> '0' <= c <= '9'
  {
    if s != "" && Decimal.IsDigit(s[0]) {
      rest := DigitsSplit(s[1..]);
      assert s == [s[0]] + s[1..];
    } else {
      rest := s;
    }
  }

  lemma IntIsRead(s: string, n: int, space: string, sign: string, digits: string, rest: string)
    requires -2147483648 <= n <= 2147483647 && IsIntAs(s, n, space, sign, digits, rest)
    ensures Stoi(s) == Some(n)
  {
    hide Decimal.Value;
    var t := sign + (digits + rest);
    assert t[0] == if sign == "" then digits[0] else sign[0];
    if sign == "" {
      assert t == digits + rest && digits[0] in digits;
    } else {
      assert t[1..] == digits + rest;
    }
    SkipsSpace(space, t);
    TakesDigits(digits, rest);
  }

  lemma ReadIsInt(s: string, n: int)
    requires Stoi(s) == Some(n)
    ensures IsInt(s, n)
  {
    hide Decimal.Value, SkipSpace, LeadingDigits, IsIntAs;
    var space := SpaceSplit(s);
    var t := SkipSpace(s);
    var sign := if t != "" && (t[0] == '-' || t[0] == '+') then t[..1] else "";
    var u := t[|sign|..];
    var rest := DigitsSplit(u);
    assert t == sign + u;
    IntAs(s, n, space, sign, LeadingDigits(u), rest);
  }

  lemma IntAs(s: string, n: int, space: string, sign: string, digits: string, rest: string)
    requires s == space + (sign + (digits + rest))
    requires forall c :: c in space ==> c == ' ' || '\t' <= c <= '\r'
    requires sign == "" || sign == "-" || sign == "+"
    requires digits != "" && (forall c :: c in digits ==> '0' <= c <= '9')
    requires rest == "" || !('0' <= rest[0] <= '9')
    requires n == if sign == "-" then -Decimal.Value(digits) else Decimal.Value(digits)
    ensures IsIntAs(s, n, space, sign, digits, rest)
  {
  }

  /** `std::stoi` reads `n` exactly from the texts that spell it. */
  lemma StoiExact(s: string, n: int)
    ensures Stoi(s) == Some(n) <==> IsInt(s, n)
  {
    hide Stoi, IsIntAs;
    if Stoi(s) == Some(n) {
      ReadIsInt(s, n);
    }
    if IsInt(s, n) {
      var space, sign, digits, rest :| IsIntAs(s, n, space, sign, digits, rest);
      IntIsRead(s, n, space, sign, digits, rest);
    }
  }

  /** The version `major.minor` in a need for glibc: the prefix, a number up to the first
      dot, and a number behind it. */
  ghost predicate IsVersion(v: string, major: int, minor: int) {
    exists x, y :: IsVersionAs(v, x, y, major, minor)
  }

  ghost predicate IsVersionAs(v: string, x: string, y: string, major: int, minor: int) {
    v == "GLIBC_" + (x + ("." + y)) && '.' !in x && IsInt(x, major) && IsInt(y, minor)
  }

  lemma NeedIs(v: string, x: string, y: string, major: int, minor: int)
    requires IsVersionAs(v, x, y, major, minor)
    ensures AnyNeed(v) == Some((major, minor))
  {
    hide Stoi, IsInt;
    var num := x + ("." + y);
    assert v[..6] == "GLIBC_" && v[6..] == num;
    assert num[0..|x|] == x && num[..|x|] == x && num[|x| + 1..] == y;
    Versions.DotFoundAt(num, 0, |x|);
    StoiExact(x, major);
    StoiExact(y, minor);
  }

  /** Both readers read exactly the versions that are written, the second only those
      without a negative part. */
  lemma NeedExact(v: string, major: int, minor: int)
    ensures AnyNeed(v) == Some((major, minor)) <==> IsVersion(v, major, minor)
    ensures ProperNeed(v) == Some((major, minor)) <==> IsVersion(v, major, minor) && major >= 0 && minor >= 0
  {
    hide Stoi, IsInt, IsVersionAs;
    if AnyNeed(v) == Some((major, minor)) {
      var num := v[6..];
      assert v[..6] == PREFIX && v == PREFIX + num;
      var d := Versions.FindDot(num, 0);
      Versions.NoDotBefore(num, 0);
      StoiExact(num[..d], major);
      StoiExact(num[d + 1..], minor);
      assert num == num[..d] + ("." + num[d + 1..]);
      VersionIs(v, num[..d], num[d + 1..], major, minor);
    }
    if IsVersion(v, major, minor) {
      var x, y :| IsVersionAs(v, x, y, major, minor);
      NeedIs(v, x, y, major, minor);
    }
  }

  lemma VersionIs(v: string, x: string, y: string, major: int, minor: int)
    requires v == "GLIBC_" + (x + ("." + y)) && '.' !in x && IsInt(x, major) && IsInt(y, minor)
    ensures IsVersion(v, major, minor)
  {
    hide IsInt;
    assert IsVersionAs(v, x, y, major, minor);
  }

  /** In particular what a linker writes is read back. */
  lemma WrittenVersion(a: nat, b: nat)
    requires a <= 2147483647 && b <= 2147483647
    ensures ProperNeed("GLIBC_" + (Decimal.Digits(a) + ("." + Decimal.Digits(b)))) == Some((a, b))
  {
    hide IsInt, ProperNeed;
    WrittenInt(a);
    WrittenInt(b);
    VersionIs("GLIBC_" + (Decimal.Digits(a) + ("." + Decimal.Digits(b))), Decimal.Digits(a), Decimal.Digits(b), a, b);
    NeedExact("GLIBC_" + (Decimal.Digits(a) + ("." + Decimal.Digits(b))), a, b);
  }

  lemma WrittenInt(n: nat)
    requires n <= 2147483647
    ensures IsInt(Decimal.Digits(n), n) && '.' !in Decimal.Digits(n)
  {
    var s := Decimal.Digits(n);
    Decimal.DigitsRead(n);
    assert s == "" + ("" + (s + ""));
    assert forall i :: 0 <= i < |s| ==> Decimal.IsDigit(s[i]);
    assert IsIntAs(s, n, "", "", s, "");
  }

  // --------------------------------------------------------- the running maximum

  function Raise(best: Pair, p: Option<Pair>): Pair {
    if p.Some? && Less(best, p.value) then p.value else best
  }

  function Fold(read: string -> Option<Pair>, needs: seq<string>, best: Pair): Pair {
    if needs == [] then best else Fold(read, needs[1..], Raise(best, read(needs[0])))
  }

  /** Nothing read is above it, and it was read unless it is where the search began. */
  ghost predicate Highest(read: string -> Option<Pair>, needs: seq<string>, start: Pair, best: Pair) {
    && (forall i :: 0 <= i < |needs| && read(needs[i]).Some? ==> !Less(best, read(needs[i]).value))
    && !Less(best, start)
    && (best == start || exists i :: 0 <= i < |needs| && read(needs[i]) == Some(best))
  }

  lemma {:induction false} FoldIsHighest(read: string -> Option<Pair>, needs: seq<string>, start: Pair)
    ensures Highest(read, needs, start, Fold(read, needs, start))
  {
    if needs != [] {
      var rest, next := needs[1..], Raise(start, read(needs[0]));
      FoldIsHighest(read, rest, next);
      var best := Fold(read, rest, next);
      forall i | 0 <= i < |needs| && read(needs[i]).Some?
        ensures !Less(best, read(needs[i]).value)
      {
        if i > 0 {
          assert needs[i] == rest[i - 1];
        }
      }
      if best != start && best != next {
        var i :| 0 <= i < |rest| && read(rest[i]) == Some(best);
        assert needs[i + 1] == rest[i];
      }
    }
  }

  lemma HighestIsUnique(read: string -> Option<Pair>, needs: seq<string>, start: Pair, a: Pair, b: Pair)
    requires Highest(read, needs, start, a) && Highest(read, needs, start, b)
    ensures a == b
  {
    if a != start {
      var i :| 0 <= i < |needs| && read(needs[i]) == Some(a);
    }
    if b != start {
      var i :| 0 <= i < |needs| && read(needs[i]) == Some(b);
    }
  }

  lemma {:induction false} FoldAppends(read: string -> Option<Pair>, a: seq<string>, b: seq<string>, start: Pair)
    ensures Fold(read, a + b, start) == Fold(read, b, Fold(read, a, start))
  {
    if a == [] {
      assert a + b == b;
    } else {
      assert (a + b)[1..] == a[1..] + b;
      FoldAppends(read, a[1..], b, Raise(start, read(a[0])));
    }
  }

  /** Starting higher is the same as taking the larger of the two results. */
  lemma {:induction false} FoldFrom(read: string -> Option<Pair>, needs: seq<string>, x: Pair)
    requires !Less(x, NOTHING)
    ensures Fold(read, needs, x) == Raise(x, Some(Fold(read, needs, NOTHING)))
  {
    if needs != [] {
      FoldFrom(read, needs[1..], Raise(x, read(needs[0])));
      FoldFrom(read, needs[1..], Raise(NOTHING, read(needs[0])));
    }
  }

  // ------------------------------------------------------------- the package

  /** An executable or a bundled library and the versions it needs. */
  datatype Needer = Needer(name: string, needs: seq<string>)

  function Bundled(deps: seq<Dependency>): seq<Needer> {
    if deps == [] then []
    else (if deps[0].kind.Bundle? then [Needer(deps[0].soname, deps[0].versionNeeds)] else []) + Bundled(deps[1..])
  }

  function AllNeeds(objects: seq<Needer>): seq<string> {
    if objects == [] then [] else objects[0].needs + AllNeeds(objects[1..])
  }

  /** `std::to_string`. */
  function IntText(n: int): string {
    if n < 0 then "-" + Decimal.Digits(-n) else Decimal.Digits(n)
  }

  function VersionText(p: Pair): string {
    if p.0 < 0 then "" else IntText(p.0) + "." + IntText(p.1)
  }

  function ReportBest(objects: seq<Needer>): Pair {
    Fold(AnyNeed, AllNeeds(objects), NOTHING)
  }

  function ProfileBest(objects: seq<Needer>): Pair {
    Fold(ProperNeed, AllNeeds(objects), NOTHING)
  }

  /** The highest need has a major version and a negative minor one. */
  ghost predicate TopIsNegative(needs: seq<string>) {
    exists i :: 0 <= i < |needs| && IsNegativeTop(needs, needs[i])
  }

  ghost predicate IsNegativeTop(needs: seq<string>, v: string) {
    && AnyNeed(v).Some? && AnyNeed(v).value.0 >= 0 > AnyNeed(v).value.1
    && forall j :: 0 <= j < |needs| && AnyNeed(needs[j]).Some? ==> !Less(AnyNeed(v).value, AnyNeed(needs[j]).value)
  }

  lemma TopIsBest(needs: seq<string>)
    ensures var b := Fold(AnyNeed, needs, NOTHING); TopIsNegative(needs) <==> b.0 >= 0 > b.1
  {
    hide AnyNeed, Fold;
    var b := Fold(AnyNeed, needs, NOTHING);
    FoldIsHighest(AnyNeed, needs, NOTHING);
    if TopIsNegative(needs) {
      var i :| 0 <= i < |needs| && IsNegativeTop(needs, needs[i]);
      assert !Less(b, AnyNeed(needs[i]).value);
    }
    if b.0 >= 0 > b.1 {
      var i :| 0 <= i < |needs| && AnyNeed(needs[i]) == Some(b);
      assert IsNegativeTop(needs, needs[i]);
    }
  }

  /** Where the top is not negative, both maxima are the same, or neither is any. */
  lemma BestAgrees(needs: seq<string>)
    ensures var a, p := Fold(AnyNeed, needs, NOTHING), Fold(ProperNeed, needs, NOTHING);
      (p == NOTHING || (p.0 >= 0 && p.1 >= 0)) && (if a.0 < 0 then p == NOTHING else a.1 >= 0 ==> p == a)
  {
    hide AnyNeed, Fold;
    var a, p := Fold(AnyNeed, needs, NOTHING), Fold(ProperNeed, needs, NOTHING);
    FoldIsHighest(AnyNeed, needs, NOTHING);
    FoldIsHighest(ProperNeed, needs, NOTHING);
    if p != NOTHING {
      var i :| 0 <= i < |needs| && ProperNeed(needs[i]) == Some(p);
      assert !Less(a, AnyNeed(needs[i]).value);
    }
    if a.0 >= 0 && a.1 >= 0 {
      var i :| 0 <= i < |needs| && AnyNeed(needs[i]) == Some(a);
      assert ProperNeed(needs[i]) == Some(a);
    }
  }

  lemma NoMinusSign(p: Pair)
    requires p.0 >= 0
    ensures '-' in VersionText(p) <==> p.1 < 0
  {
    var major, minor := IntText(p.0), IntText(p.1);
    assert '-' !in major;
    if p.1 < 0 {
      assert VersionText(p)[|major| + 1] == '-';
    }
  }

  /** The report and the profile verifier state the same requirement exactly when
      the highest need is not one with a negative minor version. */
  lemma RequirementsAgree(objects: seq<Needer>)
    ensures VersionText(ReportBest(objects)) == VersionText(ProfileBest(objects))
      <==> !TopIsNegative(AllNeeds(objects))
  {
    hide AnyNeed, Fold, VersionText, TopIsNegative;
    var needs := AllNeeds(objects);
    TopIsBest(needs);
    BestAgrees(needs);
    NothingHasNoText();
    var a, p := ReportBest(objects), ProfileBest(objects);
    if a.0 < 0 {
      NegativeHasNoText(a);
    } else if a.1 < 0 {
      NoMinusSign(a);
      if p.0 >= 0 {
        NoMinusSign(p);
      }
    }
  }

  lemma NothingHasNoText()
    ensures VersionText(NOTHING) == ""
  {
  }

  lemma NegativeHasNoText(p: Pair)
    requires p.0 < 0
    ensures VersionText(p) == ""
  {
  }

  /** In particular for version numbers that are never negative. */
  lemma NonNegativeAgree(objects: seq<Needer>)
    requires forall i :: 0 <= i < |AllNeeds(objects)| ==> AnyNeed(AllNeeds(objects)[i]) == ProperNeed(AllNeeds(objects)[i])
    ensures VersionText(ReportBest(objects)) == VersionText(ProfileBest(objects))
  {
    hide AnyNeed, Fold, VersionText;
    RequirementsAgree(objects);
  }

  /** The requirement of a package, without a word on how it is found: the one version
      that is read from a need and that no version read is above, or nothing. */
  lemma RequirementIsHighest(objects: seq<Needer>, best: Pair)
    ensures Highest(AnyNeed, AllNeeds(objects), NOTHING, best) <==> best == ReportBest(objects)
    ensures Highest(ProperNeed, AllNeeds(objects), NOTHING, best) <==> best == ProfileBest(objects)
  {
    hide AnyNeed, ProperNeed, Highest, Fold;
    var needs := AllNeeds(objects);
    FoldIsHighest(AnyNeed, needs, NOTHING);
    FoldIsHighest(ProperNeed, needs, NOTHING);
    if Highest(AnyNeed, needs, NOTHING, best) {
      HighestIsUnique(AnyNeed, needs, NOTHING, best, ReportBest(objects));
    }
    if Highest(ProperNeed, needs, NOTHING, best) {
      HighestIsUnique(ProperNeed, needs, NOTHING, best, ProfileBest(objects));
    }
  }

  // ------------------------------------------------------------------ the loops

  /** One list of needs, as both computations walk it. */
  method Consider(read: string -> Option<Pair>, needs: seq<string>, start: Pair) returns (best: Pair)
    ensures best == Fold(read, needs, start)
  {
    best := start;
    var i := 0;
    assert needs[0..] == needs;
    while i < |needs|
      invariant 0 <= i <= |needs|
      invariant Fold(read, needs[i..], best) == Fold(read, needs, start)
    {
      assert needs[i..][1..] == needs[i + 1..];
      var p := read(needs[i]);
      if p.Some? && (p.value.0 > best.0 || (p.value.0 == best.0 && p.value.1 > best.1)) {
        best := p.value;
      }
      i := i + 1;
    }
  }

  /** `DependencyReport::max_glibc_version`. */
  method MaxGlibcVersion(root: Needer, deps: seq<Dependency>) returns (text: string)
    ensures text == VersionText(ReportBest([root] + Bundled(deps)))
  {
    hide Fold, VersionText, AnyNeed;
    var best := Consider(AnyNeed, root.needs, NOTHING);
    var i := 0;
    RootFirst(root, deps);
    assert deps[0..] == deps;
    FoldAppends(AnyNeed, root.needs, AllNeeds(Bundled(deps)), NOTHING);
    while i < |deps|
      invariant 0 <= i <= |deps|
      invariant Fold(AnyNeed, AllNeeds(Bundled(deps[i..])), best) == ReportBest([root] + Bundled(deps))
    {
      OneMore(deps, i);
      if deps[i].kind.Bundle? {
        FoldAppends(AnyNeed, deps[i].versionNeeds, AllNeeds(Bundled(deps[i + 1..])), best);
        best := Consider(AnyNeed, deps[i].versionNeeds, best);
      }
      i := i + 1;
    }
    FoldNone(AnyNeed, best);
    text := VersionText(best);
  }

  lemma FoldNone(read: string -> Option<Pair>, best: Pair)
    ensures Fold(read, [], best) == best
  {
  }

  lemma RootFirst(root: Needer, deps: seq<Dependency>)
    ensures AllNeeds([root] + Bundled(deps)) == root.needs + AllNeeds(Bundled(deps))
  {
    assert ([root] + Bundled(deps))[1..] == Bundled(deps);
  }

  lemma OneMore(deps: seq<Dependency>, i: nat)
    requires i < |deps|
    ensures var rest := Bundled(deps[i + 1..]);
      if deps[i].kind.Bundle? then
        Bundled(deps[i..]) == [Needer(deps[i].soname, deps[i].versionNeeds)] + rest
        && AllNeeds(Bundled(deps[i..])) == deps[i].versionNeeds + AllNeeds(rest)
      else Bundled(deps[i..]) == rest
  {
    assert deps[i..][1..] == deps[i + 1..];
    var rest := Bundled(deps[i + 1..]);
    if deps[i].kind.Bundle? {
      assert ([Needer(deps[i].soname, deps[i].versionNeeds)] + rest)[1..] == rest;
    } else {
      assert [] + rest == rest;
    }
  }
}
