/** The one version order of the runtime: components between dots, numeric ones by
    value, a numeric one before any other, the rest as byte strings. */
module Versions {
  import Lex
  import opened Decimal

  function Sign(c: int): (r: int)
    ensures -1 <= r <= 1
  {
    if c < 0 then -1 else if c > 0 then 1 else 0
  }

  predicate AllDigits(s: string) {
    s != "" && forall i :: 0 <= i < |s| ==> IsDigit(s[i])
  }

  function StripZeros(s: string): (r: string)
    ensures |r| <= |s| && (r != "" ==> r[0] != '0') && r == s[|s| - |r|..]
  {
    if s != "" && s[0] == '0' then StripZeros(s[1..]) else s
  }

  function CompareNumeric(a: string, b: string): int {
    var x, y := StripZeros(a), StripZeros(b);
    if |x| != |y| then if |x| < |y| then -1 else 1 else Lex.Compare(x, y)
  }

  function CompareComponent(a: string, b: string): int {
    if AllDigits(a) && AllDigits(b) then CompareNumeric(a, b)
    else if AllDigits(a) != AllDigits(b) then if AllDigits(a) then -1 else 1
    else Lex.Compare(a, b)
  }

  function FindDot(s: string, from: nat): (d: nat)
    requires from <= |s|
    ensures from <= d <= |s| && (d < |s| ==> s[d] == '.')
    decreases |s| - from
  {
    if from == |s| || s[from] == '.' then from else FindDot(s, from + 1)
  }

  /** The components between the dots; an empty string has one, empty. */
  function Split(s: string): (r: seq<string>)
    ensures r != []
    decreases |s|
  {
    var d := FindDot(s, 0);
    if d == |s| then [s] else [s[..d]] + Split(s[d + 1..])
  }

  /** Lexicographic: the first difference decides, and a strict prefix is smaller. */
  function CompareLists(a: seq<string>, b: seq<string>): int {
    if a == [] || b == [] then
      if a == [] && b == [] then 0 else if a == [] then -1 else 1
    else
      var c := CompareComponent(a[0], b[0]);
      if c != 0 then c else CompareLists(a[1..], b[1..])
  }

  function Compare(a: string, b: string): int {
    CompareLists(Split(a), Split(b))
  }

  // ---------------------------------------------- digit strings are numbers

  function Power10(n: nat): (r: nat)
    ensures r > 0
  {
    if n == 0 then 1 else 10 * Power10(n - 1)
  }

  predicate Digits(s: string) {
    forall i :: 0 <= i < |s| ==> IsDigit(s[i])
  }

  /** Reading from the front instead. */
  lemma {:induction false} ValueFront(s: string)
    requires s != ""
    ensures Value(s) == DigitOf(s[0]) * Power10(|s| - 1) + Value(s[1..])
  {
    hide Value, Power10;
    ValueBack(s);
    if |s| == 1 {
      assert s[..0] == "" && s[1..] == "";
      OneDigit(s[0]);
    } else {
      var t := s[..|s| - 1];
      ValueFront(t);
      assert t[1..] == s[1..][..|s| - 2];
      ValueBack(s[1..]);
      PowerStep(DigitOf(s[0]), |s| - 2);
    }
  }

  lemma ValueBack(s: string)
    requires s != ""
    ensures Value(s) == 10 * Value(s[..|s| - 1]) + DigitOf(s[|s| - 1])
  {
  }

  lemma OneDigit(c: char)
    ensures Value("") == 0 && DigitOf(c) * Power10(0) == DigitOf(c)
  {
  }

  lemma PowerStep(d: int, n: nat)
    ensures d * Power10(n + 1) == 10 * (d * Power10(n))
  {
  }

  lemma {:induction false} ValueBelow(s: string)
    requires Digits(s)
    ensures 0 <= Value(s) < Power10(|s|)
  {
    if s != "" {
      ValueBelow(s[..|s| - 1]);
    }
  }

  lemma {:induction false} StripKeepsValue(s: string)
    ensures Value(StripZeros(s)) == Value(s)
    ensures Digits(s) ==> Digits(StripZeros(s))
  {
    hide Value, Power10;
    if s != "" && s[0] == '0' {
      ValueFront(s);
      ZeroTimes(Power10(|s| - 1));
      StripKeepsValue(s[1..]);
    }
  }

  lemma {:induction false} PowerGrows(m: nat, n: nat)
    requires m <= n
    ensures Power10(m) <= Power10(n)
  {
    if m < n {
      PowerGrows(m, n - 1);
    }
  }

  /** Without leading zeros, the longer number is the larger one. */
  lemma LongerIsLarger(a: string, b: string)
    requires Digits(a) && Digits(b) && |a| < |b| && b[0] != '0'
    ensures Value(a) < Value(b)
  {
    ValueBelow(a);
    ValueBelow(b[1..]);
    ValueFront(b);
    PowerGrows(|a|, |b| - 1);
    assert 1 <= DigitOf(b[0]);
    AtLeastOnce(DigitOf(b[0]), Power10(|b| - 1));
  }

  lemma ZeroTimes(p: nat)
    ensures DigitOf('0') * p == 0
  {
  }

  lemma AtLeastOnce(k: int, p: nat)
    requires k >= 1
    ensures k * p >= p
  {
  }

  lemma DigitStep(x: int, y: int, p: nat, u: int, v: int)
    requires x < y && 0 <= u < p && 0 <= v
    ensures x * p + u < y * p + v
  {
    assert y * p - x * p == (y - x) * p;
    AtLeastOnce(y - x, p);
  }

  lemma {:induction false} SameLengthByBytes(a: string, b: string)
    requires Digits(a) && Digits(b) && |a| == |b|
    ensures Lex.Compare(a, b) == Sign(Value(a) - Value(b))
  {
    if a != "" {
      ValueFront(a);
      ValueFront(b);
      ValueBelow(a[1..]);
      ValueBelow(b[1..]);
      var x, y, p := DigitOf(a[0]), DigitOf(b[0]), Power10(|a| - 1);
      if x == y {
        SameLengthByBytes(a[1..], b[1..]);
      } else if x < y {
        DigitStep(x, y, p, Value(a[1..]), Value(b[1..]));
      } else {
        DigitStep(y, x, p, Value(b[1..]), Value(a[1..]));
      }
    }
  }

  /** Digit components compare by the numbers they stand for, at any length. */
  lemma NumericByValue(a: string, b: string)
    requires AllDigits(a) && AllDigits(b)
    ensures CompareComponent(a, b) == Sign(Value(a) - Value(b))
  {
    hide Value, Lex.Compare, StripZeros;
    var x, y := StripZeros(a), StripZeros(b);
    StripKeepsValue(a);
    StripKeepsValue(b);
    if |x| < |y| {
      LongerIsLarger(x, y);
    } else if |y| < |x| {
      LongerIsLarger(y, x);
    } else {
      SameLengthByBytes(x, y);
    }
  }

  // ------------------------------------------------------- a total preorder

  lemma ComponentFlips(a: string, b: string)
    ensures CompareComponent(b, a) == -CompareComponent(a, b)
  {
    if AllDigits(a) && AllDigits(b) {
      NumericByValue(a, b);
      NumericByValue(b, a);
    } else {
      Lex.CompareFlips(a, b);
    }
  }

  lemma ComponentTransitive(a: string, b: string, c: string)
    requires CompareComponent(a, b) <= 0 && CompareComponent(b, c) <= 0
    ensures CompareComponent(a, c) <= 0
    ensures CompareComponent(a, b) < 0 || CompareComponent(b, c) < 0 ==> CompareComponent(a, c) < 0
  {
    hide CompareNumeric, Value, Lex.Compare, AllDigits;
    if AllDigits(a) && AllDigits(b) && AllDigits(c) {
      NumericByValue(a, b);
      NumericByValue(b, c);
      NumericByValue(a, c);
    } else if !AllDigits(a) && !AllDigits(b) && !AllDigits(c) {
      Lex.CompareTransitive(a, b, c);
    }
  }

  lemma {:induction false} ListsFlip(a: seq<string>, b: seq<string>)
    ensures CompareLists(b, a) == -CompareLists(a, b)
  {
    if a != [] && b != [] {
      ComponentFlips(a[0], b[0]);
      ListsFlip(a[1..], b[1..]);
    }
  }

  lemma {:induction false} ListsTransitive(a: seq<string>, b: seq<string>, c: seq<string>)
    requires CompareLists(a, b) <= 0 && CompareLists(b, c) <= 0
    ensures CompareLists(a, c) <= 0
    ensures CompareLists(a, b) < 0 || CompareLists(b, c) < 0 ==> CompareLists(a, c) < 0
  {
    if a != [] && b != [] && c != [] {
      ComponentTransitive(a[0], b[0], c[0]);
      if CompareComponent(a[0], b[0]) == 0 && CompareComponent(b[0], c[0]) == 0 {
        ComponentFlips(a[0], b[0]);
        ComponentFlips(b[0], c[0]);
        ComponentFlips(a[0], c[0]);
        ComponentTransitive(c[0], b[0], a[0]);
        ListsTransitive(a[1..], b[1..], c[1..]);
      }
    }
  }

  /** The order is a total preorder: comparing the other way round flips the
      sign, and "not above" and "below" are transitive. */
  lemma TotalPreorder(a: string, b: string, c: string)
    ensures Compare(b, a) == -Compare(a, b) && Compare(a, a) == 0
    ensures Compare(a, b) <= 0 && Compare(b, c) <= 0 ==> Compare(a, c) <= 0
    ensures Compare(a, b) < 0 && Compare(b, c) <= 0 ==> Compare(a, c) < 0
    ensures Compare(a, b) <= 0 && Compare(b, c) < 0 ==> Compare(a, c) < 0
  {
    ListsFlip(Split(a), Split(b));
    ListsFlip(Split(a), Split(a));
    if Compare(a, b) <= 0 && Compare(b, c) <= 0 {
      ListsTransitive(Split(a), Split(b), Split(c));
    }
  }

  /** Versions that compare equal are interchangeable. */
  lemma EqualIsCongruent(a: string, b: string, c: string)
    requires Compare(a, b) == 0
    ensures Compare(a, c) == Compare(b, c)
  {
    TotalPreorder(a, b, c);
    TotalPreorder(b, a, c);
    TotalPreorder(c, a, b);
    TotalPreorder(c, b, a);
    TotalPreorder(a, c, b);
    CompareIsSign(Split(a), Split(c));
    CompareIsSign(Split(b), Split(c));
  }

  lemma {:induction false} CompareIsSign(a: seq<string>, b: seq<string>)
    ensures -1 <= CompareLists(a, b) <= 1
  {
    if a != [] && b != [] {
      CompareIsSign(a[1..], b[1..]);
    }
  }

  /** A version whose first component is not a number is above every version
      whose first component is. */
  lemma NonNumericIsAbove(a: string, b: string)
    requires AllDigits(Split(a)[0]) && !AllDigits(Split(b)[0])
    ensures Compare(a, b) < 0
  {
  }

  // ----------------------------------------------------------- the order, as such

  /** The components with dots between them. */
  function Joined(parts: seq<string>): string
    requires parts != []
  {
    if |parts| == 1 then parts[0] else parts[0] + "." + Joined(parts[1..])
  }

  ghost predicate NoDots(parts: seq<string>) {
    forall i :: 0 <= i < |parts| ==> '.' !in parts[i]
  }

  lemma {:induction false} SplitJoins(s: string)
    ensures NoDots(Split(s)) && Joined(Split(s)) == s
    decreases |s|
  {
    hide FindDot;
    var d := FindDot(s, 0);
    NoDotBefore(s, 0);
    SplitFirst(s);
    if d < |s| {
      SplitJoins(s[d + 1..]);
      assert ([s[..d]] + Split(s[d + 1..]))[1..] == Split(s[d + 1..]);
      assert s == s[..d] + "." + s[d + 1..];
    }
  }

  lemma {:induction false} JoinSplits(parts: seq<string>)
    requires parts != [] && NoDots(parts)
    ensures Split(Joined(parts)) == parts
  {
    hide FindDot;
    var s := Joined(parts);
    SplitFirst(s);
    if |parts| == 1 {
      DotFoundAt(s, 0, |s|);
    } else {
      JoinSplits(parts[1..]);
      assert s[|parts[0]|] == '.' && s[0..|parts[0]|] == parts[0] && s[|parts[0]| + 1..] == Joined(parts[1..]);
      DotFoundAt(s, 0, |parts[0]|);
    }
  }

  /** The components are the one list of dotless texts that the version joins. */
  lemma SplitExact(s: string, parts: seq<string>)
    ensures Split(s) == parts <==> parts != [] && NoDots(parts) && Joined(parts) == s
  {
    hide Split;
    SplitJoins(s);
    if parts != [] && NoDots(parts) {
      JoinSplits(parts);
    }
  }

  predicate IsNumber(s: string) {
    s != "" && forall c :: c in s ==> '0' <= c <= '9'
  }

  lemma IsNumberExact(s: string)
    ensures AllDigits(s) <==> IsNumber(s)
  {
    assert forall i :: 0 <= i < |s| ==> s[i] in s;
  }

  /** Numbers by their value, a number below anything else, and the rest byte by byte. */
  ghost predicate IsBelow(x: string, y: string) {
    || (IsNumber(x) && IsNumber(y) && Value(x) < Value(y))
    || (IsNumber(x) && !IsNumber(y))
    || (!IsNumber(x) && !IsNumber(y) && Lex.Precedes(x, y))
  }

  predicate IsLevel(x: string, y: string) {
    if IsNumber(x) && IsNumber(y) then Value(x) == Value(y) else x == y
  }

  lemma ComponentExact(x: string, y: string)
    ensures CompareComponent(x, y) < 0 <==> IsBelow(x, y)
    ensures CompareComponent(x, y) == 0 <==> IsLevel(x, y)
  {
    hide CompareNumeric, Value, Lex.Compare, Lex.Precedes, AllDigits, IsNumber;
    IsNumberExact(x);
    IsNumberExact(y);
    if AllDigits(x) && AllDigits(y) {
      NumericByValue(x, y);
    } else {
      Lex.CompareExact(x, y);
    }
  }

  /** The first `k` components are level, and then the one list ends or differs. */
  ghost predicate PrecedesAt(x: seq<string>, y: seq<string>, k: nat) {
    && k <= |x| && k < |y| && (forall i :: 0 <= i < k ==> IsLevel(x[i], y[i]))
    && (k == |x| || IsBelow(x[k], y[k]))
  }

  ghost predicate ListPrecedes(x: seq<string>, y: seq<string>) {
    exists k :: PrecedesAt(x, y, k)
  }

  lemma ListPrecedesNext(x: seq<string>, y: seq<string>)
    requires x != [] && y != [] && IsLevel(x[0], y[0])
    ensures ListPrecedes(x, y) <==> ListPrecedes(x[1..], y[1..])
  {
    hide IsLevel, IsBelow;
    LevelIsNotBelow(x[0], y[0]);
    if ListPrecedes(x, y) {
      var k: nat :| PrecedesAt(x, y, k);
      assert k > 0;
      assert PrecedesAt(x[1..], y[1..], k - 1);
    }
    if ListPrecedes(x[1..], y[1..]) {
      var k: nat :| PrecedesAt(x[1..], y[1..], k);
      forall i | 0 <= i < k + 1 ensures IsLevel(x[i], y[i]) {
        assert i > 0 ==> x[i] == x[1..][i - 1] && y[i] == y[1..][i - 1];
      }
      assert PrecedesAt(x, y, k + 1);
    }
  }

  lemma LevelIsNotBelow(x: string, y: string)
    ensures IsLevel(x, y) ==> !IsBelow(x, y)
  {
    hide CompareComponent;
    ComponentExact(x, y);
  }

  lemma {:induction false} ListsExact(x: seq<string>, y: seq<string>)
    ensures CompareLists(x, y) < 0 <==> ListPrecedes(x, y)
  {
    hide CompareComponent, IsLevel, IsBelow;
    if x == [] || y == [] {
      if x == [] && y != [] {
        assert PrecedesAt(x, y, 0);
      }
    } else {
      ComponentExact(x[0], y[0]);
      if IsLevel(x[0], y[0]) {
        ListsExact(x[1..], y[1..]);
        ListPrecedesNext(x, y);
      } else if IsBelow(x[0], y[0]) {
        assert PrecedesAt(x, y, 0);
      }
    }
  }

  /** A version is below another exactly if its components precede those of the other;
      with the sign flipped, above; and equal otherwise. */
  lemma OrderExact(a: string, b: string)
    ensures Compare(a, b) < 0 <==> ListPrecedes(Split(a), Split(b))
    ensures Compare(a, b) > 0 <==> ListPrecedes(Split(b), Split(a))
  {
    hide CompareLists, ListPrecedes, Split;
    ListsExact(Split(a), Split(b));
    ListsExact(Split(b), Split(a));
    ListsFlip(Split(a), Split(b));
  }

  // ------------------------------------------------------------------ the loop

  /** `compare_versions`. */
  method CompareVersions(a: string, b: string) returns (r: int)
    ensures r == Compare(a, b)
    ensures r < 0 <==> ListPrecedes(Split(a), Split(b))
    ensures r > 0 <==> ListPrecedes(Split(b), Split(a))
  {
    OrderExact(a, b);
    hide ListPrecedes, Split, CompareComponent, FindDot, CompareLists, Rest;
    var pa, pb, moreA, moreB := 0, 0, true, true;
    RestIsAll(a);
    RestIsAll(b);
    while moreA && moreB
      invariant (moreA ==> pa <= |a|) && (moreB ==> pb <= |b|)
      invariant CompareLists(Rest(a, pa, moreA), Rest(b, pb, moreB)) == Compare(a, b)
      decreases (if moreA then |a| - pa + 1 else 0) + (if moreB then |b| - pb + 1 else 0)
    {
      var dotA, dotB := FindDot(a, pa), FindDot(b, pb);
      SplitRest(a, pa);
      SplitRest(b, pb);
      var c := CompareComponent(a[pa..dotA], b[pb..dotB]);
      OneStep(a[pa..dotA], Rest(a, dotA + 1, dotA != |a|), b[pb..dotB], Rest(b, dotB + 1, dotB != |b|));
      if c != 0 {
        return c;
      }
      moreA, moreB := dotA != |a|, dotB != |b|;
      pa, pb := dotA + 1, dotB + 1;
    }
    RestIsNone(a, pa, moreA);
    RestIsNone(b, pb, moreB);
    Ending(Rest(a, pa, moreA), Rest(b, pb, moreB));
    r := if moreA == moreB then 0 else if moreA then 1 else -1;
  }

  /** The components that are left from position `p`. */
  ghost function Rest(s: string, p: nat, more: bool): seq<string>
    requires more ==> p <= |s|
  {
    if more then Split(s[p..]) else []
  }

  lemma RestIsAll(s: string)
    ensures Rest(s, 0, true) == Split(s)
  {
    assert s[0..] == s;
  }

  lemma RestIsNone(s: string, p: nat, more: bool)
    requires more ==> p <= |s|
    ensures Rest(s, p, more) == [] <==> !more
  {
  }

  lemma OneStep(x: string, a: seq<string>, y: string, b: seq<string>)
    ensures var c := CompareComponent(x, y);
      CompareLists([x] + a, [y] + b) == if c != 0 then c else CompareLists(a, b)
  {
    assert ([x] + a)[1..] == a && ([y] + b)[1..] == b;
  }

  lemma Ending(a: seq<string>, b: seq<string>)
    requires a == [] || b == []
    ensures CompareLists(a, b) == if a == b then 0 else if a == [] then -1 else 1
  {
  }

  lemma {:induction false} DotFrom(s: string, p: nat, k: nat)
    requires p + k <= |s|
    ensures FindDot(s[p..], k) == FindDot(s, p + k) - p
    decreases |s| - p - k
  {
    if p + k < |s| && s[p + k] != '.' {
      DotFrom(s, p, k + 1);
    }
  }

  lemma SplitFirst(s: string)
    ensures var d := FindDot(s, 0);
      Split(s) == [s[..d]] + (if d == |s| then [] else Split(s[d + 1..]))
  {
    assert s[..|s|] == s;
  }

  lemma SplitRest(s: string, p: nat)
    requires p <= |s|
    ensures Rest(s, p, true) == [s[p..FindDot(s, p)]] + Rest(s, FindDot(s, p) + 1, FindDot(s, p) != |s|)
  {
    hide Rest, Split, FindDot;
    DotFromHere(s, p);
    RestAt(s, p, FindDot(s, p));
  }

  lemma DotFromHere(s: string, p: nat)
    requires p <= |s|
    ensures FindDot(s[p..], 0) == FindDot(s, p) - p
  {
    DotFrom(s, p, 0);
  }

  lemma RestAt(s: string, p: nat, d: nat)
    requires p <= d <= |s| && FindDot(s[p..], 0) == d - p
    ensures Rest(s, p, true) == [s[p..d]] + Rest(s, d + 1, d != |s|)
  {
    SplitAt(s, p, d);
  }

  lemma SplitAt(s: string, p: nat, d: nat)
    requires p <= d <= |s| && FindDot(s[p..], 0) == d - p
    ensures Split(s[p..]) == [s[p..d]] + (if d == |s| then [] else Split(s[d + 1..]))
  {
    hide Split, FindDot;
    SplitFirst(s[p..]);
    CutAgain(s, p, d);
  }

  lemma {:induction false} DotFoundAt(s: string, p: nat, d: nat)
    requires p <= d <= |s| && (d < |s| ==> s[d] == '.') && '.' !in s[p..d]
    ensures FindDot(s, p) == d
    decreases d - p
  {
    if p < d {
      assert s[p] == s[p..d][0] && s[p + 1..d] == s[p..d][1..];
      DotFoundAt(s, p + 1, d);
    }
  }

  lemma {:induction false} NoDotBefore(s: string, p: nat)
    requires p <= |s|
    ensures '.' !in s[p..FindDot(s, p)]
    decreases |s| - p
  {
    if p < |s| && s[p] != '.' {
      NoDotBefore(s, p + 1);
      var d := FindDot(s, p);
      assert s[p..d] == [s[p]] + s[p + 1..d];
    }
  }

  lemma SplitTwo(x: string, y: string)
    requires '.' !in x && '.' !in y
    ensures Split(x + "." + y) == [x, y]
  {
    hide FindDot, Split;
    var s := x + "." + y;
    assert s[0..|x|] == x && s[|x| + 1..] == y && y[0..|y|] == y;
    DotFoundAt(s, 0, |x|);
    DotFoundAt(y, 0, |y|);
    SplitFirst(s);
    SplitFirst(y);
  }

  lemma CutAgain(s: string, p: nat, d: nat)
    requires p <= d <= |s|
    ensures s[p..][..d - p] == s[p..d] && (d < |s| ==> s[p..][d - p + 1..] == s[d + 1..])
  {
  }
}
