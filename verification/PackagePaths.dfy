/** The validator's rules for entry paths, and where the paths lead. */
module PackagePaths {
  import opened Prelude
  import Utf8

  type Blob = seq<Byte>

  const SLASH: Byte := 0x2F
  const MAX_PATH_BYTES: nat := 1024
  const MAX_PATH_COMPONENT_BYTES: nat := 255
  const MAX_PATH_DEPTH: nat := 64

  /** The bytes of an ASCII text. */
  function Ascii(s: string): Blob
    requires forall i :: 0 <= i < |s| ==> s[i] < 128 as char
  {
    seq(|s|, i requires 0 <= i < |s| => s[i] as int)
  }

  const LEXE_JSON: Blob := Ascii("lexe.json")
  const DOT: Blob := [0x2E]
  const DOT_DOT: Blob := [0x2E, 0x2E]

  function AllowedTopLevel(): set<Blob> {
    {LEXE_JSON, Ascii("signatures"), Ascii("metadata"), Ascii("icons"), Ascii("payload"), Ascii("scripts")}
  }

  // ------------------------------------------------------- splitting at slashes

  function FindSlash(b: Blob): (d: nat)
    ensures d <= |b| && (d < |b| ==> b[d] == SLASH) && SLASH !in b[..d]
  {
    if b == [] || b[0] == SLASH then 0 else
      var d := FindSlash(b[1..]) + 1;
      assert b[..d] == [b[0]] + b[1..][..d - 1];
      d
  }

  function Split(b: Blob): (r: seq<Blob>)
    ensures r != []
    decreases |b|
  {
    var d := FindSlash(b);
    if d == |b| then [b] else [b[..d]] + Split(b[d + 1..])
  }

  function Join(segs: seq<Blob>): Blob
    requires segs != []
  {
    if |segs| == 1 then segs[0] else segs[0] + [SLASH] + Join(segs[1..])
  }

  lemma {:induction false} JoinUndoesSplit(b: Blob)
    ensures Join(Split(b)) == b
    decreases |b|
  {
    hide FindSlash;
    var d := FindSlash(b);
    if d < |b| {
      JoinUndoesSplit(b[d + 1..]);
      assert Split(b)[1..] == Split(b[d + 1..]);
      assert b == b[..d] + [SLASH] + b[d + 1..];
    } else {
      assert Split(b) == [b];
    }
  }

  // -------------------------------------------------------------- the problems

  datatype PathProblem =
    | EmptySegment | TooLong | NotUtf8 | Nul | Backslash | Absolute | DepthExceeded | Traversal | DotSegment
    | ComponentTooLong | DriveLetter | TopLevelNotAllowed | LexeJsonNotFile

  function When(c: bool, p: PathProblem): seq<PathProblem> {
    if c then [p] else []
  }

  predicate EndsInSlash(name: Blob) {
    name != [] && name[|name| - 1] == SLASH
  }

  function Stem(name: Blob): Blob {
    if EndsInSlash(name) then name[..|name| - 1] else name
  }

  function WholeProblems(name: Blob): seq<PathProblem> {
    When(|name| > MAX_PATH_BYTES, TooLong) + When(!Utf8.Valid(name), NotUtf8) + When(0 in name, Nul)
    + When(0x5C in name, Backslash) + When(name != [] && name[0] == SLASH, Absolute)
  }

  predicate IsDrive(seg: Blob) {
    |seg| >= 2 && seg[1] == 0x3A && (65 <= seg[0] <= 90 || 97 <= seg[0] <= 122)
  }

  function SegmentProblems(seg: Blob): seq<PathProblem> {
    (if seg == [] then [EmptySegment] else if seg == DOT_DOT then [Traversal] else When(seg == DOT, DotSegment))
    + When(|seg| > MAX_PATH_COMPONENT_BYTES, ComponentTooLong) + When(IsDrive(seg), DriveLetter)
  }

  function AllSegments(segs: seq<Blob>): seq<PathProblem> {
    if segs == [] then [] else SegmentProblems(segs[0]) + AllSegments(segs[1..])
  }

  function TopProblems(name: Blob, segs: seq<Blob>): seq<PathProblem>
    requires segs != []
  {
    if segs[0] !in AllowedTopLevel() then [TopLevelNotAllowed]
    else When(segs[0] == LEXE_JSON && (|segs| > 1 || EndsInSlash(name)), LexeJsonNotFile)
  }

  function StemProblems(name: Blob): seq<PathProblem> {
    var stem := Stem(name);
    if stem == [] then [EmptySegment]
    else
      var segs := Split(stem);
      When(|segs| > MAX_PATH_DEPTH, DepthExceeded) + AllSegments(segs) + TopProblems(name, segs)
  }

  function Problems(name: Blob): seq<PathProblem> {
    if name == [] then [EmptySegment] else WholeProblems(name) + StemProblems(name)
  }

  /** A component: not empty, neither `.` nor `..`, of at most 255 bytes, and not begun by
      a letter and a colon. */
  predicate SegmentOk(seg: Blob) {
    && seg != [] && seg != [46] && seg != [46, 46] && |seg| <= 255
    && !(|seg| >= 2 && seg[1] == ':' as int
         && ('A' as int <= seg[0] <= 'Z' as int || 'a' as int <= seg[0] <= 'z' as int))
  }

  predicate SegmentsOk(segs: seq<Blob>) {
    forall i :: 0 <= i < |segs| ==> SegmentOk(segs[i])
  }

  /** What may stand at the top of a package. */
  predicate IsTop(seg: Blob) {
    || seg == Ascii("lexe.json") || seg == Ascii("signatures") || seg == Ascii("metadata")
    || seg == Ascii("icons") || seg == Ascii("payload") || seg == Ascii("scripts")
  }

  /** What a path must be: UTF-8 of at most 1024 bytes, relative, without NUL or backslash;
      at most 64 good components, the first of them one of six, and a manifest that is no
      directory. */
  predicate PathOk(name: Blob) {
    && name != [] && |name| <= 1024 && Utf8.Valid(name) && 0 !in name && '\\' as int !in name
    && name[0] != '/' as int
    && var segs := Split(Stem(name));
       |segs| <= 64 && SegmentsOk(segs) && IsTop(segs[0])
       && (segs[0] == LEXE_JSON ==> |segs| == 1 && !EndsInSlash(name))
  }

  lemma TopExact(seg: Blob)
    ensures seg in AllowedTopLevel() <==> IsTop(seg)
  {
    hide Ascii;
  }

  /** The components are the one list of texts without slashes that the path joins. */
  lemma SplitExact(b: Blob, segs: seq<Blob>)
    ensures Split(b) == segs <==> segs != [] && Join(segs) == b && forall i :: 0 <= i < |segs| ==> SLASH !in segs[i]
  {
    hide Split, Join;
    JoinUndoesSplit(b);
    SplitHasNoSlash(b);
    if segs != [] && forall i :: 0 <= i < |segs| ==> SLASH !in segs[i] {
      SplitUndoesJoin(segs);
    }
  }

  lemma {:induction false} SplitHasNoSlash(b: Blob)
    ensures forall i :: 0 <= i < |Split(b)| ==> SLASH !in Split(b)[i]
    decreases |b|
  {
    hide FindSlash;
    var d := FindSlash(b);
    if d < |b| {
      SplitHasNoSlash(b[d + 1..]);
      assert Split(b) == [b[..d]] + Split(b[d + 1..]);
    } else {
      assert b[..d] == b;
    }
  }

  lemma {:induction false} SplitUndoesJoin(segs: seq<Blob>)
    requires segs != [] && forall i :: 0 <= i < |segs| ==> SLASH !in segs[i]
    ensures Split(Join(segs)) == segs
  {
    hide FindSlash;
    var b := Join(segs);
    if |segs| == 1 {
      NoSlashFound(b);
    } else {
      SplitUndoesJoin(segs[1..]);
      assert b[|segs[0]|] == SLASH && b[..|segs[0]|] == segs[0] && b[|segs[0]| + 1..] == Join(segs[1..]);
      SlashFoundAt(b, |segs[0]|);
    }
  }

  lemma NoSlashFound(b: Blob)
    requires SLASH !in b
    ensures FindSlash(b) == |b|
  {
    assert forall i :: 0 <= i < |b| ==> b[i] in b;
  }

  lemma {:induction false} AllSegmentsExact(segs: seq<Blob>)
    ensures AllSegments(segs) == [] <==> SegmentsOk(segs)
  {
    hide SegmentProblems, SegmentOk;
    if segs != [] {
      AllSegmentsExact(segs[1..]);
      SegmentExact(segs[0]);
      assert forall i :: 1 <= i < |segs| ==> segs[i] == segs[1..][i - 1];
    }
  }

  lemma SegmentExact(seg: Blob)
    ensures SegmentProblems(seg) == [] <==> SegmentOk(seg)
  {
    assert DOT != [] && DOT_DOT != [] && DOT != DOT_DOT;
    assert DOT == [46] && DOT_DOT == [46, 46];
  }

  /** Nothing is reported exactly for the paths that keep every rule. */
  lemma ProblemsExact(name: Blob)
    ensures Problems(name) == [] <==> PathOk(name)
  {
    hide Utf8.Valid, Split, SegmentsOk, AllSegments, AllowedTopLevel, IsTop;
    if name != [] {
      var stem := Stem(name);
      assert stem == [] ==> name[0] == SLASH;
      AllSegmentsExact(Split(stem));
      TopExact(Split(stem)[0]);
    }
  }

  /** What each finding says of a path. */
  ghost predicate IsSo(p: PathProblem, name: Blob) {
    var stem := Stem(name);
    var segs := if name == [] || stem == [] then [] else Split(stem);
    match p
    case EmptySegment => segs == [] || [] in segs
    case TooLong => |name| > 1024
    case NotUtf8 => !Utf8.Valid(name)
    case Nul => 0 in name
    case Backslash => '\\' as int in name
    case Absolute => name != [] && name[0] == '/' as int
    case DepthExceeded => |segs| > 64
    case Traversal => [46, 46] in segs
    case DotSegment => [46] in segs
    case ComponentTooLong => exists seg :: seg in segs && |seg| > 255
    case DriveLetter => exists seg :: seg in segs && IsDrive(seg)
    case TopLevelNotAllowed => segs != [] && !IsTop(segs[0])
    case LexeJsonNotFile => segs != [] && segs[0] == LEXE_JSON && (|segs| > 1 || EndsInSlash(name))
  }

  /** What is found in a single component. */
  predicate IsSoOf(p: PathProblem, seg: Blob) {
    match p
    case EmptySegment => seg == []
    case Traversal => seg == [46, 46]
    case DotSegment => seg == [46]
    case ComponentTooLong => |seg| > 255
    case DriveLetter => IsDrive(seg)
    case _ => false
  }

  lemma SegmentFinds(p: PathProblem, seg: Blob)
    ensures p in SegmentProblems(seg) <==> IsSoOf(p, seg)
  {
    assert DOT == [46] && DOT_DOT == [46, 46];
  }

  lemma {:induction false} SegmentsFind(p: PathProblem, segs: seq<Blob>)
    ensures p in AllSegments(segs) <==> exists seg :: seg in segs && IsSoOf(p, seg)
  {
    hide SegmentProblems, IsSoOf;
    if segs != [] {
      SegmentsFind(p, segs[1..]);
      SegmentFinds(p, segs[0]);
      assert forall x :: x in segs <==> x == segs[0] || x in segs[1..];
    }
  }

  lemma WholeFinds(p: PathProblem, name: Blob)
    ensures p in WholeProblems(name) <==>
      || (p.TooLong? && |name| > 1024) || (p.NotUtf8? && !Utf8.Valid(name)) || (p.Nul? && 0 in name)
      || (p.Backslash? && '\\' as int in name) || (p.Absolute? && name != [] && name[0] == '/' as int)
  {
    hide Utf8.Valid, When;
    WhenFinds(|name| > MAX_PATH_BYTES, TooLong, p);
    WhenFinds(!Utf8.Valid(name), NotUtf8, p);
    WhenFinds(0 in name, Nul, p);
    WhenFinds(0x5C in name, Backslash, p);
    WhenFinds(name != [] && name[0] == SLASH, Absolute, p);
  }

  lemma WhenFinds(c: bool, q: PathProblem, p: PathProblem)
    ensures p in When(c, q) <==> c && p == q
  {
  }

  lemma TopFinds(p: PathProblem, name: Blob, segs: seq<Blob>)
    requires segs != []
    ensures p in TopProblems(name, segs) <==>
      || (p.TopLevelNotAllowed? && !IsTop(segs[0]))
      || (p.LexeJsonNotFile? && segs[0] == LEXE_JSON && (|segs| > 1 || EndsInSlash(name)))
  {
    hide IsTop, AllowedTopLevel, Ascii;
    TopExact(segs[0]);
    ManifestIsTop();
  }

  lemma ManifestIsTop()
    ensures IsTop(Ascii("lexe.json"))
  {
  }

  lemma Inside(segs: seq<Blob>)
    ensures [] in segs <==> exists seg :: seg in segs && IsSoOf(EmptySegment, seg)
    ensures [46, 46] in segs <==> exists seg :: seg in segs && IsSoOf(Traversal, seg)
    ensures [46] in segs <==> exists seg :: seg in segs && IsSoOf(DotSegment, seg)
    ensures (exists seg :: seg in segs && |seg| > 255) <==> exists seg :: seg in segs && IsSoOf(ComponentTooLong, seg)
    ensures (exists seg :: seg in segs && IsDrive(seg)) <==> exists seg :: seg in segs && IsSoOf(DriveLetter, seg)
  {
    assert [] in segs ==> IsSoOf(EmptySegment, []);
    assert [46, 46] in segs ==> IsSoOf(Traversal, [46, 46]);
    assert [46] in segs ==> IsSoOf(DotSegment, [46]);
    if seg :| seg in segs && |seg| > 255 {
      assert IsSoOf(ComponentTooLong, seg);
    }
    if seg :| seg in segs && IsDrive(seg) {
      assert IsSoOf(DriveLetter, seg);
    }
  }

  /** Every finding is reported exactly when what it says is so. */
  lemma FindingsExact(p: PathProblem, name: Blob)
    ensures p in Problems(name) <==> IsSo(p, name)
  {
    hide Utf8.Valid, Split, WholeProblems, AllSegments, TopProblems, IsTop, IsSoOf, IsDrive;
    if name == [] {
      Utf8.ValidUnfolds([]);
    } else {
      WholeFinds(p, name);
      if Stem(name) != [] {
        var segs := Split(Stem(name));
        SegmentsFind(p, segs);
        TopFinds(p, name, segs);
        Inside(segs);
        if !p.EmptySegment? && !p.Traversal? && !p.DotSegment? && !p.ComponentTooLong? && !p.DriveLetter? {
          OfWhole(p, segs);
        }
      }
    }
  }

  lemma OfWhole(p: PathProblem, segs: seq<Blob>)
    requires p.TooLong? || p.NotUtf8? || p.Nul? || p.Backslash? || p.Absolute? || p.DepthExceeded? || p.TopLevelNotAllowed? || p.LexeJsonNotFile?
    ensures !exists seg :: seg in segs && IsSoOf(p, seg)
  {
  }

  // ---------------------------------------------------------- where paths lead

  /** How a path is followed from a place: empty and `.` segments stay, `..` goes up. */
  function Walk(at: seq<Blob>, segs: seq<Blob>): seq<Blob>
    decreases |segs|
  {
    if segs == [] then at
    else
      var s := segs[0];
      Walk(if s == [] || s == DOT then at else if s == DOT_DOT then (if at == [] then [] else at[..|at| - 1]) else at + [s],
           segs[1..])
  }

  function Place(root: seq<Blob>, name: Blob): seq<Blob> {
    Walk(if name != [] && name[0] == SLASH then [] else root, Split(name))
  }

  lemma {:induction false} PlainWalk(at: seq<Blob>, segs: seq<Blob>)
    requires SegmentsOk(segs)
    ensures Walk(at, segs) == at + segs
    decreases |segs|
  {
    if segs == [] {
      assert at + segs == at;
    } else {
      PlainWalk(at + [segs[0]], segs[1..]);
      assert at + [segs[0]] + segs[1..] == at + segs;
    }
  }

  /** A final slash adds an empty segment and nothing else. */
  lemma {:induction false} SplitFinalSlash(b: Blob)
    ensures Split(b + [SLASH]) == Split(b) + [[]]
    decreases |b|
  {
    hide FindSlash;
    var d, t := FindSlash(b), b + [SLASH];
    assert t[..d] == b[..d];
    SlashFoundAt(t, d);
    if d < |b| {
      SplitFinalSlash(b[d + 1..]);
      assert t[d + 1..] == b[d + 1..] + [SLASH] && t[..d] == b[..d];
      assert [b[..d]] + (Split(b[d + 1..]) + [[]]) == ([b[..d]] + Split(b[d + 1..])) + [[]];
    } else {
      assert t[..d] == b && t[d + 1..] == [];
      assert Split([]) == [[]];
    }
  }

  lemma {:induction false} SlashFoundAt(b: Blob, d: nat)
    requires d < |b| && b[d] == SLASH && SLASH !in b[..d]
    ensures FindSlash(b) == d
  {
    if d > 0 {
      assert b[0] == b[..d][0] && b[1..][..d - 1] == b[..d][1..];
      SlashFoundAt(b[1..], d - 1);
    }
  }

  lemma {:induction false} WalkAppends(at: seq<Blob>, a: seq<Blob>, b: seq<Blob>)
    ensures Walk(at, a + b) == Walk(Walk(at, a), b)
    decreases |a|
  {
    if a == [] {
      assert a + b == b;
    } else {
      assert (a + b)[1..] == a[1..] + b;
      var s := a[0];
      WalkAppends(if s == [] || s == DOT then at else if s == DOT_DOT then (if at == [] then [] else at[..|at| - 1]) else at + [s], a[1..], b);
    }
  }

  /** A path without problems leads strictly inside the root, to its own segments. */
  lemma StaysInside(root: seq<Blob>, name: Blob)
    requires PathOk(name)
    ensures Place(root, name) == root + Split(Stem(name)) && |Place(root, name)| > |root|
  {
    hide Split, Walk, Utf8.Valid, IsTop;
    var segs := Split(Stem(name));
    PlainWalk(root, segs);
    if EndsInSlash(name) {
      assert name == Stem(name) + [SLASH];
      SplitFinalSlash(Stem(name));
      WalkAppends(root, segs, [[]]);
      StaysPut(root + segs);
    }
  }

  lemma StaysPut(at: seq<Blob>)
    ensures Walk(at, [[]]) == at
  {
    assert Walk(at, [[]]) == Walk(at, [[]][1..]);
  }

  /** Two such paths lead to the same place exactly when they differ in a final slash
      at most: among files, different paths go to different places. */
  lemma SamePlaceExact(root: seq<Blob>, a: Blob, b: Blob)
    requires PathOk(a) && PathOk(b)
    ensures Place(root, a) == Place(root, b) <==> Stem(a) == Stem(b)
  {
    hide PathOk, Place, Split, Join;
    StaysInside(root, a);
    StaysInside(root, b);
    JoinUndoesSplit(Stem(a));
    JoinUndoesSplit(Stem(b));
    if Place(root, a) == Place(root, b) {
      assert Place(root, a)[|root|..] == Split(Stem(a)) && Place(root, b)[|root|..] == Split(Stem(b));
    }
  }

  // ----------------------------------------------- case-insensitive filesystems

  function FoldByte(c: Byte): Byte {
    if 65 <= c <= 90 then c + 32 else c
  }

  function Fold(b: Blob): (r: Blob)
    ensures |r| == |b|
  {
    seq(|b|, i requires 0 <= i < |b| => FoldByte(b[i]))
  }

  /** The same letter in either case, or the same byte. */
  predicate SameLetter(x: Byte, y: Byte) {
    || x == y || ('A' as int <= x <= 'Z' as int && y == x + 32) || ('A' as int <= y <= 'Z' as int && x == y + 32)
  }

  lemma FoldExact(a: Blob, b: Blob)
    ensures Fold(a) == Fold(b) <==> |a| == |b| && forall i :: 0 <= i < |a| && i < |b| ==> SameLetter(a[i], b[i])
  {
    if Fold(a) == Fold(b) {
      forall i | 0 <= i < |a| ensures SameLetter(a[i], b[i]) {
        assert Fold(a)[i] == FoldByte(a[i]) && Fold(b)[i] == FoldByte(b[i]);
      }
    }
  }

  function FoldAll(place: seq<Blob>): seq<Blob> {
    seq(|place|, i requires 0 <= i < |place| => Fold(place[i]))
  }

  lemma {:induction false} FoldJoins(segs: seq<Blob>)
    requires segs != []
    ensures Fold(Join(segs)) == Join(FoldAll(segs))
  {
    if |segs| > 1 {
      FoldJoins(segs[1..]);
      assert FoldAll(segs)[1..] == FoldAll(segs[1..]);
      assert Fold(segs[0] + [SLASH] + Join(segs[1..])) == Fold(segs[0]) + [SLASH] + Fold(Join(segs[1..]));
    }
  }

  /** Where the filesystem ignores ASCII case, paths that lead to the same place are
      the same up to case: the collision that the validator looks for. */
  lemma SamePlaceWithoutCase(root: seq<Blob>, a: Blob, b: Blob)
    requires PathOk(a) && PathOk(b) && !EndsInSlash(a) && !EndsInSlash(b)
    ensures FoldAll(Place(root, a)) == FoldAll(Place(root, b)) ==> Fold(a) == Fold(b)
  {
    hide PathOk, Place, Split, Join, Fold;
    StaysInside(root, a);
    StaysInside(root, b);
    JoinUndoesSplit(a);
    JoinUndoesSplit(b);
    FoldJoins(Split(a));
    FoldJoins(Split(b));
    TailOfFold(root, Split(a));
    TailOfFold(root, Split(b));
  }

  lemma TailOfFold(root: seq<Blob>, segs: seq<Blob>)
    ensures FoldAll(root + segs)[|root|..] == FoldAll(segs)
  {
  }

  // --------------------------------------------------------- `path_problems`

  method PathProblems(name: Blob) returns (out: seq<PathProblem>)
    ensures out == Problems(name)
    ensures out == [] <==> PathOk(name)
    ensures forall p :: p in out <==> IsSo(p, name)
  {
    forall p ensures p in Problems(name) <==> IsSo(p, name) {
      FindingsExact(p, name);
    }
    hide IsSo, Split, AllSegments, Utf8.Valid, PathOk, WholeProblems, TopProblems, When;
    ProblemsExact(name);
    if name == [] {
      return [EmptySegment];
    }
    out := WholeProblems(name);
    var stem := Stem(name);
    if stem == [] {
      return out + [EmptySegment];
    }
    var segments := Split(stem);
    var found := CheckSegments(segments);
    out := out + (When(|segments| > MAX_PATH_DEPTH, DepthExceeded) + found + TopProblems(name, segments));
  }

  method CheckSegment(seg: Blob) returns (here: seq<PathProblem>)
    ensures here == SegmentProblems(seg)
  {
    hide IsDrive;
    here := [];
    if seg == [] {
      here := [EmptySegment];
    } else if seg == DOT_DOT {
      here := [Traversal];
    } else if seg == DOT {
      here := [DotSegment];
    }
    if |seg| > MAX_PATH_COMPONENT_BYTES {
      here := here + [ComponentTooLong];
    }
    if IsDrive(seg) {
      here := here + [DriveLetter];
    }
  }

  /** The loop over the segments. */
  method CheckSegments(segments: seq<Blob>) returns (found: seq<PathProblem>)
    ensures found == AllSegments(segments)
  {
    hide AllSegments, SegmentProblems;
    found := [];
    var i := 0;
    assert segments[0..] == segments;
    NoSegments();
    while i < |segments|
      invariant 0 <= i <= |segments|
      invariant found + AllSegments(segments[i..]) == AllSegments(segments)
    {
      var seg := segments[i];
      FirstSegment(segments[i..]);
      assert segments[i..][1..] == segments[i + 1..];
      var here := CheckSegment(seg);
      assert found + (here + AllSegments(segments[i + 1..])) == (found + here) + AllSegments(segments[i + 1..]);
      found := found + here;
      i := i + 1;
    }
    assert segments[i..] == [];
  }

  lemma FirstSegment(segs: seq<Blob>)
    requires segs != []
    ensures AllSegments(segs) == SegmentProblems(segs[0]) + AllSegments(segs[1..])
  {
  }

  lemma NoSegments()
    ensures AllSegments([]) == []
  {
  }
}
