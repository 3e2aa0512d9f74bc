/** Which entries a package may have and how each of them is covered by a signature
    or by a signed digest. */
module Coverage {
  import opened Prelude
  import opened PackagePaths
  import Utf8
  import ZipFraming
  import opened Json

  /** The entries in central-directory order; `replace` is how undecodable names are
      shown, and `digest` the SHA-256 of an entry's data, unless it cannot be read. */
  datatype Archive = Archive(entries: seq<ZipFraming.Entry>, replace: Blob -> string, digest: nat -> Option<string>)

  const MANIFEST: string := "lexe.json"
  const HASHES: string := "metadata/hashes.json"
  const MANIFEST_SIG: string := "signatures/manifest.sig"
  const PAYLOAD_SIG: string := "signatures/payload.sig"
  const SIGNATURES: string := "signatures/"

  function Required(): seq<string> {
    [MANIFEST, HASHES, MANIFEST_SIG, PAYLOAD_SIG]
  }

  function TextOf(cs: seq<int>): (s: string)
    requires Utf8.Scalars(cs)
    ensures |s| == |cs| && forall i :: 0 <= i < |s| ==> s[i] as int == cs[i]
  {
    seq(|cs|, i requires 0 <= i < |cs| => cs[i] as char)
  }

  /** The name as text. */
  function Name(a: Archive, i: nat): string
    requires i < |a.entries|
  {
    var b := a.entries[i].name;
    if Utf8.Valid(b) then Utf8.DecodeThenEncode(b); TextOf(Utf8.Decode(b)) else a.replace(b)
  }

  /** A final slash or the DOS directory attribute. */
  predicate IsDirectory(e: ZipFraming.Entry) {
    EndsInSlash(e.name) || e.attr / 16 % 2 == 1
  }

  lemma NamesInjective(a: Archive, i: nat, j: nat)
    requires i < |a.entries| && j < |a.entries|
    requires Utf8.Valid(a.entries[i].name) && Utf8.Valid(a.entries[j].name)
    ensures Name(a, i) == Name(a, j) <==> a.entries[i].name == a.entries[j].name
  {
    hide Utf8.Valid, Utf8.Decode, Utf8.Encode;
    var b, c := a.entries[i].name, a.entries[j].name;
    Utf8.DecodeThenEncode(b);
    Utf8.DecodeThenEncode(c);
    if Name(a, i) == Name(a, j) {
      assert Utf8.Decode(b) == Utf8.Decode(c);
    }
  }

  lemma AsciiReads(a: Archive, i: nat, s: string)
    requires i < |a.entries| && forall k :: 0 <= k < |s| ==> s[k] < 128 as char
    requires a.entries[i].name == Ascii(s)
    ensures Name(a, i) == s
  {
    hide Utf8.Valid, Utf8.Decode, Utf8.Encode;
    var b := Ascii(s);
    Utf8.AsciiEncodes(b);
    Utf8.EncodeThenDecode(b);
    assert TextOf(b) == s;
  }

  // ------------------------------------------------------------- the entries

  predicate SignatureMember(a: Archive, i: nat)
    requires i < |a.entries|
  {
    SIGNATURES <= Name(a, i) && Name(a, i) != MANIFEST_SIG && Name(a, i) != PAYLOAD_SIG
  }

  predicate Repeats(a: Archive, i: nat)
    requires i < |a.entries|
  {
    exists j :: 0 <= j < i && a.entries[j].name == a.entries[i].name
  }

  /** The first entry with this name up to case has another name. */
  predicate Collides(a: Archive, i: nat)
    requires i < |a.entries|
  {
    exists j :: 0 <= j < i && IsFirstFold(a, j, Fold(a.entries[i].name)) && a.entries[j].name != a.entries[i].name
  }

  predicate IsFirstFold(a: Archive, j: nat, fold: Blob)
    requires j < |a.entries|
  {
    Fold(a.entries[j].name) == fold && forall k :: 0 <= k < j ==> Fold(a.entries[k].name) != fold
  }

  predicate Present(a: Archive, s: string) {
    exists i :: 0 <= i < |a.entries| && !IsDirectory(a.entries[i]) && a.entries[i].name == Bytes(s)
  }

  function Bytes(s: string): Blob {
    if forall i :: 0 <= i < |s| ==> s[i] < 128 as char then Ascii(s) else []
  }

  datatype EntryCode =
    | Unexpected(i: nat) | Path(i: nat, p: PathProblem) | Duplicate(i: nat) | CaseCollision(i: nat)
    | Directory(i: nat) | Missing(s: string)

  predicate EntryOk(a: Archive, i: nat)
    requires i < |a.entries|
  {
    PathOk(a.entries[i].name) && !Repeats(a, i) && !Collides(a, i) && !IsDirectory(a.entries[i])
  }

  /** No finding about the entries. */
  predicate EntriesOk(a: Archive) {
    && (forall i :: 0 <= i < |a.entries| ==> !SignatureMember(a, i))
    && (forall i :: 0 <= i < |a.entries| ==> EntryOk(a, i))
    && (forall i :: 0 <= i < |Required()| ==> Present(a, Required()[i]))
  }

  /** The part of `check_container` that is about names: with `seen` and `seen_fold`
      as the source keeps them. */
  method CheckEntries(a: Archive) returns (codes: seq<EntryCode>)
    ensures codes == [] <==> EntriesOk(a)
    ensures forall i :: 0 <= i < |a.entries| ==> (Duplicate(i) in codes <==> Repeats(a, i))
    ensures forall i :: 0 <= i < |a.entries| ==> (CaseCollision(i) in codes <==> Collides(a, i))
    ensures forall i :: 0 <= i < |a.entries| ==> (Unexpected(i) in codes <==> SignatureMember(a, i))
    ensures forall i :: 0 <= i < |a.entries| ==> (Directory(i) in codes <==> IsDirectory(a.entries[i]))
    ensures forall i, p :: 0 <= i < |a.entries| ==> (Path(i, p) in codes <==> IsSo(p, a.entries[i].name))
    ensures forall s :: Missing(s) in codes <==> s in Required() && !Present(a, s)
  {
    hide PathOk, Fold, Name, IsFirstFold, Repeats, Collides, SignatureMember, IsDirectory, Present, IsSo, Required;
    var first := CheckSignatureNames(a);
    var middle := CheckNames(a);
    var last := CheckRequired(a);
    codes := first + middle + last;
  }

  method CheckSignatureNames(a: Archive) returns (codes: seq<EntryCode>)
    ensures codes == [] <==> forall i :: 0 <= i < |a.entries| ==> !SignatureMember(a, i)
    ensures forall c | c in codes :: c.Unexpected?
    ensures forall i :: 0 <= i < |a.entries| ==> (Unexpected(i) in codes <==> SignatureMember(a, i))
  {
    hide Name, SignatureMember;
    codes := [];
    for i := 0 to |a.entries|
      invariant codes == [] <==> forall k :: 0 <= k < i ==> !SignatureMember(a, k)
      invariant forall c | c in codes :: c.Unexpected? && c.i < i
      invariant forall k :: 0 <= k < i ==> (Unexpected(k) in codes <==> SignatureMember(a, k))
    {
      if SignatureMember(a, i) {
        codes := codes + [Unexpected(i)];
      }
    }
  }

  method CheckRequired(a: Archive) returns (codes: seq<EntryCode>)
    ensures codes == [] <==> forall i :: 0 <= i < |Required()| ==> Present(a, Required()[i])
    ensures forall c | c in codes :: c.Missing?
    ensures forall s :: Missing(s) in codes <==> s in Required() && !Present(a, s)
  {
    hide Present, Required;
    codes := [];
    for i := 0 to |Required()|
      invariant codes == [] <==> forall k :: 0 <= k < i ==> Present(a, Required()[k])
      invariant forall c | c in codes :: c.Missing?
      invariant forall s :: Missing(s) in codes <==> s in Required()[..i] && !Present(a, s)
    {
      assert Required()[..i + 1] == Required()[..i] + [Required()[i]];
      if !Present(a, Required()[i]) {
        codes := codes + [Missing(Required()[i])];
      }
    }
    assert Required()[..|Required()|] == Required();
  }

  /** What `seen` and `seen_fold` hold after `n` entries. */
  ghost predicate Seen(a: Archive, n: nat, seen: map<Blob, nat>, folds: map<Blob, Blob>)
    requires n <= |a.entries|
  {
    && (forall b :: b in seen <==> exists j :: 0 <= j < n && a.entries[j].name == b)
    && (forall f :: f in folds <==> exists j :: 0 <= j < n && IsFirstFold(a, j, f))
    && (forall j, f | 0 <= j < n && IsFirstFold(a, j, f) :: f in folds && folds[f] == a.entries[j].name)
  }

  lemma SeenTells(a: Archive, n: nat, seen: map<Blob, nat>, folds: map<Blob, Blob>)
    requires n < |a.entries| && Seen(a, n, seen, folds)
    ensures a.entries[n].name in seen <==> Repeats(a, n)
    ensures var f := Fold(a.entries[n].name); (f in folds && folds[f] != a.entries[n].name) <==> Collides(a, n)
  {
    hide Fold, IsFirstFold;
    var f := Fold(a.entries[n].name);
    if f in folds {
      var j :| 0 <= j < n && IsFirstFold(a, j, f);
    }
  }

  lemma {:induction false} NoFirstNoFold(a: Archive, n: nat, f: Blob)
    requires n <= |a.entries| && forall k :: 0 <= k < n ==> !IsFirstFold(a, k, f)
    ensures forall k :: 0 <= k < n ==> Fold(a.entries[k].name) != f
  {
    hide Fold;
    if n > 0 {
      NoFirstNoFold(a, n - 1, f);
      assert !IsFirstFold(a, n - 1, f);
    }
  }

  lemma SeenMore(a: Archive, n: nat, seen: map<Blob, nat>, folds: map<Blob, Blob>)
    requires n < |a.entries| && Seen(a, n, seen, folds)
    ensures var b := a.entries[n].name; var f := Fold(b);
      Seen(a, n + 1, if b in seen then seen else seen[b := n], if f in folds then folds else folds[f := b])
  {
    hide Fold;
    var b := a.entries[n].name;
    var f := Fold(b);
    if f in folds {
      var j :| 0 <= j < n && IsFirstFold(a, j, f);
      assert !IsFirstFold(a, n, f);
    } else {
      NoFirstNoFold(a, n, f);
      assert IsFirstFold(a, n, f);
    }
    var folds' := if f in folds then folds else folds[f := b];
    forall g
      ensures g in folds' <==> exists j :: 0 <= j < n + 1 && IsFirstFold(a, j, g)
    {
      if g in folds {
        var j :| 0 <= j < n && IsFirstFold(a, j, g);
        assert 0 <= j < n + 1 && IsFirstFold(a, j, g);
      }
      if g == f && f !in folds {
        assert 0 <= n < n + 1 && IsFirstFold(a, n, g);
      }
    }
  }

  method CheckNames(a: Archive) returns (codes: seq<EntryCode>)
    ensures codes == [] <==> forall i :: 0 <= i < |a.entries| ==> EntryOk(a, i)
    ensures forall i :: 0 <= i < |a.entries| ==> (Duplicate(i) in codes <==> Repeats(a, i))
    ensures forall i :: 0 <= i < |a.entries| ==> (CaseCollision(i) in codes <==> Collides(a, i))
    ensures forall i :: 0 <= i < |a.entries| ==> (Directory(i) in codes <==> IsDirectory(a.entries[i]))
    ensures forall i, p :: 0 <= i < |a.entries| ==> (Path(i, p) in codes <==> IsSo(p, a.entries[i].name))
    ensures forall c | c in codes :: !c.Unexpected? && !c.Missing?
  {
    hide PathOk, Fold, IsFirstFold, Repeats, Collides, IsDirectory, Seen, IsSo;
    codes := [];
    var seen: map<Blob, nat>, folds: map<Blob, Blob> := map[], map[];
    NothingSeen(a);
    for i := 0 to |a.entries|
      invariant Seen(a, i, seen, folds)
      invariant codes == [] <==> forall k :: 0 <= k < i ==> EntryOk(a, k)
      invariant forall k :: 0 <= k < i ==> (Duplicate(k) in codes <==> Repeats(a, k))
      invariant forall k :: 0 <= k < i ==> (CaseCollision(k) in codes <==> Collides(a, k))
      invariant forall k :: 0 <= k < i ==> (Directory(k) in codes <==> IsDirectory(a.entries[k]))
      invariant forall k, p :: 0 <= k < i ==> (Path(k, p) in codes <==> IsSo(p, a.entries[k].name))
      invariant forall c | c in codes :: !c.Unexpected? && !c.Missing? && c.i < i
    {
      SeenTells(a, i, seen, folds);
      SeenMore(a, i, seen, folds);
      var here := CheckEntry(a, i, seen, folds);
      assert here == [] <==> EntryOk(a, i);
      assert codes + here == [] <==> codes == [] && here == [];
      var b := a.entries[i].name;
      codes := codes + here;
      seen := if b in seen then seen else seen[b := i];
      folds := if Fold(b) in folds then folds else folds[Fold(b) := b];
    }
  }

  lemma NothingSeen(a: Archive)
    ensures Seen(a, 0, map[], map[])
  {
  }

  function PathCodes(i: nat, problems: seq<PathProblem>): (r: seq<EntryCode>)
    ensures |r| == |problems| && (forall c :: c in r ==> c.Path? && c.i == i)
    ensures forall p :: Path(i, p) in r <==> p in problems
  {
    var r := seq(|problems|, k requires 0 <= k < |problems| => Path(i, problems[k]));
    assert forall k :: 0 <= k < |problems| ==> r[k] == Path(i, problems[k]) && r[k] in r && problems[k] in problems;
    r
  }

  /** One entry. */
  method CheckEntry(a: Archive, i: nat, seen: map<Blob, nat>, folds: map<Blob, Blob>) returns (here: seq<EntryCode>)
    requires i < |a.entries|
    ensures here == [] <==>
      && PathOk(a.entries[i].name) && a.entries[i].name !in seen && !IsDirectory(a.entries[i])
      && !(Fold(a.entries[i].name) in folds && folds[Fold(a.entries[i].name)] != a.entries[i].name)
    ensures Duplicate(i) in here <==> a.entries[i].name in seen
    ensures CaseCollision(i) in here <==>
      Fold(a.entries[i].name) in folds && folds[Fold(a.entries[i].name)] != a.entries[i].name
    ensures Directory(i) in here <==> IsDirectory(a.entries[i])
    ensures forall p :: Path(i, p) in here <==> IsSo(p, a.entries[i].name)
    ensures forall c | c in here :: !c.Unexpected? && !c.Missing? && c.i == i
  {
    hide PathOk, Fold, IsDirectory, IsSo, PathCodes;
    var problems := PathProblems(a.entries[i].name);
    here := PathCodes(i, problems);
    if a.entries[i].name in seen {
      here := here + [Duplicate(i)];
    }
    var fold := Fold(a.entries[i].name);
    if fold in folds && folds[fold] != a.entries[i].name {
      here := here + [CaseCollision(i)];
    }
    if IsDirectory(a.entries[i]) {
      here := here + [Directory(i)];
    }
  }

  // ---------------------------------------------------------- the hash list

  predicate Excluded(a: Archive, i: nat)
    requires i < |a.entries|
  {
    IsDirectory(a.entries[i]) || Name(a, i) == MANIFEST || Name(a, i) == HASHES || SIGNATURES <= Name(a, i)
  }

  ghost function ShouldCover(a: Archive): set<string> {
    set i | 0 <= i < |a.entries| && !Excluded(a, i) :: Name(a, i)
  }

  /** `by_path`: the first entry of that name. */
  predicate IsByPath(a: Archive, s: string, i: nat)
    requires i < |a.entries|
  {
    Name(a, i) == s && forall k :: 0 <= k < i ==> Name(a, k) != s
  }

  /** The `files` object of a well-shaped document. */
  function Files(doc: Value): Option<map<string, Value>> {
    if doc.JObj? && "files" in doc.members && doc.members["files"].JObj? then Some(doc.members["files"].members) else None
  }

  predicate Matches(a: Archive, s: string, digest: Value) {
    digest.JStr? && exists i :: 0 <= i < |a.entries| && IsByPath(a, s, i) && a.digest(i) == Some(digest.s)
  }

  /** No finding about the hash list. */
  ghost predicate HashesOk(a: Archive, doc: Value) {
    && Files(doc).Some? && "algorithm" in doc.members && doc.members["algorithm"] == JStr("sha256")
    && var files := Files(doc).value;
       && (forall s | s in files :: files[s].JStr? && IsSha256Hex(files[s].s))
       && files.Keys == ShouldCover(a)
       && (forall s | s in files :: Matches(a, s, files[s]))
  }

  datatype HashCode =
    | NotObject | Algorithm | FilesNotObject | NotString(s: string) | Malformed(s: string) | Uncoverable(s: string)
    | Uncovered(s: string) | Mismatch(s: string)

  /** What each finding about the hash list says. */
  ghost predicate HashHolds(a: Archive, doc: Value, c: HashCode) {
    var files := if Files(doc).Some? then Files(doc).value else map[];
    match c
    case NotObject => !doc.JObj?
    case Algorithm => doc.JObj? && !("algorithm" in doc.members && doc.members["algorithm"] == JStr("sha256"))
    case FilesNotObject => doc.JObj? && Files(doc).None?
    case NotString(s) => s in files && !files[s].JStr?
    case Malformed(s) => s in files && files[s].JStr? && !IsSha256Hex(files[s].s)
    case Uncoverable(s) => s in files && files[s].JStr? && s !in ShouldCover(a)
    case Uncovered(s) => Files(doc).Some? && s in ShouldCover(a) && !(s in files && files[s].JStr?)
    case Mismatch(s) => s in files && files[s].JStr? && s in ShouldCover(a) && !Matches(a, s, files[s])
  }

  /** `check_hashes`, on the decoded document: each finding exactly, so none exactly for a
      hash list in order. */
  method CheckHashes(a: Archive, doc: Value) returns (codes: seq<HashCode>)
    ensures codes == [] <==> HashesOk(a, doc)
    ensures forall c :: c in codes <==> HashHolds(a, doc, c)
  {
    hide Matches, Excluded, IsSha256Hex, Name, ShouldCover;
    if !doc.JObj? {
      return [NotObject];
    }
    codes := [];
    if "algorithm" !in doc.members || doc.members["algorithm"] != JStr("sha256") {
      codes := [Algorithm];
    }
    if "files" !in doc.members || !doc.members["files"].JObj? {
      return codes + [FilesNotObject];
    }
    var files := doc.members["files"].members;
    var should := CollectNames(a);
    var shape, covered := CheckDigestShapes(files);
    var coverage := CheckSets(covered, should);
    var digests := CheckDigests(a, files, should * covered);
    codes := codes + shape + coverage + digests;
    assert codes == [] <==>
      ("algorithm" in doc.members && doc.members["algorithm"] == JStr("sha256") && shape == [] && coverage == [] && digests == []);
    if shape == [] && coverage == [] {
      assert covered == files.Keys == should * covered;
    }
  }

  method CollectNames(a: Archive) returns (should: set<string>)
    ensures should == ShouldCover(a)
  {
    hide Excluded, Name;
    should := {};
    for i := 0 to |a.entries|
      invariant should == set k | 0 <= k < i && !Excluded(a, k) :: Name(a, k)
    {
      if !Excluded(a, i) {
        should := should + {Name(a, i)};
      }
    }
  }

  predicate ShapeHolds(files: map<string, Value>, keys: set<string>, c: HashCode)
    requires keys <= files.Keys
  {
    || (c.NotString? && c.s in keys && !files[c.s].JStr?)
    || (c.Malformed? && c.s in keys && files[c.s].JStr? && !IsSha256Hex(files[c.s].s))
  }

  method CheckDigestShapes(files: map<string, Value>) returns (codes: seq<HashCode>, covered: set<string>)
    ensures covered == set s | s in files && files[s].JStr?
    ensures codes == [] <==> forall s | s in files :: files[s].JStr? && IsSha256Hex(files[s].s)
    ensures forall c :: c in codes <==> ShapeHolds(files, files.Keys, c)
  {
    hide IsSha256Hex;
    codes, covered := [], {};
    var rest := files.Keys;
    while rest != {}
      invariant rest <= files.Keys
      invariant covered == set s | s in files.Keys - rest && files[s].JStr?
      invariant codes == [] <==> forall s | s in files.Keys - rest :: files[s].JStr? && IsSha256Hex(files[s].s)
      invariant forall c :: c in codes <==> ShapeHolds(files, files.Keys - rest, c)
      decreases |rest|
    {
      var s :| s in rest;
      rest := rest - {s};
      if !files[s].JStr? {
        codes := codes + [NotString(s)];
      } else {
        covered := covered + {s};
        if !IsSha256Hex(files[s].s) {
          codes := codes + [Malformed(s)];
        }
      }
    }
  }

  /** Set equality, one direction after the other. */
  method CheckSets(covered: set<string>, should: set<string>) returns (codes: seq<HashCode>)
    ensures codes == [] <==> covered == should
    ensures forall c :: c in codes <==>
      (c.Uncoverable? && c.s in covered - should) || (c.Uncovered? && c.s in should - covered)
  {
    codes := [];
    var rest := covered - should;
    while rest != {}
      invariant rest <= covered - should
      invariant forall c :: c in codes <==> c.Uncoverable? && c.s in (covered - should) - rest
      decreases |rest|
    {
      var s :| s in rest;
      rest := rest - {s};
      codes := codes + [Uncoverable(s)];
    }
    rest := should - covered;
    while rest != {}
      invariant rest <= should - covered
      invariant forall c :: c in codes <==>
        (c.Uncoverable? && c.s in covered - should) || (c.Uncovered? && c.s in (should - covered) - rest)
      decreases |rest|
    {
      var s :| s in rest;
      rest := rest - {s};
      codes := codes + [Uncovered(s)];
    }
    SetsDiffer(codes, covered, should);
  }

  lemma SetsDiffer(codes: seq<HashCode>, covered: set<string>, should: set<string>)
    requires forall c :: c in codes <==>
      (c.Uncoverable? && c.s in covered - should) || (c.Uncovered? && c.s in should - covered)
    ensures codes == [] <==> covered == should
  {
    if codes != [] {
      assert codes[0] in codes;
    }
    forall s | codes == [] ensures s in covered <==> s in should {
      assert Uncoverable(s) !in codes && Uncovered(s) !in codes;
    }
  }

  method CheckDigests(a: Archive, files: map<string, Value>, keys: set<string>) returns (codes: seq<HashCode>)
    requires keys <= files.Keys
    ensures codes == [] <==> forall s | s in keys :: Matches(a, s, files[s])
    ensures forall c :: c in codes <==> c.Mismatch? && c.s in keys && !Matches(a, c.s, files[c.s])
  {
    hide Matches;
    codes := [];
    var rest := keys;
    while rest != {}
      invariant rest <= keys
      invariant codes == [] <==> forall s | s in keys - rest :: Matches(a, s, files[s])
      invariant forall c :: c in codes <==> c.Mismatch? && c.s in keys - rest && !Matches(a, c.s, files[c.s])
      decreases |rest|
    {
      var s :| s in rest;
      rest := rest - {s};
      if !Matches(a, s, files[s]) {
        codes := codes + [Mismatch(s)];
      }
    }
  }

  // -------------------------------------------------- every entry is accounted

  datatype Class = SignedManifest | SignedHashes | ManifestSignature | PayloadSignature | Covered

  /** What it means for an entry to be in a class. */
  predicate In(a: Archive, files: map<string, Value>, i: nat, c: Class)
    requires i < |a.entries|
  {
    match c
    case SignedManifest => Name(a, i) == "lexe.json"
    case SignedHashes => Name(a, i) == "metadata/hashes.json"
    case ManifestSignature => Name(a, i) == "signatures/manifest.sig"
    case PayloadSignature => Name(a, i) == "signatures/payload.sig"
    case Covered => Name(a, i) in files && files[Name(a, i)].JStr? && a.digest(i) == Some(files[Name(a, i)].s)
  }

  lemma LaterIsDifferent(a: Archive, i: nat, j: nat)
    requires EntriesOk(a) && i < j < |a.entries|
    ensures a.entries[i].name != a.entries[j].name && Fold(a.entries[i].name) != Fold(a.entries[j].name)
  {
    hide Fold, PathOk, IsDirectory, SignatureMember, Required;
    assert EntryOk(a, j);
    assert !Repeats(a, j) && !Collides(a, j);
    NoFirstNoFold(a, j, Fold(a.entries[j].name));
  }

  lemma NamesAreDecoded(a: Archive, i: nat)
    requires EntriesOk(a) && i < |a.entries|
    ensures Utf8.Valid(a.entries[i].name)
  {
    hide Utf8.Valid, Split, AllowedTopLevel;
    assert EntryOk(a, i);
  }

  lemma NameIsUnique(a: Archive, i: nat, j: nat)
    requires EntriesOk(a) && i < |a.entries| && j < |a.entries|
    ensures Name(a, i) == Name(a, j) ==> i == j
  {
    hide Name, Utf8.Valid, EntriesOk;
    NamesAreDecoded(a, i);
    NamesAreDecoded(a, j);
    NamesInjective(a, i, j);
    if i < j {
      LaterIsDifferent(a, i, j);
    } else if j < i {
      LaterIsDifferent(a, j, i);
    }
  }

  /** With no finding about the entries and the hash list, an entry is in exactly one
      class. */
  lemma ExactlyOneClass(a: Archive, doc: Value, i: nat)
    requires EntriesOk(a) && HashesOk(a, doc) && i < |a.entries|
    ensures exists c :: In(a, Files(doc).value, i, c) && forall d | In(a, Files(doc).value, i, d) :: d == c
  {
    hide Name, Repeats, Collides, PathOk, IsSha256Hex, IsByPath, Present;
    var files, s := Files(doc).value, Name(a, i);
    assert EntryOk(a, i) && !SignatureMember(a, i);
    FourNames();
    if Excluded(a, i) {
      forall j | 0 <= j < |a.entries| && !Excluded(a, j)
        ensures Name(a, j) != s
      {
        NameIsUnique(a, i, j);
      }
      assert s !in ShouldCover(a);
      var c := if s == MANIFEST then SignedManifest else if s == HASHES then SignedHashes
               else if s == MANIFEST_SIG then ManifestSignature else PayloadSignature;
      assert In(a, files, i, c);
    } else {
      assert s in ShouldCover(a);
      DigestOf(a, files, i);
      assert In(a, files, i, Covered);
    }
  }

  lemma FourNames()
    ensures SIGNATURES <= MANIFEST_SIG && SIGNATURES <= PAYLOAD_SIG && MANIFEST_SIG != PAYLOAD_SIG
    ensures MANIFEST != HASHES && !(SIGNATURES <= MANIFEST) && !(SIGNATURES <= HASHES)
  {
    assert MANIFEST_SIG[..|SIGNATURES|] == SIGNATURES && PAYLOAD_SIG[..|SIGNATURES|] == SIGNATURES;
    assert |MANIFEST_SIG| != |PAYLOAD_SIG|;
    assert |MANIFEST| != |HASHES| && HASHES[0] != SIGNATURES[0] && MANIFEST[0] != SIGNATURES[0];
  }

  lemma DigestOf(a: Archive, files: map<string, Value>, i: nat)
    requires EntriesOk(a) && i < |a.entries| && Name(a, i) in files && Matches(a, Name(a, i), files[Name(a, i)])
    ensures files[Name(a, i)].JStr? && a.digest(i) == Some(files[Name(a, i)].s)
  {
    hide Name, EntriesOk;
    var s := Name(a, i);
    var j :| 0 <= j < |a.entries| && IsByPath(a, s, j) && a.digest(j) == Some(files[s].s);
    NameIsUnique(a, i, j);
  }

  predicate IsOnly(a: Archive, i: nat, s: string)
    requires i < |a.entries|
  {
    Name(a, i) == s && forall j | 0 <= j < |a.entries| && Name(a, j) == s :: j == i
  }

  lemma RequiredNames(s: string)
    ensures s in Required() <==>
      s in ["lexe.json", "metadata/hashes.json", "signatures/manifest.sig", "signatures/payload.sig"]
  {
  }

  /** Each of the four special entries is there, once. */
  lemma SpecialEntries(a: Archive, s: string)
    requires EntriesOk(a)
    requires s in ["lexe.json", "metadata/hashes.json", "signatures/manifest.sig", "signatures/payload.sig"]
    ensures exists i :: 0 <= i < |a.entries| && IsOnly(a, i, s)
  {
    hide Name, EntryOk, SignatureMember, IsDirectory;
    RequiredNames(s);
    assert exists k :: 0 <= k < |Required()| && Required()[k] == s;
    assert Present(a, s);
    var i :| 0 <= i < |a.entries| && !IsDirectory(a.entries[i]) && a.entries[i].name == Bytes(s);
    assert forall x :: 0 <= x < |s| ==> s[x] < 128 as char;
    AsciiReads(a, i, s);
    forall j | 0 <= j < |a.entries| && Name(a, j) == s
      ensures j == i
    {
      NameIsUnique(a, j, i);
    }
    assert IsOnly(a, i, s);
  }

  /** What is turned away among the entries: a directory by its name or by the attribute
      bit of value 16, and any other member under the signatures. */
  lemma EntryRulesExact(a: Archive, i: nat)
    requires i < |a.entries|
    ensures var e := a.entries[i];
      IsDirectory(e) <==> (e.name != [] && e.name[|e.name| - 1] == '/' as int) || e.attr % 32 >= 16
    ensures var s := Name(a, i);
      SignatureMember(a, i) <==>
        |s| >= 11 && s[..11] == "signatures/" && s != "signatures/manifest.sig" && s != "signatures/payload.sig"
  {
    hide Name;
    assert |SIGNATURES| == 11;
  }

  /** The hash list has no key but the names of the entries it covers. */
  lemma NoOtherKeys(a: Archive, doc: Value, s: string)
    requires EntriesOk(a) && HashesOk(a, doc)
    ensures s in Files(doc).value <==> exists i :: 0 <= i < |a.entries| && Name(a, i) == s && In(a, Files(doc).value, i, Covered)
  {
    hide Name, EntriesOk, IsSha256Hex;
    var files := Files(doc).value;
    if s in files {
      assert s in ShouldCover(a);
      var i :| 0 <= i < |a.entries| && !Excluded(a, i) && Name(a, i) == s;
      assert Matches(a, s, files[s]);
      DigestOf(a, files, i);
      assert In(a, files, i, Covered);
    }
  }

  /** Under a root, the entries lie strictly inside it and in different places, also
      where the filesystem ignores case. */
  lemma PlacesAreDistinct(a: Archive, root: seq<Blob>, i: nat, j: nat)
    requires EntriesOk(a) && i < j < |a.entries|
    ensures var p, q := Place(root, a.entries[i].name), Place(root, a.entries[j].name);
      root < p && root < q && p != q && FoldAll(p) != FoldAll(q)
  {
    hide Place, Fold, PathOk, SignatureMember, Split, FoldAll, Collides, Repeats;
    assert EntryOk(a, i) && EntryOk(a, j);
    var x, y := a.entries[i].name, a.entries[j].name;
    StaysInside(root, x);
    StaysInside(root, y);
    SamePlaceWithoutCase(root, x, y);
    LaterIsDifferent(a, i, j);
  }
}
