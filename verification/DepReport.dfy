/** What an entry of the dependency report says, in terms of names, directories and files:
    the kind of every soname, the file that the search ends on, and where it lies. */
module DepReport {
  import opened Prelude
  import opened DepResolve
  import opened DepWalk

  /** The core of the system: these names, and every loader. */
  predicate HostName(s: string) {
    || s in ["libc.so.6", "libm.so.6", "libdl.so.2", "libpthread.so.0", "librt.so.1"]
    || s in ["libutil.so.1", "libresolv.so.2", "libgcc_s.so.1", "libanl.so.1", "ld-linux-x86-64.so.2"]
    || s in ["ld-linux-aarch64.so.1", "ld-linux-riscv64-lp64d.so.1", "ld-linux.so.2", "linux-vdso.so.1", "linux-gate.so.1"]
    || "ld-linux" <= s
  }

  /** The interfaces of graphics and accelerator drivers. */
  predicate DriverName(s: string) {
    || "libGL.so" <= s || "libGLX.so" <= s || "libGLdispatch.so" <= s || "libEGL.so" <= s
    || "libGLESv2.so" <= s || "libOpenGL.so" <= s || "libcuda.so" <= s || "libnvidia-" <= s
    || "libvulkan.so" <= s || "libdrm.so" <= s || "libva.so" <= s || "libnvcuvid.so" <= s
  }

  lemma HostNameExact(s: string)
    ensures IsHostInterface(s) <==> HostName(s)
  {
  }

  lemma DriverNameExact(s: string)
    ensures IsForbiddenBundle(s) <==> DriverName(s)
  {
    var p := DRIVER_PREFIXES;
    assert |p| == 12;
    assert p[0] == "libGL.so" && p[1] == "libGLX.so" && p[2] == "libGLdispatch.so" && p[3] == "libEGL.so";
    assert p[4] == "libGLESv2.so" && p[5] == "libOpenGL.so" && p[6] == "libcuda.so" && p[7] == "libnvidia-";
    assert p[8] == "libvulkan.so" && p[9] == "libdrm.so" && p[10] == "libva.so" && p[11] == "libnvcuvid.so";
  }

  // ------------------------------------------------------------ where is searched

  /** The directories of the system for each machine. */
  lemma DefaultDirsExact()
    ensures DefaultSearchDirs(X86_64) == Multiarch("x86_64-linux-gnu") + DefaultSearchDirs(Unknown)
    ensures DefaultSearchDirs(AArch64) == Multiarch("aarch64-linux-gnu") + DefaultSearchDirs(Unknown)
    ensures DefaultSearchDirs(RiscV) == Multiarch("riscv64-linux-gnu") + DefaultSearchDirs(Unknown)
    ensures DefaultSearchDirs(Arm) == Multiarch("arm-linux-gnueabihf") + DefaultSearchDirs(Unknown)
    ensures DefaultSearchDirs(Unknown) == ["/lib64", "/usr/lib64", "/lib", "/usr/lib", "/usr/local/lib"]
  {
    MultiarchFirst(X86_64, "x86_64-linux-gnu");
    MultiarchFirst(AArch64, "aarch64-linux-gnu");
    MultiarchFirst(RiscV, "riscv64-linux-gnu");
    MultiarchFirst(Arm, "arm-linux-gnueabihf");
    SystemDirs();
  }

  function Multiarch(triplet: string): seq<string> {
    ["/lib/" + triplet, "/usr/lib/" + triplet]
  }

  lemma MultiarchFirst(m: Machine, triplet: string)
    requires Triplet(m) == [triplet]
    ensures DefaultSearchDirs(m) == Multiarch(triplet) + DefaultSearchDirs(Unknown)
  {
  }

  /** The directory that an entry of an rpath stands for, beside an object in `dir`. */
  function Place(entry: string, dir: string): string {
    if |entry| >= 7 && entry[..7] == "$ORIGIN" then dir + "/." + entry[7..] else entry
  }

  lemma PlaceExact(entry: string, dir: string)
    ensures ExpandOrigin(entry, dir) == Place(entry, dir)
  {
    assert |ORIGIN| == 7;
  }

  /** The order of the search, position by position: the payload, the runpath, the rpath,
      what the caller adds, the system. A runtime contract leaves out the first and the
      fourth, and the sandbox has only the first and the last. */
  lemma SearchOrder(o: Options, obj: Object, k: nat)
    ensures var dirs, system := SearchDirs(o, obj), DefaultSearchDirs(obj.info.machine);
      var pay := if o.runtimeContract then 0 else |o.payload|;
      var run := pay + |obj.info.runpath|;
      var rp := run + |obj.info.rpath|;
      var ext := rp + if o.runtimeContract then 0 else |o.extra|;
      && |dirs| == ext + |system|
      && (k < pay ==> dirs[k] == o.payload[k])
      && (pay <= k < run ==> dirs[k] == Place(obj.info.runpath[k - pay], obj.dir))
      && (run <= k < rp ==> dirs[k] == Place(obj.info.rpath[k - run], obj.dir))
      && (rp <= k < ext ==> dirs[k] == o.extra[k - rp])
      && (ext <= k < |dirs| ==> dirs[k] == system[k - ext])
    ensures var dirs, system := SandboxSearchDirs(o, obj), DefaultSearchDirs(obj.info.machine);
      var pay := if o.runtimeContract then 0 else |o.payload|;
      && |dirs| == pay + |system|
      && (k < pay ==> dirs[k] == o.payload[k])
      && (pay <= k < |dirs| ==> dirs[k] == system[k - pay])
  {
    hide DefaultSearchDirs, ExpandOrigin, Place;
    var pay := if o.runtimeContract then 0 else |o.payload|;
    var run := pay + |obj.info.runpath|;
    if pay <= k < run {
      PlaceExact(obj.info.runpath[k - pay], obj.dir);
    } else if run <= k < run + |obj.info.rpath| {
      PlaceExact(obj.info.rpath[k - run], obj.dir);
    }
  }

  /** A path is not a name to search for. */
  predicate IsName(soname: string) {
    soname != "" && soname != "." && soname != ".." && forall c :: c in soname ==> c != '/' && c != '\\' && c != ':'
  }

  /** `r` is the first file of that name in the directories, or there is none. */
  ghost predicate IsFirst(w: World, soname: string, dirs: seq<string>, r: Option<File>) {
    && (r.None? ==> !IsName(soname) || forall d :: d in dirs ==> !w.isFile(File(d, soname)))
    && (r.Some? ==> IsName(soname) && exists k :: IsFirstAt(w, soname, dirs, r.value, k))
  }

  ghost predicate IsFirstAt(w: World, soname: string, dirs: seq<string>, f: File, k: nat) {
    && k < |dirs| && f == File(dirs[k], soname) && w.isFile(f)
    && forall j :: 0 <= j < k ==> !w.isFile(File(dirs[j], soname))
  }

  lemma {:induction false} FirstFileExact(w: World, soname: string, dirs: seq<string>)
    ensures var r := FirstFile(w, soname, dirs);
      && (r.None? ==> forall d :: d in dirs ==> !w.isFile(File(d, soname)))
      && (r.Some? ==> exists k :: IsFirstAt(w, soname, dirs, r.value, k))
  {
    if dirs != [] {
      if w.isFile(File(dirs[0], soname)) {
        assert IsFirstAt(w, soname, dirs, File(dirs[0], soname), 0);
      } else {
        FirstFileExact(w, soname, dirs[1..]);
        var r := FirstFile(w, soname, dirs[1..]);
        if r.Some? {
          var k: nat :| IsFirstAt(w, soname, dirs[1..], r.value, k);
          assert IsFirstAt(w, soname, dirs, r.value, k + 1);
        }
      }
    }
  }

  lemma ResolveExact(w: World, soname: string, dirs: seq<string>)
    ensures IsFirst(w, soname, dirs, Resolve(w, soname, dirs))
  {
    hide FirstFile, IsFirstAt;
    FirstFileExact(w, soname, dirs);
  }

  // --------------------------------------------------------------- where it lies

  predicate Inside(w: World, root: string, f: File) {
    root != "" && w.canon(root) < w.canon(f.dir + "/" + f.name)
  }

  /** In the package: under an own entry of the object that begins with `$ORIGIN`, or
      under the payload. */
  ghost predicate InPackage(w: World, o: Options, obj: Object, f: File) {
    || (exists e :: (e in obj.info.runpath || e in obj.info.rpath) && |e| >= 7 && e[..7] == "$ORIGIN"
                    && Inside(w, obj.dir + "/." + e[7..], f))
    || (exists root :: root in o.payload && Inside(w, root, f))
  }

  /** In the system, as seen by the machine that the file itself is for. */
  predicate InSystem(w: World, f: File) {
    exists root :: root in DefaultSearchDirs(w.read(f).machine) && Inside(w, root, f)
  }

  lemma UnderAnyExact(w: World, f: File, roots: seq<string>)
    ensures UnderAny(w, f, roots) <==> exists root :: root in roots && Inside(w, root, f)
  {
    if root :| root in roots && Inside(w, root, f) {
      var i :| 0 <= i < |roots| && roots[i] == root;
    }
    if UnderAny(w, f, roots) {
      var i :| 0 <= i < |roots| && roots[i] != "" && w.canon(roots[i]) < w.canon(f.dir + "/" + f.name);
      assert roots[i] in roots && Inside(w, roots[i], f);
    }
  }

  predicate IsOwn(entries: seq<string>, dir: string, root: string) {
    exists e :: e in entries && |e| >= 7 && e[..7] == "$ORIGIN" && root == dir + "/." + e[7..]
  }

  lemma {:induction false} OwnEntries(entries: seq<string>, dir: string, root: string)
    ensures root in ExpandAll(OriginEntries(entries), dir) <==> IsOwn(entries, dir, root)
  {
    hide ExpandOrigin, Place;
    if entries == [] {
      assert OriginEntries(entries) == [];
    } else {
      OwnEntries(entries[1..], dir, root);
      OneOwnEntry(entries, dir);
      IsOwnFirst(entries, dir, root);
    }
  }

  lemma ExpandFirst(e: string, rest: seq<string>, dir: string)
    ensures ExpandAll([e] + rest, dir) == [ExpandOrigin(e, dir)] + ExpandAll(rest, dir)
  {
    hide ExpandOrigin;
  }

  lemma OneOwnEntry(entries: seq<string>, dir: string)
    requires entries != []
    ensures ExpandAll(OriginEntries(entries), dir) ==
      (if |entries[0]| >= 7 && entries[0][..7] == "$ORIGIN" then [dir + "/." + entries[0][7..]] else [])
      + ExpandAll(OriginEntries(entries[1..]), dir)
  {
    hide ExpandOrigin, ExpandAll;
    var e, rest := entries[0], OriginEntries(entries[1..]);
    assert |ORIGIN| == 7;
    PlaceExact(e, dir);
    if |e| >= 7 && e[..7] == "$ORIGIN" {
      assert ORIGIN <= e;
      ExpandFirst(e, rest, dir);
    } else {
      assert !(ORIGIN <= e);
      assert [] + rest == rest && [] + ExpandAll(rest, dir) == ExpandAll(rest, dir);
    }
  }

  lemma IsOwnFirst(entries: seq<string>, dir: string, root: string)
    requires entries != []
    ensures IsOwn(entries, dir, root) <==>
      || (|entries[0]| >= 7 && entries[0][..7] == "$ORIGIN" && root == dir + "/." + entries[0][7..])
      || IsOwn(entries[1..], dir, root)
  {
    assert forall x :: x in entries <==> x == entries[0] || x in entries[1..];
  }

  lemma InPackageExact(w: World, o: Options, obj: Object, f: File)
    ensures UnderAny(w, f, OriginDirs(obj)) || UnderAny(w, f, o.payload) <==> InPackage(w, o, obj, f)
  {
    hide UnderAny, Inside;
    var run, rp := obj.info.runpath, obj.info.rpath;
    UnderAnyExact(w, f, OriginDirs(obj));
    UnderAnyExact(w, f, o.payload);
    forall root
      ensures root in OriginDirs(obj) <==> IsOwn(run, obj.dir, root) || IsOwn(rp, obj.dir, root)
    {
      OwnEntries(run, obj.dir, root);
      OwnEntries(rp, obj.dir, root);
    }
    if e :| (e in run || e in rp) && |e| >= 7 && e[..7] == "$ORIGIN" && Inside(w, obj.dir + "/." + e[7..], f) {
      assert IsOwn(run, obj.dir, obj.dir + "/." + e[7..]) || IsOwn(rp, obj.dir, obj.dir + "/." + e[7..]);
    }
  }

  /** `origin_of`: the package first, then the system. */
  lemma OriginExact(w: World, o: Options, obj: Object, f: File)
    ensures OriginOf(w, o, obj, f) ==
      if InPackage(w, o, obj, f) then Payload else if InSystem(w, f) then System else Elsewhere
  {
    hide UnderAny, InPackage, Inside, DefaultSearchDirs, OriginDirs;
    InPackageExact(w, o, obj, f);
    UnderAnyExact(w, f, DefaultSearchDirs(w.read(f).machine));
  }

  // ------------------------------------------------------------------- the entry

  /** The kind goes by the name first; only for other names it matters whether a file was
      found. */
  predicate HasKind(d: Dependency) {
    && (d.kind == HostInterface <==> HostName(d.soname))
    && (d.kind == Forbidden <==> !HostName(d.soname) && DriverName(d.soname))
    && (d.kind == Bundle <==> !HostName(d.soname) && !DriverName(d.soname) && d.resolved.Some?)
    && (d.kind == Unresolved <==> !HostName(d.soname) && !DriverName(d.soname) && d.resolved.None?)
    && d.kind != LanguageRuntime
  }

  ghost predicate IsOutside(w: World, o: Options, obj: Object, f: File) {
    !InPackage(w, o, obj, f) && !InSystem(w, f)
  }

  /** `first` is what the whole search finds and `second` what the sandbox finds: the
      second is taken exactly where the first lies outside and there is a second. */
  ghost predicate HasFile(w: World, o: Options, obj: Object, d: Dependency, first: Option<File>, second: Option<File>) {
    var replaced := first.Some? && IsOutside(w, o, obj, first.value) && second.Some?;
    && d.resolved == (if replaced then second else first)
    && d.outOfPackage == (if replaced then first else None)
  }

  ghost predicate HasDetails(w: World, o: Options, obj: Object, d: Dependency) {
    match d.resolved
    case None => d.origin == NoOrigin && d.machine == Unknown && d.versionNeeds == []
    case Some(f) =>
      && d.machine == w.read(f).machine && d.versionNeeds == w.read(f).versionNeeds
      && (d.origin == Payload <==> InPackage(w, o, obj, f))
      && (d.origin == System <==> !InPackage(w, o, obj, f) && InSystem(w, f))
      && (d.origin == Elsewhere <==> IsOutside(w, o, obj, f))
      && d.origin != NoOrigin
  }

  /** The entry is that of a soname needed by `obj`. */
  ghost predicate IsEntryFor(w: World, o: Options, obj: Object, d: Dependency) {
    && d.soname in obj.info.needed && HasKind(d) && HasDetails(w, o, obj, d)
    && exists first, second ::
         && IsFirst(w, d.soname, SearchDirs(o, obj), first)
         && IsFirst(w, d.soname, SandboxSearchDirs(o, obj), second)
         && HasFile(w, o, obj, d, first, second)
  }

  lemma DiscoverExact(w: World, o: Options, obj: Object, soname: string, dependant: string)
    requires soname in obj.info.needed
    ensures IsEntryFor(w, o, obj, Discover(w, o, obj, soname, dependant))
  {
    hide SearchDirs, SandboxSearchDirs, OriginOf, Resolve, IsFirst, IsHostInterface, IsForbiddenBundle, HostName, DriverName,
         InPackage, InSystem;
    var first, second := Resolve(w, soname, SearchDirs(o, obj)), Resolve(w, soname, SandboxSearchDirs(o, obj));
    ResolveExact(w, soname, SearchDirs(o, obj));
    ResolveExact(w, soname, SandboxSearchDirs(o, obj));
    HostNameExact(soname);
    DriverNameExact(soname);
    var d := Discover(w, o, obj, soname, dependant);
    if first.Some? {
      OriginExact(w, o, obj, first.value);
    }
    if d.resolved.Some? {
      OriginExact(w, o, obj, d.resolved.value);
    }
    assert HasFile(w, o, obj, d, first, second);
  }

  /** Every entry is that of a soname needed by an object of the walk. */
  ghost predicate EntriesAre(w: World, o: Options, r: Walk) {
    forall i :: 0 <= i < |r.deps| ==>
      exists n :: n in r.objects && IsEntryFor(w, o, r.objects[n], r.deps[i])
  }

  /** The objects are the root and the files of the bundled entries, if the walk is
      recursive; each with the directory its own entries are relative to. */
  ghost predicate ObjectsAre(w: World, o: Options, root: Object, r: Walk) {
    && Root in r.objects && r.objects[Root] == root
    && (forall soname :: Lib(soname) in r.objects <==> IsBundled(o, r, soname))
    && (forall i :: 0 <= i < |r.deps| && r.deps[i].kind.Bundle? && o.recurse && r.deps[i].resolved.Some? ==>
          IsObjectOf(w, r.deps[i].resolved.value, r.objects, r.deps[i].soname))
  }

  predicate IsObjectOf(w: World, f: File, objects: map<Node, Object>, soname: string) {
    && Lib(soname) in objects && objects[Lib(soname)].info == w.read(f)
    && objects[Lib(soname)].dir == if f.dir == "" then w.cwd else f.dir
  }

  ghost predicate IsBundled(o: Options, r: Walk, soname: string) {
    o.recurse && exists i :: 0 <= i < |r.deps| && r.deps[i].soname == soname && r.deps[i].kind.Bundle?
  }

  /** Every entry of the walk says what it should, and nothing that the host or a driver
      provides is ever walked. */
  lemma EntriesExact(w: World, o: Options, root: Object)
    ensures var r := WalkFrom(w, o, root);
      && EntriesAre(w, o, r) && ObjectsAre(w, o, root, r)
      && forall soname :: Lib(soname) in r.objects ==> !HostName(soname) && !DriverName(soname)
  {
    hide IsEntryFor, Discover, HostName, DriverName, HasKind, IsBundled, DependencySound;
    var r := WalkFrom(w, o, root);
    WalkIsComplete(w, o, root);
    forall i | 0 <= i < |r.deps|
      ensures exists n :: n in r.objects && IsEntryFor(w, o, r.objects[n], r.deps[i])
    {
      EntryIs(w, o, r, r.deps[i]);
    }
    forall soname
      ensures Lib(soname) in r.objects <==> IsBundled(o, r, soname)
      ensures Lib(soname) in r.objects ==> !HostName(soname) && !DriverName(soname)
    {
      ObjectIsBundled(w, o, r, soname);
    }
    forall i | 0 <= i < |r.deps| && r.deps[i].kind.Bundle? && o.recurse && r.deps[i].resolved.Some?
      ensures IsObjectOf(w, r.deps[i].resolved.value, r.objects, r.deps[i].soname)
    {
      BundledIsObject(w, o, r, r.deps[i]);
    }
  }

  lemma BundledIsObject(w: World, o: Options, r: Walk, d: Dependency)
    requires DependencySound(w, o, r, d) && d.kind.Bundle? && o.recurse && d.resolved.Some?
    ensures IsObjectOf(w, d.resolved.value, r.objects, d.soname)
  {
    hide Discover;
  }

  lemma ObjectIsBundled(w: World, o: Options, r: Walk, soname: string)
    requires DepsSound(w, o, r) && (Lib(soname) in r.objects ==> WalkedEntry(o, r.deps, soname))
    ensures Lib(soname) in r.objects <==> IsBundled(o, r, soname)
    ensures Lib(soname) in r.objects ==> !HostName(soname) && !DriverName(soname)
  {
    hide HostName, DriverName, HasKind, DependencySound;
    if Lib(soname) in r.objects {
      var i :| 0 <= i < |r.deps| && r.deps[i].soname == soname && Walked(o, r.deps[i]);
      EntryIs(w, o, r, r.deps[i]);
      NameOfBundled(r.deps[i]);
    }
    if IsBundled(o, r, soname) {
      var i :| 0 <= i < |r.deps| && r.deps[i].soname == soname && r.deps[i].kind.Bundle?;
      EntryIs(w, o, r, r.deps[i]);
      NameOfBundled(r.deps[i]);
      BundledIsObject(w, o, r, r.deps[i]);
    }
  }

  lemma NameOfBundled(d: Dependency)
    requires HasKind(d) && d.kind.Bundle?
    ensures !HostName(d.soname) && !DriverName(d.soname) && d.resolved.Some?
  {
  }

  lemma EntryIs(w: World, o: Options, r: Walk, d: Dependency)
    requires DependencySound(w, o, r, d)
    ensures exists n :: n in r.objects && IsEntryFor(w, o, r.objects[n], d)
    ensures HasKind(d)
  {
    hide Discover, HasKind, HasDetails, HasFile, IsFirst;
    var n :| Needs(r, n, d.soname) && d == Discover(w, o, r.objects[n], d.soname, Label(n)).(neededBy := d.neededBy);
    var fresh' := Discover(w, o, r.objects[n], d.soname, Label(n));
    DiscoverExact(w, o, r.objects[n], d.soname, Label(n));
    SameButDependants(w, o, r.objects[n], fresh', d);
    assert n in r.objects;
  }

  lemma SameButDependants(w: World, o: Options, obj: Object, d: Dependency, d': Dependency)
    requires IsEntryFor(w, o, obj, d) && d' == d.(neededBy := d'.neededBy)
    ensures IsEntryFor(w, o, obj, d') && HasKind(d')
  {
    hide HostName, DriverName, IsFirst, InPackage, InSystem;
    var first, second :|
      && IsFirst(w, d.soname, SearchDirs(o, obj), first)
      && IsFirst(w, d.soname, SandboxSearchDirs(o, obj), second)
      && HasFile(w, o, obj, d, first, second);
    assert HasFile(w, o, obj, d', first, second);
  }
}
