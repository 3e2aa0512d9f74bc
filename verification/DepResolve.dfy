/** How the dependency engine turns a soname into a file: the ordered search
    directories, the classification, and the second look at what a sandboxed
    launch would find. The filesystem is a `World` of functions. */
module DepResolve {
  import opened Prelude

  datatype Machine = X86_64 | AArch64 | RiscV | Arm | Unknown

  datatype ElfInfo = ElfInfo(
    isElf: bool, machine: Machine, needed: seq<string>,
    runpath: seq<string>, rpath: seq<string>, versionNeeds: seq<string>)

  /** The path `dir / name`. */
  datatype File = File(dir: string, name: string)

  /** `isFile`: is it a regular file; `read`: the ELF reader; `canon`: the
      components of the weakly canonical form of a path. */
  datatype World = World(isFile: File -> bool, read: File -> ElfInfo, canon: string -> seq<string>, cwd: string)

  datatype Options = Options(
    payload: seq<string>, extra: seq<string>, runtimeContract: bool, recurse: bool, maxNodes: nat)

  datatype Kind = HostInterface | Bundle | Forbidden | Unresolved | LanguageRuntime

  datatype Origin = NoOrigin | Payload | System | Elsewhere

  /** An ELF object under analysis and the directory it sits in. */
  datatype Object = Object(dir: string, info: ElfInfo)

  datatype Dependency = Dependency(
    soname: string, resolved: Option<File>, kind: Kind, origin: Origin, outOfPackage: Option<File>,
    machine: Machine, versionNeeds: seq<string>, neededBy: seq<string>)

  const HOST_INTERFACE: set<string> := {
    "libc.so.6", "libm.so.6", "libdl.so.2", "libpthread.so.0", "librt.so.1", "libutil.so.1",
    "libresolv.so.2", "libgcc_s.so.1", "libanl.so.1", "ld-linux-x86-64.so.2", "ld-linux-aarch64.so.1",
    "ld-linux-riscv64-lp64d.so.1", "ld-linux.so.2", "linux-vdso.so.1", "linux-gate.so.1"}

  const DRIVER_PREFIXES: seq<string> := [
    "libGL.so", "libGLX.so", "libGLdispatch.so", "libEGL.so", "libGLESv2.so", "libOpenGL.so",
    "libcuda.so", "libnvidia-", "libvulkan.so", "libdrm.so", "libva.so", "libnvcuvid.so"]

  predicate IsHostInterface(soname: string) {
    soname in HOST_INTERFACE || "ld-linux" <= soname
  }

  predicate IsForbiddenBundle(soname: string) {
    exists i :: 0 <= i < |DRIVER_PREFIXES| && DRIVER_PREFIXES[i] <= soname
  }

  function Classify(soname: string, resolved: Option<File>): Kind {
    if IsHostInterface(soname) then HostInterface
    else if IsForbiddenBundle(soname) then Forbidden
    else if resolved.Some? then Bundle
    else Unresolved
  }

  function Triplet(m: Machine): seq<string> {
    match m
    case X86_64 => ["x86_64-linux-gnu"]
    case AArch64 => ["aarch64-linux-gnu"]
    case RiscV => ["riscv64-linux-gnu"]
    case Arm => ["arm-linux-gnueabihf"]
    case Unknown => []
  }

  function DefaultSearchDirs(m: Machine): seq<string> {
    (if Triplet(m) == [] then [] else ["/lib/" + Triplet(m)[0], "/usr/lib/" + Triplet(m)[0]])
    + ["/lib64", "/usr/lib64", "/lib", "/usr/lib", "/usr/local/lib"]
  }

  const ORIGIN := "$ORIGIN"

  function ExpandOrigin(entry: string, dir: string): string {
    if ORIGIN <= entry then dir + "/." + entry[|ORIGIN|..] else entry
  }

  function ExpandAll(entries: seq<string>, dir: string): seq<string> {
    seq(|entries|, i requires 0 <= i < |entries| => ExpandOrigin(entries[i], dir))
  }

  function OriginEntries(entries: seq<string>): seq<string> {
    if entries == [] then []
    else (if ORIGIN <= entries[0] then [entries[0]] else []) + OriginEntries(entries[1..])
  }

  /** A soname that is a path, not a name to search for, is never looked up. */
  predicate Searchable(soname: string) {
    soname != "" && soname != "." && soname != ".."
    && '/' !in soname && '\\' !in soname && ':' !in soname
  }

  function FirstFile(w: World, soname: string, dirs: seq<string>): Option<File> {
    if dirs == [] then None
    else if w.isFile(File(dirs[0], soname)) then Some(File(dirs[0], soname))
    else FirstFile(w, soname, dirs[1..])
  }

  function Resolve(w: World, soname: string, dirs: seq<string>): Option<File> {
    if Searchable(soname) then FirstFile(w, soname, dirs) else None
  }

  /** Strictly inside one of `roots`, by canonical components. */
  predicate UnderAny(w: World, f: File, roots: seq<string>) {
    exists i :: 0 <= i < |roots| && roots[i] != "" && w.canon(roots[i]) < w.canon(f.dir + "/" + f.name)
  }

  function OriginDirs(obj: Object): seq<string> {
    ExpandAll(OriginEntries(obj.info.runpath), obj.dir) + ExpandAll(OriginEntries(obj.info.rpath), obj.dir)
  }

  /** `origin_of`, for the machine of the file that was found. */
  function OriginOf(w: World, o: Options, obj: Object, f: File): Origin {
    if UnderAny(w, f, OriginDirs(obj)) || UnderAny(w, f, o.payload) then Payload
    else if UnderAny(w, f, DefaultSearchDirs(w.read(f).machine)) then System
    else Elsewhere
  }

  function SearchDirs(o: Options, obj: Object): seq<string> {
    (if o.runtimeContract then [] else o.payload)
    + ExpandAll(obj.info.runpath, obj.dir) + ExpandAll(obj.info.rpath, obj.dir)
    + (if o.runtimeContract then [] else o.extra)
    + DefaultSearchDirs(obj.info.machine)
  }

  function SandboxSearchDirs(o: Options, obj: Object): seq<string> {
    (if o.runtimeContract then [] else o.payload) + DefaultSearchDirs(obj.info.machine)
  }

  /** Where the search ends up: the first file found, unless it lies outside what
      a sandboxed launch has and the sandbox can satisfy the soname by itself. */
  function Settle(w: World, o: Options, obj: Object, soname: string): Option<File> {
    var first := Resolve(w, soname, SearchDirs(o, obj));
    if first.Some? && OriginOf(w, o, obj, first.value).Elsewhere? then
      var second := Resolve(w, soname, SandboxSearchDirs(o, obj));
      if second.Some? then second else first
    else first
  }

  /** The new entry of the report for `soname`, first needed by `dependant`. */
  function Discover(w: World, o: Options, obj: Object, soname: string, dependant: string): Dependency {
    var first := Resolve(w, soname, SearchDirs(o, obj));
    var second := Resolve(w, soname, SandboxSearchDirs(o, obj));
    var settled := Settle(w, o, obj, soname);
    Dependency(
      soname, settled, Classify(soname, first),
      if settled.Some? then OriginOf(w, o, obj, settled.value) else NoOrigin,
      if first.Some? && OriginOf(w, o, obj, first.value).Elsewhere? && second.Some? then first else None,
      if settled.Some? then w.read(settled.value).machine else Unknown,
      if settled.Some? then w.read(settled.value).versionNeeds else [],
      [dependant])
  }

  // ------------------------------------- independence of the analysing machine

  /** A searched directory that says nothing about the sandbox: what it holds is
      outside the package and the system, and it is no payload, system or
      `$ORIGIN` entry either. An absolute build-tree rpath is one. */
  predicate MachineOnly(w: World, o: Options, obj: Object, soname: string, dir: string) {
    && OriginOf(w, o, obj, File(dir, soname)).Elsewhere?
    && dir !in SandboxSearchDirs(o, obj) && dir !in OriginDirs(obj)
  }

  /** Two machines on which the sandbox sees the same thing at every searched place. */
  ghost predicate SameView(w: World, w': World, o: Options, obj: Object, soname: string) {
    && w'.canon == w.canon
    && forall d :: d in SearchDirs(o, obj) ==>
         || (MachineOnly(w, o, obj, soname, d) && MachineOnly(w', o, obj, soname, d))
         || (w.isFile(File(d, soname)) == w'.isFile(File(d, soname))
             && w.read(File(d, soname)) == w'.read(File(d, soname)))
  }

  /** The first file at a place the sandbox has. */
  function FirstShared(w: World, o: Options, obj: Object, soname: string, dirs: seq<string>): Option<File> {
    if dirs == [] then None
    else if !MachineOnly(w, o, obj, soname, dirs[0]) && w.isFile(File(dirs[0], soname)) then
      Some(File(dirs[0], soname))
    else FirstShared(w, o, obj, soname, dirs[1..])
  }

  /** Whether a machine-only directory is searched before that file. */
  predicate MachineOnlyFirst(w: World, o: Options, obj: Object, soname: string, dirs: seq<string>) {
    dirs != []
    && (MachineOnly(w, o, obj, soname, dirs[0])
        || (!w.isFile(File(dirs[0], soname)) && MachineOnlyFirst(w, o, obj, soname, dirs[1..])))
  }

  /** The file the sandbox has is found whatever the machine adds: nothing of the
      machine's own is searched before it, or the second look finds the same. */
  predicate Robust(w: World, o: Options, obj: Object, soname: string) {
    var shared := FirstShared(w, o, obj, soname, SearchDirs(o, obj));
    var second := Resolve(w, soname, SandboxSearchDirs(o, obj));
    || !MachineOnlyFirst(w, o, obj, soname, SearchDirs(o, obj))
    || (second.Some? && (shared == second || (shared.Some? && OriginOf(w, o, obj, shared.value).Elsewhere?)))
  }

  predicate SandboxHas(w: World, o: Options, obj: Object, soname: string) {
    Searchable(soname) && FirstShared(w, o, obj, soname, SearchDirs(o, obj)).Some?
  }

  lemma SameViewSameSplit(w: World, w': World, o: Options, obj: Object, soname: string, d: string)
    requires SameView(w, w', o, obj, soname) && d in SearchDirs(o, obj)
    ensures MachineOnly(w, o, obj, soname, d) == MachineOnly(w', o, obj, soname, d)
    ensures !MachineOnly(w, o, obj, soname, d) ==>
      && w.isFile(File(d, soname)) == w'.isFile(File(d, soname))
      && OriginOf(w, o, obj, File(d, soname)) == OriginOf(w', o, obj, File(d, soname))
  {
    var f := File(d, soname);
    assert forall roots :: UnderAny(w, f, roots) == UnderAny(w', f, roots);
  }

  lemma {:induction false} FirstFileSplit(w: World, o: Options, obj: Object, soname: string, dirs: seq<string>)
    ensures var first := FirstFile(w, soname, dirs);
      && (first.Some? ==> first.value.dir in dirs && first.value.name == soname)
      && (first == FirstShared(w, o, obj, soname, dirs)
          || (first.Some? && MachineOnly(w, o, obj, soname, first.value.dir)
              && MachineOnlyFirst(w, o, obj, soname, dirs)))
  {
    if dirs != [] {
      FirstFileSplit(w, o, obj, soname, dirs[1..]);
    }
  }

  lemma {:induction false} FirstSharedSplit(w: World, o: Options, obj: Object, soname: string, dirs: seq<string>)
    ensures var shared := FirstShared(w, o, obj, soname, dirs);
      shared.Some? ==> shared.value.dir in dirs && shared.value.name == soname
                       && !MachineOnly(w, o, obj, soname, shared.value.dir)
  {
    if dirs != [] {
      FirstSharedSplit(w, o, obj, soname, dirs[1..]);
    }
  }

  lemma {:induction false} SameViewSameShared(w: World, w': World, o: Options, obj: Object, soname: string, dirs: seq<string>)
    requires SameView(w, w', o, obj, soname) && forall d :: d in dirs ==> d in SearchDirs(o, obj)
    ensures FirstShared(w, o, obj, soname, dirs) == FirstShared(w', o, obj, soname, dirs)
    ensures MachineOnlyFirst(w, o, obj, soname, dirs) == MachineOnlyFirst(w', o, obj, soname, dirs)
    ensures (forall d :: d in dirs ==> !MachineOnly(w, o, obj, soname, d)) ==>
      FirstFile(w, soname, dirs) == FirstFile(w', soname, dirs)
  {
    if dirs != [] {
      SameViewSameSplit(w, w', o, obj, soname, dirs[0]);
      SameViewSameShared(w, w', o, obj, soname, dirs[1..]);
    }
  }

  lemma SandboxDirsAreSearched(o: Options, obj: Object, d: string)
    ensures d in SandboxSearchDirs(o, obj) ==> d in SearchDirs(o, obj)
  {
  }

  lemma SameViewSameSecond(w: World, w': World, o: Options, obj: Object, soname: string)
    requires SameView(w, w', o, obj, soname)
    ensures Resolve(w, soname, SandboxSearchDirs(o, obj)) == Resolve(w', soname, SandboxSearchDirs(o, obj))
  {
    forall d | d in SandboxSearchDirs(o, obj) ensures d in SearchDirs(o, obj) {
      SandboxDirsAreSearched(o, obj, d);
    }
    SameViewSameShared(w, w', o, obj, soname, SandboxSearchDirs(o, obj));
  }

  /** What the report says, from the shared places alone. */
  function SharedAnswer(w: World, o: Options, obj: Object, soname: string): Option<File> {
    var shared := FirstShared(w, o, obj, soname, SearchDirs(o, obj));
    var second := Resolve(w, soname, SandboxSearchDirs(o, obj));
    if shared.Some? && OriginOf(w, o, obj, shared.value).Elsewhere? && second.Some? then second else shared
  }

  lemma RobustIsShared(w: World, o: Options, obj: Object, soname: string)
    requires SandboxHas(w, o, obj, soname) && Robust(w, o, obj, soname)
    ensures Settle(w, o, obj, soname) == SharedAnswer(w, o, obj, soname)
  {
    FirstFileSplit(w, o, obj, soname, SearchDirs(o, obj));
  }

  lemma SharedAnswerIsShared(w: World, o: Options, obj: Object, soname: string)
    requires SandboxHas(w, o, obj, soname)
    ensures var a := SharedAnswer(w, o, obj, soname);
      a.Some? && a.value.name == soname && a.value.dir in SearchDirs(o, obj)
      && !MachineOnly(w, o, obj, soname, a.value.dir)
  {
    FirstSharedSplit(w, o, obj, soname, SearchDirs(o, obj));
    FirstFileSplit(w, o, obj, soname, SandboxSearchDirs(o, obj));
    var second := Resolve(w, soname, SandboxSearchDirs(o, obj));
    if second.Some? {
      SandboxDirsAreSearched(o, obj, second.value.dir);
    }
  }

  /** The same resolved path and the same origin on every machine with this view. */
  ghost predicate Independent(w: World, o: Options, obj: Object, soname: string) {
    forall w': World :: SameView(w, w', o, obj, soname) ==>
      var a, a' := Settle(w, o, obj, soname), Settle(w', o, obj, soname);
      a' == a && (a.Some? ==> OriginOf(w', o, obj, a.value) == OriginOf(w, o, obj, a.value))
  }

  lemma RobustIsIndependent(w: World, w': World, o: Options, obj: Object, soname: string)
    requires SandboxHas(w, o, obj, soname) && Robust(w, o, obj, soname) && SameView(w, w', o, obj, soname)
    ensures var a := Settle(w, o, obj, soname);
      Settle(w', o, obj, soname) == a && a.Some?
      && OriginOf(w', o, obj, a.value) == OriginOf(w, o, obj, a.value)
  {
    var dirs := SearchDirs(o, obj);
    SameViewSameShared(w, w', o, obj, soname, dirs);
    SameViewSameSecond(w, w', o, obj, soname);
    FirstSharedSplit(w, o, obj, soname, dirs);
    SameViewSameSplit(w, w', o, obj, soname, FirstShared(w, o, obj, soname, dirs).value.dir);
    RobustIsShared(w, o, obj, soname);
    RobustIsShared(w', o, obj, soname);
    SharedAnswerIsShared(w, o, obj, soname);
    SameViewSameSplit(w, w', o, obj, soname, SharedAnswer(w, o, obj, soname).value.dir);
  }

  /** The machine that has the soname in every machine-only directory, or in none. */
  function Machine2(w: World, o: Options, obj: Object, soname: string, present: bool): World {
    w.(isFile := (f: File) =>
      if f.name == soname && MachineOnly(w, o, obj, soname, f.dir) then present else w.isFile(f))
  }

  lemma Machine2SameView(w: World, o: Options, obj: Object, soname: string, present: bool)
    ensures SameView(w, Machine2(w, o, obj, soname, present), o, obj, soname)
    ensures forall f, r :: UnderAny(Machine2(w, o, obj, soname, present), f, r) == UnderAny(w, f, r)
    ensures forall f :: OriginOf(Machine2(w, o, obj, soname, present), o, obj, f) == OriginOf(w, o, obj, f)
  {
    var w' := Machine2(w, o, obj, soname, present);
    assert forall f, r :: UnderAny(w', f, r) == UnderAny(w, f, r);
  }

  lemma {:induction false} FullMachineFindsItsOwn(w: World, o: Options, obj: Object, soname: string, dirs: seq<string>)
    requires MachineOnlyFirst(w, o, obj, soname, dirs)
    ensures var w' := Machine2(w, o, obj, soname, true); var first := FirstFile(w', soname, dirs);
      first.Some? && first.value.name == soname && MachineOnly(w, o, obj, soname, first.value.dir)
  {
    if !MachineOnly(w, o, obj, soname, dirs[0]) {
      FullMachineFindsItsOwn(w, o, obj, soname, dirs[1..]);
    }
  }

  lemma {:induction false} BareMachineFindsShared(w: World, o: Options, obj: Object, soname: string, dirs: seq<string>)
    ensures FirstFile(Machine2(w, o, obj, soname, false), soname, dirs) == FirstShared(w, o, obj, soname, dirs)
  {
    if dirs != [] {
      BareMachineFindsShared(w, o, obj, soname, dirs[1..]);
    }
  }

  lemma FragileDependsOnMachine(w: World, o: Options, obj: Object, soname: string)
    requires SandboxHas(w, o, obj, soname) && !Robust(w, o, obj, soname)
    ensures Settle(Machine2(w, o, obj, soname, true), o, obj, soname)
         != Settle(Machine2(w, o, obj, soname, false), o, obj, soname)
  {
    var dirs := SearchDirs(o, obj);
    var full, bare := Machine2(w, o, obj, soname, true), Machine2(w, o, obj, soname, false);
    Machine2SameView(w, o, obj, soname, true);
    Machine2SameView(w, o, obj, soname, false);
    SameViewSameSecond(w, full, o, obj, soname);
    SameViewSameSecond(w, bare, o, obj, soname);
    FullMachineFindsItsOwn(w, o, obj, soname, dirs);
    BareMachineFindsShared(w, o, obj, soname, dirs);
    FirstSharedSplit(w, o, obj, soname, dirs);
  }

  /** For a soname the sandbox can satisfy, the answer is the same on every
      machine if and only if no machine-only directory is searched before the
      sandbox's own file, or the second look leads to that file as well. What
      fails is an `$ORIGIN` entry listed after an absolute one. */
  lemma IndependentIffRobust(w: World, o: Options, obj: Object, soname: string)
    requires SandboxHas(w, o, obj, soname)
    ensures Independent(w, o, obj, soname) <==> Robust(w, o, obj, soname)
  {
    if Robust(w, o, obj, soname) {
      forall w': World | SameView(w, w', o, obj, soname)
        ensures var a, a' := Settle(w, o, obj, soname), Settle(w', o, obj, soname);
          a' == a && (a.Some? ==> OriginOf(w', o, obj, a.value) == OriginOf(w, o, obj, a.value))
      {
        RobustIsIndependent(w, w', o, obj, soname);
      }
    } else {
      FragileDependsOnMachine(w, o, obj, soname);
      Machine2SameView(w, o, obj, soname, true);
      Machine2SameView(w, o, obj, soname, false);
    }
  }

  /** An executable in /a with the rpath "/b:$ORIGIN". */
  const LATE_ORIGIN := Object("/a", ElfInfo(true, Unknown, ["x"], [], ["/b", "$ORIGIN"], []))

  function LateOriginWorld(): World {
    World((f: File) => f == File("/a/.", "x"),
          (f: File) => ElfInfo(true, Unknown, [], [], [], []),
          (p: string) => Components(p),
          "/")
  }

  /** The canonical form of a path without `..` on a disk without links. */
  function Components(path: string): seq<string> {
    Parts(path, "")
  }

  function Parts(path: string, part: string): seq<string>
    decreases |path|
  {
    if path == "" then Part(part)
    else if path[0] == '/' then Part(part) + Parts(path[1..], "")
    else Parts(path[1..], part + [path[0]])
  }

  function Part(part: string): seq<string> {
    if part == "" || part == "." then [] else [part]
  }

  lemma {:induction false} PartsStart(path: string, part: string)
    requires part != "" && part[0] != '.'
    ensures Parts(path, part) != [] && Parts(path, part)[0] != "" && Parts(path, part)[0][0] == part[0]
    decreases |path|
  {
    if path != "" && path[0] != '/' {
      PartsStart(path[1..], part + [path[0]]);
    }
  }

  /** An absolute path begins with the component that begins after its slash. */
  lemma ComponentsStart(path: string)
    requires |path| >= 2 && path[0] == '/' && path[1] != '/' && path[1] != '.'
    ensures var c := Components(path); c != [] && c[0] != "" && c[0][0] == path[1]
  {
    assert Parts(path, "") == Part("") + Parts(path[1..], "") == Parts(path[1..], "");
    assert Parts(path[1..], "") == Parts(path[1..][1..], "" + [path[1]]);
    PartsStart(path[2..], [path[1]]);
    assert path[1..][1..] == path[2..] && "" + [path[1]] == [path[1]];
  }

  lemma LateOriginDirs(o: Options)
    requires o == Options([], [], true, true, 4096)
    ensures SandboxSearchDirs(o, LATE_ORIGIN) == ["/lib64", "/usr/lib64", "/lib", "/usr/lib", "/usr/local/lib"]
    ensures SearchDirs(o, LATE_ORIGIN) == ["/b", "/a/."] + SandboxSearchDirs(o, LATE_ORIGIN)
    ensures OriginDirs(LATE_ORIGIN) == ["/a/."]
  {
    assert ORIGIN[0] == '$' && "/b"[0] == '/';
    assert ExpandOrigin("$ORIGIN", "/a") == "/a/.";
    assert OriginEntries(["$ORIGIN"]) == ["$ORIGIN"];
    assert ["/b", "$ORIGIN"][1..] == ["$ORIGIN"];
  }

  /** An `$ORIGIN` entry searched after a machine-only one, for a library the
      package has nowhere else. */
  lemma LateOriginIsFragile(w: World, o: Options, obj: Object, soname: string, own: string, late: string)
    requires Searchable(soname) && SearchDirs(o, obj) == [own, late] + SandboxSearchDirs(o, obj)
    requires MachineOnly(w, o, obj, soname, own)
    requires late in OriginDirs(obj) && w.isFile(File(late, soname))
    requires forall d :: d in SandboxSearchDirs(o, obj) ==> !w.isFile(File(d, soname))
    ensures SandboxHas(w, o, obj, soname) && !Independent(w, o, obj, soname)
  {
    var dirs := SearchDirs(o, obj);
    assert dirs[1..][0] == late;
    assert FirstShared(w, o, obj, soname, dirs[1..]) == Some(File(late, soname));
    NothingFound(w, soname, SandboxSearchDirs(o, obj));
    IndependentIffRobust(w, o, obj, soname);
  }

  lemma NotUnder(w: World, f: File, roots: seq<string>)
    requires w == LateOriginWorld() && |f.dir| >= 2 && f.dir[0] == '/' && f.dir[1] != '/' && f.dir[1] != '.'
    requires forall i :: 0 <= i < |roots| ==>
      |roots[i]| >= 2 && roots[i][0] == '/' && roots[i][1] != '/' && roots[i][1] != '.' && roots[i][1] != f.dir[1]
    ensures !UnderAny(w, f, roots)
  {
    var path := f.dir + "/" + f.name;
    ComponentsStart(path);
    forall i | 0 <= i < |roots| && roots[i] != ""
      ensures !(w.canon(roots[i]) < w.canon(path))
    {
      ComponentsStart(roots[i]);
      assert w.canon(roots[i])[0] != w.canon(path)[0];
    }
  }

  lemma LateOriginIsMachineOnly(w: World, o: Options)
    requires w == LateOriginWorld() && o == Options([], [], true, true, 4096)
    ensures MachineOnly(w, o, LATE_ORIGIN, "x", "/b")
    ensures forall d :: d in SandboxSearchDirs(o, LATE_ORIGIN) ==> !w.isFile(File(d, "x"))
    ensures w.isFile(File("/a/.", "x"))
  {
    hide Components, UnderAny, ExpandAll, OriginEntries;
    LateOriginDirs(o);
    SystemDirs();
    var dirs := SandboxSearchDirs(o, LATE_ORIGIN);
    assert forall d :: d in dirs ==> d[1] == 'l' || d[1] == 'u';
    assert "/b"[1] == 'b' && "/a/."[1] == 'a';
    assert DefaultSearchDirs(w.read(File("/b", "x")).machine) == dirs;
    NotUnder(w, File("/b", "x"), dirs);
    NotUnder(w, File("/b", "x"), ["/a/."]);
    NotUnder(w, File("/b", "x"), []);
  }

  lemma SystemDirs()
    ensures DefaultSearchDirs(Unknown) == ["/lib64", "/usr/lib64", "/lib", "/usr/lib", "/usr/local/lib"]
    ensures forall i :: 0 <= i < |DefaultSearchDirs(Unknown)| ==>
      var d := DefaultSearchDirs(Unknown)[i]; |d| >= 2 && d[0] == '/' && (d[1] == 'l' || d[1] == 'u')
  {
  }

  lemma NameOfX()
    ensures Searchable("x")
  {
  }

  /** The package carries the library where its rpath says, but the answer changes
      with a directory of the build machine. */
  lemma LateOriginExample()
    ensures var w, o := LateOriginWorld(), Options([], [], true, true, 4096);
      SandboxHas(w, o, LATE_ORIGIN, "x") && !Independent(w, o, LATE_ORIGIN, "x")
  {
    var w, o := LateOriginWorld(), Options([], [], true, true, 4096);
    LateOriginDirs(o);
    LateOriginIsMachineOnly(w, o);
    NameOfX();
    LateOriginIsFragile(w, o, LATE_ORIGIN, "x", "/b", "/a/.");
  }

  lemma {:induction false} NothingFound(w: World, soname: string, dirs: seq<string>)
    requires forall d :: d in dirs ==> !w.isFile(File(d, soname))
    ensures FirstFile(w, soname, dirs) == None
  {
    if dirs != [] {
      NothingFound(w, soname, dirs[1..]);
    }
  }
}
