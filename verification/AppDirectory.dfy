/** The durable state of one application directory, `apps/<id>/`, and the
    filesystem effects the installer performs on it. A crash leaves the disk in
    the state after some prefix of the effects, or inside one that is not atomic. */
module AppDirectory {
  import opened Prelude

  type Version = string

  /** A directory tree that exists. A tree that does not exist is not in the map
      (or is None), so two disks are equal exactly when nothing differs on them. */
  datatype Tree = Partial | Complete(content: string)

  datatype Staging = NoStaging | Staging(version: Option<Tree>, meta: Option<Tree>)

  datatype Phase = Preparing | Staged | Verified | Promoted | RecordUpdated

  /** What an installation stands for: who it is, which version, whose key, and where
      it came from and is updated from. */
  datatype Terms = Terms(id: string, version: Version, key: string, url: string, channel: string, source: string)

  /** What the dependency engine made of the payload on this machine, and when. The
      launcher refuses to start what has unresolved libraries. */
  datatype Runtime = Runtime(resolvedAt: string, source: string, glibc: string, unresolved: seq<string>)

  const NO_RUNTIME := Runtime("", "", "", [])

  /** installation.json; `rest` is everything that is not named here. */
  datatype Record = Record(terms: Terms, created: set<string>, runtime: Runtime, rest: string)

  datatype Journal = Journal(target: Version, previous: Option<Version>, phase: Phase, pending: Record)

  datatype Disk = Disk(
    versions: map<Version, Tree>,
    meta: map<Version, Tree>,
    staging: Staging,
    link: Option<Version>,     // the `current` symlink
    text: Option<string>,      // `current.txt`, trimmed
    active: Option<Tree>,      // manifest.json and hashes.json beside the record
    record: Option<Record>,
    journal: Option<Journal>)

  /** Which version `current` names: the symlink, else a non-empty current.txt. */
  function Current(d: Disk): Option<Version> {
    if d.link.Some? then d.link
    else if d.text.Some? && d.text.value != "" then d.text
    else None
  }

  predicate BeforePromotion(p: Phase) {
    p.Preparing? || p.Staged? || p.Verified?
  }

  predicate IsComplete(m: map<Version, Tree>, v: Version) {
    v in m && m[v].Complete?
  }

  /** One filesystem effect. Renames, atomic writes, unlinks and the creation of
      a symlink happen as a whole; the others can be cut short (see Torn). */
  datatype Effect =
    | RemoveStaging
    | CreateStaging
    | ExtractPayload(content: string)
    | WriteStagedMeta(content: string)
    | RemoveVersion(v: Version)
    | RemoveMeta(v: Version)
    | RenameMeta(v: Version)
    | RenameVersion(v: Version)
    | WriteJournal(journal: Journal)
    | RemoveJournal
    | WriteActive(content: string)
    | WriteRecord(record: Record)
    | RequireVersion(v: Version)
    | RemoveLink
    | RemoveText
    | CreateLink(v: Version)
    | WriteText(v: Version)

  /** Whether the effect can be carried out; where it cannot, the source throws. */
  predicate Enabled(e: Effect, d: Disk) {
    match e
    case ExtractPayload(_) => d.staging.Staging?
    case WriteStagedMeta(_) => d.staging.Staging?
    case RenameMeta(v) => d.staging.Staging? && d.staging.meta.Some? && v !in d.meta
    case RenameVersion(v) => d.staging.Staging? && d.staging.version.Some? && v !in d.versions
    case RequireVersion(v) => v in d.versions
    case _ => true
  }

  function Apply(e: Effect, d: Disk): Disk {
    if !Enabled(e, d) then d else
    match e
    case RemoveStaging => d.(staging := NoStaging)
    case CreateStaging => d.(staging := Staging(Some(Partial), Some(Partial)))
    case ExtractPayload(c) => d.(staging := d.staging.(version := Some(Complete(c))))
    case WriteStagedMeta(c) => d.(staging := d.staging.(meta := Some(Complete(c))))
    case RemoveVersion(v) => d.(versions := d.versions - {v})
    case RemoveMeta(v) => d.(meta := d.meta - {v})
    case RenameMeta(v) =>
      d.(meta := d.meta[v := d.staging.meta.value], staging := d.staging.(meta := None))
    case RenameVersion(v) =>
      d.(versions := d.versions[v := d.staging.version.value], staging := d.staging.(version := None))
    case WriteJournal(j) => d.(journal := Some(j))
    case RemoveJournal => d.(journal := None)
    case WriteActive(c) => d.(active := Some(Complete(c)))
    case WriteRecord(r) => d.(record := Some(r))
    case RequireVersion(_) => d
    case RemoveLink => d.(link := None)
    case RemoveText => d.(text := None)
    case CreateLink(v) => d.(link := Some(v))
    case WriteText(v) => d.(text := Some(v))
  }

  /** What a recursive removal or an extraction that was cut short may leave of a tree. */
  predicate TornTree(before: Option<Tree>, after: Option<Tree>) {
    after == before || after == None || (before.Some? && after == Some(Partial))
  }

  /** The states a crash inside the effect can leave behind, besides the one before it. */
  ghost predicate Torn(e: Effect, d: Disk, d': Disk) {
    match e
    case RemoveStaging =>
      d.staging.Staging? && d'.staging.Staging? && d' == d.(staging := d'.staging)
      && TornTree(d.staging.version, d'.staging.version) && TornTree(d.staging.meta, d'.staging.meta)
    case CreateStaging =>
      d' == d.(staging := Staging(None, None)) || d' == d.(staging := Staging(Some(Partial), None))
    case ExtractPayload(_) =>
      d.staging.Staging? && d' == d.(staging := d.staging.(version := Some(Partial)))
    case WriteStagedMeta(_) =>
      d.staging.Staging? && d' == d.(staging := d.staging.(meta := Some(Partial)))
    case RemoveVersion(v) => v in d.versions && d' == d.(versions := d.versions[v := Partial])
    case RemoveMeta(v) => v in d.meta && d' == d.(meta := d.meta[v := Partial])
    case WriteActive(_) => d' == d.(active := Some(Partial))
    case WriteText(v) => d'.text.Some? && d'.text.value <= v && d' == d.(text := d'.text)
    case _ => false
  }

  // --------------------------------------------------------------- programs

  /** How far a piece of code got. `failed` is an exception in flight: nothing more
      is done until somebody handles it. `done` is what was carried out, in order. */
  datatype Progress = Progress(disk: Disk, failed: bool, done: seq<Effect>)

  function Do(e: Effect, s: Progress): Progress {
    if s.failed then s
    else if !Enabled(e, s.disk) then s.(failed := true)
    else Progress(Apply(e, s.disk), false, s.done + [e])
  }

  function DoAll(p: seq<Effect>, s: Progress): Progress {
    if p == [] then s else Do(p[|p| - 1], DoAll(p[..|p| - 1], s))
  }

  /** Effects in order, up to the first that cannot be carried out. */
  function Perform(p: seq<Effect>, d: Disk): Progress {
    DoAll(p, Progress(d, false, []))
  }

  function ApplyAll(p: seq<Effect>, d: Disk): Disk {
    Perform(p, d).disk
  }

  predicate Completes(p: seq<Effect>, d: Disk) {
    !Perform(p, d).failed
  }

  lemma {:induction false} DoAllAppend(p: seq<Effect>, q: seq<Effect>, s: Progress)
    ensures DoAll(p + q, s) == DoAll(q, DoAll(p, s))
  {
    if q == [] {
      assert p + q == p;
    } else {
      assert (p + q)[..|p + q| - 1] == p + q[..|q| - 1];
      DoAllAppend(p, q[..|q| - 1], s);
    }
  }

  /** An exception stays until it is handled. */
  lemma {:induction false} FailedStays(p: seq<Effect>, s: Progress)
    requires s.failed
    ensures DoAll(p, s) == s
  {
    if p != [] {
      FailedStays(p[..|p| - 1], s);
    }
  }

  /** What was done before makes no difference to what is done now. */
  lemma {:induction false} DoAllFrom(p: seq<Effect>, s: Progress)
    requires !s.failed
    ensures DoAll(p, s) == Progress(ApplyAll(p, s.disk), !Completes(p, s.disk), s.done + Perform(p, s.disk).done)
  {
    if p == [] {
      assert s.done + [] == s.done;
    } else {
      DoAllFrom(p[..|p| - 1], s);
      var t := Perform(p[..|p| - 1], s.disk);
      assert s.done + t.done + [p[|p| - 1]] == s.done + (t.done + [p[|p| - 1]]);
    }
  }

  /** A program that completes has done all its effects, in order. */
  lemma {:induction false} DoneExactly(p: seq<Effect>, d: Disk)
    ensures Perform(p, d).done <= p && (Completes(p, d) <==> Perform(p, d).done == p)
  {
    if p != [] {
      DoneExactly(p[..|p| - 1], d);
      assert p == p[..|p| - 1] + [p[|p| - 1]];
    }
  }

  lemma ApplyAllAppend(p: seq<Effect>, q: seq<Effect>, d: Disk)
    requires Completes(p, d)
    ensures ApplyAll(p + q, d) == ApplyAll(q, ApplyAll(p, d))
    ensures Completes(p + q, d) <==> Completes(q, ApplyAll(p, d))
  {
    DoAllAppend(p, q, Progress(d, false, []));
    DoAllFrom(q, Perform(p, d));
  }

  /** One effect after the first `k`. */
  lemma ApplyAllPrefix(p: seq<Effect>, k: nat, d: Disk)
    requires k < |p| && Completes(p[..k], d) && Enabled(p[k], ApplyAll(p[..k], d))
    ensures ApplyAll(p[..k + 1], d) == Apply(p[k], ApplyAll(p[..k], d)) && Completes(p[..k + 1], d)
  {
    assert p[..k + 1][..k] == p[..k];
  }
}
