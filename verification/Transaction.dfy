/** The journalled install transaction, `recover_locked`, and the machine of all
    their runs: installs, crashes at any point, and recoveries, themselves
    interrupted any number of times. */
module Transaction {
  import opened Prelude
  import opened AppDirectory

  /** What one call of `install` brings: the verified package, the record it
      intends to commit, the runtime contract that the payload will be found to have,
      the desktop files, and whether the filesystem supports symlinks. */
  datatype Request = Request(
    target: Version, previous: Option<Version>, pending: Record, runtime: Runtime,
    payload: string, metadata: string, integration: set<string>, symlinks: bool)

  /** What recovery finds on the machine: symlink support and the desktop files
      the refresh writes. */
  datatype Host = Host(symlinks: bool, integration: set<string>)

  function JournalOf(q: Request, p: Phase): Journal {
    Journal(q.target, q.previous, p, q.pending)
  }

  function WithCreated(r: Record, files: set<string>): Record {
    r.(created := r.created + files)
  }

  /** The record that `install` writes: the one in the journal, with the desktop files
      and with the runtime contract, which is resolved only now. */
  function Written(q: Request): Record {
    WithCreated(q.pending, q.integration).(runtime := q.runtime)
  }

  /** The record that recovery writes: the one in the journal, with the desktop files. */
  function Rewritten(pending: Record, target: Version, h: Host): Record {
    WithCreated(pending.(terms := pending.terms.(version := target)), h.integration)
  }

  /** `Registry::set_current_version`: the old pointers go first. */
  function Flip(v: Version, symlinks: bool): seq<Effect> {
    [RequireVersion(v), RemoveLink, RemoveText, if symlinks then CreateLink(v) else WriteText(v)]
  }

  function BeginEffects(q: Request): seq<Effect> {
    [RemoveStaging, CreateStaging, WriteJournal(JournalOf(q, Preparing))]
  }

  function PromoteEffects(q: Request): seq<Effect> {
    [RemoveVersion(q.target), RemoveMeta(q.target), RenameMeta(q.target), RenameVersion(q.target),
     WriteJournal(JournalOf(q, Promoted))]
  }

  function AbortEffects(target: Version): seq<Effect> {
    [RemoveStaging, RemoveVersion(target), RemoveMeta(target), RemoveJournal]
  }

  function CommitEffects(): seq<Effect> {
    [RemoveStaging, RemoveJournal]
  }

  /** Everything `install` does to the directory, in order. */
  function InstallEffect(q: Request, k: nat): Effect
    requires k < 21
  {
    match k
    case 0 => RemoveStaging                                            // begin
    case 1 => CreateStaging
    case 2 => WriteJournal(JournalOf(q, Preparing))
    case 3 => ExtractPayload(q.payload)                                // staging
    case 4 => WriteStagedMeta(q.metadata)
    case 5 => WriteJournal(JournalOf(q, Staged))
    case 6 => WriteJournal(JournalOf(q, Verified))
    case 7 => RemoveVersion(q.target)                                  // promote
    case 8 => RemoveMeta(q.target)
    case 9 => RenameMeta(q.target)
    case 10 => RenameVersion(q.target)
    case 11 => WriteJournal(JournalOf(q, Promoted))
    case 12 => WriteActive(q.metadata)                                 // activation
    case 13 => WriteRecord(Written(q))
    case 14 => RequireVersion(q.target)                                // the flip
    case 15 => RemoveLink
    case 16 => RemoveText
    case 17 => if q.symlinks then CreateLink(q.target) else WriteText(q.target)
    case 18 => WriteJournal(JournalOf(q, RecordUpdated))
    case 19 => RemoveStaging                                           // commit
    case 20 => RemoveJournal
  }

  function InstallProgram(q: Request): seq<Effect> {
    seq(21, k requires 0 <= k < 21 => InstallEffect(q, k))
  }

  /** What `recover_locked` does to finish a promoted transaction. */
  function ForwardEffect(target: Version, pending: Record, metadata: string, h: Host, k: nat): Effect
    requires k < 8
  {
    match k
    case 0 => WriteActive(metadata)
    case 1 => WriteRecord(Rewritten(pending, target, h))
    case 2 => RequireVersion(target)
    case 3 => RemoveLink
    case 4 => RemoveText
    case 5 => if h.symlinks then CreateLink(target) else WriteText(target)
    case 6 => RemoveStaging
    case 7 => RemoveJournal
  }

  function ForwardProgram(target: Version, pending: Record, metadata: string, h: Host): seq<Effect> {
    seq(8, k requires 0 <= k < 8 => ForwardEffect(target, pending, metadata, h, k))
  }

  /** `recover_locked`: the journal's phase picks the direction. A promoted
      transaction whose metadata is gone falls back to a rollback. */
  function RecoveryProgram(d: Disk, h: Host): seq<Effect> {
    if d.journal.None? then []
    else
      var j := d.journal.value;
      if BeforePromotion(j.phase) || !IsComplete(d.meta, j.target) then AbortEffects(j.target)
      else ForwardProgram(j.target, j.pending, d.meta[j.target].content, h)
  }

  /** One recovery that no crash interrupts. */
  function Recover(d: Disk, h: Host): Disk {
    ApplyAll(RecoveryProgram(d, h), d)
  }

  /** The record that an install starts from carries over what it does not set itself. */
  predicate Carries(d: Disk, pending: Record) {
    if d.record.Some? then pending.created == d.record.value.created && pending.runtime == d.record.value.runtime
    else pending.created == {} && pending.runtime == NO_RUNTIME
  }

  /** `install` turns away a request for the version that is already current. */
  predicate Accepts(d: Disk, q: Request) {
    && q.target != ""
    && q.pending.terms.version == q.target && Carries(d, q.pending)
    && q.previous == Current(d)
    && (d.record.Some? ==> Current(d) != Some(q.target))
  }

  // ------------------------------------------------------------ the machine

  datatype Process = Idle | Running(program: seq<Effect>, done: nat)

  /** `base` and `request` belong to the last install that was started: the disk
      it found and what it was asked for. `host` is what the last recovery found, and
      `links` says that every flip since then had symlinks to work with. They are
      history, nothing reads them. */
  datatype State = State(disk: Disk, process: Process, base: Disk, request: Request, host: Host, links: bool)

  predicate Starts(s: State, s': State) {
    && s.process.Idle? && s.disk.journal.None? && Accepts(s.disk, s'.request)
    && s' == State(s.disk, Running(InstallProgram(s'.request), 0), s.disk, s'.request, s.host, s'.request.symlinks)
  }

  /** A recovery, on whatever host it finds. */
  predicate Recovers(s: State, s': State) {
    && s.process.Idle?
    && s' == s.(process := Running(RecoveryProgram(s.disk, s'.host), 0), host := s'.host,
                links := s.links && s'.host.symlinks)
  }

  predicate Progresses(s: State, s': State) {
    && s.process.Running? && s.process.done < |s.process.program|
    && Enabled(s.process.program[s.process.done], s.disk)
    && s' == s.(disk := Apply(s.process.program[s.process.done], s.disk),
                process := s.process.(done := s.process.done + 1))
  }

  predicate Finishes(s: State, s': State) {
    s.process.Running? && s.process.done == |s.process.program| && s' == s.(process := Idle)
  }

  /** A crash, or an exception: the process is gone, the disk stays as it is, or
      as the effect under way has torn it. */
  ghost predicate Crashes(s: State, s': State) {
    && s.process.Running? && s' == s.(disk := s'.disk, process := Idle)
    && (s'.disk == s.disk
        || (s.process.done < |s.process.program| && Torn(s.process.program[s.process.done], s.disk, s'.disk)))
  }

  ghost predicate Next(s: State, s': State) {
    Starts(s, s') || Recovers(s, s') || Progresses(s, s') || Finishes(s, s') || Crashes(s, s')
  }

  ghost predicate IsRun(run: seq<State>) {
    && |run| > 0
    && Quiescent(run[0].disk) && run[0].process.Idle? && run[0].base == run[0].disk
    && (run[0].links ==> run[0].request.symlinks)
    && forall i :: 0 <= i < |run| - 1 ==> Next(run[i], run[i + 1])
  }

  // ----------------------------------------------------------- what is kept

  /** `current` names a complete version with complete metadata, or nothing. */
  predicate ActiveIsComplete(d: Disk) {
    Current(d).Some? ==> IsComplete(d.versions, Current(d).value) && IsComplete(d.meta, Current(d).value)
  }

  /** The symlink and current.txt never both exist, so they cannot disagree. */
  predicate OnePointer(d: Disk) {
    d.link.None? || d.text.None?
  }

  predicate Quiescent(d: Disk) {
    d.journal.None? && OnePointer(d) && ActiveIsComplete(d) && (Current(d).Some? ==> d.record.Some?)
  }

  predicate SameElsewhere(a: Disk, b: Disk, target: Version) {
    a.versions - {target} == b.versions - {target} && a.meta - {target} == b.meta - {target}
  }

  /** The previous installation is still the active one, to the byte. */
  predicate SameActivation(a: Disk, b: Disk) {
    a.link == b.link && a.text == b.text && a.active == b.active && a.record == b.record
  }

  predicate Untouched(base: Disk, d: Disk) {
    d == base.(staging := d.staging)
  }

  predicate RolledBack(base: Disk, d: Disk, target: Version) {
    d == base.(versions := base.versions - {target}, meta := base.meta - {target}, staging := NoStaging)
  }

  predicate TargetInPlace(q: Request, d: Disk) {
    && q.target in d.versions && d.versions[q.target] == Complete(q.payload)
    && q.target in d.meta && d.meta[q.target] == Complete(q.metadata)
  }

  /** The record that was pending, with desktop files possibly added to it, and with
      the runtime contract of the payload or still the one that was pending. */
  predicate CommitsPending(q: Request, r: Option<Record>) {
    && r.Some? && q.pending.created <= r.value.created
    && r.value.(created := q.pending.created, runtime := q.pending.runtime) == q.pending
    && (r.value.runtime == q.pending.runtime || r.value.runtime == q.runtime)
  }

  predicate NewActive(base: Disk, q: Request, d: Disk) {
    && SameElsewhere(base, d, q.target) && TargetInPlace(q, d)
    && d.staging.NoStaging? && d.journal.None? && OnePointer(d)
    && Current(d) == Some(q.target) && d.active == Some(Complete(q.metadata)) && CommitsPending(q, d.record)
  }

  /** The pointer while it is being flipped: the old one, none, the new one or,
      where a text file stands in for the symlink, a torn copy of the new one. */
  predicate Flipping(base: Disk, q: Request, d: Disk, symlinks: bool) {
    || (d.link == base.link && d.text == base.text)
    || Current(d) == None
    || Current(d) == Some(q.target)
    || (!symlinks && d.link.None? && d.text.Some? && d.text.value <= q.target)
  }

  predicate AfterPromotion(base: Disk, q: Request, d: Disk, symlinks: bool) {
    && SameElsewhere(base, d, q.target) && TargetInPlace(q, d)
    && OnePointer(d) && Flipping(base, q, d, symlinks)
    && (d.record == base.record || CommitsPending(q, d.record))
  }

  /** What holds of the disk whenever no process is running. `symlinks` says that
      every flip of this run had symlinks to work with. */
  predicate CrashSafe(base: Disk, q: Request, d: Disk, symlinks: bool) {
    match d.journal
    case None => Untouched(base, d) || RolledBack(base, d, q.target) || NewActive(base, q, d)
    case Some(j) =>
      && j == JournalOf(q, j.phase)
      && if BeforePromotion(j.phase)
         then SameElsewhere(base, d, q.target) && SameActivation(base, d)
         else AfterPromotion(base, q, d, symlinks)
  }

  // ------------------------------------------- what holds inside each program

  function PhaseAt(k: nat): Option<Phase> {
    if k <= 2 then None
    else if k <= 5 then Some(Preparing)
    else if k == 6 then Some(Staged)
    else if k <= 11 then Some(Verified)
    else if k <= 18 then Some(Promoted)
    else if k <= 20 then Some(RecordUpdated)
    else None
  }

  function StagingAt(q: Request, k: nat): Staging {
    if k <= 1 || 20 <= k then NoStaging
    else if k <= 3 then Staging(Some(Partial), Some(Partial))
    else if k == 4 then Staging(Some(Complete(q.payload)), Some(Partial))
    else if k <= 9 then Staging(Some(Complete(q.payload)), Some(Complete(q.metadata)))
    else if k == 10 then Staging(Some(Complete(q.payload)), None)
    else Staging(None, None)
  }

  /** The disk after the first `k` effects of the install program. */
  predicate Installing(base: Disk, q: Request, d: Disk, k: nat) {
    && d.journal == (if PhaseAt(k).Some? then Some(JournalOf(q, PhaseAt(k).value)) else None)
    && (k > 0 ==> d.staging == StagingAt(q, k))
    && d.versions == (if k <= 7 then base.versions
                      else if k <= 10 then base.versions - {q.target}
                      else base.versions[q.target := Complete(q.payload)])
    && d.meta == (if k <= 8 then base.meta
                  else if k == 9 then base.meta - {q.target}
                  else base.meta[q.target := Complete(q.metadata)])
    && d.active == (if k <= 12 then base.active else Some(Complete(q.metadata)))
    && d.record == (if k <= 13 then base.record else Some(Written(q)))
    && (d.link, d.text) == (if k <= 15 then (base.link, base.text)
                            else if k == 16 then (None, base.text)
                            else if k == 17 then (None, None)
                            else if q.symlinks then (Some(q.target), None)
                            else (None, Some(q.target)))
  }

  /** The disk after the first `k` effects of a rollback. */
  predicate RollingBack(base: Disk, q: Request, d: Disk, k: nat) {
    && SameElsewhere(base, d, q.target) && SameActivation(base, d)
    && (k >= 1 ==> d.staging.NoStaging?)
    && (k >= 2 ==> q.target !in d.versions)
    && (k >= 3 ==> q.target !in d.meta)
    && (if k <= 3 then d.journal.Some? && d.journal.value == JournalOf(q, d.journal.value.phase)
                       && BeforePromotion(d.journal.value.phase)
        else d.journal.None?)
  }

  /** The disk after the first `k` effects of a completion. */
  predicate Completing(base: Disk, q: Request, d: Disk, k: nat, h: Host, links: bool) {
    && AfterPromotion(base, q, d, links)
    && (if k <= 7 then d.journal.Some? && d.journal.value == JournalOf(q, d.journal.value.phase)
                       && !BeforePromotion(d.journal.value.phase)
        else d.journal.None?)
    && (k >= 1 ==> d.active == Some(Complete(q.metadata)))
    && (k >= 2 ==> d.record == Some(WithCreated(q.pending, h.integration)))
    && (k >= 4 ==> d.link.None? || k >= 6)
    && (k == 5 ==> d.text.None?)
    && (k >= 6 ==> Current(d) == Some(q.target))
    && (k >= 7 ==> d.staging.NoStaging?)
  }

  predicate Underway(base: Disk, q: Request, d: Disk, p: Process, h: Host, links: bool) {
    match p
    case Idle => CrashSafe(base, q, d, links)
    case Running(program, k) =>
      || (program == InstallProgram(q) && k <= |program| && Accepts(base, q) && Installing(base, q, d, k))
      || (program == AbortEffects(q.target) && k <= |program| && Accepts(base, q) && RollingBack(base, q, d, k))
      || (program == ForwardProgram(q.target, q.pending, q.metadata, h) && k <= |program|
          && Accepts(base, q) && (links ==> h.symlinks) && Completing(base, q, d, k, h, links))
      || (program == [] && k == 0 && d.journal.None? && CrashSafe(base, q, d, links))
  }

  /** The invariant of every run. */
  predicate Inv(s: State) {
    && Quiescent(s.base) && (s.links ==> s.request.symlinks)
    && (Untouched(s.base, s.disk) || Accepts(s.base, s.request))
    && Underway(s.base, s.request, s.disk, s.process, s.host, s.links)
  }

  lemma StagingAdvances(base: Disk, q: Request, d: Disk, k: nat)
    requires k < 7 && Installing(base, q, d, k)
    ensures Enabled(InstallEffect(q, k), d)
    ensures Installing(base, q, Apply(InstallEffect(q, k), d), k + 1)
  {
  }

  lemma PromotionAdvances(base: Disk, q: Request, d: Disk, k: nat)
    requires 7 <= k < 12 && Installing(base, q, d, k)
    ensures Enabled(InstallEffect(q, k), d)
    ensures Installing(base, q, Apply(InstallEffect(q, k), d), k + 1)
  {
  }

  lemma ActivationAdvances(base: Disk, q: Request, d: Disk, k: nat)
    requires 12 <= k < 21 && Installing(base, q, d, k)
    ensures Enabled(InstallEffect(q, k), d)
    ensures Installing(base, q, Apply(InstallEffect(q, k), d), k + 1)
  {
  }

  lemma InstallAdvances(base: Disk, q: Request, d: Disk, k: nat)
    requires k < 21 && Installing(base, q, d, k)
    ensures Enabled(InstallEffect(q, k), d)
    ensures Installing(base, q, Apply(InstallEffect(q, k), d), k + 1)
  {
    if k < 7 {
      StagingAdvances(base, q, d, k);
    } else if k < 12 {
      PromotionAdvances(base, q, d, k);
    } else {
      ActivationAdvances(base, q, d, k);
    }
  }

  lemma InstallProgramParts(q: Request)
    ensures InstallProgram(q) ==
      BeginEffects(q)
      + [ExtractPayload(q.payload), WriteStagedMeta(q.metadata),
         WriteJournal(JournalOf(q, Staged)), WriteJournal(JournalOf(q, Verified))]
      + PromoteEffects(q)
      + [WriteActive(q.metadata), WriteRecord(Written(q))]
      + Flip(q.target, q.symlinks)
      + [WriteJournal(JournalOf(q, RecordUpdated))]
      + CommitEffects()
  {
  }

  lemma InstallSafe(base: Disk, q: Request, d: Disk, k: nat, symlinks: bool)
    requires Quiescent(base) && Accepts(base, q) && k <= 21 && Installing(base, q, d, k)
    requires symlinks ==> q.symlinks
    ensures CrashSafe(base, q, d, symlinks)
  {
    assert SameElsewhere(base, d, q.target);
  }

  /** What a torn effect can have changed. */
  lemma TornOnly(e: Effect, d: Disk, d': Disk)
    requires Torn(e, d, d')
    ensures d'.journal == d.journal && d'.record == d.record && d'.link == d.link
    ensures e.WriteActive? || d'.active == d.active
    ensures e.WriteText? || d'.text == d.text
    ensures e.RemoveVersion? || d'.versions == d.versions
    ensures e.RemoveMeta? || d'.meta == d.meta
    ensures e.RemoveVersion? ==> d.versions - {e.v} == d'.versions - {e.v}
    ensures e.RemoveMeta? ==> d.meta - {e.v} == d'.meta - {e.v}
  {
  }

  lemma InstallTorn(base: Disk, q: Request, d: Disk, k: nat, d': Disk, symlinks: bool)
    requires Quiescent(base) && CrashSafe(base, q, d, symlinks) && k < 12 && Installing(base, q, d, k)
    requires Torn(InstallEffect(q, k), d, d')
    ensures CrashSafe(base, q, d', symlinks)
  {
    TornOnly(InstallEffect(q, k), d, d');
    if k <= 2 {
      assert Untouched(base, d');
    } else {
      assert SameActivation(base, d');
    }
  }

  lemma ActivationTorn(base: Disk, q: Request, d: Disk, k: nat, d': Disk, symlinks: bool)
    requires CrashSafe(base, q, d, symlinks) && 12 <= k < 21 && Installing(base, q, d, k)
    requires Torn(InstallEffect(q, k), d, d') && (symlinks ==> q.symlinks)
    ensures CrashSafe(base, q, d', symlinks)
  {
    TornOnly(InstallEffect(q, k), d, d');
    assert d.journal.Some? && TargetInPlace(q, d');
  }

  /** A crash before or inside effect `k` of an install leaves a safe disk. */
  lemma InstallCrashes(base: Disk, q: Request, d: Disk, k: nat, d': Disk, symlinks: bool)
    requires Quiescent(base) && Accepts(base, q) && k <= 21 && Installing(base, q, d, k)
    requires d' == d || (k < 21 && Torn(InstallEffect(q, k), d, d'))
    requires symlinks ==> q.symlinks
    ensures CrashSafe(base, q, d', symlinks)
  {
    InstallSafe(base, q, d, k, symlinks);
    if d' != d && k < 12 {
      InstallTorn(base, q, d, k, d', symlinks);
    } else if d' != d {
      ActivationTorn(base, q, d, k, d', symlinks);
    }
  }

  lemma RollbackAdvances(base: Disk, q: Request, d: Disk, k: nat)
    requires Quiescent(base) && Accepts(base, q) && k < 4 && RollingBack(base, q, d, k)
    ensures Enabled(AbortEffects(q.target)[k], d)
    ensures RollingBack(base, q, Apply(AbortEffects(q.target)[k], d), k + 1)
  {
  }

  lemma RollbackCrashes(base: Disk, q: Request, d: Disk, k: nat, d': Disk, symlinks: bool)
    requires Quiescent(base) && Accepts(base, q) && k <= 4 && RollingBack(base, q, d, k)
    requires d' == d || (k < 4 && Torn(AbortEffects(q.target)[k], d, d'))
    ensures CrashSafe(base, q, d', symlinks)
  {
    if d' != d {
      TornOnly(AbortEffects(q.target)[k], d, d');
    }
  }

  lemma CompletionBegins(base: Disk, q: Request, d: Disk, k: nat, h: Host, links: bool)
    requires Accepts(base, q) && k < 4 && Completing(base, q, d, k, h, links)
    ensures Enabled(ForwardEffect(q.target, q.pending, q.metadata, h, k), d)
    ensures Completing(base, q, Apply(ForwardEffect(q.target, q.pending, q.metadata, h, k), d), k + 1, h, links)
  {
    assert Rewritten(q.pending, q.target, h) == WithCreated(q.pending, h.integration);
  }

  lemma CompletionEnds(base: Disk, q: Request, d: Disk, k: nat, h: Host, links: bool)
    requires Accepts(base, q) && 4 <= k < 8 && Completing(base, q, d, k, h, links) && (links ==> h.symlinks)
    ensures Enabled(ForwardEffect(q.target, q.pending, q.metadata, h, k), d)
    ensures Completing(base, q, Apply(ForwardEffect(q.target, q.pending, q.metadata, h, k), d), k + 1, h, links)
  {
  }

  lemma CompletionAdvances(base: Disk, q: Request, d: Disk, k: nat, h: Host, links: bool)
    requires Quiescent(base) && Accepts(base, q) && k < 8 && Completing(base, q, d, k, h, links)
    requires links ==> h.symlinks
    ensures Enabled(ForwardEffect(q.target, q.pending, q.metadata, h, k), d)
    ensures Completing(base, q, Apply(ForwardEffect(q.target, q.pending, q.metadata, h, k), d), k + 1, h, links)
  {
    hide Completing, Enabled, Apply, ForwardEffect;
    if k < 4 {
      CompletionBegins(base, q, d, k, h, links);
    } else {
      CompletionEnds(base, q, d, k, h, links);
    }
  }

  lemma CompletionSafe(base: Disk, q: Request, d: Disk, k: nat, h: Host, links: bool)
    requires Accepts(base, q) && k <= 8 && Completing(base, q, d, k, h, links)
    ensures CrashSafe(base, q, d, links)
  {
  }

  lemma CompletionTorn(base: Disk, q: Request, d: Disk, k: nat, h: Host, links: bool, d': Disk)
    requires Accepts(base, q) && k < 8 && Completing(base, q, d, k, h, links) && (links ==> h.symlinks)
    requires Torn(ForwardEffect(q.target, q.pending, q.metadata, h, k), d, d')
    ensures CrashSafe(base, q, d', links)
  {
    TornOnly(ForwardEffect(q.target, q.pending, q.metadata, h, k), d, d');
  }

  lemma ElsewhereAt(a: Disk, b: Disk, target: Version, v: Version)
    requires SameElsewhere(a, b, target) && v != target
    ensures v in a.versions <==> v in b.versions
    ensures v in a.versions ==> a.versions[v] == b.versions[v]
    ensures v in a.meta <==> v in b.meta
    ensures v in a.meta ==> a.meta[v] == b.meta[v]
  {
    assert v in a.versions <==> v in a.versions - {target};
    assert v in b.versions <==> v in b.versions - {target};
    assert v in a.meta <==> v in a.meta - {target};
    assert v in b.meta <==> v in b.meta - {target};
  }

  /** With no journal, the disk is fit for the next install. */
  lemma SafeIsQuiescent(base: Disk, q: Request, d: Disk, symlinks: bool)
    requires Quiescent(base) && (Untouched(base, d) || Accepts(base, q))
    requires d.journal.None? && CrashSafe(base, q, d, symlinks)
    ensures Quiescent(d)
  {
  }

  /** Starting a recovery: the journal says which one. */
  lemma RecoveryStarts(s: State, s': State)
    requires Inv(s) && Recovers(s, s')
    ensures Inv(s')
  {
  }

  lemma InstallSteps(s: State, s': State)
    requires Inv(s) && Progresses(s, s')
    ensures Inv(s')
  {
    var base, q, d, p := s.base, s.request, s.disk, s.process;
    hide Apply, Enabled, Quiescent, Accepts, Installing, RollingBack, Completing, CrashSafe, Untouched;
    if p.program == InstallProgram(q) && Accepts(base, q) && Installing(base, q, d, p.done) {
      InstallAdvances(base, q, d, p.done);
    } else if p.program == AbortEffects(q.target) && Accepts(base, q) && RollingBack(base, q, d, p.done) {
      RollbackAdvances(base, q, d, p.done);
    } else if p.program != [] {
      CompletionAdvances(base, q, d, p.done, s.host, s.links);
    }
  }

  lemma ProcessEnds(s: State, s': State)
    requires Inv(s) && (Crashes(s, s') || Finishes(s, s'))
    ensures Inv(s')
  {
    var base, q, d, p := s.base, s.request, s.disk, s.process;
    hide Apply, Enabled, Torn, Accepts, Installing, RollingBack, Completing, CrashSafe;
    if p.program == InstallProgram(q) && Accepts(base, q) && Installing(base, q, d, p.done) {
      InstallCrashes(base, q, d, p.done, s'.disk, s.links);
    } else if p.program == AbortEffects(q.target) && Accepts(base, q) && RollingBack(base, q, d, p.done) {
      RollbackCrashes(base, q, d, p.done, s'.disk, s.links);
    } else if p.program != [] {
      CompletionSafe(base, q, d, p.done, s.host, s.links);
      if s'.disk != d {
        CompletionTorn(base, q, d, p.done, s.host, s.links, s'.disk);
      }
    }
  }

  lemma InvNext(s: State, s': State)
    requires Inv(s) && Next(s, s')
    ensures Inv(s')
  {
    hide InstallProgram, Enabled, Apply, Torn;
    if Starts(s, s') {
      SafeIsQuiescent(s.base, s.request, s.disk, s.links);
    } else if Recovers(s, s') {
      RecoveryStarts(s, s');
    } else if Progresses(s, s') {
      InstallSteps(s, s');
    } else {
      ProcessEnds(s, s');
    }
  }

  lemma {:induction false} RunKeepsInv(run: seq<State>, i: nat)
    requires IsRun(run) && i < |run|
    ensures Inv(run[i])
  {
    if i > 0 {
      RunKeepsInv(run, i - 1);
      InvNext(run[i - 1], run[i]);
    }
  }

  /** A running process could crash now, so its disk is one of the safe ones. */
  lemma InvIsCrashSafe(s: State)
    requires Inv(s)
    ensures CrashSafe(s.base, s.request, s.disk, s.links)
  {
    if s.process.Running? {
      InvNext(s, s.(process := Idle));
    }
  }

  // -------------------------------------------------------- the safety theorem

  /** In every state of every run, whatever crashed and however often: versions
      other than the target are as the install found them; while the journal is
      absent or before Promoted, `current` names a complete version or nothing;
      afterwards the target is complete and `current` is the old pointer, the
      target, missing, or, where some flip had no symlinks, a torn copy of the
      target's name. */
  lemma Safety(run: seq<State>, i: nat)
    requires IsRun(run) && i < |run|
    ensures var s := run[i];
      && SameElsewhere(s.base, s.disk, s.request.target)
      && (s.disk.journal.None? || BeforePromotion(s.disk.journal.value.phase) ==> ActiveIsComplete(s.disk))
      && (s.disk.journal.Some? && !BeforePromotion(s.disk.journal.value.phase) ==>
            TargetInPlace(s.request, s.disk) && Flipping(s.base, s.request, s.disk, s.links))
  {
    RunKeepsInv(run, i);
    InvIsCrashSafe(run[i]);
    var s := run[i];
    if Current(s.base).Some? && s.disk.journal.Some? {
      ElsewhereAt(s.base, s.disk, s.request.target, Current(s.base).value);
    }
    if s.disk.journal.None? {
      SafeIsQuiescent(s.base, s.request, s.disk, s.links);
    }
  }

  /** No effect of an install or a recovery fails for want of what it needs. */
  lemma NeverStuck(run: seq<State>, i: nat)
    requires IsRun(run) && i < |run|
    requires run[i].process.Running? && run[i].process.done < |run[i].process.program|
    ensures Enabled(run[i].process.program[run[i].process.done], run[i].disk)
  {
    RunKeepsInv(run, i);
    var s, k := run[i], run[i].process.done;
    hide Enabled, Apply, Quiescent, Accepts, Installing, RollingBack, Completing, CrashSafe, Untouched;
    if s.process.program == InstallProgram(s.request) && Installing(s.base, s.request, s.disk, k) {
      InstallAdvances(s.base, s.request, s.disk, k);
    } else if s.process.program == AbortEffects(s.request.target) && RollingBack(s.base, s.request, s.disk, k) {
      RollbackAdvances(s.base, s.request, s.disk, k);
    } else {
      CompletionAdvances(s.base, s.request, s.disk, k, s.host, s.links);
    }
  }

  // ----------------------------------------------------------------- recovery

  function UndoneDisk(d: Disk, target: Version): Disk {
    d.(staging := NoStaging, versions := d.versions - {target}, meta := d.meta - {target}, journal := None)
  }

  /** The first two effects of a completion: what can be reached without the version. */
  function ReactivatedDisk(d: Disk, j: Journal, metadata: string, h: Host): Disk {
    d.(active := Some(Complete(metadata)), record := Some(Rewritten(j.pending, j.target, h)))
  }

  function CompletedDisk(d: Disk, j: Journal, metadata: string, h: Host): Disk {
    ReactivatedDisk(d, j, metadata, h).(
      link := if h.symlinks then Some(j.target) else None,
      text := if h.symlinks then None else Some(j.target),
      staging := NoStaging, journal := None)
  }

  lemma PerformOne(e: Effect, d: Disk)
    ensures Perform([e], d) == Do(e, Progress(d, false, []))
  {
    var s := Progress(d, false, []);
    assert [e][..0] == [] && DoAll([], s) == s;
    assert DoAll([e], s) == Do(e, DoAll([e][..0], s));
  }

  lemma PerformTwo(e: Effect, f: Effect, d: Disk)
    ensures Perform([e, f], d) == Do(f, Do(e, Progress(d, false, [])))
  {
    assert [e, f][..1] == [e];
    PerformOne(e, d);
  }

  lemma PerformFour(e: Effect, f: Effect, g: Effect, h: Effect, d: Disk)
    ensures Perform([e, f, g, h], d) == Do(h, Do(g, Do(f, Do(e, Progress(d, false, [])))))
  {
    hide Do;
    var s, p, q := Progress(d, false, []), [e, f, g, h], [e, f, g];
    PerformTwo(e, f, d);
    assert p[..3] == q && q[..2] == [e, f];
    assert DoAll(q, s) == Do(g, DoAll(q[..2], s));
    assert DoAll(p, s) == Do(h, DoAll(p[..3], s));
  }

  lemma AbortResult(d: Disk, target: Version)
    ensures ApplyAll(AbortEffects(target), d) == UndoneDisk(d, target) && Completes(AbortEffects(target), d)
  {
    PerformFour(RemoveStaging, RemoveVersion(target), RemoveMeta(target), RemoveJournal, d);
  }

  lemma ForwardProgramParts(target: Version, pending: Record, metadata: string, h: Host)
    ensures ForwardProgram(target, pending, metadata, h) ==
      [WriteActive(metadata), WriteRecord(Rewritten(pending, target, h))]
      + (Flip(target, h.symlinks) + CommitEffects())
  {
  }

  /** The flip ends the program with an exception where the version is missing. */
  lemma FlipResult(d: Disk, v: Version, symlinks: bool)
    ensures Completes(Flip(v, symlinks), d) <==> v in d.versions
    ensures ApplyAll(Flip(v, symlinks), d) ==
      if v in d.versions
      then d.(link := if symlinks then Some(v) else None, text := if symlinks then None else Some(v)) else d
  {
    var f := Flip(v, symlinks);
    PerformFour(f[0], f[1], f[2], f[3], d);
  }

  lemma CommitResult(d: Disk)
    ensures Completes(CommitEffects(), d) && ApplyAll(CommitEffects(), d) == d.(staging := NoStaging, journal := None)
  {
    PerformTwo(RemoveStaging, RemoveJournal, d);
  }

  lemma ForwardResult(d: Disk, j: Journal, metadata: string, h: Host)
    ensures var p := ForwardProgram(j.target, j.pending, metadata, h);
      && (Completes(p, d) <==> j.target in d.versions)
      && ApplyAll(p, d) == if j.target in d.versions then CompletedDisk(d, j, metadata, h)
                           else ReactivatedDisk(d, j, metadata, h)
  {
    hide DoAll, Do, Flip, CommitEffects, ForwardProgram;
    var head := [WriteActive(metadata), WriteRecord(Rewritten(j.pending, j.target, h))];
    var flip, tail := Flip(j.target, h.symlinks), CommitEffects();
    ForwardProgramParts(j.target, j.pending, metadata, h);
    HeadResult(d, j, metadata, h);
    var e := ReactivatedDisk(d, j, metadata, h);
    ApplyAllAppend(head, flip + tail, d);
    FlipResult(e, j.target, h.symlinks);
    if j.target in d.versions {
      ApplyAllAppend(flip, tail, e);
      CommitResult(ApplyAll(flip, e));
    } else {
      DoAllAppend(flip, tail, Progress(e, false, []));
      FailedStays(tail, Perform(flip, e));
    }
  }

  lemma HeadResult(d: Disk, j: Journal, metadata: string, h: Host)
    ensures var head := [WriteActive(metadata), WriteRecord(Rewritten(j.pending, j.target, h))];
      Completes(head, d) && ApplyAll(head, d) == ReactivatedDisk(d, j, metadata, h)
  {
    PerformTwo(WriteActive(metadata), WriteRecord(Rewritten(j.pending, j.target, h)), d);
  }

  predicate GoesForward(d: Disk) {
    d.journal.Some? && !BeforePromotion(d.journal.value.phase) && IsComplete(d.meta, d.journal.value.target)
  }

  /** A promoted transaction whose version directory is gone while its metadata is
      there: recovery throws at the flip. No run gets here. */
  predicate IsStuck(d: Disk) {
    GoesForward(d) && d.journal.value.target !in d.versions
  }

  lemma RecoverResult(d: Disk, h: Host)
    ensures Completes(RecoveryProgram(d, h), d) <==> !IsStuck(d)
    ensures Recover(d, h) ==
      if d.journal.None? then d
      else
        var j := d.journal.value;
        if !GoesForward(d) then UndoneDisk(d, j.target)
        else if IsStuck(d) then ReactivatedDisk(d, j, d.meta[j.target].content, h)
        else CompletedDisk(d, j, d.meta[j.target].content, h)
  {
    hide Do, AbortEffects, ForwardProgram;
    if d.journal.Some? {
      AbortResult(d, d.journal.value.target);
      if GoesForward(d) {
        ForwardResult(d, d.journal.value, d.meta[d.journal.value.target].content, h);
      }
    }
  }

  /** A second recovery changes nothing, from any disk at all. */
  lemma RecoverIdempotent(d: Disk, h: Host)
    ensures Recover(Recover(d, h), h) == Recover(d, h)
  {
    hide Recover;
    RecoverResult(d, h);
    RecoverResult(Recover(d, h), h);
  }

  /** One recovery of any disk a run can leave, on any host: no exception, no
      journal, a complete active version or none, and the durable phase alone decides
      between the installation that was there before and the new one, with exactly
      the record that was pending. */
  lemma RecoveryConverges(run: seq<State>, h: Host)
    requires IsRun(run) && run[|run| - 1].process.Idle?
    ensures var s := run[|run| - 1]; var r := Recover(s.disk, h);
      && Completes(RecoveryProgram(s.disk, h), s.disk) && Quiescent(r)
      && (s.disk.journal.None? ==> r == s.disk)
      && (s.disk.journal.Some? && BeforePromotion(s.disk.journal.value.phase) ==>
            RolledBack(s.base, r, s.request.target))
      && (s.disk.journal.Some? && !BeforePromotion(s.disk.journal.value.phase) ==>
            NewActive(s.base, s.request, r) && r.record == Some(WithCreated(s.request.pending, h.integration)))
  {
    hide Recover, RecoveryProgram;
    var s := run[|run| - 1];
    RunKeepsInv(run, |run| - 1);
    RecoverResult(s.disk, h);
    var r := Recover(s.disk, h);
    if s.disk.journal.Some? && BeforePromotion(s.disk.journal.value.phase) {
      assert RolledBack(s.base, r, s.request.target);
    } else if s.disk.journal.Some? {
      assert GoesForward(s.disk) && !IsStuck(s.disk);
      assert Rewritten(s.request.pending, s.request.target, h) == WithCreated(s.request.pending, h.integration);
      assert NewActive(s.base, s.request, r);
    }
    SafeIsQuiescent(s.base, s.request, r, s.links);
  }

  /** Recovery leaves no staging exactly when there was none, or when it ran to its
      end: a crash in `begin` before its first journal write leaves a staging tree
      that no recovery sees. */
  lemma RecoveryClearsStaging(d: Disk, h: Host)
    ensures Recover(d, h).staging.NoStaging? <==> d.staging.NoStaging? || (d.journal.Some? && !IsStuck(d))
  {
    hide Recover;
    RecoverResult(d, h);
  }

  /** The disk a crash can leave after `k` effects of a recovery, or inside the next. */
  ghost predicate Interrupts(d: Disk, h: Host, k: nat, d': Disk) {
    var p := RecoveryProgram(d, h);
    && k <= |p| && Completes(p[..k], d)
    && var dk := ApplyAll(p[..k], d);
       d' == dk || (k < |p| && Enabled(p[k], dk) && Torn(p[k], dk, d'))
  }

  /** While the journal is there, the rest of the recovery starts from the same facts. */
  predicate SameDecision(d: Disk, d': Disk) {
    && d'.journal == d.journal && d.journal.Some?
    && if GoesForward(d)
       then && d'.versions == d.versions && d'.meta == d.meta
            && (IsStuck(d) ==> d'.(active := d.active, record := d.record) == d)
       else && SameElsewhere(d, d', d.journal.value.target) && SameActivation(d, d')
            && (BeforePromotion(d.journal.value.phase) || !IsComplete(d'.meta, d.journal.value.target))
  }

  lemma SameDecisionSameResult(d: Disk, d': Disk, h: Host)
    requires SameDecision(d, d')
    ensures Recover(d', h) == Recover(d, h)
  {
    hide Recover;
    RecoverResult(d, h);
    RecoverResult(d', h);
  }

  lemma RollbackKeepsDecision(d: Disk, k: nat, dk: Disk, d': Disk)
    requires d.journal.Some? && !GoesForward(d) && SameDecision(d, dk)
    requires k < 3 && var e := AbortEffects(d.journal.value.target)[k]; d' == Apply(e, dk) || Torn(e, dk, d')
    ensures SameDecision(d, d')
  {
    hide SameDecision, Apply, Torn;
    var t := d.journal.value.target;
    if k == 0 {
      StagingKeepsDecision(d, dk, d');
    } else if k == 1 {
      VersionKeepsDecision(d, dk, d');
    } else {
      MetaKeepsDecision(d, dk, d');
    }
  }

  lemma StagingKeepsDecision(d: Disk, dk: Disk, d': Disk)
    requires d.journal.Some? && !GoesForward(d) && SameDecision(d, dk)
    requires d' == Apply(RemoveStaging, dk) || Torn(RemoveStaging, dk, d')
    ensures SameDecision(d, d')
  {
  }

  lemma VersionKeepsDecision(d: Disk, dk: Disk, d': Disk)
    requires d.journal.Some? && !GoesForward(d) && SameDecision(d, dk)
    requires var e := RemoveVersion(d.journal.value.target); d' == Apply(e, dk) || Torn(e, dk, d')
    ensures SameDecision(d, d')
  {
    assert SameElsewhere(dk, d', d.journal.value.target);
  }

  lemma MetaKeepsDecision(d: Disk, dk: Disk, d': Disk)
    requires d.journal.Some? && !GoesForward(d) && SameDecision(d, dk)
    requires var e := RemoveMeta(d.journal.value.target); d' == Apply(e, dk) || Torn(e, dk, d')
    ensures SameDecision(d, d')
  {
    assert SameElsewhere(dk, d', d.journal.value.target);
  }

  lemma CompletionKeepsDecision(d: Disk, h: Host, k: nat, dk: Disk, d': Disk)
    requires GoesForward(d) && SameDecision(d, dk) && k < 7
    requires var j := d.journal.value;
      var e := ForwardEffect(j.target, j.pending, d.meta[j.target].content, h, k);
      Enabled(e, dk) && (d' == Apply(e, dk) || Torn(e, dk, d')) && (IsStuck(d) ==> k < 3)
    ensures SameDecision(d, d')
  {
  }

  lemma RecoveryEffectKeepsDecision(d: Disk, h: Host, k: nat, dk: Disk, d': Disk)
    requires k + 1 < |RecoveryProgram(d, h)| && SameDecision(d, dk) && (IsStuck(d) ==> k < 3)
    requires Enabled(RecoveryProgram(d, h)[k], dk)
    requires d' == Apply(RecoveryProgram(d, h)[k], dk) || Torn(RecoveryProgram(d, h)[k], dk, d')
    ensures SameDecision(d, d')
  {
    hide SameDecision, Apply, Torn;
    if GoesForward(d) {
      CompletionKeepsDecision(d, h, k, dk, d');
    } else {
      RollbackKeepsDecision(d, k, dk, d');
    }
  }

  lemma {:induction false} CompletesPrefix(p: seq<Effect>, k: nat, d: Disk)
    requires 0 < k <= |p| && Completes(p[..k], d)
    ensures Completes(p[..k - 1], d) && Enabled(p[k - 1], ApplyAll(p[..k - 1], d))
    ensures ApplyAll(p[..k], d) == Apply(p[k - 1], ApplyAll(p[..k - 1], d))
  {
    assert p[..k][..k - 1] == p[..k - 1];
  }

  lemma {:induction false} RecoveryPrefix(d: Disk, h: Host, k: nat)
    requires k < |RecoveryProgram(d, h)| && Completes(RecoveryProgram(d, h)[..k], d)
    ensures SameDecision(d, ApplyAll(RecoveryProgram(d, h)[..k], d)) && (IsStuck(d) ==> k < 3)
  {
    hide RecoveryProgram, SameDecision, Apply, Enabled, Do;
    var p := RecoveryProgram(d, h);
    if k == 0 {
      NothingDone(d, h);
    } else {
      CompletesPrefix(p, k, d);
      RecoveryPrefix(d, h, k - 1);
      RecoveryEffectKeepsDecision(d, h, k - 1, ApplyAll(p[..k - 1], d), ApplyAll(p[..k], d));
      if k == 3 && IsStuck(d) {
        StuckAtTheFlip(d, h, ApplyAll(p[..2], d));
      }
    }
  }

  lemma NothingDone(d: Disk, h: Host)
    requires RecoveryProgram(d, h) != []
    ensures SameDecision(d, ApplyAll(RecoveryProgram(d, h)[..0], d))
  {
  }

  lemma StuckAtTheFlip(d: Disk, h: Host, dk: Disk)
    requires IsStuck(d) && SameDecision(d, dk)
    ensures |RecoveryProgram(d, h)| == 8 && !Enabled(RecoveryProgram(d, h)[2], dk)
  {
  }

  /** A recovery cut short anywhere, even inside an effect, is no loss: while the
      journal is there, running it again, on whatever host, ends on exactly the disk
      that it would have left; once the journal is gone nothing is left to do. */
  lemma InterruptedRecovery(d: Disk, h: Host, k: nat, d': Disk, again: Host)
    requires Interrupts(d, h, k, d')
    ensures Recover(d', again) == Recover(d, if d.journal.Some? && d'.journal.None? then h else again)
  {
    hide SameDecision, RecoveryProgram, Recover, DoAll, Torn;
    var p := RecoveryProgram(d, h);
    if k == |p| {
      assert p[..k] == p;
      RecoveryIsOver(d, h, d', again);
    } else {
      var dk := ApplyAll(p[..k], d);
      RecoveryPrefix(d, h, k);
      LastEffect(d, h, k);
      if d' != dk {
        TornJournal(p[k], dk, d');
        RecoveryEffectKeepsDecision(d, h, k, dk, d');
      }
      DecisionKeepsJournal(d, d');
      SameDecisionSameResult(d, d', again);
    }
  }

  /** The last effect of a recovery removes the journal, and cannot be torn. */
  lemma LastEffect(d: Disk, h: Host, k: nat)
    requires k < |RecoveryProgram(d, h)|
    ensures k + 1 == |RecoveryProgram(d, h)| ==> RecoveryProgram(d, h)[k].RemoveJournal?
  {
  }

  lemma TornJournal(e: Effect, d: Disk, d': Disk)
    requires Torn(e, d, d')
    ensures !e.RemoveJournal?
  {
  }

  lemma DecisionKeepsJournal(d: Disk, d': Disk)
    requires SameDecision(d, d')
    ensures d'.journal == d.journal && d.journal.Some?
  {
  }

  lemma RecoveryIsOver(d: Disk, h: Host, d': Disk, again: Host)
    requires Completes(RecoveryProgram(d, h), d) && d' == ApplyAll(RecoveryProgram(d, h), d)
    ensures d'.journal.None? && Recover(d', again) == Recover(d, if d.journal.Some? then h else again)
  {
    RecoverResult(d, h);
    RecoverResult(d, again);
    RecoverResult(d', again);
  }

  /** The host that decides: the one of the attempt that removed the journal, or else
      the last one. */
  function Decisive(disks: seq<Disk>, hosts: seq<Host>, last: Host): Host
    requires |disks| == |hosts| + 1
  {
    if hosts == [] then last
    else if disks[0].journal.Some? && disks[1].journal.None? then hosts[0]
    else Decisive(disks[1..], hosts[1..], last)
  }

  /** Any number of interrupted recoveries, each on its own host, and then one that is
      not interrupted: the result is that of a single recovery of the first disk. */
  lemma {:induction false} AnyNumberOfCrashes(disks: seq<Disk>, hosts: seq<Host>, at: seq<nat>, last: Host)
    requires |disks| == |hosts| + 1 && |at| == |hosts|
    requires forall i :: 0 <= i < |hosts| ==> Interrupts(disks[i], hosts[i], at[i], disks[i + 1])
    ensures Recover(disks[|hosts|], last) == Recover(disks[0], Decisive(disks, hosts, last))
    decreases |hosts|
  {
    hide Interrupts, Recover;
    if hosts != [] {
      forall i | 0 <= i < |hosts| - 1
        ensures Interrupts(disks[1..][i], hosts[1..][i], at[1..][i], disks[1..][i + 1])
      {
        assert Interrupts(disks[i + 1], hosts[i + 1], at[i + 1], disks[i + 2]);
      }
      AnyNumberOfCrashes(disks[1..], hosts[1..], at[1..], last);
      var g := Decisive(disks[1..], hosts[1..], last);
      InterruptedRecovery(disks[0], hosts[0], at[0], disks[1], g);
    }
  }

  // ------------------------------------------ the exact windows of the install

  function AfterEffects(base: Disk, q: Request, k: nat): Disk
    requires k <= 21
  {
    ApplyAll(InstallProgram(q)[..k], base)
  }

  /** From a disk without a journal, every effect of an install finds what it needs. */
  lemma {:induction false} InstallReaches(base: Disk, q: Request, k: nat)
    requires base.journal.None? && k <= 21
    ensures Installing(base, q, AfterEffects(base, q, k), k) && Completes(InstallProgram(q)[..k], base)
  {
    hide Installing, Apply, Enabled, Do;
    if k == 0 {
      NothingInstalled(base, q);
    } else {
      InstallReaches(base, q, k - 1);
      InstallAdvances(base, q, AfterEffects(base, q, k - 1), k - 1);
      ApplyAllPrefix(InstallProgram(q), k - 1, base);
    }
  }

  lemma NothingInstalled(base: Disk, q: Request)
    requires base.journal.None?
    ensures Installing(base, q, AfterEffects(base, q, 0), 0) && Completes(InstallProgram(q)[..0], base)
  {
  }

  /** An install that is not interrupted makes the new version active, with the runtime
      contract of its payload in the record. */
  lemma InstallActivates(base: Disk, q: Request)
    requires Quiescent(base) && Accepts(base, q)
    ensures var d := AfterEffects(base, q, 21); NewActive(base, q, d) && d.record == Some(Written(q))
  {
    InstallReaches(base, q, 21);
    InstallSafe(base, q, AfterEffects(base, q, 21), 21, false);
  }

  /** Recovery finishes what a promoted install has left, and ends on the very disk of
      the uninterrupted install, record included, if and only if the contract that the
      record carried over is the one that the payload resolves to: recovery does not
      resolve it again. */
  lemma CompletionExact(run: seq<State>, h: Host)
    requires IsRun(run) && run[|run| - 1].process.Idle?
    requires var s := run[|run| - 1];
      && s.disk.journal.Some? && !BeforePromotion(s.disk.journal.value.phase)
      && h == Host(s.request.symlinks, s.request.integration)
    ensures var s := run[|run| - 1]; var q := s.request; var whole := AfterEffects(s.base, q, 21);
      && q.pending.runtime == (if s.base.record.Some? then s.base.record.value.runtime else NO_RUNTIME)
      && Recover(s.disk, h).(record := whole.record) == whole
      && (Recover(s.disk, h).record == whole.record <==> q.pending.runtime == q.runtime)
  {
    hide Recover, RecoveryProgram, AfterEffects;
    var s := run[|run| - 1];
    var q := s.request;
    RunKeepsInv(run, |run| - 1);
    RecoverResult(s.disk, h);
    InstallReaches(s.base, q, 21);
    RecoveryConverges(run, h);
    SameTrees(s.base, q, s.disk);
  }

  lemma SameTrees(base: Disk, q: Request, d: Disk)
    requires SameElsewhere(base, d, q.target) && TargetInPlace(q, d)
    ensures d.versions == base.versions[q.target := Complete(q.payload)]
    ensures d.meta == base.meta[q.target := Complete(q.metadata)]
  {
    forall v
      ensures v in d.versions <==> v in base.versions[q.target := Complete(q.payload)]
      ensures v in d.versions ==> d.versions[v] == base.versions[q.target := Complete(q.payload)][v]
      ensures v in d.meta <==> v in base.meta[q.target := Complete(q.metadata)]
      ensures v in d.meta ==> d.meta[v] == base.meta[q.target := Complete(q.metadata)][v]
    {
      if v != q.target {
        ElsewhereAt(base, d, q.target, v);
      }
    }
  }

  /** The launcher starts only what has no unresolved library on record. */
  predicate Launchable(d: Disk) {
    d.record.Some? && d.record.value.runtime.unresolved == []
  }

  /** So after an install that recovery had to finish, the launcher decides by the
      contract of the previous version, or by none: as after the uninterrupted install
      if and only if both have unresolved libraries, or neither. */
  lemma LaunchAfterCompletion(base: Disk, q: Request, k: nat, h: Host)
    requires Quiescent(base) && Accepts(base, q) && 12 <= k <= 20
    ensures Launchable(AfterEffects(base, q, 21)) <==> q.runtime.unresolved == []
    ensures Launchable(Recover(AfterEffects(base, q, k), h)) <==>
      base.record.None? || base.record.value.runtime.unresolved == []
  {
    hide Recover, RecoveryProgram, AfterEffects;
    InstallReaches(base, q, k);
    InstallReaches(base, q, 21);
    RecoverResult(AfterEffects(base, q, k), h);
  }

  const STALE := Runtime("t1", "bundled", "", ["libx.so.1"])

  function StaleBase(): Disk {
    var r := Record(Terms("a.b", "1", "k", "u", "", "s"), {}, STALE, "");
    Disk(map["1" := Complete("p1")], map["1" := Complete("m1")], NoStaging, Some("1"), None,
         Some(Complete("m1")), Some(r), None)
  }

  /** Version 1 lacks a library and version 2 brings it. The update dies after its
      promotion and is completed by recovery: version 2 is active and cannot start. */
  lemma StaleContractExample(h: Host)
    ensures var base := StaleBase(); var r := base.record.value;
      var q := Request("2", Some("1"), r.(terms := r.terms.(version := "2")), Runtime("t2", "bundled", "", []),
                       "p2", "m2", {}, true);
      && Quiescent(base) && Accepts(base, q)
      && Launchable(AfterEffects(base, q, 21)) && !Launchable(Recover(AfterEffects(base, q, 12), h))
      && Current(Recover(AfterEffects(base, q, 12), h)) == Some("2")
  {
    hide Recover, RecoveryProgram, AfterEffects;
    var base := StaleBase();
    var r := base.record.value;
    var q := Request("2", Some("1"), r.(terms := r.terms.(version := "2")), Runtime("t2", "bundled", "", []),
                     "p2", "m2", {}, true);
    LaunchAfterCompletion(base, q, 12, h);
    InstallReaches(base, q, 12);
    RecoverResult(AfterEffects(base, q, 12), h);
  }

  /** The activation is documented as atomic; it is not. An upgrade interrupted
      after `k` effects has no `current` exactly between the removal of the old
      pointer and the creation of the new one. */
  lemma FlipHasAGap(base: Disk, q: Request, k: nat)
    requires Quiescent(base) && Accepts(base, q) && k <= 21 && Current(base).Some?
    ensures Current(AfterEffects(base, q, k)).None? <==> k == 17 || (k == 16 && base.link.Some?)
  {
    InstallReaches(base, q, k);
  }

  /** The disk after the first `k` effects of a forward recovery of `d`. */
  predicate Forwarding(d: Disk, h: Host, e: Disk, k: nat)
    requires GoesForward(d)
  {
    && e.versions == d.versions
    && (e.link, e.text) == (if k <= 3 then (d.link, d.text)
                            else if k == 4 then (None, d.text)
                            else if k == 5 then (None, None)
                            else if h.symlinks then (Some(d.journal.value.target), None)
                            else (None, Some(d.journal.value.target)))
  }

  lemma {:induction false} ForwardReaches(d: Disk, h: Host, k: nat)
    requires GoesForward(d) && !IsStuck(d) && k <= 8
    ensures |RecoveryProgram(d, h)| == 8
    ensures Completes(RecoveryProgram(d, h)[..k], d) && Forwarding(d, h, ApplyAll(RecoveryProgram(d, h)[..k], d), k)
  {
    hide Do;
    if k > 0 {
      ForwardReaches(d, h, k - 1);
      ApplyAllPrefix(RecoveryProgram(d, h), k - 1, d);
    }
  }

  /** The flip of a forward recovery has the same window, after its fourth and fifth
      effect; before that `current` is what the crash had left. */
  lemma ForwardFlipHasAGap(d: Disk, h: Host, k: nat)
    requires GoesForward(d) && !IsStuck(d) && OnePointer(d) && d.journal.value.target != "" && k <= 8
    ensures |RecoveryProgram(d, h)| == 8
    ensures Current(ApplyAll(RecoveryProgram(d, h)[..k], d)).None? <==>
      k == 5 || (k == 4 && (d.link.Some? || Current(d).None?)) || (k <= 3 && Current(d).None?)
  {
    hide RecoveryProgram, DoAll;
    ForwardReaches(d, h, k);
  }

  /** Without symlinks a crash inside the write of current.txt can leave any prefix of
      the new version as the name of the current one; a complete version then, exactly
      if it is the whole name or that of another complete one. */
  lemma FlipCanTear(base: Disk, q: Request, torn: string)
    requires Quiescent(base) && Accepts(base, q) && !q.symlinks && torn <= q.target && torn != ""
    ensures var d := AfterEffects(base, q, 17); var d' := d.(text := Some(torn));
      && Torn(InstallProgram(q)[17], d, d') && Current(d') == Some(torn)
      && (ActiveIsComplete(d') <==>
            torn == q.target || (IsComplete(base.versions, torn) && IsComplete(base.meta, torn)))
  {
    InstallReaches(base, q, 17);
  }

  /** An exception at any point between the first journal write and the Promoted one is
      rolled back. What was kept of the target, an older copy of it, is gone as well once
      `promote` or the rollback has removed it. */
  lemma FailureRollsBack(base: Disk, q: Request, k: nat, h: Host)
    requires Quiescent(base) && Accepts(base, q) && 3 <= k <= 11
    ensures RolledBack(base, Recover(AfterEffects(base, q, k), h), q.target)
    ensures SameActivation(base, Recover(AfterEffects(base, q, k), h))
  {
    hide Recover, AfterEffects;
    InstallReaches(base, q, k);
    RecoverResult(AfterEffects(base, q, k), h);
  }

  /** A crash in `begin` before the first journal write: nothing to recover, and
      the staging tree stays. */
  lemma BeginLeavesStaging(base: Disk, q: Request, h: Host)
    requires Quiescent(base) && Accepts(base, q)
    ensures var d := AfterEffects(base, q, 2); Recover(d, h) == d && d.staging.Staging?
  {
    hide Recover;
    InstallReaches(base, q, 2);
    RecoverResult(AfterEffects(base, q, 2), h);
  }

  /** Why the installer must refuse the current version as a target. The trace from
      `begin` on: once `promote` has removed the old tree, `current` names nothing on
      disk until the new one is renamed into place, and a crash anywhere between the
      first journal write and the Promoted one is rolled back to that. */
  lemma CurrentTargetWouldBreak(base: Disk, q: Request, k: nat, h: Host)
    requires base.journal.None? && Current(base) == Some(q.target) && k <= 21
    ensures 8 <= k <= 10 ==> !ActiveIsComplete(AfterEffects(base, q, k))
    ensures 3 <= k <= 11 ==> !ActiveIsComplete(Recover(AfterEffects(base, q, k), h))
  {
    hide Recover, AfterEffects;
    InstallReaches(base, q, k);
    RecoverResult(AfterEffects(base, q, k), h);
  }
}
