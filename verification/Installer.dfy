/** The code that drives the machine: `InstallTransaction`, `recover_locked` and
    the part of `install` that touches the application directory. */
module Installer {
  import opened Prelude
  import opened AppDirectory
  import opened InstallPlan
  import opened LocalTrust
  import opened Transaction
  import opened InstallEndings
  import PublisherKey
  import Versions

  /** `apps/<id>/`. `failed` is an exception in flight: until somebody handles it
      nothing more is done. `log` is what was carried out so far, in order. */
  class AppDir {
    var disk: Disk
    var failed: bool
    ghost var log: seq<Effect>

    ghost function At(): Progress
      reads this
    {
      Progress(disk, failed, log)
    }

    constructor (d: Disk)
      ensures At() == Progress(d, false, [])
    {
      disk, failed, log := d, false, [];
    }

    /** One effect, or the exception where it cannot be carried out. */
    method Do(e: Effect)
      modifies this
      ensures At() == AppDirectory.Do(e, old(At()))
    {
      if failed {
        return;
      }
      if !Enabled(e, disk) {
        failed := true;
        return;
      }
      disk := Apply(e, disk);
      log := log + [e];
    }

    method SetCurrentVersion(v: Version, symlinks: bool)
      modifies this
      ensures At() == DoAll(Flip(v, symlinks), old(At()))
    {
      hide AppDirectory.Do;
      ghost var s := At();
      ghost var p := Flip(v, symlinks);
      DoFour(p, s);
      Do(RequireVersion(v));
      Do(RemoveLink);
      Do(RemoveText);
      if symlinks {
        Do(CreateLink(v));
      } else {
        Do(WriteText(v));
      }
    }
  }

  lemma DoOne(p: seq<Effect>, s: Progress)
    requires |p| == 1
    ensures DoAll(p, s) == AppDirectory.Do(p[0], s)
  {
    assert p[..0] == [] && DoAll([], s) == s;
  }

  lemma DoTwo(p: seq<Effect>, s: Progress)
    requires |p| == 2
    ensures DoAll(p, s) == AppDirectory.Do(p[1], AppDirectory.Do(p[0], s))
  {
    hide AppDirectory.Do;
    DoOne(p[..1], s);
  }

  lemma DoThree(p: seq<Effect>, s: Progress)
    requires |p| == 3
    ensures DoAll(p, s) == AppDirectory.Do(p[2], AppDirectory.Do(p[1], AppDirectory.Do(p[0], s)))
  {
    hide AppDirectory.Do;
    DoTwo(p[..2], s);
  }

  lemma DoFour(p: seq<Effect>, s: Progress)
    requires |p| == 4
    ensures DoAll(p, s) ==
      AppDirectory.Do(p[3], AppDirectory.Do(p[2], AppDirectory.Do(p[1], AppDirectory.Do(p[0], s))))
  {
    hide AppDirectory.Do;
    DoThree(p[..3], s);
  }

  class InstallTransaction {
    const app: AppDir
    const target: Version
    var previous: Option<Version>
    var pending: Record

    constructor (app: AppDir, target: Version)
      ensures this.app == app && this.target == target
    {
      this.app, this.target := app, target;
      previous, pending := None, Record(Terms("", "", "", "", "", ""), {}, NO_RUNTIME, "");
    }

    method MarkPhase(phase: Phase)
      modifies app
      ensures app.At() == AppDirectory.Do(WriteJournal(Journal(target, previous, phase, pending)), old(app.At()))
    {
      app.Do(WriteJournal(Journal(target, previous, phase, pending)));
    }

    method Begin(previous: Option<Version>, pending: Record)
      modifies this, app
      ensures this.previous == previous && this.pending == pending
      ensures forall q: Request :: q.target == target && q.previous == previous && q.pending == pending ==>
                app.At() == DoAll(BeginEffects(q), old(app.At()))
    {
      hide AppDirectory.Do, DoAll;
      ghost var s := app.At();
      this.previous, this.pending := previous, pending;
      app.Do(RemoveStaging);
      app.Do(CreateStaging);
      MarkPhase(Preparing);
      DoThree([RemoveStaging, CreateStaging, WriteJournal(Journal(target, previous, Preparing, pending))], s);
    }

    method Promote()
      modifies app
      ensures forall q: Request :: q.target == target && q.previous == previous && q.pending == pending ==>
                app.At() == DoAll(PromoteEffects(q), old(app.At()))
    {
      hide AppDirectory.Do;
      ghost var s := app.At();
      ghost var p := [RemoveVersion(target), RemoveMeta(target), RenameMeta(target), RenameVersion(target),
                      WriteJournal(Journal(target, previous, Promoted, pending))];
      DoFour(p[..4], s);
      app.Do(RemoveVersion(target));
      app.Do(RemoveMeta(target));
      app.Do(RenameMeta(target));
      app.Do(RenameVersion(target));
      MarkPhase(Promoted);
      assert app.At() == DoAll(p, s);
    }

    method Commit()
      modifies app
      ensures app.At() == DoAll(CommitEffects(), old(app.At()))
    {
      hide AppDirectory.Do, DoAll;
      DoTwo(CommitEffects(), app.At());
      app.Do(RemoveStaging);
      app.Do(RemoveJournal);
    }

    method Abort()
      modifies app
      ensures app.At() == DoAll(AbortEffects(target), old(app.At()))
    {
      hide AppDirectory.Do, DoAll;
      DoFour(AbortEffects(target), app.At());
      app.Do(RemoveStaging);
      app.Do(RemoveVersion(target));
      app.Do(RemoveMeta(target));
      app.Do(RemoveJournal);
    }
  }

  /** The trust store, the marker and the saved approvals of one application. */
  class Outside {
    var trust: TrustRecord
    var owner: Option<string>
    var approvals: Option<string>

    function Now(): Beside
      reads this
    {
      Beside(trust, owner, approvals)
    }

    constructor (b: Beside)
      ensures Now() == b
    {
      trust, owner, approvals := b.trust, b.owner, b.approvals;
    }

    /** `TrustStore::record_accept`. */
    method RecordAccept(key: string, explicit: bool) returns (ok: bool)
      modifies this
      ensures ok <==> LocalTrust.RecordAccept(old(Now()), key, explicit).Some?
      ensures Now() == if ok then LocalTrust.RecordAccept(old(Now()), key, explicit).value else old(Now())
    {
      var was := false;
      match trust {
        case Absent =>
        case Bound(bound, explicitly, blocked) =>
          if blocked || !PublisherKey.SameKey(bound, key) {
            return false;
          }
          was := explicitly;
        case _ =>
          return false;
      }
      trust := Bound(key, was || explicit, false);
      ok := true;
    }

    /** What `install` settles once the transaction is committed. */
    method Settle(key: string, explicit: bool)
      modifies this
      ensures Now() == AfterSteps(old(Now()), key, explicit, 3)
    {
      owner := Some(key);
      var ok := RecordAccept(key, explicit);
      if ok {
        approvals := None;
      }
    }
  }

  /** `recover_locked`, from any disk: carries out the recovery program as far as it
      goes, and returns the version that it completed forward, if it did. */
  method RecoverLocked(app: AppDir, out: Outside, h: Host) returns (healed: Option<Version>)
    requires !app.failed
    modifies app, out
    ensures out.Now() == RecoveredBeside(old(app.disk), old(out.Now()))
    ensures app.At() == DoAll(RecoveryProgram(old(app.disk), h), old(app.At()))
    ensures app.disk == Recover(old(app.disk), h) && (app.failed <==> IsStuck(old(app.disk)))
    ensures !app.failed ==>
      healed == if GoesForward(old(app.disk)) then Some(old(app.disk).journal.value.target) else None
  {
    hide DoAll, AbortEffects, ForwardProgram;
    ghost var was := app.At();
    RecoverResult(app.disk, h);
    RunIt(RecoveryProgram(app.disk, h), was);
    if app.disk.journal.None? {
      return None;
    }
    var j := app.disk.journal.value;
    if BeforePromotion(j.phase) || !IsComplete(app.disk.meta, j.target) {
      var txn := new InstallTransaction(app, j.target);
      txn.Abort();
      healed := None;
    } else {
      CompleteForward(app, out, j, app.disk.meta[j.target].content, h);
      healed := Some(j.target);
    }
  }

  lemma RunIt(p: seq<Effect>, s: Progress)
    requires !s.failed
    ensures DoAll(p, s).disk == ApplyAll(p, s.disk) && (DoAll(p, s).failed <==> !Completes(p, s.disk))
    ensures DoAll([], s) == s
  {
    DoAllFrom(p, s);
  }

  /** The forward half of recovery: the activation again, the trust, and the end of the
      transaction. */
  method CompleteForward(app: AppDir, out: Outside, j: Journal, metadata: string, h: Host)
    requires !app.failed
    modifies app, out
    ensures app.At() == DoAll(ForwardProgram(j.target, j.pending, metadata, h), old(app.At()))
    ensures out.Now() ==
      if j.target in old(app.disk).versions then AcceptQuietly(old(out.Now()), j.pending.terms.key) else old(out.Now())
  {
    hide DoAll, ForwardProgram, Flip, CommitEffects;
    ghost var s := app.At();
    ghost var head := [WriteActive(metadata), WriteRecord(Rewritten(j.pending, j.target, h))];
    var txn := new InstallTransaction(app, j.target);
    ForwardProgramParts(j.target, j.pending, metadata, h);
    DoTwo(head, s);
    DoAllAppend(head, Flip(j.target, h.symlinks) + CommitEffects(), s);
    DoAllAppend(Flip(j.target, h.symlinks), CommitEffects(), DoAll(head, s));
    app.Do(WriteActive(metadata));
    app.Do(WriteRecord(Rewritten(j.pending, j.target, h)));
    FlipResult(app.disk, j.target, h.symlinks);
    RunIt(Flip(j.target, h.symlinks), app.At());
    app.SetCurrentVersion(j.target, h.symlinks);
    if !app.failed {
      var ok := out.RecordAccept(j.pending.terms.key, false);
    }
    txn.Commit();
  }

  /** The transaction inside `install`, from `begin` to `commit`. `sound` is the verdict on
      the staged tree: it compiles, matches its hashes and passes the health check. */
  method Transact(app: AppDir, q: Request, sound: bool)
    modifies app
    ensures sound ==> app.At() == DoAll(InstallProgram(q), old(app.At()))
    ensures !sound ==> app.At() == DoAll(StagedProgram(q), old(app.At())).(failed := true)
  {
    hide DoAll, AppDirectory.Do, Flip, CommitEffects, BeginEffects, PromoteEffects, InstallProgram, StagedProgram;
    ghost var s := app.At();
    var txn := new InstallTransaction(app, q.target);
    txn.Begin(q.previous, q.pending);
    StageParts(q, app.At());
    app.Do(ExtractPayload(q.payload));
    app.Do(WriteStagedMeta(q.metadata));
    txn.MarkPhase(Staged);
    if !sound {
      StagedParts(q, s);
      app.failed := true;
      return;
    }
    txn.MarkPhase(Verified);
    txn.Promote();
    DoTwo([WriteActive(q.metadata), WriteRecord(Written(q))], app.At());
    app.Do(WriteActive(q.metadata));
    app.Do(WriteRecord(Written(q)));
    app.SetCurrentVersion(q.target, q.symlinks);
    DoOne([WriteJournal(JournalOf(q, RecordUpdated))], app.At());
    txn.MarkPhase(RecordUpdated);
    txn.Commit();
    Parts(q, s);
  }

  /** The first six effects: what is done when the staged tree is judged. */
  function StagedProgram(q: Request): seq<Effect> {
    BeginEffects(q) + StageEffects(q)[..3]
  }

  lemma StagedParts(q: Request, s: Progress)
    ensures var p, t := StageEffects(q), DoAll(BeginEffects(q), s);
      DoAll(StagedProgram(q), s) == AppDirectory.Do(p[2], AppDirectory.Do(p[1], AppDirectory.Do(p[0], t)))
  {
    hide AppDirectory.Do, DoAll, BeginEffects;
    DoAllAppend(BeginEffects(q), StageEffects(q)[..3], s);
    DoThree(StageEffects(q)[..3], DoAll(BeginEffects(q), s));
  }

  lemma StagedIsPrefix(q: Request)
    ensures StagedProgram(q) == InstallProgram(q)[..6]
  {
    InstallProgramParts(q);
  }

  /** From the fresh staging directory to the Verified phase. */
  function StageEffects(q: Request): seq<Effect> {
    [ExtractPayload(q.payload), WriteStagedMeta(q.metadata),
     WriteJournal(JournalOf(q, Staged)), WriteJournal(JournalOf(q, Verified))]
  }

  lemma StageParts(q: Request, s: Progress)
    ensures var p := StageEffects(q);
      DoAll(p, s) == AppDirectory.Do(p[3], AppDirectory.Do(p[2], AppDirectory.Do(p[1], AppDirectory.Do(p[0], s))))
  {
    DoFour(StageEffects(q), s);
  }

  /** The install program, part by part. */
  lemma Parts(q: Request, s: Progress)
    ensures DoAll(InstallProgram(q), s) ==
      var a := DoAll(StageEffects(q), DoAll(BeginEffects(q), s));
      var b := DoAll([WriteActive(q.metadata), WriteRecord(Written(q))], DoAll(PromoteEffects(q), a));
      DoAll(CommitEffects(), DoAll([WriteJournal(JournalOf(q, RecordUpdated))], DoAll(Flip(q.target, q.symlinks), b)))
  {
    hide DoAll;
    var p1, p2, p3 := BeginEffects(q), StageEffects(q), PromoteEffects(q);
    var p4 := [WriteActive(q.metadata), WriteRecord(Written(q))];
    var p5, p6, p7 := Flip(q.target, q.symlinks), [WriteJournal(JournalOf(q, RecordUpdated))], CommitEffects();
    InstallProgramParts(q);
    assert InstallProgram(q) == p1 + p2 + p3 + p4 + p5 + p6 + p7;
    DoAllAppend(p1 + p2 + p3 + p4 + p5 + p6, p7, s);
    DoAllAppend(p1 + p2 + p3 + p4 + p5, p6, s);
    DoAllAppend(p1 + p2 + p3 + p4, p5, s);
    DoAllAppend(p1 + p2 + p3, p4, s);
    DoAllAppend(p1 + p2, p3, s);
    DoAllAppend(p1, p2, s);
  }

  /** How a call of `install` ends. Failed: the staged tree was not sound, and the handler
      has rolled the transaction back. Broken: the exception out of the first recovery. */
  datatype Outcome = Installed | AlreadyHealed | Refused(why: Refusal) | Failed | Broken

  /** The transaction that a package stands for on a disk that recovery has settled. */
  function RequestFor(d: Disk, m: Manifest, o: Options, rest: string, p: Package, h: Host): Request {
    Request(m.version, if d.record.Some? then Current(d) else None, Pending(d.record, m, o, rest),
            p.runtime, p.payload, p.metadata, h.integration, h.symlinks)
  }

  /** The contents of a package, and the contract its payload resolves to here. */
  datatype Package = Package(payload: string, metadata: string, runtime: Runtime)

  /** What `install` knows of the user's wish and of the staged tree. */
  datatype Wish = Wish(explicit: bool, sound: bool)

  /** The options with the trust gate in them: the version text, and the local trust. */
  function Gated(o: Options, b: Beside, m: Manifest): Options {
    o.(trusted := o.trusted && Allows(b, m.key))
  }

  /** `after` is `before` with the package installed in it: its payload and its metadata
      under the version, the metadata also beside the record, and the version current. */
  predicate HasContents(before: Disk, after: Disk, m: Manifest, p: Package) {
    && after.versions == before.versions[m.version := Complete(p.payload)]
    && after.meta == before.meta[m.version := Complete(p.metadata)]
    && after.active == Some(Complete(p.metadata))
    && Current(after) == Some(m.version) && OnePointer(after)
    && after.staging == NoStaging && after.journal == None
  }

  /** What the new record holds: the identity from the manifest, channel and source from
      the options, and the update address from the old record where that has one. */
  predicate RecordHolds(before: Option<Record>, r: Record, m: Manifest, o: Options, rest: string, p: Package, h: Host) {
    && r.terms.id == m.id && r.terms.version == m.version && r.terms.key == m.key
    && r.terms.channel == o.channel && r.terms.source == o.source
    && (before.Some? && before.value.terms.url != "" ==> r.terms.url == before.value.terms.url)
    && (before.None? || before.value.terms.url == "" ==> r.terms.url == m.updateUrl)
    && (before.Some? ==> r.created == before.value.created + h.integration)
    && (before.None? ==> r.created == h.integration)
    && r.runtime == p.runtime && r.rest == rest
  }

  predicate IsInstalled(before: Disk, after: Disk, m: Manifest, o: Options, rest: string, p: Package, h: Host) {
    && HasContents(before, after, m, p)
    && after.record.Some? && RecordHolds(before.record, after.record.value, m, o, rest, p, h)
  }

  /** The trust store names the key, and stays explicit where it was; the marker names it
      too; the saved approvals are spent. */
  predicate IsTrusted(before: Beside, after: Beside, key: string, explicit: bool) {
    && after.trust.Bound? && after.trust.key == key && !after.trust.blocked
    && (after.trust.explicit <==> explicit || (before.trust.Bound? && before.trust.explicit))
    && after.owner == Some(key) && after.approvals == None
  }

  lemma TrustedAfterSteps(b: Beside, key: string, explicit: bool)
    requires Allows(b, key)
    ensures IsTrusted(b, AfterSteps(b, key, explicit, 3), key, explicit)
  {
    hide PublisherKey.SameKey;
  }

  /** Whom the gates let in: a version that is well-formed, of a trusted publisher, with the
      permissions it may have, and over an installation only under the same key, not the
      current version, and none below it unless that was asked for. */
  predicate IsAdmitted(d: Disk, b: Beside, m: Manifest, o: Options) {
    && o.trusted && o.permitted && m.version != "" && Allows(b, m.key)
    && (d.record.Some? ==>
          && PublisherKey.SameKey(d.record.value.terms.key, m.key) && Current(d) != Some(m.version)
          && (Current(d).Some? && !o.allowDowngrade ==> Versions.Compare(m.version, Current(d).value) >= 0))
  }

  lemma AdmittedExact(d: Disk, healed: Option<Version>, m: Manifest, o: Options, b: Beside)
    ensures var j := Judge(TermsOf(d.record), Current(d), healed, m, Gated(o, b, m));
      && (j.Proceed? <==> IsAdmitted(d, b, m, o))
      && (j == Refuse(Untrusted) <==> !(o.trusted && Allows(b, m.key) && m.version != ""))
      && (j.Proceed? ==> m.version != "" && Allows(b, m.key))
  {
    hide Allows, Versions.Compare, PublisherKey.SameKey, Judge;
    ProceedExact(TermsOf(d.record), Current(d), healed, m, Gated(o, b, m));
    RefusalExact(TermsOf(d.record), Current(d), healed, m, Gated(o, b, m));
  }

  /** The uninterrupted transaction of a package leaves exactly its contents, in their
      places, with everything of the other versions as it was. */
  lemma InstalledContents(d: Disk, m: Manifest, o: Options, rest: string, p: Package, h: Host)
    requires d.journal.None? && m.version != ""
    ensures IsInstalled(d, AfterEffects(d, RequestFor(d, m, o, rest, p, h), 21), m, o, rest, p, h)
  {
    hide AfterEffects;
    InstallReaches(d, RequestFor(d, m, o, rest, p, h), 21);
  }

  /** A transaction that is given up before promotion leaves the disk as it was, except
      for what was kept of the target. */
  lemma FailedContents(d: Disk, m: Manifest, o: Options, rest: string, p: Package, h: Host)
    requires d.journal.None?
    ensures RolledBack(d, Recover(AfterEffects(d, RequestFor(d, m, o, rest, p, h), 6), h), m.version)
  {
    hide AfterEffects, Recover;
    var q := RequestFor(d, m, o, rest, p, h);
    InstallReaches(d, q, 6);
    RecoverResult(AfterEffects(d, q, 6), h);
  }

  /** `install` of a verified package: recovery first, the gates, the transaction, and what
      is settled outside after it. */
  method Install(app: AppDir, out: Outside, m: Manifest, o: Options, rest: string, p: Package, wish: Wish, h: Host)
    returns (r: Outcome)
    requires !app.failed
    modifies app, out
    ensures r.Broken? <==> IsStuck(old(app.disk))
    ensures var was := old(app.disk);
      var d, b := Recover(was, h), RecoveredBeside(was, old(out.Now()));
      var j := Judge(TermsOf(d.record), Current(d),
                     if GoesForward(was) then Some(was.journal.value.target) else None, m, Gated(o, b, m));
      var q := RequestFor(d, m, o, rest, p, h);
      !r.Broken? ==>
        && (r.Installed? <==> j.Proceed? && wish.sound) && (r.Failed? <==> j.Proceed? && !wish.sound)
        && (r.AlreadyHealed? <==> j.Healed?)
        && (r.Refused? <==> j.Refuse?) && (r.Refused? ==> r.why == j.why)
        && out.Now() == (if r.Installed? then AfterSteps(b, m.key, wish.explicit, 3) else b)
        && app.disk == (if r.Installed? then AfterEffects(d, q, 21)
                        else if r.Failed? then Recover(AfterEffects(d, q, 6), h) else d)
        && app.log == old(app.log) + RecoveryProgram(was, h)
                      + (if r.Installed? then InstallProgram(q)
                         else if r.Failed? then StagedProgram(q) + RecoveryProgram(AfterEffects(d, q, 6), h) else [])
    ensures r.Broken? ==> app.disk == Recover(old(app.disk), h) && app.failed && out.Now() == old(out.Now())
    ensures r.Installed? ==>
      && IsInstalled(Recover(old(app.disk), h), app.disk, m, o, rest, p, h)
      && Allows(RecoveredBeside(old(app.disk), old(out.Now())), m.key)
      && IsTrusted(RecoveredBeside(old(app.disk), old(out.Now())), out.Now(), m.key, wish.explicit)
    ensures !r.Broken? ==>
      (r.Installed? || r.Failed? <==> IsAdmitted(Recover(old(app.disk), h), RecoveredBeside(old(app.disk), old(out.Now())), m, o))
    ensures !r.Broken? ==>
      (r == Refused(Untrusted) <==> !(o.trusted && Allows(RecoveredBeside(old(app.disk), old(out.Now())), m.key) && m.version != ""))
    ensures r.Failed? ==> RolledBack(Recover(old(app.disk), h), app.disk, m.version)
    ensures r.Refused? || r.AlreadyHealed? ==> app.disk == Recover(old(app.disk), h)
  {
    hide DoAll, RecoveryProgram, Recover, Judge, InstallProgram, AfterEffects, StagedProgram, AcceptQuietly, AfterSteps,
         Allows, IsInstalled, IsTrusted, IsAdmitted, RequestFor, RolledBack;
    ghost var was := app.At();
    var healed := RecoverLocked(app, out, h);
    if app.failed {
      return Broken;
    }
    RecoverResult(was.disk, h);
    DoneAll(RecoveryProgram(was.disk, h), was);
    var d := app.disk;
    AdmittedExact(d, healed, m, o, out.Now());
    var verdict := Judge(TermsOf(d.record), Current(d), healed, m, Gated(o, out.Now(), m));
    match verdict {
      case Refuse(why) => return Refused(why);
      case Healed => return AlreadyHealed;
      case Proceed =>
        var q := RequestFor(d, m, o, rest, p, h);
        ghost var settled := app.At();
        NoJournalLeft(was.disk, h);
        Transact(app, q, wish.sound);
        if app.failed {
          StagedInstall(d, q, settled);
          ghost var staged := DoAll(StagedProgram(q), settled);
          app.failed := false;
          healed := RecoverLocked(app, out, h);
          RecoverResult(staged.disk, h);
          DoneAll(RecoveryProgram(staged.disk, h), staged);
          FailedContents(d, m, o, rest, p, h);
          return Failed;
        }
        WholeInstall(d, q);
        RunIt(InstallProgram(q), settled);
        DoneAll(InstallProgram(q), settled);
        InstalledContents(d, m, o, rest, p, h);
        TrustedAfterSteps(out.Now(), m.key, wish.explicit);
        out.Settle(m.key, wish.explicit);
        r := Installed;
    }
  }

  /** Where a sound tree is concerned nothing fails; an unsound one is rolled back. */
  lemma StagedInstall(d: Disk, q: Request, s: Progress)
    requires d.journal.None? && s.disk == d && !s.failed
    ensures var t := DoAll(StagedProgram(q), s);
      && t == Progress(AfterEffects(d, q, 6), false, s.done + StagedProgram(q))
      && t.disk.journal.Some? && !GoesForward(t.disk)
    ensures !DoAll(InstallProgram(q), s).failed
  {
    hide DoAll, InstallProgram;
    InstallReaches(d, q, 6);
    StagedIsPrefix(q);
    RunIt(StagedProgram(q), s);
    DoneAll(StagedProgram(q), s);
    WholeInstall(d, q);
    RunIt(InstallProgram(q), s);
  }

  lemma DoneAll(p: seq<Effect>, s: Progress)
    requires !s.failed && Completes(p, s.disk)
    ensures DoAll(p, s).done == s.done + p && !DoAll(p, s).failed
  {
    DoAllFrom(p, s);
    DoneExactly(p, s.disk);
  }

  lemma NoJournalLeft(d: Disk, h: Host)
    requires !IsStuck(d)
    ensures Recover(d, h).journal.None?
  {
    RecoverResult(d, h);
  }

  lemma WholeInstall(d: Disk, q: Request)
    requires d.journal.None?
    ensures Completes(InstallProgram(q), d) && ApplyAll(InstallProgram(q), d) == AfterEffects(d, q, 21)
  {
    hide DoAll, Installing;
    InstallReaches(d, q, 21);
    assert InstallProgram(q)[..21] == InstallProgram(q);
  }

  /** Past the gates, on a quiescent disk, the transaction is one that the machine accepts. */
  lemma ProceedIsAccepted(d: Disk, healed: Option<Version>, m: Manifest, o: Options, rest: string, p: Package, h: Host, b: Beside)
    requires Quiescent(d) && Judge(TermsOf(d.record), Current(d), healed, m, Gated(o, b, m)).Proceed?
    ensures Accepts(d, RequestFor(d, m, o, rest, p, h)) && Allows(b, m.key)
  {
    hide Allows;
    ProceedExact(TermsOf(d.record), Current(d), healed, m, Gated(o, b, m));
  }
}
