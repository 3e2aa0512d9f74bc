/** The update protocol on the disks of the crash machine: what the disk of an
    application says about it, and that every update, crash and recovery on disks is a
    step of the protocol. */
module UpdateCrashes {
  import opened Prelude
  import opened AppDirectory
  import opened InstallPlan
  import opened Transaction
  import Installer
  import Protocol = UpdateProtocol

  /** What the disk says about the application. */
  function AppOf(d: Disk): Protocol.App
    requires d.record.Some?
  {
    Protocol.App(d.record.value.terms, Current(d), PendingOf(d))
  }

  function PendingOf(d: Disk): Option<Terms> {
    if GoesForward(d) then
      var j := d.journal.value; Some(j.pending.terms.(version := j.target))
    else None
  }

  /** An installed application, and nothing that would stop its recovery. */
  predicate Fit(d: Disk) {
    d.record.Some? && !IsStuck(d) && (GoesForward(d) ==> d.journal.value.target != "")
  }

  // ---------------------------------------------------------------- recovery

  lemma RecoverySimulated(d: Disk, h: Host)
    requires Fit(d)
    ensures var r := Recover(d, h); Fit(r) && r.journal.None? && AppOf(r) == Protocol.Recovered(AppOf(d))
  {
    hide Recover;
    RecoverResult(d, h);
  }

  /** The stage that a forward recovery has reached after `k` effects. */
  function StageAt(d: Disk, k: nat): Protocol.Stage {
    if k <= 1 then Protocol.NoRecord
    else if k <= 3 || (k == 4 && d.link.None?) then Protocol.AtOld
    else if k <= 5 then Protocol.Gone
    else Protocol.AtNew
  }

  /** What the protocol needs to know of a disk inside a forward recovery. */
  predicate Halfway(d: Disk, h: Host, e: Disk, k: nat)
    requires GoesForward(d)
  {
    var j := d.journal.value;
    && Forwarding(d, h, e, k) && e.meta == d.meta
    && e.journal == (if k <= 7 then d.journal else None)
    && e.record == (if k <= 1 then d.record else Some(Rewritten(j.pending, j.target, h)))
  }

  lemma HalfwayAdvances(d: Disk, h: Host, e: Disk, k: nat)
    requires GoesForward(d) && Halfway(d, h, e, k) && k < 8
    requires |RecoveryProgram(d, h)| == 8 && Enabled(RecoveryProgram(d, h)[k], e)
    ensures Halfway(d, h, Apply(RecoveryProgram(d, h)[k], e), k + 1)
  {
  }

  lemma {:induction false} HalfwayReached(d: Disk, h: Host, k: nat)
    requires GoesForward(d) && !IsStuck(d) && k <= 8
    ensures |RecoveryProgram(d, h)| == 8 && Halfway(d, h, ApplyAll(RecoveryProgram(d, h)[..k], d), k)
  {
    hide Apply, Enabled, RecoveryProgram, Do, Halfway, Forwarding;
    ForwardReaches(d, h, k);
    if k == 0 {
      HalfwayStarts(d, h);
    } else {
      HalfwayReached(d, h, k - 1);
      CompletesPrefix(RecoveryProgram(d, h), k, d);
      HalfwayAdvances(d, h, ApplyAll(RecoveryProgram(d, h)[..k - 1], d), k - 1);
    }
  }

  lemma HalfwayStarts(d: Disk, h: Host)
    requires GoesForward(d)
    ensures Halfway(d, h, ApplyAll(RecoveryProgram(d, h)[..0], d), 0)
  {
  }

  lemma HalfwayIsStage(d: Disk, h: Host, e: Disk, k: nat)
    requires Fit(d) && OnePointer(d) && GoesForward(d) && k <= 8 && Halfway(d, h, e, k)
    ensures Fit(e) && OnePointer(e)
    ensures k <= 7 ==> AppOf(e) == Protocol.Activating(AppOf(d), PendingOf(d).value, StageAt(d, k))
    ensures k == 8 ==> AppOf(e) == Protocol.Recovered(AppOf(d))
  {
  }

  /** What a crash inside an effect of a forward recovery adds: a torn name. */
  lemma TornStage(d: Disk, h: Host, e: Disk, k: nat, e': Disk)
    requires Fit(d) && OnePointer(d) && GoesForward(d) && k < 8 && Halfway(d, h, e, k)
    requires |RecoveryProgram(d, h)| == 8 && Torn(RecoveryProgram(d, h)[k], e, e')
    ensures Fit(e') && OnePointer(e') && (k == 5 ==> e'.text.Some?)
    ensures AppOf(e') == Protocol.Activating(AppOf(d), PendingOf(d).value,
      if k == 5 then Protocol.TornName(e'.text.value) else StageAt(d, k))
  {
    TornOnly(RecoveryProgram(d, h)[k], e, e');
  }

  /** A recovery cut short anywhere is a step of the protocol. */
  lemma CutRecoverySimulated(w: Protocol.World, id: string, d: Disk, h: Host, k: nat, d': Disk)
    requires Fit(d) && OnePointer(d) && Interrupts(d, h, k, d')
    ensures Fit(d') && OnePointer(d') && exists u :: AppOf(d') == Protocol.Take(w, AppOf(d), id, u)
  {
    hide RecoveryProgram, Apply, Enabled, Torn, DoAll, Halfway, Protocol.Apply, Protocol.Recovered, Protocol.Activating;
    var p := RecoveryProgram(d, h);
    var dk := ApplyAll(p[..k], d);
    if GoesForward(d) {
      ForwardReaches(d, h, 0);
      HalfwayReached(d, h, k);
      HalfwayIsStage(d, h, dk, k);
      if d' != dk {
        TornStage(d, h, dk, k, d');
      }
      Step1(w, AppOf(d), id, if k == 8 then Protocol.RunRecovery else Protocol.CutRecovery(
        if d' != dk && k == 5 then Protocol.TornName(d'.text.value) else StageAt(d, k)));
    } else {
      RollbackSimulated(d, h, k, d');
      Step1(w, AppOf(d), id, Protocol.RunRecovery);
      NothingPending(d);
    }
  }

  lemma NothingPending(d: Disk)
    requires d.record.Some? && !GoesForward(d)
    ensures Protocol.Recovered(AppOf(d)) == AppOf(d)
  {
  }

  /** The steps of the protocol that take no attempt, written out. */
  lemma Step1(w: Protocol.World, app: Protocol.App, id: string, u: Protocol.Step)
    requires !u.Update? && !u.SetSource?
    ensures Protocol.Take(w, app, id, u) ==
      match u
      case CutRecovery(stage) =>
        (if app.pending.None? then app else Protocol.Activating(app, app.pending.value, stage))
      case _ => Protocol.Recovered(app)
  {
  }

  lemma RollbackSimulated(d: Disk, h: Host, k: nat, d': Disk)
    requires Fit(d) && OnePointer(d) && !GoesForward(d) && Interrupts(d, h, k, d')
    ensures Fit(d') && OnePointer(d') && AppOf(d') == AppOf(d)
  {
    hide RecoveryProgram, SameDecision, DoAll, Torn, Apply, Enabled;
    var p := RecoveryProgram(d, h);
    if k == |p| {
      assert p[..k] == p;
      RolledBackApp(d, h, d');
    } else {
      var dk := ApplyAll(p[..k], d);
      RecoveryPrefix(d, h, k);
      LastEffect(d, h, k);
      if d' != dk {
        TornJournal(p[k], dk, d');
        RecoveryEffectKeepsDecision(d, h, k, dk, d');
      }
      SameDecisionApp(d, d');
    }
  }

  lemma RolledBackApp(d: Disk, h: Host, d': Disk)
    requires Fit(d) && OnePointer(d) && !GoesForward(d) && d' == ApplyAll(RecoveryProgram(d, h), d)
    ensures Fit(d') && OnePointer(d') && AppOf(d') == AppOf(d)
  {
    RecoverResult(d, h);
  }

  lemma SameDecisionApp(d: Disk, d': Disk)
    requires Fit(d) && OnePointer(d) && !GoesForward(d) && SameDecision(d, d')
    ensures Fit(d') && OnePointer(d') && AppOf(d') == AppOf(d)
  {
  }

  // ---------------------------------------------------------------- installs

  /** What an install of `q` that was cut short in or after its first `k` effects leaves. */
  ghost predicate CutAt(base: Disk, q: Request, k: nat, d: Disk) {
    && k <= 21
    && var e := AfterEffects(base, q, k);
       d == e || (k < 21 && Torn(InstallProgram(q)[k], e, d))
  }

  /** How that install has ended, as the protocol sees it. */
  function EndingOf(base: Disk, k: nat, d: Disk, torn: bool): Protocol.Ending {
    if k <= 11 then Protocol.DiesBefore
    else if k == 21 then Protocol.Whole
    else if k <= 13 then Protocol.DiesAfter(Protocol.NoRecord)
    else if k <= 15 || (k == 16 && base.link.None?) then Protocol.DiesAfter(Protocol.AtOld)
    else if k == 17 && torn && d.text.Some? then Protocol.DiesAfter(Protocol.TornName(d.text.value))
    else if k <= 17 then Protocol.DiesAfter(Protocol.Gone)
    else Protocol.DiesAfter(Protocol.AtNew)
  }

  lemma WholeEffects(base: Disk, q: Request, k: nat, d: Disk)
    requires Fit(base) && base.journal.None? && OnePointer(base) && k <= 21 && Installing(base, q, d, k)
    requires q.target != "" && q.pending.terms.version == q.target
    ensures Fit(d) && OnePointer(d)
    ensures AppOf(d) == Protocol.Ended(AppOf(base), q.pending.terms, EndingOf(base, k, d, false))
  {
    assert q.pending.terms.(version := q.target) == q.pending.terms;
    if k == 21 {
      assert d.record.value.terms == q.pending.terms;
    } else if k <= 11 {
      assert !GoesForward(d);
    } else {
      assert GoesForward(d) && PendingOf(d) == Some(q.pending.terms);
    }
  }

  lemma TornEffect(base: Disk, q: Request, k: nat, d: Disk, d': Disk)
    requires Fit(base) && base.journal.None? && OnePointer(base) && k < 21 && Installing(base, q, d, k)
    requires q.target != "" && q.pending.terms.version == q.target && Torn(InstallEffect(q, k), d, d')
    ensures Fit(d') && OnePointer(d')
    ensures AppOf(d') == Protocol.Ended(AppOf(base), q.pending.terms, EndingOf(base, k, d', true))
  {
    hide Protocol.Ended, EndingOf;
    if k <= 11 {
      EarlyTorn(base, q, k, d, d');
    } else {
      LateTorn(base, q, k, d, d');
    }
  }

  lemma EarlyTorn(base: Disk, q: Request, k: nat, d: Disk, d': Disk)
    requires Fit(base) && base.journal.None? && OnePointer(base) && k <= 11 && Installing(base, q, d, k)
    requires Torn(InstallEffect(q, k), d, d')
    ensures Fit(d') && OnePointer(d')
    ensures AppOf(d') == Protocol.Ended(AppOf(base), q.pending.terms, EndingOf(base, k, d', true))
  {
    hide Torn, InstallEffect;
    TornOnly(InstallEffect(q, k), d, d');
    EarlyEffect(q, k);
    assert !GoesForward(d');
  }

  lemma EarlyEffect(q: Request, k: nat)
    requires k <= 11
    ensures !InstallEffect(q, k).WriteText?
  {
  }

  lemma LateTorn(base: Disk, q: Request, k: nat, d: Disk, d': Disk)
    requires Fit(base) && base.journal.None? && OnePointer(base) && 12 <= k < 21 && Installing(base, q, d, k)
    requires q.target != "" && q.pending.terms.version == q.target && Torn(InstallEffect(q, k), d, d')
    ensures Fit(d') && OnePointer(d')
    ensures AppOf(d') == Protocol.Ended(AppOf(base), q.pending.terms, EndingOf(base, k, d', true))
  {
    hide Torn, InstallEffect;
    LateEffect(q, k, d, d');
    assert q.pending.terms.(version := q.target) == q.pending.terms;
    assert GoesForward(d') && PendingOf(d') == Some(q.pending.terms);
  }

  lemma LateEffect(q: Request, k: nat, d: Disk, d': Disk)
    requires 12 <= k < 21 && Torn(InstallEffect(q, k), d, d')
    ensures d'.journal == d.journal && d'.record == d.record && d'.link == d.link
    ensures d'.versions == d.versions && d'.meta == d.meta
    ensures k != 17 ==> d'.text == d.text
    ensures k == 17 ==> d'.text.Some?
  {
  }

  /** An install cut short anywhere ends as the protocol says. */
  lemma CutInstallSimulated(base: Disk, q: Request, k: nat, d: Disk) returns (e: Protocol.Ending)
    requires Fit(base) && base.journal.None? && OnePointer(base) && CutAt(base, q, k, d)
    requires q.target != "" && q.pending.terms.version == q.target
    ensures Fit(d) && OnePointer(d) && AppOf(d) == Protocol.Ended(AppOf(base), q.pending.terms, e)
  {
    hide Installing, AfterEffects, Torn, Fit, AppOf, Protocol.Ended;
    InstallReaches(base, q, k);
    var whole := AfterEffects(base, q, k);
    if d == whole {
      WholeEffects(base, q, k, d);
      e := EndingOf(base, k, d, false);
    } else {
      TornEffect(base, q, k, whole, d);
      e := EndingOf(base, k, d, true);
    }
  }

  // ------------------------------------------------------------------ updates

  /** Everything an update meets on the way: the server's answers, the gates, what the
      record takes from the package, the package, the host, and how far it gets. */
  datatype Tried = Tried(
    reply: Protocol.Reply, download: Option<Protocol.Bytes>, trusted: bool, permitted: bool,
    rest: string, package: Installer.Package, host: Host, done: nat)

  /** An update of the application on this disk, in the steps of the installer: vetted,
      recovered, judged, installed as far as it gets. */
  ghost predicate Updates(w: Protocol.World, id: string, d: Disk, t: Tried, d': Disk) {
    && d.record.Some?
    && var app := AppOf(d);
    && var check := Protocol.Check(w, Some(app), id, t.reply);
    && if check.Failed? || Protocol.Vet(w, app, id, check.offer, t.download).Some? then d' == d
       else
         var m := w.verifyPackage(t.download.value).value;
         var o := Options(t.trusted, t.permitted, false, check.offer.url, app.record.channel);
         var r := Recover(d, t.host);
         var healed := if GoesForward(d) then Some(d.journal.value.target) else None;
         if Judge(TermsOf(r.record), Current(r), healed, m, o).Proceed?
         then CutAt(r, Installer.RequestFor(r, m, o, t.rest, t.package, t.host), t.done, d')
         else d' == r
  }

  lemma UpdateSimulated(w: Protocol.World, id: string, d: Disk, t: Tried, d': Disk)
    requires Fit(d) && OnePointer(d) && Updates(w, id, d, t, d')
    ensures Fit(d') && OnePointer(d') && exists u :: AppOf(d') == Protocol.Take(w, AppOf(d), id, u)
  {
    hide Recover, Protocol.Check, Protocol.Vet, Judge, Protocol.Recovered, Protocol.Ended;
    var app := AppOf(d);
    var check := Protocol.Check(w, Some(app), id, t.reply);
    if check.Failed? || Protocol.Vet(w, app, id, check.offer, t.download).Some? {
      var u := Protocol.Update(Protocol.Attempt(t.reply, t.download, t.trusted, t.permitted, Protocol.Whole));
      assert AppOf(d') == Protocol.Take(w, app, id, u);
    } else {
      var m := w.verifyPackage(t.download.value).value;
      var o := Options(t.trusted, t.permitted, false, check.offer.url, app.record.channel);
      var r := Recover(d, t.host);
      RecoverySimulated(d, t.host);
      RecoveredPointer(d, t.host);
      var q := Installer.RequestFor(r, m, o, t.rest, t.package, t.host);
      var healed := if GoesForward(d) then Some(d.journal.value.target) else None;
      var e := Protocol.Whole;
      if Judge(TermsOf(r.record), Current(r), healed, m, o).Proceed? {
        ProceedExact(TermsOf(r.record), Current(r), healed, m, o);
        e := CutInstallSimulated(r, q, t.done, d');
      }
      var u := Protocol.Update(Protocol.Attempt(t.reply, t.download, t.trusted, t.permitted, e));
      assert AppOf(d') == Protocol.Install(app, m, check.offer.url, app.record.channel, u.attempt).app;
      assert AppOf(d') == Protocol.Take(w, app, id, u);
    }
  }

  lemma RecoveredPointer(d: Disk, h: Host)
    requires Fit(d) && OnePointer(d)
    ensures OnePointer(Recover(d, h))
  {
    hide Recover;
    RecoverResult(d, h);
  }

  // --------------------------------------------------------------- whole runs

  /** What can happen to the disk: an update that gets as far as it gets, a recovery cut
      short or not, a change of source. */
  ghost predicate Moves(w: Protocol.World, id: string, d: Disk, d': Disk) {
    || (exists t :: Updates(w, id, d, t, d'))
    || (exists h, k :: Interrupts(d, h, k, d'))
    || (exists url :: NewSource(d, url, d'))
  }

  ghost predicate NewSource(d: Disk, url: string, d': Disk) {
    d.record.Some? && url != ""
    && d' == d.(record := Some(d.record.value.(terms := d.record.value.terms.(url := url))))
  }

  /** Every move of the disk is a step of the protocol. */
  lemma MoveSimulated(w: Protocol.World, id: string, d: Disk, d': Disk)
    requires Fit(d) && OnePointer(d) && Moves(w, id, d, d')
    ensures Fit(d') && OnePointer(d') && exists u :: AppOf(d') == Protocol.Take(w, AppOf(d), id, u)
  {
    hide Updates, Interrupts, Protocol.Check, Protocol.Apply;
    if t :| Updates(w, id, d, t, d') {
      UpdateSimulated(w, id, d, t, d');
    } else if h, k :| Interrupts(d, h, k, d') {
      CutRecoverySimulated(w, id, d, h, k, d');
    } else {
      var url :| NewSource(d, url, d');
      assert AppOf(d') == Protocol.Take(w, AppOf(d), id, Protocol.SetSource(url));
    }
  }

  ghost predicate IsDiskRun(w: Protocol.World, id: string, disks: seq<Disk>) {
    && |disks| > 0
    && Fit(disks[0]) && Quiescent(disks[0]) && AppOf(disks[0]).record.id == id
    && Protocol.InstalledVersion(AppOf(disks[0])).Some?
    && forall i :: 0 <= i < |disks| - 1 ==> Moves(w, id, disks[i], disks[i + 1])
  }

  ghost predicate Follows(apps: seq<Protocol.App>, disks: seq<Disk>) {
    |apps| == |disks| && forall i :: 0 <= i < |disks| ==> disks[i].record.Some? && apps[i] == AppOf(disks[i])
  }

  /** Every run of updates, crashes and recoveries on disks is a run of the protocol. */
  lemma {:induction false} RunSimulated(w: Protocol.World, id: string, disks: seq<Disk>)
    returns (apps: seq<Protocol.App>, steps: seq<Protocol.Step>)
    requires IsDiskRun(w, id, disks)
    ensures Protocol.IsRun(w, id, apps, steps) && Follows(apps, disks)
    ensures Fit(disks[|disks| - 1]) && OnePointer(disks[|disks| - 1])
    decreases |disks|
  {
    hide Moves, Protocol.Take;
    var n := |disks| - 1;
    if n == 0 {
      apps, steps := [AppOf(disks[0])], [];
      assert Protocol.Settled(apps[0]);
    } else {
      var as', ss := RunSimulated(w, id, disks[..n]);
      MoveSimulated(w, id, disks[n - 1], disks[n]);
      var u :| AppOf(disks[n]) == Protocol.Take(w, AppOf(disks[n - 1]), id, u);
      apps, steps := as' + [AppOf(disks[n])], ss + [u];
      forall i | 0 <= i < |steps|
        ensures apps[i + 1] == Protocol.Take(w, apps[i], id, steps[i])
      {
        if i < |ss| {
          assert as'[i + 1] == Protocol.Take(w, as'[i], id, ss[i]);
        }
      }
    }
  }

  /** On the disks themselves, through any number of crashes inside installs and inside
      recoveries: the identity and the key stay, the version that is active or will be
      never goes down, and one that was replaced never comes back. */
  lemma DisksNeverGoBack(w: Protocol.World, id: string, disks: seq<Disk>, i: nat, j: nat)
    requires IsDiskRun(w, id, disks) && i <= j < |disks|
    ensures disks[0].record.Some? && disks[i].record.Some? && disks[j].record.Some?
    ensures AppOf(disks[j]).record.id == id && AppOf(disks[j]).record.key == AppOf(disks[0]).record.key
    ensures Protocol.AtLeast(Protocol.Effective(AppOf(disks[j])), Protocol.Effective(AppOf(disks[i])))
    ensures i < j ==> disks[i + 1].record.Some?
    ensures i < j && Protocol.Effective(AppOf(disks[i + 1])) != Protocol.Effective(AppOf(disks[i])) ==>
      Protocol.Effective(AppOf(disks[j])) != Protocol.Effective(AppOf(disks[i]))
  {
    hide AppOf, Protocol.Effective, Protocol.AtLeast, Protocol.IsRun;
    var apps, steps := RunSimulated(w, id, disks);
    RunLength(w, id, apps, steps);
    Protocol.IdentityIsKept(w, id, apps, steps, j);
    Protocol.VersionsNeverGoDown(w, id, apps, steps, i, j);
    if i < j && Protocol.Effective(apps[i + 1]) != Protocol.Effective(apps[i]) {
      Protocol.NoVersionRecurs(w, id, apps, steps, i, j);
    }
  }

  lemma RunLength(w: Protocol.World, id: string, apps: seq<Protocol.App>, steps: seq<Protocol.Step>)
    requires Protocol.IsRun(w, id, apps, steps)
    ensures |apps| == |steps| + 1
  {
  }
}
