/** The update protocol against an arbitrary server. Signatures, digests, the JSON
    text and the package pipeline are functions of the bytes; what the server
    answers, and where a call is cut short, are inputs of each step. */
module UpdateProtocol {
  import opened Prelude
  import opened Json
  import opened InstallPlan
  import AppDirectory
  import Decimal
  import Versions
  import Base64
  import PublisherKey

  type Bytes = seq<Byte>

  type Terms = AppDirectory.Terms

  /** `parse` fails on anything but one JSON document without repeated keys;
      `verifyPackage` is the whole package pipeline. */
  datatype World = World(
    verify: (Bytes, Bytes, PublisherKey.Key) -> bool, parse: Bytes -> Option<Value>,
    sha256: Bytes -> string, verifyPackage: Bytes -> Option<Manifest>)

  /** An installed application: what its record says, and the active version.
      `pending` is the record of an install that was cut short after promotion: the
      next install completes it first. */
  datatype App = App(record: Terms, current: Option<string>, pending: Option<Terms>)

  datatype Failure =
    | NotInstalled | NoSource | Unreachable | UnreadableKey | BadSignature | Malformed | WrongId
    | UpToDate | OlderVersion | WrongDigest | BadPackage | OtherKey | Declined(why: Refusal) | Interrupted

  datatype Offer = Offer(installed: string, available: string, url: string, sha256: string)

  datatype CheckResult = Failed(why: Failure) | Offered(offer: Offer)

  const MAX_UPDATE_JSON: nat := 0x100000
  const MAX_SIGNATURE: nat := 1024

  /** What the server answers for update.json and for its signature. */
  datatype Reply = Reply(update: Option<Bytes>, signature: Option<Bytes>)

  function Bounded(b: Option<Bytes>, limit: nat): Option<Bytes> {
    if b.Some? && |b.value| <= limit then b else None
  }

  // --------------------------------------------------------- the signed document

  /** JSON null counts as absent. */
  function Member(v: Value, key: string): Option<Value> {
    if v.JObj? && key in v.members && !v.members[key].JNull? then Some(v.members[key]) else None
  }

  /** A required member: a string that is not empty. */
  function Text(v: Value, key: string): Option<string> {
    match Member(v, key)
    case Some(JStr(s)) => if s == "" then None else Some(s)
    case _ => None
  }

  function ChannelOf(r: Terms): string {
    if r.channel == "" then "stable" else r.channel
  }

  datatype Document = NoDocument(why: Failure) | Document(version: string, url: string, sha256: string)

  /** What the document says about the application on its channel. */
  function ReadDocument(v: Value, id: string, channel: string): Document {
    var lexe := Member(v, "lexeVersion");
    if !v.JObj? || (lexe.Some? && lexe.value != JStr("0.1")) || Text(v, "id").None? then NoDocument(Malformed)
    else if Text(v, "id").value != id then NoDocument(WrongId)
    else
      var channels := Member(v, "channels");
      if channels.None? || !channels.value.JObj? then NoDocument(Malformed)
      else
        var entry := Member(channels.value, channel);
        if entry.None? || !entry.value.JObj? then NoDocument(Malformed) else ReadEntry(entry.value)
  }

  function ReadEntry(entry: Value): Document {
    var package := Member(entry, "package");
    if Text(entry, "version").None? || package.None? || !package.value.JObj? || Text(package.value, "url").None?
    then NoDocument(Malformed)
    else
      var sha := Text(package.value, "sha256");
      if sha.None? || !IsSha256Hex(sha.value) then NoDocument(Malformed)
      else Document(Text(entry, "version").value, Text(package.value, "url").value, sha.value)
  }

  // ------------------------------------------------------------------- `check`

  function InstalledVersion(app: App): Option<string> {
    if app.record.version != "" then Some(app.record.version) else app.current
  }

  function Check(w: World, app: Option<App>, id: string, reply: Reply): CheckResult {
    if app.None? then Failed(NotInstalled)
    else if app.value.record.url == "" then Failed(NoSource)
    else
      var update, sig := Bounded(reply.update, MAX_UPDATE_JSON), Bounded(reply.signature, MAX_SIGNATURE);
      if update.None? || sig.None? then Failed(Unreachable)
      else
        var pinned := PublisherKey.PublicKey(app.value.record.key);
        if pinned.None? then Failed(UnreadableKey)
        else if |sig.value| != 64 || !w.verify(update.value, sig.value, pinned.value) then Failed(BadSignature)
        else
          var v := w.parse(update.value);
          if v.None? then Failed(Malformed)
          else
            match ReadDocument(v.value, id, ChannelOf(app.value.record))
            case NoDocument(why) => Failed(why)
            case Document(version, url, sha) =>
              var installed := InstalledVersion(app.value);
              if installed.None? then Failed(NotInstalled) else Offered(Offer(installed.value, version, url, sha))
  }

  // ----------------------------------------------------------------- `install`

  /** What one call of `apply` meets: the server's answers, the downloaded file, the
      verdicts of the trust and permission gates, and how the install ends. */
  datatype Attempt = Attempt(reply: Reply, download: Option<Bytes>, trusted: bool, permitted: bool, ending: Ending)

  /** A call runs to its end, or dies before promotion (and is rolled back), or dies
      after it at some stage of the activation. */
  datatype Ending = Whole | DiesBefore | DiesAfter(stage: Stage)

  /** Before the new record is written; and after that, what the flip has left of the
      name of the current version. */
  datatype Stage = NoRecord | AtOld | Gone | TornName(name: string) | AtNew

  function Recovered(app: App): App {
    if app.pending.None? then app
    else App(app.pending.value, Some(app.pending.value.version), None)
  }

  /** The application when the activation of `next` has got to this stage. */
  function Activating(app: App, next: Terms, stage: Stage): App {
    var current := match stage
      case NoRecord => app.current
      case AtOld => app.current
      case Gone => None
      case TornName(name) => if name == "" then None else Some(name)
      case AtNew => Some(next.version);
    App(if stage.NoRecord? then app.record else next, current, Some(next))
  }

  /** What an install of `next` that ends in this way leaves. */
  function Ended(app: App, next: Terms, e: Ending): App {
    match e
    case Whole => App(next, Some(next.version), None)
    case DiesBefore => app
    case DiesAfter(stage) => Activating(app, next, stage)
  }

  datatype Applied = Applied(app: App, result: Option<Failure>)

  function OptionsOf(t: Attempt, source: string, channel: string): Options {
    Options(t.trusted, t.permitted, false, source, channel)
  }

  /** `Installer::install` of a verified package over an installed application. */
  function Install(app: App, m: Manifest, source: string, channel: string, t: Attempt): Applied {
    var r, o := Recovered(app), OptionsOf(t, source, channel);
    match Judge(Some(r.record), r.current, if app.pending.Some? then Some(app.pending.value.version) else None, m, o)
    case Refuse(why) => Applied(r, Some(Declined(why)))
    case Healed => Applied(r, None)
    case Proceed => Applied(Ended(r, NewTerms(Some(r.record), m, o), t.ending), if t.ending.Whole? then None else Some(Interrupted))
  }

  // ------------------------------------------------------------------- `apply`

  function NotNewer(offered: string, installed: string): Option<Failure> {
    var c := Versions.Compare(offered, installed);
    if c == 0 then Some(UpToDate) else if c < 0 then Some(OlderVersion) else None
  }

  /** Checks 1 to 6 on the package: what stands in the way of installing it. */
  function Vet(w: World, app: App, id: string, offer: Offer, download: Option<Bytes>): (r: Option<Failure>)
    ensures r.None? ==> download.Some? && w.verifyPackage(download.value).Some?
  {
    if NotNewer(offer.available, offer.installed).Some? then NotNewer(offer.available, offer.installed)
    else if download.None? then Some(Unreachable)
    else if w.sha256(download.value) != offer.sha256 then Some(WrongDigest)
    else
      var m := w.verifyPackage(download.value);
      if m.None? then Some(BadPackage)
      else if m.value.id != id then Some(WrongId)
      else if PublisherKey.PublicKey(app.record.key).None? then Some(UnreadableKey)
      else if PublisherKey.PublicKey(m.value.key) != PublisherKey.PublicKey(app.record.key) then Some(OtherKey)
      else NotNewer(m.value.version, offer.installed)
  }

  function Apply(w: World, app: Option<App>, id: string, t: Attempt): (r: (Option<App>, Option<Failure>)) {
    match Check(w, app, id, t.reply)
    case Failed(why) => (app, Some(why))
    case Offered(offer) =>
      assert app.Some?;
      var bad := Vet(w, app.value, id, offer, t.download);
      if bad.Some? then (app, bad)
      else
        var a := Install(app.value, w.verifyPackage(t.download.value).value, offer.url, app.value.record.channel, t);
        (Some(a.app), a.result)
  }

  /** What can happen to one application between two of its states. */
  datatype Step = Update(attempt: Attempt) | SetSource(url: string) | RunRecovery | CutRecovery(stage: Stage)

  function Take(w: World, app: App, id: string, s: Step): (r: App) {
    match s
    case Update(t) => assert Apply(w, Some(app), id, t).0.Some?; Apply(w, Some(app), id, t).0.value
    case SetSource(url) => if url == "" then app else app.(record := app.record.(url := url))
    case RunRecovery => Recovered(app)
    case CutRecovery(stage) => if app.pending.None? then app else Activating(app, app.pending.value, stage)
  }

  // ------------------------------------------------------- what a step may do

  /** The version that is active, or will be once recovery has run. */
  function Effective(app: App): Option<string> {
    if app.pending.Some? then Some(app.pending.value.version) else InstalledVersion(app)
  }

  /** `a` is at or above `b`. */
  predicate AtLeast(a: Option<string>, b: Option<string>) {
    a.Some? && b.Some? && Versions.Compare(a.value, b.value) >= 0
  }

  predicate Above(a: Option<string>, b: Option<string>) {
    a.Some? && b.Some? && Versions.Compare(a.value, b.value) > 0
  }

  predicate SameRank(a: Option<string>, b: Option<string>) {
    a.Some? && b.Some? && Versions.Compare(a.value, b.value) == 0
  }

  predicate Inv(app: App, id: string, key: string) {
    && app.record.id == id && app.record.key == key && Effective(app).Some?
    && (app.pending.Some? ==>
        && app.pending.value.id == id && app.pending.value.key == key && app.pending.value.version != ""
        && (InstalledVersion(app).Some? ==> AtLeast(Effective(app), InstalledVersion(app))))
  }

  /** What is recorded ranks with what is effective: a new offer is measured against
      the version that it would replace. */
  predicate Level(app: App) {
    SameRank(Effective(app), InstalledVersion(app))
  }

  lemma RankReflexive(a: string)
    ensures Versions.Compare(a, a) == 0
  {
    Versions.TotalPreorder(a, a, a);
  }

  /** A package passes the checks exactly if the offer is newer than what is installed, and
      the download has the digest of the offer and is a package of the same application,
      under the same key text in the canonical spelling, and itself newer. */
  lemma VetExact(w: World, app: App, id: string, offer: Offer, download: Option<Bytes>)
    ensures Vet(w, app, id, offer, download).None? <==>
      && Versions.Compare(offer.available, offer.installed) > 0
      && download.Some? && w.sha256(download.value) == offer.sha256
      && w.verifyPackage(download.value).Some?
      && var m := w.verifyPackage(download.value).value;
         && m.id == id && m.key == app.record.key && (exists k :: PublisherKey.IsKeyText(app.record.key, k))
         && Versions.Compare(m.version, offer.installed) > 0
  {
    hide PublisherKey.KeyMaterial, Versions.Compare, PublisherKey.PublicKey, Base64.Encode;
    if download.Some? && w.verifyPackage(download.value).Some? {
      SameSpelling(app.record.key, w.verifyPackage(download.value).value.key);
    }
  }

  /** What stands in the way otherwise, in the order of the checks. */
  lemma VetFailures(w: World, app: App, id: string, offer: Offer, download: Option<Bytes>, m: Manifest)
    requires download.Some? && w.verifyPackage(download.value).Some? ==> m == w.verifyPackage(download.value).value
    ensures var r, c := Vet(w, app, id, offer, download), Versions.Compare(offer.available, offer.installed);
      var got := c > 0 && download.Some?;
      var right := got && w.sha256(download.value) == offer.sha256;
      var read := right && w.verifyPackage(download.value).Some?;
      var own := read && m.id == id;
      var canonical := exists k :: PublisherKey.IsKeyText(app.record.key, k);
      var same := own && canonical && m.key == app.record.key;
      && (r == Some(UpToDate) <==> c == 0 || (same && Versions.Compare(m.version, offer.installed) == 0))
      && (r == Some(OlderVersion) <==> c < 0 || (same && Versions.Compare(m.version, offer.installed) < 0))
      && (r == Some(Unreachable) <==> c > 0 && !got)
      && (r == Some(WrongDigest) <==> got && !right)
      && (r == Some(BadPackage) <==> right && !read)
      && (r == Some(WrongId) <==> read && !own)
      && (r == Some(UnreadableKey) <==> own && !canonical)
      && (r == Some(OtherKey) <==> own && canonical && m.key != app.record.key)
  {
    hide PublisherKey.KeyMaterial, Versions.Compare, PublisherKey.PublicKey, Base64.Encode, PublisherKey.IsKeyText;
    SameSpelling(app.record.key, m.key);
    SameSpelling(app.record.key, app.record.key);
  }

  lemma SameSpelling(a: string, b: string)
    ensures PublisherKey.PublicKey(a).Some? && PublisherKey.PublicKey(b) == PublisherKey.PublicKey(a) <==>
      b == a && exists k :: PublisherKey.IsKeyText(a, k)
  {
    hide PublisherKey.PublicKey, Base64.Encode;
    forall k
      ensures PublisherKey.PublicKey(a) == Some(k) <==> PublisherKey.IsKeyText(a, k)
      ensures PublisherKey.PublicKey(b) == Some(k) <==> PublisherKey.IsKeyText(b, k)
    {
      PublisherKey.SpellingExact(a, k);
      PublisherKey.SpellingExact(b, k);
    }
    if PublisherKey.PublicKey(a).Some? {
      assert PublisherKey.IsKeyText(a, PublisherKey.PublicKey(a).value);
    }
  }

  lemma InstallSteps(app: App, id: string, m: Manifest, source: string, channel: string, t: Attempt)
    requires Inv(app, id, app.record.key) && m.id == id && m.key == app.record.key
    requires InstalledVersion(app).Some? && Versions.Compare(m.version, InstalledVersion(app).value) > 0
    ensures var a := Install(app, m, source, channel, t).app;
      && Inv(a, id, app.record.key) && AtLeast(Effective(a), Effective(app))
      && (Effective(a) != Effective(app) ==> Effective(a) == Some(m.version) && (Level(app) || Settled(app) ==> Above(Effective(a), Effective(app))))
  {
    hide Versions.Compare, PublisherKey.SameKey;
    var old' := Effective(app).value;
    RankReflexive(old');
    RankReflexive(m.version);
    Versions.TotalPreorder(m.version, old', InstalledVersion(app).value);
    if Level(app) {
      Versions.EqualIsCongruent(old', InstalledVersion(app).value, m.version);
      Versions.TotalPreorder(old', m.version, m.version);
      Versions.TotalPreorder(InstalledVersion(app).value, m.version, m.version);
    }
  }

  /** An install that was refused or that died early, or that found the work done,
      leaves a level application; so does one that changes the version without
      raising its rank. */
  lemma InstallLevels(app: App, id: string, m: Manifest, source: string, channel: string, t: Attempt)
    requires Inv(app, id, app.record.key) && m.id == id && m.key == app.record.key
    requires InstalledVersion(app).Some? && Versions.Compare(m.version, InstalledVersion(app).value) > 0
    ensures var a := Install(app, m, source, channel, t).app;
      !Above(Effective(a), Effective(app)) && (Level(app) || Effective(a) != Effective(app)) ==> Level(a)
  {
    hide Versions.Compare, PublisherKey.SameKey;
    var old' := Effective(app).value;
    RankReflexive(old');
    RankReflexive(m.version);
    Versions.TotalPreorder(m.version, old', InstalledVersion(app).value);
  }

  predicate Settled(app: App) {
    app.pending.None?
  }

  /** What every step keeps: the identity and the pinned key, and the order. Where
      the version changes without going up, an interrupted install was pending and
      the application is level afterwards. */
  lemma StepKeeps(w: World, app: App, id: string, s: Step)
    requires Inv(app, id, app.record.key)
    ensures var a := Take(w, app, id, s);
      && Inv(a, id, app.record.key) && AtLeast(Effective(a), Effective(app))
      && (Effective(a) != Effective(app) && !Above(Effective(a), Effective(app)) ==> !Settled(app) && Level(a))
      && (Level(app) ==> Above(Effective(a), Effective(app)) || (Effective(a) == Effective(app) && Level(a)))
  {
    hide Versions.Compare, PublisherKey.SameKey, Vet, Install, Check;
    RankReflexive(Effective(app).value);
    if s.Update? && Check(w, Some(app), id, s.attempt.reply).Offered? {
      var offer := Check(w, Some(app), id, s.attempt.reply).offer;
      OfferMeasures(w, app, id, s.attempt.reply);
      if Vet(w, app, id, offer, s.attempt.download).None? {
        VetExact(w, app, id, offer, s.attempt.download);
        var m := w.verifyPackage(s.attempt.download.value).value;
        InstallSteps(app, id, m, offer.url, app.record.channel, s.attempt);
        InstallLevels(app, id, m, offer.url, app.record.channel, s.attempt);
      }
    }
  }

  lemma OfferMeasures(w: World, app: App, id: string, reply: Reply)
    requires Check(w, Some(app), id, reply).Offered?
    ensures InstalledVersion(app) == Some(Check(w, Some(app), id, reply).offer.installed)
  {
    hide ReadDocument, PublisherKey.PublicKey;
  }

  // --------------------------------------------------------------- whole runs

  ghost predicate IsRun(w: World, id: string, apps: seq<App>, steps: seq<Step>) {
    && |apps| == |steps| + 1
    && Settled(apps[0]) && apps[0].record.id == id && InstalledVersion(apps[0]).Some?
    && forall i :: 0 <= i < |steps| ==> apps[i + 1] == Take(w, apps[i], id, steps[i])
  }

  /** Over every run, with any number of interrupted updates, the identity and the
      pinned key text stay, also in what an interrupted install left behind. */
  lemma {:induction false} IdentityIsKept(w: World, id: string, apps: seq<App>, steps: seq<Step>, j: nat)
    requires IsRun(w, id, apps, steps) && j < |apps|
    ensures Inv(apps[j], id, apps[0].record.key)
  {
    hide Take;
    if j > 0 {
      IdentityIsKept(w, id, apps, steps, j - 1);
      StepKeeps(w, apps[j - 1], id, steps[j - 1]);
      assert apps[j] == Take(w, apps[j - 1], id, steps[j - 1]);
    }
  }

  /** Over every run the version never goes down. */
  lemma {:induction false} VersionsNeverGoDown(w: World, id: string, apps: seq<App>, steps: seq<Step>, i: nat, j: nat)
    requires IsRun(w, id, apps, steps) && i <= j < |apps|
    ensures AtLeast(Effective(apps[j]), Effective(apps[i]))
    decreases j
  {
    hide Take, Versions.Compare;
    IdentityIsKept(w, id, apps, steps, i);
    if i == j {
      RankReflexive(Effective(apps[i]).value);
    } else {
      IdentityIsKept(w, id, apps, steps, j - 1);
      VersionsNeverGoDown(w, id, apps, steps, i, j - 1);
      StepKeeps(w, apps[j - 1], id, steps[j - 1]);
      assert apps[j] == Take(w, apps[j - 1], id, steps[j - 1]);
      RanksCompose(Effective(apps[j]).value, Effective(apps[j - 1]).value, Effective(apps[i]).value);
    }
  }

  lemma RanksCompose(a: string, b: string, c: string)
    requires Versions.Compare(a, b) >= 0 && Versions.Compare(b, c) >= 0
    ensures Versions.Compare(a, c) >= 0
    ensures Versions.Compare(a, b) > 0 || Versions.Compare(b, c) > 0 ==> Versions.Compare(a, c) > 0
  {
    hide Versions.Compare;
    Versions.TotalPreorder(c, b, a);
    Versions.TotalPreorder(b, a, a);
    Versions.TotalPreorder(c, a, a);
  }

  /** From a level application on, a version that changes has gone up. */
  lemma {:induction false} LevelOnwards(w: World, id: string, apps: seq<App>, steps: seq<Step>, i: nat, j: nat)
    requires IsRun(w, id, apps, steps) && i <= j < |apps| && Level(apps[i])
    ensures Above(Effective(apps[j]), Effective(apps[i])) || (Effective(apps[j]) == Effective(apps[i]) && Level(apps[j]))
    decreases j
  {
    hide Take, Versions.Compare;
    if i < j {
      LevelOnwards(w, id, apps, steps, i, j - 1);
      IdentityIsKept(w, id, apps, steps, j - 1);
      StepKeeps(w, apps[j - 1], id, steps[j - 1]);
      assert apps[j] == Take(w, apps[j - 1], id, steps[j - 1]);
      if Above(Effective(apps[j - 1]), Effective(apps[i])) {
        RanksCompose(Effective(apps[j]).value, Effective(apps[j - 1]).value, Effective(apps[i]).value);
      }
    }
  }

  /** Over every run, a version that has been replaced never comes back. */
  lemma NoVersionRecurs(w: World, id: string, apps: seq<App>, steps: seq<Step>, i: nat, k: nat)
    requires IsRun(w, id, apps, steps) && i + 1 <= k < |apps| && Effective(apps[i + 1]) != Effective(apps[i])
    ensures Effective(apps[k]) != Effective(apps[i])
  {
    hide Take, Versions.Compare;
    IdentityIsKept(w, id, apps, steps, i);
    StepKeeps(w, apps[i], id, steps[i]);
    assert apps[i + 1] == Take(w, apps[i], id, steps[i]);
    var was := Effective(apps[i]).value;
    RankReflexive(was);
    if Above(Effective(apps[i + 1]), Effective(apps[i])) {
      VersionsNeverGoDown(w, id, apps, steps, i + 1, k);
      RanksCompose(Effective(apps[k]).value, Effective(apps[i + 1]).value, was);
    } else {
      LevelOnwards(w, id, apps, steps, i + 1, k);
      if Above(Effective(apps[k]), Effective(apps[i + 1])) {
        RanksCompose(Effective(apps[k]).value, Effective(apps[i + 1]).value, was);
      }
    }
  }

  /** An update that reports success has raised the version, unless it found an
      interrupted one pending with a version of the same rank. */
  lemma SuccessExact(w: World, app: App, id: string, t: Attempt)
    requires Inv(app, id, app.record.key) && Apply(w, Some(app), id, t).1.None?
    ensures var a, m := Apply(w, Some(app), id, t).0.value, w.verifyPackage(t.download.value).value;
      && Settled(a) && Effective(a) == Some(m.version)
      && (Above(Effective(a), Effective(app)) <==>
          !(app.pending.Some? && Versions.Compare(m.version, app.pending.value.version) == 0))
  {
    hide Versions.Compare, PublisherKey.SameKey, Vet, Check;
    var offer := Check(w, Some(app), id, t.reply).offer;
    OfferMeasures(w, app, id, t.reply);
    VetExact(w, app, id, offer, t.download);
    var m := w.verifyPackage(t.download.value).value;
    RankReflexive(m.version);
    StepKeeps(w, app, id, Update(t));
  }

  // ------------------------------------------------------ the source of updates

  /** The update source that is recorded, or will be once recovery has run. */
  function EffectiveSource(app: App): string {
    if app.pending.Some? then app.pending.value.url else app.record.url
  }

  /** No step but a change of source replaces a source that is configured. */
  lemma StepKeepsSource(w: World, app: App, id: string, s: Step)
    requires !s.SetSource? && EffectiveSource(app) != ""
    ensures EffectiveSource(Take(w, app, id, s)) == EffectiveSource(app)
  {
    hide Vet, Check, Judge;
  }

  /** A change of source is what it says if and only if no interrupted install is
      pending, or only one with that very source. */
  lemma SetSourceExact(w: World, app: App, id: string, url: string)
    requires url != ""
    ensures EffectiveSource(Take(w, app, id, SetSource(url))) == url <==> Settled(app) || app.pending.value.url == url
    ensures Take(w, app, id, SetSource(url)).record.url == url
  {
  }

  /** Over every run, until the source is set again and through updates, crashes and
      recoveries: a source set at step `i` stays in effect if it took effect then, and
      where an interrupted install had another one pending, that one does. */
  lemma {:induction false} SourceIsKept(w: World, id: string, apps: seq<App>, steps: seq<Step>, i: nat, j: nat, url: string)
    requires IsRun(w, id, apps, steps) && i < j < |apps| && url != "" && steps[i] == SetSource(url)
    requires forall k :: i < k < j ==> !steps[k].SetSource?
    ensures Settled(apps[i]) || apps[i].pending.value.url == url ==> EffectiveSource(apps[j]) == url
    ensures !Settled(apps[i]) && apps[i].pending.value.url != "" ==> EffectiveSource(apps[j]) == apps[i].pending.value.url
    decreases j
  {
    hide Take;
    if j == i + 1 {
      assert apps[i + 1] == Take(w, apps[i], id, steps[i]);
      SourceAfter(w, apps[i], id, url);
    } else {
      SourceIsKept(w, id, apps, steps, i, j - 1, url);
      assert apps[j] == Take(w, apps[j - 1], id, steps[j - 1]);
      if EffectiveSource(apps[j - 1]) != "" {
        StepKeepsSource(w, apps[j - 1], id, steps[j - 1]);
      }
    }
  }

  lemma SourceAfter(w: World, app: App, id: string, url: string)
    requires url != ""
    ensures EffectiveSource(Take(w, app, id, SetSource(url))) == if Settled(app) then url else app.pending.value.url
  {
  }

  /** A user moves an application from one source to another while an interrupted update
      is pending: the next recovery brings the old source back. */
  lemma SourceLostExample(w: World, id: string, k: string)
    ensures var was := AppDirectory.Terms(id, "1", k, "old", "", "s");
      var app := App(was, Some("1"), Some(was.(version := "2")));
      var moved := Take(w, app, id, SetSource("new"));
      moved.record.url == "new" && Take(w, moved, id, RunRecovery).record.url == "old"
  {
  }

  /** Among the documents that this world takes, one that offers something and is signed
      under the recorded key. */
  ghost predicate SignedOffer(w: World, app: App, id: string, pinned: PublisherKey.Key, update: Bytes, sig: Bytes) {
    && |update| <= MAX_UPDATE_JSON && |sig| == 64 && w.verify(update, sig, pinned)
    && w.parse(update).Some? && ReadDocument(w.parse(update).value, id, ChannelOf(app.record)).Document?
  }

  /** In any world, some answer of the server makes an offer to an application that has a
      source and a version exactly if the recorded key is in the canonical spelling and
      an offer is signed under it. */
  lemma OfferableExact(w: World, app: App, id: string)
    requires app.record.url != "" && InstalledVersion(app).Some?
    ensures (exists reply: Reply :: Check(w, Some(app), id, reply).Offered?) <==>
      (PublisherKey.PublicKey(app.record.key).Some?
       && exists update, sig :: SignedOffer(w, app, id, PublisherKey.PublicKey(app.record.key).value, update, sig))
  {
    hide PublisherKey.PublicKey, ReadDocument;
    if reply: Reply :| Check(w, Some(app), id, reply).Offered? {
      assert SignedOffer(w, app, id, PublisherKey.PublicKey(app.record.key).value, reply.update.value, reply.signature.value);
    }
    if PublisherKey.PublicKey(app.record.key).Some? {
      if update, sig :| SignedOffer(w, app, id, PublisherKey.PublicKey(app.record.key).value, update, sig) {
        assert Check(w, Some(app), id, Reply(Some(update), Some(sig))).Offered?;
      }
    }
  }

  /** So to an application whose recorded key is not in the canonical spelling no update
      can be offered in any world; to any other one it can in some. */
  lemma OfferableSomewhere(app: App, id: string)
    requires app.record.url != "" && InstalledVersion(app).Some? && id != ""
    ensures (exists w: World, reply: Reply :: Check(w, Some(app), id, reply).Offered?)
      <==> PublisherKey.PublicKey(app.record.key).Some?
  {
    hide PublisherKey.PublicKey, ReadDocument;
    if PublisherKey.PublicKey(app.record.key).Some? {
      var doc := OfferedDocument(id, ChannelOf(app.record));
      var w := World((_, _, _) => true, _ => Some(doc), _ => "", _ => None);
      var reply := Reply(Some([]), Some(seq(64, _ => 0)));
      assert Check(w, Some(app), id, reply).Offered?;
    }
  }

  /** A document that offers something on this channel. */
  lemma OfferedDocument(id: string, channel: string) returns (doc: Value)
    requires id != ""
    ensures ReadDocument(doc, id, channel).Document?
  {
    var package := JObj(map["url" := JStr("u"), "sha256" := JStr(seq(64, _ => '0'))]);
    var entry := JObj(map["version" := JStr("1"), "package" := package]);
    doc := JObj(map["id" := JStr(id), "channels" := JObj(map[channel := entry])]);
    assert ReadEntry(entry).Document?;
    assert ReadDocument(doc, id, channel) == ReadEntry(entry);
  }

  /** An interrupted update to 1.0 followed by an update to 1.00: both are offered over
      0.9, and the second replaces the first without going up. */
  lemma RespellingExample(w: World, id: string, doc: Bytes, sig: Bytes, package: Bytes, key: PublisherKey.Key)
    requires |doc| <= MAX_UPDATE_JSON && |sig| == 64 && w.verify(doc, sig, key) && w.parse(doc).Some?
    requires ReadDocument(w.parse(doc).value, id, "stable") == Document("1.00", "u", w.sha256(package))
    requires w.verifyPackage(package) == Some(Manifest(id, "1.00", PublisherKey.EncodeKey(key), "u"))
    ensures var k := PublisherKey.EncodeKey(key);
      var app := App(AppDirectory.Terms(id, "0.9", k, "u", "", "s"), Some("0.9"),
                     Some(AppDirectory.Terms(id, "1.0", k, "u", "", "s")));
      var t := Attempt(Reply(Some(doc), Some(sig)), Some(package), true, true, Whole);
      Inv(app, id, k) && Apply(w, Some(app), id, t).1.None?
      && Effective(app) == Some("1.0") && Effective(Apply(w, Some(app), id, t).0.value) == Some("1.00")
      && !Above(Some("1.00"), Some("1.0"))
  {
    hide PublisherKey.PublicKey, PublisherKey.KeyMaterial, ReadDocument, Versions.Compare, PublisherKey.EncodeKey;
    PublisherKey.EncodedKeyReads(key);
    KeyIsItself(key);
    Spellings();
  }

  lemma KeyIsItself(key: PublisherKey.Key)
    ensures PublisherKey.SameKey(PublisherKey.EncodeKey(key), PublisherKey.EncodeKey(key))
  {
    PublisherKey.EncodedKeyReads(key);
  }

  lemma Spellings()
    ensures Versions.Compare("1.00", "1.0") == 0
    ensures Versions.Compare("1.00", "0.9") > 0 && Versions.Compare("1.0", "0.9") > 0
  {
    hide Versions.Split, Versions.CompareComponent;
    Versions.SplitTwo("1", "00");
    Versions.SplitTwo("1", "0");
    Versions.SplitTwo("0", "9");
    assert "1" + "." + "00" == "1.00" && "1" + "." + "0" == "1.0" && "0" + "." + "9" == "0.9";
    Versions.OneStep("1", ["00"], "1", ["0"]);
    Versions.OneStep("1", ["00"], "0", ["9"]);
    Versions.OneStep("1", ["0"], "0", ["9"]);
    Versions.OneStep("00", [], "0", []);
    assert ["1"] + ["00"] == ["1", "00"] && ["1"] + ["0"] == ["1", "0"] && ["0"] + ["9"] == ["0", "9"];
    assert ["00"] + [] == ["00"] && ["0"] + [] == ["0"];
    SmallNumbers();
  }

  lemma SmallNumbers()
    ensures Versions.CompareComponent("1", "1") == 0 && Versions.CompareComponent("00", "0") == 0
    ensures Versions.CompareComponent("1", "0") > 0
  {
    hide Versions.CompareComponent, Decimal.Value;
    Versions.OneDigit('0');
    Versions.ValueBack("1");
    Versions.ValueBack("0");
    Versions.ValueBack("00");
    assert "1"[..0] == "" && "0"[..0] == "" && "00"[..1] == "0";
    Versions.NumericByValue("1", "1");
    Versions.NumericByValue("00", "0");
    Versions.NumericByValue("1", "0");
  }
}
